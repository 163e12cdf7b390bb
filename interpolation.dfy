/**
 * The interpolation engine of `EntityInterpolation.Interpolate`: the field
 * presence gate, the `$` sentinel gate, stripping the sentinel, scanning the
 * stripped text for tokens, resolving each token against the store and
 * substituting it, and writing the result into the output attribute.
 */
module Interpolation {
  import opened Options
  import opened Text
  import opened Lookup
  import opened Scanner

  /**
   * The name looked up for a match: its text with `{` + prefix string and
   * then every `}` removed. Unlike the scan, this removal is case-sensitive.
   */
  function SchemaName(token: string, prefix: string): string {
    Replace(Replace(token, "{" + PrefixString(prefix), ""), "}", "")
  }

  /** A prefix made of word characters only, so that it holds no regular-expression metacharacter. */
  predicate WordPrefix(prefix: string) {
    forall q :: 0 <= q < |prefix| ==> IsWordChar(prefix[q])
  }

  /** Text that opens with `{`, closes with `}` and holds no other brace of either kind in between. */
  predicate Delimited(t: string) {
    |t| >= 2 && t[0] == '{' && t[|t| - 1] == '}' &&
    (forall q :: 1 <= q < |t| ==> t[q] != '{') &&
    (forall q :: 0 <= q < |t| - 1 ==> t[q] != '}')
  }

  /** Every match is delimited: after its `{`, there is no brace but the closing one. */
  lemma TokenBraces(token: string, prefix: string)
    requires WordPrefix(prefix) && IsToken(token, PrefixString(prefix))
    ensures Delimited(token)
  {
    var ps := PrefixString(prefix);
    forall q | 1 <= q < 1 + |ps|
      ensures token[q] != '{' && token[q] != '}'
    {
      var c := ps[q - 1];
      if q - 1 < |prefix| {
        assert ps[..|prefix|][q - 1] == c;
      }
      if token[q] == '{' {
        LowerFixesNonLetters(c, '{');
      } else if token[q] == '}' {
        LowerFixesNonLetters(c, '}');
      }
    }
  }

  /**
   * The schema name of a match is its bare name only when the match spells the
   * prefix exactly as configured; a match that spells it in another case (the
   * scan ignores case) keeps its `{prefix:` and loses only its `}`.
   */
  lemma SchemaNameOfToken(token: string, prefix: string)
    requires WordPrefix(prefix) && IsToken(token, PrefixString(prefix))
    ensures var ps := PrefixString(prefix);
      SchemaName(token, prefix) ==
        if token[1..1 + |ps|] == ps then token[1 + |ps|..|token| - 1] else token[..|token| - 1]
  {
    var ps := PrefixString(prefix);
    TokenBraces(token, prefix);
    if token[1..1 + |ps|] == ps {
      SchemaNameExactPrefix(token, prefix);
    } else {
      SchemaNameOtherPrefix(token, prefix);
    }
  }

  /** A match spelling the prefix as configured loses `{`, the prefix and `}`. */
  lemma SchemaNameExactPrefix(token: string, prefix: string)
    requires IsToken(token, PrefixString(prefix)) && token[1..1 + |PrefixString(prefix)|] == PrefixString(prefix)
    requires forall q :: 1 <= q < |token| ==> token[q] != '{'
    requires forall q :: 0 <= q < |token| - 1 ==> token[q] != '}'
    ensures SchemaName(token, prefix) == token[1 + |PrefixString(prefix)|..|token| - 1]
  {
    var ps := PrefixString(prefix);
    var o := "{" + ps;
    var w := token[1 + |ps|..|token| - 1];
    assert Replace(token, o, "") == w + ['}'] by {
      assert token[..|o|] == o;
      assert '{' !in token[|o|..] by {
        forall q | 0 <= q < |token[|o|..]| ensures token[|o|..][q] != '{' { assert token[|o|..][q] == token[|o| + q]; }
      }
      ReplaceLeading(token, o, "");
      assert token[|o|..] == w + ['}'];
    }
    assert '}' !in w by {
      forall q | 0 <= q < |w| ensures w[q] != '}' { assert w[q] == token[1 + |ps| + q]; }
    }
    ReplaceTrailingChar(w, '}', "");
  }

  /** A match spelling the prefix in another case keeps `{` and the prefix, and loses only `}`. */
  lemma SchemaNameOtherPrefix(token: string, prefix: string)
    requires IsToken(token, PrefixString(prefix)) && token[1..1 + |PrefixString(prefix)|] != PrefixString(prefix)
    requires forall q :: 1 <= q < |token| ==> token[q] != '{'
    requires forall q :: 0 <= q < |token| - 1 ==> token[q] != '}'
    ensures SchemaName(token, prefix) == token[..|token| - 1]
  {
    var ps := PrefixString(prefix);
    var o := "{" + ps;
    var body := token[..|token| - 1];
    assert token == body + ['}'];
    assert '}' !in body by {
      forall q | 0 <= q < |body| ensures body[q] != '}' { assert body[q] == token[q]; }
    }
    assert token[..|o|] != o by {
      assert token[..|o|][1..] == token[1..1 + |ps|];
    }
    assert '{' !in token[1..] by {
      forall q | 0 <= q < |token[1..]| ensures token[1..][q] != '{' { assert token[1..][q] == token[1 + q]; }
    }
    CountWithoutFirstChar(token[1..], o);
    ReplaceAbsent(token[1..], o, "");
    assert [token[0]] + token[1..] == token;
    assert Replace(token, o, "") == token;
    ReplaceTrailingChar(body, '}', "");
  }

  /** A token written with the configured prefix is a match, and its schema name is the name it wraps. */
  lemma PrefixedToken(prefix: string, name: string)
    requires WordPrefix(prefix) && name != "" && forall q :: 0 <= q < |name| ==> IsWordChar(name[q])
    ensures var t := "{" + PrefixString(prefix) + name + "}";
      IsToken(t, PrefixString(prefix)) && SchemaName(t, prefix) == name
  {
    var ps := PrefixString(prefix);
    var t := "{" + ps + name + "}";
    assert t[1..1 + |ps|] == ps;
    assert forall q :: 0 <= q < |ps| ==> t[1 + q] == ps[q];
    assert forall q :: 1 + |ps| <= q < |t| - 1 ==> t[q] == name[q - 1 - |ps|];
    assert IsToken(t, ps);
    SchemaNameOfToken(t, prefix);
    assert t[1 + |ps|..|t| - 1] == name;
  }

  /**
   * How one match resolves against the store: `None` when no definition has
   * its schema name (the token is skipped), otherwise the text to substitute:
   * the first value record referencing the first such definition wins (a null
   * value substitutes nothing), else the definition's non-null default, else
   * the match's own text.
   */
  function Resolve(token: string, prefix: string, store: Store): Option<string>
  {
    match FindDefinition(store.definitions, SchemaName(token, prefix))
    case None => None
    case Some(j) =>
      var definition := store.definitions[j];
      match FindValue(store.values, definition.id)
      case None => Some(definition.defaultValue.GetOr(token))
      case Some(k) => Some(store.values[k].value.GetOr(""))
  }

  /** A match is skipped exactly when no definition carries its schema name. */
  lemma ResolveUndefined(token: string, prefix: string, store: Store)
    ensures Resolve(token, prefix, store).None? <==>
      forall j :: 0 <= j < |store.definitions| ==> store.definitions[j].schemaName != SchemaName(token, prefix)
  {
  }

  /** The first value referencing the first definition of the name wins; a null value substitutes nothing. */
  lemma ResolveOverride(token: string, prefix: string, store: Store, j: int, k: int)
    requires FirstDefinition(store.definitions, SchemaName(token, prefix), j)
    requires FirstValue(store.values, store.definitions[j].id, k)
    ensures Resolve(token, prefix, store) == Some(store.values[k].value.GetOr(""))
  {
    FindDefinitionFirst(store.definitions, SchemaName(token, prefix), j);
    FindValueFirst(store.values, store.definitions[j].id, k);
  }

  /** Without a value, the first definition's default applies, and a null default falls back to the match itself. */
  lemma ResolveDefault(token: string, prefix: string, store: Store, j: int)
    requires FirstDefinition(store.definitions, SchemaName(token, prefix), j)
    requires forall k :: 0 <= k < |store.values| ==> store.values[k].definitionId != store.definitions[j].id
    ensures Resolve(token, prefix, store) == Some(store.definitions[j].defaultValue.GetOr(token))
  {
    FindDefinitionFirst(store.definitions, SchemaName(token, prefix), j);
  }

  /** One step of the loop: an unresolved match leaves the working string alone, a resolved one replaces every occurrence of its text. */
  function Substitute(s: string, token: string, prefix: string, store: Store): string
    requires token != ""
  {
    match Resolve(token, prefix, store)
    case None => s
    case Some(v) => Replace(s, token, v)
  }

  /** Every match in `tokens`, in order, substituted into the working string. */
  function SubstituteAll(s: string, tokens: seq<string>, prefix: string, store: Store): string
    requires forall k :: 0 <= k < |tokens| ==> tokens[k] != ""
    decreases |tokens|
  {
    if tokens == [] then s
    else Substitute(SubstituteAll(s, tokens[..|tokens| - 1], prefix, store), tokens[|tokens| - 1], prefix, store)
  }

  /**
   * The stripped text with all its matches substituted. The matches are
   * found once, in the stripped text; each substitution acts on the working
   * string, which earlier substitutions may already have changed.
   */
  function Expand(text: string, prefix: string, store: Store): string {
    SubstituteAll(text, Matches(text, prefix), prefix, store)
  }

  /** A match that resolves to nothing or to its own text leaves the working string as it was. */
  predicate Inert(token: string, prefix: string, store: Store) {
    Resolve(token, prefix, store).None? || Resolve(token, prefix, store) == Some(token)
  }

  /** Substituting one more match of a list extends the substitutions of its prefix by one step. */
  lemma SubstituteAllStep(s: string, tokens: seq<string>, i: nat, prefix: string, store: Store)
    requires i < |tokens| && forall k :: 0 <= k < |tokens| ==> tokens[k] != ""
    ensures SubstituteAll(s, tokens[..i + 1], prefix, store) ==
      Substitute(SubstituteAll(s, tokens[..i], prefix, store), tokens[i], prefix, store)
  {
    assert tokens[..i + 1][..i] == tokens[..i];
  }

  /** When every match is inert, substituting them all changes nothing. */
  lemma {:induction false} SubstituteAllInert(s: string, tokens: seq<string>, prefix: string, store: Store)
    requires forall k :: 0 <= k < |tokens| ==> tokens[k] != "" && Inert(tokens[k], prefix, store)
    ensures SubstituteAll(s, tokens, prefix, store) == s
    decreases |tokens|
  {
    if tokens != [] {
      var last := tokens[|tokens| - 1];
      SubstituteAllInert(s, tokens[..|tokens| - 1], prefix, store);
      if Resolve(last, prefix, store).Some? {
        ReplaceSelf(s, last);
      }
    }
  }

  /** Text whose matches all resolve to nothing, or to themselves, comes out verbatim. */
  lemma ExpandInert(text: string, prefix: string, store: Store)
    requires forall t :: t in Matches(text, prefix) ==> Inert(t, prefix, store)
    ensures Expand(text, prefix, store) == text
  {
    var ms := Matches(text, prefix);
    forall k | 0 <= k < |ms| ensures ms[k] != "" && Inert(ms[k], prefix, store) {
      assert ms[k] in ms;
    }
    SubstituteAllInert(text, ms, prefix, store);
  }

  /** Text without `{` holds no token and comes out verbatim. */
  lemma ExpandWithoutBraces(text: string, prefix: string, store: Store)
    requires '{' !in text
    ensures Expand(text, prefix, store) == text
  {
    MatchesWithoutBraces(text, prefix);
  }

  /** A store with no definitions resolves nothing, so every match is left verbatim. */
  lemma ExpandWithoutDefinitions(text: string, prefix: string, values: seq<VariableValue>)
    ensures Expand(text, prefix, Store([], values)) == text
  {
    ExpandInert(text, prefix, Store([], values));
  }

  /** The substitution of a single match. */
  lemma SubstituteAllOne(s: string, t: string, prefix: string, store: Store)
    requires t != ""
    ensures SubstituteAll(s, [t], prefix, store) == Substitute(s, t, prefix, store)
  {
    assert [t][..0] == [];
  }

  /** The substitutions of two matches, the first one first. */
  lemma SubstituteAllTwo(s: string, t1: string, t2: string, prefix: string, store: Store)
    requires t1 != "" && t2 != ""
    ensures SubstituteAll(s, [t1, t2], prefix, store) ==
      Substitute(Substitute(s, t1, prefix, store), t2, prefix, store)
  {
    assert [t1, t2][..1] == [t1];
    SubstituteAllOne(s, t1, prefix, store);
  }

  /** Text with exactly two matches: both substituted, the first one first. */
  lemma ExpandTwoMatches(s: string, t1: string, t2: string, prefix: string, store: Store)
    requires t1 != "" && t2 != "" && Matches(s, prefix) == [t1, t2]
    ensures Expand(s, prefix, store) == Substitute(Substitute(s, t1, prefix, store), t2, prefix, store)
  {
    SubstituteAllTwo(s, t1, t2, prefix, store);
  }

  /** Replacing a token that stands once in brace-free text. */
  lemma ReplaceLoneToken(a: string, t: string, b: string, v: string)
    requires t != "" && t[0] == '{' && '{' !in a && '{' !in b
    ensures Replace(a + t + b, t, v) == a + v + b
  {
    assert a + t + b == a + (t + b);
    ReplaceSkip(a, t + b, t, v);
    ReplaceAtStart(t, b, v);
    CountWithoutFirstChar(b, t);
    ReplaceAbsent(b, t, v);
  }

  /**
   * A single token in brace-free text is replaced by what it resolves to,
   * the text around it kept; when it resolves to nothing it stays verbatim.
   */
  lemma ExpandOneToken(a: string, t: string, b: string, prefix: string, store: Store)
    requires '{' !in a && '{' !in b && IsToken(t, PrefixString(prefix))
    ensures Resolve(t, prefix, store).None? ==> Expand(a + t + b, prefix, store) == a + t + b
    ensures Resolve(t, prefix, store).Some? ==>
      Expand(a + t + b, prefix, store) == a + Resolve(t, prefix, store).value + b
  {
    MatchesOfOneToken(a, t, b, prefix);
    SubstituteAllOne(a + t + b, t, prefix, store);
    if Resolve(t, prefix, store).Some? {
      ReplaceLoneToken(a, t, b, Resolve(t, prefix, store).value);
    }
  }

  /** A single token in brace-free text that resolves to the empty string disappears. */
  lemma ExpandRemovesToken(a: string, t: string, b: string, prefix: string, store: Store)
    requires '{' !in a && '{' !in b && IsToken(t, PrefixString(prefix))
    requires Resolve(t, prefix, store) == Some("")
    ensures Expand(a + t + b, prefix, store) == a + b
  {
    ExpandOneToken(a, t, b, prefix, store);
    assert a + "" + b == a + b;
  }

  /** Replacing a token that stands twice in brace-free text rewrites both occurrences. */
  lemma ReplaceTwiceToken(a: string, t: string, b: string, c: string, v: string)
    requires t != "" && t[0] == '{' && '{' !in a && '{' !in b && '{' !in c
    ensures Replace(a + t + b + t + c, t, v) == a + v + b + v + c
  {
    assert a + t + b + t + c == a + (t + (b + t + c));
    ReplaceSkip(a, t + (b + t + c), t, v);
    ReplaceAtStart(t, b + t + c, v);
    ReplaceLoneToken(b, t, c, v);
    assert a + (v + (b + v + c)) == a + v + b + v + c;
  }

  /**
   * Both occurrences of a repeated token are replaced by the first
   * substitution (which rewrites every occurrence); the second lookup of the
   * same token then finds nothing left to replace.
   */
  lemma ExpandDuplicateToken(a: string, t: string, b: string, c: string, v: string, prefix: string, store: Store)
    requires '{' !in a && '{' !in b && '{' !in c && '{' !in v
    requires IsToken(t, PrefixString(prefix)) && Resolve(t, prefix, store) == Some(v)
    ensures Expand(a + t + b + t + c, prefix, store) == a + v + b + v + c
  {
    var s := a + t + b + t + c;
    MatchesOfTwoTokens(a, t, b, t, c, prefix);
    SubstituteAllTwo(s, t, t, prefix, store);
    ReplaceTwiceToken(a, t, b, c, v);
    var once := a + v + b + v + c;
    assert '{' !in once;
    CountWithoutFirstChar(once, t);
    ReplaceAbsent(once, t, v);
  }

  /** A match holds no other match: replacing one match's text inside another's leaves it as it was. */
  lemma ReplaceInOtherToken(u: string, t: string, n: string, prefix: string)
    requires WordPrefix(prefix) && IsToken(u, PrefixString(prefix)) && IsToken(t, PrefixString(prefix))
    requires u != t
    ensures Replace(u, t, n) == u
  {
    TokenBraces(u, prefix);
    if |u| >= |t| {
      assert '{' !in u[1..] by {
        forall q | 0 <= q < |u[1..]| ensures u[1..][q] != '{' { assert u[1..][q] == u[1 + q]; }
      }
      CountWithoutFirstChar(u[1..], t);
      ReplaceAbsent(u[1..], t, n);
      assert [u[0]] + u[1..] == u;
    }
  }

  /**
   * Substitutions chain through the working string: when the first of two
   * adjacent matches resolves to the text of the second, the second
   * substitution rewrites the value inserted for the first as well.
   */
  lemma ExpandChainedTokens(t1: string, t2: string, v: string, prefix: string, store: Store)
    requires WordPrefix(prefix) && IsToken(t1, PrefixString(prefix)) && IsToken(t2, PrefixString(prefix))
    requires Resolve(t1, prefix, store) == Some(t2) && Resolve(t2, prefix, store) == Some(v)
    ensures Expand(t1 + t2, prefix, store) == v + v
  {
    MatchesOfAdjacentTokens(t1, t2, prefix);
    ExpandTwoMatches(t1 + t2, t1, t2, prefix, store);
    assert Substitute(Substitute(t1 + t2, t1, prefix, store), t2, prefix, store) ==
      Replace(Replace(t1 + t2, t1, t2), t2, v);
    ReplaceChained(t1, t2, v, prefix);
  }

  /** The two replacements behind `ExpandChainedTokens`. */
  lemma ReplaceChained(t1: string, t2: string, v: string, prefix: string)
    requires WordPrefix(prefix) && IsToken(t1, PrefixString(prefix)) && IsToken(t2, PrefixString(prefix))
    requires t1 == t2 ==> v == t2
    ensures Replace(Replace(t1 + t2, t1, t2), t2, v) == v + v
  {
    var once := Replace(t1 + t2, t1, t2);
    if t1 == t2 {
      ReplaceSelf(t1 + t2, t1);
      ReplaceSelf(once, t2);
    } else {
      ReplaceAtStart(t1, t2, t2);
      ReplaceInOtherToken(t2, t1, t2, prefix);
      assert once == t2 + t2;
      ReplaceAtStart(t2, t2, v);
      ReplaceAtStart(t2, "", v);
      assert t2 + "" == t2;
    }
  }

  /**
   * The effect of `Interpolate` on a record's attributes: unchanged when the
   * input attribute is missing or does not start with `$`; otherwise the
   * output attribute, and only it, receives the expansion of the input
   * value without its first character.
   */
  function Interpolated(attributes: map<string, string>, inputAttribute: string, outputAttribute: string,
                        prefix: string, store: Store): (r: map<string, string>)
    ensures inputAttribute !in attributes ==> r == attributes
    ensures inputAttribute in attributes && !StartsWith(attributes[inputAttribute], "$") ==> r == attributes
    ensures inputAttribute in attributes && StartsWith(attributes[inputAttribute], "$") ==>
      r.Keys == attributes.Keys + {outputAttribute} &&
      r[outputAttribute] == Expand(attributes[inputAttribute][1..], prefix, store)
    ensures forall a :: a in attributes && a != outputAttribute ==> a in r && r[a] == attributes[a]
  {
    if inputAttribute !in attributes then attributes
    else
      var input := attributes[inputAttribute];
      if !StartsWith(input, "$") then attributes
      else attributes[outputAttribute := Expand(input[1..], prefix, store)]
  }

  /**
   * With the output attribute defaulted to the input attribute, the expansion
   * overwrites the input value in place and no attribute is added.
   */
  lemma InterpolatedInPlace(attributes: map<string, string>, attribute: string, prefix: string, store: Store)
    requires attribute in attributes && StartsWith(attributes[attribute], "$")
    ensures var r := Interpolated(attributes, attribute, attribute, prefix, store);
      r.Keys == attributes.Keys && r[attribute] == Expand(attributes[attribute][1..], prefix, store)
  {
  }

  /**
   * The substitution loop: one lookup per match, duplicates included, each
   * resolved match replacing every occurrence of its text in the current
   * working string.
   */
  method SubstituteMatches(text: string, prefix: string, store: Store) returns (result: string)
    ensures result == Expand(text, prefix, store)
  {
    var matches := Matches(text, prefix);
    assert forall k :: 0 <= k < |matches| ==> matches[k] != "";
    result := text;
    for i := 0 to |matches|
      invariant result == SubstituteAll(text, matches[..i], prefix, store)
    {
      SubstituteAllStep(text, matches, i, prefix, store);
      var item := matches[i];
      var schemaName := SchemaName(item, prefix);
      var definition := FindDefinition(store.definitions, schemaName);
      if definition.None? {
        continue;
      }
      var defaultValue := store.definitions[definition.value].defaultValue;
      var variableValue := FindValue(store.values, store.definitions[definition.value].id);
      var value := defaultValue.GetOr(item);
      if variableValue.Some? {
        value := store.values[variableValue.value].value.GetOr("");
      }
      result := Replace(result, item, value);
    }
    assert matches[..|matches|] == matches;
  }

  /** A record: a bag of named string attributes, updated in place. */
  class Entity {
    var attributes: map<string, string>

    constructor (attributes: map<string, string>)
      ensures this.attributes == attributes
    {
      this.attributes := attributes;
    }
  }

  /** The engine object, holding the store it queries. */
  class EntityInterpolation {
    const store: Store

    constructor (store: Store)
      ensures this.store == store
    {
      this.store := store;
    }

    /** Interpolates `entity` in place and returns it. */
    method Interpolate(entity: Entity, inputAttribute: string, outputAttribute: string, prefix: string)
      returns (r: Entity)
      modifies entity
      ensures r == entity
      ensures entity.attributes == Interpolated(old(entity.attributes), inputAttribute, outputAttribute, prefix, store)
    {
      if inputAttribute !in entity.attributes {
        return entity;
      }
      var input := entity.attributes[inputAttribute];
      if !StartsWith(input, "$") {
        return entity;
      }
      input := input[1..];
      input := SubstituteMatches(input, prefix, store);
      entity.attributes := entity.attributes[outputAttribute := input];
      return entity;
    }
  }
}
