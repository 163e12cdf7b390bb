/**
 * Concrete runs of the engine: each lemma fixes a text, a prefix and a store,
 * and states what the engine produces. The text is a parameter fixed by the
 * precondition, so that the verifier reasons about it through the general
 * lemmas rather than by unfolding the scanner character by character.
 */
module Scenarios {
  import opened Options
  import opened Text
  import opened Lookup
  import opened Scanner
  import opened Interpolation

  /** The token `t`, that is `{pfx:name}`, is a match under prefix `pfx` and is looked up as `name`. */
  lemma PfxToken(t: string, name: string)
    requires name != "" && forall q :: 0 <= q < |name| ==> IsWordChar(name[q])
    requires t == "{pfx:" + name + "}"
    ensures IsToken(t, "pfx:") && SchemaName(t, "pfx") == name
  {
    PrefixedToken("pfx", name);
    assert "{" + PrefixString("pfx") + name + "}" == t;
  }

  /** `$hello` holds no token: the output receives `hello`, the sentinel stripped. */
  lemma StripsSentinel(value: string, store: Store)
    requires value == "$hello"
    ensures Interpolated(map["f" := value], "f", "f", "pfx", store) == map["f" := "hello"]
  {
    ExpandWithoutBraces(value[1..], "pfx", store);
  }

  /** A defined variable without an override is replaced by its default. */
  lemma FullResolution(text: string, store: Store)
    requires text == "prefix is " + "{pfx:Foo}"
    requires store == Store([Definition(1, "Foo", Some("bar"))], [])
    ensures Expand(text, "pfx", store) == "prefix is " + "bar"
  {
    var t := "{pfx:Foo}";
    PfxToken(t, "Foo");
    assert FirstDefinition(store.definitions, "Foo", 0);
    ResolveDefault(t, "pfx", store, 0);
    ExpandOneToken("prefix is ", t, "", "pfx", store);
    assert "prefix is " + t + "" == text;
  }


  /** An override value wins over the default. */
  lemma OverridePrecedence(text: string, store: Store)
    requires text == "prefix is " + "{pfx:Foo}"
    requires store == Store([Definition(1, "Foo", Some("bar"))], [VariableValue(1, Some("baz"))])
    ensures Expand(text, "pfx", store) == "prefix is " + "baz"
  {
    var t := "{pfx:Foo}";
    PfxToken(t, "Foo");
    assert FirstDefinition(store.definitions, "Foo", 0);
    assert FirstValue(store.values, 1, 0);
    ResolveOverride(t, "pfx", store, 0, 0);
    ExpandOneToken("prefix is ", t, "", "pfx", store);
    assert "prefix is " + t + "" == text;
  }


  /** A token whose name has no definition is left verbatim. */
  lemma UnresolvedTokenVerbatim(text: string, store: Store)
    requires text == "value is " + "{pfx:Missing}"
    requires store == Store([Definition(1, "Foo", Some("bar"))], [])
    ensures Expand(text, "pfx", store) == text
  {
    var t := "{pfx:Missing}";
    PfxToken(t, "Missing");
    ResolveUndefined(t, "pfx", store);
    assert store.definitions[0].schemaName != "Missing";
    ExpandOneToken("value is ", t, "", "pfx", store);
    assert "value is " + t + "" == text;
  }


  /** A token repeated in the text is replaced at both places. */
  lemma DuplicateTokens(text: string, store: Store)
    requires text == "x=" + "{pfx:A}" + " y=" + "{pfx:A}"
    requires store == Store([Definition(7, "A", Some("1"))], [])
    ensures Expand(text, "pfx", store) == "x=" + "1" + " y=" + "1"
  {
    var t := "{pfx:A}";
    PfxToken(t, "A");
    assert FirstDefinition(store.definitions, "A", 0);
    ResolveDefault(t, "pfx", store, 0);
    ExpandDuplicateToken("x=", t, " y=", "", "1", "pfx", store);
    assert "x=" + t + " y=" + t + "" == text;
    assert "x=" + "1" + " y=" + "1" + "" == "x=" + "1" + " y=" + "1";
  }


  /** A token with another prefix is not a match, whatever the store holds. */
  lemma ForeignPrefixVerbatim(text: string, store: Store)
    requires text == "see " + "{other:A}"
    ensures Matches(text, "pfx") == []
    ensures Expand(text, "pfx", store) == text
  {
    assert PrefixString("pfx") == "pfx:";
    assert forall q :: 0 <= q < 4 ==> text[q] != '{';
    assert !OccursIgnoringCaseAt(text, 5, "pfx:") by {
      assert text[5] == 'o' && Lower(text[5]) != Lower("pfx:"[0]);
    }
    ScanSkip(text, "pfx:", 0, 5);
    assert forall q :: 5 <= q < |text| ==> text[q] != '{';
    ScanWithoutBraces(text, "pfx:", 5);
  }


  /**
   * The scan ignores case but the name extraction does not: `{PFX:A}` is a
   * match under prefix `pfx`, yet it is looked up as `{PFX:A`, which no
   * definition has, so it stays verbatim although `A` is defined.
   */
  lemma CaseMismatchedPrefixVerbatim(text: string, store: Store)
    requires text == "{PFX:A}"
    requires store == Store([Definition(7, "A", Some("1"))], [])
    ensures Matches(text, "pfx") == [text]
    ensures SchemaName(text, "pfx") == "{PFX:A"
    ensures Expand(text, "pfx", store) == text
  {
    UpperCasePrefixToken(text);
    MatchesOfOneToken("", text, "", "pfx");
    assert "" + text + "" == text;
    ResolveUndefined(text, "pfx", store);
    assert store.definitions[0].schemaName != "{PFX:A";
    ExpandOneToken("", text, "", "pfx", store);
  }

  /** `{PFX:A}` is a match under prefix `pfx`, and its schema name keeps the upper-case prefix. */
  lemma UpperCasePrefixToken(text: string)
    requires text == "{PFX:A}"
    ensures IsToken(text, PrefixString("pfx")) && SchemaName(text, "pfx") == "{PFX:A"
  {
    assert PrefixString("pfx") == "pfx:";
    assert OccursIgnoringCaseAt(text, 1, "pfx:") by {
      assert Lower(text[1]) == 'p' && Lower(text[2]) == 'f' && Lower(text[3]) == 'x';
    }
    assert IsToken(text, "pfx:");
    assert WordPrefix("pfx");
    SchemaNameOfToken(text, "pfx");
    assert text[1..5] != "pfx:" by { assert text[1..5][0] == 'P'; }
    assert text[..|text| - 1] == "{PFX:A";
  }


  /** An override whose value is null removes the token. */
  lemma NullOverrideRemovesToken(text: string, store: Store)
    requires text == "a" + "{pfx:A}" + "b"
    requires store == Store([Definition(7, "A", Some("1"))], [VariableValue(7, None)])
    ensures Expand(text, "pfx", store) == "a" + "b"
  {
    var t := "{pfx:A}";
    PfxToken(t, "A");
    assert FirstDefinition(store.definitions, "A", 0);
    assert FirstValue(store.values, 7, 0);
    ResolveOverride(t, "pfx", store, 0, 0);
    ExpandRemovesToken("a", t, "b", "pfx", store);
  }


  /** A definition with a null default and no override leaves the token verbatim. */
  lemma NullDefaultKeepsToken(text: string, store: Store)
    requires text == "a" + "{pfx:A}" + "b"
    requires store == Store([Definition(7, "A", None)], [])
    ensures Expand(text, "pfx", store) == text
  {
    var t := "{pfx:A}";
    PfxToken(t, "A");
    assert FirstDefinition(store.definitions, "A", 0);
    ResolveDefault(t, "pfx", store, 0);
    ExpandOneToken("a", t, "b", "pfx", store);
  }


  /** An empty default is substituted: the token disappears. */
  lemma EmptyDefaultRemovesToken(text: string, store: Store)
    requires text == "a" + "{pfx:A}" + "b"
    requires store == Store([Definition(7, "A", Some(""))], [])
    ensures Expand(text, "pfx", store) == "a" + "b"
  {
    var t := "{pfx:A}";
    PfxToken(t, "A");
    assert FirstDefinition(store.definitions, "A", 0);
    ResolveDefault(t, "pfx", store, 0);
    assert store.definitions[0].defaultValue.GetOr(t) == "";
    ExpandRemovesToken("a", t, "b", "pfx", store);
  }


  /** Of two definitions with the same schema name, and of two values for one definition, the first wins. */
  lemma FirstRecordsWin(text: string, store: Store)
    requires text == "v=" + "{pfx:A}"
    requires store == Store([Definition(7, "A", Some("1")), Definition(8, "A", Some("2"))],
                            [VariableValue(8, Some("z")), VariableValue(7, Some("x")), VariableValue(7, Some("y"))])
    ensures Expand(text, "pfx", store) == "v=" + "x"
  {
    var t := "{pfx:A}";
    PfxToken(t, "A");
    assert FirstDefinition(store.definitions, "A", 0);
    assert FirstValue(store.values, 7, 1);
    ResolveOverride(t, "pfx", store, 0, 1);
    ExpandOneToken("v=", t, "", "pfx", store);
    assert "v=" + t + "" == text;
  }



  /** Without a prefix, tokens are bare names in braces. */
  lemma UnprefixedToken(text: string, store: Store)
    requires text == "v=" + "{A}"
    requires store == Store([Definition(7, "A", Some("1"))], [])
    ensures Expand(text, "", store) == "v=" + "1"
  {
    var t := "{A}";
    PrefixedToken("", "A");
    assert "{" + PrefixString("") + "A" + "}" == t;
    assert FirstDefinition(store.definitions, "A", 0);
    ResolveDefault(t, "", store, 0);
    ExpandOneToken("v=", t, "", "", store);
    assert "v=" + t + "" == text;
  }


  /** With a distinct output attribute, the input keeps its original value, sentinel included. */
  lemma DistinctOutputAttribute(value: string, attributes: map<string, string>, store: Store)
    requires value == "$" + "x " + "{pfx:A}"
    requires attributes == map["in" := value, "out" := "old"]
    requires store == Store([Definition(7, "A", Some("1"))], [])
    ensures var r := Interpolated(attributes, "in", "out", "pfx", store);
      r.Keys == {"in", "out"} && r["in"] == value && r["out"] == "x " + "1"
  {
    var t := "{pfx:A}";
    PfxToken(t, "A");
    assert FirstDefinition(store.definitions, "A", 0);
    ResolveDefault(t, "pfx", store, 0);
    assert StartsWith(attributes["in"], "$");
    assert value[1..] == "x " + t + "";
    ExpandOneToken("x ", t, "", "pfx", store);
    assert "x " + "1" + "" == "x " + "1";
  }


  /**
   * Each substitution acts on the working string: `A` resolves to the text of
   * the later token `{pfx:B}`, so the later substitution of `B` rewrites the
   * value inserted for `A` as well as its own occurrence.
   */
  lemma LaterTokenRewritesInsertedValue(text: string, store: Store)
    requires text == "{pfx:A}" + "{pfx:B}"
    requires store == Store([Definition(7, "A", Some("{pfx:B}")), Definition(8, "B", Some("2"))], [])
    ensures Expand(text, "pfx", store) == "2" + "2"
  {
    var a, b := "{pfx:A}", "{pfx:B}";
    PfxToken(a, "A");
    PfxToken(b, "B");
    assert FirstDefinition(store.definitions, "A", 0);
    assert FirstDefinition(store.definitions, "B", 1);
    ResolveDefault(a, "pfx", store, 0);
    ResolveDefault(b, "pfx", store, 1);
    assert WordPrefix("pfx");
    ExpandChainedTokens(a, b, "2", "pfx", store);
  }

}
