/**
 * The engine on whole templates: text made of brace-free pieces and tokens,
 * with any number of tokens. Two facts hold for any such text: every token is
 * replaced by what it resolves to (as long as no resolved value holds `{`),
 * and a token that resolves to nothing or to itself survives into the output
 * of any text whatever.
 */
module Templates {
  import opened Options
  import opened Text
  import opened Lookup
  import opened Scanner
  import opened Interpolation

  /** A delimited string never starts with a different delimited one, nor is a proper prefix of one. */
  lemma DelimitedNotPrefix(u: string, rest: string, t: string)
    requires Delimited(u) && Delimited(t) && u != t && |t| <= |u + rest|
    ensures (u + rest)[..|t|] != t
  {
    var s := u + rest;
    if |t| < |u| {
      assert s[..|t|][|t| - 1] == u[|t| - 1];
    } else if |t| == |u| {
      assert s[..|t|] == u;
    } else {
      assert s[..|t|][|u| - 1] == u[|u| - 1];
    }
  }

  /** A delimited string is copied through when a different one is replaced in the text after it. */
  lemma ReplaceSkipDelimited(u: string, rest: string, t: string, n: string)
    requires Delimited(u) && Delimited(t) && u != t
    ensures Replace(u + rest, t, n) == u + Replace(rest, t, n)
  {
    var s := u + rest;
    if |s| < |t| {
      assert Replace(rest, t, n) == rest;
    } else {
      DelimitedNotPrefix(u, rest, t);
      assert Replace(s, t, n) == [u[0]] + Replace(s[1..], t, n);
      var tail := u[1..];
      assert s[1..] == tail + rest;
      assert t[0] !in tail by {
        forall q | 0 <= q < |tail| ensures tail[q] != '{' { assert tail[q] == u[1 + q]; }
      }
      ReplaceSkip(tail, rest, t, n);
      assert [u[0]] + tail == u;
    }
  }

  /**
   * Replacing one delimited string rewrites the text on either side of a
   * different one and leaves it intact: no occurrence can overlap it.
   */
  lemma ReplaceAroundDelimited(x: string, u: string, y: string, t: string, n: string)
    requires Delimited(u) && Delimited(t) && u != t
    ensures Replace(x + u + y, t, n) == Replace(x, t, n) + u + Replace(y, t, n)
  {
    assert x + u + y == x + (u + y);
    ReplaceBeforeBrace(x, u + y, t, n);
    ReplaceSkipDelimited(u, y, t, n);
  }

  /** A stretch of a template: brace-free text or one whole token. */
  predicate Segment(x: string) {
    '{' !in x || Delimited(x)
  }

  /** A segment at the front is rewritten as a whole or not at all. */
  lemma ReplaceOverSegment(x: string, rest: string, t: string, n: string)
    requires Delimited(t) && Segment(x)
    ensures Replace(x + rest, t, n) == (if x == t then n else x) + Replace(rest, t, n)
  {
    if x == t {
      ReplaceAtStart(t, rest, n);
    } else if '{' !in x {
      ReplaceSkip(x, rest, t, n);
    } else {
      ReplaceSkipDelimited(x, rest, t, n);
    }
  }

  /** Every item equal to `t` becomes `n`; the others stay. */
  function Swap(items: seq<string>, t: string, n: string): (r: seq<string>)
    ensures |r| == |items|
    ensures forall j :: 0 <= j < |items| ==> r[j] == if items[j] == t then n else items[j]
  {
    seq(|items|, j requires 0 <= j < |items| => if items[j] == t then n else items[j])
  }

  /** A brace-free piece and a segment at the front: the piece is copied, the segment rewritten as a whole or not at all. */
  lemma ReplacePieceSegment(a: string, x: string, rest: string, t: string, n: string)
    requires Delimited(t) && '{' !in a && Segment(x)
    ensures Replace(a + x + rest, t, n) == a + (if x == t then n else x) + Replace(rest, t, n)
  {
    assert a + x + rest == a + (x + rest);
    ReplaceSkip(a, x + rest, t, n);
    ReplaceOverSegment(x, rest, t, n);
  }

  /** Replacing a delimited string in a template of brace-free pieces and segments swaps exactly the segments equal to it. */
  lemma {:induction false} ReplaceAssembled(pieces: seq<string>, items: seq<string>, t: string, n: string)
    requires Delimited(t) && |pieces| == |items| + 1
    requires forall j :: 0 <= j < |pieces| ==> '{' !in pieces[j]
    requires forall j :: 0 <= j < |items| ==> Segment(items[j])
    ensures Replace(Assemble(pieces, items), t, n) == Assemble(pieces, Swap(items, t, n))
    decreases |items|
  {
    if items == [] {
      CountWithoutFirstChar(pieces[0], t);
      ReplaceAbsent(pieces[0], t, n);
      assert Swap(items, t, n) == [];
    } else {
      var swapped := Swap(items, t, n);
      ReplacePieceSegment(pieces[0], items[0], Assemble(pieces[1..], items[1..]), t, n);
      forall j | 0 <= j < |pieces[1..]| ensures '{' !in pieces[1..][j] {
        assert pieces[1..][j] == pieces[j + 1];
      }
      forall j | 0 <= j < |items[1..]| ensures Segment(items[1..][j]) {
        assert items[1..][j] == items[j + 1];
      }
      ReplaceAssembled(pieces[1..], items[1..], t, n);
      assert swapped[1..] == Swap(items[1..], t, n);
    }
  }

  /** What a match turns into: its resolution, or the match itself when it has none. */
  function Resolution(token: string, prefix: string, store: Store): string {
    Resolve(token, prefix, store).GetOr(token)
  }

  /** A match whose resolution cannot form new text with braces: it is brace-free or the match itself. */
  predicate Settled(token: string, prefix: string, store: Store) {
    '{' !in Resolution(token, prefix, store) || Resolution(token, prefix, store) == token
  }

  /** The resolutions of all the matches, in order. */
  function Resolutions(tokens: seq<string>, prefix: string, store: Store): (r: seq<string>)
    ensures |r| == |tokens|
    ensures forall j :: 0 <= j < |tokens| ==> r[j] == Resolution(tokens[j], prefix, store)
  {
    seq(|tokens|, j requires 0 <= j < |tokens| => Resolution(tokens[j], prefix, store))
  }

  /** A substitution is a replacement by the match's resolution: with no definition, the match replaces itself. */
  lemma SubstituteAsReplace(w: string, token: string, prefix: string, store: Store)
    requires token != ""
    ensures Substitute(w, token, prefix, store) == Replace(w, token, Resolution(token, prefix, store))
  {
    if Resolve(token, prefix, store).None? {
      ReplaceSelf(w, token);
    }
  }

  /** The template's segments once the first `k` tokens are substituted: every copy of a token already seen holds its resolution. */
  function Partial(tokens: seq<string>, resolved: seq<string>, k: nat): (r: seq<string>)
    requires |resolved| == |tokens| && k <= |tokens|
    ensures |r| == |tokens|
    ensures forall j :: 0 <= j < |tokens| ==> r[j] == if tokens[j] in tokens[..k] then resolved[j] else tokens[j]
  {
    seq(|tokens|, j requires 0 <= j < |tokens| => if tokens[j] in tokens[..k] then resolved[j] else tokens[j])
  }

  /** After any number of passes, every segment is brace-free or a whole delimited token. */
  lemma PartialSegments(tokens: seq<string>, resolved: seq<string>, i: nat)
    requires |resolved| == |tokens| && i <= |tokens|
    requires forall j :: 0 <= j < |tokens| ==> Delimited(tokens[j])
    requires forall j :: 0 <= j < |tokens| ==> '{' !in resolved[j] || resolved[j] == tokens[j]
    ensures forall j :: 0 <= j < |tokens| ==> Segment(Partial(tokens, resolved, i)[j])
  {
    var before := Partial(tokens, resolved, i);
    forall j | 0 <= j < |tokens| ensures Segment(before[j]) {
      assert Delimited(tokens[j]);
    }
  }

  /**
   * Swapping token `i` for its resolution turns the segments after `i`
   * tokens into those after `i + 1`, when equal tokens resolve alike and no
   * resolution but a token's own text holds a `{`.
   */
  lemma SwapPartial(tokens: seq<string>, resolved: seq<string>, i: nat)
    requires |resolved| == |tokens| && i < |tokens|
    requires forall j :: 0 <= j < |tokens| ==> Delimited(tokens[j])
    requires forall j :: 0 <= j < |tokens| ==> '{' !in resolved[j] || resolved[j] == tokens[j]
    requires forall j, k :: 0 <= j < |tokens| && 0 <= k < |tokens| && tokens[j] == tokens[k] ==> resolved[j] == resolved[k]
    ensures forall j :: 0 <= j < |tokens| ==> Segment(Partial(tokens, resolved, i)[j])
    ensures Swap(Partial(tokens, resolved, i), tokens[i], resolved[i]) == Partial(tokens, resolved, i + 1)
  {
    var t := tokens[i];
    var before, after := Partial(tokens, resolved, i), Partial(tokens, resolved, i + 1);
    assert tokens[..i + 1] == tokens[..i] + [t];
    PartialSegments(tokens, resolved, i);
    var swapped := Swap(before, t, resolved[i]);
    forall j | 0 <= j < |tokens| ensures swapped[j] == after[j] {
      var seen := tokens[j] in tokens[..i];
      assert (tokens[j] in tokens[..i + 1]) == (seen || tokens[j] == t);
      if seen {
        assert before[j] == resolved[j] && after[j] == resolved[j];
        if resolved[j] == t {
          assert Delimited(t) && t[0] in resolved[j];
          assert tokens[j] == t;
        }
      } else if tokens[j] == t {
        assert before[j] == t && after[j] == resolved[j];
      } else {
        assert before[j] == tokens[j] && after[j] == tokens[j];
      }
    }
  }

  /** One more replacement over a template resolves every copy of one more token. */
  lemma PartialStep(pieces: seq<string>, tokens: seq<string>, resolved: seq<string>, i: nat)
    requires |pieces| == |tokens| + 1 && |resolved| == |tokens| && i < |tokens|
    requires forall j :: 0 <= j < |pieces| ==> '{' !in pieces[j]
    requires forall j :: 0 <= j < |tokens| ==> Delimited(tokens[j])
    requires Delimited(tokens[i])
    requires forall j :: 0 <= j < |tokens| ==> '{' !in resolved[j] || resolved[j] == tokens[j]
    requires forall j, k :: 0 <= j < |tokens| && 0 <= k < |tokens| && tokens[j] == tokens[k] ==> resolved[j] == resolved[k]
    ensures Replace(Assemble(pieces, Partial(tokens, resolved, i)), tokens[i], resolved[i]) ==
      Assemble(pieces, Partial(tokens, resolved, i + 1))
  {
    SwapPartial(tokens, resolved, i);
    ReplaceAssembled(pieces, Partial(tokens, resolved, i), tokens[i], resolved[i]);
  }

  /** The loop invariant of the substitution over a template. */
  lemma {:induction false} SubstituteTemplate(pieces: seq<string>, tokens: seq<string>, k: nat, prefix: string, store: Store)
    requires |pieces| == |tokens| + 1 && k <= |tokens|
    requires forall j :: 0 <= j < |pieces| ==> '{' !in pieces[j]
    requires forall j :: 0 <= j < |tokens| ==> Delimited(tokens[j]) && Settled(tokens[j], prefix, store)
    ensures forall j :: 0 <= j < |tokens| ==> tokens[j] != ""
    ensures SubstituteAll(Assemble(pieces, tokens), tokens[..k], prefix, store) ==
      Assemble(pieces, Partial(tokens, Resolutions(tokens, prefix, store), k))
    decreases k
  {
    var resolved := Resolutions(tokens, prefix, store);
    if k == 0 {
      assert tokens[..0] == [];
      assert Partial(tokens, resolved, 0) == tokens;
    } else {
      var i := k - 1;
      SubstituteTemplate(pieces, tokens, i, prefix, store);
      SubstituteAllStep(Assemble(pieces, tokens), tokens, i, prefix, store);
      SubstituteAsReplace(Assemble(pieces, Partial(tokens, resolved, i)), tokens[i], prefix, store);
      PartialStep(pieces, tokens, resolved, i);
    }
  }

  /**
   * A template `a0 + t1 + a1 + … + tn + an` of brace-free pieces and tokens
   * comes out as `a0 + r1 + a1 + … + rn + an`, each `ri` being what `ti`
   * resolves to, or `ti` itself when it has no definition — provided no
   * resolution introduces a `{` (which could complete a new token that a
   * later replacement would rewrite).
   */
  lemma ExpandTemplate(pieces: seq<string>, tokens: seq<string>, prefix: string, store: Store)
    requires WordPrefix(prefix) && |pieces| == |tokens| + 1
    requires forall j :: 0 <= j < |pieces| ==> '{' !in pieces[j]
    requires forall j :: 0 <= j < |tokens| ==> IsToken(tokens[j], PrefixString(prefix)) && Settled(tokens[j], prefix, store)
    ensures Expand(Assemble(pieces, tokens), prefix, store) == Assemble(pieces, Resolutions(tokens, prefix, store))
  {
    MatchesOfTemplate(pieces, tokens, prefix);
    forall j | 0 <= j < |tokens| ensures Delimited(tokens[j]) {
      TokenBraces(tokens[j], prefix);
    }
    SubstituteTemplate(pieces, tokens, |tokens|, prefix, store);
    assert tokens[..|tokens|] == tokens;
    forall j | 0 <= j < |tokens| ensures tokens[j] in tokens {
    }
    assert Partial(tokens, Resolutions(tokens, prefix, store), |tokens|) == Resolutions(tokens, prefix, store);
  }

  /** `t` appears somewhere in `s`. */
  predicate Occurs(t: string, s: string) {
    exists i :: 0 <= i <= |s| && StartsWith(s[i..], t)
  }

  /** Replacing a different delimited string keeps an occurrence of a delimited one. */
  lemma ReplaceKeeps(w: string, t: string, u: string, v: string)
    requires Delimited(t) && Delimited(u) && u != t && Occurs(t, w)
    ensures Occurs(t, Replace(w, u, v))
  {
    var p :| 0 <= p <= |w| && StartsWith(w[p..], t);
    var x, y := w[..p], w[p + |t|..];
    assert w == x + t + y;
    ReplaceAroundDelimited(x, t, y, u, v);
    var r := Replace(x, u, v) + t + Replace(y, u, v);
    assert StartsWith(r[|Replace(x, u, v)|..], t);
  }

  /** Substituting matches keeps an occurrence of an inert token. */
  lemma {:induction false} SubstituteAllKeeps(s: string, tokens: seq<string>, t: string, prefix: string, store: Store)
    requires Delimited(t) && Inert(t, prefix, store) && Occurs(t, s)
    requires forall k :: 0 <= k < |tokens| ==> Delimited(tokens[k])
    ensures forall k :: 0 <= k < |tokens| ==> tokens[k] != ""
    ensures Occurs(t, SubstituteAll(s, tokens, prefix, store))
    decreases |tokens|
  {
    if tokens != [] {
      var i := |tokens| - 1;
      var u := tokens[i];
      assert Delimited(u);
      SubstituteAllKeeps(s, tokens[..i], t, prefix, store);
      var w := SubstituteAll(s, tokens[..i], prefix, store);
      SubstituteAllStep(s, tokens, i, prefix, store);
      assert tokens[..i + 1] == tokens;
      SubstituteAsReplace(w, u, prefix, store);
      if u == t {
        ReplaceSelf(w, t);
      } else {
        ReplaceKeeps(w, t, u, Resolution(u, prefix, store));
      }
    }
  }

  /** A slice occurs in the string it is cut from. */
  lemma SliceOccurs(s: string, i: nat, e: nat)
    requires i <= e <= |s|
    ensures Occurs(s[i..e], s)
  {
    assert s[i..][..e - i] == s[i..e];
    assert StartsWith(s[i..], s[i..e]);
  }

  /** Every match occurs in the text it was found in. */
  lemma MatchOccurs(text: string, t: string, prefix: string)
    requires t in Matches(text, prefix)
    ensures Occurs(t, text)
  {
    var spans := Scan(text, PrefixString(prefix), 0);
    var ms := Texts(text, spans);
    assert ms == Matches(text, prefix);
    var k :| 0 <= k < |ms| && ms[k] == t;
    SliceOccurs(text, spans[k].start, spans[k].end);
  }

  /** Every match of a word prefix is delimited. */
  lemma MatchesDelimited(text: string, prefix: string)
    requires WordPrefix(prefix)
    ensures forall j :: 0 <= j < |Matches(text, prefix)| ==> Delimited(Matches(text, prefix)[j])
  {
    var ms := Matches(text, prefix);
    forall j | 0 <= j < |ms| ensures Delimited(ms[j]) {
      TokenBraces(ms[j], prefix);
    }
  }

  /**
   * A match that has no definition, or resolves to its own text, is still in
   * the output, whatever else the text holds and whatever the other matches
   * resolve to.
   */
  lemma ExpandKeepsInert(text: string, t: string, prefix: string, store: Store)
    requires WordPrefix(prefix) && t in Matches(text, prefix) && Inert(t, prefix, store)
    ensures Occurs(t, Expand(text, prefix, store))
  {
    MatchOccurs(text, t, prefix);
    MatchesDelimited(text, prefix);
    TokenBraces(t, prefix);
    SubstituteAllKeeps(text, Matches(text, prefix), t, prefix, store);
  }
}
