/**
 * The token scanner: the matches of the regular expression `\{` + `prefix:` +
 * `\w+` + `}` under `RegexOptions.IgnoreCase`, found left to right and without
 * overlap, as `Regex.Matches` returns them.
 *
 * The prefix is compared literally (ASCII letters without regard to case);
 * `\w` is the ASCII word class. Because `\w` cannot match `}`, the greedy
 * `\w+` never backtracks, so a match at a position is decided by the
 * maximal run of word characters that follows the prefix.
 */
module Scanner {
  import opened Options
  import opened Text

  /** The text spliced between `{` and the name: `prefix:`, or nothing when there is no prefix. */
  function PrefixString(prefix: string): (r: string)
    ensures prefix == "" ==> r == ""
    ensures prefix != "" ==> |r| == |prefix| + 1 && r[..|prefix|] == prefix && r[|prefix|] == ':'
  {
    if prefix == "" then "" else prefix + ":"
  }

  /** The prefix string holds `:` exactly when a prefix is configured, and `{` only when the prefix does. */
  lemma PrefixStringContents(prefix: string)
    ensures ':' in PrefixString(prefix) <==> prefix != ""
    ensures '{' !in prefix ==> '{' !in PrefixString(prefix)
  {
    var ps := PrefixString(prefix);
    if prefix != "" {
      assert ps[|prefix|] == ':';
      forall q | 0 <= q < |prefix| ensures ps[q] == prefix[q] {
        assert ps[..|prefix|][q] == ps[q];
      }
    }
  }

  /**
   * `t` is one whole match of the pattern for prefix string `ps`: `{`, then
   * `ps` up to case, then one or more word characters, then `}`.
   */
  predicate IsToken(t: string, ps: string) {
    |t| >= |ps| + 3 && t[0] == '{' && OccursIgnoringCaseAt(t, 1, ps) &&
    (forall q :: 1 + |ps| <= q < |t| - 1 ==> IsWordChar(t[q])) &&
    t[|t| - 1] == '}'
  }

  /** The end of the run of word characters that starts at `k`. */
  function WordEnd(s: string, k: nat): (j: nat)
    requires k <= |s|
    ensures k <= j <= |s|
    ensures forall q :: k <= q < j ==> IsWordChar(s[q])
    ensures j < |s| ==> !IsWordChar(s[j])
    decreases |s| - k
  {
    if k < |s| && IsWordChar(s[k]) then WordEnd(s, k + 1) else k
  }

  /** The end (exclusive) of the match that starts at position `i`, if the pattern matches there. */
  function TokenEnd(s: string, i: nat, ps: string): (r: Option<nat>)
    requires i <= |s|
    ensures r.Some? ==> i < r.value <= |s| && IsToken(s[i..r.value], ps)
  {
    var k := i + 1 + |ps|;
    if i < |s| && s[i] == '{' && OccursIgnoringCaseAt(s, i + 1, ps) then
      var j := WordEnd(s, k);
      if k < j < |s| && s[j] == '}' then
        Some(j + 1)
      else None
    else None
  }

  /** Conversely, wherever a whole token starts, `TokenEnd` finds exactly it. */
  lemma TokenEndComplete(s: string, i: nat, e: nat, ps: string)
    requires i <= e <= |s| && IsToken(s[i..e], ps)
    ensures TokenEnd(s, i, ps) == Some(e)
  {
    var t, k := s[i..e], i + 1 + |ps|;
    forall q | k <= q < e - 1 ensures IsWordChar(s[q]) {
      assert s[q] == t[q - i];
    }
    assert s[e - 1] == t[|t| - 1];
    assert !IsWordChar(s[e - 1]);
    assert WordEnd(s, k) == e - 1;
  }

  /** A match contains no `{` after its first character, as long as the prefix holds none. */
  lemma NoBraceInsideToken(s: string, i: nat, ps: string, p: nat)
    requires '{' !in ps
    requires i <= |s| && TokenEnd(s, i, ps).Some? && i < p < TokenEnd(s, i, ps).value
    ensures s[p] != '{'
  {
    var e := TokenEnd(s, i, ps).value;
    var t := s[i..e];
    assert s[p] == t[p - i];
    if p - i < 1 + |ps| {
      if s[p] == '{' {
        LowerFixesNonLetters(ps[p - i - 1], '{');
      }
    }
  }

  /** The position of one match: `start` inclusive, `end` exclusive. */
  datatype Span = Span(start: nat, end: nat)

  /** The matches from position `i` onwards, left to right, each resuming where the previous ended. */
  function Scan(s: string, ps: string, i: nat): (r: seq<Span>)
    requires i <= |s|
    ensures forall k :: 0 <= k < |r| ==>
      i <= r[k].start < r[k].end <= |s| && TokenEnd(s, r[k].start, ps) == Some(r[k].end)
    ensures forall k :: 0 < k < |r| ==> r[k - 1].end <= r[k].start
    decreases |s| - i
  {
    if i == |s| then []
    else match TokenEnd(s, i, ps)
      case Some(e) => [Span(i, e)] + Scan(s, ps, e)
      case None => Scan(s, ps, i + 1)
  }

  /**
   * The scan is complete: every position from `i` on where the pattern
   * matches is the start of one of the reported matches. Matches cannot
   * overlap when the prefix holds no `{`, so none is hidden inside another.
   * (The converse, that every reported match is a match, is `Scan`'s own
   * postcondition.)
   */
  lemma {:induction false} ScanFindsEveryToken(s: string, ps: string, i: nat, p: nat)
    requires '{' !in ps
    requires i <= p < |s| && TokenEnd(s, p, ps).Some?
    ensures Span(p, TokenEnd(s, p, ps).value) in Scan(s, ps, i)
    decreases |s| - i
  {
    var r := Scan(s, ps, i);
    match TokenEnd(s, i, ps)
    case Some(e) =>
      assert r == [Span(i, e)] + Scan(s, ps, e);
      if p < e && p != i {
        NoBraceInsideToken(s, i, ps, p);
        assert false;
      } else if p != i {
        ScanFindsEveryToken(s, ps, e, p);
      }
    case None =>
      assert r == Scan(s, ps, i + 1);
      ScanFindsEveryToken(s, ps, i + 1, p);
  }

  /** Text without `{` holds no match. */
  lemma {:induction false} ScanWithoutBraces(s: string, ps: string, i: nat)
    requires i <= |s|
    requires forall q :: i <= q < |s| ==> s[q] != '{'
    ensures Scan(s, ps, i) == []
    decreases |s| - i
  {
    if i < |s| {
      assert TokenEnd(s, i, ps).None?;
      ScanWithoutBraces(s, ps, i + 1);
    }
  }

  /** Positions where no match starts are passed over. */
  lemma {:induction false} ScanSkip(s: string, ps: string, i: nat, j: nat)
    requires i <= j <= |s|
    requires forall q :: i <= q < j ==> TokenEnd(s, q, ps).None?
    ensures Scan(s, ps, i) == Scan(s, ps, j)
    decreases j - i
  {
    if i < j {
      ScanSkip(s, ps, i + 1, j);
    }
  }

  /** A match found at `i` is reported, and the scan resumes at its end. */
  lemma ScanTokenAt(s: string, ps: string, i: nat, e: nat)
    requires i <= e <= |s| && IsToken(s[i..e], ps)
    ensures Scan(s, ps, i) == [Span(i, e)] + Scan(s, ps, e)
  {
    TokenEndComplete(s, i, e, ps);
  }

  /** Brace-free text up to a token: the token is the next match. */
  lemma ScanToToken(s: string, ps: string, i: nat, j: nat, k: nat)
    requires i <= j <= k <= |s|
    requires forall q :: i <= q < j ==> s[q] != '{'
    requires IsToken(s[j..k], ps)
    ensures Scan(s, ps, i) == [Span(j, k)] + Scan(s, ps, k)
  {
    ScanSkip(s, ps, i, j);
    ScanTokenAt(s, ps, j, k);
  }

  /** Brace-free text around one token: the token is the only match. */
  lemma MatchesOfOneToken(a: string, t: string, b: string, prefix: string)
    requires '{' !in a && '{' !in b && IsToken(t, PrefixString(prefix))
    ensures Matches(a + t + b, prefix) == [t]
  {
    var s, ps := a + t + b, PrefixString(prefix);
    var e := |a| + |t|;
    assert s[|a|..e] == t;
    assert forall q :: 0 <= q < |a| ==> s[q] == a[q];
    ScanToToken(s, ps, 0, |a|, e);
    assert forall q :: e <= q < |s| ==> s[q] == b[q - e];
    ScanWithoutBraces(s, ps, e);
  }

  /** The texts of the given spans of `s`. */
  function Texts(s: string, spans: seq<Span>): (r: seq<string>)
    requires forall k :: 0 <= k < |spans| ==> spans[k].start <= spans[k].end <= |s|
    ensures |r| == |spans|
    ensures forall k :: 0 <= k < |r| ==> r[k] == s[spans[k].start..spans[k].end]
  {
    seq(|spans|, k requires 0 <= k < |spans| => s[spans[k].start..spans[k].end])
  }

  /** `Regex.Matches(s)` for the pattern built from `prefix`: the text of every match, in order, duplicates included. */
  function Matches(s: string, prefix: string): (r: seq<string>)
    ensures forall k :: 0 <= k < |r| ==> IsToken(r[k], PrefixString(prefix))
  {
    Texts(s, Scan(s, PrefixString(prefix), 0))
  }

  /** Where the first piece and the first token of a template lie once it is placed at position `i` of `s`. */
  lemma TemplateHead(s: string, i: nat, pieces: seq<string>, tokens: seq<string>)
    requires i <= |s| && |pieces| == |tokens| + 1 && tokens != [] && s[i..] == Assemble(pieces, tokens)
    requires '{' !in pieces[0]
    ensures i + |pieces[0]| + |tokens[0]| <= |s|
    ensures s[i..i + |pieces[0]|] == pieces[0]
    ensures s[i + |pieces[0]|..i + |pieces[0]| + |tokens[0]|] == tokens[0]
    ensures s[i + |pieces[0]| + |tokens[0]|..] == Assemble(pieces[1..], tokens[1..])
  {
    var a, t := pieces[0], tokens[0];
    var j := i + |a|;
    var k := j + |t|;
    assert s[i..] == a + t + Assemble(pieces[1..], tokens[1..]);
    assert s[i..j] == s[i..][..|a|];
    assert s[j..k] == s[i..][|a|..|a| + |t|];
    assert s[k..] == s[i..][|a| + |t|..];
  }

  /** The texts of a span followed by more spans. */
  lemma TextsCons(s: string, first: Span, rest: seq<Span>)
    requires first.start <= first.end <= |s|
    requires forall k :: 0 <= k < |rest| ==> rest[k].start <= rest[k].end <= |s|
    ensures Texts(s, [first] + rest) == [s[first.start..first.end]] + Texts(s, rest)
  {
  }

  /** A brace-free tail holds no match. */
  lemma ScanTail(s: string, ps: string, i: nat)
    requires i <= |s| && '{' !in s[i..]
    ensures Scan(s, ps, i) == []
  {
    forall q | i <= q < |s| ensures s[q] != '{' {
      assert s[q] == s[i..][q - i];
    }
    ScanWithoutBraces(s, ps, i);
  }

  /** The pieces and tokens after the first keep the template's conditions. */
  lemma TemplateRest(pieces: seq<string>, tokens: seq<string>, ps: string)
    requires |pieces| == |tokens| + 1 && tokens != []
    requires forall j :: 0 <= j < |pieces| ==> '{' !in pieces[j]
    requires forall j :: 0 <= j < |tokens| ==> IsToken(tokens[j], ps)
    ensures forall j :: 0 <= j < |pieces[1..]| ==> '{' !in pieces[1..][j]
    ensures forall j :: 0 <= j < |tokens[1..]| ==> IsToken(tokens[1..][j], ps)
  {
    forall q | 0 <= q < |pieces[1..]| ensures '{' !in pieces[1..][q] {
      assert pieces[1..][q] == pieces[q + 1];
    }
    forall q | 0 <= q < |tokens[1..]| ensures IsToken(tokens[1..][q], ps) {
      assert tokens[1..][q] == tokens[q + 1];
    }
  }

  /** The texts of a span followed by more spans, when the span's text and the texts of the rest are known. */
  lemma TextsConsKnown(s: string, first: Span, rest: seq<Span>, t: string, later: seq<string>)
    requires first.start <= first.end <= |s| && s[first.start..first.end] == t
    requires forall k :: 0 <= k < |rest| ==> rest[k].start <= rest[k].end <= |s|
    requires Texts(s, rest) == later
    ensures Texts(s, [first] + rest) == [t] + later
  {
    TextsCons(s, first, rest);
  }

  /** A brace-free piece, then a token, then text that scans to `later`: the whole scans to the token followed by `later`. */
  lemma ScanPieceToken(s: string, ps: string, i: nat, k: nat, a: string, t: string, later: seq<string>)
    requires k == i + |a| + |t| <= |s| && '{' !in a && IsToken(t, ps)
    requires s[i..i + |a|] == a && s[i + |a|..k] == t
    requires Texts(s, Scan(s, ps, k)) == later
    ensures Texts(s, Scan(s, ps, i)) == [t] + later
  {
    var j := i + |a|;
    forall q | i <= q < j ensures s[q] != '{' {
      assert s[q] == s[i..j][q - i];
    }
    ScanToToken(s, ps, i, j, k);
    TextsConsKnown(s, Span(j, k), Scan(s, ps, k), t, later);
  }

  /**
   * A template scanned from position `i`: brace-free pieces interleaved with
   * tokens yield exactly those tokens, in order, duplicates included.
   */
  lemma {:induction false} ScanTemplate(s: string, ps: string, i: nat, pieces: seq<string>, tokens: seq<string>)
    requires i <= |s| && |pieces| == |tokens| + 1 && s[i..] == Assemble(pieces, tokens)
    requires forall j :: 0 <= j < |pieces| ==> '{' !in pieces[j]
    requires forall j :: 0 <= j < |tokens| ==> IsToken(tokens[j], ps)
    ensures Texts(s, Scan(s, ps, i)) == tokens
    decreases |tokens|
  {
    if tokens == [] {
      ScanTail(s, ps, i);
    } else {
      var a, t := pieces[0], tokens[0];
      var k := i + |a| + |t|;
      assert k <= |s| && s[i..i + |a|] == a && s[i + |a|..k] == t
        && s[k..] == Assemble(pieces[1..], tokens[1..]) by {
        TemplateHead(s, i, pieces, tokens);
      }
      TemplateRest(pieces, tokens, ps);
      ScanTemplate(s, ps, k, pieces[1..], tokens[1..]);
      ScanPieceToken(s, ps, i, k, a, t, tokens[1..]);
      assert tokens == [t] + tokens[1..];
    }
  }

  /** The matches of a template of brace-free pieces and tokens are its tokens. */
  lemma MatchesOfTemplate(pieces: seq<string>, tokens: seq<string>, prefix: string)
    requires |pieces| == |tokens| + 1
    requires forall j :: 0 <= j < |pieces| ==> '{' !in pieces[j]
    requires forall j :: 0 <= j < |tokens| ==> IsToken(tokens[j], PrefixString(prefix))
    ensures Matches(Assemble(pieces, tokens), prefix) == tokens
  {
    var s := Assemble(pieces, tokens);
    assert s[0..] == s;
    ScanTemplate(s, PrefixString(prefix), 0, pieces, tokens);
  }

  /** Brace-free text around two tokens: the two tokens, in order, are the matches. */
  lemma MatchesOfTwoTokens(a: string, t1: string, b: string, t2: string, c: string, prefix: string)
    requires '{' !in a && '{' !in b && '{' !in c
    requires IsToken(t1, PrefixString(prefix)) && IsToken(t2, PrefixString(prefix))
    ensures Matches(a + t1 + b + t2 + c, prefix) == [t1, t2]
  {
    var pieces, tokens := [a, b, c], [t1, t2];
    assert Assemble([c], []) == c;
    assert pieces[1..] == [b, c] && tokens[1..] == [t2] && [b, c][1..] == [c] && [t2][1..] == [];
    assert Assemble([b, c], [t2]) == b + t2 + c;
    assert Assemble(pieces, tokens) == a + t1 + (b + t2 + c) == a + t1 + b + t2 + c;
    MatchesOfTemplate(pieces, tokens, prefix);
  }

  /** Two tokens side by side are the two matches, in order. */
  lemma MatchesOfAdjacentTokens(t1: string, t2: string, prefix: string)
    requires IsToken(t1, PrefixString(prefix)) && IsToken(t2, PrefixString(prefix))
    ensures Matches(t1 + t2, prefix) == [t1, t2]
  {
    MatchesOfTwoTokens("", t1, "", t2, "", prefix);
    assert "" + t1 + "" + t2 + "" == t1 + t2;
  }

  /** Text without `{` yields no matches, whatever the prefix. */
  lemma MatchesWithoutBraces(s: string, prefix: string)
    requires '{' !in s
    ensures Matches(s, prefix) == []
  {
    ScanWithoutBraces(s, PrefixString(prefix), 0);
  }
}
