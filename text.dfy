/**
 * The string operations the interpolation engine relies on: .NET's ordinal
 * `String.Replace(string, string)`, ASCII case folding for the scanner's
 * case-insensitive comparison, and the regular-expression word class `\w`.
 */
module Text {

  /** `s` begins with `p` (ordinal comparison). */
  predicate StartsWith(s: string, p: string) {
    |p| <= |s| && s[..|p|] == p
  }

  /**
   * `String.Replace(o, n)`: scanning left to right, every occurrence of `o`
   * that does not overlap an earlier replaced one becomes `n`.
   * .NET rejects an empty `o`; every caller in the model passes a non-empty one.
   */
  function Replace(s: string, o: string, n: string): string
    requires o != ""
    decreases |s|
  {
    if |s| < |o| then s
    else if s[..|o|] == o then n + Replace(s[|o|..], o, n)
    else [s[0]] + Replace(s[1..], o, n)
  }

  /** The number of occurrences of `o` that `Replace` rewrites. */
  function Count(s: string, o: string): nat
    requires o != ""
    decreases |s|
  {
    if |s| < |o| then 0
    else if s[..|o|] == o then 1 + Count(s[|o|..], o)
    else Count(s[1..], o)
  }

  /** Replacing a string by itself changes nothing. */
  lemma {:induction false} ReplaceSelf(s: string, o: string)
    requires o != ""
    ensures Replace(s, o, o) == s
    decreases |s|
  {
    if |s| < |o| {
    } else if s[..|o|] == o {
      ReplaceSelf(s[|o|..], o);
      assert s[..|o|] + s[|o|..] == s;
    } else {
      ReplaceSelf(s[1..], o);
      assert [s[0]] + s[1..] == s;
    }
  }

  /** When `o` does not occur, `Replace` leaves the string as it was. */
  lemma {:induction false} ReplaceAbsent(s: string, o: string, n: string)
    requires o != ""
    requires Count(s, o) == 0
    ensures Replace(s, o, n) == s
    decreases |s|
  {
    if |s| >= |o| {
      ReplaceAbsent(s[1..], o, n);
      assert [s[0]] + s[1..] == s;
    }
  }

  /** When the first character of `o` never appears in `s`, `o` does not occur in `s`. */
  lemma {:induction false} CountWithoutFirstChar(s: string, o: string)
    requires o != ""
    requires o[0] !in s
    ensures Count(s, o) == 0
    decreases |s|
  {
    if |s| >= |o| {
      assert s[..|o|][0] == s[0];
      CountWithoutFirstChar(s[1..], o);
    }
  }

  /** Removing a one-character string that occurs only at the very end drops that last character. */
  lemma {:induction false} ReplaceTrailingChar(w: string, c: char, n: string)
    requires c !in w
    ensures Replace(w + [c], [c], n) == w + n
    decreases |w|
  {
    var s := w + [c];
    if w == [] {
      assert s[..1] == [c];
      assert s[1..] == [];
    } else {
      assert w[0] in w && s[..1] == [w[0]];
      assert s[1..] == w[1..] + [c];
      ReplaceTrailingChar(w[1..], c, n);
      assert [w[0]] + w[1..] == w;
    }
  }

  /** Removing a leading occurrence of `o` when `o[0]` does not appear later in `s`. */
  lemma ReplaceLeading(s: string, o: string, n: string)
    requires o != "" && StartsWith(s, o)
    requires o[0] !in s[|o|..]
    ensures Replace(s, o, n) == n + s[|o|..]
  {
    CountWithoutFirstChar(s[|o|..], o);
    ReplaceAbsent(s[|o|..], o, n);
  }

  /** An occurrence at the very start is rewritten, and the scan resumes after it. */
  lemma ReplaceAtStart(o: string, x: string, n: string)
    requires o != ""
    ensures Replace(o + x, o, n) == n + Replace(x, o, n)
  {
    assert (o + x)[..|o|] == o && (o + x)[|o|..] == x;
  }

  /** Text that holds no first character of `o` is copied through unchanged before what follows it is rewritten. */
  lemma {:induction false} ReplaceSkip(a: string, x: string, o: string, n: string)
    requires o != "" && o[0] !in a
    ensures Replace(a + x, o, n) == a + Replace(x, o, n)
    decreases |a|
  {
    if a != [] {
      var s := a + x;
      assert a[0] in a;
      if |s| < |o| {
        assert Replace(x, o, n) == x;
      } else {
        assert s[..|o|][0] == a[0] && s[0] == a[0];
        assert s[..|o|] != o;
        assert Replace(s, o, n) == [s[0]] + Replace(s[1..], o, n);
        assert s[1..] == a[1..] + x;
        ReplaceSkip(a[1..], x, o, n);
        assert [a[0]] + (a[1..] + Replace(x, o, n)) == a + Replace(x, o, n);
      }
    } else {
      assert a + x == x;
    }
  }

  /**
   * Text whose first character is `{` splits a replacement in two, when the
   * replaced string holds `{` at most at its start: no occurrence can straddle
   * the boundary, so each side is rewritten on its own.
   */
  lemma {:induction false} ReplaceBeforeBrace(x: string, w: string, o: string, n: string)
    requires o != "" && forall q :: 1 <= q < |o| ==> o[q] != '{'
    requires w != [] && w[0] == '{'
    ensures Replace(x + w, o, n) == Replace(x, o, n) + Replace(w, o, n)
    decreases |x|
  {
    var s := x + w;
    if x == [] {
      assert s == w;
    } else if |s| < |o| {
    } else {
      assert |o| > |x| ==> s[..|o|] != o by {
        if |o| > |x| {
          assert s[..|o|][|x|] == w[0];
        }
      }
      if s[..|o|] == o {
        assert x[..|o|] == o;
        assert s[|o|..] == x[|o|..] + w;
        ReplaceBeforeBrace(x[|o|..], w, o, n);
      } else {
        assert s[1..] == x[1..] + w;
        ReplaceBeforeBrace(x[1..], w, o, n);
        if |x| >= |o| {
          assert x[..|o|] == s[..|o|];
        }
      }
    }
  }

  /** The pieces `a0, …, an` interleaved with the items `x1, …, xn`: `a0 + x1 + a1 + … + xn + an`. */
  function Assemble(pieces: seq<string>, items: seq<string>): string
    requires |pieces| == |items| + 1
    decreases |items|
  {
    if items == [] then pieces[0] else pieces[0] + items[0] + Assemble(pieces[1..], items[1..])
  }

  /** ASCII case folding, as `RegexOptions.IgnoreCase` applies it to ASCII text. */
  function Lower(c: char): (r: char)
    ensures 'A' <= c <= 'Z' ==> 'a' <= r <= 'z' && r as int - c as int == 32
    ensures !('A' <= c <= 'Z') ==> r == c
  {
    if 'A' <= c <= 'Z' then (c as int + 32) as char else c
  }

  /** Folding never yields an upper-case letter, so folding twice is folding once. */
  lemma LowerIdempotent(c: char)
    ensures !('A' <= Lower(c) <= 'Z') && Lower(Lower(c)) == Lower(c)
  {
  }

  /** `p` occurs in `s` at position `k` once case is ignored. */
  predicate OccursIgnoringCaseAt(s: string, k: nat, p: string) {
    k + |p| <= |s| && forall q :: 0 <= q < |p| ==> Lower(s[k + q]) == Lower(p[q])
  }

  /** A character of the regular-expression class `\w`, restricted to ASCII. */
  predicate IsWordChar(c: char) {
    'a' <= c <= 'z' || 'A' <= c <= 'Z' || '0' <= c <= '9' || c == '_'
  }

  /** A character that folds to the same as a non-letter is that non-letter. */
  lemma LowerFixesNonLetters(a: char, b: char)
    requires !('a' <= b <= 'z') && !('A' <= b <= 'Z') && Lower(a) == Lower(b)
    ensures a == b
  {
  }
}
