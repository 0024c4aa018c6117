/** The few operations of Rust's `str` that the resolver uses: `split` with a
    character separator, `trim`, `trim_matches`, and the infix relation used
    to state where their results come from. `starts_with` is Dafny's prefix
    operator `<=` on sequences and needs no definition. */
module Str {

  /** Rust's `char::is_whitespace`: the Unicode White_Space property. */
  predicate IsWhitespace(c: char) {
    || ('\U{0009}' <= c <= '\U{000D}')
    || c == ' '
    || c == '\U{0085}'
    || c == '\U{00A0}'
    || c == '\U{1680}'
    || ('\U{2000}' <= c <= '\U{200A}')
    || c == '\U{2028}'
    || c == '\U{2029}'
    || c == '\U{202F}'
    || c == '\U{205F}'
    || c == '\U{3000}'
  }

  /** `t` occurs in `s` as a contiguous run starting at position `i`. */
  predicate InfixAt(t: string, s: string, i: int) {
    0 <= i && i + |t| <= |s| && s[i..i + |t|] == t
  }

  /** `t` is a contiguous substring of `s`. */
  ghost predicate IsInfix(t: string, s: string) {
    exists i :: InfixAt(t, s, i)
  }

  lemma InfixTransitive(t: string, u: string, s: string, i: int, j: int)
    requires InfixAt(t, u, i) && InfixAt(u, s, j)
    ensures InfixAt(t, s, j + i)
  {
    forall k | 0 <= k < |t|
      ensures s[j + i + k] == t[k]
    {
      assert u[i + k] == t[k];
      assert s[j + (i + k)] == u[i + k];
    }
  }

  /** `trim_start_matches`: drop the longest prefix whose characters all
      satisfy `p`. */
  function TrimStartMatches(s: string, p: char -> bool): (r: string)
    ensures |r| <= |s|
    decreases |s|
  {
    if |s| > 0 && p(s[0]) then TrimStartMatches(s[1..], p) else s
  }

  /** `trim_end_matches`: drop the longest suffix whose characters all
      satisfy `p`. */
  function TrimEndMatches(s: string, p: char -> bool): (r: string)
    ensures |r| <= |s|
    decreases |s|
  {
    if |s| > 0 && p(s[|s| - 1]) then TrimEndMatches(s[..|s| - 1], p) else s
  }

  /** `trim_matches`: drop every leading and every trailing character that
      satisfies `p` (whole runs, not one character on each side). */
  function TrimMatches(s: string, p: char -> bool): (r: string)
    ensures |r| <= |s|
  {
    TrimEndMatches(TrimStartMatches(s, p), p)
  }

  /** `trim`: `trim_matches` with the whitespace predicate. */
  function Trim(s: string): (r: string)
    ensures |r| <= |s|
  {
    TrimMatches(s, IsWhitespace)
  }

  /** What `trim_start_matches` leaves is a suffix that no longer starts
      with a match, and everything it removed matched. */
  lemma {:induction false} TrimStartMatchesSpec(s: string, p: char -> bool)
    ensures TrimStartMatches(s, p) == s[|s| - |TrimStartMatches(s, p)|..]
    ensures forall k :: 0 <= k < |s| - |TrimStartMatches(s, p)| ==> p(s[k])
    ensures TrimStartMatches(s, p) == [] || !p(TrimStartMatches(s, p)[0])
    decreases |s|
  {
    if |s| > 0 && p(s[0]) {
      TrimStartMatchesSpec(s[1..], p);
      assert forall k :: 1 <= k < |s| ==> s[k] == s[1..][k - 1];
    }
  }

  /** What `trim_end_matches` leaves is a prefix that no longer ends with a
      match, and everything it removed matched. */
  lemma {:induction false} TrimEndMatchesSpec(s: string, p: char -> bool)
    ensures TrimEndMatches(s, p) == s[..|TrimEndMatches(s, p)|]
    ensures forall k :: |TrimEndMatches(s, p)| <= k < |s| ==> p(s[k])
    ensures TrimEndMatches(s, p) == [] || !p(TrimEndMatches(s, p)[|TrimEndMatches(s, p)| - 1])
    decreases |s|
  {
    if |s| > 0 && p(s[|s| - 1]) {
      TrimEndMatchesSpec(s[..|s| - 1], p);
      assert forall k :: 0 <= k < |s| - 1 ==> s[k] == s[..|s| - 1][k];
    }
  }

  /** What `trim_matches` leaves is one run of `s`, starting where the
      leading matches end, with only matches after it, and neither of its
      ends matches. */
  lemma TrimMatchesSpec(s: string, p: char -> bool)
    ensures InfixAt(TrimMatches(s, p), s, |s| - |TrimStartMatches(s, p)|)
    ensures forall k :: 0 <= k < |s| - |TrimStartMatches(s, p)| ==> p(s[k])
    ensures forall k :: |s| - |TrimStartMatches(s, p)| + |TrimMatches(s, p)| <= k < |s| ==> p(s[k])
    ensures TrimMatches(s, p) == [] || (!p(TrimMatches(s, p)[0]) && !p(TrimMatches(s, p)[|TrimMatches(s, p)| - 1]))
  {
    var t := TrimStartMatches(s, p);
    var r := TrimEndMatches(t, p);
    TrimStartMatchesSpec(s, p);
    TrimEndMatchesSpec(t, p);
    TrimBothEnds(s, t, r, p);
  }

  /** The two halves of `TrimMatches` compose: what is left is one run of
      `s`, and everything around it satisfies `p`. */
  lemma TrimBothEnds(s: string, t: string, r: string, p: char -> bool)
    requires |t| <= |s| && t == s[|s| - |t|..]
    requires t == [] || !p(t[0])
    requires |r| <= |t| && r == t[..|r|]
    requires forall k :: |r| <= k < |t| ==> p(t[k])
    requires r == [] || !p(r[|r| - 1])
    ensures InfixAt(r, s, |s| - |t|)
    ensures forall k :: |s| - |t| + |r| <= k < |s| ==> p(s[k])
    ensures r == [] || (!p(r[0]) && !p(r[|r| - 1]))
  {
    var a := |s| - |t|;
    forall k | a + |r| <= k < |s|
      ensures p(s[k])
    {
      assert s[k] == t[k - a];
    }
  }

  /** `trim` leaves a run of the text that neither starts nor ends with
      whitespace, and everything it removed before and after that run is
      whitespace. */
  lemma TrimSpec(s: string)
    ensures IsInfix(Trim(s), s)
    ensures InfixAt(Trim(s), s, |s| - |TrimStartMatches(s, IsWhitespace)|)
    ensures forall k :: 0 <= k < |s| - |TrimStartMatches(s, IsWhitespace)| ==> IsWhitespace(s[k])
    ensures forall k :: |s| - |TrimStartMatches(s, IsWhitespace)| + |Trim(s)| <= k < |s| ==> IsWhitespace(s[k])
    ensures Trim(s) == [] || (!IsWhitespace(Trim(s)[0]) && !IsWhitespace(Trim(s)[|Trim(s)| - 1]))
  {
    TrimMatchesSpec(s, IsWhitespace);
  }

  /** Only the pattern's characters are removed: text whose ends already
      fail `p` is left as it is. */
  lemma TrimMatchesKeeps(s: string, p: char -> bool)
    requires s == [] || (!p(s[0]) && !p(s[|s| - 1]))
    ensures TrimMatches(s, p) == s
  {
    TrimStartMatchesSpec(s, p);
    var t := TrimStartMatches(s, p);
    assert t == s;
    TrimEndMatchesSpec(t, p);
    var r := TrimEndMatches(t, p);
    assert |r| == |t|;
  }

  /** Trimming twice is trimming once. */
  lemma TrimMatchesIdempotent(s: string, p: char -> bool)
    ensures TrimMatches(TrimMatches(s, p), p) == TrimMatches(s, p)
  {
    TrimMatchesSpec(s, p);
    TrimMatchesKeeps(TrimMatches(s, p), p);
  }

  /** Rust's `join` with a one-character separator; the inverse of `Split`. */
  function Join(parts: seq<string>, sep: char): string
    requires |parts| >= 1
  {
    if |parts| == 1 then parts[0] else parts[0] + [sep] + Join(parts[1..], sep)
  }

  /** `split(sep)` collected into a sequence: the maximal separator-free
      fields of `s`, in order. It always has at least one field, so the
      `next()` the resolver calls on it always succeeds. */
  function Split(s: string, sep: char): (r: seq<string>)
    ensures |r| >= 1
    decreases |s|
  {
    if |s| == 0 then [""]
    else
      var rest := Split(s[1..], sep);
      if s[0] == sep then [""] + rest
      else [[s[0]] + rest[0]] + rest[1..]
  }

  /** The fields are free of the separator and joining them back with it
      gives the text that was split. */
  lemma {:induction false} SplitSpec(s: string, sep: char)
    ensures forall k :: 0 <= k < |Split(s, sep)| ==> sep !in Split(s, sep)[k]
    ensures Join(Split(s, sep), sep) == s
    decreases |s|
  {
    if |s| > 0 {
      var rest := Split(s[1..], sep);
      SplitSpec(s[1..], sep);
      var r := Split(s, sep);
      if s[0] == sep {
        assert r[1..] == rest;
      } else {
        assert r == [[s[0]] + rest[0]] + rest[1..];
        assert forall k :: 1 <= k < |r| ==> r[k] == rest[k];
        if |rest| > 1 {
          assert r[1..] == rest[1..];
        }
      }
    }
  }

  /** The first field ends at the first separator, or at the end of `s`. */
  lemma SplitFirstIsPrefix(s: string, sep: char)
    ensures Split(s, sep)[0] <= s
    ensures Split(s, sep)[0] == s || s[|Split(s, sep)[0]|] == sep
  {
    var r := Split(s, sep);
    SplitSpec(s, sep);
    if |r| > 1 {
      assert s == r[0] + [sep] + Join(r[1..], sep);
    }
  }

  /** Text without the separator is a single field. */
  lemma {:induction false} SplitNoSeparator(s: string, sep: char)
    requires sep !in s
    ensures Split(s, sep) == [s]
    decreases |s|
  {
    if |s| > 0 {
      SplitNoSeparator(s[1..], sep);
      assert [s[0]] + s[1..] == s;
    }
  }

  /** A separator-free field followed by the separator becomes the first
      field, and the rest is split independently. */
  lemma {:induction false} SplitAfterField(a: string, sep: char, t: string)
    requires sep !in a
    ensures Split(a + [sep] + t, sep) == [a] + Split(t, sep)
    decreases |a|
  {
    var s := a + [sep] + t;
    if |a| == 0 {
      assert s[1..] == t;
    } else {
      assert s[1..] == a[1..] + [sep] + t;
      SplitAfterField(a[1..], sep, t);
      assert [a[0]] + a[1..] == a;
    }
  }

  /** `Split` inverts `Join`: any separator-free fields joined together are
      split back into exactly those fields. */
  lemma {:induction false} SplitJoin(parts: seq<string>, sep: char)
    requires |parts| >= 1
    requires forall k :: 0 <= k < |parts| ==> sep !in parts[k]
    ensures Split(Join(parts, sep), sep) == parts
    decreases |parts|
  {
    if |parts| == 1 {
      SplitNoSeparator(parts[0], sep);
    } else {
      SplitJoin(parts[1..], sep);
      SplitAfterField(parts[0], sep, Join(parts[1..], sep));
      assert [parts[0]] + parts[1..] == parts;
    }
  }
}
