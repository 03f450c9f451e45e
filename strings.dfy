/** String primitives of the JavaScript runtime that the plugin relies on:
    the white-space class shared by `\s` and `String.prototype.trim`, the line
    terminators that `.` refuses, `indexOf`, and the lazy `.*?` scan. Strings
    are sequences of characters; positions are character indices. */
module Strings {

  datatype Option<T> = None | Some(value: T)

  /** The characters JavaScript treats as white space in `\s` and `trim`. */
  predicate IsSpace(c: char) {
    c in SpaceChars
  }

  const SpaceChars: set<char> :=
    {' ', '\t', '\n', '\r', '\U{000B}', '\U{000C}', '\U{00A0}', '\U{1680}',
     '\U{2000}', '\U{2001}', '\U{2002}', '\U{2003}', '\U{2004}', '\U{2005}', '\U{2006}',
     '\U{2007}', '\U{2008}', '\U{2009}', '\U{200A}', '\U{2028}', '\U{2029}', '\U{202F}',
     '\U{205F}', '\U{3000}', '\U{FEFF}'}

  /** The characters a regular-expression `.` does not match (no `s` flag). */
  predicate IsLineTerminator(c: char) {
    c == '\n' || c == '\r' || c == '\U{2028}' || c == '\U{2029}'
  }

  predicate IsDigit(c: char) { '0' <= c <= '9' }

  predicate IsAsciiLetter(c: char) { ('a' <= c <= 'z') || ('A' <= c <= 'Z') }

  predicate AllSpace(s: string) {
    forall i :: 0 <= i < |s| ==> IsSpace(s[i])
  }

  /** Neither end of `s` is white space. */
  predicate IsTrimmed(s: string) {
    |s| == 0 || (!IsSpace(s[0]) && !IsSpace(s[|s| - 1]))
  }

  /** `pat` occurs in `s` starting at position `p`. */
  predicate OccursAt(s: string, pat: string, p: nat) {
    p + |pat| <= |s| && s[p..p + |pat|] == pat
  }

  predicate StartsWith(s: string, pat: string) {
    OccursAt(s, pat, 0)
  }

  /** Number of white-space characters at the start of `s`. */
  function LeadingSpaces(s: string): (n: nat)
    ensures n <= |s|
  {
    if |s| > 0 && IsSpace(s[0]) then 1 + LeadingSpaces(s[1..]) else 0
  }

  /** The leading run is white space and stops at the first other character. */
  lemma {:induction false} LeadingSpacesSpec(s: string)
    ensures var n := LeadingSpaces(s);
            AllSpace(s[..n]) && (n < |s| ==> !IsSpace(s[n]))
  {
    if |s| > 0 && IsSpace(s[0]) {
      LeadingSpacesSpec(s[1..]);
      var k := LeadingSpaces(s[1..]);
      assert s[..k + 1] == [s[0]] + s[1..][..k];
    }
  }

  /** Where the trailing run of white space of `s` begins. */
  function TrailingStart(s: string): (n: nat)
    ensures n <= |s|
  {
    if |s| > 0 && IsSpace(s[|s| - 1]) then TrailingStart(s[..|s| - 1]) else |s|
  }

  /** The trailing run is white space and starts after the last other
      character. */
  lemma {:induction false} TrailingStartSpec(s: string)
    ensures var n := TrailingStart(s);
            AllSpace(s[n..]) && (n > 0 ==> !IsSpace(s[n - 1]))
  {
    if |s| > 0 && IsSpace(s[|s| - 1]) {
      TrailingStartSpec(s[..|s| - 1]);
      var k := TrailingStart(s[..|s| - 1]);
      assert s[k..] == s[..|s| - 1][k..] + [s[|s| - 1]];
    }
  }

  /** `String.prototype.trim`: what remains after removing white space at both
      ends. */
  function Trim(s: string): (r: string)
    ensures |r| <= |s|
  {
    var t := s[LeadingSpaces(s)..];
    t[..TrailingStart(t)]
  }

  /** The trimmed text has no white space at either end, and it is the infix
      of `s` that starts after the leading white space and is followed by
      white space only. */
  lemma TrimSpec(s: string)
    ensures var r := Trim(s);
            && IsTrimmed(r)
            && var i := LeadingSpaces(s);
               i + |r| <= |s| && r == s[i..i + |r|] && AllSpace(s[i + |r|..])
  {
    var i := LeadingSpaces(s);
    var t := s[i..];
    var j := TrailingStart(t);
    LeadingSpacesSpec(s);
    TrailingStartSpec(t);
    assert t == s[i..|s|];
    SliceOfSlice(s, i, |s|, j, |s| - i);
    SliceOfSlice(s, i, |s|, 0, j);
    assert t[j..] == t[j..|s| - i];
    assert t[..j] == t[0..j];
    var r := t[..j];
    if |r| > 0 {
      assert r[0] == t[0] == s[i];
      assert r[|r| - 1] == t[j - 1];
    }
  }

  /** Trimming removes nothing from a string whose ends are not white space. */
  lemma TrimOfTrimmed(s: string)
    requires IsTrimmed(s)
    ensures Trim(s) == s
  {
    if |s| > 0 {
      assert LeadingSpaces(s) == 0;
      assert s[0..] == s;
      assert TrailingStart(s) == |s|;
    }
  }

  /** `s.indexOf(pat, from)`: the first occurrence of `pat` at or after `from`. */
  function IndexOf(s: string, pat: string, from: nat): (r: Option<nat>)
    requires from <= |s|
    ensures r.Some? ==> from <= r.value && r.value + |pat| <= |s|
    decreases |s| - from
  {
    if OccursAt(s, pat, from) then Some(from)
    else if from == |s| then None
    else IndexOf(s, pat, from + 1)
  }

  /** `indexOf` finds the first occurrence at or after `from`, and finds
      nothing exactly when there is none. */
  lemma {:induction false} IndexOfSpec(s: string, pat: string, from: nat)
    requires from <= |s|
    ensures var r := IndexOf(s, pat, from);
            && (r.Some? ==> OccursAt(s, pat, r.value) && forall j :: from <= j < r.value ==> !OccursAt(s, pat, j))
            && (r.None? ==> forall j :: from <= j ==> !OccursAt(s, pat, j))
    decreases |s| - from
  {
    if !OccursAt(s, pat, from) && from < |s| {
      IndexOfSpec(s, pat, from + 1);
    }
  }

  /** Concatenation of a sequence of strings. */
  function Concat(ss: seq<string>): (r: string)
    ensures |ss| == 0 ==> r == []
  {
    if |ss| == 0 then [] else Concat(ss[..|ss| - 1]) + ss[|ss| - 1]
  }

  lemma ConcatAppend(a: seq<string>, b: seq<string>)
    ensures Concat(a + b) == Concat(a) + Concat(b)
    decreases |b|
  {
    if |b| == 0 {
      assert a + b == a;
    } else {
      assert (a + b)[..|a + b| - 1] == a + b[..|b| - 1];
      ConcatAppend(a, b[..|b| - 1]);
    }
  }

  /** `ss.join(sep)`. */
  function Join(ss: seq<string>, sep: string): string
  {
    if |ss| == 0 then [] else if |ss| == 1 then ss[0] else ss[0] + sep + Join(ss[1..], sep)
  }

  /** A slice of a slice is a slice of the whole. */
  lemma SliceOfSlice(s: string, from: nat, to: nat, i: nat, j: nat)
    requires from <= to <= |s| && i <= j <= to - from
    ensures s[from..to][i..j] == s[from + i..from + j]
  {
    assert forall k :: 0 <= k < j - i ==> s[from..to][i..j][k] == s[from + i..from + j][k];
  }
}
