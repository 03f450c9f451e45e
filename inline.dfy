/** The inline substitutions at the end of `markdownToHtml` in src/parser.ts:
    a global replace of `D(.*?)D` by `open$1close` for a delimiter `D`, and
    the straightening of the typographic apostrophe. */
module Inline {
  import opened Strings

  /** The delimiter `d` stands at position `p` of `s`, character by character. */
  predicate MatchesAt(s: string, d: string, p: nat) {
    p + |d| <= |s| && forall i :: 0 <= i < |d| ==> s[p + i] == d[i]
  }

  /** The character-wise test is the slice test `OccursAt` of the strings module. */
  lemma MatchesAtIsOccursAt(s: string, d: string, p: nat)
    ensures MatchesAt(s, d, p) <==> OccursAt(s, d, p)
  {
    if p + |d| <= |s| {
      var w := s[p..p + |d|];
      assert forall i :: 0 <= i < |d| ==> w[i] == s[p + i];
    }
  }

  /** The lazy scan `.*?` followed by the literal `d`, started at `q`: the first
      position at or after `q` where `d` stands, provided no line terminator
      (which `.` does not match) lies in between. */
  function RunEnd(s: string, d: string, q: nat): (r: Option<nat>)
    requires q <= |s|
    ensures r.Some? ==> q <= r.value && r.value + |d| <= |s|
    decreases |s| - q
  {
    if MatchesAt(s, d, q) then Some(q)
    else if q == |s| || IsLineTerminator(s[q]) then None
    else RunEnd(s, d, q + 1)
  }

  /** The scan stops at the first occurrence of `d`, and fails exactly when a
      line terminator comes before any occurrence. */
  lemma {:induction false} RunEndSpec(s: string, d: string, q: nat)
    requires q <= |s|
    ensures var r := RunEnd(s, d, q);
            && (r.Some? ==> MatchesAt(s, d, r.value))
            && (r.Some? ==> forall k :: q <= k < r.value ==> !MatchesAt(s, d, k) && !IsLineTerminator(s[k]))
            && (r.None? ==> forall k :: q <= k && MatchesAt(s, d, k) ==>
                              exists m :: q <= m < k && IsLineTerminator(s[m]))
    decreases |s| - q
  {
    if !MatchesAt(s, d, q) && q < |s| && !IsLineTerminator(s[q]) {
      RunEndSpec(s, d, q + 1);
    }
  }

  /** How a global replace of `D(.*?)D` reads the text: characters it leaves
      alone, and delimited runs it rewrites. */
  datatype Seg = Kept(c: char) | Wrapped(inner: string)

  /** Where the match attempted at `p` ends its run, if it succeeds. */
  function MatchRun(s: string, d: string, p: nat): (r: Option<nat>)
    requires p <= |s|
    ensures r.Some? ==> p + |d| <= r.value && r.value + |d| <= |s|
  {
    if MatchesAt(s, d, p) then RunEnd(s, d, p + |d|) else None
  }

  /** The segments from position `p` on. At each position the engine tries a
      match: the delimiter, then the shortest run without a line terminator
      that is followed by the delimiter again. After a match it resumes behind
      the closing delimiter; otherwise it keeps the character and moves on. */
  function Delimited(s: string, d: string, p: nat): seq<Seg>
    requires |d| > 0 && p <= |s|
    decreases |s| - p
  {
    if p == |s| then []
    else match MatchRun(s, d, p)
      case Some(k) => [Wrapped(s[p + |d|..k])] + Delimited(s, d, k + |d|)
      case None => [Kept(s[p])] + Delimited(s, d, p + 1)
  }

  /** The text the segments stand for, with `open` and `close` around every
      delimited run. */
  function Write(segs: seq<Seg>, open: string, close: string): string {
    if |segs| == 0 then "" else SegText(segs[0], open, close) + Write(segs[1..], open, close)
  }

  function SegText(g: Seg, open: string, close: string): string {
    match g
    case Kept(c) => [c]
    case Wrapped(t) => open + t + close
  }

  lemma WriteCons(g: Seg, rest: seq<Seg>, open: string, close: string)
    ensures Write([g] + rest, open, close) == SegText(g, open, close) + Write(rest, open, close)
  {
    assert ([g] + rest)[1..] == rest;
  }

  /** `s.replace(/D(.*?)D/g, open + '$1' + close)`. */
  function ReplaceDelimited(s: string, d: string, open: string, close: string): string
    requires |d| > 0
  {
    Write(Delimited(s, d, 0), open, close)
  }

  /** A successful match has the delimiter on both sides of its run. */
  lemma MatchRunSpec(s: string, d: string, p: nat)
    requires p <= |s| && MatchRun(s, d, p).Some?
    ensures MatchesAt(s, d, p) && MatchesAt(s, d, MatchRun(s, d, p).value)
  {
    RunEndSpec(s, d, p + |d|);
  }

  lemma MatchSlice(s: string, d: string, p: nat)
    requires MatchesAt(s, d, p)
    ensures s[p..p + |d|] == d
  {
    MatchesAtIsOccursAt(s, d, p);
  }

  lemma SliceAround(s: string, p: nat, k: nat, n: nat)
    requires p + n <= k && k + n <= |s|
    ensures s[p..] == s[p..p + n] + s[p + n..k] + s[k..k + n] + s[k + n..]
  {
    assert s[p..] == s[p..p + n] + s[p + n..];
    assert s[p + n..] == s[p + n..k] + s[k..];
    assert s[k..] == s[k..k + n] + s[k + n..];
  }

  lemma SliceHead(s: string, p: nat)
    requires p < |s|
    ensures s[p..] == [s[p]] + s[p + 1..]
  {}

  /** One step of `Delimited` where a delimited run ends at `k`. */
  lemma DelimitedSome(s: string, d: string, p: nat, k: nat, q: nat)
    requires |d| > 0 && p < |s| && MatchRun(s, d, p) == Some(k) && q == k + |d|
    ensures Delimited(s, d, p) == [Wrapped(s[p + |d|..k])] + Delimited(s, d, q)
  {
    var w := s[p + |d|..k];
    assert Delimited(s, d, p) == [Wrapped(w)] + Delimited(s, d, k + |d|);
  }

  /** One step of `Delimited` where the character at `p` is kept. */
  lemma DelimitedNone(s: string, d: string, p: nat)
    requires |d| > 0 && p < |s| && MatchRun(s, d, p).None?
    ensures Delimited(s, d, p) == [Kept(s[p])] + Delimited(s, d, p + 1)
  {}

  lemma CoversWrapped(s: string, d: string, p: nat, k: nat, rest: seq<Seg>)
    requires p + |d| <= k && MatchesAt(s, d, p) && MatchesAt(s, d, k)
    requires Write(rest, d, d) == s[k + |d|..]
    ensures Write([Wrapped(s[p + |d|..k])] + rest, d, d) == s[p..]
  {
    MatchSlice(s, d, p);
    MatchSlice(s, d, k);
    WriteCons(Wrapped(s[p + |d|..k]), rest, d, d);
    SliceAround(s, p, k, |d|);
  }

  /** Writing the segments back with the delimiter itself around every run
      gives the text back: the segments cover the text exactly, in order. */
  lemma {:induction false} DelimitedCovers(s: string, d: string, p: nat)
    requires |d| > 0 && p <= |s|
    ensures Write(Delimited(s, d, p), d, d) == s[p..]
    decreases |s| - p
  {
    if p < |s| {
      match MatchRun(s, d, p)
      case Some(k) =>
        var q := k + |d|;
        DelimitedCovers(s, d, q);
        MatchRunSpec(s, d, p);
        CoversWrapped(s, d, p, k, Delimited(s, d, q));
        DelimitedSome(s, d, p, k, q);
      case None =>
        DelimitedCovers(s, d, p + 1);
        DelimitedNone(s, d, p);
        WriteCons(Kept(s[p]), Delimited(s, d, p + 1), d, d);
        SliceHead(s, p);
    }
  }

  /** A delimited run is as short as the lazy `.*?` makes it: it holds no line
      terminator and no occurrence of the delimiter. */
  predicate Lazy(t: string, d: string) {
    && (forall m :: 0 <= m < |t| ==> !IsLineTerminator(t[m]))
    && (forall m :: 0 <= m <= |t| ==> !MatchesAt(t, d, m))
  }

  lemma MatchInside(s: string, q: nat, k: nat, d: string, m: nat)
    requires q <= k <= |s| && MatchesAt(s[q..k], d, m)
    ensures MatchesAt(s, d, q + m)
  {
    var t := s[q..k];
    forall i | 0 <= i < |d| ensures s[q + m + i] == d[i] {
      assert t[m + i] == s[q + m + i];
    }
  }

  /** The run found by the lazy scan from `q` is lazy. */
  lemma RunIsLazy(s: string, d: string, q: nat)
    requires |d| > 0 && q <= |s| && RunEnd(s, d, q).Some?
    ensures Lazy(s[q..RunEnd(s, d, q).value], d)
  {
    var k := RunEnd(s, d, q).value;
    RunEndSpec(s, d, q);
    var t := s[q..k];
    forall m | 0 <= m <= |t| ensures !MatchesAt(t, d, m) {
      if MatchesAt(t, d, m) {
        MatchInside(s, q, k, d, m);
      }
    }
    forall m | 0 <= m < |t| ensures !IsLineTerminator(t[m]) {
      assert t[m] == s[q + m];
    }
  }

  lemma {:induction false} DelimitedRunsAreLazy(s: string, d: string, p: nat)
    requires |d| > 0 && p <= |s|
    ensures forall g :: g in Delimited(s, d, p) && g.Wrapped? ==> Lazy(g.inner, d)
    decreases |s| - p
  {
    if p < |s| {
      match MatchRun(s, d, p)
      case Some(k) =>
        DelimitedRunsAreLazy(s, d, k + |d|);
        RunIsLazy(s, d, p + |d|);
      case None =>
        DelimitedRunsAreLazy(s, d, p + 1);
    }
  }

  /** A text in which the delimiter never occurs comes through unchanged. */
  lemma {:induction false} NoDelimiterKept(s: string, d: string, p: nat, open: string, close: string)
    requires |d| > 0 && p <= |s|
    requires forall m :: p <= m ==> !MatchesAt(s, d, m)
    ensures Write(Delimited(s, d, p), open, close) == s[p..]
    decreases |s| - p
  {
    if p < |s| {
      NoDelimiterKept(s, d, p + 1, open, close);
      WriteCons(Kept(s[p]), Delimited(s, d, p + 1), open, close);
      SliceHead(s, p);
    }
  }

  /** `.replace(/’/g, "'")`: every right single quotation mark becomes an
      apostrophe; every other character stays. */
  function Straighten(s: string): (r: string)
    ensures |r| == |s| && '’' !in r
    ensures forall i :: 0 <= i < |s| && s[i] != '’' ==> r[i] == s[i]
  {
    seq(|s|, i requires 0 <= i < |s| => if s[i] == '’' then '\'' else s[i])
  }
}
