/** The matches of the field-extraction pattern of `extractFieldsFromText` in
    src/parser.ts, `(P1|..|Pn):\s*((?:(?!(P1|..|Pn):).|\n)*)`, as an explicit
    scanner: a match starts at a label hit; its value starts after the white
    space that follows the colon and runs until the next position where a label
    hit starts or a line terminator other than `\n` stands; the next match is
    searched from there. */
module Scanner {
  import opened Strings
  import opened LabelPattern

  /** A (label, value) pair: the label with its surrounding stars removed and
      the trimmed value text. */
  type Pair = (string, string)

  // ---------------------------------------------------------------------------
  // The scanner

  /** One match of the pattern: where it starts, the label hit there, and the
      bounds of the value group. */
  datatype Token = Token(start: nat, hit: Hit, valueStart: nat, valueEnd: nat)

  /** Whether the value group `(?:(?!(P):).|\n)*` may consume the character at `q`. */
  predicate ValueContinues(t: string, labels: seq<string>, q: nat)
    requires q < |t|
  {
    t[q] == '\n' || (HitAt(t, q, labels).None? && !IsLineTerminator(t[q]))
  }

  /** End of the value group started at `q` (the group is greedy and nothing
      follows it, so it runs as far as it can). */
  function ValueEnd(t: string, labels: seq<string>, q: nat): (r: nat)
    requires q <= |t|
    ensures q <= r <= |t|
    decreases |t| - q
  {
    if q == |t| then q
    else if ValueContinues(t, labels, q) then ValueEnd(t, labels, q + 1)
    else q
  }

  /** The value group consumes every character it may, and stops at the first
      one it may not. */
  lemma {:induction false} ValueEndSpec(t: string, labels: seq<string>, q: nat)
    requires q <= |t|
    ensures var r := ValueEnd(t, labels, q);
            && (forall k :: q <= k < r ==> ValueContinues(t, labels, k))
            && (r < |t| ==> !ValueContinues(t, labels, r))
    decreases |t| - q
  {
    if q < |t| && ValueContinues(t, labels, q) {
      ValueEndSpec(t, labels, q + 1);
    }
  }

  /** Token `tok` is a match of the pattern at its start: a label hit, then
      the white space after the colon, then the value group. */
  predicate IsMatch(t: string, labels: seq<string>, tok: Token) {
    && HitAt(t, tok.start, labels) == Some(tok.hit)
    && tok.start <= tok.hit.colon < tok.valueStart <= tok.valueEnd <= |t|
    && tok.valueStart == tok.hit.colon + 1 + LeadingSpaces(t[tok.hit.colon + 1..])
    && tok.valueEnd == ValueEnd(t, labels, tok.valueStart)
  }

  /** Every token is a match of the pattern. */
  predicate WellFormed(t: string, labels: seq<string>, toks: seq<Token>) {
    forall i :: 0 <= i < |toks| ==> IsMatch(t, labels, toks[i])
  }

  /** Where the search for the next match, started at `p`, succeeds: the
      leftmost position at or after `p` where a label hit starts. */
  function NextHit(t: string, labels: seq<string>, p: nat): (r: Option<nat>)
    requires p <= |t|
    ensures r.Some? ==> p <= r.value < |t| && HitAt(t, r.value, labels).Some?
    decreases |t| - p
  {
    if p == |t| then None
    else if HitAt(t, p, labels).Some? then Some(p)
    else NextHit(t, labels, p + 1)
  }

  /** The search finds the leftmost hit: none lies before the one it returns,
      and none at all when it returns nothing. */
  lemma {:induction false} NextHitIsLeftmost(t: string, labels: seq<string>, p: nat)
    requires p <= |t|
    ensures var r := NextHit(t, labels, p);
            && (r.Some? ==> NoHitIn(t, labels, p, r.value))
            && (r.None? ==> NoHitIn(t, labels, p, |t|))
    decreases |t| - p
  {
    if p < |t| && HitAt(t, p, labels).None? {
      NextHitIsLeftmost(t, labels, p + 1);
    }
  }

  /** Token `tok` lies in `t` after position `p`. */
  predicate InBounds(t: string, p: nat, tok: Token) {
    p <= tok.start <= tok.hit.colon < tok.valueStart <= tok.valueEnd <= |t|
  }

  /** `[...text.matchAll(pattern)]` from position `p` on: each match is found
      by searching from where the previous one ended. */
  function Scan(t: string, labels: seq<string>, p: nat): (toks: seq<Token>)
    requires p <= |t|
    ensures forall i :: 0 <= i < |toks| ==> InBounds(t, p, toks[i])
    ensures |toks| == 0 <==> NextHit(t, labels, p).None?
    ensures |toks| > 0 ==> NextHit(t, labels, p) == Some(toks[0].start)
    decreases |t| - p
  {
    match NextHit(t, labels, p)
    case None => []
    case Some(q) =>
      var tok := MatchAt(t, labels, q);
      var rest := Scan(t, labels, tok.valueEnd);
      var r := [tok] + rest;
      assert forall i :: 0 <= i < |r| ==> InBounds(t, p, r[i]) by {
        forall i | 0 <= i < |r| ensures InBounds(t, p, r[i]) {
          if i > 0 { assert r[i] == rest[i - 1]; }
        }
      }
      r
  }

  /** After the first match, the scan goes on where its value ended. */
  lemma ScanTail(t: string, labels: seq<string>, p: nat)
    requires p <= |t|
    ensures var toks := Scan(t, labels, p);
            |toks| > 0 ==> && toks[0] == MatchAt(t, labels, toks[0].start)
                           && toks[1..] == Scan(t, labels, toks[0].valueEnd)
  {
  }

  /** Where the search that found token `i` started: `p` for the first
      token, the end of the previous token's value otherwise. */
  function Resume(toks: seq<Token>, p: nat, i: nat): nat
    requires i <= |toks|
  {
    if i == 0 then p else toks[i - 1].valueEnd
  }

  /** The match at a position where a label hit starts. */
  function MatchAt(t: string, labels: seq<string>, q: nat): (tok: Token)
    requires q < |t| && HitAt(t, q, labels).Some?
    ensures IsMatch(t, labels, tok)
    ensures tok.start == q && InBounds(t, q, tok)
  {
    var h := HitAt(t, q, labels).value;
    var vs := h.colon + 1 + LeadingSpaces(t[h.colon + 1..]);
    Token(q, h, vs, ValueEnd(t, labels, vs))
  }

  /** What a match contributes: its label without stars and its trimmed value. */
  function PairOf(t: string, tok: Token): Pair
    requires tok.start <= tok.hit.colon <= |t| && tok.valueStart <= tok.valueEnd <= |t|
  {
    (StripStars(t[tok.start..tok.hit.colon]), Trim(t[tok.valueStart..tok.valueEnd]))
  }

  /** The (label, value) pairs of all matches of the pattern in `t`, in order. */
  function PairsOf(t: string, labels: seq<string>): (ps: seq<Pair>)
    ensures var toks := Scan(t, labels, 0);
            |ps| == |toks| && forall i :: 0 <= i < |toks| ==> ps[i] == PairOf(t, toks[i])
  {
    var toks := Scan(t, labels, 0);
    seq(|toks|, i requires 0 <= i < |toks| => PairOf(t, toks[i]))
  }
}

/** What the scanner finds: every token is a match, the matches are leftmost
    and consecutive, and every label read back is a declared one. */
module ScannerFacts {
  import opened Strings
  import opened LabelPattern
  import opened Scanner

  /** Every token the scan returns is a match of the pattern. */
  lemma {:induction false} ScanMatches(t: string, labels: seq<string>, p: nat)
    requires p <= |t|
    ensures WellFormed(t, labels, Scan(t, labels, p))
    decreases |t| - p
  {
    var toks := Scan(t, labels, p);
    if |toks| > 0 {
      ScanTail(t, labels, p);
      ScanMatches(t, labels, toks[0].valueEnd);
      forall i | 0 <= i < |toks| ensures IsMatch(t, labels, toks[i]) {
        if i > 0 { assert toks[i] == toks[1..][i - 1]; }
      }
    }
  }

  /** Matches are leftmost and consecutive: each token starts at the first
      label hit at or after the point where the previous match ended. */
  lemma {:induction false} ScanIsLeftmost(t: string, labels: seq<string>, p: nat)
    requires p <= |t|
    ensures var toks := Scan(t, labels, p);
            forall i {:trigger Resume(toks, p, i)} :: 0 <= i < |toks| ==>
              Resume(toks, p, i) <= |t| && NextHit(t, labels, Resume(toks, p, i)) == Some(toks[i].start)
    decreases |t| - p
  {
    var toks := Scan(t, labels, p);
    if |toks| > 0 {
      var e := toks[0].valueEnd;
      var rest := Scan(t, labels, e);
      ScanTail(t, labels, p);
      ScanIsLeftmost(t, labels, e);
      forall i | 0 < i < |toks|
        ensures Resume(toks, p, i) <= |t| && NextHit(t, labels, Resume(toks, p, i)) == Some(toks[i].start)
      {
        ResumeShift(toks, rest, p, i);
      }
    }
  }

  /** Token `i` of a scan is token `i - 1` of the scan after its first
      token, and is searched for from the same point. */
  lemma ResumeShift(toks: seq<Token>, rest: seq<Token>, p: nat, i: nat)
    requires 0 < i < |toks| && rest == toks[1..]
    ensures toks[i] == rest[i - 1] && Resume(toks, p, i) == Resume(rest, toks[0].valueEnd, i - 1)
  {
    if i > 1 {
      assert toks[i - 1] == rest[i - 2];
    }
  }

  /** After the last match no label hit remains. */
  lemma {:induction false} ScanIsExhaustive(t: string, labels: seq<string>, p: nat)
    requires p <= |t|
    ensures var toks := Scan(t, labels, p);
            NextHit(t, labels, Resume(toks, p, |toks|)).None?
    decreases |t| - p
  {
    var toks := Scan(t, labels, p);
    if |toks| > 0 {
      var e := toks[0].valueEnd;
      var rest := Scan(t, labels, e);
      ScanTail(t, labels, p);
      ScanIsExhaustive(t, labels, e);
      if |rest| == 0 {
        assert Resume(toks, p, |toks|) == e;
      } else {
        assert toks[|toks| - 1] == rest[|rest| - 1];
      }
    }
  }

  /** Every label of a pair is one of the declared labels, when labels are
      non-empty and star-free. */
  lemma PairLabelsAreDeclared(t: string, labels: seq<string>)
    requires forall i :: 0 <= i < |labels| ==> |labels[i]| > 0 && StarFree(labels[i])
    ensures forall i :: 0 <= i < |PairsOf(t, labels)| ==> PairsOf(t, labels)[i].0 in labels
  {
    var toks := Scan(t, labels, 0);
    var ps := PairsOf(t, labels);
    ScanMatches(t, labels, 0);
    forall i | 0 <= i < |ps| ensures ps[i].0 in labels {
      var tok := toks[i];
      assert IsMatch(t, labels, tok);
      var h := tok.hit;
      var l := labels[h.which];
      HitAtSpec(t, tok.start, labels);
      StripStarsOfHit(t, tok.start, l, h.before, h.after, h.colon);
    }
  }

  /** Without a label hit anywhere there is no pair at all. */
  lemma NoHitNoPairs(t: string, labels: seq<string>)
    requires NoHitIn(t, labels, 0, |t|)
    ensures PairsOf(t, labels) == []
  {
    var toks := Scan(t, labels, 0);
    if |toks| > 0 {
      assert false;
    }
  }
}
