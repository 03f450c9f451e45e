/** Label hits for the field-extraction pattern of `extractFieldsFromText` in
    src/parser.ts, and the star stripping applied to labels and values.

    For labels L1 .. Ln the source matches `(P1|..|Pn):` with
    Pi = `\*{0,2}Li\*{0,2}`. A label hit at a position is the first label (in
    declaration order) that fits with two, one or no stars in front and two,
    one or no stars behind, followed by `:`. Labels are taken to hold no
    regular-expression metacharacters, so each is matched literally. */
module LabelPattern {
  import opened Strings

  // ---------------------------------------------------------------------------
  // Label hits

  predicate StarsAt(t: string, p: nat, k: nat) {
    p + k <= |t| && forall i :: p <= i < p + k ==> t[i] == '*'
  }

  /** The alternative `\*{a}L\*{b}:` matches `t` at `p`. */
  predicate AltMatches(t: string, p: nat, l: string, a: nat, b: nat) {
    && StarsAt(t, p, a)
    && OccursAt(t, l, p + a)
    && StarsAt(t, p + a + |l|, b)
    && p + a + |l| + b < |t|
    && t[p + a + |l| + b] == ':'
  }

  /** Backtracking over the trailing `\*{0,2}` of label `l` with `a` leading
      stars: tries `b`, then fewer, trailing stars. */
  function TryAfter(t: string, p: nat, l: string, a: nat, b: nat): (r: Option<nat>)
    ensures r.Some? ==> r.value <= b
  {
    if AltMatches(t, p, l, a, b) then Some(b)
    else if b == 0 then None
    else TryAfter(t, p, l, a, b - 1)
  }

  lemma {:induction false} TryAfterSpec(t: string, p: nat, l: string, a: nat, b: nat)
    ensures var r := TryAfter(t, p, l, a, b);
            && (r.Some? ==> AltMatches(t, p, l, a, r.value))
            && (r.None? ==> forall b': nat :: b' <= b ==> !AltMatches(t, p, l, a, b'))
  {
    if !AltMatches(t, p, l, a, b) && b > 0 {
      TryAfterSpec(t, p, l, a, b - 1);
    }
  }

  /** Backtracking over the leading `\*{0,2}`: tries `a`, then fewer, leading
      stars, each time with up to two trailing ones. */
  function TryBefore(t: string, p: nat, l: string, a: nat): (r: Option<(nat, nat)>)
    ensures r.Some? ==> r.value.0 <= a && r.value.1 <= 2
  {
    match TryAfter(t, p, l, a, 2)
    case Some(b) => Some((a, b))
    case None => if a == 0 then None else TryBefore(t, p, l, a - 1)
  }

  lemma {:induction false} TryBeforeSpec(t: string, p: nat, l: string, a: nat)
    ensures var r := TryBefore(t, p, l, a);
            && (r.Some? ==> AltMatches(t, p, l, r.value.0, r.value.1))
            && (r.None? ==> forall a': nat, b': nat :: a' <= a && b' <= 2 ==> !AltMatches(t, p, l, a', b'))
  {
    TryAfterSpec(t, p, l, a, 2);
    if TryAfter(t, p, l, a, 2).None? && a > 0 {
      TryBeforeSpec(t, p, l, a - 1);
    }
  }

  /** A label hit: which label matched, with how many stars before and after
      it, and where the colon stands. */
  datatype Hit = Hit(which: nat, before: nat, after: nat, colon: nat)

  /** The alternation `(P1|..|Pn):` at `p`, trying the labels from `from` on
      in declaration order. */
  function HitFrom(t: string, p: nat, labels: seq<string>, from: nat): (r: Option<Hit>)
    requires from <= |labels|
    ensures r.Some? ==> && from <= r.value.which < |labels| && r.value.before <= 2 && r.value.after <= 2
                        && r.value.colon == p + r.value.before + |labels[r.value.which]| + r.value.after
                        && r.value.colon < |t|
    decreases |labels| - from
  {
    if from == |labels| then None
    else match TryBefore(t, p, labels[from], 2)
      case Some(c) =>
        TryBeforeSpec(t, p, labels[from], 2);
        Some(Hit(from, c.0, c.1, p + c.0 + |labels[from]| + c.1))
      case None => HitFrom(t, p, labels, from + 1)
  }

  lemma {:induction false} HitFromSpec(t: string, p: nat, labels: seq<string>, from: nat)
    requires from <= |labels|
    ensures var r := HitFrom(t, p, labels, from);
            && (r.Some? ==> AltMatches(t, p, labels[r.value.which], r.value.before, r.value.after))
            && (r.Some? ==> forall i, a: nat, b: nat :: from <= i < r.value.which && a <= 2 && b <= 2 ==>
                              !AltMatches(t, p, labels[i], a, b))
            && (r.None? ==> forall i, a: nat, b: nat :: from <= i < |labels| && a <= 2 && b <= 2 ==>
                              !AltMatches(t, p, labels[i], a, b))
    decreases |labels| - from
  {
    if from < |labels| {
      TryBeforeSpec(t, p, labels[from], 2);
      if TryBefore(t, p, labels[from], 2).None? {
        HitFromSpec(t, p, labels, from + 1);
      }
    }
  }

  /** Whether `(P1|..|Pn):` matches at `p`, and with which label. */
  function HitAt(t: string, p: nat, labels: seq<string>): (r: Option<Hit>)
    ensures r.Some? ==> && r.value.which < |labels| && r.value.before <= 2 && r.value.after <= 2
                        && r.value.colon == p + r.value.before + |labels[r.value.which]| + r.value.after
                        && r.value.colon < |t|
  {
    HitFrom(t, p, labels, 0)
  }

  /** A hit is the first label, in declaration order, that fits at `p` with at
      most two stars on each side; there is no hit exactly when no label fits. */
  lemma HitAtSpec(t: string, p: nat, labels: seq<string>)
    ensures var r := HitAt(t, p, labels);
            && (r.Some? ==> AltMatches(t, p, labels[r.value.which], r.value.before, r.value.after))
            && (r.Some? ==> forall i, a: nat, b: nat :: 0 <= i < r.value.which && a <= 2 && b <= 2 ==>
                              !AltMatches(t, p, labels[i], a, b))
            && (r.None? ==> forall i, a: nat, b: nat :: 0 <= i < |labels| && a <= 2 && b <= 2 ==>
                              !AltMatches(t, p, labels[i], a, b))
  {
    HitFromSpec(t, p, labels, 0);
  }

  /** No label hit starts in `[lo, hi)`. */
  predicate NoHitIn(t: string, labels: seq<string>, lo: nat, hi: nat) {
    forall q :: lo <= q < hi ==> HitAt(t, q, labels).None?
  }

  // ---------------------------------------------------------------------------
  // Stars around labels and values: `.replace(/^\**|\**$/g, '')`

  function LeadingStars(s: string): (n: nat)
    ensures n <= |s| && StarsAt(s, 0, n) && (n < |s| ==> s[n] != '*')
  {
    if |s| > 0 && s[0] == '*' then 1 + LeadingStars(s[1..]) else 0
  }

  lemma {:induction false} LeadingStarsOf(s: string, a: nat)
    requires a < |s| && StarsAt(s, 0, a) && s[a] != '*'
    ensures LeadingStars(s) == a
  {
    if a > 0 {
      assert StarsAt(s[1..], 0, a - 1);
      LeadingStarsOf(s[1..], a - 1);
    }
  }

  function TrailingStarsStart(s: string): (n: nat)
    ensures n <= |s| && StarsAt(s, n, |s| - n) && (n > 0 ==> s[n - 1] != '*')
  {
    if |s| > 0 && s[|s| - 1] == '*' then TrailingStarsStart(s[..|s| - 1]) else |s|
  }

  lemma {:induction false} TrailingStarsStartOf(s: string, j: nat)
    requires 0 < j <= |s| && StarsAt(s, j, |s| - j) && s[j - 1] != '*'
    ensures TrailingStarsStart(s) == j
  {
    if j < |s| {
      var s' := s[..|s| - 1];
      assert StarsAt(s', j, |s'| - j);
      TrailingStarsStartOf(s', j);
    }
  }

  /** Removes the run of stars at the start and the run at the end. */
  function StripStars(s: string): (r: string)
    ensures |r| == 0 || (r[0] != '*' && r[|r| - 1] != '*')
    ensures var i := LeadingStars(s); i + |r| <= |s| && r == s[i..i + |r|] && StarsAt(s, i + |r|, |s| - i - |r|)
  {
    var u := s[LeadingStars(s)..];
    u[..TrailingStarsStart(u)]
  }

  predicate StarFree(l: string) {
    forall i :: 0 <= i < |l| ==> l[i] != '*'
  }

  /** A non-empty, star-free label found at a hit with its stars around it is
      read back as the label itself. */
  lemma StripStarsOfHit(t: string, p: nat, l: string, a: nat, b: nat, colon: nat)
    requires |l| > 0 && StarFree(l)
    requires AltMatches(t, p, l, a, b) && colon == p + a + |l| + b
    ensures StripStars(t[p..colon]) == l
  {
    var s := t[p..colon];
    assert s[a] == l[0] by { assert t[p + a..p + a + |l|] == l; }
    assert StarsAt(s, 0, a);
    LeadingStarsOf(s, a);
    var u := s[a..];
    assert u[..|l|] == l by { assert t[p + a..p + a + |l|] == l; }
    assert u[|l| - 1] == l[|l| - 1];
    assert StarsAt(u, |l|, |u| - |l|);
    TrailingStarsStartOf(u, |l|);
  }

}
