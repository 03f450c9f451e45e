/** `parseContent` of src/main.ts, the parser the sync command calls: the note
    is cut before every `### **Front:` heading, each piece is searched for a
    fixed set of fields, and a card is kept when it has both a front and a
    back. Its field mapping and field list arguments are not consulted. */
module LegacyParser {
  import opened Strings
  import opened Inline

  type Card = map<string, string>

  // ---------------------------------------------------------------------------
  // Chunks: `content.split(/(?=### \*\*Front:)/).filter(Boolean)`

  const Marker: string := "### **Front:"

  /** The pieces of `s` from the piece that starts at `p`, with `q` the next
      position to test for the marker. A zero-width split cuts before every
      marker except one at the very start of a piece. */
  function Pieces(s: string, p: nat, q: nat): (r: seq<string>)
    requires p < q <= |s|
    ensures |r| > 0
    decreases |s| - q
  {
    if q == |s| then [s[p..]]
    else if MatchesAt(s, Marker, q) then [s[p..q]] + Pieces(s, q, q + 1)
    else Pieces(s, p, q + 1)
  }

  /** The chunks: the split pieces without empty ones. Only the empty text
      splits into an empty piece. */
  function Chunks(s: string): seq<string> {
    if |s| == 0 then [] else Pieces(s, 0, 1)
  }

  /** A chunk as the split leaves it: not empty, opening with the marker when
      `lead` says so, and holding no marker after its first character. */
  predicate Cut(c: string, lead: bool) {
    && |c| > 0
    && (lead ==> MatchesAt(c, Marker, 0))
    && forall j :: 0 < j <= |c| ==> !MatchesAt(c, Marker, j)
  }

  lemma ConcatCons(x: string, rest: seq<string>)
    ensures Concat([x] + rest) == x + Concat(rest)
  {
    ConcatAppend([x], rest);
    assert [x][..0] == [];
  }

  lemma {:induction false} PiecesConcat(s: string, p: nat, q: nat)
    requires p < q <= |s|
    ensures Concat(Pieces(s, p, q)) == s[p..]
    decreases |s| - q
  {
    if q == |s| {
      assert [s[p..]][..0] == [];
    } else if MatchesAt(s, Marker, q) {
      PiecesConcat(s, q, q + 1);
      PiecesConcatCut(s, p, q);
    } else {
      PiecesConcat(s, p, q + 1);
    }
  }

  /** The cut at a marker: the piece before it followed by the pieces from
      it. */
  lemma PiecesConcatCut(s: string, p: nat, q: nat)
    requires p < q < |s| && MatchesAt(s, Marker, q)
    requires Concat(Pieces(s, q, q + 1)) == s[q..]
    ensures Concat(Pieces(s, p, q)) == s[p..]
  {
    ConcatCons(s[p..q], Pieces(s, q, q + 1));
    assert s[p..] == s[p..q] + s[q..];
  }

  /** Two occurrences of the marker never overlap. */
  lemma MarkerApart(s: string, p: nat, q: nat)
    requires p < q && MatchesAt(s, Marker, p) && MatchesAt(s, Marker, q)
    ensures p + |Marker| <= q
  {
    MarkerHead(s, q);
    if q < p + |Marker| {
      InsideMarker(s, p, q);
    }
  }

  lemma MarkerHead(s: string, q: nat)
    requires MatchesAt(s, Marker, q)
    ensures s[q] == '#' && s[q + 3] == ' '
  {
    assert s[q + 0] == Marker[0];
    assert s[q + 3] == Marker[3];
  }

  /** Inside an occurrence of the marker, no `#` is followed three places
      later by a space. */
  lemma InsideMarker(s: string, p: nat, q: nat)
    requires MatchesAt(s, Marker, p) && p < q < p + |Marker|
    ensures s[q] != '#' || (q + 3 < p + |Marker| && s[q + 3] != ' ')
  {
    var d := q - p;
    assert s[p + d] == Marker[d];
    if d < 3 {
      assert s[p + (d + 3)] == Marker[d + 3];
    }
  }

  /** `s[p..q]` is a chunk when no marker starts strictly inside it. */
  lemma CutBetween(s: string, p: nat, q: nat)
    requires p < q <= |s|
    requires p > 0 ==> MatchesAt(s, Marker, p) && p + |Marker| <= q
    requires forall j :: p < j < q ==> !MatchesAt(s, Marker, j)
    ensures Cut(s[p..q], p > 0)
  {
    var c := s[p..q];
    forall j | 0 < j && MatchesAt(c, Marker, j) ensures false {
      MatchInside(s, p, q, Marker, j);
    }
    if p > 0 {
      forall i | 0 <= i < |Marker| ensures c[i] == Marker[i] {
        assert c[i] == s[p + i];
      }
    }
  }

  lemma {:induction false} PiecesCut(s: string, p: nat, q: nat)
    requires p < q <= |s|
    requires p > 0 ==> MatchesAt(s, Marker, p)
    requires forall j :: p < j < q ==> !MatchesAt(s, Marker, j)
    ensures forall i :: 0 <= i < |Pieces(s, p, q)| ==> Cut(Pieces(s, p, q)[i], i > 0 || p > 0)
    decreases |s| - q
  {
    if q == |s| {
      CutBetween(s, p, q);
      assert s[p..q] == s[p..];
    } else if MatchesAt(s, Marker, q) {
      PiecesCut(s, q, q + 1);
      if p > 0 {
        MarkerApart(s, p, q);
      }
      CutBetween(s, p, q);
      var rest := Pieces(s, q, q + 1);
      forall i | 0 < i < |Pieces(s, p, q)| ensures Cut(Pieces(s, p, q)[i], true) {
        assert Pieces(s, p, q)[i] == rest[i - 1];
      }
    } else {
      PiecesCut(s, p, q + 1);
    }
  }

  /** The chunks put together give back the text, and each is a cut: the
      text is cut immediately before each marker and nowhere else. */
  lemma ChunksSpec(s: string)
    ensures Concat(Chunks(s)) == s
    ensures forall i :: 0 <= i < |Chunks(s)| ==> Cut(Chunks(s)[i], i > 0)
  {
    if |s| > 0 {
      PiecesConcat(s, 0, 1);
      PiecesCut(s, 0, 1);
    }
  }

  // ---------------------------------------------------------------------------
  // Lookahead-bounded captures

  /** The three lookaheads that end a lazy `[\s\S]*?` capture. */
  datatype Stop =
    | BackEnd     // (?=(?:-   [A-Z]|Context:|$))
    | BulletEnd   // (?=(?:-   |$))
    | SectionEnd  // (?=(?:\n### |$))

  const Bullet: string := "-   "

  predicate IsStop(s: string, k: nat, st: Stop)
    requires k <= |s|
  {
    match st
    case BackEnd =>
      k == |s| || (OccursAt(s, Bullet, k) && k + 4 < |s| && 'A' <= s[k + 4] <= 'Z') || OccursAt(s, "Context:", k)
    case BulletEnd => k == |s| || OccursAt(s, Bullet, k)
    case SectionEnd => k == |s| || OccursAt(s, "\n### ", k)
  }

  /** Where a lazy capture started at `q` ends: the first position at or after
      `q` where the lookahead holds. The end of the text always qualifies. */
  function FirstStop(s: string, q: nat, st: Stop): (r: nat)
    requires q <= |s|
    ensures q <= r <= |s|
    decreases |s| - q
  {
    if IsStop(s, q, st) then q else FirstStop(s, q + 1, st)
  }

  lemma {:induction false} FirstStopSpec(s: string, q: nat, st: Stop)
    requires q <= |s|
    ensures IsStop(s, FirstStop(s, q, st), st)
    ensures forall k :: q <= k < FirstStop(s, q, st) ==> !IsStop(s, k, st)
    decreases |s| - q
  {
    if !IsStop(s, q, st) {
      FirstStopSpec(s, q + 1, st);
    }
  }

  /** `s.match(/lead([\s\S]*?)(?=stop)/)?.[1]`: the capture after the first
      occurrence of `lead`; the lazy run always succeeds, at the latest at
      the end of the text. */
  function CaptureAfter(s: string, lead: string, st: Stop): Option<string> {
    match IndexOf(s, lead, 0)
    case None => None
    case Some(q) =>
      var b := q + |lead|;
      Some(s[b..FirstStop(s, b, st)])
  }

  /** `pat` occurs at `q` and nowhere before. */
  predicate FirstAt(s: string, pat: string, q: nat) {
    OccursAt(s, pat, q) && forall j :: 0 <= j < q ==> !OccursAt(s, pat, j)
  }

  /** `[e..]` is where a lazy capture from `b` ends: the first position where
      the lookahead holds. */
  predicate LazyEnd(s: string, b: nat, e: nat, st: Stop) {
    b <= e <= |s| && IsStop(s, e, st) && forall k :: b <= k < e ==> !IsStop(s, k, st)
  }

  /** `v` is the lazy capture after the first `lead`, which stands at `q`,
      up to `e`. */
  predicate CaptureAt(s: string, lead: string, st: Stop, q: nat, e: nat, v: string) {
    FirstAt(s, lead, q) && LazyEnd(s, q + |lead|, e, st) && v == s[q + |lead|..e]
  }

  /** There is no capture exactly when `lead` never occurs; otherwise the
      capture starts right after its first occurrence and ends at the first
      position where the lookahead holds. */
  lemma CaptureAfterSpec(s: string, lead: string, st: Stop)
    ensures CaptureAfter(s, lead, st).None? <==> forall j :: 0 <= j ==> !OccursAt(s, lead, j)
    ensures CaptureAfter(s, lead, st).Some? ==>
              exists q, e :: CaptureAt(s, lead, st, q, e, CaptureAfter(s, lead, st).value)
  {
    IndexOfSpec(s, lead, 0);
    match IndexOf(s, lead, 0)
    case None =>
    case Some(q) =>
      var b := q + |lead|;
      FirstStopSpec(s, b, st);
      assert CaptureAt(s, lead, st, q, FirstStop(s, b, st), CaptureAfter(s, lead, st).value);
  }

  /** `s.match(/Context:\s*([\s\S]*?)(?=(?:\n### |$))/)?.[1]`: the greedy
      white space after the label is skipped before the capture starts. */
  function PlainContext(s: string): Option<string> {
    match IndexOf(s, "Context:", 0)
    case None => None
    case Some(q) =>
      var b := q + 8;
      var c := b + LeadingSpaces(s[b..]);
      Some(s[c..FirstStop(s, c, SectionEnd)])
  }

  /** `v` is the plain capture: `Context:` first stands at `q`, white space
      runs from behind it to `c`, and the capture runs from `c` to `e`. */
  predicate PlainAt(s: string, q: nat, c: nat, e: nat, v: string) {
    && FirstAt(s, "Context:", q)
    && q + 8 <= c <= |s| && AllSpace(s[q + 8..c]) && (c < |s| ==> !IsSpace(s[c]))
    && LazyEnd(s, c, e, SectionEnd)
    && v == s[c..e]
  }

  /** The plain capture starts after the first `Context:` and the white space
      that follows it, and ends before the next section heading or at the end
      of the text. */
  lemma PlainContextSpec(s: string)
    ensures PlainContext(s).None? <==> forall j :: 0 <= j ==> !OccursAt(s, "Context:", j)
    ensures PlainContext(s).Some? ==> exists q, c, e :: PlainAt(s, q, c, e, PlainContext(s).value)
  {
    IndexOfSpec(s, "Context:", 0);
    match IndexOf(s, "Context:", 0)
    case None =>
    case Some(q) =>
      var c := q + 8 + LeadingSpaces(s[q + 8..]);
      PlainAfter(s, q, c);
      assert PlainAt(s, q, c, FirstStop(s, c, SectionEnd), PlainContext(s).value);
  }

  /** The plain capture after the first `Context:`, standing at `q`, starts
      at `c`, past the white space that follows the label. */
  lemma PlainAfter(s: string, q: nat, c: nat)
    requires q + 8 <= |s| && FirstAt(s, "Context:", q)
    requires c == q + 8 + LeadingSpaces(s[q + 8..])
    ensures c <= |s| && PlainAt(s, q, c, FirstStop(s, c, SectionEnd), s[c..FirstStop(s, c, SectionEnd)])
  {
    var b := q + 8;
    var n := LeadingSpaces(s[b..]);
    LeadingSpacesSpec(s[b..]);
    assert s[b..][..n] == s[b..c];
    if c < |s| {
      assert s[b..][n] == s[c];
    }
    FirstStopSpec(s, c, SectionEnd);
  }

  const FrontLead: string := "### **Front: "

  /** A front heading whose lazy `.*?` reaches a closing `**` on its line
      starts at `q`. */
  predicate FrontAt(s: string, q: nat) {
    q <= |s| && MatchesAt(s, FrontLead, q) && RunEnd(s, "**", q + 13).Some?
  }

  /** The first group of the pattern `### \*\*Front: (.*?)\*\*`, searched
      from `q`: the text between the leftmost front heading that is closed on its line
      and its closing `**`. */
  function FrontFrom(s: string, q: nat): Option<string>
    requires q <= |s|
    decreases |s| - q
  {
    if q == |s| then None
    else if FrontAt(s, q) then Some(s[q + 13..RunEnd(s, "**", q + 13).value])
    else FrontFrom(s, q + 1)
  }

  /** `v` is the front of the first closed heading at or after `q`, which
      stands at `k`. */
  predicate FrontOf(s: string, q: nat, k: nat, v: string) {
    && q <= k && FrontAt(s, k) && (forall j :: q <= j < k ==> !FrontAt(s, j))
    && v == s[k + 13..RunEnd(s, "**", k + 13).value]
  }

  /** There is a front exactly when some heading is closed on its line; the
      front comes from the leftmost one and holds neither a line break nor
      `**`. */
  lemma {:induction false} FrontFromSpec(s: string, q: nat)
    requires q <= |s|
    ensures FrontFrom(s, q).None? <==> forall k :: q <= k ==> !FrontAt(s, k)
    ensures FrontFrom(s, q).Some? ==>
              Lazy(FrontFrom(s, q).value, "**") && exists k :: FrontOf(s, q, k, FrontFrom(s, q).value)
    decreases |s| - q
  {
    if q == |s| {
      assert forall k :: q <= k ==> !MatchesAt(s, FrontLead, k);
    } else if FrontAt(s, q) {
      RunIsLazy(s, "**", q + 13);
      assert FrontOf(s, q, q, FrontFrom(s, q).value);
    } else {
      FrontFromSpec(s, q + 1);
      FrontFromNext(s, q, q + 1);
    }
  }

  /** A position without a closed heading passes the search on to the next
      one, `n`. */
  lemma FrontFromNext(s: string, q: nat, n: nat)
    requires q < |s| && n == q + 1 && !FrontAt(s, q)
    requires FrontFrom(s, n).None? <==> forall k :: n <= k ==> !FrontAt(s, k)
    requires FrontFrom(s, n).Some? ==> Lazy(FrontFrom(s, n).value, "**") && exists k :: FrontOf(s, n, k, FrontFrom(s, n).value)
    ensures FrontFrom(s, q).None? <==> forall k :: q <= k ==> !FrontAt(s, k)
    ensures FrontFrom(s, q).Some? ==>
              Lazy(FrontFrom(s, q).value, "**") && exists k :: FrontOf(s, q, k, FrontFrom(s, q).value)
  {
    assert FrontFrom(s, q) == FrontFrom(s, n);
    if FrontFrom(s, n).Some? {
      FrontOfNext(s, q, n, FrontFrom(s, n).value);
    } else {
      forall k | q <= k ensures !FrontAt(s, k) {
        if k > q {
          assert n <= k;
        }
      }
    }
  }

  lemma FrontOfNext(s: string, q: nat, n: nat, v: string)
    requires n == q + 1 && !FrontAt(s, q) && exists k :: FrontOf(s, n, k, v)
    ensures exists k :: FrontOf(s, q, k, v)
  {
    var k :| FrontOf(s, n, k, v);
    assert FrontOf(s, q, k, v);
  }

  /** The `Context` text: the bullet form when it matches at all, otherwise
      the plain form. */
  function ContextText(entry: string): Option<string> {
    match CaptureAfter(entry, ContextBullet, BulletEnd)
    case Some(c) => Some(c)
    case None => PlainContext(entry)
  }

  const ContextBullet: string := "-   Context: "

  /** The bullet form decides whenever `-   Context: ` occurs at all, even
      when its capture is empty; the plain form is read only when it never
      occurs. There is no `Context` text exactly when `Context:` never
      occurs, since the bullet lead contains it. */
  lemma ContextTextSpec(entry: string)
    ensures (exists j :: 0 <= j && OccursAt(entry, ContextBullet, j)) ==>
              ContextText(entry).Some? &&
              exists q, e :: CaptureAt(entry, ContextBullet, BulletEnd, q, e, ContextText(entry).value)
    ensures (forall j :: 0 <= j ==> !OccursAt(entry, ContextBullet, j)) ==> ContextText(entry) == PlainContext(entry)
    ensures ContextText(entry).None? <==> forall j :: 0 <= j ==> !OccursAt(entry, "Context:", j)
  {
    CaptureAfterSpec(entry, ContextBullet, BulletEnd);
    PlainContextSpec(entry);
    if exists j :: 0 <= j && OccursAt(entry, ContextBullet, j) {
      var j :| 0 <= j && OccursAt(entry, ContextBullet, j);
      BulletHoldsLabel(entry, j);
    }
  }

  /** Where `-   Context: ` occurs, `Context:` occurs four places on. */
  lemma BulletHoldsLabel(entry: string, j: nat)
    requires OccursAt(entry, ContextBullet, j)
    ensures OccursAt(entry, "Context:", j + 4)
  {
    assert entry[j + 4..j + 12] == entry[j..j + 13][4..12];
  }

  /** An empty bullet capture, as in `-   Context: -   ...`, still shuts out
      the plain form: the chunk gets no `Context` field, although the plain
      pattern would have matched. */
  lemma EmptyBulletHidesContext(entry: string)
    requires CaptureAfter(entry, ContextBullet, BulletEnd) == Some("")
    ensures ContextText(entry) == Some("")
    ensures "Context" !in RawFields(entry)
    ensures PlainContext(entry).Some?
  {
    CaptureAfterSpec(entry, ContextBullet, BulletEnd);
    var q, e :| CaptureAt(entry, ContextBullet, BulletEnd, q, e, "");
    BulletHoldsLabel(entry, q);
    PlainContextSpec(entry);
  }

  // ---------------------------------------------------------------------------
  // One chunk

  const FieldNames: set<string> := {"Front", "Back", "Usage", "Example", "Context"}

  /** `if (match) fields[key] = match[1].trim()`. */
  function Put(f: Card, key: string, v: Option<string>): Card {
    if v.Some? then f[key := Trim(v.value)] else f
  }

  /** A capture that is the empty string counts as no capture (`if (contextContent)`). */
  function NonEmpty(v: Option<string>): Option<string> {
    if v.Some? && v.value != "" then v else None
  }

  /** The fields found in a chunk before cleaning, each trimmed. */
  function RawFields(entry: string): Card {
    var f1 := Put(map[], "Front", FrontFrom(entry, 0));
    var f2 := Put(f1, "Back", CaptureAfter(entry, "**Back:** ", BackEnd));
    var f3 := Put(f2, "Usage", CaptureAfter(entry, "-   Usage: ", BulletEnd));
    var f4 := Put(f3, "Example", CaptureAfter(entry, "-   Example: ", BulletEnd));
    Put(f4, "Context", NonEmpty(ContextText(entry)))
  }

  predicate WellFormed(f: Card) {
    f.Keys <= FieldNames && forall k :: k in f ==> IsTrimmed(f[k])
  }

  lemma PutWellFormed(f: Card, key: string, v: Option<string>)
    requires WellFormed(f) && key in FieldNames
    ensures WellFormed(Put(f, key, v))
    ensures key in Put(f, key, v) <==> key in f || v.Some?
  {
    if v.Some? {
      TrimSpec(v.value);
    }
  }

  /** Only the five field names are keys, and every value is trimmed; the
      front is there exactly when a heading closed on its line is. */
  lemma RawFieldsShape(entry: string)
    ensures WellFormed(RawFields(entry))
    ensures "Front" in RawFields(entry) <==> exists k :: 0 <= k && FrontAt(entry, k)
  {
    var f1 := Put(map[], "Front", FrontFrom(entry, 0));
    var f2 := Put(f1, "Back", CaptureAfter(entry, "**Back:** ", BackEnd));
    var f3 := Put(f2, "Usage", CaptureAfter(entry, "-   Usage: ", BulletEnd));
    var f4 := Put(f3, "Example", CaptureAfter(entry, "-   Example: ", BulletEnd));
    PutWellFormed(map[], "Front", FrontFrom(entry, 0));
    PutWellFormed(f1, "Back", CaptureAfter(entry, "**Back:** ", BackEnd));
    PutWellFormed(f2, "Usage", CaptureAfter(entry, "-   Usage: ", BulletEnd));
    PutWellFormed(f3, "Example", CaptureAfter(entry, "-   Example: ", BulletEnd));
    PutWellFormed(f4, "Context", NonEmpty(ContextText(entry)));
    FrontFromSpec(entry, 0);
  }

  /** `.replace(/\n+/g, ' ')`: every run of line feeds becomes one space;
      `inRun` says whether the previous character was a line feed. */
  function CollapseNewlines(s: string, inRun: bool): string {
    if |s| == 0 then ""
    else if s[0] == '\n' then (if inRun then "" else " ") + CollapseNewlines(s[1..], true)
    else [s[0]] + CollapseNewlines(s[1..], false)
  }

  /** `.replace(/\s+/g, ' ')`: every run of white space becomes one space. */
  function CollapseSpaces(s: string, inRun: bool): string {
    if |s| == 0 then ""
    else if IsSpace(s[0]) then (if inRun then "" else " ") + CollapseSpaces(s[1..], true)
    else [s[0]] + CollapseSpaces(s[1..], false)
  }

  /** The clean-up applied to every non-empty field of a kept card. */
  function Tidy(v: string): string {
    Trim(CollapseSpaces(CollapseNewlines(v, false), false))
  }

  /** The only white space left is single spaces between other characters. */
  predicate SingleSpaced(s: string) {
    forall i :: 0 <= i < |s| && IsSpace(s[i]) ==> s[i] == ' ' && (i + 1 < |s| ==> !IsSpace(s[i + 1]))
  }

  predicate HasText(s: string) {
    exists i :: 0 <= i < |s| && !IsSpace(s[i])
  }

  lemma {:induction false} CollapseSpacesSpec(s: string, inRun: bool)
    ensures var r := CollapseSpaces(s, inRun);
            && SingleSpaced(r)
            && (inRun && |r| > 0 ==> !IsSpace(r[0]))
            && (HasText(s) ==> HasText(r))
  {
    if |s| > 0 {
      var rest := CollapseSpaces(s[1..], IsSpace(s[0]));
      CollapseSpacesSpec(s[1..], IsSpace(s[0]));
      var r := CollapseSpaces(s, inRun);
      var head: string := if IsSpace(s[0]) then (if inRun then "" else " ") else [s[0]];
      assert r == head + rest;
      forall i | 0 <= i < |r| && IsSpace(r[i]) ensures r[i] == ' ' && (i + 1 < |r| ==> !IsSpace(r[i + 1])) {
        if i >= |head| {
          assert r[i] == rest[i - |head|];
          if i + 1 < |r| {
            assert r[i + 1] == rest[i + 1 - |head|];
          }
        } else if i + 1 < |r| {
          assert r[i + 1] == rest[0];
        }
      }
      if HasText(s) {
        var m :| 0 <= m < |s| && !IsSpace(s[m]);
        if m == 0 {
          assert r[|head| - 1] == s[0];
        } else {
          assert !IsSpace(s[1..][m - 1]);
          var n :| 0 <= n < |rest| && !IsSpace(rest[n]);
          assert r[|head| + n] == rest[n];
        }
      }
    }
  }

  lemma {:induction false} CollapseNewlinesKeepsText(s: string, inRun: bool)
    ensures HasText(s) ==> HasText(CollapseNewlines(s, inRun))
  {
    if |s| > 0 {
      var rest := CollapseNewlines(s[1..], s[0] == '\n');
      CollapseNewlinesKeepsText(s[1..], s[0] == '\n');
      var r := CollapseNewlines(s, inRun);
      var head: string := if s[0] == '\n' then (if inRun then "" else " ") else [s[0]];
      assert r == head + rest;
      if HasText(s) {
        var m :| 0 <= m < |s| && !IsSpace(s[m]);
        if m == 0 {
          assert r[0] == s[0];
        } else {
          assert !IsSpace(s[1..][m - 1]);
          var n :| 0 <= n < |rest| && !IsSpace(rest[n]);
          assert r[|head| + n] == rest[n];
        }
      }
    }
  }

  /** Trimming a single-spaced text keeps it single-spaced, and keeps any
      character that is not white space. */
  lemma TrimSingleSpaced(s: string)
    requires SingleSpaced(s)
    ensures SingleSpaced(Trim(s)) && IsTrimmed(Trim(s))
    ensures HasText(s) ==> HasText(Trim(s))
  {
    TrimSpec(s);
    LeadingSpacesSpec(s);
    var r := Trim(s);
    var i := LeadingSpaces(s);
    forall m | 0 <= m < |r| ensures r[m] == s[i + m] {
    }
    if HasText(s) {
      var m :| 0 <= m < |s| && !IsSpace(s[m]);
      if i <= m < i + |r| {
        assert r[m - i] == s[m];
      }
    }
  }

  /** A tidied value is trimmed, single-spaced (so without line breaks), and
      keeps its text. */
  lemma TidySpec(v: string)
    ensures IsTrimmed(Tidy(v)) && SingleSpaced(Tidy(v)) && '\n' !in Tidy(v)
    ensures HasText(v) ==> HasText(Tidy(v))
  {
    var a := CollapseNewlines(v, false);
    var b := CollapseSpaces(a, false);
    CollapseNewlinesKeepsText(v, false);
    CollapseSpacesSpec(a, false);
    TrimSingleSpaced(b);
  }

  /** `fields[key] = ...` for every key whose value is not empty. */
  function Tidied(f: Card): Card {
    map k | k in f :: if f[k] != "" then Tidy(f[k]) else f[k]
  }

  /** Front and back are present and not empty. */
  predicate HasFrontAndBack(f: Card) {
    "Front" in f && f["Front"] != "" && "Back" in f && f["Back"] != ""
  }

  /** The card a chunk gives, if any. */
  function CardOf(entry: string): Option<Card> {
    var f := RawFields(entry);
    if HasFrontAndBack(f) then Some(Tidied(f)) else None
  }

  /** The cards of the chunks, in chunk order, at most one per chunk. */
  function CardsOf(chunks: seq<string>): seq<Card> {
    if |chunks| == 0 then []
    else
      var last := CardOf(chunks[|chunks| - 1]);
      CardsOf(chunks[..|chunks| - 1]) + (if last.Some? then [last.value] else [])
  }

  /** What `parseContent` returns. */
  function Cards(content: string): seq<Card> {
    CardsOf(Chunks(content))
  }

  /** A trimmed non-empty text has text. */
  lemma TrimmedNonEmptyHasText(s: string)
    requires IsTrimmed(s) && s != ""
    ensures HasText(s)
  {
    assert !IsSpace(s[0]);
  }

  /** A kept card has a non-empty front and back, only the five field names as
      keys, and every value trimmed and single-spaced with no line break. */
  lemma CardOfSpec(entry: string)
    requires CardOf(entry).Some?
    ensures var c := CardOf(entry).value;
            && HasFrontAndBack(c)
            && c.Keys <= FieldNames
            && forall k :: k in c ==> IsTrimmed(c[k]) && SingleSpaced(c[k]) && '\n' !in c[k]
  {
    var f := RawFields(entry);
    RawFieldsShape(entry);
    var c := Tidied(f);
    forall k | k in f ensures IsTrimmed(c[k]) && SingleSpaced(c[k]) && '\n' !in c[k] {
      TidySpec(f[k]);
    }
    TrimmedNonEmptyHasText(f["Front"]);
    TrimmedNonEmptyHasText(f["Back"]);
    TidySpec(f["Front"]);
    TidySpec(f["Back"]);
  }

  /** At most one card per chunk, and every card comes from a chunk that has
      a front and a back. */
  lemma {:induction false} CardsOfSpec(chunks: seq<string>)
    ensures |CardsOf(chunks)| <= |chunks|
    ensures forall c :: c in CardsOf(chunks) ==> exists e :: e in chunks && CardOf(e) == Some(c)
  {
    if |chunks| > 0 {
      var init := chunks[..|chunks| - 1];
      CardsOfSpec(init);
      var e := chunks[|chunks| - 1];
      forall c | c in CardsOf(chunks) ensures exists e :: e in chunks && CardOf(e) == Some(c) {
        if c in CardsOf(init) {
          var e' :| e' in init && CardOf(e') == Some(c);
          assert e' in chunks;
        } else {
          assert CardOf(e) == Some(c);
        }
      }
    }
  }

  /** Every card of a note has a non-empty front and back, keys among the five
      field names, and tidy values. */
  lemma CardsShape(content: string)
    ensures forall c :: c in Cards(content) ==>
              && HasFrontAndBack(c)
              && c.Keys <= FieldNames
              && forall k :: k in c ==> IsTrimmed(c[k]) && SingleSpaced(c[k]) && '\n' !in c[k]
  {
    CardsOfSpec(Chunks(content));
    forall c | c in Cards(content)
      ensures && HasFrontAndBack(c)
              && c.Keys <= FieldNames
              && forall k :: k in c ==> IsTrimmed(c[k]) && SingleSpaced(c[k]) && '\n' !in c[k]
    {
      var e :| e in Chunks(content) && CardOf(e) == Some(c);
      CardOfSpec(e);
    }
  }

  // ---------------------------------------------------------------------------
  // The loops

  /** The `Object.keys(fields).forEach(...)` clean-up. */
  method TidyFields(fields: Card) returns (tidied: Card)
    ensures tidied == Tidied(fields)
  {
    tidied := fields;
    var keys := fields.Keys;
    while keys != {}
      invariant keys <= fields.Keys
      invariant tidied.Keys == fields.Keys
      invariant forall k :: k in fields && k !in keys ==> tidied[k] == Tidied(fields)[k]
      invariant forall k :: k in keys ==> tidied[k] == fields[k]
      decreases keys
    {
      var key :| key in keys;
      if tidied[key] != "" {
        tidied := tidied[key := Tidy(tidied[key])];
      }
      keys := keys - {key};
    }
  }

  /** `if (match) fields[key] = match[1].trim()`. */
  method Record(fields: Card, key: string, found: Option<string>) returns (updated: Card)
    ensures updated == Put(fields, key, found)
  {
    updated := fields;
    if found.Some? {
      updated := updated[key := Trim(found.value)];
    }
  }

  /** The field-by-field search of one chunk. */
  method FindFields(entry: string) returns (fields: Card)
    ensures fields == RawFields(entry)
  {
    fields := map[];
    var frontMatch := FrontFrom(entry, 0);
    fields := Record(fields, "Front", frontMatch);
    var backMatch := CaptureAfter(entry, "**Back:** ", BackEnd);
    fields := Record(fields, "Back", backMatch);
    var usageMatch := CaptureAfter(entry, "-   Usage: ", BulletEnd);
    fields := Record(fields, "Usage", usageMatch);
    var exampleMatch := CaptureAfter(entry, "-   Example: ", BulletEnd);
    fields := Record(fields, "Example", exampleMatch);
    var contextContent := FindContext(entry);
    if contextContent.Some? && contextContent.value != "" {
      fields := fields["Context" := Trim(contextContent.value)];
    }
  }

  /** The bullet form of `Context` first, then the plain form. */
  method FindContext(entry: string) returns (contextContent: Option<string>)
    ensures contextContent == ContextText(entry)
  {
    contextContent := None;
    var contextBulletMatch := CaptureAfter(entry, ContextBullet, BulletEnd);
    if contextBulletMatch.Some? {
      contextContent := contextBulletMatch;
    } else {
      contextContent := PlainContext(entry);
    }
  }

  /** `parseContent` of src/main.ts; the mapping and the field list are
      accepted and ignored. */
  method ParseContent(content: string, fieldMappings: seq<(string, string)>, availableFields: seq<string>)
    returns (flashcards: seq<Card>)
    ensures flashcards == Cards(content)
  {
    var entries := Chunks(content);
    flashcards := [];
    for n := 0 to |entries|
      invariant flashcards == CardsOf(entries[..n])
    {
      var entry := entries[n];
      var fields := FindFields(entry);
      assert entries[..n + 1][..n] == entries[..n];
      if HasFrontAndBack(fields) {
        fields := TidyFields(fields);
        flashcards := flashcards + [fields];
      }
    }
    assert entries[..|entries|] == entries;
  }
}
