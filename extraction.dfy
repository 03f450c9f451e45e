/** Grouping and clean-up of `extractFieldsFromText` in src/parser.ts: the
    (label, value) pairs the pattern finds are cut into entries, one per
    occurrence of the first declared label, and every value is cleaned. */
module Extraction {
  import opened Strings
  import opened LabelPattern
  import opened Scanner
  import opened ScannerFacts

  /** A document entry under construction: label to value. */
  type Entry = map<string, string>

  // ---------------------------------------------------------------------------
  // Grouping into entries

  function Flatten(ss: seq<seq<Pair>>): seq<Pair>
  {
    if |ss| == 0 then [] else Flatten(ss[..|ss| - 1]) + ss[|ss| - 1]
  }

  /** Adds pair `x` to the groups built so far: it opens a new group when it
      carries `first` or when there is no group yet, and joins the last group
      otherwise. */
  function AddPair(s: seq<seq<Pair>>, x: Pair, first: string): (r: seq<seq<Pair>>)
    ensures |r| > 0
  {
    if |s| == 0 || x.0 == first then s + [[x]]
    else s[..|s| - 1] + [s[|s| - 1] + [x]]
  }

  /** Cuts the pairs into entries: a new entry starts at the first pair and at
      every later pair whose label is `first`. The source states the same rule
      from the other side: it closes the current entry after pair i when i is
      the last pair or pair i+1 carries `first`. */
  function Split(ps: seq<Pair>, first: string): (r: seq<seq<Pair>>)
    ensures |r| == 0 <==> |ps| == 0
  {
    if |ps| == 0 then [] else AddPair(Split(ps[..|ps| - 1], first), ps[|ps| - 1], first)
  }

  /** The groups put back together are the pairs. */
  lemma {:induction false} SplitFlattens(ps: seq<Pair>, first: string)
    ensures Flatten(Split(ps, first)) == ps
  {
    if |ps| > 0 {
      var init := ps[..|ps| - 1];
      var s := Split(init, first);
      var x := ps[|ps| - 1];
      SplitFlattens(init, first);
      var r := AddPair(s, x, first);
      if |s| == 0 || x.0 == first {
        assert r[..|s|] == s;
      } else {
        assert r[..|s| - 1] == s[..|s| - 1];
        assert Flatten(s) == Flatten(s[..|s| - 1]) + s[|s| - 1];
      }
      assert ps == init + [x];
    }
  }

  /** Every group is non-empty, every group after the first starts with
      `first`, and no group holds `first` past its head. */
  predicate WellCut(r: seq<seq<Pair>>, first: string) {
    && (forall k :: 0 <= k < |r| ==> |r[k]| > 0)
    && (forall k :: 0 < k < |r| ==> r[k][0].0 == first)
    && (forall k, j :: 0 <= k < |r| && 0 < j < |r[k]| ==> r[k][j].0 != first)
  }

  lemma AddPairKeepsWellCut(s: seq<seq<Pair>>, x: Pair, first: string)
    requires WellCut(s, first)
    ensures WellCut(AddPair(s, x, first), first)
  {
    var r := AddPair(s, x, first);
    if |s| == 0 || x.0 == first {
      assert forall k :: 0 <= k < |s| ==> r[k] == s[k];
    } else {
      assert forall k :: 0 <= k < |s| - 1 ==> r[k] == s[k];
      assert r[|s| - 1] == s[|s| - 1] + [x];
    }
  }

  lemma {:induction false} SplitIsWellCut(ps: seq<Pair>, first: string)
    ensures WellCut(Split(ps, first), first)
  {
    if |ps| > 0 {
      SplitIsWellCut(ps[..|ps| - 1], first);
      AddPairKeepsWellCut(Split(ps[..|ps| - 1], first), ps[|ps| - 1], first);
    }
  }

  /** Every pair of a group is one of the input pairs. */
  lemma {:induction false} FlattenMembers(ss: seq<seq<Pair>>, k: nat, j: nat)
    requires k < |ss| && j < |ss[k]|
    ensures ss[k][j] in Flatten(ss)
  {
    if k < |ss| - 1 {
      assert ss[..|ss| - 1][k] == ss[k];
      FlattenMembers(ss[..|ss| - 1], k, j);
    }
  }

  /** The entry built from one group: `currentEntry[field] = value` for each
      pair in turn, so a repeated label keeps its last value. */
  function Fold(seg: seq<Pair>): (m: Entry)
    ensures forall k :: k in m <==> exists j :: 0 <= j < |seg| && seg[j].0 == k
  {
    if |seg| == 0 then map[]
    else
      var m := Fold(seg[..|seg| - 1])[seg[|seg| - 1].0 := seg[|seg| - 1].1];
      assert forall j :: 0 <= j < |seg| - 1 ==> seg[..|seg| - 1][j] == seg[j];
      m
  }

  /** Last write wins: a label's value in the entry is the value of its last
      occurrence in the group. */
  lemma {:induction false} FoldLastWins(seg: seq<Pair>, j: nat)
    requires j < |seg|
    requires forall j' :: j < j' < |seg| ==> seg[j'].0 != seg[j].0
    ensures seg[j].0 in Fold(seg) && Fold(seg)[seg[j].0] == seg[j].1
  {
    if j < |seg| - 1 {
      var init := seg[..|seg| - 1];
      assert init[j] == seg[j];
      FoldLastWins(init, j);
    }
  }

  function FoldEach(ss: seq<seq<Pair>>): (r: seq<Entry>)
    ensures |r| == |ss|
  {
    if |ss| == 0 then [] else FoldEach(ss[..|ss| - 1]) + [Fold(ss[|ss| - 1])]
  }

  /** The `k`-th entry holds the pairs of the `k`-th group. */
  lemma {:induction false} FoldEachSpec(ss: seq<seq<Pair>>)
    ensures forall k :: 0 <= k < |ss| ==> FoldEach(ss)[k] == Fold(ss[k])
  {
    if |ss| > 0 {
      FoldEachSpec(ss[..|ss| - 1]);
    }
  }

  /** What adding a pair does to the last group and to the groups before it. */
  lemma AddPairParts(s: seq<seq<Pair>>, x: Pair, first: string)
    ensures var r := AddPair(s, x, first);
            var opens := |s| == 0 || x.0 == first;
            && r[..|r| - 1] == (if opens then s else s[..|s| - 1])
            && Fold(r[|r| - 1]) == (if opens then map[] else Fold(s[|s| - 1]))[x.0 := x.1]
  {
    var r := AddPair(s, x, first);
    if |s| == 0 || x.0 == first {
      assert r[..|r| - 1] == s;
      assert [x][..0] == [];
    } else {
      var g := s[|s| - 1] + [x];
      assert r[..|r| - 1] == s[..|s| - 1];
      assert g[..|g| - 1] == s[|s| - 1];
    }
  }

  /** The `forEach` of src/parser.ts: adds each pair to the current entry and
      pushes the entry when the pair is the last one or the next pair's label is
      `first`. The result is one entry per group of `Split`. */
  method GroupEntries(ps: seq<Pair>, first: string) returns (entries: seq<Entry>)
    ensures entries == FoldEach(Split(ps, first))
  {
    entries := [];
    var current: Entry := map[];
    var i := 0;
    while i < |ps|
      invariant 0 <= i <= |ps|
      invariant var s := Split(ps[..i], first);
                if 0 < i < |ps| && ps[i].0 != first
                then |s| > 0 && entries == FoldEach(s[..|s| - 1]) && current == Fold(s[|s| - 1])
                else entries == FoldEach(s) && current == map[]
    {
      GroupAdd(ps, i, first, entries, current);
      ghost var s1 := Split(ps[..i + 1], first);
      var field := ps[i].0;
      var value := ps[i].1;
      current := current[field := value];
      if i + 1 == |ps| || ps[i + 1].0 == first {
        FoldEachSnoc(s1);
        entries := entries + [current];
        current := map[];
      }
      i := i + 1;
    }
    assert ps[..|ps|] == ps;
  }

  /** Adding the `i`-th pair to the current entry: the entries pushed so far
      and the current entry are those of the groups of the first `i + 1`
      pairs. */
  lemma GroupAdd(ps: seq<Pair>, i: nat, first: string, entries: seq<Entry>, current: Entry)
    requires i < |ps|
    requires var s := Split(ps[..i], first);
             if 0 < i && ps[i].0 != first
             then |s| > 0 && entries == FoldEach(s[..|s| - 1]) && current == Fold(s[|s| - 1])
             else entries == FoldEach(s) && current == map[]
    ensures var s1 := Split(ps[..i + 1], first);
            |s1| > 0 && entries == FoldEach(s1[..|s1| - 1]) && current[ps[i].0 := ps[i].1] == Fold(s1[|s1| - 1])
  {
    var s := Split(ps[..i], first);
    assert ps[..i + 1][..i] == ps[..i];
    AddPairParts(s, ps[i], first);
  }

  lemma FoldEachSnoc(ss: seq<seq<Pair>>)
    requires |ss| > 0
    ensures FoldEach(ss) == FoldEach(ss[..|ss| - 1]) + [Fold(ss[|ss| - 1])]
  {
  }

  /** Without any match there is no entry, and no entry is empty. */
  lemma GroupShape(ps: seq<Pair>, first: string)
    ensures |ps| == 0 <==> |FoldEach(Split(ps, first))| == 0
    ensures forall e :: e in FoldEach(Split(ps, first)) ==> |e| > 0
  {
    var s := Split(ps, first);
    SplitIsWellCut(ps, first);
    FoldEachSpec(s);
    forall e | e in FoldEach(s) ensures |e| > 0 {
      var k :| 0 <= k < |s| && FoldEach(s)[k] == e;
      assert s[k][0].0 in Fold(s[k]);
    }
  }

  // ---------------------------------------------------------------------------
  // Value clean-up

  /** `.replace(/[-]\s*$/g, '')`: drops a `-` that is followed by nothing but
      white space, together with that white space. */
  function DropTrailingDash(s: string): (r: string)
    ensures |r| <= |s|
  {
    var e := TrailingStart(s);
    if e > 0 && s[e - 1] == '-' then s[..e - 1] else s
  }

  /** Either a `-` followed by white space only is cut off with everything
      after it, or there is no such `-` and the text stays. */
  lemma DropTrailingDashSpec(s: string)
    ensures var r := DropTrailingDash(s);
            || (exists p :: 0 <= p < |s| && s[p] == '-' && AllSpace(s[p + 1..]) && r == s[..p])
            || (r == s && forall p :: 0 <= p < |s| && s[p] == '-' ==> !AllSpace(s[p + 1..]))
  {
    var e := TrailingStart(s);
    TrailingStartSpec(s);
    if e > 0 && s[e - 1] == '-' {
      assert s[e - 1] == '-' && AllSpace(s[e..]);
    } else {
      forall p | 0 <= p < |s| && s[p] == '-' ensures !AllSpace(s[p + 1..]) {
        assert p < e;
        assert s[p + 1..][e - 1 - (p + 1)] == s[e - 1];
      }
    }
  }

  /** The clean-up every value gets: stars at both ends removed, a trailing
      dash removed, trimmed. */
  function CleanValue(v: string): (r: string)
    ensures |r| <= |v|
  {
    Trim(DropTrailingDash(StripStars(v)))
  }

  /** A cleaned value has no white space at either end. */
  lemma CleanValueIsTrimmed(v: string)
    ensures IsTrimmed(CleanValue(v))
  {
    TrimSpec(DropTrailingDash(StripStars(v)));
  }

  /** Text that is already clean is left as it is: trimmed, no star at either
      end, no trailing dash. */
  lemma CleanValueKeepsCleanText(v: string)
    requires IsTrimmed(v)
    requires |v| == 0 || (v[0] != '*' && v[|v| - 1] != '*' && v[|v| - 1] != '-')
    ensures CleanValue(v) == v
  {
    if |v| > 0 {
      LeadingStarsOf(v, 0);
      TrailingStarsStartOf(v[0..], |v|);
      assert v[0..] == v;
      assert StripStars(v) == v;
      assert !IsSpace(v[|v| - 1]);
    assert TrailingStart(v) == |v|;
      TrimOfTrimmed(v);
    }
  }

  /** The value the pattern captures after `**Back:**` in a card whose next
      line is a `-   Usage:` bullet comes out as the bare text. */
  lemma BackBeforeBulletCleaned()
    ensures CleanValue(Trim("** Xin chào\n-   ")) == "Xin chào"
  {
    ExampleTrimmed();
    ExampleStripped();
    ExampleDashDropped();
    ExampleFinalTrim();
  }

  lemma ExampleTrimmed()
    ensures Trim("** Xin chào\n-   ") == "** Xin chào\n-"
  {
    var t := "** Xin chào\n-";
    var raw := t + seq(3, _ => ' ');
    assert raw == "** Xin chào\n-   ";
    assert raw[0] == '*' && !IsSpace('*');
    assert LeadingSpaces(raw) == 0;
    assert raw[0..] == raw;
    assert !IsSpace(t[|t| - 1]);
    TrailingBlanks(t, 3);
  }

  /** Trailing white space after a character that is not white space starts
      the trailing run. */
  lemma {:induction false} TrailingBlanks(t: string, n: nat)
    requires |t| > 0 && !IsSpace(t[|t| - 1])
    ensures TrailingStart(t + seq(n, _ => ' ')) == |t| && (t + seq(n, _ => ' '))[..|t|] == t
  {
    var s := t + seq(n, _ => ' ');
    if n > 0 {
      TrailingBlanks(t, n - 1);
      assert s[..|s| - 1] == t + seq(n - 1, _ => ' ');
    }
  }

  lemma ExampleStripped()
    ensures StripStars("** Xin chào\n-") == " Xin chào\n-"
  {
    var t := "** Xin chào\n-";
    LeadingStarsOf(t, 2);
    var u := t[2..];
    TrailingStarsStartOf(u, |u|);
    assert u[..|u|] == u;
  }

  lemma ExampleDashDropped()
    ensures DropTrailingDash(" Xin chào\n-") == " Xin chào\n"
  {
    var v := " Xin chào\n-";
    assert !IsSpace(v[|v| - 1]);
    assert v[..|v| - 1] == " Xin chào\n";
  }

  lemma ExampleFinalTrim()
    ensures Trim(" Xin chào\n") == "Xin chào"
  {
    var w := " Xin chào\n";
    var x := w[1..];
    assert !IsSpace(x[0]) && LeadingSpaces(x) == 0;
    assert IsSpace(w[0]) && LeadingSpaces(w) == 1;
    assert IsSpace(x[8]) && x[..|x| - 1] == x[..8];
    assert !IsSpace(x[7]);
    assert x[..8] == "Xin chào";
  }

  function CleanEntry(e: Entry): (r: Entry)
    ensures r.Keys == e.Keys
  {
    map k | k in e :: CleanValue(e[k])
  }

  /** Every entry with each of its values cleaned. */
  function CleanAll(grouped: seq<Entry>): (r: seq<Entry>)
    ensures |r| == |grouped| && forall k :: 0 <= k < |r| ==> r[k] == CleanEntry(grouped[k])
  {
    seq(|grouped|, i requires 0 <= i < |grouped| => CleanEntry(grouped[i]))
  }

  /** The entries `extractFieldsFromText(fields, text)` returns. */
  function ExtractFields(fields: seq<string>, text: string): seq<Entry>
    requires |fields| > 0
  {
    CleanAll(FoldEach(Split(PairsOf(text, fields), fields[0])))
  }

  /** The `for ... in` loop that cleans one entry, key by key. */
  method CleanEntryByKeys(entry: Entry) returns (cleaned: Entry)
    ensures cleaned == CleanEntry(entry)
  {
    cleaned := map[];
    var keys := entry.Keys;
    while keys != {}
      invariant keys <= entry.Keys
      invariant cleaned.Keys == entry.Keys - keys
      invariant forall k :: k in cleaned ==> cleaned[k] == CleanValue(entry[k])
      decreases keys
    {
      var key :| key in keys;
      cleaned := cleaned[key := CleanValue(entry[key])];
      keys := keys - {key};
    }
    CleanedEntry(entry, cleaned);
  }

  /** A map with the entry's keys holding each value cleaned is the cleaned
      entry. */
  lemma CleanedEntry(entry: Entry, cleaned: Entry)
    requires cleaned.Keys == entry.Keys
    requires forall k :: k in cleaned ==> cleaned[k] == CleanValue(entry[k])
    ensures cleaned == CleanEntry(entry)
  {
  }


  /** The `entries.map(...)` step: every entry cleaned, in order. */
  method CleanEntries(grouped: seq<Entry>) returns (entries: seq<Entry>)
    ensures entries == CleanAll(grouped)
  {
    entries := [];
    var i := 0;
    while i < |grouped|
      invariant 0 <= i <= |grouped|
      invariant |entries| == i && forall k :: 0 <= k < i ==> entries[k] == CleanEntry(grouped[k])
    {
      var cleaned := CleanEntryByKeys(grouped[i]);
      entries := entries + [cleaned];
      i := i + 1;
    }
    CleanedAll(grouped, entries);
  }

  lemma CleanedAll(grouped: seq<Entry>, entries: seq<Entry>)
    requires |entries| == |grouped| && forall k :: 0 <= k < |grouped| ==> entries[k] == CleanEntry(grouped[k])
    ensures entries == CleanAll(grouped)
  {
  }

  /** `extractFieldsFromText`: collects the matches, groups them, then cleans
      every entry. */
  method ExtractFieldsFromText(fields: seq<string>, text: string) returns (entries: seq<Entry>)
    requires |fields| > 0
    ensures entries == ExtractFields(fields, text)
  {
    var matches := PairsOf(text, fields);
    var grouped := GroupEntries(matches, fields[0]);
    entries := CleanEntries(grouped);
  }

  /** Every key of every extracted entry is one of the declared labels, when
      labels are non-empty and hold no star. */
  lemma ExtractedKeysAreLabels(fields: seq<string>, text: string)
    requires |fields| > 0
    requires forall i :: 0 <= i < |fields| ==> |fields[i]| > 0 && StarFree(fields[i])
    ensures forall e, k :: e in ExtractFields(fields, text) && k in e ==> k in fields
  {
    var ps := PairsOf(text, fields);
    var s := Split(ps, fields[0]);
    var grouped := FoldEach(s);
    FoldEachSpec(s);
    PairLabelsAreDeclared(text, fields);
    forall e, k | e in ExtractFields(fields, text) && k in e ensures k in fields {
      var n :| 0 <= n < |grouped| && e == CleanEntry(grouped[n]);
      var j :| 0 <= j < |s[n]| && s[n][j].0 == k;
      FlattenMembers(s, n, j);
      SplitFlattens(ps, fields[0]);
    }
  }

  /** With no label hit anywhere there is no entry at all. */
  lemma NoLabelNoEntries(fields: seq<string>, text: string)
    requires |fields| > 0
    requires NoHitIn(text, fields, 0, |text|)
    ensures ExtractFields(fields, text) == []
  {
    NoHitNoPairs(text, fields);
  }
}
