/** The field highlighting of src/field-decorator.ts without the editor and
    the DOM: a colour cache that gives every note field a colour the first
    time it is asked for, the scan that finds every `Label:` marker in the
    visible slices of the editor, and the split of a rendered text into plain
    fragments and highlighted markers. */
module Decorator {
  import opened Strings
  import opened Fragments
  import opened Frontmatter

  // ---------------------------------------------------------------------------
  // Colours

  /** The base hues of `createColorGenerator`, written as they print. */
  const Hues: seq<string> := ["0", "60", "120", "180", "240", "300"]

  /** The `k`-th colour the generator hands out. */
  function HueColor(k: nat): string {
    "hsla(" + Hues[k % |Hues|] + ColorTail
  }

  /** The hue written in a colour: the text between `hsla(` and the first
      comma after it. */
  function ReadHue(color: string): Option<string> {
    if StartsWith(color, "hsla(") then
      match IndexOf(color, ",", 5)
      case Some(k) => Some(color[5..k])
      case None => None
    else None
  }

  const ColorTail: string := ", 70%, 80%, 0.3)"

  /** Reading the hue back out of a colour gives the hue it was made from,
      for any hue without a comma. */
  lemma ReadHueOf(h: string)
    requires ',' !in h
    ensures ReadHue("hsla(" + h + ColorTail) == Some(h)
  {
    var c := "hsla(" + h + ColorTail;
    assert c[..5] == "hsla(";
    var e := 5 + |h|;
    assert c[e] == ColorTail[0];
    assert c[e..e + 1] == ",";
    forall j | 5 <= j < e ensures !OccursAt(c, ",", j) {
      assert c[j] == h[j - 5];
      assert c[j..j + 1] == [c[j]];
    }
    assert OccursAt(c, ",", e);
    IndexOfSpec(c, ",", 5);
    assert IndexOf(c, ",", 5) == Some(e);
    assert c[5..e] == h;
  }

  /** Which of the six hues `h` is. */
  function HueIndex(h: string): nat {
    if h == "0" then 0 else if h == "60" then 1 else if h == "120" then 2
    else if h == "180" then 3 else if h == "240" then 4 else 5
  }

  lemma HueIndexOf(a: nat)
    requires a < 6
    ensures HueIndex(Hues[a]) == a
  {
    if a == 0 {
    } else if a == 1 {
    } else if a == 2 {
    } else if a == 3 {
    } else if a == 4 {
    } else {
    }
  }

  /** Two colours are equal exactly when they come from the same hue: the
      generator cycles through six distinct colours. */
  lemma HueColorsCycle(j: nat, k: nat)
    ensures HueColor(j) == HueColor(k) <==> j % 6 == k % 6
  {
    var a := j % 6;
    var b := k % 6;
    assert ',' !in Hues[a] && ',' !in Hues[b];
    ReadHueOf(Hues[a]);
    ReadHueOf(Hues[b]);
    HueIndexOf(a);
    HueIndexOf(b);
  }

  /** The `k`-th field of `order` is cached with the `k`-th colour, no field
      is listed twice, and `counter` fields have been listed. */
  ghost predicate Numbered(order: seq<string>, colors: map<string, string>, counter: nat) {
    && |order| == counter
    && (forall i, j :: 0 <= i < j < |order| ==> order[i] != order[j])
    && (forall f :: f in colors <==> f in order)
    && forall k :: 0 <= k < |order| ==> order[k] in colors && colors[order[k]] == HueColor(k)
  }

  /** Caching a new field with the next colour keeps the numbering. */
  lemma NumberedAdd(order: seq<string>, colors: map<string, string>, counter: nat, field: string)
    requires Numbered(order, colors, counter) && field !in colors
    ensures Numbered(order + [field], colors[field := HueColor(counter)], counter + 1)
  {
    var order' := order + [field];
    var colors' := colors[field := HueColor(counter)];
    forall k | 0 <= k < |order'| ensures order'[k] in colors' && colors'[order'[k]] == HueColor(k) {
      if k < |order| {
        assert order'[k] == order[k];
      }
    }
  }

  /** The colour cache of `FieldDecorator` and the counter `i` of the generator
      closure. `order` lists the fields in the order they were first asked
      for. */
  class FieldDecorator {
    var colors: map<string, string>
    var counter: nat
    ghost var order: seq<string>

    /** The `k`-th field asked for is cached with the `k`-th colour, and the
        counter has advanced once per cached field. */
    ghost predicate Valid()
      reads this
    {
      Numbered(order, colors, counter)
    }

    constructor()
      ensures Valid() && colors == map[] && counter == 0 && order == []
    {
      colors := map[];
      counter := 0;
      order := [];
    }

    /** One call of the generator closure. */
    method NextColor() returns (color: string)
      modifies this`counter
      ensures counter == old(counter) + 1 && color == HueColor(old(counter))
    {
      color := HueColor(counter);
      counter := counter + 1;
    }

    /** `getColorForField`: the cached colour, or the next colour of the
        generator, cached for good. */
    method GetColorForField(field: string) returns (color: string)
      requires Valid()
      modifies this
      ensures Valid()
      ensures field in colors && color == colors[field]
      ensures colors.Keys == old(colors).Keys + {field} && Extends(colors, old(colors))
      ensures field in old(colors) ==> colors == old(colors) && counter == old(counter) && order == old(order)
      ensures field !in old(colors) ==>
                && colors == old(colors)[field := color]
                && color == HueColor(old(counter))
                && counter == old(counter) + 1
                && order == old(order) + [field]
    {
      if field !in colors {
        NumberedAdd(order, colors, counter, field);
        var next := NextColor();
        colors := colors[field := next];
        order := order + [field];
      }
      color := colors[field];
    }

    /** The `forEach` over the mappings for one visible slice `doc[from..to]`:
        every anki field gets its colour, and every occurrence of its
        `Label:` marker in the slice is collected. */
    method ScanRange(doc: string, from: nat, to: nat, m: Mappings) returns (found: seq<Mark>)
      requires Valid() && from <= to <= |doc|
      modifies this
      ensures Valid() && Extends(colors, old(colors)) && NewOnlyFrom(colors, old(colors), m)
      ensures Cached(m, colors)
      ensures order == old(order) + Unseen(m, old(colors)) && counter == old(counter) + |Unseen(m, old(colors))|
      ensures ColouredFrom(colors, Unseen(m, old(colors)), old(counter))
      ensures found == RangeMarks(doc, from, to, m, colors)
    {
      var text := doc[from..to];
      found := [];
      for j := 0 to |m|
        invariant Valid() && Extends(colors, old(colors)) && NewOnlyFrom(colors, old(colors), m)
        invariant Cached(m[..j], colors)
        invariant order == old(order) + Unseen(m[..j], old(colors))
        invariant found == RangeMarks(doc, from, to, m[..j], colors)
      {
        ghost var before := colors;
        ghost var asked := order;
        var color := GetColorForField(m[j].0);
        CacheStep(old(colors), before, colors, m, j);
        AskStep(old(order), old(colors), asked, before, m, j, order);
        var pattern := Pattern(m[j].1);
        var slice := ScanSlice(text, pattern, from, color);
        RangeMarksStable(doc, from, to, m[..j], before, colors);
        assert m[..j + 1][..j] == m[..j];
        found := found + slice;
      }
      assert m[..|m|] == m;
      NumberedSuffix(old(order), Unseen(m, old(colors)), colors, counter);
    }

    /** `buildDecorations`: nothing when `parseFrontmatter` finds no valid
        header in `doc`; otherwise the markers of every mapping of its
        `ankiFieldMappings` in every visible range, sorted by position. */
    method BuildDecorations(doc: string, ranges: seq<(nat, nat)>, parseYaml: string -> Decoded, showNumber: real -> string)
      returns (marks: seq<Mark>)
      requires Valid() && InDoc(ranges, |doc|)
      modifies this
      ensures Valid() && Extends(colors, old(colors))
      ensures var mappings := HeaderMappings(doc, parseYaml, showNumber);
              mappings.None? || |ranges| == 0 ==>
                marks == [] && colors == old(colors) && order == old(order) && counter == old(counter)
      ensures var mappings := HeaderMappings(doc, parseYaml, showNumber);
              mappings.Some? ==> NewOnlyFrom(colors, old(colors), mappings.value)
      ensures var mappings := HeaderMappings(doc, parseYaml, showNumber);
              mappings.Some? && |ranges| > 0 ==>
                && Cached(mappings.value, colors)
                && order == old(order) + Unseen(mappings.value, old(colors))
                && counter == old(counter) + |Unseen(mappings.value, old(colors))|
                && ColouredFrom(colors, Unseen(mappings.value, old(colors)), old(counter))
                && marks == SortByPos(Collected(doc, ranges, mappings.value, colors))
    {
      var mappings := HeaderMappings(doc, parseYaml, showNumber);
      if mappings.None? {
        return [];
      }
      var m := mappings.value;
      var found: seq<Mark> := [];
      for r := 0 to |ranges|
        invariant Valid() && Extends(colors, old(colors)) && NewOnlyFrom(colors, old(colors), m)
        invariant r == 0 ==> colors == old(colors) && order == old(order) && counter == old(counter) && found == []
        invariant r > 0 ==> Cached(m, colors) && found == Collected(doc, ranges[..r], m, colors)
        invariant r > 0 ==> FirstScanDone(order, counter, colors, old(order), old(counter), old(colors), m)
      {
        ghost var before := colors;
        ghost var beforeOrder := order;
        ghost var beforeCounter := counter;
        var from := ranges[r].0;
        var to := ranges[r].1;
        assert ranges[r] in ranges;
        var inRange := ScanRange(doc, from, to, m);
        CacheGrows(old(colors), before, colors, m);
        if r > 0 {
          UnseenOfCached(m, before);
          FirstScanStays(beforeOrder, beforeCounter, before, order, counter, colors, old(order), old(counter), old(colors), m);
        }
        CollectedStep(doc, ranges, r, m, before, colors, found, inRange);
        found := found + inRange;
      }
      if |ranges| > 0 {
        assert ranges[..|ranges|] == ranges;
      }
      marks := SortByPos(found);
    }

    /** The `forEach` over the mappings for one text node with text
        `content`: every note field gets its colour, every marker is split
        out, and the node is replaced by the first split that has more than
        one fragment. */
    method ProcessTextNode(content: string, m: Mappings) returns (replacement: Option<seq<Fragment>>)
      requires Valid()
      modifies this
      ensures Valid() && Extends(colors, old(colors)) && NewOnlyFrom(colors, old(colors), m)
      ensures Cached(m, colors)
      ensures order == old(order) + Unseen(m, old(colors)) && counter == old(counter) + |Unseen(m, old(colors))|
      ensures ColouredFrom(colors, Unseen(m, old(colors)), old(counter))
      ensures replacement == FirstReplacement(content, m, colors)
    {
      replacement := None;
      for j := 0 to |m|
        invariant Valid() && Extends(colors, old(colors)) && NewOnlyFrom(colors, old(colors), m)
        invariant Cached(m[..j], colors)
        invariant order == old(order) + Unseen(m[..j], old(colors))
        invariant replacement == FirstReplacement(content, m[..j], colors)
      {
        ghost var before := colors;
        ghost var asked := order;
        var color := GetColorForField(m[j].0);
        CacheStep(old(colors), before, colors, m, j);
        AskStep(old(order), old(colors), asked, before, m, j, order);
        var pattern := Pattern(m[j].1);
        var fragments := SplitAtMarker(content, pattern, color);
        FirstReplacementStable(content, m[..j], before, colors);
        FirstReplacementStep(content, m, j, colors, replacement);
        if replacement.None? {
          replacement := fragments;
        }
      }
      assert m[..|m|] == m;
      NumberedSuffix(old(order), Unseen(m, old(colors)), colors, counter);
    }

    /** `processContent`: the text nodes of the rendered element, in document
        order, each rewritten on its own with the entries of `fieldMappings`;
        `replacements[k]` is what replaces the `k`-th node, `None` when it
        stays. Without text nodes no colour is asked for. */
    method ProcessContent(texts: seq<string>, fieldMappings: Yaml, showNumber: real -> string)
      returns (replacements: seq<Option<seq<Fragment>>>)
      requires Valid() && !fieldMappings.YNull?
      modifies this
      ensures var m := EntriesOf(fieldMappings, showNumber);
              Valid() && Extends(colors, old(colors)) && NewOnlyFrom(colors, old(colors), m)
      ensures |replacements| == |texts|
      ensures |texts| == 0 ==> colors == old(colors) && order == old(order) && counter == old(counter)
      ensures var m := EntriesOf(fieldMappings, showNumber);
              |texts| > 0 ==> Rewrites(texts, replacements, m, colors)
      ensures var m := EntriesOf(fieldMappings, showNumber);
              |texts| > 0 ==>
                && order == old(order) + Unseen(m, old(colors))
                && counter == old(counter) + |Unseen(m, old(colors))|
                && ColouredFrom(colors, Unseen(m, old(colors)), old(counter))
    {
      var m := EntriesOf(fieldMappings, showNumber);
      replacements := [];
      for k := 0 to |texts|
        invariant Valid() && Extends(colors, old(colors)) && NewOnlyFrom(colors, old(colors), m)
        invariant |replacements| == k
        invariant k == 0 ==> colors == old(colors) && order == old(order) && counter == old(counter)
        invariant k > 0 ==> Rewrites(texts[..k], replacements, m, colors)
        invariant k > 0 ==> Cached(m, colors) && FirstScanDone(order, counter, colors, old(order), old(counter), old(colors), m)
      {
        ghost var before := colors;
        ghost var beforeOrder := order;
        ghost var beforeCounter := counter;
        var replacement := ProcessTextNode(texts[k], m);
        CacheGrows(old(colors), before, colors, m);
        if k > 0 {
          UnseenOfCached(m, before);
          FirstScanStays(beforeOrder, beforeCounter, before, order, counter, colors, old(order), old(counter), old(colors), m);
        }
        if k > 0 {
          RewritesStable(texts[..k], replacements, m, before, colors);
        }
        RewritesExtend(texts, k, replacements, replacement, m, colors);
        replacements := replacements + [replacement];
      }
      assert texts[..|texts|] == texts;
    }
  }

  /** A new decorator that scans any range of any document with the mappings
      of `Front` and then `Back` colours them with the first and the second
      colour, which differ. */
  method FirstScanColours(doc: string, from: nat, to: nat) returns (front: string, back: string)
    requires from <= to <= |doc|
    ensures front == HueColor(0) && back == HueColor(1) && front != back
  {
    var d := new FieldDecorator();
    var m: Mappings := [("Front", "Front"), ("Back", "Back")];
    UnseenFrontBack(m);
    var found := d.ScanRange(doc, from, to, m);
    FrontBackColours(d.colors);
    front := d.colors["Front"];
    back := d.colors["Back"];
    HueColorsCycle(0, 1);
  }

  lemma UnseenFrontBack(m: Mappings)
    requires m == [("Front", "Front"), ("Back", "Back")]
    ensures Unseen(m, map[]) == ["Front", "Back"]
  {
    var first := m[..1];
    assert first == [("Front", "Front")] && first[..0] == [];
    assert Unseen(first[..0], map[]) == [];
    assert Unseen(first, map[]) == ["Front"];
    assert "Back" !in ["Front"];
  }

  lemma FrontBackColours(colors: map<string, string>)
    requires ColouredFrom(colors, ["Front", "Back"], 0)
    ensures "Front" in colors && colors["Front"] == HueColor(0)
    ensures "Back" in colors && colors["Back"] == HueColor(1)
  {
    var fields := ["Front", "Back"];
    assert fields[0] == "Front" && fields[1] == "Back";
  }

  /** In a valid cache the `i`-th and `j`-th fields asked for share a colour
      exactly when `i` and `j` are six apart or a multiple of it, so the first
      six fields have six different colours. */
  lemma CachedColors(d: FieldDecorator, i: nat, j: nat)
    requires d.Valid() && i < |d.order| && j < |d.order|
    ensures d.colors[d.order[i]] == d.colors[d.order[j]] <==> i % 6 == j % 6
  {
    HueColorsCycle(i, j);
  }

  // ---------------------------------------------------------------------------
  // The editor scan of `buildDecorations`

  /** A highlighted range of the document. */
  datatype Mark = Mark(pos: nat, length: nat, color: string)

  /** Every position at or after `q` where `pattern` occurs, ascending. */
  function Occurrences(text: string, pattern: string, q: nat): seq<nat>
    requires q <= |text|
    decreases |text| - q
  {
    var rest := if q == |text| then [] else Occurrences(text, pattern, q + 1);
    if OccursAt(text, pattern, q) then [q] + rest else rest
  }

  predicate Ascending(ps: seq<nat>) {
    forall i, j :: 0 <= i < j < |ps| ==> ps[i] < ps[j]
  }

  /** The occurrences are exactly the positions where the pattern occurs,
      overlapping ones included, in ascending order. */
  lemma {:induction false} OccurrencesSpec(text: string, pattern: string, q: nat)
    requires q <= |text|
    ensures forall p :: p in Occurrences(text, pattern, q) <==> q <= p && OccursAt(text, pattern, p)
    ensures Ascending(Occurrences(text, pattern, q))
    decreases |text| - q
  {
    if q < |text| {
      var rest := Occurrences(text, pattern, q + 1);
      OccurrencesSpec(text, pattern, q + 1);
      if OccursAt(text, pattern, q) {
        var r := [q] + rest;
        forall i, j | 0 <= i < j < |r| ensures r[i] < r[j] {
          assert r[j] == rest[j - 1] && rest[j - 1] in rest;
          if i > 0 {
            assert r[i] == rest[i - 1];
          }
        }
      }
    }
  }

  /** `indexOf` finds the head of the occurrences from `q`. */
  lemma {:induction false} OccurrencesByIndexOf(text: string, pattern: string, q: nat)
    requires q <= |text|
    ensures Occurrences(text, pattern, q) ==
              match IndexOf(text, pattern, q)
              case None => []
              case Some(p) => [p] + (if p == |text| then [] else Occurrences(text, pattern, p + 1))
    decreases |text| - q
  {
    if !OccursAt(text, pattern, q) && q < |text| {
      OccurrencesByIndexOf(text, pattern, q + 1);
    }
  }

  /** The marks of occurrences in a slice that starts at `from`. */
  function MarksAt(ps: seq<nat>, from: nat, length: nat, color: string): (r: seq<Mark>)
    ensures |r| == |ps|
  {
    if |ps| == 0 then [] else [Mark(from + ps[0], length, color)] + MarksAt(ps[1..], from, length, color)
  }

  lemma {:induction false} MarksAtSpec(ps: seq<nat>, from: nat, length: nat, color: string)
    ensures forall i :: 0 <= i < |ps| ==> MarksAt(ps, from, length, color)[i] == Mark(from + ps[i], length, color)
  {
    if |ps| > 0 {
      MarksAtSpec(ps[1..], from, length, color);
    }
  }

  /** `text.indexOf(pattern, q)`: the first of the occurrences from `q`. */
  method NextOccurrence(text: string, pattern: string, q: nat) returns (pos: Option<nat>)
    requires |pattern| > 0 && q <= |text|
    ensures pos.None? ==> Occurrences(text, pattern, q) == []
    ensures pos.Some? ==>
              && q <= pos.value < |text|
              && Occurrences(text, pattern, q) == [pos.value] + Occurrences(text, pattern, pos.value + 1)
  {
    pos := IndexOf(text, pattern, q);
    OccurrencesByIndexOf(text, pattern, q);
  }

  /** The `while (pos !== -1)` loop over one slice and one marker. */
  method ScanSlice(text: string, pattern: string, from: nat, color: string) returns (matches: seq<Mark>)
    requires |pattern| > 0
    ensures matches == MarksAt(Occurrences(text, pattern, 0), from, |pattern|, color)
  {
    ghost var all := Occurrences(text, pattern, 0);
    matches := [];
    var pos := NextOccurrence(text, pattern, 0);
    while pos.Some?
      invariant |matches| <= |all|
      invariant forall i :: 0 <= i < |matches| ==> matches[i] == Mark(from + all[i], |pattern|, color)
      invariant pos.Some? ==> pos.value < |text|
      invariant pos.None? ==> all[|matches|..] == []
      invariant pos.Some? ==> all[|matches|..] == [pos.value] + Occurrences(text, pattern, pos.value + 1)
      decreases if pos.None? then 0 else |text| + 1 - pos.value
    {
      var p := pos.value;
      ghost var k := |matches|;
      assert all[k] == p && all[k + 1..] == all[k..][1..];
      matches := matches + [Mark(from + p, |pattern|, color)];
      pos := NextOccurrence(text, pattern, p + 1);
    }
    MarksAtSpec(all, from, |pattern|, color);
  }

  /** Each mark of a slice `doc[from..to]` covers an occurrence of the marker
      inside the slice. */
  lemma SliceMarksAreOccurrences(doc: string, from: nat, to: nat, pattern: string, color: string)
    requires from <= to <= |doc|
    ensures forall m :: m in MarksAt(Occurrences(doc[from..to], pattern, 0), from, |pattern|, color) ==>
              from <= m.pos && m.pos + m.length <= to && doc[m.pos..m.pos + m.length] == pattern
  {
    var text := doc[from..to];
    var ps := Occurrences(text, pattern, 0);
    var marks := MarksAt(ps, from, |pattern|, color);
    OccurrencesSpec(text, pattern, 0);
    MarksAtSpec(ps, from, |pattern|, color);
    forall m | m in marks
      ensures from <= m.pos && m.pos + m.length <= to && doc[m.pos..m.pos + m.length] == pattern
    {
      var i :| 0 <= i < |marks| && marks[i] == m;
      var p := ps[i];
      assert p in ps;
      SliceOfSlice(doc, from, to, p, p + |pattern|);
    }
  }

  /** Every occurrence of the marker inside the slice `doc[from..to]` is
      marked. */
  lemma SliceMarksAreComplete(doc: string, from: nat, to: nat, pattern: string, color: string)
    requires from <= to <= |doc|
    ensures forall p :: from <= p && p + |pattern| <= to && OccursAt(doc, pattern, p) ==>
              Mark(p, |pattern|, color) in MarksAt(Occurrences(doc[from..to], pattern, 0), from, |pattern|, color)
  {
    var text := doc[from..to];
    var ps := Occurrences(text, pattern, 0);
    var marks := MarksAt(ps, from, |pattern|, color);
    OccurrencesSpec(text, pattern, 0);
    MarksAtSpec(ps, from, |pattern|, color);
    forall p | from <= p && p + |pattern| <= to && OccursAt(doc, pattern, p)
      ensures Mark(p, |pattern|, color) in marks
    {
      var k: nat := p - from;
      SliceOfSlice(doc, from, to, k, k + |pattern|);
      assert OccursAt(text, pattern, k);
      assert k in ps;
      var i :| 0 <= i < |ps| && ps[i] == k;
      assert marks[i] == Mark(p, |pattern|, color);
    }
  }

  // ---------------------------------------------------------------------------
  // What `buildDecorations` collects

  /** Field mappings as `Object.entries` lists them: note field, label. */
  type Mappings = seq<(string, string)>

  /** The marker of a label: `${obsidianField}:`. */
  function Pattern(name: string): (r: string)
    ensures |r| == |name| + 1 && r[|name|] == ':'
  {
    name + ":"
  }

  // ---------------------------------------------------------------------------
  // `Object.entries` of the header's field mappings

  /** `String(v)`: what the template literal `${obsidianField}` makes of a
      decoded value. `showNumber` is JavaScript's number-to-string
      conversion. A list is joined with commas and a mapping prints as
      `[object Object]`. */
  function Coerce(v: Yaml, showNumber: real -> string): string
    decreases v, 1, 0
  {
    match v
    case YNull => "null"
    case YBool(b) => if b then "true" else "false"
    case YNum(n) => showNumber(n)
    case YStr(s) => s
    case YList(_) => JoinFrom(v, 0, showNumber)
    case YMap(_) => "[object Object]"
  }

  /** `join(",")` of the items of the list `v` from index `k` on; a `null`
      item is written as the empty string. */
  function JoinFrom(v: Yaml, k: nat, showNumber: real -> string): string
    requires v.YList? && k <= |v.items|
    decreases v, 0, |v.items| - k
  {
    if k == |v.items| then ""
    else
      var item := if v.items[k].YNull? then "" else Coerce(v.items[k], showNumber);
      if k + 1 == |v.items| then item else item + "," + JoinFrom(v, k + 1, showNumber)
  }

  /** The digit character of `d`. */
  function Digit(d: nat): char
    requires d < 10
  {
    ('0' as int + d) as char
  }

  /** The key under which `Object.entries` lists index `n` of a list:
      `String(n)`, in decimal without leading zeros. */
  function Decimal(n: nat): (r: string)
    ensures |r| > 0
  {
    if n < 10 then [Digit(n)] else Decimal(n / 10) + [Digit(n % 10)]
  }

  /** The number a string of decimal digits denotes. */
  function DecimalValue(s: string): nat {
    if |s| == 0 then 0
    else
      var c := s[|s| - 1];
      10 * DecimalValue(s[..|s| - 1]) + (if '0' <= c <= '9' then (c as int - '0' as int) else 0)
  }

  /** Reading a key back gives the index it was written from. */
  lemma {:induction false} DecimalRoundTrip(n: nat)
    ensures DecimalValue(Decimal(n)) == n
  {
    if n >= 10 {
      DecimalRoundTrip(n / 10);
      var s := Decimal(n);
      assert s[..|s| - 1] == Decimal(n / 10);
    }
  }

  /** Different indices of a list are listed under different keys. */
  lemma DecimalInjective(a: nat, b: nat)
    ensures Decimal(a) == Decimal(b) ==> a == b
  {
    DecimalRoundTrip(a);
    DecimalRoundTrip(b);
  }

  /** `Object.entries(fieldMappings)` with every value passed through
      `${…}`: the pairs of a mapping in their order; the items of a list, or
      the characters of a string, under the keys `"0"`, `"1"`, …; nothing for
      a number or a boolean. `Object.entries(null)` throws, hence the
      requirement. */
  function EntriesOf(fieldMappings: Yaml, showNumber: real -> string): (r: Mappings)
    requires !fieldMappings.YNull?
  {
    match fieldMappings
    case YMap(entries) =>
      seq(|entries|, i requires 0 <= i < |entries| => (entries[i].0, Coerce(entries[i].1, showNumber)))
    case YList(items) =>
      seq(|items|, i requires 0 <= i < |items| => (Decimal(i), Coerce(items[i], showNumber)))
    case YStr(s) =>
      seq(|s|, i requires 0 <= i < |s| => (Decimal(i), [s[i]]))
    case _ => []
  }

  /** The decoded form of a header that maps every note field to a label
      written as a string. */
  function StringMap(m: Mappings): (y: Yaml)
    ensures y.YMap? && |y.entries| == |m|
  {
    YMap(seq(|m|, i requires 0 <= i < |m| => (m[i].0, YStr(m[i].1))))
  }

  /** Mappings written as strings come back from `Object.entries` as they
      were written, pair for pair and in order. */
  lemma EntriesOfStringMap(m: Mappings, showNumber: real -> string)
    ensures EntriesOf(StringMap(m), showNumber) == m
  {
    var r := EntriesOf(StringMap(m), showNumber);
    forall i | 0 <= i < |m| ensures r[i] == m[i] {
      assert StringMap(m).entries[i] == (m[i].0, YStr(m[i].1));
    }
  }

  /** A list of mappings is read under the keys `"0"`, `"1"`, …, one per item
      and no two alike, with each item's text as its label. */
  lemma ListEntries(items: seq<Yaml>, showNumber: real -> string)
    ensures var r := EntriesOf(YList(items), showNumber);
            && |r| == |items|
            && (forall i :: 0 <= i < |r| ==> DecimalValue(r[i].0) == i && r[i].1 == Coerce(items[i], showNumber))
            && (forall i, j :: 0 <= i < j < |r| ==> r[i].0 != r[j].0)
  {
    var r := EntriesOf(YList(items), showNumber);
    forall i | 0 <= i < |r| ensures DecimalValue(r[i].0) == i {
      DecimalRoundTrip(i);
    }
    forall i, j | 0 <= i < j < |r| ensures r[i].0 != r[j].0 {
      DecimalInjective(i, j);
    }
  }

  /** What the coercion writes for values that are not strings: `null:` for
      a null label, the number's text, and a list's items joined by commas
      with a null item left empty. */
  lemma CoercedLabels(showNumber: real -> string)
    ensures Pattern(Coerce(YNull, showNumber)) == "null:"
    ensures Pattern(Coerce(YNum(1.0), showNumber)) == showNumber(1.0) + ":"
    ensures Pattern(Coerce(YList([YStr("a"), YNull, YStr("b")]), showNumber)) == "a,,b:"
    ensures Coerce(YMap([]), showNumber) == "[object Object]"
  {
    var v := YList([YStr("a"), YNull, YStr("b")]);
    assert JoinFrom(v, 2, showNumber) == "b";
    assert JoinFrom(v, 1, showNumber) == ",b";
  }

  /** The field mappings the decorator reads from a document: the
      `ankiFieldMappings` of the header `parseFrontmatter` accepts, as
      `Object.entries` lists them; `None` when there is no valid header. An
      accepted header's mappings are truthy, so the `!ankiFieldMappings`
      test turns nothing more away. */
  function HeaderMappings(content: string, parseYaml: string -> Decoded, showNumber: real -> string): (r: Option<Mappings>)
    ensures r.Some? <==> ParseFrontmatter(content, parseYaml).Some?
  {
    match ParseFrontmatter(content, parseYaml)
    case None => None
    case Some(header) => Some(EntriesOf(header.ankiFieldMappings, showNumber))
  }

  /** A header whose `ankiFieldMappings` maps labels to strings gives the
      decorator exactly those pairs. */
  lemma HeaderOfStrings(content: string, parseYaml: string -> Decoded, showNumber: real -> string, y: Yaml, m: Mappings)
    requires HeaderBody(content).Some? && parseYaml(HeaderBody(content).value) == Parsed(y)
    requires Truthy(Get(y, "ankiDeck")) && Truthy(Get(y, "ankiNoteType"))
    requires Get(y, "ankiFieldMappings") == Some(StringMap(m))
    ensures HeaderMappings(content, parseYaml, showNumber) == Some(m)
  {
    assert IsAnkiHeader(y);
    EntriesOfStringMap(m, showNumber);
  }

  /** Every note field of the mappings has a cached colour. */
  predicate Cached(m: Mappings, colors: map<string, string>) {
    forall i :: 0 <= i < |m| ==> m[i].0 in colors
  }

  /** `later` keeps every colour of `earlier`. */
  predicate Extends(later: map<string, string>, earlier: map<string, string>) {
    forall f :: f in earlier ==> f in later && later[f] == earlier[f]
  }

  /** The fields `later` adds to `earlier` are note fields of the mappings. */
  predicate NewOnlyFrom(later: map<string, string>, earlier: map<string, string>, m: Mappings) {
    forall f :: f in later ==> f in earlier || exists i :: 0 <= i < |m| && m[i].0 == f
  }

  /** The note fields of the mappings that `cached` lacks, each at its first
      appearance, in mapping order: the fields a scan of the mappings asks
      the generator a colour for. */
  function Unseen(m: Mappings, cached: map<string, string>): seq<string> {
    if |m| == 0 then []
    else
      var init := Unseen(m[..|m| - 1], cached);
      var f := m[|m| - 1].0;
      if f in cached || f in init then init else init + [f]
  }

  /** The unseen fields are distinct, are not cached, and are exactly the note
      fields of the mappings that are not cached; each stands before every
      later field's first appearance. */
  lemma UnseenSpec(m: Mappings, cached: map<string, string>)
    ensures forall i, j :: 0 <= i < j < |Unseen(m, cached)| ==> Unseen(m, cached)[i] != Unseen(m, cached)[j]
    ensures forall f :: f in Unseen(m, cached) <==> f !in cached && exists i :: 0 <= i < |m| && m[i].0 == f
    ensures forall i, j :: 0 <= i < j < |Unseen(m, cached)| ==>
              FirstIndex(m, Unseen(m, cached)[i]) < FirstIndex(m, Unseen(m, cached)[j])
  {
    UnseenMembers(m, cached);
    UnseenOrdered(m, cached);
  }

  /** A field is unseen exactly when it is a note field of the mappings and
      is not cached. */
  lemma {:induction false} UnseenMembers(m: Mappings, cached: map<string, string>)
    ensures forall f :: f in Unseen(m, cached) <==> f !in cached && exists i :: 0 <= i < |m| && m[i].0 == f
  {
    if |m| > 0 {
      var init := m[..|m| - 1];
      UnseenMembers(init, cached);
      forall g ensures g in Unseen(m, cached) <==> g !in cached && exists i :: 0 <= i < |m| && m[i].0 == g {
        if exists i :: 0 <= i < |m| && m[i].0 == g {
          var i :| 0 <= i < |m| && m[i].0 == g;
          if i < |m| - 1 {
            assert init[i].0 == g;
          }
        }
        if exists i :: 0 <= i < |init| && init[i].0 == g {
          var i :| 0 <= i < |init| && init[i].0 == g;
          assert m[i].0 == g;
        }
      }
    }
  }

  /** The unseen fields stand in the order of their first appearance. */
  lemma {:induction false} UnseenOrdered(m: Mappings, cached: map<string, string>)
    ensures forall i, j :: 0 <= i < j < |Unseen(m, cached)| ==>
              FirstIndex(m, Unseen(m, cached)[i]) < FirstIndex(m, Unseen(m, cached)[j])
  {
    if |m| > 0 {
      var init := m[..|m| - 1];
      UnseenOrdered(init, cached);
      UnseenMembers(init, cached);
      var u := Unseen(init, cached);
      var f := m[|m| - 1].0;
      forall i | 0 <= i < |u| ensures FirstIndex(m, u[i]) == FirstIndex(init, u[i]) < |init| {
        assert u[i] in u;
        FirstIndexPrefix(m, u[i]);
        FirstIndexBound(init, u[i]);
      }
      if f !in cached && f !in u {
        FirstIndexLast(m);
        var r := u + [f];
        forall i, j | 0 <= i < j < |r| ensures FirstIndex(m, r[i]) < FirstIndex(m, r[j]) {
          assert r[i] == u[i];
          if j < |u| {
            assert r[j] == u[j];
          }
        }
      }
    }
  }

  /** Where the note field `f` first appears in the mappings; `|m|` when it
      does not. */
  function FirstIndex(m: Mappings, f: string): (r: nat)
    ensures r <= |m|
    ensures r < |m| ==> m[r].0 == f
    ensures forall i :: 0 <= i < r ==> m[i].0 != f
  {
    if |m| == 0 then 0
    else if m[0].0 == f then 0
    else 1 + FirstIndex(m[1..], f)
  }

  lemma FirstIndexPrefix(m: Mappings, f: string)
    requires |m| > 0 && exists i :: 0 <= i < |m| - 1 && m[i].0 == f
    ensures FirstIndex(m, f) == FirstIndex(m[..|m| - 1], f)
  {
    var i :| 0 <= i < |m| - 1 && m[i].0 == f;
    var init := m[..|m| - 1];
    var a := FirstIndex(m, f);
    var b := FirstIndex(init, f);
    assert init[i] == m[i];
    assert a <= i && b <= i;
    assert init[a] == m[a] && init[b] == m[b];
  }

  lemma FirstIndexLast(m: Mappings)
    requires |m| > 0 && forall i :: 0 <= i < |m| - 1 ==> m[i].0 != m[|m| - 1].0
    ensures FirstIndex(m, m[|m| - 1].0) == |m| - 1
  {
  }

  lemma FirstIndexBound(m: Mappings, f: string)
    requires exists i :: 0 <= i < |m| && m[i].0 == f
    ensures FirstIndex(m, f) < |m|
  {
  }

  /** Asking for the field of the `j`-th mapping extends the unseen fields of
      the mappings before it exactly as `getColorForField` extends the list
      of fields asked for. */
  lemma UnseenStep(m: Mappings, j: nat, cached: map<string, string>)
    requires j < |m|
    ensures var u := Unseen(m[..j], cached);
            Unseen(m[..j + 1], cached) == if m[j].0 in cached || m[j].0 in u then u else u + [m[j].0]
  {
    assert m[..j + 1][..j] == m[..j];
  }

  /** One `getColorForField` call in the scan of the mappings: the fields
      asked for so far are those of before the scan followed by the unseen
      fields of the mappings scanned so far. */
  lemma AskStep(order0: seq<string>, colors0: map<string, string>, asked: seq<string>, before: map<string, string>,
                m: Mappings, j: nat, order': seq<string>)
    requires j < |m|
    requires m[j].0 in colors0 <==> m[j].0 in order0
    requires m[j].0 in before <==> m[j].0 in asked
    requires asked == order0 + Unseen(m[..j], colors0)
    requires order' == if m[j].0 in before then asked else asked + [m[j].0]
    ensures order' == order0 + Unseen(m[..j + 1], colors0)
  {
    UnseenStep(m, j, colors0);
  }

  /** After the first scan of the mappings the fields asked for are those of
      before it followed by the unseen fields, each with the next colour. */
  ghost predicate FirstScanDone(order: seq<string>, counter: nat, colors: map<string, string>,
                                order0: seq<string>, counter0: nat, colors0: map<string, string>, m: Mappings) {
    && order == order0 + Unseen(m, colors0)
    && counter == counter0 + |Unseen(m, colors0)|
    && ColouredFrom(colors, Unseen(m, colors0), counter0)
  }

  /** A later scan, which finds every field cached, asks for nothing new. */
  lemma FirstScanStays(order1: seq<string>, counter1: nat, colors1: map<string, string>,
                       order2: seq<string>, counter2: nat, colors2: map<string, string>,
                       order0: seq<string>, counter0: nat, colors0: map<string, string>, m: Mappings)
    requires FirstScanDone(order1, counter1, colors1, order0, counter0, colors0, m)
    requires Unseen(m, colors1) == []
    requires order2 == order1 + Unseen(m, colors1) && counter2 == counter1 + |Unseen(m, colors1)|
    requires Extends(colors2, colors1)
    ensures FirstScanDone(order2, counter2, colors2, order0, counter0, colors0, m)
  {
    assert order2 == order1;
  }

  /** Once every note field is cached, no field is unseen. */
  lemma {:induction false} UnseenOfCached(m: Mappings, cached: map<string, string>)
    requires Cached(m, cached)
    ensures Unseen(m, cached) == []
  {
    if |m| > 0 {
      UnseenOfCached(m[..|m| - 1], cached);
      assert m[|m| - 1] == m[|m| - 1];
    }
  }

  /** The `k`-th of `fields` is cached with colour `start + k`. */
  predicate ColouredFrom(colors: map<string, string>, fields: seq<string>, start: nat) {
    forall k :: 0 <= k < |fields| ==> fields[k] in colors && colors[fields[k]] == HueColor(start + k)
  }

  /** In a numbered cache that lists `earlier` first, the fields after it
      carry the colours that follow. */
  lemma NumberedSuffix(earlier: seq<string>, added: seq<string>, colors: map<string, string>, counter: nat)
    requires Numbered(earlier + added, colors, counter)
    ensures ColouredFrom(colors, added, |earlier|)
  {
    var order := earlier + added;
    forall k | 0 <= k < |added| ensures added[k] in colors && colors[added[k]] == HueColor(|earlier| + k) {
      assert order[|earlier| + k] == added[k];
    }
  }

  /** Two rounds of caching fields of the mappings are one. */
  lemma CacheGrows(start: map<string, string>, before: map<string, string>, after: map<string, string>, m: Mappings)
    requires Extends(before, start) && NewOnlyFrom(before, start, m)
    requires Extends(after, before) && NewOnlyFrom(after, before, m)
    ensures Extends(after, start) && NewOnlyFrom(after, start, m)
  {
  }

  /** Caching the field of the `j`-th mapping keeps what the scan of the
      mappings promises about the cache. */
  lemma CacheStep(start: map<string, string>, before: map<string, string>, after: map<string, string>, m: Mappings, j: nat)
    requires j < |m| && after.Keys == before.Keys + {m[j].0}
    requires Extends(before, start) && Extends(after, before) && NewOnlyFrom(before, start, m) && Cached(m[..j], before)
    ensures Extends(after, start) && NewOnlyFrom(after, start, m) && Cached(m[..j + 1], after)
  {
    forall f | f in after ensures f in start || exists i :: 0 <= i < |m| && m[i].0 == f {
      if f !in before {
        assert m[j].0 == f;
      }
    }
    var prefix := m[..j + 1];
    forall i | 0 <= i < |prefix| ensures prefix[i].0 in after {
      if i < j {
        assert prefix[i] == m[..j][i];
      }
    }
  }

  /** Every visible range lies inside the document. */
  predicate InDoc(ranges: seq<(nat, nat)>, size: nat) {
    forall r :: r in ranges ==> r.0 <= r.1 <= size
  }

  /** The marks of one visible range, mapping after mapping. */
  function RangeMarks(doc: string, from: nat, to: nat, m: Mappings, colors: map<string, string>): seq<Mark>
    requires from <= to <= |doc| && Cached(m, colors)
  {
    if |m| == 0 then []
    else
      var last := m[|m| - 1];
      var pattern := Pattern(last.1);
      RangeMarks(doc, from, to, m[..|m| - 1], colors)
        + MarksAt(Occurrences(doc[from..to], pattern, 0), from, |pattern|, colors[last.0])
  }

  /** The marks of every visible range, range after range, before sorting. */
  function Collected(doc: string, ranges: seq<(nat, nat)>, m: Mappings, colors: map<string, string>): seq<Mark>
    requires InDoc(ranges, |doc|) && Cached(m, colors)
  {
    if |ranges| == 0 then []
    else
      var last := ranges[|ranges| - 1];
      assert last in ranges;
      Collected(doc, ranges[..|ranges| - 1], m, colors) + RangeMarks(doc, last.0, last.1, m, colors)
  }

  /** Caching more colours changes no mark already collected. */
  lemma {:induction false} RangeMarksStable(doc: string, from: nat, to: nat, m: Mappings,
                                            earlier: map<string, string>, later: map<string, string>)
    requires from <= to <= |doc| && Cached(m, earlier) && Extends(later, earlier)
    ensures Cached(m, later) && RangeMarks(doc, from, to, m, later) == RangeMarks(doc, from, to, m, earlier)
  {
    if |m| > 0 {
      RangeMarksStable(doc, from, to, m[..|m| - 1], earlier, later);
    }
  }

  /** One turn of the loop over the visible ranges: the marks collected
      with the earlier cache, followed by the marks of the next range, are
      the marks of the ranges so far with the new cache. */
  lemma CollectedStep(doc: string, ranges: seq<(nat, nat)>, r: nat, m: Mappings,
                      before: map<string, string>, colors: map<string, string>,
                      found: seq<Mark>, inRange: seq<Mark>)
    requires InDoc(ranges, |doc|) && r < |ranges| && Extends(colors, before) && Cached(m, colors)
    requires r == 0 ==> found == []
    requires r > 0 ==> Cached(m, before) && found == Collected(doc, ranges[..r], m, before)
    requires ranges[r].0 <= ranges[r].1 <= |doc|
    requires inRange == RangeMarks(doc, ranges[r].0, ranges[r].1, m, colors)
    ensures found + inRange == Collected(doc, ranges[..r + 1], m, colors)
  {
    if r > 0 {
      CollectedStable(doc, ranges[..r], m, before, colors);
    }
    assert ranges[..r + 1][..r] == ranges[..r];
    assert ranges[..r + 1][r] == ranges[r];
  }

  lemma {:induction false} CollectedStable(doc: string, ranges: seq<(nat, nat)>, m: Mappings,
                                           earlier: map<string, string>, later: map<string, string>)
    requires InDoc(ranges, |doc|) && Cached(m, earlier) && Extends(later, earlier)
    ensures Cached(m, later) && Collected(doc, ranges, m, later) == Collected(doc, ranges, m, earlier)
  {
    if |ranges| > 0 {
      var last := ranges[|ranges| - 1];
      assert last in ranges;
      CollectedStable(doc, ranges[..|ranges| - 1], m, earlier, later);
      RangeMarksStable(doc, last.0, last.1, m, earlier, later);
    }
  }

  /** `mark` highlights an occurrence of `pattern` lying inside `range`, in
      `color`. */
  predicate Highlights(doc: string, range: (nat, nat), pattern: string, color: string, mark: Mark) {
    && range.0 <= mark.pos && mark.pos + |pattern| <= range.1
    && mark.length == |pattern| && mark.color == color
    && OccursAt(doc, pattern, mark.pos)
  }

  /** The marks of one slice and one marker are exactly the occurrences of
      the marker inside the slice. */
  lemma SliceMarksSpec(doc: string, from: nat, to: nat, pattern: string, color: string)
    requires from <= to <= |doc|
    ensures forall mark :: mark in MarksAt(Occurrences(doc[from..to], pattern, 0), from, |pattern|, color) <==>
              Highlights(doc, (from, to), pattern, color, mark)
  {
    SliceMarksAreOccurrences(doc, from, to, pattern, color);
    SliceMarksAreComplete(doc, from, to, pattern, color);
    MarksAtSpec(Occurrences(doc[from..to], pattern, 0), from, |pattern|, color);
    forall mark | Highlights(doc, (from, to), pattern, color, mark)
      ensures mark in MarksAt(Occurrences(doc[from..to], pattern, 0), from, |pattern|, color)
    {
      assert mark == Mark(mark.pos, |pattern|, color);
    }
  }

  /** `mark` highlights an occurrence of some mapping's marker inside
      `range`, in the colour of that mapping's note field. */
  ghost predicate MarkedBy(doc: string, range: (nat, nat), m: Mappings, colors: map<string, string>, mark: Mark)
    requires Cached(m, colors)
  {
    exists i :: 0 <= i < |m| && Highlights(doc, range, Pattern(m[i].1), colors[m[i].0], mark)
  }

  /** The marks of a range are the occurrences of every mapping's marker in
      it, each in the colour of its note field. */
  lemma {:induction false} RangeMarksSpec(doc: string, from: nat, to: nat, m: Mappings, colors: map<string, string>)
    requires from <= to <= |doc| && Cached(m, colors)
    ensures forall mark :: mark in RangeMarks(doc, from, to, m, colors) <==> MarkedBy(doc, (from, to), m, colors, mark)
  {
    if |m| > 0 {
      var init := m[..|m| - 1];
      var last := m[|m| - 1];
      RangeMarksSpec(doc, from, to, init, colors);
      SliceMarksSpec(doc, from, to, Pattern(last.1), colors[last.0]);
      forall mark ensures mark in RangeMarks(doc, from, to, m, colors) <==> MarkedBy(doc, (from, to), m, colors, mark) {
        MarkedByLast(doc, (from, to), m, colors, mark);
      }
    }
  }

  /** A mark is highlighted by one of the mappings exactly when it is by one
      of those before the last or by the last. */
  lemma MarkedByLast(doc: string, range: (nat, nat), m: Mappings, colors: map<string, string>, mark: Mark)
    requires Cached(m, colors) && |m| > 0
    ensures var last := m[|m| - 1];
            MarkedBy(doc, range, m, colors, mark) <==>
            MarkedBy(doc, range, m[..|m| - 1], colors, mark) || Highlights(doc, range, Pattern(last.1), colors[last.0], mark)
  {
    var init := m[..|m| - 1];
    if MarkedBy(doc, range, m, colors, mark) {
      var i :| 0 <= i < |m| && Highlights(doc, range, Pattern(m[i].1), colors[m[i].0], mark);
      if i < |m| - 1 {
        assert init[i] == m[i];
      }
    }
    if MarkedBy(doc, range, init, colors, mark) {
      var i :| 0 <= i < |init| && Highlights(doc, range, Pattern(init[i].1), colors[init[i].0], mark);
      assert init[i] == m[i];
    }
  }

  /** What is collected over all visible ranges: exactly the occurrences of
      every mapping's marker inside some visible range, each in the colour of
      its note field. */
  lemma {:induction false} CollectedSpec(doc: string, ranges: seq<(nat, nat)>, m: Mappings, colors: map<string, string>)
    requires InDoc(ranges, |doc|) && Cached(m, colors)
    ensures forall mark :: mark in Collected(doc, ranges, m, colors) <==>
              exists r :: 0 <= r < |ranges| && MarkedBy(doc, ranges[r], m, colors, mark)
  {
    if |ranges| > 0 {
      var init := ranges[..|ranges| - 1];
      var last := ranges[|ranges| - 1];
      assert last in ranges;
      CollectedSpec(doc, init, m, colors);
      RangeMarksSpec(doc, last.0, last.1, m, colors);
      forall mark ensures mark in Collected(doc, ranges, m, colors) <==>
                          exists r :: 0 <= r < |ranges| && MarkedBy(doc, ranges[r], m, colors, mark)
      {
        CollectedLast(doc, ranges, init, m, colors, mark);
      }
    }
  }

  /** A mark is highlighted in one of the ranges exactly when it is in one of
      those before the last or in the last. */
  lemma CollectedLast(doc: string, ranges: seq<(nat, nat)>, init: seq<(nat, nat)>, m: Mappings,
                      colors: map<string, string>, mark: Mark)
    requires Cached(m, colors) && |ranges| > 0 && init == ranges[..|ranges| - 1]
    ensures (exists r :: 0 <= r < |ranges| && MarkedBy(doc, ranges[r], m, colors, mark)) <==>
            (exists r :: 0 <= r < |init| && MarkedBy(doc, init[r], m, colors, mark))
            || MarkedBy(doc, ranges[|ranges| - 1], m, colors, mark)
  {
    if exists r :: 0 <= r < |ranges| && MarkedBy(doc, ranges[r], m, colors, mark) {
      var r :| 0 <= r < |ranges| && MarkedBy(doc, ranges[r], m, colors, mark);
      if r < |ranges| - 1 {
        assert init[r] == ranges[r];
      }
    }
    if exists r :: 0 <= r < |init| && MarkedBy(doc, init[r], m, colors, mark) {
      var r :| 0 <= r < |init| && MarkedBy(doc, init[r], m, colors, mark);
      assert init[r] == ranges[r];
    }
  }

  // ---------------------------------------------------------------------------
  // `matches.sort((a, b) => a.pos - b.pos)`: a stable sort by position

  /** Puts `m` after every mark whose position is not greater. */
  function Insert(m: Mark, sorted: seq<Mark>): (r: seq<Mark>)
    ensures |r| == |sorted| + 1
  {
    if |sorted| == 0 then [m]
    else if m.pos < sorted[0].pos then [m] + sorted
    else [sorted[0]] + Insert(m, sorted[1..])
  }

  function SortByPos(marks: seq<Mark>): seq<Mark> {
    if |marks| == 0 then [] else Insert(marks[|marks| - 1], SortByPos(marks[..|marks| - 1]))
  }

  predicate SortedByPos(marks: seq<Mark>) {
    forall i, j :: 0 <= i < j < |marks| ==> marks[i].pos <= marks[j].pos
  }

  lemma {:induction false} InsertSpec(m: Mark, sorted: seq<Mark>)
    requires SortedByPos(sorted)
    ensures SortedByPos(Insert(m, sorted))
    ensures multiset(Insert(m, sorted)) == multiset(sorted) + multiset{m}
  {
    if |sorted| > 0 && m.pos >= sorted[0].pos {
      var rest := sorted[1..];
      InsertSpec(m, rest);
      InsertAbove(m, rest, sorted[0].pos);
      SortedCons(sorted[0], Insert(m, rest));
      assert sorted == [sorted[0]] + rest;
    }
  }

  /** Inserting a mark at or above `lo` into marks at or above `lo` keeps
      every mark at or above `lo`. */
  lemma {:induction false} InsertAbove(m: Mark, marks: seq<Mark>, lo: nat)
    requires m.pos >= lo && forall k :: 0 <= k < |marks| ==> marks[k].pos >= lo
    ensures forall k :: 0 <= k < |marks| + 1 ==> Insert(m, marks)[k].pos >= lo
  {
    if |marks| > 0 && m.pos >= marks[0].pos {
      InsertAbove(m, marks[1..], lo);
    }
  }

  lemma SortedCons(head: Mark, tail: seq<Mark>)
    requires SortedByPos(tail) && forall k :: 0 <= k < |tail| ==> head.pos <= tail[k].pos
    ensures SortedByPos([head] + tail)
  {
    var r := [head] + tail;
    forall i, j | 0 <= i < j < |r| ensures r[i].pos <= r[j].pos {
      assert r[j] == tail[j - 1];
      if i > 0 {
        assert r[i] == tail[i - 1];
      }
    }
  }

  /** The sort orders the marks by position and keeps every mark, each as
      often as it came. */
  lemma {:induction false} SortByPosSpec(marks: seq<Mark>)
    ensures SortedByPos(SortByPos(marks))
    ensures multiset(SortByPos(marks)) == multiset(marks)
  {
    if |marks| > 0 {
      var init := marks[..|marks| - 1];
      SortByPosSpec(init);
      InsertSpec(marks[|marks| - 1], SortByPos(init));
      assert marks == init + [marks[|marks| - 1]];
    }
  }

  /** The marks of `marks` at position `p`, in their order. */
  function AtPos(marks: seq<Mark>, p: nat): (r: seq<Mark>)
    ensures |r| <= |marks|
  {
    if |marks| == 0 then []
    else (if marks[0].pos == p then [marks[0]] else []) + AtPos(marks[1..], p)
  }

  lemma {:induction false} AtPosAppend(a: seq<Mark>, b: seq<Mark>, p: nat)
    ensures AtPos(a + b, p) == AtPos(a, p) + AtPos(b, p)
  {
    if |a| > 0 {
      AtPosAppend(a[1..], b, p);
      assert (a + b)[1..] == a[1..] + b;
    } else {
      assert a + b == b;
    }
  }

  /** No mark of marks all above `p` is at `p`. */
  lemma {:induction false} AtPosAbove(marks: seq<Mark>, p: nat)
    requires forall k :: 0 <= k < |marks| ==> marks[k].pos > p
    ensures AtPos(marks, p) == []
  {
    if |marks| > 0 {
      AtPosAbove(marks[1..], p);
    }
  }

  /** Inserting `m` into sorted marks puts it after the marks already at
      its position and leaves the other positions alone. */
  lemma {:induction false} InsertAtPos(m: Mark, sorted: seq<Mark>, p: nat)
    requires SortedByPos(sorted)
    ensures AtPos(Insert(m, sorted), p) == AtPos(sorted, p) + (if m.pos == p then [m] else [])
  {
    if |sorted| == 0 {
      assert Insert(m, sorted) == [m];
      assert [m][1..] == [];
    } else if m.pos < sorted[0].pos {
      assert ([m] + sorted)[1..] == sorted;
      if m.pos == p {
        AtPosAbove(sorted, p);
      }
    } else {
      var rest := sorted[1..];
      InsertAtPos(m, rest, p);
      assert ([sorted[0]] + Insert(m, rest))[1..] == Insert(m, rest);
    }
  }

  /** The last mark goes in after the marks at its position that the sort
      of the others already holds. */
  lemma InsertLastAtPos(marks: seq<Mark>, p: nat)
    requires |marks| > 0
    ensures var last := marks[|marks| - 1];
            AtPos(SortByPos(marks), p)
              == AtPos(SortByPos(marks[..|marks| - 1]), p) + (if last.pos == p then [last] else [])
  {
    SortByPosSpec(marks[..|marks| - 1]);
    InsertAtPos(marks[|marks| - 1], SortByPos(marks[..|marks| - 1]), p);
  }

  /** The sort is stable: at every position the marks keep the order in
      which they were collected, as `Array.prototype.sort` does. */
  lemma {:induction false} SortByPosStable(marks: seq<Mark>, p: nat)
    ensures AtPos(SortByPos(marks), p) == AtPos(marks, p)
  {
    if |marks| > 0 {
      var init := marks[..|marks| - 1];
      var last := marks[|marks| - 1];
      var tail := if last.pos == p then [last] else [];
      SortByPosStable(init, p);
      InsertLastAtPos(marks, p);
      assert marks == init + [last];
      AtPosAppend(init, [last], p);
      assert AtPos([last], p) == tail by {
        assert [last][1..] == [];
      }
    }
  }

  /** The decorations `buildDecorations` hands to the range builder are in
      ascending position, as the builder demands; they are the collected marks,
      each as often as collected; and a mark is among them exactly when it
      highlights an occurrence of some mapping's marker inside some visible
      range, in the colour of that mapping's note field. */
  lemma DecorationsSpec(doc: string, ranges: seq<(nat, nat)>, m: Mappings, colors: map<string, string>)
    requires InDoc(ranges, |doc|) && Cached(m, colors)
    ensures var marks := SortByPos(Collected(doc, ranges, m, colors));
            && SortedByPos(marks)
            && multiset(marks) == multiset(Collected(doc, ranges, m, colors))
            && forall mark :: mark in marks <==> exists r :: 0 <= r < |ranges| && MarkedBy(doc, ranges[r], m, colors, mark)
  {
    var collected := Collected(doc, ranges, m, colors);
    SortByPosSpec(collected);
    CollectedSpec(doc, ranges, m, colors);
    forall mark ensures mark in SortByPos(collected) <==> mark in collected {
      assert mark in SortByPos(collected) <==> mark in multiset(SortByPos(collected));
      assert mark in collected <==> mark in multiset(collected);
    }
  }

  // ---------------------------------------------------------------------------
  // The text nodes of `processContent`

  /** What `processContent` does to one text node: the mappings are tried in
      order and the first one that yields a replacement wins. Once replaced,
      the node is no longer in the document, so the `replaceWith` of every
      later mapping changes nothing. */
  function FirstReplacement(content: string, m: Mappings, colors: map<string, string>): Option<seq<Fragment>>
    requires Cached(m, colors)
  {
    if |m| == 0 then None
    else
      var earlier := FirstReplacement(content, m[..|m| - 1], colors);
      var last := m[|m| - 1];
      if earlier.Some? then earlier else Replacement(content, Pattern(last.1), colors[last.0])
  }

  /** Trying the `j`-th mapping after the ones before it. */
  lemma FirstReplacementStep(content: string, m: Mappings, j: nat, colors: map<string, string>,
                             earlier: Option<seq<Fragment>>)
    requires j < |m| && Cached(m[..j], colors) && Cached(m[..j + 1], colors)
    requires earlier == FirstReplacement(content, m[..j], colors)
    ensures m[j].0 in colors
    ensures FirstReplacement(content, m[..j + 1], colors)
            == if earlier.Some? then earlier else Replacement(content, Pattern(m[j].1), colors[m[j].0])
  {
    assert m[..j + 1][..j] == m[..j];
    assert m[..j + 1][j] == m[j];
  }

  /** A node is rewritten exactly when some mapping's marker occurs in it
      without being all of it, and then by the first such mapping. */
  lemma {:induction false} FirstReplacementSpec(content: string, m: Mappings, colors: map<string, string>)
    requires Cached(m, colors)
    ensures FirstReplacement(content, m, colors).None? <==>
              forall i :: 0 <= i < |m| ==> Replacement(content, Pattern(m[i].1), colors[m[i].0]).None?
    ensures FirstReplacement(content, m, colors).Some? ==>
              exists i :: 0 <= i < |m|
                && FirstReplacement(content, m, colors) == Replacement(content, Pattern(m[i].1), colors[m[i].0])
                && forall j :: 0 <= j < i ==> Replacement(content, Pattern(m[j].1), colors[m[j].0]).None?
  {
    if |m| > 0 {
      var init := m[..|m| - 1];
      FirstReplacementSpec(content, init, colors);
      forall i | 0 <= i < |init| ensures init[i] == m[i] {
      }
    }
  }

  /** Caching more colours changes no node's rewrite. */
  lemma {:induction false} FirstReplacementStable(content: string, m: Mappings,
                                                  earlier: map<string, string>, later: map<string, string>)
    requires Cached(m, earlier) && Extends(later, earlier)
    ensures Cached(m, later) && FirstReplacement(content, m, later) == FirstReplacement(content, m, earlier)
  {
    if |m| > 0 {
      FirstReplacementStable(content, m[..|m| - 1], earlier, later);
    }
  }

  /** `rewrites[n]` is what `processContent` makes of the `n`-th text node. */
  predicate Rewrites(texts: seq<string>, rewrites: seq<Option<seq<Fragment>>>, m: Mappings, colors: map<string, string>) {
    && Cached(m, colors)
    && |rewrites| == |texts|
    && forall n :: 0 <= n < |texts| ==> rewrites[n] == FirstReplacement(texts[n], m, colors)
  }

  lemma RewritesStable(texts: seq<string>, rewrites: seq<Option<seq<Fragment>>>, m: Mappings,
                       earlier: map<string, string>, later: map<string, string>)
    requires Rewrites(texts, rewrites, m, earlier) && Extends(later, earlier)
    ensures Rewrites(texts, rewrites, m, later)
  {
    forall n | 0 <= n < |texts| ensures rewrites[n] == FirstReplacement(texts[n], m, later) {
      FirstReplacementStable(texts[n], m, earlier, later);
    }
  }

  lemma RewritesExtend(texts: seq<string>, k: nat, rewrites: seq<Option<seq<Fragment>>>,
                       next: Option<seq<Fragment>>, m: Mappings, colors: map<string, string>)
    requires k < |texts| && Cached(m, colors) && next == FirstReplacement(texts[k], m, colors)
    requires k == 0 ==> rewrites == []
    requires k > 0 ==> Rewrites(texts[..k], rewrites, m, colors)
    ensures Rewrites(texts[..k + 1], rewrites + [next], m, colors)
  {
    forall n | 0 <= n < k ensures texts[..k + 1][n] == texts[..k][n] {
    }
  }

  /** A rewritten node shows the text it replaces, with the marker of the
      mapping that rewrote it highlighted in that mapping's colour and no
      occurrence of that marker left in a plain fragment. */
  lemma RewrittenNode(content: string, m: Mappings, colors: map<string, string>)
    requires Cached(m, colors) && FirstReplacement(content, m, colors).Some?
    ensures var fs := FirstReplacement(content, m, colors).value;
            && Render(fs) == content
            && exists i :: 0 <= i < |m| && Span(Pattern(m[i].1), colors[m[i].0]) in fs
                 && Clean(fs, Pattern(m[i].1), colors[m[i].0])
  {
    FirstReplacementSpec(content, m, colors);
    var i :| 0 <= i < |m| && FirstReplacement(content, m, colors) == Replacement(content, Pattern(m[i].1), colors[m[i].0]);
    ReplacementSpec(content, Pattern(m[i].1), colors[m[i].0]);
  }
}
