/** Two ways the text-node rewrite of `processContent` in
    src/field-decorator.ts misses markers it is there to highlight, and a
    rewrite that highlights every marker of every mapping.

    As written, a node whose text is exactly one marker stays plain (the split
    yields one fragment, and only splits of more than one fragment replace the
    node), and only the first mapping whose marker occurs in a node is
    highlighted there (the node is detached by the first replacement). The
    rewrite below splits every plain fragment at the marker of every mapping
    in turn, and replaces the node whenever some marker was highlighted. */
module Highlight {
  import opened Strings
  import opened Fragments
  import opened Decorator

  // ---------------------------------------------------------------------------
  // The two misses, as written

  /** A text node holding nothing but a marker (as `**Front:**` renders) is
      not highlighted. */
  lemma MarkerAloneStaysPlain(field: string, name: string, colors: map<string, string>)
    requires field in colors
    ensures FirstReplacement(Pattern(name), [(field, name)], colors) == None
  {
    ReplacementSpec(Pattern(name), Pattern(name), colors[field]);
  }

  /** A paragraph holding two markers is highlighted for the first mapping
      only: the second marker is left in a plain fragment. */
  lemma SecondMarkerStaysPlain(front: string, back: string)
    ensures var colors := map["Front" := front, "Back" := back];
            var m := [("Front", "Front"), ("Back", "Back")];
            && FirstReplacement("Front: q Back: a", m, colors) == Some([Span("Front:", front), Text(" q Back: a")])
            && OccursAt(" q Back: a", Pattern("Back"), 3)
  {
    var content := "Front: q Back: a";
    var fs := [Span("Front:", front), Text(" q Back: a")];
    FrontSplit(front);
    var m := [("Front", "Front"), ("Back", "Back")];
    var colors := map["Front" := front, "Back" := back];
    var first := [("Front", "Front")];
    assert first[..0] == [];
    assert Replacement(content, Pattern("Front"), front) == Some(fs);
    assert FirstReplacement(content, first, colors) == Some(fs);
    assert m[..1] == first;
    assert " q Back: a"[3..8] == "Back:";
  }

  /** The split of the paragraph at the first marker. */
  lemma FrontSplit(front: string)
    ensures FragmentsFrom("Front: q Back: a", "Front:", front, 0) == [Span("Front:", front), Text(" q Back: a")]
    ensures Pattern("Front") == "Front:"
  {
    var content := "Front: q Back: a";
    var pattern := "Front:";
    assert content[0..6] == pattern;
    assert IndexOf(content, pattern, 0) == Some(0);
    forall j | 6 <= j <= |content| ensures !OccursAt(content, pattern, j) {
      if j + 6 <= |content| {
        assert content[j..j + 6][0] == content[j] != 'F';
      }
    }
    assert IndexOf(content, pattern, 6).None?;
    FragmentsSome(content, pattern, front, 0, 0);
    FragmentsNone(content, pattern, front, 6);
    assert content[6..] == " q Back: a";
  }

  // ---------------------------------------------------------------------------
  // Highlighting every marker

  /** One plain fragment split at `pattern`; a span stays as it is. */
  function Split(f: Fragment, pattern: string, color: string): seq<Fragment>
    requires |pattern| > 0
  {
    if f.Text? then FragmentsFrom(f.text, pattern, color, 0) else [f]
  }

  /** Every plain fragment split at `pattern`, in order. */
  function Refine(fs: seq<Fragment>, pattern: string, color: string): seq<Fragment>
    requires |pattern| > 0
  {
    if |fs| == 0 then [] else Split(fs[0], pattern, color) + Refine(fs[1..], pattern, color)
  }

  /** A node's fragments once every mapping's marker has been split out, in
      mapping order. */
  function HighlightAll(content: string, m: Mappings, colors: map<string, string>): seq<Fragment>
    requires Cached(m, colors)
  {
    if |m| == 0 then (if |content| == 0 then [] else [Text(content)])
    else
      var last := m[|m| - 1];
      Refine(HighlightAll(content, m[..|m| - 1], colors), Pattern(last.1), colors[last.0])
  }

  predicate HasSpan(fs: seq<Fragment>) {
    exists i :: 0 <= i < |fs| && fs[i].Span?
  }

  /** The rewrite of one text node: its highlighted fragments whenever some
      marker was highlighted, and nothing otherwise. */
  function HighlightedNode(content: string, m: Mappings, colors: map<string, string>): Option<seq<Fragment>>
    requires Cached(m, colors)
  {
    var fs := HighlightAll(content, m, colors);
    if HasSpan(fs) then Some(fs) else None
  }

  /** Every plain fragment is non-empty. */
  predicate TextsNonEmpty(fs: seq<Fragment>) {
    forall i :: 0 <= i < |fs| && fs[i].Text? ==> |fs[i].text| > 0
  }

  /** No plain fragment holds `q`. */
  predicate TextsFree(fs: seq<Fragment>, q: string) {
    forall i :: 0 <= i < |fs| && fs[i].Text? ==> Free(fs[i].text, q)
  }

  /** A slice of a text free of `q` is free of `q`. */
  lemma FreeSlice(t: string, a: nat, b: nat, q: string)
    requires a <= b <= |t| && Free(t, q)
    ensures Free(t[a..b], q)
  {
    SliceFree(t, a, b, q);
  }

  /** The plain fragments of a split are slices of the text split, so they
      are free of whatever the text is free of. */
  lemma {:induction false} FragmentsKeepFree(t: string, pattern: string, color: string, last: nat, q: string)
    requires |pattern| > 0 && last <= |t| && Free(t, q)
    ensures TextsFree(FragmentsFrom(t, pattern, color, last), q)
    decreases |t| - last
  {
    var found := IndexOf(t, pattern, last);
    if found.None? {
      FragmentsNone(t, pattern, color, last);
      FreeSlice(t, last, |t|, q);
      assert t[last..|t|] == t[last..];
    } else {
      var p := found.value;
      FragmentsKeepFree(t, pattern, color, p + |pattern|, q);
      KeepFreeAround(t, pattern, color, last, p, q);
    }
  }

  lemma KeepFreeAround(t: string, pattern: string, color: string, last: nat, p: nat, q: string)
    requires |pattern| > 0 && last <= |t| && Free(t, q) && IndexOf(t, pattern, last) == Some(p)
    requires p + |pattern| <= |t|
    requires TextsFree(FragmentsFrom(t, pattern, color, p + |pattern|), q)
    ensures TextsFree(FragmentsFrom(t, pattern, color, last), q)
  {
    FragmentsSome(t, pattern, color, last, p);
    var rest := FragmentsFrom(t, pattern, color, p + |pattern|);
    TextsFreeCons(Span(pattern, color), rest, q);
    if p > last {
      FreeSlice(t, last, p, q);
      TextsFreeCons(Text(t[last..p]), [Span(pattern, color)] + rest, q);
      TextsFreeOf(FragmentsFrom(t, pattern, color, last), [Text(t[last..p])] + ([Span(pattern, color)] + rest), q);
    } else {
      TextsFreeOf(FragmentsFrom(t, pattern, color, last), [Span(pattern, color)] + rest, q);
    }
  }

  lemma TextsFreeOf(a: seq<Fragment>, b: seq<Fragment>, q: string)
    requires a == b
    requires TextsFree(b, q)
    ensures TextsFree(a, q)
  {
  }

  lemma TextsFreeCons(f: Fragment, fs: seq<Fragment>, q: string)
    requires f.Text? ==> Free(f.text, q)
    requires TextsFree(fs, q)
    ensures TextsFree([f] + fs, q)
  {
    forall i | 0 <= i < |[f] + fs| && ([f] + fs)[i].Text? ensures Free(([f] + fs)[i].text, q) {
      if i > 0 {
        assert ([f] + fs)[i] == fs[i - 1];
      }
    }
  }

  /** The plain fragments of a split are non-empty and free of the marker
      split at. */
  lemma SplitClean(t: string, pattern: string, color: string)
    requires |pattern| > 0
    ensures TextsNonEmpty(FragmentsFrom(t, pattern, color, 0)) && TextsFree(FragmentsFrom(t, pattern, color, 0), pattern)
  {
    var fs := FragmentsFrom(t, pattern, color, 0);
    FragmentsClean(t, pattern, color, 0);
    forall i | 0 <= i < |fs| && fs[i].Text? ensures |fs[i].text| > 0 && Free(fs[i].text, pattern) {
      assert fs[i] in fs;
    }
  }

  lemma RefineCons(fs: seq<Fragment>, pattern: string, color: string)
    requires |pattern| > 0 && |fs| > 0
    ensures Refine(fs, pattern, color) == Split(fs[0], pattern, color) + Refine(fs[1..], pattern, color)
  {
  }

  /** Plain fragments in `a + b` lie in `a` or in `b`. */
  lemma TextsAppend(a: seq<Fragment>, b: seq<Fragment>, q: string)
    requires TextsNonEmpty(a) && TextsNonEmpty(b) && TextsFree(a, q) && TextsFree(b, q)
    ensures TextsNonEmpty(a + b) && TextsFree(a + b, q)
  {
    forall i | 0 <= i < |a + b| && (a + b)[i].Text? ensures |(a + b)[i].text| > 0 && Free((a + b)[i].text, q) {
      if i >= |a| {
        assert (a + b)[i] == b[i - |a|];
      }
    }
  }

  lemma TextsFreeAppend(a: seq<Fragment>, b: seq<Fragment>, q: string)
    requires TextsFree(a, q) && TextsFree(b, q)
    ensures TextsFree(a + b, q)
  {
    forall i | 0 <= i < |a + b| && (a + b)[i].Text? ensures Free((a + b)[i].text, q) {
      if i >= |a| {
        assert (a + b)[i] == b[i - |a|];
      }
    }
  }

  /** Refining shows the same text. */
  lemma {:induction false} RefineRender(fs: seq<Fragment>, pattern: string, color: string)
    requires |pattern| > 0
    ensures Render(Refine(fs, pattern, color)) == Render(fs)
  {
    if |fs| > 0 {
      RefineRender(fs[1..], pattern, color);
      RenderAppend(Split(fs[0], pattern, color), Refine(fs[1..], pattern, color));
      if fs[0].Text? {
        FragmentsRender(fs[0].text, pattern, color, 0);
        assert fs[0].text[0..] == fs[0].text;
      } else {
        RenderCons(fs[0], []);
        assert [fs[0]] + [] == [fs[0]];
      }
    }
  }

  /** Refining leaves no plain fragment holding the marker refined at and
      keeps the plain fragments non-empty. */
  lemma {:induction false} RefineClean(fs: seq<Fragment>, pattern: string, color: string)
    requires |pattern| > 0 && TextsNonEmpty(fs)
    ensures TextsNonEmpty(Refine(fs, pattern, color)) && TextsFree(Refine(fs, pattern, color), pattern)
  {
    if |fs| > 0 {
      var head := Split(fs[0], pattern, color);
      var rest := Refine(fs[1..], pattern, color);
      assert TextsNonEmpty(fs[1..]) by {
        forall i | 0 <= i < |fs[1..]| ensures fs[1..][i] == fs[i + 1] {
        }
      }
      RefineClean(fs[1..], pattern, color);
      if fs[0].Text? {
        SplitClean(fs[0].text, pattern, color);
      }
      TextsAppend(head, rest, pattern);
    }
  }

  /** Refining keeps the plain fragments free of whatever they were free of. */
  lemma {:induction false} RefineKeepsFreeOf(fs: seq<Fragment>, pattern: string, color: string, q: string)
    requires |pattern| > 0 && TextsFree(fs, q)
    ensures TextsFree(Refine(fs, pattern, color), q)
  {
    if |fs| > 0 {
      var head := Split(fs[0], pattern, color);
      var rest := Refine(fs[1..], pattern, color);
      assert TextsFree(fs[1..], q) by {
        forall i | 0 <= i < |fs[1..]| ensures fs[1..][i] == fs[i + 1] {
        }
      }
      RefineKeepsFreeOf(fs[1..], pattern, color, q);
      if fs[0].Text? {
        FragmentsKeepFree(fs[0].text, pattern, color, 0, q);
      }
      TextsFreeAppend(head, rest, q);
    }
  }

  /** A span survives refining. */
  lemma {:induction false} RefineKeepsSpans(fs: seq<Fragment>, pattern: string, color: string)
    requires |pattern| > 0 && HasSpan(fs)
    ensures HasSpan(Refine(fs, pattern, color))
  {
    var head := Split(fs[0], pattern, color);
    if fs[0].Span? {
      assert (head + Refine(fs[1..], pattern, color))[0].Span?;
    } else {
      var i :| 0 <= i < |fs| && fs[i].Span?;
      assert fs[1..][i - 1].Span?;
      RefineKeepsSpans(fs[1..], pattern, color);
      var rest := Refine(fs[1..], pattern, color);
      var k :| 0 <= k < |rest| && rest[k].Span?;
      assert (head + rest)[|head| + k] == rest[k];
    }
  }

  /** A split of a text holding the marker has a span. */
  lemma SplitHasSpan(t: string, pattern: string, color: string)
    requires |pattern| > 0 && IndexOf(t, pattern, 0).Some?
    ensures HasSpan(FragmentsFrom(t, pattern, color, 0))
  {
    var p := IndexOf(t, pattern, 0).value;
    FragmentsSome(t, pattern, color, 0, p);
    var fs := FragmentsFrom(t, pattern, color, 0);
    if p == 0 {
      assert fs[0].Span?;
    } else {
      assert fs[1].Span?;
    }
  }

  /** Without any marker of the mappings, the node stays one plain fragment. */
  lemma {:induction false} HighlightNothing(content: string, m: Mappings, colors: map<string, string>)
    requires Cached(m, colors) && forall i :: 0 <= i < |m| ==> Free(content, Pattern(m[i].1))
    ensures HighlightAll(content, m, colors) == if |content| == 0 then [] else [Text(content)]
  {
    if |m| > 0 {
      var init := m[..|m| - 1];
      var last := m[|m| - 1];
      assert forall i :: 0 <= i < |init| ==> init[i] == m[i];
      HighlightNothing(content, init, colors);
      if |content| > 0 {
        FragmentsOfFree(content, Pattern(last.1), colors[last.0]);
        assert Refine([Text(content)], Pattern(last.1), colors[last.0])
            == FragmentsFrom(content, Pattern(last.1), colors[last.0], 0) + [];
      }
    }
  }

  /** As soon as some mapping's marker occurs in the node, a span is
      highlighted. */
  lemma {:induction false} HighlightSomething(content: string, m: Mappings, colors: map<string, string>, i: nat)
    requires Cached(m, colors) && i < |m| && !Free(content, Pattern(m[i].1))
    ensures HasSpan(HighlightAll(content, m, colors))
  {
    var init := m[..|m| - 1];
    if exists j :: 0 <= j < |init| && !Free(content, Pattern(init[j].1)) {
      var j :| 0 <= j < |init| && !Free(content, Pattern(init[j].1));
      HighlightSomething(content, init, colors, j);
      var last := m[|m| - 1];
      RefineKeepsSpans(HighlightAll(content, init, colors), Pattern(last.1), colors[last.0]);
    } else {
      assert forall j :: 0 <= j < |init| ==> init[j] == m[j];
      HighlightFirst(content, m, colors);
    }
  }

  /** The first mapping whose marker occurs highlights it. */
  lemma HighlightFirst(content: string, m: Mappings, colors: map<string, string>)
    requires Cached(m, colors) && |m| > 0 && !Free(content, Pattern(m[|m| - 1].1))
    requires forall j :: 0 <= j < |m| - 1 ==> Free(content, Pattern(m[j].1))
    ensures HasSpan(HighlightAll(content, m, colors))
  {
    var init := m[..|m| - 1];
    var last := m[|m| - 1];
    var pattern := Pattern(last.1);
    var color := colors[last.0];
    assert forall j :: 0 <= j < |init| ==> init[j] == m[j];
    HighlightNothing(content, init, colors);
    var j :| 0 <= j <= |content| && OccursAt(content, pattern, j);
    IndexOfSpec(content, pattern, 0);
    assert IndexOf(content, pattern, 0).Some?;
    RefineOccurring(content, pattern, color);
    HasSpanOf(HighlightAll(content, m, colors), Refine([Text(content)], pattern, color));
  }

  lemma HasSpanOf(a: seq<Fragment>, b: seq<Fragment>)
    requires a == b
    requires HasSpan(b)
    ensures HasSpan(a)
  {
  }

  /** Refining a text holding the marker highlights it. */
  lemma RefineOccurring(content: string, pattern: string, color: string)
    requires |pattern| > 0 && IndexOf(content, pattern, 0).Some?
    ensures HasSpan(Refine([Text(content)], pattern, color))
  {
    var fs := FragmentsFrom(content, pattern, color, 0);
    SplitHasSpan(content, pattern, color);
    assert Refine([Text(content)], pattern, color) == fs + [];
    assert fs + [] == fs;
  }

  /** No plain fragment holds a marker of the mappings. */
  predicate FreeOfAll(fs: seq<Fragment>, m: Mappings) {
    forall i :: 0 <= i < |m| ==> TextsFree(fs, Pattern(m[i].1))
  }

  /** Refining keeps the plain fragments free of every marker they were free of. */
  lemma RefineKeepsFree(fs: seq<Fragment>, pattern: string, color: string, m: Mappings)
    requires |pattern| > 0 && FreeOfAll(fs, m)
    ensures FreeOfAll(Refine(fs, pattern, color), m)
  {
    forall i | 0 <= i < |m| ensures TextsFree(Refine(fs, pattern, color), Pattern(m[i].1)) {
      RefineKeepsFreeOf(fs, pattern, color, Pattern(m[i].1));
    }
  }

  lemma FreeOfAllSnoc(fs: seq<Fragment>, m: Mappings)
    requires |m| > 0 && FreeOfAll(fs, m[..|m| - 1]) && TextsFree(fs, Pattern(m[|m| - 1].1))
    ensures FreeOfAll(fs, m)
  {
    forall i | 0 <= i < |m| - 1 ensures TextsFree(fs, Pattern(m[i].1)) {
      assert m[..|m| - 1][i] == m[i];
    }
  }

  /** The fragments show the node's text, and no plain fragment is empty or
      holds a marker of any mapping. */
  lemma {:induction false} HighlightAllSpec(content: string, m: Mappings, colors: map<string, string>)
    requires Cached(m, colors)
    ensures Render(HighlightAll(content, m, colors)) == content
    ensures TextsNonEmpty(HighlightAll(content, m, colors))
    ensures FreeOfAll(HighlightAll(content, m, colors), m)
  {
    if |m| == 0 {
      if |content| > 0 {
        RenderCons(Text(content), []);
        assert [Text(content)] + [] == [Text(content)];
      }
    } else {
      var init := m[..|m| - 1];
      HighlightAllSpec(content, init, colors);
      RefineStep(content, HighlightAll(content, init, colors), m, colors);
    }
  }

  /** Refining at the last mapping's marker keeps the text and the freedom
      from the earlier markers, and adds freedom from the last one. */
  lemma RefineStep(content: string, before: seq<Fragment>, m: Mappings, colors: map<string, string>)
    requires Cached(m, colors) && |m| > 0
    requires Render(before) == content && TextsNonEmpty(before) && FreeOfAll(before, m[..|m| - 1])
    ensures var after := Refine(before, Pattern(m[|m| - 1].1), colors[m[|m| - 1].0]);
            Render(after) == content && TextsNonEmpty(after) && FreeOfAll(after, m)
  {
    var pattern := Pattern(m[|m| - 1].1);
    var color := colors[m[|m| - 1].0];
    RefineRender(before, pattern, color);
    RefineClean(before, pattern, color);
    RefineKeepsFree(before, pattern, color, m[..|m| - 1]);
    FreeOfAllSnoc(Refine(before, pattern, color), m);
  }

  /** The node is rewritten exactly when some mapping's marker occurs in it,
      a marker alone included; the rewrite shows the node's text and leaves
      no marker of any mapping in a plain fragment. */
  lemma HighlightedNodeSpec(content: string, m: Mappings, colors: map<string, string>)
    requires Cached(m, colors)
    ensures HighlightedNode(content, m, colors).None? <==> forall i :: 0 <= i < |m| ==> Free(content, Pattern(m[i].1))
    ensures HighlightedNode(content, m, colors).Some? ==>
              var fs := HighlightedNode(content, m, colors).value;
              && Render(fs) == content
              && TextsNonEmpty(fs)
              && forall i :: 0 <= i < |m| ==> TextsFree(fs, Pattern(m[i].1))
  {
    HighlightAllSpec(content, m, colors);
    if forall i :: 0 <= i < |m| ==> Free(content, Pattern(m[i].1)) {
      HighlightNothing(content, m, colors);
    } else {
      var i :| 0 <= i < |m| && !Free(content, Pattern(m[i].1));
      HighlightSomething(content, m, colors, i);
    }
  }
}
