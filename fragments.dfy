/** The text-node rewrite of `processContent` in src/field-decorator.ts: a
    rendered text is cut into plain text and highlighted `Label:` markers, and
    the cut shows the text it came from. */
module Fragments {
  import opened Strings

  /** A piece of a rewritten text node: a plain text node, or the highlighted
      `<span>` holding a marker. */
  datatype Fragment = Text(text: string) | Span(marker: string, color: string)

  /** The text a fragment shows. */
  function Shown(f: Fragment): string {
    match f
    case Text(t) => t
    case Span(marker, _) => marker
  }

  /** The text a sequence of fragments shows, in order. */
  function Render(fs: seq<Fragment>): string {
    if |fs| == 0 then [] else Shown(fs[0]) + Render(fs[1..])
  }

  lemma RenderCons(f: Fragment, fs: seq<Fragment>)
    ensures Render([f] + fs) == Shown(f) + Render(fs)
  {
    assert ([f] + fs)[1..] == fs;
  }

  lemma {:induction false} RenderAppend(a: seq<Fragment>, b: seq<Fragment>)
    ensures Render(a + b) == Render(a) + Render(b)
  {
    if |a| == 0 {
      assert a + b == b;
    } else {
      var tail := a[1..];
      var ab := a + b;
      RenderAppend(tail, b);
      assert ab[0] == a[0] && ab[1..] == tail + b;
      StringAssoc(Shown(a[0]), Render(tail), Render(b));
    }
  }

  lemma StringAssoc(x: string, y: string, z: string)
    ensures x + (y + z) == (x + y) + z
  {
  }

  /** The fragments of the `while (pos !== -1)` loop from `lastPos = last`:
      the text before each occurrence found by `indexOf` from the end of the
      previous one (when there is any), the occurrence as a span, and the
      rest of the text (when there is any). */
  function FragmentsFrom(content: string, pattern: string, color: string, last: nat): seq<Fragment>
    requires |pattern| > 0 && last <= |content|
    decreases |content| - last
  {
    if IndexOf(content, pattern, last).None? then
      if last < |content| then [Text(content[last..])] else []
    else if IndexOf(content, pattern, last).value > last then
      [Text(content[last..IndexOf(content, pattern, last).value])]
        + ([Span(pattern, color)] + FragmentsFrom(content, pattern, color, IndexOf(content, pattern, last).value + |pattern|))
    else
      [Span(pattern, color)] + FragmentsFrom(content, pattern, color, IndexOf(content, pattern, last).value + |pattern|)
  }

  lemma Reassociate(a: seq<Fragment>, b: seq<Fragment>, c: seq<Fragment>)
    ensures a + (b + c) == (a + b) + c
  {
  }

  /** The fragments when no marker follows `last`. */
  lemma FragmentsNone(content: string, pattern: string, color: string, last: nat)
    requires |pattern| > 0 && last <= |content| && IndexOf(content, pattern, last).None?
    ensures FragmentsFrom(content, pattern, color, last) == if last < |content| then [Text(content[last..])] else []
  {
  }

  /** The fragments when the next marker after `last` is at `p`. */
  lemma FragmentsSome(content: string, pattern: string, color: string, last: nat, p: nat)
    requires |pattern| > 0 && last <= |content| && IndexOf(content, pattern, last) == Some(p)
    ensures last <= p && p + |pattern| <= |content| && content[p..p + |pattern|] == pattern
    ensures p == last ==>
              FragmentsFrom(content, pattern, color, last) ==
              [Span(pattern, color)] + FragmentsFrom(content, pattern, color, p + |pattern|)
    ensures p > last ==>
              FragmentsFrom(content, pattern, color, last) ==
              [Text(content[last..p])] + ([Span(pattern, color)] + FragmentsFrom(content, pattern, color, p + |pattern|))
  {
    assert OccursAt(content, pattern, p) by {
      IndexOfSpec(content, pattern, last);
    }
  }

  /** `pattern` occurs nowhere in `t`. */
  predicate Free(t: string, pattern: string) {
    forall j :: 0 <= j <= |t| ==> !OccursAt(t, pattern, j)
  }

  /** Every text fragment is non-empty and free of the marker, and every span
      holds the marker in the field's colour. */
  predicate Clean(fs: seq<Fragment>, pattern: string, color: string) {
    forall f :: f in fs ==> if f.Text? then |f.text| > 0 && Free(f.text, pattern) else f == Span(pattern, color)
  }

  lemma CleanAppend(a: seq<Fragment>, b: seq<Fragment>, pattern: string, color: string)
    requires forall i :: 0 <= i < |a| ==> if a[i].Text? then |a[i].text| > 0 && Free(a[i].text, pattern) else a[i] == Span(pattern, color)
    requires Clean(b, pattern, color)
    ensures Clean(a + b, pattern, color)
  {
  }

  /** A slice of a text free of `q` is free of `q`. */
  lemma SliceFree(t: string, a: nat, b: nat, q: string)
    requires a <= b <= |t| && forall j :: a <= j <= b ==> !OccursAt(t, q, j) || j + |q| > b
    ensures Free(t[a..b], q)
  {
    forall j | 0 <= j <= b - a ensures !OccursAt(t[a..b], q, j) {
      if OccursAt(t[a..b], q, j) {
        SliceOfSlice(t, a, b, j, j + |q|);
        assert OccursAt(t, q, a + j);
      }
    }
  }

  /** The fragments show exactly the text they were cut from. */
  lemma {:induction false} FragmentsRender(content: string, pattern: string, color: string, last: nat)
    requires |pattern| > 0 && last <= |content|
    ensures Render(FragmentsFrom(content, pattern, color, last)) == content[last..]
    decreases |content| - last
  {
    var found := IndexOf(content, pattern, last);
    if found.None? {
      RenderTail(content, pattern, color, last);
    } else {
      var p := found.value;
      FragmentsRender(content, pattern, color, p + |pattern|);
      RenderAround(content, pattern, color, last, p);
    }
  }

  /** Past the last occurrence, the rendering is the remaining text. */
  lemma RenderTail(content: string, pattern: string, color: string, last: nat)
    requires |pattern| > 0 && last <= |content| && IndexOf(content, pattern, last).None?
    ensures Render(FragmentsFrom(content, pattern, color, last)) == content[last..]
  {
    FragmentsNone(content, pattern, color, last);
    if last < |content| {
      RenderCons(Text(content[last..]), []);
      assert [Text(content[last..])] + [] == [Text(content[last..])];
    }
  }

  /** The rendering of the cut at one occurrence, from the rendering of the
      cut after it. */
  lemma RenderAround(content: string, pattern: string, color: string, last: nat, p: nat)
    requires |pattern| > 0 && last <= |content| && IndexOf(content, pattern, last) == Some(p)
    requires p + |pattern| <= |content|
    requires Render(FragmentsFrom(content, pattern, color, p + |pattern|)) == content[p + |pattern|..]
    ensures Render(FragmentsFrom(content, pattern, color, last)) == content[last..]
  {
    FragmentsSome(content, pattern, color, last, p);
    var rest := FragmentsFrom(content, pattern, color, p + |pattern|);
    RenderStep(content, pattern, color, last, p, rest);
    if p == last {
      RenderOf(FragmentsFrom(content, pattern, color, last), [Span(pattern, color)] + rest, content[last..]);
    } else {
      RenderOf(FragmentsFrom(content, pattern, color, last), [Text(content[last..p])] + ([Span(pattern, color)] + rest), content[last..]);
    }
  }

  lemma RenderOf(a: seq<Fragment>, b: seq<Fragment>, s: string)
    requires a == b
    requires Render(b) == s
    ensures Render(a) == s
  {
  }

  /** One occurrence and the text before it show what they were cut from. */
  lemma RenderStep(content: string, pattern: string, color: string, last: nat, p: nat, rest: seq<Fragment>)
    requires last <= p && p + |pattern| <= |content| && content[p..p + |pattern|] == pattern
    requires Render(rest) == content[p + |pattern|..]
    ensures p == last ==> Render([Span(pattern, color)] + rest) == content[last..]
    ensures p > last ==> Render([Text(content[last..p])] + ([Span(pattern, color)] + rest)) == content[last..]
  {
    var q := p + |pattern|;
    var tail := [Span(pattern, color)] + rest;
    RenderCons(Span(pattern, color), rest);
    SplitThree(content, last, p, q);
    if p > last {
      RenderCons(Text(content[last..p]), tail);
    }
  }

  /** `s[a..]` cut at `b` and `c`, nested to the right as `Render` nests. */
  lemma SplitThree(s: string, a: nat, b: nat, c: nat)
    requires a <= b <= c <= |s|
    ensures s[a..] == s[a..b] + (s[b..c] + s[c..])
    ensures a == b ==> s[a..] == s[b..c] + s[c..]
  {
    assert s[a..] == s[a..b] + s[b..];
    assert s[b..] == s[b..c] + s[c..];
  }

  /** The fragments are clean. */
  lemma {:induction false} FragmentsClean(content: string, pattern: string, color: string, last: nat)
    requires |pattern| > 0 && last <= |content|
    ensures Clean(FragmentsFrom(content, pattern, color, last), pattern, color)
    decreases |content| - last
  {
    var found := IndexOf(content, pattern, last);
    if found.None? {
      FragmentsNone(content, pattern, color, last);
      if last < |content| {
        IndexOfSpec(content, pattern, last);
        SliceFree(content, last, |content|, pattern);
        assert content[last..|content|] == content[last..];
        CleanAppend([Text(content[last..])], [], pattern, color);
      }
    } else {
      var p := found.value;
      FragmentsClean(content, pattern, color, p + |pattern|);
      CleanAround(content, pattern, color, last, p);
    }
  }

  /** The cut at one occurrence is clean when the cut after it is. */
  lemma CleanAround(content: string, pattern: string, color: string, last: nat, p: nat)
    requires |pattern| > 0 && last <= |content| && IndexOf(content, pattern, last) == Some(p)
    requires p + |pattern| <= |content|
    requires Clean(FragmentsFrom(content, pattern, color, p + |pattern|), pattern, color)
    ensures Clean(FragmentsFrom(content, pattern, color, last), pattern, color)
  {
    FragmentsSome(content, pattern, color, last, p);
    var rest := FragmentsFrom(content, pattern, color, p + |pattern|);
    CleanAppend([Span(pattern, color)], rest, pattern, color);
    if p > last {
      IndexOfSpec(content, pattern, last);
      SliceFree(content, last, p, pattern);
      CleanAppend([Text(content[last..p])], [Span(pattern, color)] + rest, pattern, color);
    }
  }

  /** The fragments of a text holding no marker: the text itself, unless it
      is empty. */
  lemma FragmentsOfFree(content: string, pattern: string, color: string)
    requires |pattern| > 0 && Free(content, pattern)
    ensures FragmentsFrom(content, pattern, color, 0) == if |content| > 0 then [Text(content)] else []
  {
    IndexOfSpec(content, pattern, 0);
    assert IndexOf(content, pattern, 0).None?;
  }

  /** What one mapping does to one text node: `None` when the marker does
      not occur, or when the fragments are a single one; otherwise the
      fragments that replace the node. */
  function Replacement(content: string, pattern: string, color: string): Option<seq<Fragment>>
    requires |pattern| > 0
  {
    if IndexOf(content, pattern, 0).None? then None
    else
      var fs := FragmentsFrom(content, pattern, color, 0);
      if |fs| > 1 then Some(fs) else None
  }

  /** A node is rewritten exactly when the marker occurs in it and the node is
      not the marker alone; the rewrite shows the same text. */
  lemma ReplacementSpec(content: string, pattern: string, color: string)
    requires |pattern| > 0
    ensures Replacement(content, pattern, color).None? <==> Free(content, pattern) || content == pattern
    ensures Replacement(content, pattern, color).Some? ==>
              var fs := Replacement(content, pattern, color).value;
              Render(fs) == content && Clean(fs, pattern, color) && Span(pattern, color) in fs
  {
    var fs := FragmentsFrom(content, pattern, color, 0);
    FragmentsRender(content, pattern, color, 0);
    FragmentsClean(content, pattern, color, 0);
    assert content[0..] == content;
    var found := IndexOf(content, pattern, 0);
    IndexOfSpec(content, pattern, 0);
    if found.Some? {
      var p := found.value;
      var q := p + |pattern|;
      assert q <= |content|;
      var rest := FragmentsFrom(content, pattern, color, q);
      assert Span(pattern, color) in fs;
      if content == pattern {
        assert p == 0;
        IndexOfSpec(content, pattern, q);
        assert IndexOf(content, pattern, q).None?;
      }
      if |fs| <= 1 {
        assert p == 0 && |rest| == 0;
        FragmentsRender(content, pattern, color, q);
        assert content[q..] == [];
        assert content == content[p..q];
      }
    }
  }

  /** The `while (pos !== -1)` loop of one text node and one mapping, entered
      with the first occurrence `first`, and the remaining text after it. */
  method CollectFragments(content: string, pattern: string, color: string, first: nat) returns (fragments: seq<Fragment>)
    requires |pattern| > 0 && IndexOf(content, pattern, 0) == Some(first)
    ensures fragments == FragmentsFrom(content, pattern, color, 0)
  {
    fragments := [];
    ghost var all := FragmentsFrom(content, pattern, color, 0);
    var pos: Option<nat> := Some(first);
    var lastPos: nat := 0;
    while pos.Some?
      invariant lastPos <= |content| && pos == IndexOf(content, pattern, lastPos)
      invariant fragments + FragmentsFrom(content, pattern, color, lastPos) == all
      decreases |content| - lastPos + (if pos.Some? then 1 else 0)
    {
      var p := pos.value;
      FragmentsAdvance(content, pattern, color, lastPos, p, fragments, all);
      fragments := PushMatch(fragments, content, lastPos, p, pattern, color);
      lastPos := p + |pattern|;
      pos := IndexOf(content, pattern, lastPos);
    }
    FragmentsFinish(content, pattern, color, lastPos, fragments, all);
    if lastPos < |content| {
      fragments := fragments + [Text(content[lastPos..])];
    }
  }

  /** The body of the loop: the text before the match, when there is any,
      then the highlighted span. */
  method PushMatch(fragments: seq<Fragment>, content: string, last: nat, p: nat, pattern: string, color: string)
    returns (pushed: seq<Fragment>)
    requires last <= p <= |content|
    ensures pushed == Pushed(fragments, content, last, p, pattern, color)
  {
    pushed := fragments;
    if p > last {
      pushed := pushed + [Text(content[last..p])];
    }
    pushed := pushed + [Span(pattern, color)];
  }

  /** The fragments after one turn of the loop. */
  function Pushed(done: seq<Fragment>, content: string, last: nat, p: nat, pattern: string, color: string): seq<Fragment>
    requires last <= p <= |content|
  {
    if p > last then (done + [Text(content[last..p])]) + [Span(pattern, color)]
    else done + [Span(pattern, color)]
  }

  /** After the loop: the fragments pushed so far and the remaining text, if
      any, are all the fragments. */
  lemma FragmentsFinish(content: string, pattern: string, color: string, last: nat,
                        done: seq<Fragment>, all: seq<Fragment>)
    requires |pattern| > 0 && last <= |content| && IndexOf(content, pattern, last).None?
    requires done + FragmentsFrom(content, pattern, color, last) == all
    ensures last < |content| ==> done + [Text(content[last..])] == all
    ensures last == |content| ==> done == all
  {
    FragmentsNone(content, pattern, color, last);
    assert done + [] == done;
  }

  /** One turn of the loop: the fragments pushed so far followed by the
      fragments still to come are all the fragments. */
  lemma FragmentsAdvance(content: string, pattern: string, color: string, last: nat, p: nat,
                         done: seq<Fragment>, all: seq<Fragment>)
    requires |pattern| > 0 && last <= |content| && IndexOf(content, pattern, last) == Some(p)
    requires done + FragmentsFrom(content, pattern, color, last) == all
    ensures last <= p && p + |pattern| <= |content|
    ensures Pushed(done, content, last, p, pattern, color) + FragmentsFrom(content, pattern, color, p + |pattern|) == all
  {
    FragmentsSome(content, pattern, color, last, p);
    var rest := FragmentsFrom(content, pattern, color, p + |pattern|);
    if p > last {
      Reassociate(done, [Text(content[last..p])], [Span(pattern, color)] + rest);
      Reassociate(done + [Text(content[last..p])], [Span(pattern, color)], rest);
    } else {
      Reassociate(done, [Span(pattern, color)], rest);
    }
  }

  /** One mapping applied to one text node: nothing when the marker does not
      occur, and the fragments only when there are more than one. */
  method SplitAtMarker(content: string, pattern: string, color: string) returns (r: Option<seq<Fragment>>)
    requires |pattern| > 0
    ensures r == Replacement(content, pattern, color)
  {
    var pos := IndexOf(content, pattern, 0);
    if pos.None? {
      return None;
    }
    var fragments := CollectFragments(content, pattern, color, pos.value);
    if |fragments| > 1 {
      r := Some(fragments);
    } else {
      r := None;
    }
  }
}
