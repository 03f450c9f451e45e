/** What the block pass of `markdownToHtml` guarantees about its output: the
    lists it opens are never nested and always closed, blank lines vanish,
    other lines outside lists are copied as they stand, and each list line
    gives exactly one item. */
module MarkdownFacts {
  import opened Strings
  import opened Markdown

  // ---------------------------------------------------------------------------
  // Well-nested lists

  /** Where the output stands: outside any list, inside an `<ol>` or inside a
      `<ul>`. */
  datatype ListState = Outside | InOl | InUl

  function StateOf(ol: bool, ul: bool): ListState {
    if ol then InOl else if ul then InUl else Outside
  }

  /** The state after one piece of output, or `None` when the piece is out of
      place: a list opened inside a list, a list closed that is not open, an
      item outside a list, or a plain line inside one. */
  function Next(st: ListState, o: Out): Option<ListState> {
    match o
    case OpenOl => if st == Outside then Some(InOl) else None
    case CloseOl => if st == InOl then Some(Outside) else None
    case OpenUl => if st == Outside then Some(InUl) else None
    case CloseUl => if st == InUl then Some(Outside) else None
    case Item(_) => if st == Outside then None else Some(st)
    case Text(_) => if st == Outside then Some(Outside) else None
  }

  /** The state after a whole run of output, or `None` if some piece is out
      of place. */
  function Run(outs: seq<Out>, st: ListState): Option<ListState> {
    if |outs| == 0 then Some(st)
    else match Next(st, outs[0])
      case None => None
      case Some(st') => Run(outs[1..], st')
  }

  lemma {:induction false} RunAppend(a: seq<Out>, b: seq<Out>, st: ListState)
    ensures Run(a + b, st) == (match Run(a, st) case None => None case Some(m) => Run(b, m))
  {
    if |a| > 0 {
      assert (a + b)[0] == a[0];
      assert (a + b)[1..] == a[1..] + b;
      match Next(st, a[0])
      case None =>
      case Some(m) => RunAppend(a[1..], b, m);
    } else {
      assert a + b == b;
    }
  }

  lemma RunSingle(o: Out, st: ListState)
    ensures Run([o], st) == Next(st, o)
  {
    if Next(st, o).Some? {
      assert [o][1..] == [];
    }
  }

  /** Closing the open lists leaves the output outside any list. */
  lemma ClosesRun(ol: bool, ul: bool)
    requires !(ol && ul)
    ensures Run(Closes(ol, ul), StateOf(ol, ul)) == Some(Outside)
  {
    if ol {
      assert Closes(ol, ul) == [CloseOl];
      RunSingle(CloseOl, InOl);
    } else if ul {
      assert Closes(ol, ul) == [CloseUl];
      RunSingle(CloseUl, InUl);
    }
  }

  /** Before an item the right list is open. */
  lemma OpenOrderedRun(ol: bool, ul: bool)
    requires !(ol && ul)
    ensures Run(OpenOrdered(ol, ul), StateOf(ol, ul)) == Some(InOl)
  {
    if !ol {
      if ul {
        RunAppend([CloseUl], [OpenOl], InUl);
        RunSingle(CloseUl, InUl);
      }
      RunSingle(OpenOl, Outside);
    }
  }

  lemma OpenUnorderedRun(ol: bool, ul: bool)
    requires !(ol && ul)
    ensures Run(OpenUnordered(ol, ul), StateOf(ol, ul)) == Some(InUl)
  {
    if !ul {
      if ol {
        RunAppend([CloseOl], [OpenUl], InOl);
        RunSingle(CloseOl, InOl);
      }
      RunSingle(OpenUl, Outside);
    }
  }

  /** One turn of the loop keeps the two flags apart and moves the output from
      the state the flags describe to the state the new flags describe. */
  lemma TurnWellNested(lines: seq<string>, i: nat, ol: bool, ul: bool)
    requires i < |lines| && !(ol && ul)
    ensures var t := Turn(lines, i, ol, ul);
            && !(t.2 && t.3)
            && Run(t.0, StateOf(ol, ul)) == Some(StateOf(t.2, t.3))
  {
    var st := StateOf(ol, ul);
    match Classify(lines[i])
    case Blank =>
      ClosesRun(ol, ul);
    case Ordered(c) =>
      var j := ContEnd(lines, i + 1);
      var item := Item(c + ContText(lines, i + 1, j));
      OpenOrderedRun(ol, ul);
      RunAppend(OpenOrdered(ol, ul), [item], st);
      RunSingle(item, InOl);
    case Unordered(c) =>
      var j := ContEnd(lines, i + 1);
      var item := Item(c + ContText(lines, i + 1, j));
      OpenUnorderedRun(ol, ul);
      RunAppend(OpenUnordered(ol, ul), [item], st);
      RunSingle(item, InUl);
    case Plain =>
      ClosesRun(ol, ul);
      RunAppend(Closes(ol, ul), [Text(lines[i])], st);
      RunSingle(Text(lines[i]), Outside);
  }

  /** From any line on, the rest of the output is well placed and ends
      outside every list. */
  lemma {:induction false} BlocksWellNested(lines: seq<string>, i: nat, ol: bool, ul: bool)
    requires i <= |lines| && !(ol && ul)
    ensures Run(Blocks(lines, i, ol, ul), StateOf(ol, ul)) == Some(Outside)
    decreases |lines| - i
  {
    if i == |lines| {
      ClosesRun(ol, ul);
    } else {
      var t := Turn(lines, i, ol, ul);
      TurnWellNested(lines, i, ol, ul);
      BlocksWellNested(lines, t.1, t.2, t.3);
      RunAppend(t.0, Blocks(lines, t.1, t.2, t.3), StateOf(ol, ul));
    }
  }

  /** The block pass over a whole text never nests a list in another, puts
      every item inside an open list and every copied line outside, and
      closes every list it opens. */
  lemma ConversionWellNested(lines: seq<string>)
    ensures Run(Blocks(lines, 0, false, false), Outside) == Some(Outside)
  {
    BlocksWellNested(lines, 0, false, false);
  }

  // ---------------------------------------------------------------------------
  // Lines outside lists

  lemma SplitLast<T>(b: seq<T>)
    requires |b| > 0
    ensures b == b[..|b| - 1] + [b[|b| - 1]]
  {
  }

  lemma {:induction false} EmitAppend(a: seq<Out>, b: seq<Out>)
    ensures Emit(a + b) == Emit(a) + Emit(b)
    decreases |b|
  {
    if |b| == 0 {
      assert a + b == a;
    } else {
      var b' := b[..|b| - 1];
      var o := b[|b| - 1];
      EmitAppend(a, b');
      SplitLast(b);
      assert a + b == (a + b') + [o];
      EmitSnoc(a + b', o);
      EmitSnoc(b', o);
      AppendAssoc(Emit(a), Emit(b'), Render(o));
    }
  }

  /** The text as a reader would expect it with no list lines in it: every
      non-blank line followed by `\n`, the blank lines dropped. */
  function Copied(lines: seq<string>, i: nat): string
    requires i <= |lines|
    decreases |lines| - i
  {
    if i == |lines| then ""
    else (if IsBlank(lines[i]) then "" else lines[i] + "\n") + Copied(lines, i + 1)
  }

  /** Outside lists, a line that is not a list line gives nothing when blank
      and itself otherwise. */
  lemma TurnOutsideLists(lines: seq<string>, i: nat)
    requires i < |lines| && !IsOrderedItem(lines[i]) && !IsUnorderedItem(lines[i])
    ensures Turn(lines, i, false, false)
            == (if IsBlank(lines[i]) then [] else [Text(lines[i])], i + 1, false, false)
  {
    var line := lines[i];
    assert Closes(false, false) == [];
    if IsBlank(line) {
      assert Classify(line) == Blank;
    } else {
      assert Classify(line) == Plain;
      assert Closes(false, false) + [Text(line)] == [Text(line)];
    }
  }

  lemma EmitText(line: string)
    ensures Emit([Text(line)]) == line + "\n"
  {
    EmitSnoc([], Text(line));
    assert [] + [Text(line)] == [Text(line)];
  }

  /** Without list lines the block pass drops the blank lines and copies every
      other line verbatim with a `\n`. */
  lemma {:induction false} NoListLinesCopied(lines: seq<string>, i: nat)
    requires i <= |lines|
    requires forall k :: i <= k < |lines| ==> !IsOrderedItem(lines[k]) && !IsUnorderedItem(lines[k])
    ensures Emit(Blocks(lines, i, false, false)) == Copied(lines, i)
    decreases |lines| - i
  {
    if i < |lines| {
      var line := lines[i];
      var rest := Blocks(lines, i + 1, false, false);
      var outs := if IsBlank(line) then [] else [Text(line)];
      TurnOutsideLists(lines, i);
      assert Blocks(lines, i, false, false) == outs + rest;
      NoListLinesCopied(lines, i + 1);
      EmitAppend(outs, rest);
      if !IsBlank(line) {
        EmitText(line);
      }
    }
  }

  // ---------------------------------------------------------------------------
  // One item per list line

  function IsListLine(line: string): bool {
    Classify(line).Ordered? || Classify(line).Unordered?
  }

  /** Number of list lines from `i` on. */
  function ListLines(lines: seq<string>, i: nat): nat
    requires i <= |lines|
    decreases |lines| - i
  {
    if i == |lines| then 0 else (if IsListLine(lines[i]) then 1 else 0) + ListLines(lines, i + 1)
  }

  /** Number of items in a run of output. */
  function Items(outs: seq<Out>): nat {
    if |outs| == 0 then 0 else (if outs[0].Item? then 1 else 0) + Items(outs[1..])
  }

  lemma {:induction false} ItemsAppend(a: seq<Out>, b: seq<Out>)
    ensures Items(a + b) == Items(a) + Items(b)
  {
    if |a| > 0 {
      assert (a + b)[0] == a[0];
      assert (a + b)[1..] == a[1..] + b;
      ItemsAppend(a[1..], b);
      assert Items(a + b) == (if a[0].Item? then 1 else 0) + Items(a[1..] + b);
    } else {
      assert a + b == b;
    }
  }

  lemma ItemsSingle(o: Out)
    ensures Items([o]) == if o.Item? then 1 else 0
  {
    assert [o][1..] == [];
  }

  /** Opening and closing lists gives no item. */
  lemma ListMarksHaveNoItems(ol: bool, ul: bool)
    ensures Items(Closes(ol, ul)) == 0
    ensures Items(OpenOrdered(ol, ul)) == 0 && Items(OpenUnordered(ol, ul)) == 0
  {
    var c1: seq<Out> := if ol then [CloseOl] else [];
    var c2: seq<Out> := if ul then [CloseUl] else [];
    ItemsSingle(CloseOl);
    ItemsSingle(CloseUl);
    ItemsSingle(OpenOl);
    ItemsSingle(OpenUl);
    ItemsAppend(c1, c2);
    ItemsAppend(c2, [OpenOl]);
    ItemsAppend(c1, [OpenUl]);
  }

  lemma ContinuesIsNoListLine(line: string)
    requires Continues(line)
    ensures !IsListLine(line)
  {
  }

  /** Continuation lines are never list lines, so skipping them skips no
      item. */
  lemma {:induction false} SkipContinuations(lines: seq<string>, a: nat)
    requires a <= |lines|
    ensures ListLines(lines, a) == ListLines(lines, ContEnd(lines, a))
    decreases |lines| - a
  {
    if a < |lines| && Continues(lines[a]) {
      ContinuesIsNoListLine(lines[a]);
      SkipContinuations(lines, a + 1);
    }
  }

  /** A list line gives one item and swallows only continuation lines. */
  lemma ItemTurn(lines: seq<string>, i: nat, ol: bool, ul: bool, pre: seq<Out>, text: string)
    requires i < |lines| && IsListLine(lines[i])
    requires Turn(lines, i, ol, ul).0 == pre + [Item(text)] && Items(pre) == 0
    ensures var t := Turn(lines, i, ol, ul);
            Items(t.0) + ListLines(lines, t.1) == ListLines(lines, i)
  {
    var j := ContEnd(lines, i + 1);
    assert Turn(lines, i, ol, ul).1 == j;
    SkipContinuations(lines, i + 1);
    ItemsAppend(pre, [Item(text)]);
    ItemsSingle(Item(text));
  }

  lemma TurnItems(lines: seq<string>, i: nat, ol: bool, ul: bool)
    requires i < |lines|
    ensures var t := Turn(lines, i, ol, ul);
            Items(t.0) + ListLines(lines, t.1) == ListLines(lines, i)
  {
    ListMarksHaveNoItems(ol, ul);
    var line := lines[i];
    match Classify(line)
    case Blank =>
    case Plain =>
      ItemsAppend(Closes(ol, ul), [Text(line)]);
      ItemsSingle(Text(line));
    case Ordered(c) =>
      var j := ContEnd(lines, i + 1);
      ItemTurn(lines, i, ol, ul, OpenOrdered(ol, ul), c + ContText(lines, i + 1, j));
    case Unordered(c) =>
      var j := ContEnd(lines, i + 1);
      ItemTurn(lines, i, ol, ul, OpenUnordered(ol, ul), c + ContText(lines, i + 1, j));
  }

  /** Every numbered or bulleted line gives exactly one `<li>`, and no other
      line gives one: continuation lines join the item before them. */
  lemma {:induction false} OneItemPerListLine(lines: seq<string>, i: nat, ol: bool, ul: bool)
    requires i <= |lines|
    ensures Items(Blocks(lines, i, ol, ul)) == ListLines(lines, i)
    decreases |lines| - i
  {
    if i == |lines| {
      ListMarksHaveNoItems(ol, ul);
    } else {
      var t := Turn(lines, i, ol, ul);
      TurnItems(lines, i, ol, ul);
      OneItemPerListLine(lines, t.1, t.2, t.3);
      ItemsAppend(t.0, Blocks(lines, t.1, t.2, t.3));
    }
  }
}
