/** `markdownToHtml` of src/parser.ts: the text is cut into lines, a block pass
    with two list flags turns numbered and bulleted lines into `<ol>`/`<ul>`
    items and copies every other non-blank line, then bold and italic markers
    are substituted, the typographic apostrophe is straightened and the result
    is trimmed. */
module Markdown {
  import opened Strings
  import opened Inline

  // ---------------------------------------------------------------------------
  // Lines: `markdown.split('\n')`

  function SplitLines(s: string): (lines: seq<string>)
    ensures |lines| > 0
    ensures forall i :: 0 <= i < |lines| ==> '\n' !in lines[i]
  {
    if |s| == 0 then [""]
    else
      var rest := SplitLines(s[1..]);
      if s[0] == '\n' then [""] + rest
      else [[s[0]] + rest[0]] + rest[1..]
  }

  /** Joining the lines with `\n` gives the text back. */
  lemma {:induction false} JoinSplitLines(s: string)
    ensures Join(SplitLines(s), "\n") == s
  {
    if |s| > 0 {
      var rest := SplitLines(s[1..]);
      JoinSplitLines(s[1..]);
      if s[0] == '\n' {
        assert ([""] + rest)[1..] == rest;
      } else {
        var r := [[s[0]] + rest[0]] + rest[1..];
        assert r[1..] == rest[1..];
        if |rest| > 1 {
          assert Join(rest, "\n") == rest[0] + "\n" + Join(rest[1..], "\n");
        }
        assert s == [s[0]] + s[1..];
      }
    }
  }

  lemma {:induction false} SplitLinesOfLine(a: string)
    requires '\n' !in a
    ensures SplitLines(a) == [a]
  {
    if |a| > 0 {
      assert '\n' !in a[1..] by { assert forall i :: 0 <= i < |a[1..]| ==> a[1..][i] == a[i + 1]; }
      SplitLinesOfLine(a[1..]);
      assert a == [a[0]] + a[1..];
    }
  }

  lemma {:induction false} SplitLinesCons(a: string, b: string)
    requires '\n' !in a
    ensures SplitLines(a + "\n" + b) == [a] + SplitLines(b)
  {
    var s := a + "\n" + b;
    if |a| == 0 {
      assert s[1..] == b;
    } else {
      assert '\n' !in a[1..] by { assert forall i :: 0 <= i < |a[1..]| ==> a[1..][i] == a[i + 1]; }
      SplitLinesCons(a[1..], b);
      assert s[1..] == a[1..] + "\n" + b;
      assert a == [a[0]] + a[1..];
    }
  }

  /** Cutting lines joined with `\n` gives the lines back, when none of them
      holds a `\n`. */
  lemma {:induction false} SplitJoinLines(ls: seq<string>)
    requires |ls| > 0
    requires forall i :: 0 <= i < |ls| ==> '\n' !in ls[i]
    ensures SplitLines(Join(ls, "\n")) == ls
  {
    if |ls| == 1 {
      SplitLinesOfLine(ls[0]);
    } else {
      SplitJoinLines(ls[1..]);
      SplitLinesCons(ls[0], Join(ls[1..], "\n"));
      assert ls == [ls[0]] + ls[1..];
    }
  }

  // ---------------------------------------------------------------------------
  // Line classes

  function LeadingDigits(s: string): (n: nat)
    ensures n <= |s|
  {
    if |s| > 0 && IsDigit(s[0]) then 1 + LeadingDigits(s[1..]) else 0
  }

  function LeadingLetters(s: string): (n: nat)
    ensures n <= |s|
  {
    if |s| > 0 && IsAsciiLetter(s[0]) then 1 + LeadingLetters(s[1..]) else 0
  }

  /** `/^\d+\.\s+/` on the trimmed line. */
  predicate IsOrderedItem(line: string) {
    var t := Trim(line);
    var d := LeadingDigits(t);
    0 < d && d + 1 < |t| && t[d] == '.' && IsSpace(t[d + 1])
  }

  /** `/^[-*]\s+/` on the trimmed line. */
  predicate IsUnorderedItem(line: string) {
    var t := Trim(line);
    2 <= |t| && (t[0] == '-' || t[0] == '*') && IsSpace(t[1])
  }

  /** `/^[A-Za-z]+:/` on the line as it stands (not trimmed). */
  predicate IsLabelLine(line: string) {
    var k := LeadingLetters(line);
    0 < k < |line| && line[k] == ':'
  }

  predicate IsBlank(line: string) {
    Trim(line) == ""
  }

  /** The item text of an ordered line: the trimmed line without its number,
      dot and the white space after them. */
  function OrderedContent(line: string): string
    requires IsOrderedItem(line)
  {
    var t := Trim(line);
    var d := LeadingDigits(t);
    t[d + 1 + LeadingSpaces(t[d + 1..])..]
  }

  /** The item text of a bulleted line: the trimmed line without its marker
      and the white space after it. */
  function UnorderedContent(line: string): string
    requires IsUnorderedItem(line)
  {
    var t := Trim(line);
    t[1 + LeadingSpaces(t[1..])..]
  }

  /** How the loop treats a line: blank (`line.trim() === ''`), a numbered
      item, a bulleted item (each with its item text), or any other line. The
      tests are made in this order. */
  datatype LineKind = Blank | Ordered(content: string) | Unordered(content: string) | Plain

  function Classify(line: string): LineKind {
    if IsBlank(line) then Blank
    else if IsOrderedItem(line) then Ordered(OrderedContent(line))
    else if IsUnorderedItem(line) then Unordered(UnorderedContent(line))
    else Plain
  }

  /** A line that the `while` after a list item appends to that item: not
      blank, not an item of either kind, not starting with `Letters:`. */
  predicate Continues(line: string) {
    Classify(line).Plain? && !IsLabelLine(line)
  }

  /** First index at or after `j` whose line does not continue the item. */
  function ContEnd(lines: seq<string>, j: nat): (r: nat)
    requires j <= |lines|
    ensures j <= r <= |lines|
    decreases |lines| - j
  {
    if j < |lines| && Continues(lines[j]) then ContEnd(lines, j + 1) else j
  }

  /** The continuation lines of an item all continue it, and the line that
      ends the run does not. */
  lemma {:induction false} ContEndSpec(lines: seq<string>, j: nat)
    requires j <= |lines|
    ensures var r := ContEnd(lines, j);
            && (forall k {:trigger Continues(lines[k])} :: j <= k < r ==> Continues(lines[k]))
            && (r < |lines| ==> !Continues(lines[r]))
  {
    ContEndRun(lines, j);
    ContEndStops(lines, j);
  }

  lemma {:induction false} ContEndRun(lines: seq<string>, j: nat)
    requires j <= |lines|
    ensures forall k {:trigger Continues(lines[k])} :: j <= k < ContEnd(lines, j) ==> Continues(lines[k])
    decreases |lines| - j
  {
    if j < |lines| && Continues(lines[j]) {
      ContEndRun(lines, j + 1);
    }
  }

  lemma {:induction false} ContEndStops(lines: seq<string>, j: nat)
    requires j <= |lines|
    ensures ContEnd(lines, j) < |lines| ==> !Continues(lines[ContEnd(lines, j)])
    decreases |lines| - j
  {
    if j < |lines| && Continues(lines[j]) {
      ContEndStops(lines, j + 1);
    }
  }

  /** `' ' + lines[k].trim()` for each continuation line in `[lo, hi)`. */
  function ContText(lines: seq<string>, lo: nat, hi: nat): string
    requires lo <= hi <= |lines|
    decreases hi - lo
  {
    if hi == lo then "" else ContText(lines, lo, hi - 1) + (" " + Trim(lines[hi - 1]))
  }

  // ---------------------------------------------------------------------------
  // The block pass

  /** What the block pass appends to `htmlContent`, one piece at a time. */
  datatype Out = OpenOl | CloseOl | OpenUl | CloseUl | Item(text: string) | Text(line: string)

  function Render(o: Out): string {
    match o
    case OpenOl => "<ol>\n"
    case CloseOl => "</ol>\n"
    case OpenUl => "<ul>\n"
    case CloseUl => "</ul>\n"
    case Item(t) => "  <li>" + t + "</li>\n"
    case Text(l) => l + "\n"
  }

  function Emit(outs: seq<Out>): string {
    if |outs| == 0 then "" else Emit(outs[..|outs| - 1]) + Render(outs[|outs| - 1])
  }

  lemma EmitSnoc(outs: seq<Out>, o: Out)
    ensures Emit(outs + [o]) == Emit(outs) + Render(o)
  {
    assert (outs + [o])[..|outs|] == outs;
  }

  /** The lists still open, closed in the order the source closes them. */
  function Closes(ol: bool, ul: bool): seq<Out> {
    (if ol then [CloseOl] else []) + (if ul then [CloseUl] else [])
  }

  /** Before a numbered item: nothing when an `<ol>` is open, otherwise the
      `<ul>` is closed if open and an `<ol>` opened. */
  function OpenOrdered(ol: bool, ul: bool): seq<Out> {
    if ol then [] else (if ul then [CloseUl] else []) + [OpenOl]
  }

  /** Before a bulleted item: nothing when a `<ul>` is open, otherwise the
      `<ol>` is closed if open and a `<ul>` opened. */
  function OpenUnordered(ol: bool, ul: bool): seq<Out> {
    if ul then [] else (if ol then [CloseOl] else []) + [OpenUl]
  }

  /** One turn of the loop at line `i`, with the two flags as they stand: what
      it appends, the next line to look at, and the new flags. */
  function Turn(lines: seq<string>, i: nat, ol: bool, ul: bool): (r: (seq<Out>, nat, bool, bool))
    requires i < |lines|
    ensures i < r.1 <= |lines|
  {
    var line := lines[i];
    match Classify(line)
    case Blank => (Closes(ol, ul), i + 1, false, false)
    case Ordered(c) =>
      var j := ContEnd(lines, i + 1);
      (OpenOrdered(ol, ul) + [Item(c + ContText(lines, i + 1, j))], j, true, ol && ul)
    case Unordered(c) =>
      var j := ContEnd(lines, i + 1);
      (OpenUnordered(ol, ul) + [Item(c + ContText(lines, i + 1, j))], j, ul && ol, true)
    case Plain => (Closes(ol, ul) + [Text(line)], i + 1, false, false)
  }

  /** The pieces the block pass appends from line `i` on; at the end the lists
      still open are closed. */
  function Blocks(lines: seq<string>, i: nat, ol: bool, ul: bool): seq<Out>
    requires i <= |lines|
    decreases |lines| - i
  {
    if i == |lines| then Closes(ol, ul)
    else
      var t := Turn(lines, i, ol, ul);
      t.0 + Blocks(lines, t.1, t.2, t.3)
  }

  lemma AppendAssoc(a: string, b: string, c: string)
    ensures a + b + c == a + (b + c)
  {
  }

  lemma RenderItemAfter(html: string, content: string, cont: string)
    ensures html + "  <li>" + content + cont + "</li>\n" == html + Render(Item(content + cont))
  {
  }

  /** The `while` that follows a list item: appends ` ` and the trimmed line
      for each continuation line, and returns the index of the first line
      that does not continue the item. */
  method AppendContinuations(lines: seq<string>, i: nat, html: string) returns (html': string, j: nat)
    requires i < |lines|
    ensures j == ContEnd(lines, i + 1)
    ensures html' == html + ContText(lines, i + 1, j)
  {
    j := i + 1;
    html' := html;
    while j < |lines| && Continues(lines[j])
      invariant i + 1 <= j <= |lines|
      invariant ContEnd(lines, j) == ContEnd(lines, i + 1)
      invariant html' == html + ContText(lines, i + 1, j)
      decreases |lines| - j
    {
      ghost var c := ContText(lines, i + 1, j);
      var piece := " " + Trim(lines[j]);
      assert ContEnd(lines, j) == ContEnd(lines, j + 1);
      assert ContText(lines, i + 1, j + 1) == c + piece;
      AppendAssoc(html, c, piece);
      html' := html' + piece;
      j := j + 1;
    }
  }

  /** Appends one list item: `<li>` and its text, its continuation lines, then
      `</li>`. Returns the index of the first line after the item. */
  method AppendItem(lines: seq<string>, i: nat, html: string, itemContent: string)
    returns (html': string, j: nat)
    requires i < |lines|
    ensures j == ContEnd(lines, i + 1)
    ensures html' == html + Render(Item(itemContent + ContText(lines, i + 1, j)))
  {
    html' := html + "  <li>" + itemContent;
    html', j := AppendContinuations(lines, i, html');
    RenderItemAfter(html, itemContent, ContText(lines, i + 1, j));
    html' := html' + "</li>\n";
  }

  lemma OutsAssoc(a: seq<Out>, b: seq<Out>, c: seq<Out>)
    ensures a + (b + c) == a + b + c
  {
  }

  /** Appends `</ol>` and `</ul>` for the lists that are open. */
  method CloseLists(html: string, inOrderedList: bool, inUnorderedList: bool, ghost done: seq<Out>)
    returns (html': string, ghost done': seq<Out>)
    requires html == Emit(done)
    ensures done' == done + Closes(inOrderedList, inUnorderedList) && html' == Emit(done')
  {
    html', done' := html, done;
    if inOrderedList {
      EmitSnoc(done', CloseOl);
      html' := html' + "</ol>\n";
      done' := done' + [CloseOl];
    }
    if inUnorderedList {
      EmitSnoc(done', CloseUl);
      html' := html' + "</ul>\n";
      done' := done' + [CloseUl];
    }
  }

  /** Before a numbered item: unless an `<ol>` is open, closes an open `<ul>`
      and opens an `<ol>`. */
  method OpenOrderedList(html: string, inOrderedList: bool, inUnorderedList: bool, ghost done: seq<Out>)
    returns (html': string, ol: bool, ul: bool, ghost done': seq<Out>)
    requires html == Emit(done)
    ensures done' == done + OpenOrdered(inOrderedList, inUnorderedList) && html' == Emit(done')
    ensures ol && (ul == (inOrderedList && inUnorderedList))
  {
    html', ol, ul, done' := html, inOrderedList, inUnorderedList, done;
    if !ol {
      if ul {
        EmitSnoc(done', CloseUl);
        html' := html' + "</ul>\n";
        done' := done' + [CloseUl];
        ul := false;
      }
      EmitSnoc(done', OpenOl);
      html' := html' + "<ol>\n";
      done' := done' + [OpenOl];
      ol := true;
    }
  }

  /** Before a bulleted item: unless a `<ul>` is open, closes an open `<ol>`
      and opens a `<ul>`. */
  method OpenUnorderedList(html: string, inOrderedList: bool, inUnorderedList: bool, ghost done: seq<Out>)
    returns (html': string, ol: bool, ul: bool, ghost done': seq<Out>)
    requires html == Emit(done)
    ensures done' == done + OpenUnordered(inOrderedList, inUnorderedList) && html' == Emit(done')
    ensures ul && (ol == (inUnorderedList && inOrderedList))
  {
    html', ol, ul, done' := html, inOrderedList, inUnorderedList, done;
    if !ul {
      if ol {
        EmitSnoc(done', CloseOl);
        html' := html' + "</ol>\n";
        done' := done' + [CloseOl];
        ol := false;
      }
      EmitSnoc(done', OpenUl);
      html' := html' + "<ul>\n";
      done' := done' + [OpenUl];
      ul := true;
    }
  }

  /** A numbered or bulleted line: opens its list if needed, then appends the
      item with its continuation lines. */
  method ItemLine(lines: seq<string>, i: nat, html: string, inOrderedList: bool, inUnorderedList: bool,
                  ghost done: seq<Out>)
    returns (html': string, next: nat, ol: bool, ul: bool, ghost done': seq<Out>)
    requires i < |lines| && html == Emit(done)
    requires Classify(lines[i]).Ordered? || Classify(lines[i]).Unordered?
    ensures var t := Turn(lines, i, inOrderedList, inUnorderedList);
            && done' == done + t.0 && html' == Emit(done')
            && next == t.1 && ol == t.2 && ul == t.3
  {
    var kind := Classify(lines[i]);
    ghost var opening;
    if kind.Ordered? {
      html', ol, ul, done' := OpenOrderedList(html, inOrderedList, inUnorderedList, done);
      opening := OpenOrdered(inOrderedList, inUnorderedList);
    } else {
      html', ol, ul, done' := OpenUnorderedList(html, inOrderedList, inUnorderedList, done);
      opening := OpenUnordered(inOrderedList, inUnorderedList);
    }
    var itemContent := kind.content;
    ghost var withList := done';
    html', next := AppendItem(lines, i, html', itemContent);
    var item := Item(itemContent + ContText(lines, i + 1, next));
    EmitSnoc(withList, item);
    done' := withList + [item];
    OutsAssoc(done, opening, [item]);
  }

  /** Any other non-blank line: closes the open lists and is copied with a
      `\n`. */
  method PlainLine(lines: seq<string>, i: nat, html: string, inOrderedList: bool, inUnorderedList: bool,
                   ghost done: seq<Out>)
    returns (html': string, ghost done': seq<Out>)
    requires i < |lines| && html == Emit(done)
    ensures done' == done + (Closes(inOrderedList, inUnorderedList) + [Text(lines[i])]) && html' == Emit(done')
  {
    var line := lines[i];
    html', done' := CloseLists(html, inOrderedList, inUnorderedList, done);
    EmitSnoc(done', Text(line));
    html' := html' + line + "\n";
    OutsAssoc(done, Closes(inOrderedList, inUnorderedList), [Text(line)]);
    done' := done' + [Text(line)];
  }

  /** The body of the `for` loop of `markdownToHtml` for line `i`: a blank line
      closes the open lists; a numbered or bulleted line opens its list if
      needed (closing the other kind) and appends one item with its
      continuation lines; any other line closes the open lists and is copied
      with a `\n`. */
  method LoopBody(lines: seq<string>, i: nat, html: string, inOrderedList: bool, inUnorderedList: bool,
                  ghost done: seq<Out>)
    returns (html': string, next: nat, ol: bool, ul: bool, ghost done': seq<Out>)
    requires i < |lines| && html == Emit(done)
    ensures var t := Turn(lines, i, inOrderedList, inUnorderedList);
            && done' == done + t.0 && html' == Emit(done')
            && next == t.1 && ol == t.2 && ul == t.3
  {
    var kind := Classify(lines[i]);
    if kind.Blank? {
      html', done' := CloseLists(html, inOrderedList, inUnorderedList, done);
      ol, ul := false, false;
      next := i + 1;
    } else if kind.Ordered? || kind.Unordered? {
      html', next, ol, ul, done' := ItemLine(lines, i, html, inOrderedList, inUnorderedList, done);
    } else {
      html', done' := PlainLine(lines, i, html, inOrderedList, inUnorderedList, done);
      ol, ul := false, false;
      next := i + 1;
    }
  }

  /** One turn of the loop keeps the blocks emitted so far followed by the
      blocks still to come equal to all the blocks. */
  lemma BlocksAdvance(lines: seq<string>, i: nat, ol: bool, ul: bool, done: seq<Out>, all: seq<Out>)
    requires i < |lines| && done + Blocks(lines, i, ol, ul) == all
    ensures var t := Turn(lines, i, ol, ul);
            (done + t.0) + Blocks(lines, t.1, t.2, t.3) == all
  {
    var t := Turn(lines, i, ol, ul);
    OutsAssoc(done, t.0, Blocks(lines, t.1, t.2, t.3));
  }

  /** The `for` loop of `markdownToHtml` over the lines, then the closing of
      the lists left open. */
  method BlockPass(lines: seq<string>) returns (html: string)
    ensures html == Emit(Blocks(lines, 0, false, false))
  {
    html := "";
    var inOrderedList := false;
    var inUnorderedList := false;
    ghost var done: seq<Out> := [];
    var i := 0;
    while i < |lines|
      invariant 0 <= i <= |lines|
      invariant html == Emit(done)
      invariant !(inOrderedList && inUnorderedList)
      invariant done + Blocks(lines, i, inOrderedList, inUnorderedList) == Blocks(lines, 0, false, false)
      decreases |lines| - i
    {
      ghost var before := done;
      ghost var (i0, ol0, ul0) := (i, inOrderedList, inUnorderedList);
      html, i, inOrderedList, inUnorderedList, done := LoopBody(lines, i, html, inOrderedList, inUnorderedList, done);
      BlocksAdvance(lines, i0, ol0, ul0, before, Blocks(lines, 0, false, false));
    }
    html, done := CloseLists(html, inOrderedList, inUnorderedList, done);
  }

  // ---------------------------------------------------------------------------
  // The whole conversion

  /** What `markdownToHtml` returns: the block pass over the lines, then
      `**…**` to `<b>…</b>`, `*…*` and `_…_` to `<i>…</i>` in that order, the
      typographic apostrophe straightened, and white space trimmed off. */
  function Html(markdown: string): string {
    var blocks := Emit(Blocks(SplitLines(markdown), 0, false, false));
    var bold := ReplaceDelimited(blocks, "**", "<b>", "</b>");
    var italic := ReplaceDelimited(bold, "*", "<i>", "</i>");
    var underscored := ReplaceDelimited(italic, "_", "<i>", "</i>");
    Trim(Straighten(underscored))
  }

  /** `markdownToHtml`. */
  method MarkdownToHtml(markdown: string) returns (html: string)
    ensures html == Html(markdown)
  {
    var lines := SplitLines(markdown);
    html := BlockPass(lines);
    html := ReplaceDelimited(html, "**", "<b>", "</b>");
    html := ReplaceDelimited(html, "*", "<i>", "</i>");
    html := ReplaceDelimited(html, "_", "<i>", "</i>");
    html := Trim(Straighten(html));
  }

  /** The result has no white space at either end and no typographic
      apostrophe left. */
  lemma HtmlIsTrimmedAndStraight(markdown: string)
    ensures IsTrimmed(Html(markdown)) && '’' !in Html(markdown)
  {
    var blocks := Emit(Blocks(SplitLines(markdown), 0, false, false));
    var bold := ReplaceDelimited(blocks, "**", "<b>", "</b>");
    var italic := ReplaceDelimited(bold, "*", "<i>", "</i>");
    var underscored := ReplaceDelimited(italic, "_", "<i>", "</i>");
    var x := Straighten(underscored);
    TrimSpec(x);
    var r := Trim(x);
    var i := LeadingSpaces(x);
    forall m | 0 <= m < |r| ensures r[m] != '’' {
      assert r[m] == x[i + m];
    }
  }
}
