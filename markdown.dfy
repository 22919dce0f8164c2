/**
 * The markdown renderer: a single pass over the lines of the text that keeps
 * three flags (inside an unordered list, inside an ordered list, inside a code
 * block) and a buffer of code lines, and emits the output lines one record at
 * a time.
 *
 * The records are tagged (Record) so that properties can speak of list tags
 * and code lines as such; Record.Html() is the string the renderer appends.
 * A list item and a plain line keep their text before inline formatting, and
 * Html() applies InlineFormat.FormatInline to it.
 * RenderFrom is the renderer as a function over the state, and
 * ConvertMarkdownToHtml is the renderer as the loop that the utilities run,
 * proved to produce the same text.
 */
module Markdown {
  import opened Strings
  import opened InlineFormat

  datatype ListKind = Unordered | Ordered

  datatype HeadingLevel = H1 | H2 | H3

  datatype Record =
    | ListOpen(kind: ListKind)
    | ListClose(kind: ListKind)
    | ListItem(kind: ListKind, item: string)
    | Heading(level: HeadingLevel, title: string)
    | Plain(source: string)
    | CodeOpen
    | CodeLine(text: string)
    | CodeClose
  {
    /** The output line this record stands for. */
    function Html(): string {
      match this
      case ListOpen(k) => if k == Unordered then "<ul>" else "<ol>"
      case ListClose(k) => if k == Unordered then "</ul>" else "</ol>"
      case ListItem(_, c) => "<li>" + FormatInline(c) + "</li>"
      case Heading(H1, t) => "<h1>" + t + "</h1>"
      case Heading(H2, t) => "<h2>" + t + "</h2>"
      case Heading(H3, t) => "<h3>" + t + "</h3>"
      case Plain(t) => FormatInline(t)
      case CodeOpen => "<pre><code>"
      case CodeLine(t) => t
      case CodeClose => "</code></pre>"
    }

    predicate IsCode() {
      CodeOpen? || CodeLine? || CodeClose?
    }
  }

  /** The output lines of a sequence of records. */
  function Texts(rs: seq<Record>): seq<string>
    decreases |rs|
  {
    if rs == [] then [] else [rs[0].Html()] + Texts(rs[1..])
  }

  lemma {:induction false} TextsAppend(a: seq<Record>, b: seq<Record>)
    ensures Texts(a + b) == Texts(a) + Texts(b)
    decreases |a|
  {
    if a == [] {
      assert a + b == b;
    } else {
      assert (a + b)[1..] == a[1..] + b;
      TextsAppend(a[1..], b);
    }
  }

  /** The records of the lines of a code block. */
  function CodeLines(lines: seq<string>): seq<Record>
    decreases |lines|
  {
    if lines == [] then [] else [CodeLine(lines[0])] + CodeLines(lines[1..])
  }

  lemma {:induction false} TextsOfCodeLines(lines: seq<string>)
    ensures Texts(CodeLines(lines)) == lines
    decreases |lines|
  {
    if lines != [] {
      TextsOfCodeLines(lines[1..]);
      assert ([CodeLine(lines[0])] + CodeLines(lines[1..]))[1..] == CodeLines(lines[1..]);
    }
  }

  /** The renderer's transient state. */
  datatype RenderState = RenderState(inUl: bool, inOl: bool, inCodeBlock: bool, codeBlockContent: seq<string>)

  const Initial := RenderState(false, false, false, [])

  // ---------------------------------------------------------------------------
  // Line classification.
  // ---------------------------------------------------------------------------

  /** A line whose trimmed form starts with three backticks opens or closes a code block. */
  predicate IsFence(line: string) {
    StartsWith(Strip(line), "```")
  }

  /** stripped.startswith("- ") or stripped.startswith("* "). */
  predicate IsUnorderedItem(stripped: string) {
    StartsWith(stripped, "- ") || StartsWith(stripped, "* ")
  }

  /** The length of the run of digits that starts s. */
  function DigitRun(s: string): (n: nat)
    ensures n <= |s|
    ensures forall j :: 0 <= j < n ==> IsDigit(s[j])
    ensures n < |s| ==> !IsDigit(s[n])
    decreases |s|
  {
    if |s| > 0 && IsDigit(s[0]) then 1 + DigitRun(s[1..]) else 0
  }

  /** re.match(r"^\d+\. ", stripped). */
  predicate IsOrderedItem(stripped: string) {
    var n := DigitRun(stripped);
    n >= 1 && n + 2 <= |stripped| && stripped[n] == '.' && stripped[n + 1] == ' '
  }

  /** re.sub(r"^\d+\. ", "", stripped) on a line that matched. */
  function OrderedItemContent(stripped: string): string
    requires IsOrderedItem(stripped)
  {
    stripped[DigitRun(stripped) + 2..]
  }

  /** A line that is not a list item: a header (no inline formatting) or the line itself, formatted. */
  function RegularLine(line: string): Record {
    var t := Strip(line);
    if StartsWith(t, "### ") then Heading(H3, t[4..])
    else if StartsWith(t, "## ") then Heading(H2, t[3..])
    else if StartsWith(t, "# ") then Heading(H1, t[2..])
    else Plain(line)
  }

  /** The record a line outside a code block produces, besides any list tags. */
  function ClassifyLine(line: string): Record {
    var t := Strip(line);
    if IsUnorderedItem(t) then ListItem(Unordered, t[2..])
    else if IsOrderedItem(t) then ListItem(Ordered, OrderedItemContent(t))
    else RegularLine(line)
  }

  // ---------------------------------------------------------------------------
  // The renderer as a function.
  // ---------------------------------------------------------------------------

  datatype StepResult = StepResult(next: RenderState, out: seq<Record>)

  /** Before an item of kind `k`: close the list of the other kind if it is open, then open one of kind `k` unless it is open. */
  function EnterList(st: RenderState, k: ListKind): seq<Record> {
    if k == Unordered then
      (if st.inOl then [ListClose(Ordered)] else []) + (if !st.inUl then [ListOpen(Unordered)] else [])
    else
      (if st.inUl then [ListClose(Unordered)] else []) + (if !st.inOl then [ListOpen(Ordered)] else [])
  }

  /** Before a line that is not a list item: close whichever lists are open. */
  function CloseLists(st: RenderState): seq<Record> {
    (if st.inUl then [ListClose(Unordered)] else []) + (if st.inOl then [ListClose(Ordered)] else [])
  }

  /** One iteration of the renderer's loop. */
  function Step(st: RenderState, line: string): StepResult {
    if IsFence(line) then
      if !st.inCodeBlock then StepResult(st.(inCodeBlock := true, codeBlockContent := []), [])
      else StepResult(st.(inCodeBlock := false), [CodeOpen] + CodeLines(st.codeBlockContent) + [CodeClose])
    else if st.inCodeBlock then
      StepResult(st.(codeBlockContent := st.codeBlockContent + [line]), [])
    else
      var r := ClassifyLine(line);
      if r.ListItem? then
        StepResult(st.(inUl := r.kind == Unordered, inOl := r.kind == Ordered), EnterList(st, r.kind) + [r])
      else
        StepResult(st.(inUl := false, inOl := false), CloseLists(st) + [r])
  }

  /** After the last line: close any open list, then flush an unterminated code block. */
  function Finish(st: RenderState): seq<Record> {
    CloseLists(st) +
    (if st.inCodeBlock then [CodeOpen] + CodeLines(st.codeBlockContent) + [CodeClose] else [])
  }

  function RenderFrom(st: RenderState, lines: seq<string>): seq<Record>
    decreases |lines|
  {
    if lines == [] then Finish(st)
    else
      var r := Step(st, lines[0]);
      r.out + RenderFrom(r.next, lines[1..])
  }

  function Lines(text: string): seq<string> {
    Split(text, '\n')
  }

  /** The records the renderer emits for a text. */
  function Records(text: string): seq<Record> {
    RenderFrom(Initial, Lines(text))
  }

  /** The renderer's output: the emitted records joined with "\n". */
  function Render(text: string): string {
    Join(Texts(Records(text)), "\n")
  }

  /** The output lines of a flushed code block. */
  lemma TextsOfCodeBlock(content: seq<string>)
    ensures Texts([CodeOpen] + CodeLines(content) + [CodeClose]) == ["<pre><code>"] + content + ["</code></pre>"]
  {
    TextsAppend([CodeOpen] + CodeLines(content), [CodeClose]);
    TextsAppend([CodeOpen], CodeLines(content));
    TextsOfCodeLines(content);
  }

  // The output lines of one iteration, written as the loop appends them to
  // the lines emitted so far.

  lemma StepLinesFence(st: RenderState, line: string, before: seq<string>)
    requires IsFence(line)
    ensures Step(st, line).next == st.(inCodeBlock := !st.inCodeBlock,
                                       codeBlockContent := if st.inCodeBlock then st.codeBlockContent else [])
    ensures before + Texts(Step(st, line).out) ==
              if st.inCodeBlock then before + ["<pre><code>"] + st.codeBlockContent + ["</code></pre>"] else before
  {
    if st.inCodeBlock {
      TextsOfCodeBlock(st.codeBlockContent);
      assert before + (["<pre><code>"] + st.codeBlockContent + ["</code></pre>"]) ==
             before + ["<pre><code>"] + st.codeBlockContent + ["</code></pre>"];
    } else {
      assert before + [] == before;
    }
  }

  lemma StepLinesCode(st: RenderState, line: string, before: seq<string>)
    requires !IsFence(line) && st.inCodeBlock
    ensures Step(st, line).next == st.(codeBlockContent := st.codeBlockContent + [line])
    ensures before + Texts(Step(st, line).out) == before
  {
    assert before + [] == before;
  }

  lemma StepLinesUnordered(st: RenderState, line: string, before: seq<string>)
    requires !IsFence(line) && !st.inCodeBlock && IsUnorderedItem(Strip(line))
    ensures Step(st, line).next == st.(inUl := true, inOl := false)
    ensures before + Texts(Step(st, line).out) ==
              var closed := if st.inOl then before + ["</ol>"] else before;
              var withOpen := if !st.inUl then closed + ["<ul>"] else closed;
              withOpen + ["<li>" + FormatInline(Strip(line)[2..]) + "</li>"]
  {
    var t := Strip(line);
    var r := ClassifyLine(line);
    assert r == ListItem(Unordered, t[2..]);
    var c := if st.inOl then [ListClose(Ordered)] else [];
    var o := if !st.inUl then [ListOpen(Unordered)] else [];
    assert Step(st, line).out == c + o + [r];
    AppendTexts(before, c + o, [r]);
    AppendTexts(before, c, o);
    assert Texts([r]) == [r.Html()];
    var closed := if st.inOl then before + ["</ol>"] else before;
    assert before + Texts(c) == closed;
    assert closed + Texts(o) == if !st.inUl then closed + ["<ul>"] else closed;
    assert r.Html() == "<li>" + FormatInline(t[2..]) + "</li>";
  }

  lemma StepLinesOrdered(st: RenderState, line: string, before: seq<string>)
    requires !IsFence(line) && !st.inCodeBlock && !IsUnorderedItem(Strip(line)) && IsOrderedItem(Strip(line))
    ensures Step(st, line).next == st.(inUl := false, inOl := true)
    ensures before + Texts(Step(st, line).out) ==
              var closed := if st.inUl then before + ["</ul>"] else before;
              var withOpen := if !st.inOl then closed + ["<ol>"] else closed;
              withOpen + ["<li>" + FormatInline(OrderedItemContent(Strip(line))) + "</li>"]
  {
    var t := Strip(line);
    var r := ClassifyLine(line);
    assert r == ListItem(Ordered, OrderedItemContent(t));
    var c := if st.inUl then [ListClose(Unordered)] else [];
    var o := if !st.inOl then [ListOpen(Ordered)] else [];
    assert Step(st, line).out == c + o + [r];
    AppendTexts(before, c + o, [r]);
    AppendTexts(before, c, o);
    assert Texts([r]) == [r.Html()];
    var closed := if st.inUl then before + ["</ul>"] else before;
    assert before + Texts(c) == closed;
    assert closed + Texts(o) == if !st.inOl then closed + ["<ol>"] else closed;
    assert r.Html() == "<li>" + FormatInline(OrderedItemContent(t)) + "</li>";
  }

  lemma StepLinesRegular(st: RenderState, line: string, before: seq<string>)
    requires !IsFence(line) && !st.inCodeBlock && !IsUnorderedItem(Strip(line)) && !IsOrderedItem(Strip(line))
    ensures Step(st, line).next == st.(inUl := false, inOl := false)
    ensures before + Texts(Step(st, line).out) ==
              var closedUl := if st.inUl then before + ["</ul>"] else before;
              var closedOl := if st.inOl then closedUl + ["</ol>"] else closedUl;
              closedOl + [RegularLine(line).Html()]
  {
    var r := ClassifyLine(line);
    assert r == RegularLine(line);
    assert Step(st, line).out == CloseLists(st) + [r];
    AppendTexts(before, CloseLists(st), [r]);
    CloseListsLines(st, before);
    assert Texts([r]) == [r.Html()];
  }

  /** The closing tags of the open lists, appended one at a time. */
  lemma CloseListsLines(st: RenderState, before: seq<string>)
    ensures before + Texts(CloseLists(st)) ==
              var closedUl := if st.inUl then before + ["</ul>"] else before;
              if st.inOl then closedUl + ["</ol>"] else closedUl
  {
    var u := if st.inUl then [ListClose(Unordered)] else [];
    var o := if st.inOl then [ListClose(Ordered)] else [];
    TextsAppend(u, o);
    assert Texts(u) == if st.inUl then ["</ul>"] else [];
    assert Texts(o) == if st.inOl then ["</ol>"] else [];
  }

  /** Appending the lines of two groups of records is appending the lines of each in turn. */
  lemma AppendTexts(before: seq<string>, a: seq<Record>, b: seq<Record>)
    ensures before + Texts(a + b) == before + Texts(a) + Texts(b)
  {
    TextsAppend(a, b);
  }

  /** The lines of a flushed code block, appended as the renderer appends them. */
  lemma FlushLines(before: seq<string>, content: seq<string>)
    ensures before + Texts([CodeOpen] + CodeLines(content) + [CodeClose]) ==
            before + ["<pre><code>"] + content + ["</code></pre>"]
  {
    TextsOfCodeBlock(content);
  }

  /** The output lines after the last line, written as the renderer appends them. */
  lemma FinishLines(st: RenderState, before: seq<string>)
    ensures before + Texts(Finish(st)) ==
              var closedUl := if st.inUl then before + ["</ul>"] else before;
              var closedOl := if st.inOl then closedUl + ["</ol>"] else closedUl;
              if st.inCodeBlock then closedOl + ["<pre><code>"] + st.codeBlockContent + ["</code></pre>"]
              else closedOl
  {
    var c := if st.inCodeBlock then [CodeOpen] + CodeLines(st.codeBlockContent) + [CodeClose] else [];
    AppendTexts(before, CloseLists(st), c);
    CloseListsLines(st, before);
    if st.inCodeBlock {
      FlushLines(before + Texts(CloseLists(st)), st.codeBlockContent);
    } else {
      assert before + Texts(CloseLists(st)) + Texts([]) == before + Texts(CloseLists(st));
    }
  }

  /** The line a non-list line outside a code block becomes, as the loop computes it. */
  lemma RegularLineHtml(line: string)
    ensures RegularLine(line).Html() ==
              if StartsWith(Strip(line), "### ") then "<h3>" + Strip(line)[4..] + "</h3>"
              else if StartsWith(Strip(line), "## ") then "<h2>" + Strip(line)[3..] + "</h2>"
              else if StartsWith(Strip(line), "# ") then "<h1>" + Strip(line)[2..] + "</h1>"
              else FormatInline(line)
  {
    var t := Strip(line);
    if StartsWith(t, "### ") {
      assert RegularLine(line) == Heading(H3, t[4..]);
    } else if StartsWith(t, "## ") {
      assert RegularLine(line) == Heading(H2, t[3..]);
    } else if StartsWith(t, "# ") {
      assert RegularLine(line) == Heading(H1, t[2..]);
    } else {
      assert RegularLine(line) == Plain(line);
    }
  }

  // ---------------------------------------------------------------------------
  // The renderer as the loop the utilities run.
  // ---------------------------------------------------------------------------

  /**
   * One more line of the loop: once the output so far has grown by the lines
   * of the step's records and the state is the step's next state, the rest of
   * the output still follows.
   */
  lemma Advance(total: seq<string>, before: seq<string>, st: RenderState, lines: seq<string>, i: nat,
                after: seq<string>, next: RenderState)
    requires i < |lines|
    requires total == before + Texts(RenderFrom(st, lines[i..]))
    requires after == before + Texts(Step(st, lines[i]).out)
    requires next == Step(st, lines[i]).next
    ensures total == after + Texts(RenderFrom(next, lines[i + 1..]))
  {
    var step := Step(st, lines[i]);
    var rest := RenderFrom(step.next, lines[i + 1..]);
    RenderFromCons(st, lines, i);
    AppendTexts(before, step.out, rest);
  }

  lemma RenderFromCons(st: RenderState, lines: seq<string>, i: nat)
    requires i < |lines|
    ensures RenderFrom(st, lines[i..]) ==
            Step(st, lines[i]).out + RenderFrom(Step(st, lines[i]).next, lines[i + 1..])
  {
    var tail := lines[i..];
    assert tail != [] && tail[0] == lines[i];
    assert tail[1..] == lines[i + 1..];
  }

  /** After the last line of the loop only the finishing records remain. */
  lemma Conclude(total: seq<string>, before: seq<string>, st: RenderState, lines: seq<string>, i: nat,
                 after: seq<string>)
    requires i == |lines|
    requires total == before + Texts(RenderFrom(st, lines[i..]))
    requires after == before + Texts(Finish(st))
    ensures total == after
  {
    assert lines[i..] == [];
  }

  /**
   * The rest of the loop body of _convert_markdown_to_html, for a line that is
   * neither a fence nor inside a code block: the header or inline formatting of
   * the line, then the list tags and the line itself. Written as a method of
   * its own; `content` is the code buffer, which this part does not touch.
   */
  method ProcessLine(line: string, resultLines: seq<string>, inUl: bool, inOl: bool, ghost content: seq<string>)
    returns (emitted: seq<string>, ul: bool, ol: bool)
    requires !IsFence(line)
    ensures Step(RenderState(inUl, inOl, false, content), line).next == RenderState(ul, ol, false, content)
    ensures emitted == resultLines + Texts(Step(RenderState(inUl, inOl, false, content), line).out)
  {
    ghost var st := RenderState(inUl, inOl, false, content);
    emitted, ul, ol := resultLines, inUl, inOl;

    var processedLine := line;
    if StartsWith(Strip(line), "### ") {
      processedLine := "<h3>" + Strip(line)[4..] + "</h3>";
    } else if StartsWith(Strip(line), "## ") {
      processedLine := "<h2>" + Strip(line)[3..] + "</h2>";
    } else if StartsWith(Strip(line), "# ") {
      processedLine := "<h1>" + Strip(line)[2..] + "</h1>";
    } else {
      processedLine := FormatInline(processedLine);
    }
    RegularLineHtml(line);
    assert processedLine == RegularLine(line).Html();

    var stripped := Strip(line);
    if StartsWith(stripped, "- ") || StartsWith(stripped, "* ") {
      StepLinesUnordered(st, line, resultLines);
      if ol {
        emitted := emitted + ["</ol>"];
        ol := false;
      }
      if !ul {
        emitted := emitted + ["<ul>"];
        ul := true;
      }
      var itemContent := FormatInline(stripped[2..]);
      emitted := emitted + ["<li>" + itemContent + "</li>"];
    } else if IsOrderedItem(stripped) {
      StepLinesOrdered(st, line, resultLines);
      if ul {
        emitted := emitted + ["</ul>"];
        ul := false;
      }
      if !ol {
        emitted := emitted + ["<ol>"];
        ol := true;
      }
      var itemContent := FormatInline(OrderedItemContent(stripped));
      emitted := emitted + ["<li>" + itemContent + "</li>"];
    } else {
      StepLinesRegular(st, line, resultLines);
      if ul {
        emitted := emitted + ["</ul>"];
        ul := false;
      }
      if ol {
        emitted := emitted + ["</ol>"];
        ol := false;
      }
      emitted := emitted + [processedLine];
    }
  }

  /**
   * _convert_markdown_to_html: the loop over the lines, with the same flags,
   * the same code buffer and the same appends; its output is Render(text).
   */
  method ConvertMarkdownToHtml(text: string) returns (html: string)
    ensures html == Render(text)
  {
    var lines := Split(text, '\n');
    var resultLines: seq<string> := [];
    var inUl, inOl, inCodeBlock := false, false, false;
    var codeBlockContent: seq<string> := [];

    ghost var total := Texts(Records(text));
    var i := 0;
    while i < |lines|
      invariant 0 <= i <= |lines|
      invariant total ==
                resultLines + Texts(RenderFrom(RenderState(inUl, inOl, inCodeBlock, codeBlockContent), lines[i..]))
    {
      var line := lines[i];
      ghost var st := RenderState(inUl, inOl, inCodeBlock, codeBlockContent);
      ghost var before := resultLines;

      if StartsWith(Strip(line), "```") {
        StepLinesFence(st, line, before);
        if !inCodeBlock {
          inCodeBlock := true;
          codeBlockContent := [];
          Advance(total, before, st, lines, i, resultLines, RenderState(inUl, inOl, inCodeBlock, codeBlockContent));
          i := i + 1;
          continue;
        } else {
          inCodeBlock := false;
          resultLines := resultLines + ["<pre><code>"] + codeBlockContent + ["</code></pre>"];
          Advance(total, before, st, lines, i, resultLines, RenderState(inUl, inOl, inCodeBlock, codeBlockContent));
          i := i + 1;
          continue;
        }
      }

      if inCodeBlock {
        StepLinesCode(st, line, before);
        codeBlockContent := codeBlockContent + [line];
        Advance(total, before, st, lines, i, resultLines, RenderState(inUl, inOl, inCodeBlock, codeBlockContent));
        i := i + 1;
        continue;
      }

      resultLines, inUl, inOl := ProcessLine(line, resultLines, inUl, inOl, codeBlockContent);
      Advance(total, before, st, lines, i, resultLines, RenderState(inUl, inOl, inCodeBlock, codeBlockContent));
      i := i + 1;
    }

    ghost var st := RenderState(inUl, inOl, inCodeBlock, codeBlockContent);
    ghost var before := resultLines;
    FinishLines(st, before);
    if inUl {
      resultLines := resultLines + ["</ul>"];
    }
    if inOl {
      resultLines := resultLines + ["</ol>"];
    }
    if inCodeBlock {
      resultLines := resultLines + ["<pre><code>"] + codeBlockContent + ["</code></pre>"];
    }
    Conclude(total, before, st, lines, i, resultLines);

    html := Join(resultLines, "\n");
  }
}
