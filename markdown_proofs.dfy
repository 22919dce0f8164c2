/**
 * Properties of the markdown renderer, stated over the records it emits:
 * the two list flags are never both set, the records are well nested (every
 * list that opens closes with its own tag, items appear only inside a list
 * of their kind, headings and paragraphs never inside a list, code blocks
 * are balanced and hold only code lines), every line outside a code block
 * yields exactly one content record in order, and the code blocks carry
 * exactly the lines between the fences.
 */
module MarkdownProofs {
  import opened Wrappers
  import opened Strings
  import opened InlineFormat
  import opened Markdown

  // ---------------------------------------------------------------------------
  // The list flags.
  // ---------------------------------------------------------------------------

  /** The renderer's state after it has read `lines`, starting from `st`. */
  function StateAfter(st: RenderState, lines: seq<string>): RenderState
    decreases |lines|
  {
    if lines == [] then st else StateAfter(Step(st, lines[0]).next, lines[1..])
  }

  /** At most one of the two lists is open. */
  predicate Exclusive(st: RenderState) {
    !(st.inUl && st.inOl)
  }

  /** Opening one kind of list clears the flag of the other kind. */
  lemma {:induction false} ListsStayExclusive(st: RenderState, lines: seq<string>)
    requires Exclusive(st)
    ensures Exclusive(StateAfter(st, lines))
    decreases |lines|
  {
    if lines != [] {
      ListsStayExclusive(Step(st, lines[0]).next, lines[1..]);
    }
  }

  /** Whatever the text, no prefix of its lines leaves both lists open. */
  lemma NeverBothListsOpen(text: string)
    ensures forall n :: 0 <= n <= |Lines(text)| ==> Exclusive(StateAfter(Initial, Lines(text)[..n]))
  {
    forall n | 0 <= n <= |Lines(text)|
      ensures Exclusive(StateAfter(Initial, Lines(text)[..n]))
    {
      ListsStayExclusive(Initial, Lines(text)[..n]);
    }
  }

  /** A fence neither opens nor closes a list: lists stay open across a code block. */
  lemma FenceKeepsLists(st: RenderState, line: string)
    requires IsFence(line)
    ensures Step(st, line).next.inUl == st.inUl && Step(st, line).next.inOl == st.inOl
    ensures Step(st, line).next.inCodeBlock == !st.inCodeBlock
    ensures forall k :: 0 <= k < |Step(st, line).out| ==> Step(st, line).out[k].IsCode()
  {
    if st.inCodeBlock {
      CodeBlockIsCode(st.codeBlockContent);
      assert Step(st, line).out == [CodeOpen] + CodeLines(st.codeBlockContent) + [CodeClose];
    }
  }

  lemma {:induction false} CodeLinesAreCode(lines: seq<string>)
    ensures forall k :: 0 <= k < |CodeLines(lines)| ==> CodeLines(lines)[k].CodeLine?
    decreases |lines|
  {
    if lines != [] {
      CodeLinesAreCode(lines[1..]);
      assert CodeLines(lines) == [CodeLine(lines[0])] + CodeLines(lines[1..]);
    }
  }

  predicate AllCode(rs: seq<Record>) {
    forall k :: 0 <= k < |rs| ==> rs[k].IsCode()
  }

  lemma CodeBlockIsCode(content: seq<string>)
    ensures AllCode([CodeOpen] + CodeLines(content) + [CodeClose])
  {
    CodeLinesAreCode(content);
    var b := [CodeOpen] + CodeLines(content) + [CodeClose];
    forall k | 0 <= k < |b| ensures b[k].IsCode() {
      if 0 < k < |b| - 1 {
        assert b[k] == CodeLines(content)[k - 1];
      }
    }
  }

  // ---------------------------------------------------------------------------
  // Nesting of the emitted records.
  // ---------------------------------------------------------------------------

  /** What a reader of the records has seen: the open list, if any, and whether a code block is open. */
  datatype Reader = Reader(open: Option<ListKind>, inCode: bool)

  /** The reader after one more record, or None when the record is out of place. */
  function Admit(s: Reader, r: Record): Option<Reader> {
    if s.inCode then
      match r
      case CodeLine(_) => Some(s)
      case CodeClose => Some(s.(inCode := false))
      case _ => None
    else
      match r
      case ListOpen(k) => if s.open == None then Some(s.(open := Some(k))) else None
      case ListClose(k) => if s.open == Some(k) then Some(s.(open := None)) else None
      case ListItem(k, _) => if s.open == Some(k) then Some(s) else None
      case Heading(_, _) => if s.open == None then Some(s) else None
      case Plain(_) => if s.open == None then Some(s) else None
      case CodeOpen => Some(s.(inCode := true))
      case _ => None
  }

  function Read(s: Reader, rs: seq<Record>): Option<Reader>
    decreases |rs|
  {
    if rs == [] then Some(s)
    else match Admit(s, rs[0])
      case None => None
      case Some(t) => Read(t, rs[1..])
  }

  const Closed := Reader(None, false)

  /** Every record is in place, and at the end no list and no code block is open. */
  predicate WellNested(rs: seq<Record>) {
    Read(Closed, rs) == Some(Closed)
  }

  lemma {:induction false} ReadAppend(s: Reader, a: seq<Record>, b: seq<Record>)
    ensures Read(s, a + b) == match Read(s, a) case None => None case Some(t) => Read(t, b)
    decreases |a|
  {
    if a == [] {
      assert a + b == b;
    } else {
      assert (a + b)[0] == a[0];
      assert (a + b)[1..] == a[1..] + b;
      match Admit(s, a[0])
      case None =>
      case Some(t) => ReadAppend(t, a[1..], b);
    }
  }

  lemma {:induction false} ReadCodeLines(s: Reader, lines: seq<string>)
    requires s.inCode
    ensures Read(s, CodeLines(lines)) == Some(s)
    decreases |lines|
  {
    if lines != [] {
      assert CodeLines(lines)[1..] == CodeLines(lines[1..]);
      ReadCodeLines(s, lines[1..]);
    }
  }

  /** A flushed code block is in place anywhere outside a code block and leaves the reader as it was. */
  lemma ReadCodeBlock(s: Reader, content: seq<string>)
    requires !s.inCode
    ensures Read(s, [CodeOpen] + CodeLines(content) + [CodeClose]) == Some(s)
  {
    var c := s.(inCode := true);
    ReadAppend(s, [CodeOpen] + CodeLines(content), [CodeClose]);
    ReadAppend(s, [CodeOpen], CodeLines(content));
    assert Read(s, [CodeOpen]) == Some(c);
    ReadCodeLines(c, content);
    assert Read(c, [CodeClose]) == Some(s);
  }

  /** The reader's view of a renderer state between two lines. */
  function ReaderOf(st: RenderState): Reader {
    Reader(if st.inUl then Some(Unordered) else if st.inOl then Some(Ordered) else None, false)
  }

  lemma ReadCloseLists(st: RenderState)
    requires Exclusive(st)
    ensures Read(ReaderOf(st), CloseLists(st)) == Some(Closed)
  {
  }

  /** The records of one line are in place, and the reader ends in the view of the next state. */
  lemma ReadStep(st: RenderState, line: string)
    requires Exclusive(st)
    ensures Read(ReaderOf(st), Step(st, line).out) == Some(ReaderOf(Step(st, line).next))
  {
    var s := ReaderOf(st);
    var step := Step(st, line);
    if IsFence(line) {
      if st.inCodeBlock {
        ReadCodeBlock(s, st.codeBlockContent);
      }
    } else if !st.inCodeBlock {
      var r := ClassifyLine(line);
      if r.ListItem? && r.kind == Unordered {
        var c := if st.inOl then [ListClose(Ordered)] else [];
        var o := if !st.inUl then [ListOpen(Unordered)] else [];
        var mid := if st.inUl then s else Reader(None, false);
        ReadAppend(s, c + o, [r]);
        ReadAppend(s, c, o);
        assert Read(s, c) == Some(mid);
        assert Read(mid, o) == Some(ReaderOf(step.next));
      } else if r.ListItem? {
        var c := if st.inUl then [ListClose(Unordered)] else [];
        var o := if !st.inOl then [ListOpen(Ordered)] else [];
        var mid := if st.inOl then s else Reader(None, false);
        ReadAppend(s, c + o, [r]);
        ReadAppend(s, c, o);
        assert Read(s, c) == Some(mid);
        assert Read(mid, o) == Some(ReaderOf(step.next));
      } else {
        assert r.Heading? || r.Plain?;
        ReadAppend(s, CloseLists(st), [r]);
        ReadCloseLists(st);
      }
    }
  }

  lemma ReadFinish(st: RenderState)
    requires Exclusive(st)
    ensures Read(ReaderOf(st), Finish(st)) == Some(Closed)
  {
    var c := if st.inCodeBlock then [CodeOpen] + CodeLines(st.codeBlockContent) + [CodeClose] else [];
    ReadAppend(ReaderOf(st), CloseLists(st), c);
    ReadCloseLists(st);
    if st.inCodeBlock {
      ReadCodeBlock(Closed, st.codeBlockContent);
    }
  }

  lemma {:induction false} ReadRenderFrom(st: RenderState, lines: seq<string>)
    requires Exclusive(st)
    ensures Read(ReaderOf(st), RenderFrom(st, lines)) == Some(Closed)
    decreases |lines|
  {
    if lines == [] {
      ReadFinish(st);
    } else {
      var step := Step(st, lines[0]);
      ReadAppend(ReaderOf(st), step.out, RenderFrom(step.next, lines[1..]));
      ReadStep(st, lines[0]);
      ReadRenderFrom(step.next, lines[1..]);
    }
  }

  /** The renderer's records are well nested, whatever the text. */
  lemma RecordsWellNested(text: string)
    ensures WellNested(Records(text))
  {
    ReadRenderFrom(Initial, Lines(text));
  }

  // ---------------------------------------------------------------------------
  // Content lines and code lines.
  // ---------------------------------------------------------------------------

  predicate IsContent(r: Record) {
    r.ListItem? || r.Heading? || r.Plain?
  }

  /** The list items, headings and paragraphs among the records, in order. */
  function Content(rs: seq<Record>): seq<Record>
    decreases |rs|
  {
    if rs == [] then [] else (if IsContent(rs[0]) then [rs[0]] else []) + Content(rs[1..])
  }

  /** The text of the code lines among the records, in order. */
  function CodeText(rs: seq<Record>): seq<string>
    decreases |rs|
  {
    if rs == [] then [] else (if rs[0].CodeLine? then [rs[0].text] else []) + CodeText(rs[1..])
  }

  /** The lines that are neither fences nor inside a code block; `inCode` says whether the first line is inside one. */
  function Outside(lines: seq<string>, inCode: bool): seq<string>
    decreases |lines|
  {
    if lines == [] then []
    else if IsFence(lines[0]) then Outside(lines[1..], !inCode)
    else if inCode then Outside(lines[1..], true)
    else [lines[0]] + Outside(lines[1..], false)
  }

  /** The lines between an opening fence and the next fence or the end of the text. */
  function Inside(lines: seq<string>, inCode: bool): seq<string>
    decreases |lines|
  {
    if lines == [] then []
    else if IsFence(lines[0]) then Inside(lines[1..], !inCode)
    else if inCode then [lines[0]] + Inside(lines[1..], true)
    else Inside(lines[1..], false)
  }

  function ClassifyAll(lines: seq<string>): seq<Record>
    decreases |lines|
  {
    if lines == [] then [] else [ClassifyLine(lines[0])] + ClassifyAll(lines[1..])
  }

  lemma {:induction false} ContentAppend(a: seq<Record>, b: seq<Record>)
    ensures Content(a + b) == Content(a) + Content(b)
    decreases |a|
  {
    if a == [] {
      assert a + b == b;
    } else {
      var h := if IsContent(a[0]) then [a[0]] else [];
      assert (a + b)[0] == a[0];
      assert (a + b)[1..] == a[1..] + b;
      assert Content(a + b) == h + Content(a[1..] + b);
      ContentAppend(a[1..], b);
      assert h + (Content(a[1..]) + Content(b)) == h + Content(a[1..]) + Content(b);
    }
  }

  lemma {:induction false} CodeTextAppend(a: seq<Record>, b: seq<Record>)
    ensures CodeText(a + b) == CodeText(a) + CodeText(b)
    decreases |a|
  {
    if a == [] {
      assert a + b == b;
    } else {
      var h := if a[0].CodeLine? then [a[0].text] else [];
      assert (a + b)[0] == a[0];
      assert (a + b)[1..] == a[1..] + b;
      assert CodeText(a + b) == h + CodeText(a[1..] + b);
      CodeTextAppend(a[1..], b);
      assert h + (CodeText(a[1..]) + CodeText(b)) == h + CodeText(a[1..]) + CodeText(b);
    }
  }

  lemma {:induction false} CodeLinesText(lines: seq<string>)
    ensures Content(CodeLines(lines)) == [] && CodeText(CodeLines(lines)) == lines
    decreases |lines|
  {
    if lines != [] {
      var c := CodeLines(lines);
      assert c[0] == CodeLine(lines[0]);
      assert c[1..] == CodeLines(lines[1..]);
      CodeLinesText(lines[1..]);
      assert Content(c) == Content(c[1..]);
      assert CodeText(c) == [lines[0]] + CodeText(c[1..]);
      assert lines == [lines[0]] + lines[1..];
    }
  }

  lemma CodeBlockText(content: seq<string>)
    ensures var b := [CodeOpen] + CodeLines(content) + [CodeClose];
            Content(b) == [] && CodeText(b) == content
  {
    CodeLinesText(content);
    ContentAppend([CodeOpen] + CodeLines(content), [CodeClose]);
    ContentAppend([CodeOpen], CodeLines(content));
    CodeTextAppend([CodeOpen] + CodeLines(content), [CodeClose]);
    CodeTextAppend([CodeOpen], CodeLines(content));
  }

  /** A list tag is neither content nor code. */
  lemma TagsText(a: seq<Record>, r: Record)
    requires forall k :: 0 <= k < |a| ==> a[k].ListOpen? || a[k].ListClose?
    requires IsContent(r)
    ensures Content(a + [r]) == [r] && CodeText(a + [r]) == []
  {
    ContentAppend(a, [r]);
    CodeTextAppend(a, [r]);
    TagsOnly(a);
  }

  lemma {:induction false} TagsOnly(a: seq<Record>)
    requires forall k :: 0 <= k < |a| ==> a[k].ListOpen? || a[k].ListClose?
    ensures Content(a) == [] && CodeText(a) == []
    decreases |a|
  {
    if a != [] {
      TagsOnly(a[1..]);
    }
  }

  /** How one line moves the code-block part of the state. */
  lemma StepCodeState(st: RenderState, line: string)
    ensures Step(st, line).next.inCodeBlock == (IsFence(line) != st.inCodeBlock)
    ensures IsFence(line) && !st.inCodeBlock ==> Step(st, line).next.codeBlockContent == []
    ensures !IsFence(line) && st.inCodeBlock ==> Step(st, line).next.codeBlockContent == st.codeBlockContent + [line]
  {
  }

  /** The list tags a line outside a code block emits before its own record `r`. */
  function ListTags(st: RenderState, r: Record): (tags: seq<Record>)
    ensures forall k :: 0 <= k < |tags| ==> tags[k].ListOpen? || tags[k].ListClose?
  {
    if r.ListItem? then EnterList(st, r.kind) else CloseLists(st)
  }

  lemma StepOutside(st: RenderState, line: string)
    requires !IsFence(line) && !st.inCodeBlock
    ensures Step(st, line).out == ListTags(st, ClassifyLine(line)) + [ClassifyLine(line)]
  {
  }

  /** One line yields one content record when it is outside a code block and no fence, and none otherwise. */
  lemma StepText(st: RenderState, line: string)
    ensures Content(Step(st, line).out) == if IsFence(line) || st.inCodeBlock then [] else [ClassifyLine(line)]
    ensures CodeText(Step(st, line).out) == if IsFence(line) && st.inCodeBlock then st.codeBlockContent else []
  {
    if IsFence(line) {
      if st.inCodeBlock {
        CodeBlockText(st.codeBlockContent);
        assert Step(st, line).out == [CodeOpen] + CodeLines(st.codeBlockContent) + [CodeClose];
      } else {
        assert Step(st, line).out == [];
      }
    } else if !st.inCodeBlock {
      StepOutside(st, line);
      TagsText(ListTags(st, ClassifyLine(line)), ClassifyLine(line));
    } else {
      assert Step(st, line).out == [];
    }
  }

  lemma FinishText(st: RenderState)
    ensures Content(Finish(st)) == []
    ensures CodeText(Finish(st)) == if st.inCodeBlock then st.codeBlockContent else []
  {
    var c := if st.inCodeBlock then [CodeOpen] + CodeLines(st.codeBlockContent) + [CodeClose] else [];
    ContentAppend(CloseLists(st), c);
    CodeTextAppend(CloseLists(st), c);
    TagsOnly(CloseLists(st));
    if st.inCodeBlock {
      CodeBlockText(st.codeBlockContent);
    }
  }

  lemma {:induction false} RenderFromContent(st: RenderState, lines: seq<string>)
    ensures Content(RenderFrom(st, lines)) == ClassifyAll(Outside(lines, st.inCodeBlock))
    decreases |lines|
  {
    if lines == [] {
      FinishText(st);
    } else {
      var line := lines[0];
      var step := Step(st, line);
      var rest := RenderFrom(step.next, lines[1..]);
      ContentAppend(step.out, rest);
      StepText(st, line);
      StepCodeState(st, line);
      RenderFromContent(step.next, lines[1..]);
      if !IsFence(line) && !st.inCodeBlock {
        assert ([line] + Outside(lines[1..], false))[1..] == Outside(lines[1..], false);
      }
    }
  }

  /** At a fence the code text continues with the lines on the other side of it. */
  lemma CodeTextAtFence(st: RenderState, lines: seq<string>, here: seq<string>, after: seq<string>)
    requires lines != [] && IsFence(lines[0])
    requires here == if st.inCodeBlock then st.codeBlockContent else []
    requires after == Inside(lines[1..], !st.inCodeBlock)
    ensures here + after == (if st.inCodeBlock then st.codeBlockContent else []) + Inside(lines, st.inCodeBlock)
  {
  }

  /** Inside a code block a line extends the buffer. */
  lemma CodeTextInBlock(st: RenderState, lines: seq<string>, after: seq<string>)
    requires lines != [] && !IsFence(lines[0]) && st.inCodeBlock
    requires after == st.codeBlockContent + [lines[0]] + Inside(lines[1..], true)
    ensures after == st.codeBlockContent + Inside(lines, true)
  {
    InsideInBlock(lines);
    AppendOne(st.codeBlockContent, lines[0], Inside(lines[1..], true));
  }

  lemma InsideInBlock(lines: seq<string>)
    requires lines != [] && !IsFence(lines[0])
    ensures Inside(lines, true) == [lines[0]] + Inside(lines[1..], true)
  {
  }

  lemma AppendOne(a: seq<string>, x: string, b: seq<string>)
    ensures a + [x] + b == a + ([x] + b)
  {
  }

  lemma {:induction false} RenderFromCode(st: RenderState, lines: seq<string>)
    ensures CodeText(RenderFrom(st, lines)) ==
              (if st.inCodeBlock then st.codeBlockContent else []) + Inside(lines, st.inCodeBlock)
    decreases |lines|
  {
    if lines == [] {
      FinishText(st);
    } else {
      var step := Step(st, lines[0]);
      var rest := RenderFrom(step.next, lines[1..]);
      CodeTextAppend(step.out, rest);
      StepText(st, lines[0]);
      StepCodeState(st, lines[0]);
      RenderFromCode(step.next, lines[1..]);
      if IsFence(lines[0]) {
        CodeTextAtFence(st, lines, CodeText(step.out), CodeText(rest));
      } else if st.inCodeBlock {
        CodeTextInBlock(st, lines, CodeText(rest));
      }
    }
  }

  /**
   * Every line outside a code block, fences aside, yields exactly one list
   * item, heading or paragraph, in the order of the lines; the code lines of
   * the output are exactly the lines inside code blocks, in order, including
   * those of a block that the text leaves open.
   */
  lemma RecordsText(text: string)
    ensures Content(Records(text)) == ClassifyAll(Outside(Lines(text), false))
    ensures CodeText(Records(text)) == Inside(Lines(text), false)
  {
    RenderFromContent(Initial, Lines(text));
    RenderFromCode(Initial, Lines(text));
  }

  // ---------------------------------------------------------------------------
  // Whole texts.
  // ---------------------------------------------------------------------------

  lemma LinesOfJoin(lines: seq<string>)
    requires |lines| >= 1
    requires forall k :: 0 <= k < |lines| ==> '\n' !in lines[k]
    ensures Lines(Join(lines, "\n")) == lines
  {
    SplitJoin(lines, '\n');
  }

  /** The output lines of the content records of `lines`, one per line. */
  lemma {:induction false} TextsOfClassifyAll(lines: seq<string>)
    ensures |Texts(ClassifyAll(lines))| == |lines|
    ensures forall k :: 0 <= k < |lines| ==> Texts(ClassifyAll(lines))[k] == ClassifyLine(lines[k]).Html()
    decreases |lines|
  {
    if lines != [] {
      var c := ClassifyAll(lines);
      assert c[0] == ClassifyLine(lines[0]);
      assert c[1..] == ClassifyAll(lines[1..]);
      TextsOfClassifyAll(lines[1..]);
      assert Texts(c) == [c[0].Html()] + Texts(ClassifyAll(lines[1..]));
    }
  }

  /** A line that is neither a fence nor a list item: a heading or a paragraph line. */
  predicate IsRegular(line: string) {
    !IsFence(line) && !ClassifyLine(line).ListItem?
  }

  /** Every line is regular. */
  predicate AllRegular(lines: seq<string>)
    decreases |lines|
  {
    lines == [] || (IsRegular(lines[0]) && AllRegular(lines[1..]))
  }

  lemma StepRegular(line: string)
    requires IsRegular(line)
    ensures Step(Initial, line) == StepResult(Initial, [ClassifyLine(line)])
  {
    StepOutside(Initial, line);
  }

  lemma {:induction false} RenderFromRegular(lines: seq<string>)
    requires AllRegular(lines)
    ensures RenderFrom(Initial, lines) == ClassifyAll(lines)
    decreases |lines|
  {
    if lines != [] {
      StepRegular(lines[0]);
      RenderFromRegular(lines[1..]);
    }
  }

  /** A text of headings and paragraph lines renders line by line, with nothing added. */
  lemma RenderRegular(lines: seq<string>)
    requires |lines| >= 1
    requires forall k :: 0 <= k < |lines| ==> '\n' !in lines[k]
    requires AllRegular(lines)
    ensures Render(Join(lines, "\n")) == Join(Texts(ClassifyAll(lines)), "\n")
  {
    LinesOfJoin(lines);
    RenderFromRegular(lines);
  }

  /** The marker that starts a heading line of each level. */
  function Marker(level: HeadingLevel): string {
    match level
    case H1 => "# "
    case H2 => "## "
    case H3 => "### "
  }

  /** A line starting with '#' is neither a fence nor a list item. */
  lemma HashLine(line: string)
    requires |line| > 0 && line[0] == '#'
    ensures IsRegular(line) && ClassifyLine(line) == RegularLine(line)
  {
    var t := Strip(line);
    assert StripLeft(line) == line;
    StripRightShape(line);
    assert t != [] ==> t[0] == '#';
    assert !StartsWith(t, "```") && !StartsWith(t, "- ") && !StartsWith(t, "* ");
    assert t != [] ==> DigitRun(t) == 0;
  }

  /** A marker followed by a title that ends in a non-space is a heading line. */
  lemma HeadingClassify(level: HeadingLevel, t: string)
    requires |t| > 0 && !IsSpace(t[|t| - 1])
    ensures IsRegular(Marker(level) + t)
    ensures ClassifyLine(Marker(level) + t) == Heading(level, t)
  {
    var line := Marker(level) + t;
    HashLine(line);
    StripTrimmed(line);
    match level
    case H1 => H1Line(t);
    case H2 => H2Line(t);
    case H3 => H3Line(t);
  }

  lemma H1Line(t: string)
    requires |t| > 0 && !IsSpace(t[|t| - 1])
    ensures RegularLine("# " + t) == Heading(H1, t)
  {
    var line := "# " + t;
    StripTrimmed(line);
    assert line[1] == ' ';
    assert !StartsWith(line, "### ") && !StartsWith(line, "## ");
    assert line[..2] == "# " && line[2..] == t;
  }

  lemma H2Line(t: string)
    requires |t| > 0 && !IsSpace(t[|t| - 1])
    ensures RegularLine("## " + t) == Heading(H2, t)
  {
    var line := "## " + t;
    StripTrimmed(line);
    assert line[2] == ' ';
    assert !StartsWith(line, "### ");
    assert line[..3] == "## " && line[3..] == t;
  }

  lemma H3Line(t: string)
    requires |t| > 0 && !IsSpace(t[|t| - 1])
    ensures RegularLine("### " + t) == Heading(H3, t)
  {
    var line := "### " + t;
    StripTrimmed(line);
    assert line[..4] == "### " && line[4..] == t;
  }

  /** A heading line alone in the text becomes the heading element; its title is left unformatted. */
  lemma RenderHeading(level: HeadingLevel, t: string)
    requires '\n' !in t && |t| > 0 && !IsSpace(t[|t| - 1])
    ensures Render(Marker(level) + t) == Heading(level, t).Html()
  {
    HeadingClassify(level, t);
    RenderOneLine(Marker(level) + t);
  }

  /** A single paragraph line becomes its inline formatting. */
  lemma RenderParagraph(line: string)
    requires '\n' !in line && IsRegular(line) && ClassifyLine(line).Plain?
    ensures Render(line) == FormatInline(line)
  {
    PlainLine(line);
    RenderOneLine(line);
  }

  lemma PlainLine(line: string)
    requires ClassifyLine(line).Plain?
    ensures ClassifyLine(line) == Plain(line)
  {
  }

  /** A text of one regular line renders to that line's record alone. */
  lemma RenderOneLine(line: string)
    requires '\n' !in line && IsRegular(line)
    ensures Render(line) == ClassifyLine(line).Html()
  {
    LinesOfJoin([line]);
    assert Join([line], "\n") == line;
    StepRegular(line);
    assert [line][1..] == [];
    assert Finish(Initial) == [];
    assert RenderFrom(Initial, [line]) == [ClassifyLine(line)] + RenderFrom(Initial, []);
    assert Records(line) == [ClassifyLine(line)];
    assert Texts([ClassifyLine(line)]) == [ClassifyLine(line).Html()];
  }

  /** The state inside a list of kind `k`, outside a code block, with the code buffer `c` left from earlier. */
  function InList(k: ListKind, c: seq<string>): RenderState {
    RenderState(k == Unordered, k == Ordered, false, c)
  }

  /** A list item of kind `k`. */
  predicate IsItemOf(k: ListKind, line: string) {
    !IsFence(line) && ClassifyLine(line).ListItem? && ClassifyLine(line).kind == k
  }

  /** Every line is a list item of kind `k`. */
  predicate AllItemsOf(k: ListKind, lines: seq<string>)
    decreases |lines|
  {
    lines == [] || (IsItemOf(k, lines[0]) && AllItemsOf(k, lines[1..]))
  }

  /** An item outside a code block enters the list of its kind and emits its own record. */
  lemma StepItem(st: RenderState, k: ListKind, line: string)
    requires IsItemOf(k, line) && !st.inCodeBlock
    ensures Step(st, line) == StepResult(InList(k, st.codeBlockContent), EnterList(st, k) + [ClassifyLine(line)])
  {
  }

  /** RenderFrom after a step whose result is known. */
  lemma RenderFromStep(st: RenderState, lines: seq<string>, next: RenderState, out: seq<Record>)
    requires lines != [] && Step(st, lines[0]) == StepResult(next, out)
    ensures RenderFrom(st, lines) == out + RenderFrom(next, lines[1..])
  {
  }

  /** Inside a list, items of its kind emit their records and nothing else. */
  lemma {:induction false} RenderFromItems(k: ListKind, c: seq<string>, items: seq<string>, tail: seq<string>)
    requires AllItemsOf(k, items)
    ensures RenderFrom(InList(k, c), items + tail) == ClassifyAll(items) + RenderFrom(InList(k, c), tail)
    decreases |items|
  {
    var st := InList(k, c);
    if items == [] {
      assert items + tail == tail;
    } else {
      var lines := items + tail;
      var x := ClassifyLine(items[0]);
      var later := RenderFrom(st, tail);
      StepItem(st, k, items[0]);
      assert EnterList(st, k) + [x] == [x];
      assert lines[0] == items[0] && lines[1..] == items[1..] + tail;
      RenderFromStep(st, lines, st, [x]);
      RenderFromItems(k, c, items[1..], tail);
      assert ClassifyAll(items) == [x] + ClassifyAll(items[1..]);
      Assoc([x], ClassifyAll(items[1..]), later);
    }
  }

  /** Inside a list, a regular line closes the list and then emits its own record. */
  lemma CloseAtRegular(k: ListKind, c: seq<string>, line: string, rest: seq<string>)
    requires IsRegular(line)
    ensures RenderFrom(InList(k, c), [line] + rest) ==
              [ListClose(k), ClassifyLine(line)] + RenderFrom(RenderState(false, false, false, c), rest)
  {
    var st := InList(k, c);
    var lines := [line] + rest;
    StepOutside(st, line);
    assert CloseLists(st) == [ListClose(k)];
    assert lines[0] == line && lines[1..] == rest;
    RenderFromStep(st, lines, RenderState(false, false, false, c), [ListClose(k)] + [ClassifyLine(line)]);
  }

  /**
   * From any state outside a code block, a run of items of one kind enters
   * the list once, emits one record per item, and leaves the list open for
   * whatever follows.
   */
  lemma RenderFromRun(st: RenderState, k: ListKind, items: seq<string>, tail: seq<string>)
    requires !st.inCodeBlock && |items| >= 1 && AllItemsOf(k, items)
    ensures RenderFrom(st, items + tail) ==
              EnterList(st, k) + ClassifyAll(items) + RenderFrom(InList(k, st.codeBlockContent), tail)
  {
    var lines := items + tail;
    var inside := InList(k, st.codeBlockContent);
    var x := ClassifyLine(items[0]);
    var enter := EnterList(st, k);
    var later := RenderFrom(inside, tail);
    StepItem(st, k, items[0]);
    assert lines[0] == items[0] && lines[1..] == items[1..] + tail;
    RenderFromStep(st, lines, inside, enter + [x]);
    RenderFromItems(k, st.codeBlockContent, items[1..], tail);
    assert ClassifyAll(items) == [x] + ClassifyAll(items[1..]);
    Regroup(enter, [x], ClassifyAll(items[1..]), later);
  }

  /**
   * A run of items of one kind followed by a regular line, from any state
   * outside a code block: the other kind's list is closed if it was open,
   * the list is opened unless it was open, the items follow, and the list is
   * closed at the regular line, just before its record and not earlier.
   */
  lemma RenderListRun(st: RenderState, k: ListKind, items: seq<string>, line: string, rest: seq<string>)
    requires !st.inCodeBlock && |items| >= 1 && AllItemsOf(k, items) && IsRegular(line)
    ensures RenderFrom(st, items + [line] + rest) ==
              EnterList(st, k) + ClassifyAll(items) + [ListClose(k), ClassifyLine(line)] +
              RenderFrom(RenderState(false, false, false, st.codeBlockContent), rest)
  {
    var c := st.codeBlockContent;
    var enter := EnterList(st, k);
    var after := RenderFrom(RenderState(false, false, false, c), rest);
    var tail := [line] + rest;
    assert items + [line] + rest == items + tail;
    RenderFromRun(st, k, items, tail);
    CloseAtRegular(k, c, line, rest);
    Assoc(enter + ClassifyAll(items), [ListClose(k), ClassifyLine(line)], after);
  }

  /** The records of a run of items of one kind from the start of the text to its end. */
  lemma RenderFromList(k: ListKind, lines: seq<string>)
    requires |lines| >= 1 && AllItemsOf(k, lines)
    ensures RenderFrom(Initial, lines) == [ListOpen(k)] + ClassifyAll(lines) + [ListClose(k)]
  {
    assert lines + [] == lines;
    RenderFromRun(Initial, k, lines, []);
    assert EnterList(Initial, k) == [ListOpen(k)];
    assert RenderFrom(InList(k, []), []) == [ListClose(k)] by {
      assert CloseLists(InList(k, [])) == [ListClose(k)];
    }
  }

  /**
   * The epilogue closes every open list before it flushes an unclosed code
   * block: it emits only list closes and code records, and no list close
   * comes after a code record.
   */
  lemma FinishClosesListsFirst(st: RenderState)
    ensures forall i :: 0 <= i < |Finish(st)| ==> Finish(st)[i].ListClose? || Finish(st)[i].IsCode()
    ensures forall i, j :: 0 <= i < j < |Finish(st)| && Finish(st)[i].IsCode() ==> !Finish(st)[j].ListClose?
  {
    var tags := CloseLists(st);
    var block := if st.inCodeBlock then [CodeOpen] + CodeLines(st.codeBlockContent) + [CodeClose] else [];
    var f := Finish(st);
    assert f == tags + block;
    assert forall i :: 0 <= i < |tags| ==> tags[i].ListClose?;
    if st.inCodeBlock {
      CodeBlockIsCode(st.codeBlockContent);
    }
    assert AllCode(block);
    forall i | 0 <= i < |f|
      ensures f[i].ListClose? || f[i].IsCode()
      ensures f[i].IsCode() ==> i >= |tags|
    {
      if i < |tags| {
        assert f[i] == tags[i];
      } else {
        assert f[i] == block[i - |tags|];
      }
    }
  }

  /**
   * A list whose last item is followed by a code block that the text never
   * closes: the block stays inside the open list while it is read, and at
   * the end the list is closed first and the block flushed after it.
   */
  lemma ListThenOpenBlock(k: ListKind, items: seq<string>, open: string, body: seq<string>)
    requires |items| >= 1 && AllItemsOf(k, items) && IsFence(open) && NoFence(body)
    ensures RenderFrom(Initial, items + [open] + body) ==
              [ListOpen(k)] + ClassifyAll(items) + [ListClose(k)] + ([CodeOpen] + CodeLines(body) + [CodeClose])
  {
    var tail := [open] + body;
    var block := [CodeOpen] + CodeLines(body) + [CodeClose];
    assert items + [open] + body == items + tail;
    RenderFromRun(Initial, k, items, tail);
    assert EnterList(Initial, k) == [ListOpen(k)];
    BlockInList(k, open, body);
    Regroup([ListOpen(k)], ClassifyAll(items), [ListClose(k)], block);
  }

  /** Inside a list, a code block that the text never closes: the list is closed first, then the block flushed. */
  lemma BlockInList(k: ListKind, open: string, body: seq<string>)
    requires IsFence(open) && NoFence(body)
    ensures RenderFrom(InList(k, []), [open] + body) == [ListClose(k)] + ([CodeOpen] + CodeLines(body) + [CodeClose])
  {
    var inside := InList(k, []);
    var inBlock := RenderState(k == Unordered, k == Ordered, true, []);
    var full := RenderState(k == Unordered, k == Ordered, true, body);
    var tail := [open] + body;
    assert Step(inside, open) == StepResult(inBlock, []);
    assert tail[0] == open && tail[1..] == body;
    RenderFromStep(inside, tail, inBlock, []);
    assert body + [] == body;
    RenderFromCodeBody(inBlock, body, []);
    assert inBlock.(codeBlockContent := inBlock.codeBlockContent + body) == full;
    assert CloseLists(full) == [ListClose(k)];
  }

  lemma Assoc<T>(a: seq<T>, b: seq<T>, c: seq<T>)
    ensures a + (b + c) == (a + b) + c
  {
  }

  lemma Regroup<T>(a: seq<T>, b: seq<T>, c: seq<T>, d: seq<T>)
    ensures a + b + (c + d) == a + (b + c) + d
  {
  }

  /** The output lines of a group of records between two more. */
  lemma TextsAround(a: Record, mid: seq<Record>, b: Record)
    ensures Texts([a] + mid + [b]) == [a.Html()] + Texts(mid) + [b.Html()]
  {
    TextsAppend([a] + mid, [b]);
    TextsAppend([a], mid);
  }

  lemma ListRecords(k: ListKind, lines: seq<string>)
    requires |lines| >= 1
    requires forall i :: 0 <= i < |lines| ==> '\n' !in lines[i]
    requires AllItemsOf(k, lines)
    ensures Records(Join(lines, "\n")) == [ListOpen(k)] + ClassifyAll(lines) + [ListClose(k)]
  {
    LinesOfJoin(lines);
    RenderFromList(k, lines);
  }

  /**
   * A run of items of one kind becomes one list: the opening tag, one item
   * per line and the closing tag.
   */
  lemma RenderList(k: ListKind, lines: seq<string>)
    requires |lines| >= 1
    requires forall i :: 0 <= i < |lines| ==> '\n' !in lines[i]
    requires AllItemsOf(k, lines)
    ensures Render(Join(lines, "\n")) ==
              Join([ListOpen(k).Html()] + Texts(ClassifyAll(lines)) + [ListClose(k).Html()], "\n")
  {
    ListRecords(k, lines);
    TextsAround(ListOpen(k), ClassifyAll(lines), ListClose(k));
  }

  /** No line is a fence. */
  predicate NoFence(lines: seq<string>)
    decreases |lines|
  {
    lines == [] || (!IsFence(lines[0]) && NoFence(lines[1..]))
  }

  lemma {:induction false} RenderFromCodeBody(st: RenderState, body: seq<string>, rest: seq<string>)
    requires st.inCodeBlock
    requires NoFence(body)
    ensures RenderFrom(st, body + rest) == RenderFrom(st.(codeBlockContent := st.codeBlockContent + body), rest)
    decreases |body|
  {
    if body == [] {
      assert body + rest == rest;
      assert st.codeBlockContent + body == st.codeBlockContent;
    } else {
      var next := st.(codeBlockContent := st.codeBlockContent + [body[0]]);
      assert RenderFrom(st, body + rest) == RenderFrom(next, body[1..] + rest) by {
        assert (body + rest)[0] == body[0];
        assert (body + rest)[1..] == body[1..] + rest;
        StepInBlock(st, body[0]);
      }
      RenderFromCodeBody(next, body[1..], rest);
      assert next.codeBlockContent + body[1..] == st.codeBlockContent + body by {
        assert body == [body[0]] + body[1..];
      }
    }
  }

  /** Inside a code block a line that is no fence is buffered and nothing is emitted. */
  lemma StepInBlock(st: RenderState, line: string)
    requires st.inCodeBlock && !IsFence(line)
    ensures Step(st, line) == StepResult(st.(codeBlockContent := st.codeBlockContent + [line]), [])
  {
  }

  /** The records of a code block that starts at the first line. */
  lemma RecordsOfCodeBlock(open: string, body: seq<string>, rest: seq<string>)
    requires IsFence(open) && NoFence(body) && (rest == [] || (|rest| == 1 && IsFence(rest[0])))
    ensures RenderFrom(Initial, [open] + body + rest) == [CodeOpen] + CodeLines(body) + [CodeClose]
  {
    var inBlock := RenderState(false, false, true, []);
    var full := RenderState(false, false, true, body);
    assert [open] + body + rest == [open] + (body + rest);
    OpeningFence(open, body + rest);
    RenderFromCodeBody(inBlock, body, rest);
    assert inBlock.(codeBlockContent := inBlock.codeBlockContent + body) == full;
    if rest == [] {
      FlushAtEnd(full);
    } else {
      FlushAtFence(full, rest);
    }
  }

  /** A fence at the start of the text opens a code block and emits nothing. */
  lemma OpeningFence(open: string, tail: seq<string>)
    requires IsFence(open)
    ensures RenderFrom(Initial, [open] + tail) == RenderFrom(RenderState(false, false, true, []), tail)
  {
    var lines := [open] + tail;
    assert lines[0] == open && lines[1..] == tail;
    RenderFromStep(Initial, lines, RenderState(false, false, true, []), []);
  }

  /** At the end of the text an open code block is flushed. */
  lemma FlushAtEnd(st: RenderState)
    requires st.inCodeBlock && !st.inUl && !st.inOl
    ensures RenderFrom(st, []) == [CodeOpen] + CodeLines(st.codeBlockContent) + [CodeClose]
  {
    assert CloseLists(st) == [];
  }

  /** A closing fence that ends the text flushes the block. */
  lemma FlushAtFence(st: RenderState, rest: seq<string>)
    requires st.inCodeBlock && !st.inUl && !st.inOl
    requires |rest| == 1 && IsFence(rest[0])
    ensures RenderFrom(st, rest) == [CodeOpen] + CodeLines(st.codeBlockContent) + [CodeClose]
  {
    var block := [CodeOpen] + CodeLines(st.codeBlockContent) + [CodeClose];
    var after := st.(inCodeBlock := false);
    assert Step(st, rest[0]) == StepResult(after, block);
    RenderFromStep(st, rest, after, block);
    assert rest[1..] == [];
    assert Finish(after) == [] by {
      assert CloseLists(after) == [];
    }
    assert block + [] == block;
  }

  lemma NoNewlineFenced(open: string, body: seq<string>, close: seq<string>)
    requires '\n' !in open
    requires forall i :: 0 <= i < |body| ==> '\n' !in body[i]
    requires forall i :: 0 <= i < |close| ==> '\n' !in close[i]
    ensures forall i :: 0 <= i < |[open] + body + close| ==> '\n' !in ([open] + body + close)[i]
  {
  }

  lemma ClosedBlockRecords(open: string, body: seq<string>, close: string)
    requires IsFence(open) && IsFence(close) && NoFence(body)
    requires '\n' !in open && '\n' !in close
    requires forall i :: 0 <= i < |body| ==> '\n' !in body[i]
    ensures Records(Join([open] + body + [close], "\n")) == [CodeOpen] + CodeLines(body) + [CodeClose]
  {
    NoNewlineFenced(open, body, [close]);
    LinesOfJoin([open] + body + [close]);
    RecordsOfCodeBlock(open, body, [close]);
  }

  lemma OpenBlockRecords(open: string, body: seq<string>)
    requires IsFence(open) && NoFence(body)
    requires '\n' !in open
    requires forall i :: 0 <= i < |body| ==> '\n' !in body[i]
    ensures Records(Join([open] + body, "\n")) == [CodeOpen] + CodeLines(body) + [CodeClose]
  {
    NoNewlineFenced(open, body, []);
    assert [open] + body + [] == [open] + body;
    LinesOfJoin([open] + body);
    RecordsOfCodeBlock(open, body, []);
  }

  /**
   * A fenced code block becomes <pre><code>, its lines verbatim, and
   * </code></pre>, whether or not the text closes it; whatever follows the
   * backticks of a fence is dropped.
   */
  lemma RenderCodeBlock(open: string, body: seq<string>, close: string)
    requires IsFence(open) && IsFence(close) && NoFence(body)
    requires '\n' !in open && '\n' !in close
    requires forall i :: 0 <= i < |body| ==> '\n' !in body[i]
    ensures Render(Join([open] + body + [close], "\n")) == Join(["<pre><code>"] + body + ["</code></pre>"], "\n")
    ensures Render(Join([open] + body, "\n")) == Join(["<pre><code>"] + body + ["</code></pre>"], "\n")
  {
    ClosedBlockRecords(open, body, close);
    OpenBlockRecords(open, body);
    TextsOfCodeBlock(body);
  }
}
