/**
 * The description sanitizer: None and "" are returned as they are, text that
 * already looks like HTML is returned unchanged, text in which one of five
 * markdown patterns occurs is rendered by the markdown renderer, and any
 * other text has its line breaks turned into <br>; the last two are wrapped
 * in <div>...</div>.
 */
module Sanitizer {
  import opened Wrappers
  import opened Strings
  import opened InlineFormat
  import opened Markdown

  // ---------------------------------------------------------------------------
  // Does the text already look like HTML?
  // ---------------------------------------------------------------------------

  /** The twelve tags whose presence (after lower-casing) marks a text as HTML. */
  const HtmlTags: seq<string> :=
    ["<html", "<p>", "<div", "<h1>", "<h2>", "<h3>", "<ul>", "<ol>", "<li>", "<strong>", "<em>", "<code>"]

  /** The trimmed text starts with '<', contains '>' and, lower-cased, contains one of the tags. */
  predicate LooksLikeHtml(description: string) {
    var t := Strip(description);
    StartsWith(t, "<") && Contains(t, ">") &&
    exists k :: 0 <= k < |HtmlTags| && Contains(Lower(t), HtmlTags[k])
  }

  // ---------------------------------------------------------------------------
  // The five markdown detectors, each a re.search over the trimmed text.
  // ---------------------------------------------------------------------------

  /** Where re.MULTILINE lets ^ match: the start of the text or just after a line break. */
  predicate LineStart(s: string, i: nat) {
    i == 0 || (0 < i <= |s| && s[i - 1] == '\n')
  }

  /** ^#{1,3} matches at i. */
  predicate HeaderAt(s: string, i: nat)
    requires i <= |s|
  {
    LineStart(s, i) && (StartsWith(s[i..], "# ") || StartsWith(s[i..], "## ") || StartsWith(s[i..], "### "))
  }

  /**
   * (?<!d)d[^d]+d(?!d) matches at i: the run of non-delimiters up to the next
   * d is not empty and that d is not followed by another.
   */
  predicate LooseItalicAt(s: string, d: char, i: nat)
    requires i < |s|
  {
    s[i] == d && (i == 0 || s[i - 1] != d) &&
    var k := IndexOf(s, d, i + 1);
    i + 1 < k < |s| && (k + 1 == |s| || s[k + 1] != d)
  }

  /** **[^*]+**, __[^_]+__ or one of the two italic patterns matches at i. */
  predicate EmphasisAt(s: string, i: nat)
    requires i < |s|
  {
    BoldAt(s, '*', i).Some? || BoldAt(s, '_', i).Some? || LooseItalicAt(s, '*', i) || LooseItalicAt(s, '_', i)
  }

  /** ```[^`]*``` matches at i. */
  predicate FencedAt(s: string, i: nat)
    requires i <= |s|
  {
    StartsWith(s[i..], "```") &&
    var k := IndexOf(s, '`', i + 3);
    StartsWith(s[k..], "```")
  }

  /** ```[^`]*``` or `[^`]+` matches at i. */
  predicate CodeMarkAt(s: string, i: nat)
    requires i < |s|
  {
    FencedAt(s, i) || CodeAt(s, i).Some?
  }

  /** ^[-*] or ^\d+\. matches at i. */
  predicate ListMarkAt(s: string, i: nat)
    requires i <= |s|
  {
    LineStart(s, i) && (StartsWith(s[i..], "- ") || StartsWith(s[i..], "* ") || IsOrderedItem(s[i..]))
  }

  predicate HasHeader(t: string) { exists i :: 0 <= i < |t| && HeaderAt(t, i) }
  predicate HasEmphasis(t: string) { exists i :: 0 <= i < |t| && EmphasisAt(t, i) }
  predicate HasCode(t: string) { exists i :: 0 <= i < |t| && CodeMarkAt(t, i) }
  predicate HasLink(t: string) { exists i :: 0 <= i < |t| && LinkAt(t, i).Some? }
  predicate HasList(t: string) { exists i :: 0 <= i < |t| && ListMarkAt(t, i) }

  predicate HasMarkdown(t: string) {
    HasHeader(t) || HasEmphasis(t) || HasCode(t) || HasLink(t) || HasList(t)
  }

  // ---------------------------------------------------------------------------
  // The sanitizer.
  // ---------------------------------------------------------------------------

  /** What goes inside the <div>: the rendered markdown, or the text with <br> for each line break. */
  function Converted(description: string): string {
    if HasMarkdown(Strip(description)) then Render(description)
    else Replace(description, '\n', "<br>")
  }

  function SanitizeDescriptionHtml(description: Option<string>): (r: Option<string>)
    ensures r.None? <==> description.None?
  {
    match description
    case None => None
    case Some(d) =>
      if d == "" || LooksLikeHtml(d) then description
      else Some("<div>" + Converted(d) + "</div>")
  }

  // ---------------------------------------------------------------------------
  // What each detector matches, stated without IndexOf: the span of the
  // pattern at i.
  // ---------------------------------------------------------------------------

  /** `#{1,3} ` matches at i with n hashes. */
  predicate HeaderSpan(s: string, i: nat, n: nat) {
    1 <= n <= 3 && i + n < |s| && (forall j :: i <= j < i + n ==> s[j] == '#') && s[i + n] == ' '
  }

  lemma HeaderAtMeaning(s: string, i: nat)
    requires i <= |s|
    ensures HeaderAt(s, i) <==> LineStart(s, i) && exists n: nat :: HeaderSpan(s, i, n)
  {
    var t := s[i..];
    if StartsWith(t, "### ") {
      assert t[..4] == "### ";
      assert HeaderSpan(s, i, 3) by { assert forall j :: i <= j < i + 3 ==> s[j] == t[j - i]; }
    } else if StartsWith(t, "## ") {
      assert t[..3] == "## ";
      assert HeaderSpan(s, i, 2) by { assert forall j :: i <= j < i + 2 ==> s[j] == t[j - i]; }
    } else if StartsWith(t, "# ") {
      assert t[..2] == "# ";
      assert HeaderSpan(s, i, 1);
    }
    forall n: nat | HeaderSpan(s, i, n)
      ensures StartsWith(t, "# ") || StartsWith(t, "## ") || StartsWith(t, "### ")
    {
      assert t[..n + 1] == s[i..i + n + 1];
      if n == 1 {
        assert t[..2] == "# ";
      } else if n == 2 {
        assert t[..3] == "## ";
      } else {
        assert t[..4] == "### ";
      }
    }
  }

  /** `(?<!d)d[^d]+d(?!d)` matches s[i..j]. */
  predicate LooseItalicSpan(s: string, d: char, i: nat, j: nat) {
    i + 3 <= j <= |s| && s[i] == d && s[j - 1] == d &&
    (i == 0 || s[i - 1] != d) && (j == |s| || s[j] != d) && NoneIn(s, d, i + 1, j - 1)
  }

  lemma LooseItalicAtMeaning(s: string, d: char, i: nat)
    requires i < |s|
    ensures LooseItalicAt(s, d, i) <==> exists j: nat :: LooseItalicSpan(s, d, i, j)
  {
    if LooseItalicAt(s, d, i) {
      assert LooseItalicSpan(s, d, i, IndexOf(s, d, i + 1) + 1);
    }
    forall j: nat | LooseItalicSpan(s, d, i, j) ensures LooseItalicAt(s, d, i) {
      IndexOfFirst(s, d, i + 1, j - 1);
    }
  }

  /** ```[^`]*``` matches s[i..j]. */
  predicate FencedSpan(s: string, i: nat, j: nat) {
    i + 6 <= j <= |s| && s[i..i + 3] == "```" && s[j - 3..j] == "```" && NoneIn(s, '`', i + 3, j - 3)
  }

  lemma FencedAtMeaning(s: string, i: nat)
    requires i <= |s|
    ensures FencedAt(s, i) <==> exists j: nat :: FencedSpan(s, i, j)
  {
    if FencedAt(s, i) {
      var k := IndexOf(s, '`', i + 3);
      assert s[i..][..3] == s[i..i + 3];
      assert s[k..][..3] == s[k..k + 3];
      assert FencedSpan(s, i, k + 3);
    }
    forall j: nat | FencedSpan(s, i, j) ensures FencedAt(s, i) {
      assert s[j - 3] == '`';
      IndexOfFirst(s, '`', i + 3, j - 3);
      assert s[i..][..3] == s[i..i + 3];
      assert s[j - 3..][..3] == s[j - 3..j];
    }
  }

  /** `\d+\. ` matches at the start of s, with n digits. */
  predicate DigitsDotSpace(s: string, n: nat) {
    1 <= n && n + 2 <= |s| && (forall j :: 0 <= j < n ==> IsDigit(s[j])) && s[n] == '.' && s[n + 1] == ' '
  }

  /** The digit-run test matches the pattern: some positive number of digits, a dot and a space. */
  lemma OrderedItemMeaning(s: string)
    ensures IsOrderedItem(s) <==> exists n: nat :: DigitsDotSpace(s, n)
  {
    if IsOrderedItem(s) {
      assert DigitsDotSpace(s, DigitRun(s));
    }
    forall n: nat | DigitsDotSpace(s, n) ensures IsOrderedItem(s) {
      assert !IsDigit(s[n]);
    }
  }

  /** `[-*] ` or `\d+\. ` matches at i, if ^ does. */
  lemma ListMarkAtMeaning(s: string, i: nat)
    requires i <= |s|
    ensures ListMarkAt(s, i) <==>
              LineStart(s, i) &&
              ((i + 2 <= |s| && (s[i] == '-' || s[i] == '*') && s[i + 1] == ' ') ||
               exists n: nat :: DigitsDotSpace(s[i..], n))
  {
    var t := s[i..];
    OrderedItemMeaning(t);
    if i + 2 <= |s| {
      assert t[..2] == [s[i], s[i + 1]];
    }
  }

  // ---------------------------------------------------------------------------
  // Properties.
  // ---------------------------------------------------------------------------

  /** A needle that starts at some position of s is contained in s. */
  lemma {:induction false} ContainsAt(s: string, needle: string, i: nat)
    requires i <= |s| && StartsWith(s[i..], needle)
    ensures Contains(s, needle)
    decreases i
  {
    if i > 0 {
      assert s[1..][i - 1..] == s[i..];
      ContainsAt(s[1..], needle, i - 1);
    }
  }

  /** Lower-casing keeps a prefix without capital letters. */
  lemma LowerKeepsPrefix(s: string, prefix: string)
    requires StartsWith(s, prefix)
    requires forall j :: 0 <= j < |prefix| ==> !('A' <= prefix[j] <= 'Z')
    ensures StartsWith(Lower(s), prefix)
  {
    assert Lower(s)[..|prefix|] == prefix;
  }

  /** Anything the sanitizer wraps looks like HTML. */
  lemma WrappedLooksLikeHtml(x: string)
    ensures LooksLikeHtml("<div>" + x + "</div>")
  {
    var w := "<div>" + x + "</div>";
    assert w[0] == '<' && w[|w| - 1] == '>';
    StripTrimmed(w);
    assert StartsWith(w, "<div>");
    ContainsAt(w, ">", 4) by {
      assert w[4] == '>';
      assert w[4..][..1] == [w[4]];
    }
    LowerKeepsPrefix(w, "<div");
    ContainsAt(Lower(w), "<div", 0);
    assert HtmlTags[2] == "<div";
  }

  /** None and the empty string come back as they are. */
  lemma EmptyUnchanged()
    ensures SanitizeDescriptionHtml(None) == None
    ensures SanitizeDescriptionHtml(Some("")) == Some("")
  {
  }

  /** A non-empty text comes back unchanged exactly when it looks like HTML. */
  lemma PassthroughIffHtml(d: string)
    requires d != ""
    ensures SanitizeDescriptionHtml(Some(d)) == Some(d) <==> LooksLikeHtml(d)
  {
    if !LooksLikeHtml(d) {
      var w := "<div>" + Converted(d) + "</div>";
      WrappedLooksLikeHtml(Converted(d));
      assert w != d;
    }
  }

  /** Any other non-empty text is wrapped in a <div>. */
  lemma OtherwiseWrapped(d: string)
    requires d != "" && !LooksLikeHtml(d)
    ensures var r := SanitizeDescriptionHtml(Some(d));
            r.Some? && StartsWith(r.value, "<div>") && |r.value| >= 11 &&
            r.value[|r.value| - 6..] == "</div>"
  {
    var w := "<div>" + Converted(d) + "</div>";
    assert w[..5] == "<div>";
    assert w[|w| - 6..] == "</div>";
  }

  /** Markdown is rendered from the original, untrimmed text. */
  lemma MarkdownRendered(d: string)
    requires d != "" && !LooksLikeHtml(d) && HasMarkdown(Strip(d))
    ensures SanitizeDescriptionHtml(Some(d)) == Some("<div>" + Render(d) + "</div>")
  {
  }

  /** Plain text keeps its lines, joined by <br> instead of line breaks, and no line break is left. */
  lemma PlainLinesJoined(d: string)
    requires d != "" && !LooksLikeHtml(d) && !HasMarkdown(Strip(d))
    ensures SanitizeDescriptionHtml(Some(d)) == Some("<div>" + Join(Split(d, '\n'), "<br>") + "</div>")
    ensures '\n' !in SanitizeDescriptionHtml(Some(d)).value
  {
    ReplaceIsSplitJoin(d, '\n', "<br>");
    var x := Replace(d, '\n', "<br>");
    assert '\n' !in x;
    assert '\n' !in "<div>" + x + "</div>";
  }

  /** Sanitizing twice is sanitizing once. */
  lemma Idempotent(description: Option<string>)
    ensures SanitizeDescriptionHtml(SanitizeDescriptionHtml(description)) == SanitizeDescriptionHtml(description)
  {
    match description
    case None =>
    case Some(d) =>
      if d != "" && !LooksLikeHtml(d) {
        WrappedLooksLikeHtml(Converted(d));
      }
  }

  /** Every tag opens with '<'. */
  lemma TagOpens(k: nat)
    requires k < |HtmlTags|
    ensures StartsWith(HtmlTags[k], "<")
  {
  }

  /** A text whose lower-cased form opens with '<' opens with '<' itself. */
  lemma LowerOpensAngle(d: string)
    requires StartsWith(Lower(d), "<")
    ensures StartsWith(d, "<")
  {
    assert LowerChar(d[0]) == '<';
    assert d[..1] == [d[0]];
  }

  lemma AngleNotSpace(c: char)
    requires c == '<'
    ensures !IsSpace(c)
  {
  }

  /** The three conditions of the test, once the text is its own strip(). */
  lemma HtmlWhenTrimmed(d: string, k: nat)
    requires k < |HtmlTags| && Strip(d) == d
    requires StartsWith(d, "<") && Contains(d, ">") && Contains(Lower(d), HtmlTags[k])
    ensures LooksLikeHtml(d)
  {
  }

  /** A text opening, in any case, with a tag that opens with '<' and ending in a non-space is trimmed and holds the tag. */
  lemma TagOpened(d: string, tag: string)
    requires StartsWith(Lower(d), tag) && StartsWith(tag, "<")
    requires !IsSpace(d[|d| - 1])
    ensures Strip(d) == d && StartsWith(d, "<") && Contains(Lower(d), tag)
  {
    LowerOpensAngle(d);
    assert d[..1] == "<";
    AngleNotSpace(d[0]);
    StripTrimmed(d);
    var low := Lower(d);
    assert low[0..] == low;
    ContainsAt(low, tag, 0);
  }

  /** A text that starts with one of the tags, in any case, and ends in a non-space looks like HTML. */
  lemma TaggedLooksLikeHtml(d: string, k: nat)
    requires k < |HtmlTags| && StartsWith(Lower(d), HtmlTags[k])
    requires Contains(d, ">") && !IsSpace(d[|d| - 1])
    ensures LooksLikeHtml(d)
  {
    TagOpens(k);
    TagOpened(d, HtmlTags[k]);
    HtmlWhenTrimmed(d, k);
  }

  /** Such a text comes back unchanged. */
  lemma TaggedPassthrough(d: string, k: nat)
    requires k < |HtmlTags| && StartsWith(Lower(d), HtmlTags[k])
    requires Contains(d, ">") && !IsSpace(d[|d| - 1])
    ensures SanitizeDescriptionHtml(Some(d)) == Some(d)
  {
    TaggedLooksLikeHtml(d, k);
    HtmlUnchanged(d);
  }

  lemma HtmlUnchanged(d: string)
    requires LooksLikeHtml(d)
    ensures SanitizeDescriptionHtml(Some(d)) == Some(d)
  {
  }

  /** HTML that contains markdown syntax is still returned unchanged. */
  lemma ParagraphExample()
    ensures SanitizeDescriptionHtml(Some("<p>This is **not** markdown</p>")) == Some("<p>This is **not** markdown</p>")
  {
    var d := "<p>This is **not** markdown</p>";
    assert d[..3] == "<p>";
    LowerKeepsPrefix(d, "<p>");
    ContainsAt(d, ">", 2) by {
      assert d[2..][..1] == ">";
    }
    TaggedPassthrough(d, 1);
  }

  /** A blank text strips to nothing. */
  lemma BlankStrip(d: string)
    requires AllSpace(d)
    ensures Strip(d) == []
  {
    StripShape(d);
  }

  /** Nothing is detected in the empty text, and it does not look like HTML. */
  lemma EmptyNothingDetected(t: string)
    requires t == []
    ensures !HasMarkdown(t) && !StartsWith(t, "<")
  {
  }

  /** A blank text has nothing to detect: it is wrapped with its line breaks turned into <br>. */
  lemma BlankWrapped(d: string)
    requires d != "" && AllSpace(d)
    ensures SanitizeDescriptionHtml(Some(d)) == Some("<div>" + Replace(d, '\n', "<br>") + "</div>")
  {
    BlankStrip(d);
    EmptyNothingDetected(Strip(d));
  }

  lemma SpacesExample()
    ensures SanitizeDescriptionHtml(Some("   ")) == Some("<div>   </div>")
  {
    BlankWrapped("   ");
    ReplaceAbsent("   ", '\n', "<br>");
    assert "<div>" + "   " + "</div>" == "<div>   </div>";
  }

  /** A trimmed text that opens with a heading or a list item is detected as markdown. */
  lemma LineFormsDetected(t: string)
    requires StartsWith(t, "# ") || StartsWith(t, "## ") || StartsWith(t, "### ") ||
             IsUnorderedItem(t) || IsOrderedItem(t)
    ensures HasMarkdown(t)
  {
    assert t[0..] == t;
    if IsUnorderedItem(t) || IsOrderedItem(t) {
      assert ListMarkAt(t, 0);
    } else {
      assert HeaderAt(t, 0);
    }
  }

  /** An italic span that the inline pipeline would format, other than a lone delimiter, is detected. */
  lemma ItalicDetected(t: string, d: char, i: nat)
    requires d == '*' || d == '_'
    requires i + 1 < |t| && ItalicAt(t, d, i).Some? && t[i + 1] != d
    ensures HasMarkdown(t)
  {
    var k := IndexOf(t, d, i + 1);
    assert i + 1 < k;
    assert LooseItalicAt(t, d, i) by {
      if !(k >= i + 3 && k < |t| && !IsSpace(t[i + 1]) && !IsSpace(t[k - 1]) && (k + 1 == |t| || t[k + 1] != d)) {
        assert t[i + 2] == d;
        IndexOfFirst(t, d, i + 1, i + 2);
      }
    }
    assert EmphasisAt(t, i);
  }
}
