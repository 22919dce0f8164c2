# Markdown-to-HTML conversion of work item descriptions

This project models two things from the Azure DevOps MCP server's work item
tools. The first is the private markdown renderer `_convert_markdown_to_html`.
The second is `sanitize_description_html`, which the tools apply to a
description before sending it to Azure DevOps. The project proves properties
of both.

The renderer makes a single pass over the lines of the text:

- It keeps three flags (inside an unordered list, inside an ordered list,
  inside a code block) and a buffer of code lines.
- A line whose trimmed form starts with three backticks opens or closes a code
  block.
- A line inside a block is buffered.
- A line whose trimmed form starts with `- ` or `* ` is an unordered list item.
- A line whose trimmed form starts with `1. ` (any digits) is an ordered list
  item.
- A line whose trimmed form starts with `# `, `## ` or `### ` is a heading.
- Any other line goes through six inline substitutions, in this order: inline
  code, `**bold**`, `__bold__`, `*italic*`, `_italic_`, `[text](url)`.
- Lists open and close around their items.
- At the end it closes an open list and flushes an unclosed code block.

The sanitizer leaves `None` and `""` alone and passes text that already looks
like HTML through unchanged. Otherwise it renders the text when one of five
markdown patterns occurs in it, or turns its line breaks into `<br>`. Either
way it wraps the result in `<div>...</div>`.

The files:

- `strings.dfy`:
  - `Wrappers.Option`;
  - module `Strings`, the Python string operations the code uses: `strip`,
    `lower`, `in`, `startswith`, `split`, `join`, `replace`.
- `inline.dfy`: module `InlineFormat`.
  - Each `re.sub` is a scanner per pattern (`CodeAt`, `BoldAt`, `ItalicAt`,
    `LinkAt`).
  - `SubFrom` is the left-to-right, non-overlapping substitution built on them.
  - `FormatInline` is the six passes in order.
- `markdown.dfy`: module `Markdown`.
  - The renderer is a function: `Step` is one loop iteration, `Finish` the
    epilogue, and `Render(text)` the lines emitted, joined with `"\n"`.
  - It is also the loop itself, `ConvertMarkdownToHtml`, which is proved to
    return `Render(text)`.
  - The emitted lines are tagged records (`Record`), so properties can name
    list tags and code lines.
- `markdown_proofs.dfy`: module `MarkdownProofs`, the properties of the
  renderer.
- `inline_proofs.dfy`: module `InlineProofs`, what the inline pipeline does to
  each whole form.
- `sanitizer.dfy`: module `Sanitizer`.

Notes:

- One could expect at most one of the three flags to be set at a time. The
  code does not keep that: a fence does not close an open list. A list open
  before a code block therefore stays open across it, and `<pre><code>` can be
  emitted inside `<ul>`. The model follows the code:
  - `MarkdownProofs.NeverBothListsOpen` proves the invariant the code actually
    keeps, that the two list flags are never both set.
  - `MarkdownProofs.FenceKeepsLists` states that a fence leaves the list flags
    alone.
- The comment at utils.py:77 says inline code is formatted first "to protect
  from other formatting". The later passes still rewrite the inside of
  `<code>`: `InlineProofs.CodeDoesNotShield` shows that `` `**t**` `` becomes
  `<code><strong>t</strong></code>`.
- In `x___y` the underscore italic's single-`\w` alternative matches at the
  first `_` and takes all three underscores (`\w` includes `_`), so the text
  becomes `x<em>_</em>y`; `ItalicAt` models this as written.

## Model

| member | source | states |
|---|---|---|
| Strings.StripShape | src/mcp_azure_devops/features/work_items/tools/utils.py:240 | strip() cuts a text into leading whitespace, a core that neither starts nor ends with whitespace, and trailing whitespace |
| Strings.StripTrimmed | src/mcp_azure_devops/features/work_items/tools/utils.py:240 | a text that neither starts nor ends with whitespace is its own strip() |
| Strings.JoinSplit | src/mcp_azure_devops/features/work_items/tools/utils.py:31 | joining the pieces of text.split(sep) with sep gives the text back |
| Strings.SplitJoin | src/mcp_azure_devops/features/work_items/tools/utils.py:207 | splitting a join of separator-free pieces gives the pieces back |
| Strings.ReplaceIsSplitJoin | src/mcp_azure_devops/features/work_items/tools/utils.py:289 | replace('\n', '<br>') equals splitting at the line breaks and joining the pieces with <br> |
| Strings.ReplaceAppend | src/mcp_azure_devops/features/work_items/tools/utils.py:289 | replace distributes over concatenation |
| Strings.Strip | src/mcp_azure_devops/features/work_items/tools/utils.py:240 | str.strip(): the result is no longer than the text less its leading whitespace; its shape is stated by `Strings.StripShape` and `Strings.StripTrimmed` |
| Strings.Split | src/mcp_azure_devops/features/work_items/tools/utils.py:31 | str.split with a one-character separator: at least one piece, and no piece holds the separator; `Strings.JoinSplit` and `Strings.SplitJoin` state that it inverts `Join` |
| Strings.Join | src/mcp_azure_devops/features/work_items/tools/utils.py:207 | sep.join(parts); `Strings.JoinSplit` and `Strings.SplitJoin` state that it inverts `Split` |
| Strings.Replace | src/mcp_azure_devops/features/work_items/tools/utils.py:289 | str.replace with a one-character target: when the replacement does not hold the target, neither does the result; `Strings.ReplaceIsSplitJoin` and `Strings.ReplaceAppend` state what it computes |
| InlineFormat.CodeAt | src/mcp_azure_devops/features/work_items/tools/utils.py:78-80 | the inline-code scanner: a match ends after i and within the text; `InlineFormat.CodeAtMeaning` states which spans it matches |
| InlineFormat.BoldAt | src/mcp_azure_devops/features/work_items/tools/utils.py:83-88 | the bold scanner for `*` and `_`: a match ends after i and within the text; `InlineFormat.BoldAtMeaning` states which spans it matches |
| InlineFormat.ItalicAt | src/mcp_azure_devops/features/work_items/tools/utils.py:91-100 | the italic scanner for `*` and `_`: a match ends after i and within the text; `InlineFormat.ItalicAtMeaning` states which spans it matches |
| InlineFormat.LinkAt | src/mcp_azure_devops/features/work_items/tools/utils.py:103-107 | the link scanner: a match ends after i and within the text; `InlineFormat.LinkAtMeaning` states which spans it matches |
| InlineFormat.SubFrom | src/mcp_azure_devops/features/work_items/tools/utils.py:78-107 | re.sub from position i; `InlineFormat.SubLeftmost`, `SubFromCopiesUnmatched` and `SubNoMatch` state its behaviour |
| InlineFormat.FormatInline | src/mcp_azure_devops/features/work_items/tools/utils.py:76-107 | the six passes in the source order; `InlineFormat.FormatInlinePlain` and the `InlineProofs.Format*` lemmas state what they do |
| InlineFormat.CodeAtMeaning | src/mcp_azure_devops/features/work_items/tools/utils.py:78-80 | the scanner matches at i exactly when `([^`]+)` matches there: a backtick, a non-empty run without backticks, a backtick; it ends at the closing backtick and yields <code>run</code> |
| InlineFormat.BoldAtMeaning | src/mcp_azure_devops/features/work_items/tools/utils.py:83-88 | the scanner matches exactly the spans of `\*\*([^*]+)\*\*` and `__([^_]+)__` and yields <strong>run</strong> |
| InlineFormat.ItalicAtMeaning | src/mcp_azure_devops/features/work_items/tools/utils.py:91-100 | the scanner matches exactly the spans of the italic patterns, including the lookbehind, the lookahead and the single-\w alternative, and yields <em>body</em> |
| InlineFormat.LinkAtMeaning | src/mcp_azure_devops/features/work_items/tools/utils.py:103-107 | the scanner matches exactly the spans `[text](url)` with no `]` in text and no `)` in url, and yields the anchor with href url |
| InlineFormat.SubLeftmost | src/mcp_azure_devops/features/work_items/tools/utils.py:78-107 | re.sub copies everything before the leftmost match, replaces the match, and resumes scanning after it |
| InlineFormat.SubFromCopiesUnmatched | src/mcp_azure_devops/features/work_items/tools/utils.py:78-107 | positions where the pattern does not match are copied unchanged |
| InlineFormat.SubNoMatch | src/mcp_azure_devops/features/work_items/tools/utils.py:78-107 | a string in which the pattern matches nowhere is left unchanged |
| InlineFormat.SubWithoutOpener | src/mcp_azure_devops/features/work_items/tools/utils.py:78-107 | a string without the pattern's opening delimiter is left unchanged |
| InlineFormat.FormatInlinePlain | src/mcp_azure_devops/features/work_items/tools/utils.py:76-107 | text without any of `` ` `` `*` `_` `[` passes through all six passes unchanged |
| InlineProofs.FormatCode | src/mcp_azure_devops/features/work_items/tools/utils.py:78-80 | `` `t` `` becomes <code>t</code> after all six passes, for t without markup characters |
| InlineProofs.FormatBoldStars | src/mcp_azure_devops/features/work_items/tools/utils.py:83-85 | `**t**` becomes <strong>t</strong> after all six passes, for t without markup characters |
| InlineProofs.FormatBoldUnderscores | src/mcp_azure_devops/features/work_items/tools/utils.py:86-88 | `__t__` becomes <strong>t</strong> after all six passes, for t without markup characters |
| InlineProofs.FormatItalicStar | src/mcp_azure_devops/features/work_items/tools/utils.py:91-95 | `*t*` becomes <em>t</em> after all six passes, for t without markup characters that is one word character or starts and ends with a non-space |
| InlineProofs.FormatItalicUnderscore | src/mcp_azure_devops/features/work_items/tools/utils.py:96-100 | `_t_` becomes <em>t</em> after all six passes, under the same condition |
| InlineProofs.FormatLink | src/mcp_azure_devops/features/work_items/tools/utils.py:103-107 | `[text](url)` becomes `<a href="url">text</a>` after all six passes, for text and url without markup characters |
| InlineProofs.CodeDoesNotShield | src/mcp_azure_devops/features/work_items/tools/utils.py:77-88 | the bold passes rewrite text already inside <code>: `` `**t**` `` becomes <code><strong>t</strong></code>, for t without markup characters |
| Markdown.ClassifyLine | src/mcp_azure_devops/features/work_items/tools/utils.py:66-181 | the record of a line outside a code block (heading, formatted paragraph or list item); `MarkdownProofs.RenderHeading`, `RenderParagraph` and `RenderList` state what each kind renders to |
| Markdown.Step | src/mcp_azure_devops/features/work_items/tools/utils.py:43-191 | one loop iteration; `MarkdownProofs.StepOutside`, `FenceKeepsLists` and `ReadStep` state what it emits and how it changes the flags |
| Markdown.Finish | src/mcp_azure_devops/features/work_items/tools/utils.py:193-204 | the epilogue; `MarkdownProofs.ReadFinish` and `FinishClosesListsFirst` state what it emits |
| Markdown.RenderFrom | src/mcp_azure_devops/features/work_items/tools/utils.py:38-204 | the loop over the lines as a function; `MarkdownProofs.RecordsWellNested` and `RecordsText` state the shape and content of its records |
| Markdown.Render | src/mcp_azure_devops/features/work_items/tools/utils.py:31-211 | the renderer; `Markdown.ConvertMarkdownToHtml` is proved to return it, and the `MarkdownProofs.Render*` lemmas state its result for each kind of text |
| Markdown.TextsOfCodeLines | src/mcp_azure_devops/features/work_items/tools/utils.py:54 | the output lines of a buffered code block are the buffered lines themselves |
| Markdown.ProcessLine | src/mcp_azure_devops/features/work_items/tools/utils.py:65-191 | for a line outside a code block: the header or inline formatting, then the list tags and the line, append exactly the lines of the renderer's step and leave the flags as the step does |
| Markdown.ConvertMarkdownToHtml | src/mcp_azure_devops/features/work_items/tools/utils.py:11-211 | the loop, with its flags, its code buffer and its appends, returns Render(text): the emitted records' lines joined with "\n" |
| MarkdownProofs.ListsStayExclusive | src/mcp_azure_devops/features/work_items/tools/utils.py:111-191 | opening one kind of list clears the other kind's flag, so from a state with at most one list open every sequence of lines keeps at most one open |
| MarkdownProofs.NeverBothListsOpen | src/mcp_azure_devops/features/work_items/tools/utils.py:33-193 | for every text and after every prefix of its lines, the two list flags are not both set |
| MarkdownProofs.FenceKeepsLists | src/mcp_azure_devops/features/work_items/tools/utils.py:43-57 | a fence toggles the code-block flag, leaves both list flags unchanged and emits only code records |
| MarkdownProofs.ReadStep | src/mcp_azure_devops/features/work_items/tools/utils.py:43-193 | every iteration's output is in place for a reader that tracks the open list and code block, and leaves that reader in the state matching the renderer's new flags |
| MarkdownProofs.ReadFinish | src/mcp_azure_devops/features/work_items/tools/utils.py:195-204 | the epilogue closes whatever is open, leaving nothing open |
| MarkdownProofs.RecordsWellNested | src/mcp_azure_devops/features/work_items/tools/utils.py:11-211 | for every text: each list that opens is closed by its own tag, items appear only inside a list of their kind, headings and paragraphs never inside a list, code blocks are balanced and contain only code lines, and nothing is left open |
| MarkdownProofs.StepOutside | src/mcp_azure_devops/features/work_items/tools/utils.py:109-191 | a line outside a code block emits list tags only, then its own single record |
| MarkdownProofs.RecordsText | src/mcp_azure_devops/features/work_items/tools/utils.py:11-211 | the content records are exactly the classified lines outside code blocks, in order, and the code lines are exactly the lines between fences, in order, including an unclosed final block |
| MarkdownProofs.RenderRegular | src/mcp_azure_devops/features/work_items/tools/utils.py:183-191 | a text made only of non-list, non-fence lines renders line for line, each line becoming its heading or formatted paragraph |
| MarkdownProofs.RenderHeading | src/mcp_azure_devops/features/work_items/tools/utils.py:68-74 | `#`, `##` or `###`, a space and a title that ends in a non-space character render to `<h1>`, `<h2>` or `<h3>` around the title, without inline formatting |
| MarkdownProofs.RenderParagraph | src/mcp_azure_devops/features/work_items/tools/utils.py:75-107 | a single paragraph line renders to its inline formatting |
| MarkdownProofs.RenderList | src/mcp_azure_devops/features/work_items/tools/utils.py:109-199 | consecutive items of one kind render to one opening tag, one <li> per item, and one closing tag |
| MarkdownProofs.RenderFromRun | src/mcp_azure_devops/features/work_items/tools/utils.py:109-181 | from any state outside a code block, a run of items of one kind first closes the list of the other kind if open, opens its own unless open, then emits one item per line and leaves exactly that list open |
| MarkdownProofs.RenderListRun | src/mcp_azure_devops/features/work_items/tools/utils.py:109-190 | a run of items followed by a regular line: the list closes right before that line and not earlier, and the rest is rendered with no list open |
| MarkdownProofs.CloseAtRegular | src/mcp_azure_devops/features/work_items/tools/utils.py:182-190 | inside a list, a heading or paragraph line closes the list and then emits its own record |
| MarkdownProofs.FinishClosesListsFirst | src/mcp_azure_devops/features/work_items/tools/utils.py:194-204 | at the end of the text only list closes and code records are emitted, and no list close follows a code record: open lists are closed before an unterminated block is flushed |
| MarkdownProofs.BlockInList | src/mcp_azure_devops/features/work_items/tools/utils.py:43-204 | inside a list, a fence opens a block without closing the list, and an unterminated block is flushed after the list is closed |
| MarkdownProofs.ListThenOpenBlock | src/mcp_azure_devops/features/work_items/tools/utils.py:43-204 | a list followed by an unterminated code block renders to the list's items, then its closing tag, then the flushed block |
| MarkdownProofs.RenderCodeBlock | src/mcp_azure_devops/features/work_items/tools/utils.py:43-63 | a fenced block renders to <pre><code>, its lines verbatim, </code></pre>, and so does a block whose closing fence is missing |
| Sanitizer.LooksLikeHtml | src/mcp_azure_devops/features/work_items/tools/utils.py:243-260 | the HTML test on the trimmed text; `Sanitizer.TaggedLooksLikeHtml`, `WrappedLooksLikeHtml` and `PassthroughIffHtml` state when it holds and what it decides |
| Sanitizer.HeaderAtMeaning | src/mcp_azure_devops/features/work_items/tools/utils.py:265-266 | the header detector matches exactly where `^#{1,3} ` does: at a line start, one to three `#` and a space |
| Sanitizer.LooseItalicAtMeaning | src/mcp_azure_devops/features/work_items/tools/utils.py:268-272 | the loose italic detector matches at i exactly when a span `d[^d]+d` starts there, not preceded and not followed by d |
| Sanitizer.FencedAtMeaning | src/mcp_azure_devops/features/work_items/tools/utils.py:274-275 | the fenced-code detector matches at i exactly when a span of three backticks, a run without backticks and three backticks starts there |
| Sanitizer.OrderedItemMeaning | src/mcp_azure_devops/features/work_items/tools/utils.py:147 | the digit-run test of an ordered item holds exactly when `\d+\. ` matches at the start: at least one digit, then a dot and a space |
| Sanitizer.ListMarkAtMeaning | src/mcp_azure_devops/features/work_items/tools/utils.py:280-281 | the list detector matches exactly where `^[-*] ` or `^\d+\. ` does |
| Sanitizer.HasMarkdown | src/mcp_azure_devops/features/work_items/tools/utils.py:264-282 | the five detectors over the trimmed text; the `*AtMeaning` lemmas state what each matches, and `Sanitizer.LineFormsDetected` and `ItalicDetected` relate them to what the renderer formats |
| Sanitizer.Converted | src/mcp_azure_devops/features/work_items/tools/utils.py:284-289 | what goes inside the <div>; `Sanitizer.MarkdownRendered` and `PlainLinesJoined` state its two branches |
| Sanitizer.SanitizeDescriptionHtml | src/mcp_azure_devops/features/work_items/tools/utils.py:214-291 | the result is None exactly when the description is None |
| Sanitizer.EmptyUnchanged | src/mcp_azure_devops/features/work_items/tools/utils.py:237-238 | None and "" come back as they are |
| Sanitizer.TaggedLooksLikeHtml | src/mcp_azure_devops/features/work_items/tools/utils.py:243-260 | a text that starts with one of the twelve tags in any letter case, contains `>` and ends in a non-space passes the HTML test |
| Sanitizer.PassthroughIffHtml | src/mcp_azure_devops/features/work_items/tools/utils.py:240-291 | a non-empty description comes back unchanged if and only if its trimmed form looks like HTML |
| Sanitizer.TaggedPassthrough | src/mcp_azure_devops/features/work_items/tools/utils.py:243-261 | such a text comes back unchanged |
| Sanitizer.ParagraphExample | tests/features/work_items/test_utils.py:250-254 | `<p>This is **not** markdown</p>` comes back unchanged |
| Sanitizer.WrappedLooksLikeHtml | src/mcp_azure_devops/features/work_items/tools/utils.py:291 | anything wrapped in <div>...</div> passes the HTML test |
| Sanitizer.OtherwiseWrapped | src/mcp_azure_devops/features/work_items/tools/utils.py:284-291 | every other non-empty description comes back starting with <div> and ending with </div> |
| Sanitizer.MarkdownRendered | src/mcp_azure_devops/features/work_items/tools/utils.py:264-286 | when a markdown pattern occurs in the trimmed text, the original untrimmed text is rendered |
| Sanitizer.PlainLinesJoined | src/mcp_azure_devops/features/work_items/tools/utils.py:287-291 | plain text keeps its lines, joined by <br>, and no line break is left |
| Sanitizer.Idempotent | src/mcp_azure_devops/features/work_items/tools/utils.py:237-291 | sanitizing a sanitized description changes nothing |
| Sanitizer.BlankWrapped | src/mcp_azure_devops/features/work_items/tools/utils.py:240-291 | a whitespace-only text is neither HTML nor markdown: it is wrapped, with <br> for its line breaks |
| Sanitizer.SpacesExample | tests/features/work_items/test_utils.py:241-242 | "   " becomes "<div>   </div>" |
| Sanitizer.LineFormsDetected | src/mcp_azure_devops/features/work_items/tools/utils.py:264-282 | a trimmed text that opens with a heading or a list item as the renderer reads them is detected as markdown |
| Sanitizer.ItalicDetected | src/mcp_azure_devops/features/work_items/tools/utils.py:269-272 | every match of the renderer's italic scanner in the trimmed text, except a lone-delimiter body, is detected |

## Left out

- `server.py` and the other work item tools that call the sanitizer are not
  part of this model.
- Python's regular-expression engine is not modelled in general. Each pattern
  the code uses is a scanner over the string, and the `*Meaning` lemmas state
  that the scanner and the pattern match the same spans.
- Character classes:
  - `\s` and `strip()` use Python's `str.isspace` set, by code point.
  - `\w` and `\d` are restricted to ASCII. Python also matches Unicode letters
    and digits, so `*é*` is formatted by Python but not by the model.
- `Strings.Lower`: does not model Python's full Unicode `lower()`, only A-Z.
  For the twelve tags the code looks for this gives the same answer, since no other
  character lowers to the ASCII letters they contain, except U+0130, which
  lowers to `i` followed by a combining dot.
- `Markdown.ProcessLine` is the part of the loop body that handles a line
  outside a code block, split out of the loop as a method. The loop calls it;
  the source has this code inline.
- The inline pipeline is proved form by form, on whole spans
  (`InlineProofs.Format*`). The composition of several forms in one sentence is
  left to the general substitution lemmas of `InlineFormat`; no single theorem
  covers a mixed line.
- `Sanitizer.ItalicDetected`: a lone delimiter (`___`) is formatted by the
  renderer but not detected by the sanitizer. The lemma therefore excludes a
  body equal to the delimiter. It speaks of italic matches in the text as
  given: an italic span that only appears after the bold pass has rewritten
  the line (as in `x**b***c*`) is not covered.
- Sanitizer.SanitizeDescriptionHtml: its own contract states only when the result is None; the branch taken in every other case is stated by the lemmas listed above.
