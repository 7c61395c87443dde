# Markdown-to-HTML rendering of a transcript-notes app, in Dafny

The application turns a large-language-model answer into HTML notes. It has two
copies of the renderer `markdown_to_html`, and this project models both:

- the top-level `app.py`, which turns every line into one `<li>` or `<p>`;
- `video_summarizer/app.py`, which runs a two-flag state machine that opens
  and closes `<ul>` and `<ol>` containers.

It also models `get_video_id`, which is the same in both files.

Both renderers run the same text passes, in this order:
1. strip the whole input;
2. rewrite `**X**` as `<strong>X</strong>`;
3. delete empty `#`, `##` and `###` lines;
4. rewrite `### X\n` as `<h2>X</h2>\n`;
5. replace each fenced code block by a `[[CODE_BLOCK_i]]` placeholder and record
   the block;
6. render line by line;
7. put the blocks back in place of their placeholders.

Each regular expression substitution is written as an explicit left-to-right
scanner that follows Python's `re` semantics for that pattern:
- a non-greedy `(.*?)` finds the first closing marker;
- `.` does not cross a newline unless DOTALL is set;
- `^` under MULTILINE holds at the start of the text and after each `\n`;
- `\s*$` backtracks to a line end.

Modules:

- `Text` (text.dfy) holds the Python string primitives the code relies on:
  - `str.strip`, `lstrip` and `rstrip` with `str.isspace`, and `lstrip("-*")`;
  - `splitlines` with all of its line boundaries;
  - `split` and `join` on one character, and `str.replace`;
  - `lower`, `str(n)`, and `in` on strings.
- `HtmlEscape` (html_escape.dfy) holds `html.escape` with `quote=True`. A
  reference unescaper is its partner and proves the escaping lossless.
- `Preprocess` (preprocess.dfy) holds the shared passes, the placeholder and code
  block extraction, and the reinsertion loop, written as a method.
- `RootRenderer` (root_renderer.dfy) is `markdown_to_html` of `app.py`:
  - the line loop is a method proved against the function `Elements`;
  - the whole conversion is a method proved against the function `Render`.
- `ListRenderer` (list_renderer.dfy) is `markdown_to_html` of `video_summarizer/app.py`:
  - the loop, with its two flags `in_bullets` and `in_numbered_list`, is a method;
  - it is proved against `Emit`, a function of the lines and the flags;
  - the markup it produces is read back by an independent tag reader `Scan`.
- `VideoId` (video_id.dfy) holds `get_video_id`, with the parts of `urlparse` and
  `parse_qs` it uses.

The model keeps these behaviours of the code, which the output shows:

- **Switching list kinds does not close the open list.** A numbered line does not
  close an open bullet list, and a bullet line does not close an open numbered
  list. Lists of both kinds are therefore open together. The final flush then
  closes `</ul>` before `</ol>` whatever order they were opened in, so
  `- a` followed by `1. x` gives `<ul> <li>a</li> <ol> <li>x</li> </ul> </ol>`:
  the containers overlap, so the output is not well-nested HTML (`ListsOverlap`).
  The lines `1. a`, `- b`, `2. c` give `<ol> <li>a</li> <ul> <li>b</li> <li>c</li> </ul> </ol>`:
  the second numbered item lands inside the bullet list (`NumberedAfterBulletExample`).
- **Numbered lines.** The pattern is `^\d+\.\s`: any whitespace may follow the
  period, not only a space.
- **Headings and placeholders on a line of their own are paragraphs.** A line
  that is exactly a heading or a placeholder reaches the paragraph branch, so it
  is rendered inside `<p>…</p>` (`HeadingParagraph`, `PlaceholderLine`,
  `PlaceholderElement`).
- **Headings and fences behind a list marker are list items.** Neither
  `### (.*?)\n` nor the fence pattern is anchored to the start of a line:
  - `- ### x\n` becomes `- <h2>x</h2>\n` (`MarkedHeading`);
  - a fence behind `- ` becomes `- [[CODE_BLOCK_0]]`, since text without a
    backtick in front of a fence is copied (`ExtractPrefix`).
  Such a line starts with `-`, so the root renderer makes it an `<li>`
  (`RootRenderer.MarkedHeadingItem`, `RootRenderer.MarkedPlaceholderItem`). The
  list renderer does the same unless the line holds `<strong>`
  (`ListRenderer.MarkedItem`, `ListRenderer.MarkedPlaceholderItem`).
- **Headings on `\r\n` lines.** `### (.*?)\n` takes the `\r` into the heading:
  `### a\r\nb` becomes `<h2>a\r</h2>\nb`, which `splitlines` breaks into the three
  lines `<h2>a`, `</h2>` and `b` (`HeadingCarriageReturn`, `HeadingSplitByCr`).
- **Placeholder collisions.** Escaping leaves `[` and `]` alone, so a code body can
  hold a literal `[[CODE_BLOCK_j]]`. The loop puts block `i` back in round `i`, and
  `str.replace` does not rescan the text it inserts. So a `[[CODE_BLOCK_j]]` inside
  the body of block `i` is replaced by block `j` exactly when `i < j`: round `j`
  comes after block `i` is in the output (`PlaceholderInEarlierBody`). One inside
  block `j`'s own body, or the body of a later block, stays as written
  (`PlaceholderInOwnBody`). A literal `[[CODE_BLOCK_j]]` in the document's own text
  is no different from a placeholder to the loop: when there is a block `j`, it
  is replaced by that block in round `j` (`Reinserted`, `ReinsertOne`).

## Model

| member | source | states |
|---|---|---|
| Text.StripSpec | app.py:484 | `strip` gives the empty string exactly when the text is all whitespace, and its result neither starts nor ends with whitespace |
| Text.LStripSpec | app.py:484 | `lstrip` keeps a suffix, drops only whitespace, and what it keeps does not start with whitespace |
| Text.RStripSpec | app.py:484 | `rstrip` keeps a prefix, drops only whitespace, and what it keeps does not end with whitespace |
| Text.StripChars | app.py:504 | `strip` adds no character |
| Text.StripStrip | app.py:504-506 | stripping twice is stripping once |
| Text.StripPadded | app.py:504 | whitespace around trimmed text is exactly what `strip` removes |
| Text.StripTrimmed | app.py:504 | text that neither starts nor ends with whitespace is left as it is |
| Text.LStripMarkersSpec | app.py:506 | `lstrip("-*")` keeps a suffix that does not start with a marker, and drops only `-` and `*` |
| Text.LStripMarkersOf | app.py:506 | a run of markers in front of text not starting with a marker is exactly what `lstrip("-*")` removes |
| Text.LineBreakIsSpace | app.py:501-504 | every `splitlines` boundary is whitespace, so a stripped line holds no line boundary at its ends |
| Text.SplitLinesNewlines | app.py:501 | for non-empty text whose only line boundary is `\n`, `splitlines` is `split("\n")` after one final `\n` is dropped |
| Text.JoinSplitLines | app.py:501-510 | for text whose only line boundary is `\n`, joining its lines with `\n` gives the text back without one final `\n` |
| Text.SplitLinesFirstCr | app.py:501 | a line ended by a `\r` that no `\n` follows is split off as the first line |
| Text.SplitLinesThree | app.py:501 | three lines without a boundary, the last non-empty, joined by `\n` split back into those three lines |
| Text.SplitLinesOneLine | app.py:501 | non-empty text without a line boundary is one line |
| Text.SplitLinesFirst | app.py:501 | a line ended by `\n` is split off as the first line |
| Text.SplitOn | app.py:408 | `split` gives at least one part, and no part holds the separator |
| Text.JoinSplit | app.py:408 | joining the parts of a split with the separator gives back the text |
| Text.SplitJoin | app.py:510 | splitting a `"\n".join` of separator-free parts gives back the parts |
| Text.IndexOf | app.py:411 | the first occurrence of a character, or the length when there is none |
| Text.ContainsAt | app.py:407 | an occurrence at a known offset makes `in` true |
| Text.ContainsWitness | app.py:407 | `in` is true only where the substring occurs at some offset |
| Text.ReplaceAbsent | app.py:511-512 | `replace` of a string that does not occur changes nothing |
| Text.ReplaceSkips | app.py:511-512 | text without the first character of the pattern is copied unchanged |
| Text.Lower | app.py:492 | `lower` keeps the length, changes exactly the upper-case ASCII letters, each to the letter 32 code points above it, and leaves none |
| Text.NatToString | app.py:495 | `str(n)` is a non-empty string of decimal digits with no leading zero |
| Text.NatToStringValue | app.py:495 | reading the decimal string of `n` back gives `n` |
| Text.NatToStringInjective | app.py:495 | different numbers have different decimal strings |
| Text.CountConcat | app.py:487 | occurrences in a concatenation add up |
| HtmlEscape.Escape | app.py:494 | escaped text holds no raw `<`, `>`, `"` or `'` and is at least as long as the input |
| HtmlEscape.UnescapeEscape | app.py:494 | unescaping escaped text gives back the original, so escaping loses nothing |
| HtmlEscape.EscapePlain | app.py:494 | text without `&`, `<`, `>`, `"`, `'` is left as it is |
| HtmlEscape.EscapeConcat | app.py:494 | escaping works character by character: it distributes over concatenation |
| HtmlEscape.EscapeTag | app.py:494 | a tag such as `<script>` in code becomes inert text `&lt;script&gt;` |
| Preprocess.Bold | app.py:485 | the `\*\*(.*?)\*\*` pass, scanning left to right and resuming after each span; pinned down by `BoldSpan`, `BoldUnmatched` and `BoldSkips`, and undone by `Unbold` (`UnboldBold`) |
| Preprocess.BoldCloseSpec | app.py:485 | the closing `**` found is the first on the same line, and when none is found the line has none |
| Preprocess.BoldSpan | app.py:485 | `**X**` with the shortest `X` on one line becomes `<strong>X</strong>`, and the scan resumes after it |
| Preprocess.BoldUnmatched | app.py:485 | when no two `**` share a line, the bold pass leaves the text untouched, so a lone `**` stays |
| Preprocess.BoldSkips | app.py:485 | text without `*` passes through the bold pass unchanged |
| Preprocess.UnboldBold | app.py:485 | for text without `<`, turning each `<strong>`/`</strong>` back into `**` undoes the bold pass |
| Preprocess.DropEmptyHeadings | app.py:486 | the MULTILINE `^#{1,3}\s*$` deletion, where `^` holds at the start of the text and after each `\n`; pinned down by `DropKeepsVisible`, `DropEmptyHeadingLine`, `DropEmptyHeadingAtEnd` and `DropNoHash` |
| Preprocess.EmptyHeadingLenSpec | app.py:486 | a non-zero length is a match of `^#{1,3}\s*$` (one to three `#`, then whitespace, then a line end or the end), and every match is non-empty and no longer, so zero means no match |
| Preprocess.DropKeepsVisible | app.py:486 | deleting empty heading lines removes only `#` and whitespace: every other character stays, in order |
| Preprocess.DropEmptyHeadingLine | app.py:486 | an empty `#`/`##`/`###` line followed by visible text loses its marks and padding and keeps its newline |
| Preprocess.DropEmptyHeadingAtEnd | app.py:486 | an empty heading line at the end takes the whitespace and blank lines after it away too |
| Preprocess.DropNoHash | app.py:486 | text without `#` is untouched |
| Preprocess.Headings | app.py:487 | the unanchored `### (.*?)\n` pass; pinned down by `HeadingLine`, `HeadingsPrefix`, `HeadingNeedsNewline`, `HeadingsNoHash` and `HeadingsKeepLineBreaks` |
| Preprocess.HeadingsPrefix | app.py:487 | the pattern is not anchored: text without `#` in front of the rest is copied, and the pass goes on behind it |
| Preprocess.MarkedHeading | app.py:487 | `- ### X\n` becomes `- <h2>X</h2>\n`: a list marker in front of a heading is kept |
| Preprocess.HeadingLine | app.py:487 | `### X\n` becomes `<h2>X</h2>\n` and the scan resumes after the newline |
| Preprocess.HeadingNeedsNewline | app.py:487 | without a newline nothing is a heading: the text is untouched |
| Preprocess.HeadingsNoHash | app.py:487 | text without `#` is untouched |
| Preprocess.HeadingsKeepLineBreaks | app.py:487 | the heading pass keeps the number of each line-boundary character; where a heading line ends in `\r\n` the lines still change, as the next two rows show |
| Preprocess.HeadingCarriageReturn | app.py:487 | `### x\r\n` becomes `<h2>x\r</h2>\n`: the `\r` is taken into the heading |
| Preprocess.HeadingSplitByCr | app.py:487-501 | `splitlines` breaks such a heading into the two lines `<h2>x` and `</h2>` in front of the rest |
| Preprocess.FenceCloseSpec | app.py:499 | with DOTALL the block body ends at the first closing fence, and a missing one means there is no fence left |
| Preprocess.MatchFenced | app.py:499 | a fence, a `\w*` tag, a newline, a body without a fence and a fence form one match, with the tag and body as its groups |
| Preprocess.ExtractFrom | app.py:491-499 | the fence `re.sub` with its callback, numbering the blocks from `n`; pinned down by `ExtractBlock`, `ExtractNoFence`, `ExtractPrefix` and `ExtractUnterminated` |
| Preprocess.ExtractAt | app.py:491-499 | one step of that pass on non-empty text: a match becomes its placeholder and its groups are recorded, and otherwise one character is copied; the pass resumes after what it consumed |
| Preprocess.ExtractBlock | app.py:491-499 | a complete block becomes placeholder `n` and is recorded as block `n`; the blocks after it are numbered from `n + 1` |
| Preprocess.ExtractNoFence | app.py:499 | text without a fence has no block and is kept as it is |
| Preprocess.ExtractPrefix | app.py:499 | text without a backtick in front of the rest is copied before the rest's extraction and adds no block |
| Preprocess.TextBlockTextExtraction | app.py:484-499 | a line of text, a fenced block and a line of text pass the text passes unchanged and extract to the two lines around placeholder 0, with the block recorded |
| Preprocess.ExtractUnterminated | app.py:499 | an opening fence that is never closed is not a match: the text is kept as it is |
| Preprocess.PlaceholderChars | app.py:495 | a placeholder holds no whitespace, list marker or `<` |
| Preprocess.PlaceholderInjective | app.py:495 | different blocks get different placeholders |
| Preprocess.PlaceholderOneLine | app.py:495 | a placeholder is one trimmed line |
| Preprocess.Reinserted | app.py:511-512 | round `i` replaces every `[[CODE_BLOCK_i]]` in the output so far by block `i`, in order; pinned down by `ReinsertedSpliced`, `ReinsertedPrefix`, `ReplaceOther` and `PlaceholderInEarlierBody` |
| Preprocess.ReinsertCodeBlocks | app.py:511-512 | the reinsertion loop replaces placeholder `i` by block `i`, for each block in order |
| Preprocess.ReinsertedPlain | app.py:511-512 | output without `[` is not changed by reinsertion |
| Preprocess.ReinsertOne | app.py:511-512 | the one placeholder of a one-block output is replaced by the block |
| Preprocess.ReinsertMiddleParagraph | app.py:510-512 | in three joined paragraphs whose middle one is placeholder 0, the block takes the placeholder's place and the other two are kept |
| Preprocess.ReinsertedSpliced | app.py:511-512 | for any number `k` of blocks, placeholders `0` to `k - 1` between texts without `[` become blocks `0` to `k - 1`, in order, and the texts are kept |
| Preprocess.ReinsertedPrefix | app.py:511-512 | after `m` rounds of the loop, blocks `0` to `m - 1` stand in place of their placeholders and the later placeholders are still there |
| Preprocess.ReplaceOther | app.py:511-512 | replacing placeholder `m` leaves a different placeholder `l` in front of the text as it is |
| Preprocess.PlaceholderInEarlierBody | app.py:494-512 | a `[[CODE_BLOCK_1]]` inside block 0 is replaced by block 1 in the next round |
| Preprocess.PlaceholderInOwnBody | app.py:494-512 | a `[[CODE_BLOCK_0]]` inside block 0 stays: `str.replace` does not rescan what it inserts |
| Preprocess.PreparePlain | app.py:484-487 | without `*` or `#` the text passes only reduce to stripping |
| Preprocess.PrepareIdentity | app.py:484-487 | the text passes leave a lone fenced block unchanged when its body has no `*`, `#` or backtick |
| Preprocess.FenceOnlyDocument | app.py:484-499 | a document that is one fenced block extracts to placeholder 0 and that block |
| Preprocess.UnterminatedDocument | app.py:484-499 | a document that opens a fence and never closes it extracts to itself, with no block |
| Preprocess.FenceLine | app.py:499-508 | the opening line of a fence is one trimmed line starting with a backtick |
| Preprocess.FenceHeadLines | app.py:499-501 | the opening line of an unclosed fence is split off as the first line |
| RootRenderer.LineElement | app.py:504-508 | the loop body: for a stripped line that starts with `-` or `*`, `<li>` of the text after the markers, stripped; for any other line, `<p>` of the stripped line. Pinned down by `ItemElement`, `ParagraphElement`, `ItemIff` and `MarkedItem` |
| RootRenderer.BlockHtml | app.py:492-496 | what `replace_code_block` records: the tag stripped and lower-cased, the body stripped and escaped; shown by `WordBlockHtml` and `SingleCodeBlock` |
| RootRenderer.ProcessLines | app.py:502-508 | the loop gives one element per line, in order, each the element its line calls for |
| RootRenderer.MarkdownToHtml | app.py:483-514 | the whole conversion, pass by pass, equals the function `Render` the lemmas below are about |
| RootRenderer.ItemElement | app.py:504-506 | a line of whitespace, markers, whitespace, text and whitespace becomes `<li>text</li>` |
| RootRenderer.ParagraphElement | app.py:504-508 | any other line becomes `<p>` around its trimmed text, so a blank line gives `<p></p>` |
| RootRenderer.ItemIff | app.py:505-508 | a line is rendered as `<li>` exactly when, stripped, it starts with `-` or `*` |
| RootRenderer.HeadingParagraph | app.py:487-508 | a heading is wrapped in a paragraph |
| RootRenderer.MarkedItem | app.py:504-506 | a trimmed text behind `- ` that does not start with a marker becomes `<li>` of that text, whatever it holds |
| RootRenderer.MarkedHeadingItem | app.py:487-506 | a heading behind a list marker becomes `<li><h2>…</h2></li>`, not a paragraph |
| RootRenderer.MarkedPlaceholderItem | app.py:499-506 | a placeholder behind a list marker becomes `<li>` of the placeholder, so its block lands inside the item |
| RootRenderer.ElementNoNewline | app.py:503-508 | an element adds no newline to its line |
| RootRenderer.EmptyDocument | app.py:483-514 | an empty or all-whitespace document renders as the empty string |
| RootRenderer.PlainDocument | app.py:483-514 | without `*`, `#` or a backtick, the output is the elements of the stripped input's lines joined by newlines |
| RootRenderer.OneElementPerLine | app.py:501-510 | for any document whose working text is non-empty, the `\n`-separated lines of the joined output are exactly the elements of its lines, one per line, in order |
| RootRenderer.PlainLinesKept | app.py:483-510 | without `*`, `#` or a backtick, the output's `\n`-separated lines are one element per line of the stripped input, in order |
| RootRenderer.TextBlockTextDocument | app.py:483-514 | a line of text, a fenced block and a line of text render as three paragraphs, the middle one the block with its tag lower-cased and the stripped body escaped |
| RootRenderer.TextBlockTextElements | app.py:501-508 | the working text of such a document is three lines, each a paragraph |
| RootRenderer.ParagraphLine | app.py:504-508 | a trimmed line that does not start with `-` or `*` becomes a paragraph of itself |
| RootRenderer.PlaceholderElement | app.py:495-508 | a placeholder is one line, and a paragraph |
| RootRenderer.SingleCodeBlock | app.py:491-512 | a document that is one fenced block renders as `<pre><code class="language-…">` with the tag lower-cased and the stripped body escaped, inside a paragraph |
| RootRenderer.WordBlockHtml | app.py:492-496 | a `\w*` tag is only lower-cased, and the body is stripped and escaped |
| RootRenderer.PlaceholderLine | app.py:495-508 | the placeholder line becomes a paragraph |
| RootRenderer.FirstLineParagraph | app.py:501-510 | a first line that is not a list item is a paragraph, followed by a newline and the rendering of the rest |
| RootRenderer.UnterminatedFence | app.py:499-510 | an unclosed fence stays text: its opening line is emitted as `<p>```lang</p>` and the other lines are rendered as ordinary lines |
| ListRenderer.IsNumbered | video_summarizer/app.py:148 | `re.match(r"^\d+\.\s", line)`: one or more ASCII digits, a period, then whitespace; used by `ExampleNumbered` and `BulletNotNumbered` |
| ListRenderer.NumberText | video_summarizer/app.py:152 | `re.sub(r"^\d+\.\s*", "", line)`: the number, its period and the whitespace after them are removed; shown by `ExampleNumbered` |
| ListRenderer.IsBullet | video_summarizer/app.py:157 | starts with `-` or `*` and holds no `<strong>`; used by `ExampleBullet`, `BoldLineIsParagraph` and `BulletNotNumbered` |
| ListRenderer.BulletText | video_summarizer/app.py:161 | `line.lstrip("-*").strip()`; shown by `ExampleBullet` and `MarkedItem` |
| ListRenderer.Step | video_summarizer/app.py:136-172 | one pass of the loop body: what it appends and the flags it leaves; `ProcessLine` computes it, and `StepNumberedIn`, `StepBulletIn`, `BlankSeparatesLists` and `ParagraphClosesLists` give its four branches |
| ListRenderer.Emit | video_summarizer/app.py:135-177 | the loop from given flags, then the closes after it; pinned down by `ListTagsConsistent`, `NumberedRunIn`, `BulletRunIn` and `OneElementPerLine` |
| ListRenderer.ProcessedLines | video_summarizer/app.py:130-177 | `Emit` from both flags `False`, as the function starts; `ProcessLines` computes it |
| ListRenderer.BlockHtml | video_summarizer/app.py:121-124 | what `replace_code_block` records: the tag as matched, the body stripped and escaped; shown by `SingleCodeBlock` |
| ListRenderer.ProcessLines | video_summarizer/app.py:130-177 | the loop with its two flags, and the final flush, produce exactly `ProcessedLines` of the lines |
| ListRenderer.ProcessLine | video_summarizer/app.py:136-172 | one pass of the loop body appends what `Step` says and leaves the flags it says |
| ListRenderer.MarkdownToHtml | video_summarizer/app.py:106-184 | the whole conversion, pass by pass, equals the function `Render` the lemmas below are about |
| ListRenderer.ListTagsConsistent | video_summarizer/app.py:135-177 | read by a tag reader, the output never opens a kind of list already open and never closes one that is not open; it puts `<li>` only inside a list and `<p>` only outside all lists; both lists are closed at the end |
| ListRenderer.TagsBalanced | video_summarizer/app.py:139-177 | there are as many `<ul>` as `</ul>` and as many `<ol>` as `</ol>` |
| ListRenderer.ScanCounts | video_summarizer/app.py:139-177 | in markup the tag reader accepts, the opening and closing tags of each kind differ by the lists open at the start and at the end |
| ListRenderer.OneElementPerLine | video_summarizer/app.py:135-177 | without the container tags, the output is one element per non-blank line, in order: `<li>` of the number-stripped text for a numbered line, `<li>` of the marker-stripped text for a bullet line, and `<p>` otherwise |
| ListRenderer.NumberedRun | video_summarizer/app.py:148-154 | a run of numbered lines gives one `<ol>`, one `<li>` per line, in order, and one `</ol>` |
| ListRenderer.BulletRun | video_summarizer/app.py:157-163 | a run of bullet lines gives one `<ul>`, one `<li>` per line, in order, and one `</ul>` |
| ListRenderer.NumberedRunIn | video_summarizer/app.py:148-154 | a run of numbered lines, from any flags and before any lines, gives `<ol>` unless one is open, then one `<li>` per line, in order; the later lines are processed with the numbered flag set and the bullet flag unchanged |
| ListRenderer.BulletRunIn | video_summarizer/app.py:157-163 | a run of bullet lines, from any flags and before any lines, gives `<ul>` unless one is open, then one `<li>` per line, in order; the later lines are processed with the bullet flag set and the numbered flag unchanged |
| ListRenderer.NumberedContinue | video_summarizer/app.py:148-154 | while the numbered list is open, each numbered line adds its item and nothing else |
| ListRenderer.BulletContinue | video_summarizer/app.py:157-163 | while the bullet list is open, each bullet line adds its item and nothing else |
| ListRenderer.StepNumberedIn | video_summarizer/app.py:148-154 | a numbered line emits `<ol>` only when the numbered list is closed, then its item, and sets the numbered flag |
| ListRenderer.StepBulletIn | video_summarizer/app.py:157-163 | a bullet line emits `<ul>` only when the bullet list is closed, then its item, and sets the bullet flag |
| ListRenderer.BulletNotNumbered | video_summarizer/app.py:148-157 | a bullet line never matches the numbered pattern, so the two branches do not compete |
| ListRenderer.BlankSeparatesLists | video_summarizer/app.py:138-145 | a blank line emits no element: it closes `</ul>` and then `</ol>` if open, and clears both flags |
| ListRenderer.ParagraphClosesLists | video_summarizer/app.py:165-172 | any other non-blank line closes `</ul>` and then `</ol>` if open, and becomes `<p>line</p>` |
| ListRenderer.BoldLineIsParagraph | video_summarizer/app.py:157-172 | a line that starts with `-` or `*` but holds `<strong>` is not a list item: it closes the open lists and becomes a paragraph |
| ListRenderer.HeadingParagraph | video_summarizer/app.py:165-172 | a heading closes the open lists and is wrapped in a paragraph |
| ListRenderer.MarkedItem | video_summarizer/app.py:157-163 | a trimmed text without `<strong>` behind `- `, not starting with a marker, is a bullet item: `<ul>` unless one is open, then `<li>` of the text, and the bullet flag is set |
| ListRenderer.MarkedPlaceholderItem | video_summarizer/app.py:127-163 | a placeholder behind a list marker is such a bullet item, so its block lands inside the `<li>` |
| ListRenderer.ListsOverlap | video_summarizer/app.py:148-177 | a bullet line then a numbered line gives `<ul>`, the item, `<ol>`, the item, `</ul>`, `</ol>`: the first list is not closed and the containers overlap |
| ListRenderer.BulletInsideNumbered | video_summarizer/app.py:148-177 | a numbered line then a bullet line gives `<ol>`, the item, `<ul>`, the item, `</ul>`, `</ol>` |
| ListRenderer.NumberedAfterBullet | video_summarizer/app.py:148-177 | numbered, bullet, numbered gives `<ol>`, item, `<ul>`, item, item, `</ul>`, `</ol>`: no second `<ol>`, and the second numbered item lands inside the bullet list |
| ListRenderer.NumberedAfterBulletLetters | video_summarizer/app.py:148-177 | the lines `d1. x`, `- y`, `d2. z` give `<ol>`, `<li>x</li>`, `<ul>`, `<li>y</li>`, `<li>z</li>`, `</ul>`, `</ol>` |
| ListRenderer.NumberedAfterBulletExample | video_summarizer/app.py:148-177 | the lines `1. a`, `- b`, `2. c` give `<ol>`, `<li>a</li>`, `<ul>`, `<li>b</li>`, `<li>c</li>`, `</ul>`, `</ol>` |
| ListRenderer.ExampleNumbered | video_summarizer/app.py:148-152 | `d. x`, a digit, a period, a space and a letter, is a numbered line whose text is `x` |
| ListRenderer.ExampleBullet | video_summarizer/app.py:157-161 | `- x` is a bullet line whose text is `x` |
| ListRenderer.PlainLine | video_summarizer/app.py:165-172 | a trimmed line starting with neither a digit nor a marker becomes a paragraph |
| ListRenderer.EmptyDocument | video_summarizer/app.py:106-184 | an empty or all-whitespace document renders as the empty string |
| ListRenderer.SingleCodeBlock | video_summarizer/app.py:119-182 | a document that is one fenced block renders as that block inside a paragraph, with the tag verbatim and the stripped body escaped |
| ListRenderer.PlaceholderLine | video_summarizer/app.py:123-172 | the placeholder line becomes a paragraph |
| ListRenderer.FenceLines | video_summarizer/app.py:127-172 | the opening line of an unclosed fence becomes a paragraph in front of the other lines |
| ListRenderer.TextBlockTextDocument | video_summarizer/app.py:106-184 | a line of text, a fenced block and a line of text render as three paragraphs, the middle one the block with its tag as written and the stripped body escaped |
| ListRenderer.TextBlockTextLines | video_summarizer/app.py:130-177 | the working text of such a document is three lines, each a paragraph |
| ListRenderer.ThreeParagraphs | video_summarizer/app.py:165-177 | three trimmed non-blank lines that are neither numbered nor bullets give three paragraphs and no container tag |
| ListRenderer.PlaceholderParagraph | video_summarizer/app.py:123-172 | a placeholder is one line, and neither numbered nor a bullet |
| ListRenderer.UnterminatedFence | video_summarizer/app.py:127-180 | an unclosed fence stays text: its opening line is emitted as a paragraph and the other lines are processed as ordinary lines |
| VideoId.Query | app.py:410 | `urlparse(url).query`: the text between the first `?` and the first `#` after the unsafe characters are removed, holding no `#`; pinned down by `QueryOf` and `QueryNone` |
| VideoId.RemoveUnsafeChar | app.py:410 | a tab, carriage return or newline is deleted, and any other character kept |
| VideoId.RemoveUnsafeConcat | app.py:410 | the deletion works character by character: it distributes over concatenation |
| VideoId.RemoveUnsafeChars | app.py:410 | the deletion adds no character |
| VideoId.QueryOf | app.py:410 | for `p?q` followed by an empty or `#` fragment, with no `?` or `#` in `p` and no `#` in `q`, the query is `q` with tabs and line ends deleted |
| VideoId.QueryNone | app.py:410 | without a `?` before the fragment, the query is empty |
| VideoId.PlusToSpace | app.py:411 | `parse_qs`'s `replace('+', ' ')`, as `ReplaceAll`; `PlusToSpaceChars` gives it character by character |
| VideoId.PlusToSpaceChars | app.py:411 | the length is kept, each `+` becomes a space, and every other character is kept at its place |
| VideoId.SplitLast | app.py:408 | the last part of a split is a suffix of the text, preceded by the separator unless it is all of the text |
| VideoId.ShortLink | app.py:407-408 | a `youtu.be` link always gives an id: the text after its last `/`, or the whole link when it has none |
| VideoId.ShortLinkRoundTrip | app.py:407-408 | `https://youtu.be/` followed by an id without `/` gives that id back |
| VideoId.FieldValue | app.py:411 | one `&`-separated field, split at its first `=`, with `+` read as a space; a field without `=` or with an empty value gives nothing; pinned down by `FieldValueSpec` |
| VideoId.FirstValue | app.py:411 | the value of the first field that gives one; pinned down by `FirstValueSpec` |
| VideoId.QueryValue | app.py:411 | `parse_qs(query)[name][0]`, with `None` for the `KeyError` of a missing name |
| VideoId.GetVideoId | app.py:404-414 | `get_video_id`: the last `/`-part of a `youtu.be` link, else the first `v` value of a `youtube.com` link, else `None`; pinned down by `ShortLink`, `WatchLink`, `OtherLink` and the two round trips |
| VideoId.FieldValueSpec | app.py:411 | for a name without `+`, space or `=`: a query field gives a value for it exactly when the field is `name=` followed by a non-empty value, and the value is that text with `+` read as a space |
| VideoId.FirstValueSpec | app.py:411 | a name is found exactly when some field sets it, and the value is that of the first field that does |
| VideoId.WatchLink | app.py:409-411 | a `youtube.com` link that does not name `youtu.be` gives `None` exactly when no query field sets `v`, and otherwise the first `v` value (a link naming `youtu.be` takes the short-link branch first) |
| VideoId.WatchLinkRoundTrip | app.py:409-411 | `https://www.youtube.com/watch?v=` followed by a non-empty id of ASCII letters, digits, `_` and `-` gives that id back |
| VideoId.OtherLink | app.py:407-414 | a link that names neither host gives `None` |

`get_video_id` in video_summarizer/app.py:73-82 is the same code as app.py:404-414.
The `VideoId` rows hold for both copies.

## Left out

- The Streamlit user interface, the Gemini calls (`generate_gemini_content`,
  `translate_text`, list_models.py), transcript fetching, `create_html_file`, the
  prompt and language tables, and the port setting. They are network, file and UI
  code with no logic of their own to verify.
- Unicode classes: `\w` and `\d` are modelled on ASCII, as is `str.lower`.
  Python's `str` patterns also match non-ASCII letters and digits, so, for
  example, a line numbered with Arabic-Indic digits is a numbered line there.
  The whitespace and line-boundary sets are Python's full Unicode sets.
- VideoId.GetVideoId: `parse_qs` percent-decoding is not modelled.
- VideoId.GetVideoId: `urlparse` also
  - drops leading control characters and spaces, which the model does not;
  - raises `ValueError` on an unbalanced `[` or `]` in the host, which `get_video_id`
    turns into `None`, and which the model does not;
  - raises `ValueError` when a host has balanced brackets and the text between them
    is not a valid IPv6 or IPvFuture address: `https://[x]youtube.com/watch?v=a`
    gives `None` there and `"a"` in the model;
  - raises `ValueError` when a non-ASCII host, normalised to NFKC, gains one of
    `/?#@:`, which the model does not check.
- `^#{1,3}\s*$`, `### (.*?)\n` and the fence pattern are scanners that agree
  with Python's `re` for these patterns. The equivalence to the regex engine itself
  is not proved.
- The whole-document lemmas cover these families of inputs:
  - whitespace-only documents;
  - documents without `*`, `#` or backticks;
  - one fenced block;
  - a line of text, a fenced block and a line of text;
  - an unclosed fence.

  For any other document, the partial results hold: the pass lemmas, the loop
  methods' contracts, and the list invariants, which hold for every list of lines.
