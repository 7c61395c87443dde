/** `markdown_to_html` of the top-level `app.py`: after the shared text passes and
    code extraction, every line becomes one element, `<li>` for a line that starts
    with a list marker and `<p>` for anything else, blank lines included. The
    language tag of a code block is stripped and lower-cased. */
module RootRenderer {
  import opened Text
  import opened HtmlEscape
  import opened Preprocess

  /** `line.startswith(("-", "*"))`. */
  predicate IsItem(line: string) {
    line != [] && (line[0] == '-' || line[0] == '*')
  }

  /** The element the loop body produces for one line of the working text. */
  function LineElement(raw: string): string {
    var line := Strip(raw);
    if IsItem(line) then "<li>" + Strip(LStripMarkers(line)) + "</li>"
    else "<p>" + line + "</p>"
  }

  /** `processed_lines` after the loop: one element per line, in order. */
  function Elements(lines: seq<string>): (r: seq<string>)
    ensures |r| == |lines|
  {
    seq(|lines|, k requires 0 <= k < |lines| => LineElement(lines[k]))
  }

  /** What `replace_code_block` records for one block. */
  function BlockHtml(b: CodeBlock): string {
    CodeHtml(Lower(Strip(b.lang)), Escape(Strip(b.code)))
  }

  function BlockHtmls(blocks: seq<CodeBlock>): (r: seq<string>)
    ensures |r| == |blocks|
  {
    seq(|blocks|, k requires 0 <= k < |blocks| => BlockHtml(blocks[k]))
  }

  /** The whole conversion, as a function of the input text. */
  function Render(md: string): string {
    var e := ExtractFrom(Prepare(md), 0);
    Reinserted(JoinOn(Elements(SplitLines(e.text)), '\n'), BlockHtmls(e.blocks))
  }

  /** The `for line in lines` loop. */
  method ProcessLines(lines: seq<string>) returns (processed: seq<string>)
    ensures |processed| == |lines|
    ensures forall k :: 0 <= k < |lines| ==> processed[k] == LineElement(lines[k])
  {
    processed := [];
    for i := 0 to |lines|
      invariant |processed| == i
      invariant forall k :: 0 <= k < i ==> processed[k] == LineElement(lines[k])
    {
      var line := Strip(lines[i]);
      if IsItem(line) {
        processed := processed + ["<li>" + Strip(LStripMarkers(line)) + "</li>"];
      } else {
        processed := processed + ["<p>" + line + "</p>"];
      }
    }
  }

  /** `markdown_to_html(md_text)`, pass by pass. */
  method MarkdownToHtml(md: string) returns (html: string)
    ensures html == Render(md)
  {
    var text := Strip(md);
    text := Bold(text);
    text := DropEmptyHeadings(text, true);
    text := Headings(text);
    var e := ExtractFrom(text, 0);
    var codeBlocks := BlockHtmls(e.blocks);
    var lines := SplitLines(e.text);
    var processed := ProcessLines(lines);
    assert processed == Elements(lines);
    html := JoinOn(processed, '\n');
    html := ReinsertCodeBlocks(html, codeBlocks);
  }

  // ================================================================ one line

  /** A list line: its markers and the whitespace around them are dropped. */
  lemma ItemElement(w1: string, marks: string, w2: string, text: string, w3: string)
    requires AllSpace(w1) && AllSpace(w2) && AllSpace(w3)
    requires marks != [] && forall i :: 0 <= i < |marks| ==> marks[i] == '-' || marks[i] == '*'
    requires Trimmed(text) && (text == [] || (text[0] != '-' && text[0] != '*'))
    ensures LineElement(w1 + marks + w2 + text + w3) == "<li>" + text + "</li>"
  {
    var core := marks + w2 + text;
    assert w1 + marks + w2 + text + w3 == w1 + core + w3;
    if text == [] {
      assert marks + w2 + text == marks + w2;
      assert w1 + core + w3 == w1 + marks + (w2 + w3);
      StripPadded(w1, marks, w2 + w3);
      LStripMarkersOf(marks, []);
      assert marks + [] == marks;
    } else {
      assert core[|core| - 1] == text[|text| - 1];
      StripPadded(w1, core, w3);
      assert core == marks + (w2 + text);
      LStripMarkersOf(marks, w2 + text);
      StripPadded(w2, text, []);
      assert w2 + text + [] == w2 + text;
    }
  }

  /** Any other line becomes a paragraph of its trimmed text. */
  lemma ParagraphElement(w1: string, text: string, w3: string)
    requires AllSpace(w1) && AllSpace(w3)
    requires Trimmed(text) && (text == [] || (text[0] != '-' && text[0] != '*'))
    ensures LineElement(w1 + text + w3) == "<p>" + text + "</p>"
  {
    StripPadded(w1, text, w3);
  }

  /** A line is rendered as a list item exactly when it starts, after whitespace, with a marker. */
  lemma ItemIff(raw: string)
    ensures StartsWith(LineElement(raw), "<li>") <==> IsItem(Strip(raw))
  {
    var line := Strip(raw);
    if !IsItem(line) {
      var r := "<p>" + line + "</p>";
      assert r[1] == 'p';
    }
  }

  /** A heading is not a list item: it is wrapped in a paragraph. */
  lemma HeadingParagraph(x: string)
    ensures LineElement("<h2>" + x + "</h2>") == "<p>" + ("<h2>" + x + "</h2>") + "</p>"
  {
    var h := "<h2>" + x + "</h2>";
    assert h[0] == '<' && h[|h| - 1] == '>';
    StripTrimmed(h);
  }

  /** A trimmed text behind a `- ` marker is a list item, whatever it holds. */
  lemma MarkedItem(t: string)
    requires t != [] && Trimmed(t) && t[0] != '-' && t[0] != '*'
    ensures LineElement("- " + t) == "<li>" + t + "</li>"
  {
    var space: string := " ";
    assert AllSpace(space) && AllSpace([]);
    assert [] + "-" + space + t + [] == "- " + t;
    ItemElement([], "-", space, t, []);
  }

  /** A heading behind a list marker is an item, not a paragraph. */
  lemma MarkedHeadingItem(x: string)
    ensures LineElement("- <h2>" + x + "</h2>") == "<li><h2>" + x + "</h2></li>"
  {
    var h := "<h2>" + x + "</h2>";
    assert h[0] == '<' && h[|h| - 1] == '>';
    MarkedItem(h);
    assert "- " + h == "- <h2>" + x + "</h2>";
    assert "<li>" + h + "</li>" == "<li><h2>" + x + "</h2></li>";
  }

  /** A placeholder behind a list marker is an item, not a paragraph. */
  lemma MarkedPlaceholderItem(n: nat)
    ensures LineElement("- " + Placeholder(n)) == "<li>" + Placeholder(n) + "</li>"
  {
    var p := Placeholder(n);
    PlaceholderChars(n);
    assert !IsSpace(p[0]) && !IsSpace(p[|p| - 1]);
    MarkedItem(p);
  }

  lemma {:induction false} ElementNoNewline(raw: string)
    requires '\n' !in raw
    ensures '\n' !in LineElement(raw)
  {
    var line := Strip(raw);
    StripChars(raw);
    var marked := LStripMarkers(line);
    LStripMarkersSpec(line);
    assert forall c :: c in marked ==> c in line;
    StripChars(marked);
  }

  // ================================================================ whole documents

  /** An empty or all-whitespace document renders as the empty string. */
  lemma EmptyDocument(md: string)
    requires AllSpace(md)
    ensures Render(md) == ""
  {
    StripSpec(md);
    assert Prepare(md) == [];
  }

  /** Without `*`, `#` or a backtick, only the line pass changes the text: the
      output is one element per line of the trimmed input, joined by newlines. */
  lemma PlainDocument(md: string)
    requires '*' !in md && '#' !in md && '`' !in md
    ensures Render(md) == JoinOn(Elements(SplitLines(Strip(md))), '\n')
  {
    PreparePlain(md);
    var s := Strip(md);
    StripChars(md);
    ExtractNoFence(s, 0);
  }

  /** The elements of the working text's lines are joined by newlines, and no
      element holds a newline, so each line of the working text is exactly one
      line of the joined text, before the code blocks go back in. */
  lemma OneElementPerLine(md: string)
    requires ExtractFrom(Prepare(md), 0).text != []
    ensures var t := ExtractFrom(Prepare(md), 0).text;
      SplitOn(JoinOn(Elements(SplitLines(t)), '\n'), '\n') == Elements(SplitLines(t))
  {
    var lines := SplitLines(ExtractFrom(Prepare(md), 0).text);
    ElementsOwnLines(lines);
  }

  lemma ElementsOwnLines(lines: seq<string>)
    requires lines != [] && forall k :: 0 <= k < |lines| ==> NoLineBreak(lines[k])
    ensures SplitOn(JoinOn(Elements(lines), '\n'), '\n') == Elements(lines)
  {
    var els := Elements(lines);
    forall k | 0 <= k < |lines| ensures '\n' !in els[k] {
      assert NoLineBreak(lines[k]);
      ElementNoNewline(lines[k]);
    }
    SplitJoin(els, '\n');
  }

  /** In a document without `*`, `#` or a backtick, that makes each line of the
      trimmed input one line of the output. */
  lemma PlainLinesKept(md: string)
    requires '*' !in md && '#' !in md && '`' !in md && !AllSpace(md)
    ensures SplitOn(Render(md), '\n') == Elements(SplitLines(Strip(md)))
  {
    PlainDocument(md);
    StripSpec(md);
    ElementsOwnLines(SplitLines(Strip(md)));
  }

  /** A document that is one fenced block renders as that block, as the only
      line, inside a paragraph; the tag is lower-cased and the body escaped. */
  lemma SingleCodeBlock(lang: string, code: string)
    requires IsWord(lang)
    requires '`' !in code && '*' !in code && '#' !in code
    ensures Render(Fenced(lang, code, ""))
         == "<p>" + (CodeHtml(Lower(lang), Escape(Strip(code))) + "</p>")
  {
    var b := CodeBlock(lang, code);
    WordBlockHtml(lang, code);
    FenceOnlyDocument(lang, code);
    RenderOneBlock(Fenced(lang, code, ""), b);
  }

  /** A line of text, a fenced block and a line of text: three paragraphs, the
      middle one holding the rendered block. */
  lemma TextBlockTextDocument(head: string, lang: string, code: string, tail: string)
    requires PlainTextLine(head) && PlainTextLine(tail) && !IsItem(head) && !IsItem(tail) && IsWord(lang)
    requires '`' !in code && '*' !in code && '#' !in code
    ensures Render(head + "\n" + Fenced(lang, code, "\n" + tail))
         == "<p>" + head + "</p>\n<p>" + CodeHtml(Lower(lang), Escape(Strip(code))) + "</p>\n<p>" + tail + "</p>"
  {
    TextBlockTextExtraction(head, lang, code, tail);
    TextBlockTextElements(head, tail);
    WordBlockHtml(lang, code);
    assert BlockHtmls([CodeBlock(lang, code)]) == [BlockHtml(CodeBlock(lang, code))];
    ReinsertMiddleParagraph(head, tail, CodeHtml(Lower(lang), Escape(Strip(code))));
  }

  /** The working text of such a document is three lines, each a paragraph. */
  lemma TextBlockTextElements(head: string, tail: string)
    requires PlainTextLine(head) && PlainTextLine(tail) && !IsItem(head) && !IsItem(tail)
    ensures Elements(SplitLines(head + "\n" + (Placeholder(0) + ("\n" + tail))))
         == ["<p>" + head + "</p>", "<p>" + Placeholder(0) + "</p>", "<p>" + tail + "</p>"]
  {
    var p := Placeholder(0);
    PlaceholderElement(0);
    SplitLinesThree(head, p, tail);
    ParagraphLine(head);
    ParagraphLine(tail);
    ElementsThree(head, p, tail);
  }

  /** A placeholder is one line, rendered as a paragraph. */
  lemma PlaceholderElement(n: nat)
    ensures NoLineBreak(Placeholder(n)) && LineElement(Placeholder(n)) == "<p>" + Placeholder(n) + "</p>"
  {
    PlaceholderOneLine(n);
  }

  /** A trimmed line that is not a list line becomes a paragraph of itself. */
  lemma ParagraphLine(line: string)
    requires Trimmed(line) && !IsItem(line)
    ensures LineElement(line) == "<p>" + line + "</p>"
  {
    StripTrimmed(line);
  }

  lemma ElementsThree(a: string, b: string, c: string)
    ensures Elements([a, b, c]) == [LineElement(a), LineElement(b), LineElement(c)]
  {
  }

  /** A `\w*` tag has no whitespace to strip, so only lower-casing applies. */
  lemma WordBlockHtml(lang: string, code: string)
    requires IsWord(lang)
    ensures BlockHtml(CodeBlock(lang, code)) == CodeHtml(Lower(lang), Escape(Strip(code)))
  {
    StripTrimmed(lang);
  }

  /** A text that is only placeholder 0 renders as block 0 inside a paragraph. */
  lemma RenderOneBlock(md: string, b: CodeBlock)
    requires ExtractFrom(Prepare(md), 0) == Extraction(Placeholder(0), [b])
    ensures Render(md) == "<p>" + (BlockHtml(b) + "</p>")
  {
    ParagraphTagsPlain();
    PlaceholderLine();
    assert BlockHtmls([b]) == [BlockHtml(b)];
    ReinsertOne("<p>", "</p>", BlockHtml(b));
  }

  /** The placeholder is one line, rendered as a paragraph. */
  lemma PlaceholderLine()
    ensures JoinOn(Elements(SplitLines(Placeholder(0))), '\n') == "<p>" + (Placeholder(0) + "</p>")
  {
    var p := Placeholder(0);
    PlaceholderOneLine(0);
    assert LineElement(p) == "<p>" + p + "</p>";
    assert Elements([p]) == [LineElement(p)];
    Assoc3("<p>", p, "</p>");
  }

  /** When no block is extracted, the output is the joined elements of the text's lines. */
  lemma RenderWithoutBlocks(md: string, text: string)
    requires ExtractFrom(Prepare(md), 0) == Extraction(text, [])
    ensures Render(md) == JoinOn(Elements(SplitLines(text)), '\n')
  {
  }

  /** A first line that is not a list item becomes a paragraph, followed by the other lines. */
  lemma FirstLineParagraph(head: string, rest: string)
    requires NoLineBreak(head) && Trimmed(head) && !IsItem(head) && rest != []
    ensures JoinOn(Elements(SplitLines(head + "\n" + rest)), '\n')
         == "<p>" + head + "</p>" + ("\n" + JoinOn(Elements(SplitLines(rest)), '\n'))
  {
    SplitLinesFirst(head, rest);
    var lines := SplitLines(rest);
    StripTrimmed(head);
    ElementsCons(head, lines);
    JoinCons(LineElement(head), Elements(lines), '\n');
  }

  lemma ElementsCons(line: string, lines: seq<string>)
    ensures Elements([line] + lines) == [LineElement(line)] + Elements(lines)
  {
    var all := [line] + lines;
    assert forall k :: 1 <= k < |all| ==> all[k] == lines[k - 1];
  }

  /** An opening fence that is never closed stays text: its line is a paragraph
      and the following lines are rendered as ordinary lines. */
  lemma UnterminatedFence(lang: string, code: string)
    requires IsWord(lang)
    requires '`' !in code && '*' !in code && '#' !in code
    requires code != [] && !IsSpace(code[|code| - 1])
    ensures Render("```" + (lang + ("\n" + code)))
         == "<p>" + ("```" + lang) + "</p>" + ("\n" + JoinOn(Elements(SplitLines(code)), '\n'))
  {
    var md := "```" + (lang + ("\n" + code));
    FenceLines(lang, code);
    UnterminatedDocument(lang, code);
    RenderWithoutBlocks(md, md);
  }

  lemma FenceLines(lang: string, code: string)
    requires IsWord(lang) && code != []
    ensures JoinOn(Elements(SplitLines("```" + (lang + ("\n" + code)))), '\n')
         == "<p>" + ("```" + lang) + "</p>" + ("\n" + JoinOn(Elements(SplitLines(code)), '\n'))
  {
    var head := "```" + lang;
    FenceLine(lang);
    FirstLineParagraph(head, code);
    assert "```" + (lang + ("\n" + code)) == head + "\n" + code;
  }
}
