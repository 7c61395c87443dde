/** `markdown_to_html` of `video_summarizer/app.py`: after the shared text passes and
    code extraction, a loop over the trimmed lines keeps two flags, `in_bullets` and
    `in_numbered_list`, and opens and closes `<ul>` and `<ol>` containers around
    the list items it emits. The language tag of a code block is kept verbatim. */
module ListRenderer {
  import opened Text
  import opened HtmlEscape
  import opened Preprocess

  /** The two flags of the loop: which list containers are open. */
  datatype ListState = ListState(inBullets: bool, inNumbered: bool)

  /** Both flags start, and are reset to, `False`. */
  const Closed := ListState(false, false)

  // ================================================================ classifying a line

  /** Number of leading ASCII digits. */
  function DigitRun(t: string): nat
    decreases |t|
  {
    if t != [] && IsDigit(t[0]) then 1 + DigitRun(t[1..]) else 0
  }

  /** `re.match(r"^\d+\.\s", line)`: digits, a period, then whitespace. */
  predicate IsNumbered(line: string) {
    var d := DigitRun(line);
    0 < d && d + 1 < |line| && line[d] == '.' && IsSpace(line[d + 1])
  }

  /** `re.sub(r"^\d+\.\s*", "", line)`: the number, its period and the whitespace
      after them are removed; a line without that prefix is left alone. */
  function NumberText(line: string): string {
    var d := DigitRun(line);
    if 0 < d && d < |line| && line[d] == '.' then LStrip(line[d + 1..]) else line
  }

  /** `line.startswith(("-", "*")) and "<strong>" not in line`. */
  predicate IsBullet(line: string) {
    line != [] && (line[0] == '-' || line[0] == '*') && !Contains(line, "<strong>")
  }

  /** `line.lstrip("-*").strip()`. */
  function BulletText(line: string): string {
    Strip(LStripMarkers(line))
  }

  // ================================================================ the loop

  /** The closing tags appended for the open lists, `</ul>` first. */
  function Closes(st: ListState): seq<string> {
    (if st.inBullets then ["</ul>"] else []) + (if st.inNumbered then ["</ol>"] else [])
  }

  /** What one pass of the loop body appends, and the flags it leaves. */
  datatype Transition = Transition(out: seq<string>, next: ListState)

  /** One pass of the loop body over the line `raw`, with the flags `st`. */
  function Step(st: ListState, raw: string): Transition {
    var line := Strip(raw);
    if line == [] then Transition(Closes(st), Closed)
    else if IsNumbered(line) then
      Transition((if st.inNumbered then [] else ["<ol>"]) + ["<li>" + NumberText(line) + "</li>"],
                 st.(inNumbered := true))
    else if IsBullet(line) then
      Transition((if st.inBullets then [] else ["<ul>"]) + ["<li>" + BulletText(line) + "</li>"],
                 st.(inBullets := true))
    else Transition(Closes(st) + ["<p>" + line + "</p>"], Closed)
  }

  /** What the loop appends over `lines`, starting with the flags `st`, followed by
      the closing tags appended after the loop. */
  function Emit(lines: seq<string>, st: ListState): seq<string>
    decreases |lines|
  {
    if lines == [] then Closes(st)
    else
      var t := Step(st, lines[0]);
      t.out + Emit(lines[1..], t.next)
  }

  /** `processed_lines` once the loop and the final closes are done. */
  function ProcessedLines(lines: seq<string>): seq<string> {
    Emit(lines, Closed)
  }

  /** The loop, with its two flags, and the closing tags after it. */
  method ProcessLines(lines: seq<string>) returns (processed: seq<string>)
    ensures processed == ProcessedLines(lines)
  {
    processed := [];
    var inNumbered := false;
    var inBullets := false;
    for i := 0 to |lines|
      invariant processed + Emit(lines[i..], ListState(inBullets, inNumbered)) == ProcessedLines(lines)
    {
      ghost var before := processed;
      ghost var st := ListState(inBullets, inNumbered);
      ghost var t := Step(st, lines[i]);
      EmitFrom(lines, i, st);
      processed, inBullets, inNumbered := ProcessLine(processed, inBullets, inNumbered, lines[i]);
      SeqAssoc(before, t.out, Emit(lines[i + 1..], t.next));
    }
    ghost var before := processed;
    if inBullets {
      processed := processed + ["</ul>"];
    }
    if inNumbered {
      processed := processed + ["</ol>"];
    }
    CloseAppends(before, ListState(inBullets, inNumbered), processed);
    assert lines[|lines|..] == [];
  }

  /** The body of the loop for one line: appends to `processed` and updates the flags. */
  method ProcessLine(processed: seq<string>, inBullets: bool, inNumbered: bool, raw: string)
    returns (processed': seq<string>, inBullets': bool, inNumbered': bool)
    ensures processed' == processed + Step(ListState(inBullets, inNumbered), raw).out
    ensures ListState(inBullets', inNumbered') == Step(ListState(inBullets, inNumbered), raw).next
  {
    ghost var st := ListState(inBullets, inNumbered);
    processed', inBullets', inNumbered' := processed, inBullets, inNumbered;
    var line := Strip(raw);
    if line == [] {
      if inBullets' {
        processed' := processed' + ["</ul>"];
        inBullets' := false;
      }
      if inNumbered' {
        processed' := processed' + ["</ol>"];
        inNumbered' := false;
      }
      CloseAppends(processed, st, processed');
    } else if IsNumbered(line) {
      if !inNumbered' {
        processed' := processed' + ["<ol>"];
        inNumbered' := true;
      }
      line := NumberText(line);
      processed' := processed' + ["<li>" + line + "</li>"];
    } else if IsBullet(line) {
      if !inBullets' {
        processed' := processed' + ["<ul>"];
        inBullets' := true;
      }
      line := BulletText(line);
      processed' := processed' + ["<li>" + line + "</li>"];
    } else {
      if inBullets' {
        processed' := processed' + ["</ul>"];
        inBullets' := false;
      }
      if inNumbered' {
        processed' := processed' + ["</ol>"];
        inNumbered' := false;
      }
      CloseAppends(processed, st, processed');
      processed' := processed' + ["<p>" + line + "</p>"];
    }
  }

  /** Appending `</ul>` and then `</ol>` as the flags say appends `Closes`. */
  lemma CloseAppends(before: seq<string>, st: ListState, after: seq<string>)
    requires after == if st.inNumbered then (if st.inBullets then before + ["</ul>"] else before) + ["</ol>"]
                      else (if st.inBullets then before + ["</ul>"] else before)
    ensures after == before + Closes(st)
  {
  }

  /** The emitted text from line `i` on is that line's step followed by the rest. */
  lemma EmitFrom(lines: seq<string>, i: nat, st: ListState)
    requires i < |lines|
    ensures Emit(lines[i..], st) == Step(st, lines[i]).out + Emit(lines[i + 1..], Step(st, lines[i]).next)
  {
    assert lines[i..][1..] == lines[i + 1..];
  }

  lemma SeqAssoc(a: seq<string>, b: seq<string>, c: seq<string>)
    ensures a + b + c == a + (b + c)
  {
  }

  // ================================================================ list tags, each kind read on its own (nesting is not checked)

  /** How one element changes the open lists when read as markup: a list may not
      be opened while it is open nor closed while it is closed, an item needs an
      open list and a paragraph needs every list closed. `None` for a violation. */
  function ScanOne(x: string, st: ListState): Option<ListState> {
    if x == "<ul>" then (if st.inBullets then None else Some(st.(inBullets := true)))
    else if x == "</ul>" then (if st.inBullets then Some(st.(inBullets := false)) else None)
    else if x == "<ol>" then (if st.inNumbered then None else Some(st.(inNumbered := true)))
    else if x == "</ol>" then (if st.inNumbered then Some(st.(inNumbered := false)) else None)
    else if StartsWith(x, "<li>") then (if st.inBullets || st.inNumbered then Some(st) else None)
    else if StartsWith(x, "<p>") then (if st == Closed then Some(st) else None)
    else Some(st)
  }

  /** Reads `xs` from the open lists `st`: the lists open at the end, or `None`. */
  function Scan(xs: seq<string>, st: ListState): Option<ListState>
    decreases |xs|
  {
    if xs == [] then Some(st)
    else
      match ScanOne(xs[0], st)
      case None => None
      case Some(st') => Scan(xs[1..], st')
  }

  lemma {:induction false} ScanConcat(a: seq<string>, b: seq<string>, st: ListState)
    ensures Scan(a + b, st) == match Scan(a, st) case None => None case Some(s) => Scan(b, s)
    decreases |a|
  {
    if a == [] {
      assert a + b == b;
    } else {
      assert (a + b)[1..] == a[1..] + b;
      match ScanOne(a[0], st)
      case None =>
      case Some(s) => ScanConcat(a[1..], b, s);
    }
  }

  /** The four container tags and the two element shapes are told apart by their
      first two characters. */
  lemma TagsDistinct()
    ensures "<ul>" != "</ul>" && "<ul>" != "<ol>" && "<ul>" != "</ol>"
    ensures "</ul>" != "<ol>" && "</ul>" != "</ol>" && "<ol>" != "</ol>"
  {
    assert "<ul>"[1] == 'u' && "<ol>"[1] == 'o';
    assert "</ul>"[2] == 'u' && "</ol>"[2] == 'o';
  }

  lemma ItemShape(x: string)
    ensures var e := "<li>" + x + "</li>";
      e != "<ul>" && e != "</ul>" && e != "<ol>" && e != "</ol>" && StartsWith(e, "<li>")
  {
    var e := "<li>" + x + "</li>";
    assert e[1] == 'l';
    assert e[..4] == "<li>";
  }

  lemma ParagraphShape(x: string)
    ensures var e := "<p>" + x + "</p>";
      e != "<ul>" && e != "</ul>" && e != "<ol>" && e != "</ol>"
      && !StartsWith(e, "<li>") && StartsWith(e, "<p>")
  {
    var e := "<p>" + x + "</p>";
    assert e[1] == 'p';
    assert e[..3] == "<p>";
  }

  /** The closing tags close exactly the lists that are open. */
  lemma ClosesScan(st: ListState)
    ensures Scan(Closes(st), st) == Some(Closed)
  {
    TagsDistinct();
    var mid := st.(inBullets := false);
    var ul: seq<string> := if st.inBullets then ["</ul>"] else [];
    var ol: seq<string> := if st.inNumbered then ["</ol>"] else [];
    assert Scan(ul, st) == Some(mid);
    assert Scan(ol, mid) == Some(Closed);
    ScanConcat(ul, ol, st);
  }

  /** One pass of the loop body keeps the list tags consistent and leaves the flags
      equal to the lists its output leaves open. */
  lemma StepScan(st: ListState, raw: string)
    ensures Scan(Step(st, raw).out, st) == Some(Step(st, raw).next)
  {
    TagsDistinct();
    var line := Strip(raw);
    var t := Step(st, raw);
    if line == [] {
      ClosesScan(st);
    } else if IsNumbered(line) {
      var item := "<li>" + NumberText(line) + "</li>";
      ItemShape(NumberText(line));
      var opening: seq<string> := if st.inNumbered then [] else ["<ol>"];
      var mid := st.(inNumbered := true);
      assert Scan(opening, st) == Some(mid);
      assert Scan([item], mid) == Some(mid);
      ScanConcat(opening, [item], st);
    } else if IsBullet(line) {
      var item := "<li>" + BulletText(line) + "</li>";
      ItemShape(BulletText(line));
      var opening: seq<string> := if st.inBullets then [] else ["<ul>"];
      var mid := st.(inBullets := true);
      assert Scan(opening, st) == Some(mid);
      assert Scan([item], mid) == Some(mid);
      ScanConcat(opening, [item], st);
    } else {
      var para := "<p>" + line + "</p>";
      ParagraphShape(line);
      ClosesScan(st);
      assert Scan([para], Closed) == Some(Closed);
      ScanConcat(Closes(st), [para], st);
    }
  }

  lemma {:induction false} EmitScan(lines: seq<string>, st: ListState)
    ensures Scan(Emit(lines, st), st) == Some(Closed)
    decreases |lines|
  {
    if lines == [] {
      ClosesScan(st);
    } else {
      var t := Step(st, lines[0]);
      StepScan(st, lines[0]);
      EmitScan(lines[1..], t.next);
      ScanConcat(t.out, Emit(lines[1..], t.next), st);
    }
  }

  /** The output never opens a list that is open or closes one that is not, puts
      every item inside an open list and every paragraph outside all lists, and
      leaves no list open at the end. */
  lemma ListTagsConsistent(lines: seq<string>)
    ensures Scan(ProcessedLines(lines), Closed) == Some(Closed)
  {
    EmitScan(lines, Closed);
  }

  function Open(b: bool): nat { if b then 1 else 0 }

  /** Reading consistent list tags, each kind of list is opened as often as it is
      closed, up to the lists open at the start and at the end. */
  lemma {:induction false} ScanCounts(xs: seq<string>, st: ListState, st': ListState)
    requires Scan(xs, st) == Some(st')
    ensures Count(xs, "<ul>") + Open(st.inBullets) == Count(xs, "</ul>") + Open(st'.inBullets)
    ensures Count(xs, "<ol>") + Open(st.inNumbered) == Count(xs, "</ol>") + Open(st'.inNumbered)
    decreases |xs|
  {
    if xs != [] {
      TagsDistinct();
      var s :| ScanOne(xs[0], st) == Some(s);
      ScanCounts(xs[1..], s, st');
    }
  }

  /** Every `<ul>` of the output has its `</ul>`, and every `<ol>` its `</ol>`. */
  lemma TagsBalanced(lines: seq<string>)
    ensures var out := ProcessedLines(lines);
      Count(out, "<ul>") == Count(out, "</ul>") && Count(out, "<ol>") == Count(out, "</ol>")
  {
    ListTagsConsistent(lines);
    ScanCounts(ProcessedLines(lines), Closed, Closed);
  }

  // ================================================================ one element per line

  predicate IsListTag(x: string) {
    x == "<ul>" || x == "</ul>" || x == "<ol>" || x == "</ol>"
  }

  /** The output without its container tags. */
  function DropTags(xs: seq<string>): seq<string>
    decreases |xs|
  {
    if xs == [] then [] else (if IsListTag(xs[0]) then [] else [xs[0]]) + DropTags(xs[1..])
  }

  lemma {:induction false} DropTagsConcat(a: seq<string>, b: seq<string>)
    ensures DropTags(a + b) == DropTags(a) + DropTags(b)
    decreases |a|
  {
    if a == [] {
      assert a + b == b;
    } else {
      assert (a + b)[1..] == a[1..] + b;
      DropTagsConcat(a[1..], b);
    }
  }

  /** The element a non-blank trimmed line stands for, whatever lists are open. */
  function NonBlankElement(line: string): string {
    if IsNumbered(line) then "<li>" + NumberText(line) + "</li>"
    else if IsBullet(line) then "<li>" + BulletText(line) + "</li>"
    else "<p>" + line + "</p>"
  }

  /** The elements of the non-blank lines, in order: blank lines stand for nothing. */
  function Contents(lines: seq<string>): seq<string>
    decreases |lines|
  {
    if lines == [] then []
    else
      var line := Strip(lines[0]);
      (if line == [] then [] else [NonBlankElement(line)]) + Contents(lines[1..])
  }

  lemma ClosesDropped(st: ListState)
    ensures DropTags(Closes(st)) == []
  {
    var ul: seq<string> := if st.inBullets then ["</ul>"] else [];
    var ol: seq<string> := if st.inNumbered then ["</ol>"] else [];
    assert DropTags(ul) == [] && DropTags(ol) == [];
    DropTagsConcat(ul, ol);
  }

  /** Without its container tags, what one pass appends is the line's element. */
  lemma StepContents(st: ListState, raw: string)
    ensures var line := Strip(raw);
      DropTags(Step(st, raw).out) == if line == [] then [] else [NonBlankElement(line)]
  {
    var line := Strip(raw);
    if line == [] {
      ClosesDropped(st);
    } else if IsNumbered(line) {
      ItemShape(NumberText(line));
      var opening: seq<string> := if st.inNumbered then [] else ["<ol>"];
      assert DropTags(opening) == [];
      DropTagsConcat(opening, [NonBlankElement(line)]);
    } else if IsBullet(line) {
      ItemShape(BulletText(line));
      var opening: seq<string> := if st.inBullets then [] else ["<ul>"];
      assert DropTags(opening) == [];
      DropTagsConcat(opening, [NonBlankElement(line)]);
    } else {
      ParagraphShape(line);
      ClosesDropped(st);
      DropTagsConcat(Closes(st), [NonBlankElement(line)]);
    }
  }

  lemma {:induction false} EmitContents(lines: seq<string>, st: ListState)
    ensures DropTags(Emit(lines, st)) == Contents(lines)
    decreases |lines|
  {
    if lines == [] {
      ClosesDropped(st);
    } else {
      var t := Step(st, lines[0]);
      StepContents(st, lines[0]);
      EmitContents(lines[1..], t.next);
      DropTagsConcat(t.out, Emit(lines[1..], t.next));
    }
  }

  /** Apart from the container tags, the output is one element per non-blank line,
      in order: an item for a numbered or bullet line, a paragraph for any other. */
  lemma OneElementPerLine(lines: seq<string>)
    ensures DropTags(ProcessedLines(lines)) == Contents(lines)
  {
    EmitContents(lines, Closed);
  }

  /** A bullet line does not start with a digit, so it is never a numbered line. */
  lemma BulletNotNumbered(line: string)
    requires IsBullet(line)
    ensures !IsNumbered(line)
  {
    assert DigitRun(line) == 0;
  }

  // ================================================================ runs of list lines

  predicate AllNumbered(lines: seq<string>) {
    forall k :: 0 <= k < |lines| ==> IsNumbered(Strip(lines[k]))
  }

  predicate AllBullets(lines: seq<string>) {
    forall k :: 0 <= k < |lines| ==> IsBullet(Strip(lines[k]))
  }

  /** A numbered line, whatever the flags: an `<ol>` unless one is open, then its item. */
  lemma StepNumberedIn(st: ListState, raw: string)
    requires IsNumbered(Strip(raw))
    ensures Step(st, raw)
         == Transition((if st.inNumbered then [] else ["<ol>"]) + [NonBlankElement(Strip(raw))],
                       st.(inNumbered := true))
  {
  }

  /** A bullet line, whatever the flags: a `<ul>` unless one is open, then its item. */
  lemma StepBulletIn(st: ListState, raw: string)
    requires IsBullet(Strip(raw))
    ensures Step(st, raw)
         == Transition((if st.inBullets then [] else ["<ul>"]) + [NonBlankElement(Strip(raw))],
                       st.(inBullets := true))
  {
    BulletNotNumbered(Strip(raw));
  }

  /** The first line of `run + rest` and the lines after it. */
  lemma SplitHead(run: seq<string>, rest: seq<string>, xs: seq<string>)
    requires run != [] && xs == run + rest
    ensures xs != [] && xs[0] == run[0] && xs[1..] == run[1..] + rest
  {
  }

  /** While the numbered list is open, each numbered line adds just its item. */
  lemma {:induction false} NumberedContinue(run: seq<string>, rest: seq<string>, st: ListState)
    requires AllNumbered(run) && st.inNumbered
    ensures Emit(run + rest, st) == Contents(run) + Emit(rest, st)
    ensures |Contents(run)| == |run|
    decreases |run|
  {
    if run == [] {
      assert run + rest == rest;
    } else {
      var e, c, r := NonBlankElement(Strip(run[0])), Contents(run[1..]), Emit(rest, st);
      assert AllNumbered(run[1..]) && Emit(run + rest, st) == [e] + Emit(run[1..] + rest, st) && Contents(run) == [e] + c by {
        NumberedHead(run, rest, st);
      }
      assert Emit(run[1..] + rest, st) == c + r && |c| == |run| - 1 by {
        NumberedContinue(run[1..], rest, st);
      }
      Assemble(e, c, r);
    }
  }

  /** The first line of a numbered run, with the numbered list open. */
  lemma NumberedHead(run: seq<string>, rest: seq<string>, st: ListState)
    requires run != [] && AllNumbered(run) && st.inNumbered
    ensures AllNumbered(run[1..])
    ensures Emit(run + rest, st) == [NonBlankElement(Strip(run[0]))] + Emit(run[1..] + rest, st)
    ensures Contents(run) == [NonBlankElement(Strip(run[0]))] + Contents(run[1..])
  {
    NumberedHeadEmit(run[0], run, rest, st);
    AllNumberedTail(run);
    ContentsFirst(run);
  }

  lemma NumberedHeadEmit(line: string, run: seq<string>, rest: seq<string>, st: ListState)
    requires run != [] && line == run[0] && IsNumbered(Strip(line)) && st.inNumbered
    ensures Emit(run + rest, st) == [NonBlankElement(Strip(line))] + Emit(run[1..] + rest, st)
  {
    var xs := run + rest;
    SplitHead(run, rest, xs);
    StepNumberedIn(st, line);
    assert st.(inNumbered := true) == st;
    EmitFirst(xs, st);
  }

  /** While the bullet list is open, each bullet line adds just its item. */
  lemma {:induction false} BulletContinue(run: seq<string>, rest: seq<string>, st: ListState)
    requires AllBullets(run) && st.inBullets
    ensures Emit(run + rest, st) == Contents(run) + Emit(rest, st)
    ensures |Contents(run)| == |run|
    decreases |run|
  {
    if run == [] {
      assert run + rest == rest;
    } else {
      var e, c, r := NonBlankElement(Strip(run[0])), Contents(run[1..]), Emit(rest, st);
      assert AllBullets(run[1..]) && Emit(run + rest, st) == [e] + Emit(run[1..] + rest, st) && Contents(run) == [e] + c by {
        BulletHead(run, rest, st);
      }
      assert Emit(run[1..] + rest, st) == c + r && |c| == |run| - 1 by {
        BulletContinue(run[1..], rest, st);
      }
      Assemble(e, c, r);
    }
  }

  /** The first line of a bullet run, with the bullet list open. */
  lemma BulletHead(run: seq<string>, rest: seq<string>, st: ListState)
    requires run != [] && AllBullets(run) && st.inBullets
    ensures AllBullets(run[1..])
    ensures Emit(run + rest, st) == [NonBlankElement(Strip(run[0]))] + Emit(run[1..] + rest, st)
    ensures Contents(run) == [NonBlankElement(Strip(run[0]))] + Contents(run[1..])
  {
    BulletHeadEmit(run[0], run, rest, st);
    AllBulletsTail(run);
    ContentsFirst(run);
  }

  lemma BulletHeadEmit(line: string, run: seq<string>, rest: seq<string>, st: ListState)
    requires run != [] && line == run[0] && IsBullet(Strip(line)) && st.inBullets
    ensures Emit(run + rest, st) == [NonBlankElement(Strip(line))] + Emit(run[1..] + rest, st)
  {
    var xs := run + rest;
    SplitHead(run, rest, xs);
    StepBulletIn(st, line);
    assert st.(inBullets := true) == st;
    EmitFirst(xs, st);
  }

  /** A run of numbered lines, wherever it stands: an `<ol>` unless the numbered
      list is already open, then one item per line, in order; the lines after it
      are processed with the numbered list open and the bullet flag unchanged. */
  lemma NumberedRunIn(run: seq<string>, rest: seq<string>, st: ListState)
    requires run != [] && AllNumbered(run)
    ensures Emit(run + rest, st)
         == (if st.inNumbered then [] else ["<ol>"]) + Contents(run) + Emit(rest, st.(inNumbered := true))
    ensures |Contents(run)| == |run|
  {
    var st' := st.(inNumbered := true);
    var opening: seq<string> := if st.inNumbered then [] else ["<ol>"];
    var xs := run + rest;
    SplitHead(run, rest, xs);
    StepNumberedIn(st, run[0]);
    AllNumberedTail(run);
    NumberedContinue(run[1..], rest, st');
    EmitFirst(xs, st);
    ContentsFirst(run);
    Regroup(opening, NonBlankElement(Strip(run[0])), Contents(run[1..]), Emit(rest, st'));
  }

  /** A run of bullet lines, wherever it stands: a `<ul>` unless the bullet list
      is already open, then one item per line, in order; the lines after it are
      processed with the bullet list open and the numbered flag unchanged. */
  lemma BulletRunIn(run: seq<string>, rest: seq<string>, st: ListState)
    requires run != [] && AllBullets(run)
    ensures Emit(run + rest, st)
         == (if st.inBullets then [] else ["<ul>"]) + Contents(run) + Emit(rest, st.(inBullets := true))
    ensures |Contents(run)| == |run|
  {
    var st' := st.(inBullets := true);
    var opening: seq<string> := if st.inBullets then [] else ["<ul>"];
    var xs := run + rest;
    SplitHead(run, rest, xs);
    StepBulletIn(st, run[0]);
    AllBulletsTail(run);
    BulletContinue(run[1..], rest, st');
    EmitFirst(xs, st);
    ContentsFirst(run);
    Regroup(opening, NonBlankElement(Strip(run[0])), Contents(run[1..]), Emit(rest, st'));
  }

  lemma Assemble(e: string, c: seq<string>, r: seq<string>)
    ensures [e] + (c + r) == [e] + c + r
    ensures |[e] + c| == 1 + |c|
  {
  }

  lemma Regroup(opening: seq<string>, e: string, c: seq<string>, r: seq<string>)
    ensures opening + [e] + (c + r) == opening + ([e] + c) + r
  {
  }

  /** A document of numbered lines is one `<ol>` holding one item per line, in order. */
  lemma NumberedRun(lines: seq<string>)
    requires lines != [] && AllNumbered(lines)
    ensures ProcessedLines(lines) == ["<ol>"] + Contents(lines) + ["</ol>"]
    ensures |Contents(lines)| == |lines|
  {
    NumberedRunIn(lines, [], Closed);
    assert lines + [] == lines;
  }

  /** A document of bullet lines is one `<ul>` holding one item per line, in order. */
  lemma BulletRun(lines: seq<string>)
    requires lines != [] && AllBullets(lines)
    ensures ProcessedLines(lines) == ["<ul>"] + Contents(lines) + ["</ul>"]
    ensures |Contents(lines)| == |lines|
  {
    BulletRunIn(lines, [], Closed);
    assert lines + [] == lines;
  }

  lemma AllNumberedTail(lines: seq<string>)
    requires lines != [] && AllNumbered(lines)
    ensures AllNumbered(lines[1..])
  {
    var rest := lines[1..];
    forall k | 0 <= k < |rest| ensures IsNumbered(Strip(rest[k])) {
      assert rest[k] == lines[k + 1];
    }
  }

  lemma AllBulletsTail(lines: seq<string>)
    requires lines != [] && AllBullets(lines)
    ensures AllBullets(lines[1..])
  {
    var rest := lines[1..];
    forall k | 0 <= k < |rest| ensures IsBullet(Strip(rest[k])) {
      assert rest[k] == lines[k + 1];
    }
  }

  lemma ContentsFirst(lines: seq<string>)
    requires lines != [] && Strip(lines[0]) != []
    ensures Contents(lines) == [NonBlankElement(Strip(lines[0]))] + Contents(lines[1..])
  {
  }

  lemma EmitFirst(lines: seq<string>, st: ListState)
    requires lines != []
    ensures Emit(lines, st) == Step(st, lines[0]).out + Emit(lines[1..], Step(st, lines[0]).next)
  {
  }

  lemma StepNumbered(raw: string)
    requires IsNumbered(Strip(raw))
    ensures Step(Closed, raw) == Transition(["<ol>", NonBlankElement(Strip(raw))], ListState(false, true))
  {
  }

  lemma StepBullet(raw: string)
    requires IsBullet(Strip(raw))
    ensures Step(Closed, raw) == Transition(["<ul>", NonBlankElement(Strip(raw))], ListState(true, false))
  {
    BulletNotNumbered(Strip(raw));
  }

  /** A blank line closes whatever lists are open, emits nothing of its own, and
      the lines after it start with no list open. */
  lemma BlankSeparatesLists(raw: string, rest: seq<string>, st: ListState)
    requires AllSpace(raw)
    ensures Emit([raw] + rest, st) == Closes(st) + Emit(rest, Closed)
  {
    StripSpec(raw);
    assert ([raw] + rest)[1..] == rest;
  }

  /** A line that is neither blank nor a list line closes the open lists before
      its paragraph. */
  lemma ParagraphClosesLists(raw: string, rest: seq<string>, st: ListState)
    requires var line := Strip(raw); line != [] && !IsNumbered(line) && !IsBullet(line)
    ensures Emit([raw] + rest, st) == Closes(st) + (["<p>" + Strip(raw) + "</p>"] + Emit(rest, Closed))
  {
    assert ([raw] + rest)[1..] == rest;
  }

  /** A line that starts with a list marker but holds a bold span is not a list
      item: it closes the open lists and becomes a paragraph. */
  lemma BoldLineIsParagraph(raw: string, rest: seq<string>, st: ListState)
    requires var line := Strip(raw);
      line != [] && (line[0] == '-' || line[0] == '*') && Contains(line, "<strong>")
    ensures Emit([raw] + rest, st) == Closes(st) + (["<p>" + Strip(raw) + "</p>"] + Emit(rest, Closed))
  {
    assert DigitRun(Strip(raw)) == 0;
    ParagraphClosesLists(raw, rest, st);
  }

  /** A heading is not a list item: it closes the open lists and is wrapped in a paragraph. */
  lemma HeadingParagraph(x: string, rest: seq<string>, st: ListState)
    ensures var h := "<h2>" + x + "</h2>";
      Emit([h] + rest, st) == Closes(st) + (["<p>" + h + "</p>"] + Emit(rest, Closed))
  {
    var h := "<h2>" + x + "</h2>";
    assert h[0] == '<' && h[|h| - 1] == '>';
    StripTrimmed(h);
    assert DigitRun(h) == 0;
    ParagraphClosesLists(h, rest, st);
  }

  /** A trimmed text behind a `- ` marker, without `<strong>`, is a bullet item,
      whatever it holds: a heading or a placeholder there is not a paragraph. */
  lemma MarkedItem(t: string, rest: seq<string>, st: ListState)
    requires t != [] && Trimmed(t) && t[0] != '-' && t[0] != '*' && !Contains(t, "<strong>")
    ensures Emit(["- " + t] + rest, st)
         == (if st.inBullets then [] else ["<ul>"]) + ["<li>" + t + "</li>"] + Emit(rest, st.(inBullets := true))
  {
    var line := "- " + t;
    var space: string := " ";
    assert Trimmed(line) by {
      assert line[0] == '-' && line[|line| - 1] == t[|t| - 1];
    }
    StripTrimmed(line);
    assert !Contains(line, "<strong>") by {
      assert line[1..][1..] == t && line[1..][0] == ' ';
      assert !StartsWith(line, "<strong>") && !StartsWith(line[1..], "<strong>");
    }
    assert BulletText(line) == t by {
      assert line[1..] == space + t && LStripMarkers(line) == space + t;
      assert AllSpace(space) && AllSpace([]);
      StripPadded(space, t, []);
      assert space + t + [] == space + t;
    }
    assert DigitRun(line) == 0;
    StepBulletIn(st, line);
    assert (["- " + t] + rest)[1..] == rest;
  }

  /** A placeholder behind a list marker is a bullet item. */
  lemma MarkedPlaceholderItem(n: nat, rest: seq<string>, st: ListState)
    ensures var p := Placeholder(n);
      Emit(["- " + p] + rest, st)
      == (if st.inBullets then [] else ["<ul>"]) + ["<li>" + p + "</li>"] + Emit(rest, st.(inBullets := true))
  {
    var p := Placeholder(n);
    PlaceholderChars(n);
    assert !IsSpace(p[0]) && !IsSpace(p[|p| - 1]);
    AbsentFirstChar(p, "<strong>");
    MarkedItem(p, rest, st);
  }

  /** A numbered line straight after a bullet line does not close the bullet list:
      the `<ol>` opens inside the `<ul>`, and the final flush closes `</ul>` before
      `</ol>`, so the two containers overlap instead of nesting. */
  lemma ListsOverlap(bullet: string, numbered: string)
    requires IsBullet(Strip(bullet)) && IsNumbered(Strip(numbered))
    ensures ProcessedLines([bullet, numbered])
         == ["<ul>", "<li>" + BulletText(Strip(bullet)) + "</li>",
             "<ol>", "<li>" + NumberText(Strip(numbered)) + "</li>", "</ul>", "</ol>"]
  {
    var b := "<li>" + BulletText(Strip(bullet)) + "</li>";
    var n := "<li>" + NumberText(Strip(numbered)) + "</li>";
    var both := ListState(true, true);
    StepBullet(bullet);
    assert Step(ListState(true, false), numbered) == Transition(["<ol>", n], both);
    assert Emit([numbered], ListState(true, false)) == ["<ol>", n] + Emit([], both);
    assert Emit([], both) == ["</ul>", "</ol>"];
    assert [bullet, numbered][1..] == [numbered];
  }

  /** A bullet line straight after a numbered line opens its `<ul>` inside the `<ol>`. */
  lemma BulletInsideNumbered(numbered: string, bullet: string)
    requires IsNumbered(Strip(numbered)) && IsBullet(Strip(bullet))
    ensures ProcessedLines([numbered, bullet])
         == ["<ol>", "<li>" + NumberText(Strip(numbered)) + "</li>",
             "<ul>", "<li>" + BulletText(Strip(bullet)) + "</li>", "</ul>", "</ol>"]
  {
    var n := "<li>" + NumberText(Strip(numbered)) + "</li>";
    var b := "<li>" + BulletText(Strip(bullet)) + "</li>";
    var both := ListState(true, true);
    StepNumbered(numbered);
    BulletNotNumbered(Strip(bullet));
    assert Step(ListState(false, true), bullet) == Transition(["<ul>", b], both);
    assert Emit([bullet], ListState(false, true)) == ["<ul>", b] + Emit([], both);
    assert Emit([], both) == ["</ul>", "</ol>"];
    assert [numbered, bullet][1..] == [bullet];
  }

  /** A numbered line after a bullet that follows a numbered line: the numbered
      list is still open, so no `<ol>` is emitted, and the item lands inside the
      `<ul>` that the bullet opened. */
  lemma NumberedAfterBullet(n1: string, b: string, n2: string)
    requires IsNumbered(Strip(n1)) && IsBullet(Strip(b)) && IsNumbered(Strip(n2))
    ensures ProcessedLines([n1, b, n2])
         == ["<ol>", "<li>" + NumberText(Strip(n1)) + "</li>",
             "<ul>", "<li>" + BulletText(Strip(b)) + "</li>",
             "<li>" + NumberText(Strip(n2)) + "</li>", "</ul>", "</ol>"]
  {
    var i1 := "<li>" + NumberText(Strip(n1)) + "</li>";
    var ib := "<li>" + BulletText(Strip(b)) + "</li>";
    var i2 := "<li>" + NumberText(Strip(n2)) + "</li>";
    var both := ListState(true, true);
    StepNumbered(n1);
    BulletNotNumbered(Strip(b));
    assert Step(ListState(false, true), b) == Transition(["<ul>", ib], both);
    assert Step(both, n2) == Transition([i2], both);
    assert Emit([], both) == ["</ul>", "</ol>"];
    assert Emit([n2], both) == [i2] + Emit([], both);
    assert [b, n2][1..] == [n2];
    assert Emit([b, n2], ListState(false, true)) == ["<ul>", ib] + Emit([n2], both);
    assert [n1, b, n2][1..] == [b, n2];
  }

  /** The lines `d1. x`, `- y`, `d2. z`, for digits `d1`, `d2` and letters `x`, `y`, `z`. */
  lemma NumberedAfterBulletLetters(d1: char, x: char, y: char, d2: char, z: char)
    requires IsDigit(d1) && IsDigit(d2) && 'a' <= x <= 'z' && 'a' <= y <= 'z' && 'a' <= z <= 'z'
    ensures ProcessedLines([[d1, '.', ' ', x], ['-', ' ', y], [d2, '.', ' ', z]])
         == ["<ol>", "<li>" + [x] + "</li>", "<ul>", "<li>" + [y] + "</li>",
             "<li>" + [z] + "</li>", "</ul>", "</ol>"]
  {
    ExampleNumbered([d1, '.', ' ', x], x);
    ExampleBullet(['-', ' ', y], y);
    ExampleNumbered([d2, '.', ' ', z], z);
    NumberedAfterBullet([d1, '.', ' ', x], ['-', ' ', y], [d2, '.', ' ', z]);
  }

  /** The lines `1. a`, `- b`, `2. c`. */
  lemma NumberedAfterBulletExample()
    ensures ProcessedLines(["1. a", "- b", "2. c"])
         == ["<ol>", "<li>a</li>", "<ul>", "<li>b</li>", "<li>c</li>", "</ul>", "</ol>"]
  {
    NumberedAfterBulletLetters('1', 'a', 'b', '2', 'c');
    assert "<li>" + "a" + "</li>" == "<li>a</li>";
    assert "<li>" + "b" + "</li>" == "<li>b</li>";
    assert "<li>" + "c" + "</li>" == "<li>c</li>";
  }

  /** `- x` for one letter `x` is a bullet line with text `x`. */
  lemma ExampleBullet(line: string, x: char)
    requires |line| == 3 && line[0] == '-' && line[1] == ' ' && line[2] == x
    requires 'a' <= x <= 'z'
    ensures Strip(line) == line && IsBullet(line) && BulletText(line) == [x]
  {
    StripTrimmed(line);
    assert !Contains(line, "<strong>") by {
      AbsentFirstChar(line, "<strong>");
    }
    assert line[1..][1..] == [x];
    assert LStripMarkers(line) == [' '] + [x];
    StripPadded([' '], [x], []);
    assert [' '] + [x] + [] == [' '] + [x];
  }

  /** `d. x` for one digit `d` and one letter `x` is a numbered line with text `x`. */
  lemma ExampleNumbered(line: string, x: char)
    requires |line| == 4 && IsDigit(line[0]) && line[1] == '.' && line[2] == ' ' && line[3] == x
    requires 'a' <= x <= 'z'
    ensures Strip(line) == line && IsNumbered(line) && NumberText(line) == [x]
  {
    StripTrimmed(line);
    assert line[1..][1..] == line[2..];
    assert DigitRun(line[1..]) == 0;
    assert DigitRun(line) == 1;
    assert line[2..] == [' '] + [x];
    assert LStrip(line[2..]) == LStrip([x]);
  }

  // ================================================================ the whole conversion

  /** What `replace_code_block` records for one block: the tag as matched. */
  function BlockHtml(b: CodeBlock): string {
    CodeHtml(b.lang, Escape(Strip(b.code)))
  }

  function BlockHtmls(blocks: seq<CodeBlock>): (r: seq<string>)
    ensures |r| == |blocks|
  {
    seq(|blocks|, k requires 0 <= k < |blocks| => BlockHtml(blocks[k]))
  }

  /** The whole conversion, as a function of the input text. */
  function Render(md: string): string {
    var e := ExtractFrom(Prepare(md), 0);
    Reinserted(JoinOn(ProcessedLines(SplitLines(e.text)), '\n'), BlockHtmls(e.blocks))
  }

  /** `markdown_to_html(md_text)`, pass by pass. */
  method MarkdownToHtml(md: string) returns (html: string)
    ensures html == Render(md)
  {
    var text := Strip(md);
    text := Bold(text);
    text := DropEmptyHeadings(text, true);
    text := Headings(text);
    var e := ExtractFrom(text, 0);
    var codeBlocks := BlockHtmls(e.blocks);
    var lines := SplitLines(e.text);
    var processed := ProcessLines(lines);
    html := JoinOn(processed, '\n');
    html := ReinsertCodeBlocks(html, codeBlocks);
  }

  // ================================================================ whole documents

  /** An empty or all-whitespace document renders as the empty string. */
  lemma EmptyDocument(md: string)
    requires AllSpace(md)
    ensures Render(md) == ""
  {
    StripSpec(md);
    assert Prepare(md) == [];
  }

  /** A document that is one fenced block renders as that block inside a paragraph,
      with the language tag as written and the body trimmed and escaped. */
  lemma SingleCodeBlock(lang: string, code: string)
    requires IsWord(lang)
    requires '`' !in code && '*' !in code && '#' !in code
    ensures Render(Fenced(lang, code, ""))
         == "<p>" + (CodeHtml(lang, Escape(Strip(code))) + "</p>")
  {
    FenceOnlyDocument(lang, code);
    RenderOneBlock(Fenced(lang, code, ""), CodeBlock(lang, code));
  }

  /** A text that is only placeholder 0 renders as block 0 inside a paragraph. */
  lemma RenderOneBlock(md: string, b: CodeBlock)
    requires ExtractFrom(Prepare(md), 0) == Extraction(Placeholder(0), [b])
    ensures Render(md) == "<p>" + (BlockHtml(b) + "</p>")
  {
    ParagraphTagsPlain();
    PlaceholderLine();
    assert BlockHtmls([b]) == [BlockHtml(b)];
    ReinsertOne("<p>", "</p>", BlockHtml(b));
  }

  /** A trimmed line that starts with neither a digit nor a marker is a paragraph,
      and leaves no list open. */
  lemma PlainLine(line: string, rest: seq<string>)
    requires line != [] && Trimmed(line) && !IsDigit(line[0]) && line[0] != '-' && line[0] != '*'
    ensures ProcessedLines([line] + rest) == ["<p>" + line + "</p>"] + ProcessedLines(rest)
  {
    StripTrimmed(line);
    assert DigitRun(line) == 0;
    assert ([line] + rest)[1..] == rest;
  }

  /** The placeholder is one line, rendered as a paragraph. */
  lemma PlaceholderLine()
    ensures JoinOn(ProcessedLines(SplitLines(Placeholder(0))), '\n') == "<p>" + (Placeholder(0) + "</p>")
  {
    var p := Placeholder(0);
    PlaceholderOneLine(0);
    PlainLine(p, []);
    assert [p] + [] == [p];
    assert ProcessedLines([]) == [];
    Assoc3("<p>", p, "</p>");
  }

  /** An opening fence that is never closed stays text: its line is a paragraph
      and the following lines are processed as ordinary lines. */
  lemma UnterminatedFence(lang: string, code: string)
    requires IsWord(lang)
    requires '`' !in code && '*' !in code && '#' !in code
    requires code != [] && !IsSpace(code[|code| - 1])
    ensures Render("```" + (lang + ("\n" + code)))
         == JoinOn(["<p>" + ("```" + lang) + "</p>"] + ProcessedLines(SplitLines(code)), '\n')
  {
    var md := "```" + (lang + ("\n" + code));
    FenceLines(lang, code);
    UnterminatedDocument(lang, code);
    RenderWithoutBlocks(md, md);
  }

  lemma FenceLines(lang: string, code: string)
    requires IsWord(lang)
    ensures ProcessedLines(SplitLines("```" + (lang + ("\n" + code))))
         == ["<p>" + ("```" + lang) + "</p>"] + ProcessedLines(SplitLines(code))
  {
    FenceLine(lang);
    FenceHeadLines(lang, code);
    PlainLine("```" + lang, SplitLines(code));
  }

  /** When no block is extracted, the output is the processed lines of the text, joined. */
  lemma RenderWithoutBlocks(md: string, text: string)
    requires ExtractFrom(Prepare(md), 0) == Extraction(text, [])
    ensures Render(md) == JoinOn(ProcessedLines(SplitLines(text)), '\n')
  {
  }

  /** A line of text, a fenced block and a line of text: three paragraphs, the
      middle one holding the rendered block with its tag as written. */
  lemma TextBlockTextDocument(head: string, lang: string, code: string, tail: string)
    requires PlainTextLine(head) && PlainTextLine(tail) && IsWord(lang)
    requires !IsNumbered(head) && !IsBullet(head) && !IsNumbered(tail) && !IsBullet(tail)
    requires '`' !in code && '*' !in code && '#' !in code
    ensures Render(head + "\n" + Fenced(lang, code, "\n" + tail))
         == "<p>" + head + "</p>\n<p>" + CodeHtml(lang, Escape(Strip(code))) + "</p>\n<p>" + tail + "</p>"
  {
    TextBlockTextExtraction(head, lang, code, tail);
    TextBlockTextLines(head, tail);
    assert BlockHtmls([CodeBlock(lang, code)]) == [BlockHtml(CodeBlock(lang, code))];
    ReinsertMiddleParagraph(head, tail, CodeHtml(lang, Escape(Strip(code))));
  }

  /** The working text of such a document is three lines, each a paragraph. */
  lemma TextBlockTextLines(head: string, tail: string)
    requires PlainTextLine(head) && PlainTextLine(tail)
    requires !IsNumbered(head) && !IsBullet(head) && !IsNumbered(tail) && !IsBullet(tail)
    ensures ProcessedLines(SplitLines(head + "\n" + (Placeholder(0) + ("\n" + tail))))
         == ["<p>" + head + "</p>", "<p>" + Placeholder(0) + "</p>", "<p>" + tail + "</p>"]
  {
    var p := Placeholder(0);
    assert NoLineBreak(p) && ParagraphText(p) by {
      PlaceholderParagraph(0);
    }
    SplitLinesThree(head, p, tail);
    StripTrimmed(head);
    StripTrimmed(tail);
    ThreeParagraphs(head, p, tail);
  }

  /** A placeholder is one line and a paragraph. */
  lemma PlaceholderParagraph(n: nat)
    ensures NoLineBreak(Placeholder(n)) && ParagraphText(Placeholder(n))
  {
    var p := Placeholder(n);
    PlaceholderOneLine(n);
    assert DigitRun(p) == 0;
  }

  /** Three non-blank lines that are not list lines are three paragraphs. */
  lemma ThreeParagraphs(a: string, b: string, c: string)
    requires ParagraphText(a) && ParagraphText(b) && ParagraphText(c)
    ensures ProcessedLines([a, b, c]) == ["<p>" + a + "</p>", "<p>" + b + "</p>", "<p>" + c + "</p>"]
  {
    assert Step(Closed, a) == Transition(["<p>" + a + "</p>"], Closed);
    assert Step(Closed, b) == Transition(["<p>" + b + "</p>"], Closed);
    assert Step(Closed, c) == Transition(["<p>" + c + "</p>"], Closed);
    assert Emit([c], Closed) == ["<p>" + c + "</p>"] + Emit([], Closed);
    assert [b, c][1..] == [c];
    assert Emit([b, c], Closed) == ["<p>" + b + "</p>"] + Emit([c], Closed);
    assert [a, b, c][1..] == [b, c];
  }

  /** A trimmed, non-blank line that is neither numbered nor a bullet. */
  predicate ParagraphText(x: string) {
    x != [] && Strip(x) == x && !IsNumbered(x) && !IsBullet(x)
  }
}
