/** The text rewrites both `markdown_to_html` variants apply before looking at
    lines: trim, `**bold**`, empty `#` lines, `### ` headings, fenced code
    extraction into numbered placeholders, and the final reinsertion of the
    rendered code blocks. Each `re.sub` is written out as the left-to-right
    scan Python's regex engine performs for that one pattern. */
module Preprocess {
  import opened Text

  // ================================================================ bold: re.sub(r"\*\*(.*?)\*\*", ...)

  predicate MarkerAt(t: string, k: int) {
    0 <= k && k + 2 <= |t| && t[k] == '*' && t[k + 1] == '*'
  }

  /** Where the shortest `(.*?)` before a closing `**` ends, for a span whose text
      starts at `t[0]`; `.` does not cross a newline, so none may come first. */
  function BoldClose(t: string): (r: Option<nat>)
    ensures r.Some? ==> r.value + 2 <= |t|
    decreases |t|
  {
    if MarkerAt(t, 0) then Some(0)
    else if t == [] || t[0] == '\n' then None
    else
      match BoldClose(t[1..])
      case None => None
      case Some(k) => Some(k + 1)
  }

  /** The closing marker found is the first on the line, and none means the line has none. */
  lemma {:induction false} BoldCloseSpec(t: string)
    ensures var r := BoldClose(t);
      && (r.Some? ==> MarkerAt(t, r.value))
      && (r.Some? ==> forall i :: 0 <= i < r.value ==> t[i] != '\n' && !MarkerAt(t, i))
      && (r.None? ==> forall k :: MarkerAt(t, k) ==> '\n' in t[..k])
    decreases |t|
  {
    if !MarkerAt(t, 0) && t != [] && t[0] != '\n' {
      BoldCloseSpec(t[1..]);
      assert forall k :: MarkerAt(t, k) ==> MarkerAt(t[1..], k - 1);
      assert forall k :: 1 <= k <= |t| ==> t[1..][..k - 1] == t[1..k];
    }
  }

  /** Replaces each `**X**` span, scanning left to right and resuming after each span. */
  function Bold(s: string): string
    decreases |s|
  {
    if s == [] then []
    else if MarkerAt(s, 0) && BoldClose(s[2..]).Some? then
      var k := BoldClose(s[2..]).value;
      "<strong>" + s[2..k + 2] + "</strong>" + Bold(s[k + 4..])
    else [s[0]] + Bold(s[1..])
  }

  /** Text a bold span can enclose as its shortest match: one line, and no `**`
      inside it or formed with the closing marker. */
  predicate BoldText(x: string) {
    && (forall i :: 0 <= i < |x| ==> x[i] != '\n')
    && (forall i :: 0 <= i < |x| ==> !MarkerAt(x, i))
    && (x == [] || x[|x| - 1] != '*')
  }

  /** `**X**` becomes `<strong>X</strong>`, and the scan resumes after the span. */
  lemma BoldSpan(x: string, rest: string)
    requires BoldText(x)
    ensures Bold("**" + x + "**" + rest) == "<strong>" + x + "</strong>" + Bold(rest)
  {
    var s := "**" + x + "**" + rest;
    var t := x + "**" + rest;
    assert s[2..] == t;
    assert MarkerAt(t, |x|);
    assert t[..|x|] == x;
    BoldCloseSpec(t);
    var r := BoldClose(t);
    assert r.Some?;
    var k := r.value;
    NoMarkerBefore(x, rest);
    assert k == |x|;
    assert MarkerAt(s, 0);
    assert s[2..k + 2] == x;
    assert s[k + 4..] == rest;
  }

  /** Inside the enclosed text no position starts a `**`, not even the last one. */
  lemma NoMarkerBefore(x: string, rest: string)
    requires BoldText(x)
    ensures forall k :: 0 <= k < |x| ==> !MarkerAt(x + "**" + rest, k)
  {
    var t := x + "**" + rest;
    forall k | 0 <= k < |x|
      ensures !MarkerAt(t, k)
    {
      if k + 1 < |x| {
        assert t[k] == x[k] && t[k + 1] == x[k + 1];
        assert !MarkerAt(x, k);
      } else {
        assert t[k] == x[|x| - 1];
      }
    }
  }

  /** No span can match: every pair of markers has a newline between them. */
  ghost predicate NoBoldSpan(s: string) {
    forall i, j :: MarkerAt(s, i) && MarkerAt(s, j) && i + 2 <= j ==> '\n' in s[i..j]
  }

  /** Without a complete span on one line, a `**` is left untouched. */
  lemma {:induction false} BoldUnmatched(s: string)
    requires NoBoldSpan(s)
    ensures Bold(s) == s
    decreases |s|
  {
    if s != [] {
      if MarkerAt(s, 0) && BoldClose(s[2..]).Some? {
        CloseOnLine(s);
        assert false;
      }
      NoBoldSpanTail(s);
      BoldUnmatched(s[1..]);
    }
  }

  /** A `**` at the front and the closing `**` found for it share a line. */
  lemma CloseOnLine(s: string)
    requires MarkerAt(s, 0) && BoldClose(s[2..]).Some?
    ensures var k := BoldClose(s[2..]).value; MarkerAt(s, k + 2) && '\n' !in s[0..k + 2]
  {
    var t := s[2..];
    BoldCloseSpec(t);
    var k := BoldClose(t).value;
    assert forall i :: 0 <= i < k ==> s[i + 2] == t[i];
    var line := s[0..k + 2];
    assert forall i :: 0 <= i < |line| ==> line[i] != '\n';
  }

  lemma NoBoldSpanTail(s: string)
    requires s != [] && NoBoldSpan(s)
    ensures NoBoldSpan(s[1..])
  {
    var t := s[1..];
    forall i, j | MarkerAt(t, i) && MarkerAt(t, j) && i + 2 <= j
      ensures '\n' in t[i..j]
    {
      assert MarkerAt(s, i + 1) && MarkerAt(s, j + 1);
      var u := s[i + 1..j + 1];
      var x :| 0 <= x < |u| && u[x] == '\n';
      assert t[i..j][x] == u[x];
    }
  }

  /** A character other than `*` opens no span and is copied. */
  lemma BoldPlain(s: string)
    requires s != [] && s[0] != '*'
    ensures Bold(s) == [s[0]] + Bold(s[1..])
  {
    assert !MarkerAt(s, 0);
  }

  /** Text with no `*` passes through the bold pass unchanged. */
  lemma {:induction false} BoldSkips(a: string, rest: string)
    requires '*' !in a
    ensures Bold(a + rest) == a + Bold(rest)
    decreases |a|
  {
    if a != [] {
      var s := a + rest;
      BoldPlain(s);
      assert s[1..] == a[1..] + rest;
      BoldSkips(a[1..], rest);
    } else {
      assert a + rest == rest;
    }
  }

  /** Replaces each `<strong>` and `</strong>` by `**`: the inverse of the bold pass. */
  function Unbold(s: string): string
    decreases |s|
  {
    if s == [] then []
    else if StartsWith(s, "<strong>") then "**" + Unbold(s[8..])
    else if StartsWith(s, "</strong>") then "**" + Unbold(s[9..])
    else [s[0]] + Unbold(s[1..])
  }

  lemma {:induction false} UnboldSkips(a: string, rest: string)
    requires '<' !in a
    ensures Unbold(a + rest) == a + Unbold(rest)
    decreases |a|
  {
    if a != [] {
      var s := a + rest;
      UnboldPlain(s);
      assert s[1..] == a[1..] + rest;
      UnboldSkips(a[1..], rest);
    } else {
      assert a + rest == rest;
    }
  }

  /** A character other than `<` starts no tag and is copied. */
  lemma UnboldPlain(s: string)
    requires s != [] && s[0] != '<'
    ensures Unbold(s) == [s[0]] + Unbold(s[1..])
  {
    var open: string := "<strong>";
    var close: string := "</strong>";
    assert !StartsWith(s, open) by {
      if |open| <= |s| {
        assert s[..|open|][0] == s[0];
      }
    }
    assert !StartsWith(s, close) by {
      if |close| <= |s| {
        assert s[..|close|][0] == s[0];
      }
    }
  }

  lemma UnboldTag(tag: string, rest: string)
    requires tag == "<strong>" || tag == "</strong>"
    ensures Unbold(tag + rest) == "**" + Unbold(rest)
  {
    var s := tag + rest;
    assert s[..|tag|] == tag;
    assert s[|tag|..] == rest;
    if tag == "</strong>" {
      assert s[1] == '/';
    }
  }

  /** A bold span of the input, cut at the markers the scan found. */
  lemma BoldCut(s: string, k: nat)
    requires MarkerAt(s, 0) && MarkerAt(s, k + 2)
    ensures s == "**" + (s[2..k + 2] + ("**" + s[k + 4..]))
  {
    assert s[..2] == "**";
    assert s[k + 2..k + 4] == "**";
    assert s == s[..2] + (s[2..k + 2] + (s[k + 2..k + 4] + s[k + 4..]));
  }

  lemma BoldParts(s: string)
    requires MarkerAt(s, 0) && BoldClose(s[2..]).Some?
    ensures var k := BoldClose(s[2..]).value;
      && s == "**" + (s[2..k + 2] + ("**" + s[k + 4..]))
      && Bold(s) == "<strong>" + (s[2..k + 2] + ("</strong>" + Bold(s[k + 4..])))
  {
    var k := BoldClose(s[2..]).value;
    BoldCloseSpec(s[2..]);
    assert MarkerAt(s[2..], k);
    BoldCut(s, k);
    Assoc4("<strong>", s[2..k + 2], "</strong>", Bold(s[k + 4..]));
  }

  lemma UnboldSpan(x: string, r: string)
    requires '<' !in x
    ensures Unbold("<strong>" + (x + ("</strong>" + r))) == "**" + (x + ("**" + Unbold(r)))
  {
    UnboldTag("<strong>", x + ("</strong>" + r));
    UnboldSkips(x, "</strong>" + r);
    UnboldTag("</strong>", r);
  }

  /** The bold pass loses no text: turning the tags back into `**` restores the
      input, for input that has no `<` of its own. */
  lemma {:induction false} UnboldBold(s: string)
    requires '<' !in s
    ensures Unbold(Bold(s)) == s
    decreases |s|
  {
    if s != [] {
      if MarkerAt(s, 0) && BoldClose(s[2..]).Some? {
        var k := BoldClose(s[2..]).value;
        var x := s[2..k + 2];
        var rest := s[k + 4..];
        assert '<' !in x;
        assert '<' !in rest;
        BoldParts(s);
        UnboldSpan(x, Bold(rest));
        UnboldBold(rest);
      } else {
        assert s[0] != '<';
        UnboldSkips([s[0]], Bold(s[1..]));
        UnboldBold(s[1..]);
        assert s == [s[0]] + s[1..];
      }
    }
  }

  // ================================================================ empty headings: re.sub(r"^#{1,3}\s*$", "", ..., re.MULTILINE)

  /** `#{1,3}`, greedy: the number of leading `#`, at most three. */
  function HashRun(t: string): (h: nat)
    ensures h <= 3 && h <= |t|
    ensures forall i :: 0 <= i < h ==> t[i] == '#'
    ensures h < 3 && h < |t| ==> t[h] != '#'
  {
    if |t| >= 1 && t[0] == '#' then
      if |t| >= 2 && t[1] == '#' then
        if |t| >= 3 && t[2] == '#' then 3 else 2
      else 1
    else 0
  }

  /** `\s*`, greedy: the length of the leading whitespace run. */
  function SpaceRun(t: string): (w: nat)
    ensures w <= |t|
    ensures forall i :: 0 <= i < w ==> IsSpace(t[i])
    ensures w < |t| ==> !IsSpace(t[w])
  {
    if t != [] && IsSpace(t[0]) then 1 + SpaceRun(t[1..]) else 0
  }

  /** Backtracking `\s*` until `$` holds: the longest `k <= w` that is the end of
      the text or is followed by `\n`. */
  function LineEndWithin(u: string, w: nat): (k: Option<nat>)
    requires w <= |u|
    ensures k.Some? ==> k.value <= w && (k.value == |u| || u[k.value] == '\n')
    ensures k.Some? ==> forall j :: k.value < j <= w ==> j < |u| && u[j] != '\n'
    ensures k.None? ==> forall j :: 0 <= j <= w ==> j < |u| && u[j] != '\n'
    decreases w
  {
    if w == |u| || u[w] == '\n' then Some(w)
    else if w == 0 then None
    else LineEndWithin(u, w - 1)
  }

  /** Length of a match of `#{1,3}\s*$` at the start of `t`, or 0 when there is none. */
  function EmptyHeadingLen(t: string): (m: nat)
    ensures m <= |t|
    ensures m > 0 ==> t[0] == '#' && (m == |t| || t[m] == '\n')
    ensures forall i :: 0 <= i < m ==> t[i] == '#' || IsSpace(t[i])
  {
    var h := HashRun(t);
    if h == 0 then 0
    else
      var u := t[h..];
      var w := SpaceRun(u);
      match LineEndWithin(u, w)
      case None => 0
      case Some(k) =>
        assert forall i :: h <= i < h + k ==> t[i] == u[i - h];
        h + k
  }

  /** `t` starts with a match of `#{1,3}\s*$` of length `m` whose `#` run has length `h`. */
  predicate EmptyHeadingMatch(t: string, h: nat, m: nat) {
    && 1 <= h <= 3 && h <= m <= |t|
    && (forall i :: 0 <= i < h ==> t[i] == '#')
    && (forall i :: h <= i < m ==> IsSpace(t[i]))
    && (m == |t| || t[m] == '\n')
  }

  /** The length found is a match whenever it is not 0, and no match is longer:
      so it is 0 exactly when the pattern does not match at the start of `t`. */
  lemma EmptyHeadingLenSpec(t: string)
    ensures EmptyHeadingLen(t) > 0 ==> EmptyHeadingMatch(t, HashRun(t), EmptyHeadingLen(t))
    ensures forall h: nat, m: nat :: EmptyHeadingMatch(t, h, m) ==> 0 < m <= EmptyHeadingLen(t)
  {
    var len := EmptyHeadingLen(t);
    if len > 0 {
      EmptyHeadingFound(t);
    }
    forall h, m | EmptyHeadingMatch(t, h, m) ensures 0 < m <= len {
      EmptyHeadingLongest(t, h, m);
    }
  }

  lemma EmptyHeadingFound(t: string)
    requires EmptyHeadingLen(t) > 0
    ensures EmptyHeadingMatch(t, HashRun(t), EmptyHeadingLen(t))
  {
    var h := HashRun(t);
    var u := t[h..];
    var w := SpaceRun(u);
    var k := LineEndWithin(u, w).value;
    assert forall i :: h <= i < h + k ==> t[i] == u[i - h];
    assert h + k < |t| ==> t[h + k] == u[k];
  }

  /** Any match has the greedy `#` run, and its blanks are within the greedy `\s*`. */
  lemma EmptyHeadingLongest(t: string, h: nat, m: nat)
    requires EmptyHeadingMatch(t, h, m)
    ensures 0 < m <= EmptyHeadingLen(t)
  {
    var hr := HashRun(t);
    assert !IsSpace('#');
    assert h == hr;
    var u := t[h..];
    var w := SpaceRun(u);
    var j := m - h;
    assert forall i :: 0 <= i < j ==> IsSpace(u[i]) by {
      forall i | 0 <= i < j ensures IsSpace(u[i]) {
        assert u[i] == t[h + i];
      }
    }
    assert j <= w;
    assert j == |u| || u[j] == '\n';
  }

  /** The MULTILINE pass: a match may start only where `^` holds, at the start of
      the text or right after a `\n` of the original text. */
  function DropEmptyHeadings(s: string, atLineStart: bool): string
    decreases |s|
  {
    if s == [] then []
    else
      var m := if atLineStart then EmptyHeadingLen(s) else 0;
      if m > 0 then DropEmptyHeadings(s[m..], s[m - 1] == '\n')
      else [s[0]] + DropEmptyHeadings(s[1..], s[0] == '\n')
  }

  /** The characters the empty-heading pass may not remove: all but `#` and whitespace. */
  function Visible(s: string): string
    decreases |s|
  {
    if s == [] then []
    else (if s[0] == '#' || IsSpace(s[0]) then [] else [s[0]]) + Visible(s[1..])
  }

  lemma {:induction false} VisibleConcat(a: string, b: string)
    ensures Visible(a + b) == Visible(a) + Visible(b)
    decreases |a|
  {
    if a != [] {
      assert (a + b)[1..] == a[1..] + b;
      VisibleConcat(a[1..], b);
    } else {
      assert a + b == b;
    }
  }

  lemma {:induction false} VisibleNone(s: string)
    requires forall i :: 0 <= i < |s| ==> s[i] == '#' || IsSpace(s[i])
    ensures Visible(s) == []
    decreases |s|
  {
    if s != [] {
      VisibleNone(s[1..]);
    }
  }

  /** The pass deletes nothing but `#` marks and whitespace. */
  lemma {:induction false} DropKeepsVisible(s: string, atLineStart: bool)
    ensures Visible(DropEmptyHeadings(s, atLineStart)) == Visible(s)
    decreases |s|
  {
    if s != [] {
      var m := if atLineStart then EmptyHeadingLen(s) else 0;
      if m > 0 {
        DropKeepsVisible(s[m..], s[m - 1] == '\n');
        VisibleDropped(s, m);
      } else {
        DropKeepsVisible(s[1..], s[0] == '\n');
        VisibleFirst(s[0], DropEmptyHeadings(s[1..], s[0] == '\n'), s[1..]);
        assert s == [s[0]] + s[1..];
      }
    }
  }

  lemma VisibleDropped(s: string, m: nat)
    requires m <= |s| && forall i :: 0 <= i < m ==> s[i] == '#' || IsSpace(s[i])
    ensures Visible(s) == Visible(s[m..])
  {
    var a, b := s[..m], s[m..];
    assert Visible(a) == [] by {
      assert forall i :: 0 <= i < |a| ==> a[i] == s[i];
      VisibleNone(a);
    }
    assert s == a + b;
    VisibleConcat(a, b);
  }

  lemma VisibleFirst(c: char, a: string, b: string)
    requires Visible(a) == Visible(b)
    ensures Visible([c] + a) == Visible([c] + b)
  {
    VisibleConcat([c], a);
    VisibleConcat([c], b);
  }

  /** Text without `#` is untouched. */
  lemma {:induction false} DropNoHash(s: string, atLineStart: bool)
    requires '#' !in s
    ensures DropEmptyHeadings(s, atLineStart) == s
    decreases |s|
  {
    if s != [] {
      assert HashRun(s) == 0;
      DropNoHash(s[1..], s[0] == '\n');
    }
  }

  /** Hash marks of an empty heading line. */
  predicate HeadingMarks(hs: string) {
    1 <= |hs| <= 3 && forall i :: 0 <= i < |hs| ==> hs[i] == '#'
  }

  /** The `#` run of a heading line is exactly its marks. */
  lemma HashRunOf(hs: string, t: string)
    requires HeadingMarks(hs)
    requires t != [] && t[0] != '#'
    ensures HashRun(hs + t) == |hs|
  {
    var s := hs + t;
    assert s[..|hs|] == hs;
    assert s[|hs|] == t[0];
  }

  /** After the marks, `\s*$` stops at the newline that ends the padding. */
  lemma PadEnd(pad: string, c: char, rest: string)
    requires forall i :: 0 <= i < |pad| ==> IsSpace(pad[i]) && pad[i] != '\n'
    requires !IsSpace(c)
    ensures var u := pad + ("\n" + ([c] + rest));
      && |pad| + 1 <= |u| && SpaceRun(u) == |pad| + 1
      && LineEndWithin(u, |pad| + 1) == Some(|pad|)
  {
    var u := pad + ("\n" + ([c] + rest));
    assert u[|pad|] == '\n' && u[|pad| + 1] == c;
    assert forall i :: 0 <= i < |pad| ==> u[i] == pad[i];
    SpaceRunExact(u, |pad| + 1);
  }

  /** The match of `^#{1,3}\s*$` on an empty heading line ends before its newline. */
  lemma EmptyHeadingLineLen(hs: string, pad: string, c: char, rest: string)
    requires HeadingMarks(hs)
    requires forall i :: 0 <= i < |pad| ==> IsSpace(pad[i]) && pad[i] != '\n'
    requires !IsSpace(c)
    ensures EmptyHeadingLen(hs + (pad + ("\n" + ([c] + rest)))) == |hs| + |pad|
  {
    var t := pad + ("\n" + ([c] + rest));
    assert t[0] != '#' by {
      if pad != [] {
        assert t[0] == pad[0];
      }
    }
    HashRunOf(hs, t);
    var s := hs + t;
    assert s[|hs|..] == t;
    PadEnd(pad, c, rest);
  }

  /** An empty `#`, `##` or `###` line, padded with blanks other than a newline and
      followed by a line that starts with visible text, is deleted; its newline stays. */
  lemma DropEmptyHeadingLine(hs: string, pad: string, c: char, rest: string)
    requires HeadingMarks(hs)
    requires forall i :: 0 <= i < |pad| ==> IsSpace(pad[i]) && pad[i] != '\n'
    requires !IsSpace(c)
    ensures DropEmptyHeadings(hs + (pad + ("\n" + ([c] + rest))), true)
         == "\n" + DropEmptyHeadings([c] + rest, true)
  {
    EmptyHeadingLineLen(hs, pad, c, rest);
    MarksThenPad(hs, pad, c, rest);
    DropLine(hs + (pad + ("\n" + ([c] + rest))), |hs| + |pad|, [c] + rest);
  }

  /** A match that ends right before a newline removes the line's text and keeps the newline. */
  lemma DropLine(s: string, m: nat, r: string)
    requires 0 < m <= |s| && EmptyHeadingLen(s) == m
    requires s[m - 1] != '\n' && s[m..] == "\n" + r
    ensures DropEmptyHeadings(s, true) == "\n" + DropEmptyHeadings(r, true)
  {
    DropLeading(s, m);
    DropNewline(r);
  }

  /** The marks and padding end before `t`, on a character that is not a newline. */
  lemma MarksThenPad(hs: string, pad: string, c: char, rest: string)
    requires HeadingMarks(hs)
    requires forall i :: 0 <= i < |pad| ==> IsSpace(pad[i]) && pad[i] != '\n'
    ensures var s := hs + (pad + ("\n" + ([c] + rest))); var m := |hs| + |pad|;
      s[m - 1] != '\n' && s[m..] == "\n" + ([c] + rest)
  {
    var t := "\n" + ([c] + rest);
    var s := hs + (pad + t);
    var m := |hs| + |pad|;
    if pad != [] {
      assert s[m - 1] == pad[|pad| - 1];
    } else {
      assert s[m - 1] == hs[|hs| - 1];
    }
    assert s[m..] == t;
  }

  /** A match of length `m` at a line start is deleted. */
  lemma DropLeading(s: string, m: nat)
    requires 0 < m <= |s| && EmptyHeadingLen(s) == m
    ensures DropEmptyHeadings(s, true) == DropEmptyHeadings(s[m..], s[m - 1] == '\n')
  {
  }

  /** A newline met away from a line start is kept, and the next line starts after it. */
  lemma DropNewline(t: string)
    ensures DropEmptyHeadings("\n" + t, false) == "\n" + DropEmptyHeadings(t, true)
  {
    var u := "\n" + t;
    assert u[1..] == t;
  }

  lemma SpaceRunExact(u: string, w: nat)
    requires w <= |u|
    requires forall i :: 0 <= i < w ==> IsSpace(u[i])
    requires w < |u| ==> !IsSpace(u[w])
    ensures SpaceRun(u) == w
  {
  }

  /** An empty heading line at the end of the text goes away together with the
      blank lines and trailing whitespace after it. */
  lemma DropEmptyHeadingAtEnd(hs: string, tail: string)
    requires HeadingMarks(hs)
    requires forall i :: 0 <= i < |tail| ==> IsSpace(tail[i])
    ensures DropEmptyHeadings(hs + tail, true) == []
  {
    var s := hs + tail;
    var h := |hs|;
    assert s[..h] == hs;
    assert h < 3 && h < |s| ==> IsSpace(s[h]);
    assert HashRun(s) == h;
    var u := s[h..];
    assert u == tail;
    SpaceRunExact(u, |u|);
    assert EmptyHeadingLen(s) == |s|;
  }

  // ================================================================ headings: re.sub(r"### (.*?)\n", r"<h2>\1</h2>\n", ...)

  function FirstNewline(t: string): (r: Option<nat>)
    ensures r.Some? ==> r.value < |t| && t[r.value] == '\n'
    ensures r.Some? ==> forall i :: 0 <= i < r.value ==> t[i] != '\n'
    ensures r.None? ==> forall i :: 0 <= i < |t| ==> t[i] != '\n'
    decreases |t|
  {
    if t == [] then None
    else if t[0] == '\n' then Some(0)
    else match FirstNewline(t[1..]) case None => None case Some(k) => Some(k + 1)
  }

  /** Not anchored to a line start: any `### ` followed, later on the same line,
      by a `\n` becomes a level-2 heading; the newline is kept. */
  function Headings(s: string): string
    decreases |s|
  {
    if s == [] then []
    else if StartsWith(s, "### ") && FirstNewline(s[4..]).Some? then
      var k := FirstNewline(s[4..]).value;
      "<h2>" + s[4..k + 4] + "</h2>\n" + Headings(s[k + 5..])
    else [s[0]] + Headings(s[1..])
  }

  /** `### X` ended by a newline becomes `<h2>X</h2>` and the newline. */
  lemma HeadingLine(x: string, rest: string)
    requires '\n' !in x
    ensures Headings("### " + x + "\n" + rest) == "<h2>" + x + "</h2>\n" + Headings(rest)
  {
    var s := "### " + x + "\n" + rest;
    assert StartsWith(s, "### ");
    var t := s[4..];
    assert t == x + "\n" + rest;
    assert t[|x|] == '\n';
    var r := FirstNewline(t);
    assert r.Some?;
    assert r.value == |x|;
    assert s[4..|x| + 4] == x;
    assert s[|x| + 5..] == rest;
  }

  /** `.` matches a carriage return, so a heading ended by `\r\n` keeps the `\r`
      inside the heading. */
  lemma HeadingCarriageReturn(x: string, rest: string)
    requires NoLineBreak(x)
    ensures Headings("### " + x + "\r\n" + rest) == "<h2>" + x + "\r</h2>\n" + Headings(rest)
  {
    var xr := x + "\r";
    assert '\n' !in xr by {
      assert forall i :: 0 <= i < |x| ==> xr[i] == x[i];
    }
    HeadingLine(xr, rest);
    assert "### " + x + "\r\n" + rest == "### " + xr + "\n" + rest;
    assert "<h2>" + xr + "</h2>\n" == "<h2>" + x + "\r</h2>\n";
  }

  /** `splitlines` then breaks such a heading in two lines at its `\r`. */
  lemma HeadingSplitByCr(x: string, rest: string)
    requires NoLineBreak(x)
    ensures SplitLines("<h2>" + x + "\r</h2>\n" + rest) == ["<h2>" + x, "</h2>"] + SplitLines(rest)
  {
    var open, close := "<h2>" + x, "</h2>";
    assert NoLineBreak(open) by {
      assert forall i :: 4 <= i < |open| ==> open[i] == x[i - 4];
    }
    assert "<h2>" + x + "\r</h2>\n" + rest == open + "\r" + (close + "\n" + rest) by {
      assert "\r</h2>\n" == "\r" + close + "\n";
    }
    SplitLinesCrThenNewline(open, close, rest);
  }

  /** The heading pattern is not anchored: text without `#` in front of a heading
      is copied, and the heading after it is still rewritten. */
  lemma {:induction false} HeadingsPrefix(p: string, s: string)
    requires '#' !in p
    ensures Headings(p + s) == p + Headings(s)
    decreases |p|
  {
    if p == [] {
      assert p + s == s;
    } else {
      var c, q := p[0], p[1..];
      assert '#' !in q;
      HeadingsPrefix(q, s);
      HeadingsCons(c, q + s);
      ConsSplit(p, s);
      ConsSplit(p, Headings(s));
    }
  }

  /** A first character other than `#` starts no heading and is copied. */
  lemma HeadingsCons(c: char, u: string)
    requires c != '#'
    ensures Headings([c] + u) == [c] + Headings(u)
  {
    var t := [c] + u;
    assert t[0] == c && t[1..] == u;
    assert !StartsWith(t, "### ");
  }

  /** So a list marker in front of `### X` is kept, and the heading is rewritten. */
  lemma MarkedHeading(x: string, rest: string)
    requires '\n' !in x
    ensures Headings("- ### " + x + "\n" + rest) == "- <h2>" + x + "</h2>\n" + Headings(rest)
  {
    var h := "### " + x + "\n" + rest;
    var marker: string := "- ";
    var r := Headings(rest);
    assert "- ### " + x + "\n" + rest == marker + h by {
      assert "- ### " == marker + "### ";
    }
    assert Headings(marker + h) == marker + Headings(h) by {
      assert forall i :: 0 <= i < |marker| ==> marker[i] != '#';
      HeadingsPrefix(marker, h);
    }
    assert Headings(h) == "<h2>" + x + "</h2>\n" + r by { HeadingLine(x, rest); }
    assert marker + ("<h2>" + x + "</h2>\n" + r) == "- <h2>" + x + "</h2>\n" + r by {
      assert "- <h2>" == marker + "<h2>";
    }
  }

  /** A heading on the last line, without a newline after it, is left as text. */
  lemma {:induction false} HeadingNeedsNewline(s: string)
    requires '\n' !in s
    ensures Headings(s) == s
    decreases |s|
  {
    if s != [] {
      if StartsWith(s, "### ") {
        assert forall i :: 0 <= i < |s[4..]| ==> s[4..][i] == s[i + 4];
        assert FirstNewline(s[4..]).None?;
      }
      HeadingNeedsNewline(s[1..]);
    }
  }

  /** Text without `#` is untouched. */
  lemma {:induction false} HeadingsNoHash(s: string)
    requires '#' !in s
    ensures Headings(s) == s
    decreases |s|
  {
    if s != [] {
      assert s[0] != '#';
      assert !StartsWith(s, "### ");
      HeadingsNoHash(s[1..]);
    }
  }

  /** A heading of the input, cut where the scan found it. */
  lemma HeadingParts(s: string)
    requires StartsWith(s, "### ") && FirstNewline(s[4..]).Some?
    ensures var k := FirstNewline(s[4..]).value;
      && s == "### " + (s[4..k + 4] + ("\n" + s[k + 5..]))
      && Headings(s) == "<h2>" + (s[4..k + 4] + ("</h2>\n" + Headings(s[k + 5..])))
  {
    var k := FirstNewline(s[4..]).value;
    assert s[..4] == "### ";
    assert s[k + 4] == '\n';
    assert s == s[..4] + (s[4..k + 4] + ([s[k + 4]] + s[k + 5..]));
    Assoc4("<h2>", s[4..k + 4], "</h2>\n", Headings(s[k + 5..]));
  }

  /** One heading keeps the line breaks of its text and of what follows. */
  lemma HeadingCount(x: string, hr: string, r: string, c: char)
    requires IsLineBreak(c) && Count(hr, c) == Count(r, c)
    ensures Count("<h2>" + (x + ("</h2>\n" + hr)), c) == Count("### " + (x + ("\n" + r)), c)
  {
    var nl: string := "\n";
    var close: string := "</h2>";
    assert close + nl == "</h2>\n";
    CountAbsent("<h2>", c);
    CountAbsent(close, c);
    CountAbsent("### ", c);
    CountConcat(close, nl, c);
    CountConcat("</h2>\n", hr, c);
    CountConcat(x, "</h2>\n" + hr, c);
    CountConcat("<h2>", x + ("</h2>\n" + hr), c);
    CountConcat(nl, r, c);
    CountConcat(x, nl + r, c);
    CountConcat("### ", x + (nl + r), c);
  }

  /** Heading conversion keeps every line break, so the lines of the text stay where they were. */
  lemma {:induction false} HeadingsKeepLineBreaks(s: string, c: char)
    requires IsLineBreak(c)
    ensures Count(Headings(s), c) == Count(s, c)
    decreases |s|
  {
    if s != [] {
      if StartsWith(s, "### ") && FirstNewline(s[4..]).Some? {
        var k := FirstNewline(s[4..]).value;
        HeadingParts(s);
        HeadingsKeepLineBreaks(s[k + 5..], c);
        HeadingCount(s[4..k + 4], Headings(s[k + 5..]), s[k + 5..], c);
      } else {
        HeadingsKeepLineBreaks(s[1..], c);
        assert s == [s[0]] + s[1..];
        CountConcat([s[0]], s[1..], c);
        CountConcat([s[0]], Headings(s[1..]), c);
      }
    }
  }

  // ================================================================ the shared passes

  /** Steps 1 to 4 of both variants: strip, bold, empty headings, headings. */
  function Prepare(md: string): string {
    Headings(DropEmptyHeadings(Bold(Strip(md)), true))
  }

  // ================================================================ code fences: re.sub(r"```(\w*)\n(.*?)```", ..., re.DOTALL)

  predicate FenceAt(t: string, k: int) {
    0 <= k && k + 3 <= |t| && t[k] == '`' && t[k + 1] == '`' && t[k + 2] == '`'
  }

  /** `\w` on ASCII: letters, digits and the underscore. */
  predicate IsWordChar(c: char) {
    ('a' <= c <= 'z') || ('A' <= c <= 'Z') || ('0' <= c <= '9') || c == '_'
  }

  predicate IsWord(s: string) {
    forall i :: 0 <= i < |s| ==> IsWordChar(s[i])
  }

  /** `\w*`, greedy. */
  function WordRun(t: string): (w: nat)
    ensures w <= |t|
    ensures forall i :: 0 <= i < w ==> IsWordChar(t[i])
    ensures w < |t| ==> !IsWordChar(t[w])
  {
    if t != [] && IsWordChar(t[0]) then 1 + WordRun(t[1..]) else 0
  }

  /** The shortest `(.*?)` before a closing fence; with DOTALL it may span lines. */
  function FenceClose(t: string): (r: Option<nat>)
    ensures r.Some? ==> r.value + 3 <= |t|
    decreases |t|
  {
    if FenceAt(t, 0) then Some(0)
    else if t == [] then None
    else
      match FenceClose(t[1..])
      case None => None
      case Some(k) => Some(k + 1)
  }

  /** The body found ends at the first closing fence, and none means there is no fence. */
  lemma {:induction false} FenceCloseSpec(t: string)
    ensures var r := FenceClose(t);
      && (r.Some? ==> FenceAt(t, r.value) && forall i :: 0 <= i < r.value ==> !FenceAt(t, i))
      && (r.None? ==> forall i :: !FenceAt(t, i))
    decreases |t|
  {
    if !FenceAt(t, 0) && t != [] {
      FenceCloseSpec(t[1..]);
      assert forall i :: FenceAt(t, i) && i > 0 ==> FenceAt(t[1..], i - 1);
      assert forall i :: FenceAt(t[1..], i) ==> FenceAt(t, i + 1);
    }
  }

  /** The lengths of the two groups of a fence match at the start of the text. */
  datatype FenceMatch = FenceMatch(langLen: nat, codeLen: nat)

  function MatchFence(s: string): (r: Option<FenceMatch>)
    ensures r.Some? ==> 7 + r.value.langLen + r.value.codeLen <= |s|
  {
    if !FenceAt(s, 0) then None
    else
      var w := WordRun(s[3..]);
      if 3 + w < |s| && s[3 + w] == '\n' then
        match FenceClose(s[4 + w..])
        case None => None
        case Some(k) => Some(FenceMatch(w, k))
      else None
  }

  /** The two groups of one fenced block: the language tag and the raw content. */
  datatype CodeBlock = CodeBlock(lang: string, code: string)

  /** The working text with placeholders, and the blocks in the order they were found. */
  datatype Extraction = Extraction(text: string, blocks: seq<CodeBlock>)

  /** `[[CODE_BLOCK_n]]`. */
  function Placeholder(n: nat): (p: string)
    ensures p != [] && p[0] == '['
  {
    "[[CODE_BLOCK_" + NatToString(n) + "]]"
  }

  /** A placeholder holds no whitespace, list marker or tag opener. */
  lemma PlaceholderChars(n: nat)
    ensures var p := Placeholder(n);
      forall i :: 0 <= i < |p| ==> !IsSpace(p[i]) && p[i] != '-' && p[i] != '*' && p[i] != '<'
  {
  }

  /** Distinct blocks get distinct placeholders. */
  lemma PlaceholderInjective(a: nat, b: nat)
    requires Placeholder(a) == Placeholder(b)
    ensures a == b
  {
    var pa, pb := Placeholder(a), Placeholder(b);
    var da, db := NatToString(a), NatToString(b);
    assert pa[13..|pa| - 2] == da;
    assert pb[13..|pb| - 2] == db;
    NatToStringInjective(a, b);
  }

  /** The fence pass, numbering the blocks it finds from `n`: each match is
      replaced by its placeholder and recorded; the scan resumes after it. */
  function ExtractFrom(s: string, n: nat): Extraction
    decreases |s|, 1
  {
    if s == [] then Extraction([], []) else ExtractAt(s, n)
  }

  /** One step of the fence pass at the start of a non-empty text. */
  function ExtractAt(s: string, n: nat): Extraction
    requires s != []
    decreases |s|, 0
  {
    match MatchFence(s)
    case Some(m) =>
      var rest := ExtractFrom(s[7 + m.langLen + m.codeLen..], n + 1);
      var block := CodeBlock(s[3..3 + m.langLen], s[4 + m.langLen..4 + m.langLen + m.codeLen]);
      Extraction(Placeholder(n) + rest.text, [block] + rest.blocks)
    case None =>
      var rest := ExtractFrom(s[1..], n);
      Extraction([s[0]] + rest.text, rest.blocks)
  }

  /** Content a non-greedy block body can be: no fence in it, and none formed
      with the closing fence. */
  ghost predicate FenceFree(code: string) {
    (forall i :: !FenceAt(code, i)) && (code == [] || code[|code| - 1] != '`')
  }

  /** `\w*` stops at the end of a word. */
  lemma WordRunOf(lang: string, tail: string)
    requires IsWord(lang) && tail != [] && !IsWordChar(tail[0])
    ensures WordRun(lang + tail) == |lang|
  {
    var u := lang + tail;
    assert forall i :: 0 <= i < |lang| ==> u[i] == lang[i];
    assert u[|lang|] == tail[0];
  }

  /** The shortest body ends at the first closing fence. */
  lemma FenceCloseOf(code: string, rest: string)
    requires FenceFree(code)
    ensures FenceClose(code + ("```" + rest)) == Some(|code|)
  {
    var t := code + ("```" + rest);
    assert FenceAt(t, |code|);
    FenceCloseSpec(t);
    var c := FenceClose(t);
    assert c.Some?;
    var k := c.value;
    assert k + 3 <= |code| ==> (FenceAt(t, k) ==> FenceAt(code, k));
    assert code != [] ==> t[|code| - 1] == code[|code| - 1];
    assert k < |code| ==> FenceAt(t, k);
  }

  /** The text of a complete fenced block. */
  function Fenced(lang: string, code: string, rest: string): string {
    "```" + (lang + ("\n" + (code + ("```" + rest))))
  }

  /** A complete fenced block is one match of the fence pattern. */
  lemma MatchFenced(lang: string, code: string, rest: string)
    requires IsWord(lang) && FenceFree(code)
    ensures MatchFence(Fenced(lang, code, rest)) == Some(FenceMatch(|lang|, |code|))
  {
    var s := Fenced(lang, code, rest);
    assert FenceAt(s, 0);
    assert s[3..] == lang + ("\n" + (code + ("```" + rest)));
    WordRunOf(lang, "\n" + (code + ("```" + rest)));
    assert s[3 + |lang|] == '\n';
    assert s[4 + |lang|..] == code + ("```" + rest);
    FenceCloseOf(code, rest);
  }

  /** A complete fenced block becomes placeholder `n`, its two groups are recorded
      as block `n`, and the blocks after it are numbered from `n + 1`. */
  lemma ExtractBlock(lang: string, code: string, rest: string, n: nat)
    requires IsWord(lang) && FenceFree(code)
    ensures var e := ExtractFrom(rest, n + 1);
      ExtractFrom(Fenced(lang, code, rest), n)
        == Extraction(Placeholder(n) + e.text, [CodeBlock(lang, code)] + e.blocks)
  {
    FencedSlices(lang, code, rest);
    MatchFenced(lang, code, rest);
    ExtractMatch(Fenced(lang, code, rest), n, lang, code, rest);
  }

  /** One step of the fence pass over a match whose groups are `lang` and `code`. */
  lemma ExtractMatch(s: string, n: nat, lang: string, code: string, rest: string)
    requires MatchFence(s) == Some(FenceMatch(|lang|, |code|))
    requires s[3..3 + |lang|] == lang && s[4 + |lang|..4 + |lang| + |code|] == code
    requires s[7 + |lang| + |code|..] == rest
    ensures var e := ExtractFrom(rest, n + 1);
      ExtractFrom(s, n) == Extraction(Placeholder(n) + e.text, [CodeBlock(lang, code)] + e.blocks)
  {
    var m := FenceMatch(|lang|, |code|);
    var e := ExtractFrom(rest, n + 1);
    var x := ExtractFrom(s, n);
    assert x.text == Placeholder(n) + e.text by { ExtractSomeText(s, n, m); }
    assert x.blocks == [CodeBlock(lang, code)] + e.blocks by { ExtractSomeBlocks(s, n, m); }
  }

  /** The text of the fence pass on a text that starts with a match. */
  lemma ExtractSomeText(s: string, n: nat, m: FenceMatch)
    requires MatchFence(s) == Some(m)
    ensures ExtractFrom(s, n).text == Placeholder(n) + ExtractFrom(s[7 + m.langLen + m.codeLen..], n + 1).text
  {
    assert s != [] && ExtractFrom(s, n) == ExtractAt(s, n);
  }

  /** The blocks of the fence pass on a text that starts with a match. */
  lemma ExtractSomeBlocks(s: string, n: nat, m: FenceMatch)
    requires MatchFence(s) == Some(m)
    ensures var block := CodeBlock(s[3..3 + m.langLen], s[4 + m.langLen..4 + m.langLen + m.codeLen]);
      ExtractFrom(s, n).blocks == [block] + ExtractFrom(s[7 + m.langLen + m.codeLen..], n + 1).blocks
  {
    assert s != [] && ExtractFrom(s, n) == ExtractAt(s, n);
  }

  /** Where the groups and the rest sit in a fenced block. */
  lemma FencedSlices(lang: string, code: string, rest: string)
    ensures var s := Fenced(lang, code, rest);
      && 7 + |lang| + |code| <= |s|
      && s[3..3 + |lang|] == lang
      && s[4 + |lang|..4 + |lang| + |code|] == code
      && s[7 + |lang| + |code|..] == rest
  {
  }

  /** Text without a fence has no block to extract. */
  lemma {:induction false} ExtractNoFence(s: string, n: nat)
    requires forall i :: !FenceAt(s, i)
    ensures ExtractFrom(s, n) == Extraction(s, [])
    decreases |s|
  {
    if s != [] {
      assert !FenceAt(s, 0);
      var t := s[1..];
      assert forall i :: FenceAt(t, i) ==> FenceAt(s, i + 1);
      ExtractNoFence(t, n);
    }
  }

  /** Text without a backtick in front of the rest is copied before the rest's
      extraction, and adds no block. */
  lemma {:induction false} ExtractPrefix(p: string, s: string, n: nat)
    requires '`' !in p
    ensures var e := ExtractFrom(s, n); ExtractFrom(p + s, n) == Extraction(p + e.text, e.blocks)
    decreases |p|
  {
    if p == [] {
      assert p + s == s;
    } else {
      var c, q := p[0], p[1..];
      assert '`' !in q;
      ExtractPrefix(q, s, n);
      ExtractPrefixStep(c, q, s, n);
      ConsSplit(p, s);
      ConsSplit(p, ExtractFrom(s, n).text);
    }
  }

  lemma ExtractPrefixStep(c: char, q: string, s: string, n: nat)
    requires c != '`'
    requires var e := ExtractFrom(s, n); ExtractFrom(q + s, n) == Extraction(q + e.text, e.blocks)
    ensures var e := ExtractFrom(s, n); ExtractFrom([c] + (q + s), n) == Extraction([c] + (q + e.text), e.blocks)
  {
    CopiedCons(c, q + s, n);
  }

  lemma ConsSplit(p: string, s: string)
    requires p != []
    ensures p + s == [p[0]] + (p[1..] + s)
  {
    assert p == [p[0]] + p[1..];
  }

  /** A first character that is not a backtick starts no fence and is copied. */
  lemma CopiedCons(c: char, u: string, n: nat)
    requires c != '`'
    ensures var e := ExtractFrom(u, n); ExtractFrom([c] + u, n) == Extraction([c] + e.text, e.blocks)
  {
    var t := [c] + u;
    assert t[0] == c && t[1..] == u;
    assert MatchFence(t).None?;
  }

  /** An opening fence that is never closed is not a match: the text is kept as it is. */
  lemma ExtractUnterminated(lang: string, code: string, n: nat)
    requires IsWord(lang)
    requires forall i :: !FenceAt(code, i)
    ensures var s := "```" + (lang + ("\n" + code));
      ExtractFrom(s, n) == Extraction(s, [])
  {
    var s := "```" + (lang + ("\n" + code));
    assert s[3..] == lang + ("\n" + code);
    WordRunOf(lang, "\n" + code);
    assert s[4 + |lang|..] == code;
    FenceCloseSpec(code);
    assert MatchFence(s).None?;
    var s1 := s[1..];
    forall i | FenceAt(s1, i) ensures false {
      NoFenceInOpening(lang, code, i);
    }
    ExtractNoFence(s1, n);
  }

  lemma NoFenceInOpening(lang: string, code: string, i: int)
    requires IsWord(lang)
    requires forall j :: !FenceAt(code, j)
    ensures !FenceAt(("```" + (lang + ("\n" + code)))[1..], i)
  {
    var s := "```" + (lang + ("\n" + code));
    var s1 := s[1..];
    var L := 4 + |lang|;
    assert forall p :: 3 <= p < 3 + |lang| ==> s[p] == lang[p - 3];
    assert s[3 + |lang|] == '\n';
    assert forall j :: 0 <= j < |code| ==> s[L + j] == code[j];
    assert FenceAt(s1, i) && i + 1 >= L ==> FenceAt(code, i + 1 - L);
  }

  // ================================================================ reinsertion

  /** The HTML a variant renders for one block; the variants differ in the language they pass. */
  function CodeHtml(lang: string, escaped: string): string {
    "<pre><code class=\"language-" + lang + "\">" + escaped + "</code></pre>"
  }

  /** The `for i, block in enumerate(code_blocks)` loop: placeholder `i` is replaced
      by block `i`, in order, everywhere in the output produced so far. */
  function Reinserted(h: string, blocks: seq<string>): string
    decreases |blocks|
  {
    if blocks == [] then h
    else
      var i := |blocks| - 1;
      ReplaceAll(Reinserted(h, blocks[..i]), Placeholder(i), blocks[i])
  }

  method ReinsertCodeBlocks(h: string, blocks: seq<string>) returns (out: string)
    ensures out == Reinserted(h, blocks)
  {
    out := h;
    for i := 0 to |blocks|
      invariant out == Reinserted(h, blocks[..i])
    {
      assert blocks[..i + 1][..i] == blocks[..i];
      out := ReplaceAll(out, Placeholder(i), blocks[i]);
    }
    assert blocks[..|blocks|] == blocks;
  }

  /** Output without `[` carries no placeholder and is left alone. */
  lemma {:induction false} ReinsertedPlain(h: string, blocks: seq<string>)
    requires '[' !in h
    ensures Reinserted(h, blocks) == h
    decreases |blocks|
  {
    if blocks != [] {
      var i := |blocks| - 1;
      ReinsertedPlain(h, blocks[..i]);
      AbsentFirstChar(h, Placeholder(i));
      ReplaceAbsent(h, Placeholder(i), blocks[i]);
    }
  }

  /** The single placeholder of a one-block document is replaced by the block. */
  lemma ReinsertOne(a: string, c: string, block: string)
    requires '[' !in a && '[' !in c
    ensures Reinserted(a + (Placeholder(0) + c), [block]) == a + (block + c)
  {
    var p := Placeholder(0);
    assert [block][..0] == [];
    ReplaceSkips(a, p + c, p, block);
    ReplaceFront(p, block, c);
    AbsentFirstChar(c, p);
    ReplaceAbsent(c, p, block);
  }

  /** The tags of a paragraph hold no `[`, so no placeholder starts in them. */
  lemma ParagraphTagsPlain()
    ensures '[' !in "<p>" && '[' !in "</p>"
  {
    var open: string := "<p>";
    var close: string := "</p>";
    assert forall i :: 0 <= i < |open| ==> open[i] != '[';
    assert forall i :: 0 <= i < |close| ==> close[i] != '[';
  }

  /** `texts[0] + items[0] + texts[1] + ... + items[k - 1] + texts[k]`. */
  function Spliced(texts: seq<string>, items: seq<string>): string
    requires |texts| == |items| + 1
    decreases |items|
  {
    if items == [] then texts[0] else texts[0] + (items[0] + Spliced(texts[1..], items[1..]))
  }

  /** Placeholders `from` to `to - 1`, in order. */
  function Placeholders(from: nat, to: nat): (ps: seq<string>)
    requires from <= to
    ensures |ps| == to - from
  {
    seq(to - from, i requires 0 <= i < to - from => Placeholder(from + i))
  }

  predicate NoBracket(xs: seq<string>) {
    forall i :: 0 <= i < |xs| ==> '[' !in xs[i]
  }

  /** An output made of placeholders `0` to `k - 1` between texts without `[`
      becomes the same texts with block `i` in place of placeholder `i`. */
  lemma ReinsertedSpliced(texts: seq<string>, blocks: seq<string>)
    requires |texts| == |blocks| + 1 && NoBracket(texts) && NoBracket(blocks)
    ensures Reinserted(Spliced(texts, Placeholders(0, |blocks|)), blocks) == Spliced(texts, blocks)
  {
    ReinsertedPrefix(texts, blocks, |blocks|);
    assert blocks[..|blocks|] == blocks;
    assert blocks + Placeholders(|blocks|, |blocks|) == blocks;
  }

  /** After `m` rounds of the loop, blocks `0` to `m - 1` are in place and the
      other placeholders are still there. */
  lemma {:induction false} ReinsertedPrefix(texts: seq<string>, blocks: seq<string>, m: nat)
    requires |texts| == |blocks| + 1 && NoBracket(texts) && NoBracket(blocks) && m <= |blocks|
    ensures Reinserted(Spliced(texts, Placeholders(0, |blocks|)), blocks[..m])
         == Spliced(texts, blocks[..m] + Placeholders(m, |blocks|))
    decreases m
  {
    var k := |blocks|;
    var h := Spliced(texts, Placeholders(0, k));
    if m == 0 {
      assert blocks[..0] + Placeholders(0, k) == Placeholders(0, k);
    } else {
      var j := m - 1;
      ReinsertedPrefix(texts, blocks, j);
      assert blocks[..m][..j] == blocks[..j];
      assert Reinserted(h, blocks[..m]) == ReplaceAll(Reinserted(h, blocks[..j]), Placeholder(j), blocks[j]);
      var xs := blocks[..j] + Placeholders(j, k);
      RoundItems(blocks, j);
      ReplaceSpliced(texts, xs, j, blocks[j]);
      RoundResult(blocks, j);
    }
  }

  /** Before round `j` the items are blocks before `j` and placeholders from `j` on. */
  lemma RoundItems(blocks: seq<string>, j: nat)
    requires NoBracket(blocks) && j < |blocks|
    ensures var xs := blocks[..j] + Placeholders(j, |blocks|);
      |xs| == |blocks| && forall i :: 0 <= i < |xs| ==> Fits(xs[i], j)
  {
    var xs := blocks[..j] + Placeholders(j, |blocks|);
    forall i | 0 <= i < |xs| ensures Fits(xs[i], j) {
      if i < j {
        assert xs[i] == blocks[i];
      } else {
        assert xs[i] == Placeholder(i);
        if i != j {
          assert OtherPlaceholder(xs[i], j);
        }
      }
    }
  }

  /** Round `j` puts block `j` where placeholder `j` was. */
  lemma RoundResult(blocks: seq<string>, j: nat)
    requires NoBracket(blocks) && j < |blocks|
    ensures Subst(blocks[..j] + Placeholders(j, |blocks|), j, blocks[j])
         == blocks[..j + 1] + Placeholders(j + 1, |blocks|)
  {
    var k := |blocks|;
    var xs := blocks[..j] + Placeholders(j, k);
    var ys := blocks[..j + 1] + Placeholders(j + 1, k);
    var zs := Subst(xs, j, blocks[j]);
    forall i | 0 <= i < k ensures zs[i] == ys[i] {
      if i < j {
        assert xs[i] == blocks[i] && ys[i] == blocks[i];
        assert '[' !in blocks[i];
        assert blocks[i] != Placeholder(j) by {
          assert Placeholder(j)[0] == '[';
        }
      } else if i == j {
        assert xs[i] == Placeholder(j);
      } else {
        assert xs[i] == Placeholder(i) && ys[i] == Placeholder(i);
        if Placeholder(i) == Placeholder(j) {
          PlaceholderInjective(i, j);
        }
      }
    }
  }

  /** Another placeholder than `m`. */
  ghost predicate OtherPlaceholder(x: string, m: nat) {
    exists l: nat :: l != m && x == Placeholder(l)
  }

  /** What may stand between the texts while placeholder `m` is replaced. */
  ghost predicate Fits(x: string, m: nat) {
    x == Placeholder(m) || '[' !in x || OtherPlaceholder(x, m)
  }

  /** The items with each occurrence of placeholder `m` replaced by `b`. */
  function Subst(xs: seq<string>, m: nat, b: string): (ys: seq<string>)
    ensures |ys| == |xs|
  {
    seq(|xs|, i requires 0 <= i < |xs| => if xs[i] == Placeholder(m) then b else xs[i])
  }

  /** One round of `str.replace` over spliced text replaces exactly the items
      that are placeholder `m`. */
  lemma {:induction false} ReplaceSpliced(texts: seq<string>, xs: seq<string>, m: nat, b: string)
    requires |texts| == |xs| + 1 && NoBracket(texts)
    requires forall i :: 0 <= i < |xs| ==> Fits(xs[i], m)
    ensures ReplaceAll(Spliced(texts, xs), Placeholder(m), b) == Spliced(texts, Subst(xs, m, b))
    decreases |xs|
  {
    var p := Placeholder(m);
    var t0 := texts[0];
    assert '[' !in t0;
    if xs == [] {
      AbsentFirstChar(t0, p);
      ReplaceAbsent(t0, p, b);
    } else {
      var x0 := xs[0];
      var rest := Spliced(texts[1..], xs[1..]);
      ReplaceSkips(t0, x0 + rest, p, b);
      ReplaceItem(x0, rest, m, b);
      assert NoBracket(texts[1..]) by {
        forall i | 0 <= i < |texts[1..]| ensures '[' !in texts[1..][i] {
          assert texts[1..][i] == texts[i + 1];
        }
      }
      assert forall i :: 0 <= i < |xs[1..]| ==> Fits(xs[1..][i], m) by {
        forall i | 0 <= i < |xs[1..]| ensures Fits(xs[1..][i], m) {
          assert xs[1..][i] == xs[i + 1];
        }
      }
      ReplaceSpliced(texts[1..], xs[1..], m, b);
      var ys := Subst(xs, m, b);
      assert ys[1..] == Subst(xs[1..], m, b);
    }
  }

  /** The item in front of the rest is replaced if it is placeholder `m` and copied otherwise. */
  lemma ReplaceItem(x: string, rest: string, m: nat, b: string)
    requires Fits(x, m)
    ensures ReplaceAll(x + rest, Placeholder(m), b)
         == (if x == Placeholder(m) then b else x) + ReplaceAll(rest, Placeholder(m), b)
  {
    var p := Placeholder(m);
    if x == p {
      ReplaceFront(p, b, rest);
    } else if '[' !in x {
      assert p[0] == '[';
      ReplaceSkips(x, rest, p, b);
    } else {
      var l: nat :| l != m && x == Placeholder(l);
      ReplaceOther(l, m, rest, b);
    }
  }

  /** The decimal part of a placeholder ends at its first `]`. */
  lemma PlaceholderShape(n: nat)
    ensures var p := Placeholder(n); var d := NatToString(n);
      && |p| == 15 + |d| && p[..13] == "[[CODE_BLOCK_" && p[13..13 + |d|] == d
      && p[13 + |d|] == ']' && p[0] == '[' && p[1] == '[' && p[2] == 'C'
      && forall i :: 2 <= i < |p| ==> p[i] != '['
  {
    var p := Placeholder(n);
    var d := NatToString(n);
    assert forall i :: 13 <= i < 13 + |d| ==> p[i] == d[i - 13];
  }

  /** No placeholder starts where another placeholder starts. */
  lemma PlaceholderNotPrefix(l: nat, m: nat, rest: string)
    requires l != m
    ensures !StartsWith(Placeholder(l) + rest, Placeholder(m))
  {
    var pl, pm := Placeholder(l), Placeholder(m);
    var dl, dm := NatToString(l), NatToString(m);
    var s := pl + rest;
    PlaceholderShape(l);
    PlaceholderShape(m);
    if |dl| == |dm| {
      if pl == pm {
        PlaceholderInjective(l, m);
      }
      assert s[..|pl|] == pl;
    } else if |dl| < |dm| {
      assert s[13 + |dl|] == ']';
      assert pm[13 + |dl|] == dm[|dl|];
      assert s[13 + |dl|] != pm[13 + |dl|];
    } else {
      assert pm[13 + |dm|] == ']';
      assert s[13 + |dm|] == dl[|dm|];
      assert s[13 + |dm|] != pm[13 + |dm|];
    }
  }

  /** Another placeholder is copied by the replacement of placeholder `m`. */
  lemma ReplaceOther(l: nat, m: nat, rest: string, b: string)
    requires l != m
    ensures ReplaceAll(Placeholder(l) + rest, Placeholder(m), b) == Placeholder(l) + ReplaceAll(rest, Placeholder(m), b)
  {
    var pl, pm := Placeholder(l), Placeholder(m);
    var c0, c1, tail := pl[0], pl[1], pl[2..];
    assert pl == [c0] + ([c1] + tail) && |pm| > 2 && pm[1] == '[' && tail[0] == 'C' && '[' !in tail by {
      PlaceholderShape(l);
      PlaceholderShape(m);
      forall i | 0 <= i < |tail| ensures tail[i] != '[' {
        assert tail[i] == pl[i + 2];
      }
    }
    var u := [c1] + (tail + rest);
    assert pl + rest == [c0] + u;
    assert ReplaceAll([c0] + u, pm, b) == [c0] + ReplaceAll(u, pm, b) by {
      PlaceholderNotPrefix(l, m, rest);
      ReplaceCons(c0, u, pm, b);
    }
    assert ReplaceAll(u, pm, b) == [c1] + ReplaceAll(tail + rest, pm, b) by {
      assert u[1] == 'C';
      ReplaceCons(c1, tail + rest, pm, b);
    }
    var r := ReplaceAll(rest, pm, b);
    assert ReplaceAll(tail + rest, pm, b) == tail + r by { ReplaceSkips(tail, rest, pm, b); }
    assert [c0] + ([c1] + (tail + r)) == pl + r by {
      Assoc4([c0], [c1], tail, r);
      assert pl == [c0] + [c1] + tail;
    }
  }

  /** The blocks are put back in order, so a placeholder inside the body of an
      earlier block is replaced by its own block. */
  lemma PlaceholderInEarlierBody(x: string, y: string, b1: string)
    requires '[' !in x && '[' !in y
    ensures Reinserted(Placeholder(0), [x + Placeholder(1) + y, b1]) == x + b1 + y
  {
    var p0, p1 := Placeholder(0), Placeholder(1);
    var b0 := x + p1 + y;
    assert [b0, b1][..1] == [b0];
    assert [b0][..0] == [];
    ReplaceFront(p0, b0, []);
    assert p0 + [] == p0;
    assert ReplaceAll([], p0, b0) == [];
    assert Reinserted(p0, [b0]) == b0;
    assert Reinserted(p0, [b0, b1]) == ReplaceAll(b0, p1, b1);
    assert p1[0] == '[';
    assert b0 == x + (p1 + y);
    ReplaceSkips(x, p1 + y, p1, b1);
    ReplaceFront(p1, b1, y);
    AbsentFirstChar(y, p1);
    ReplaceAbsent(y, p1, b1);
  }

  /** What a replacement inserts is not scanned again: a placeholder inside the
      body of its own or a later block stays as text. */
  lemma PlaceholderInOwnBody(x: string, y: string)
    ensures Reinserted(Placeholder(0), [x + Placeholder(0) + y]) == x + Placeholder(0) + y
  {
    var p0 := Placeholder(0);
    var b0 := x + p0 + y;
    assert [b0][..0] == [];
    ReplaceFront(p0, b0, []);
    assert p0 + [] == p0;
    assert ReplaceAll([], p0, b0) == [];
  }

  // ================================================================ a one-block document

  /** A document that is just one fenced block, with plain content, reaches line
      processing as the single placeholder `[[CODE_BLOCK_0]]`. */
  lemma FenceOnlyDocument(lang: string, code: string)
    requires IsWord(lang)
    requires '`' !in code && '*' !in code && '#' !in code
    ensures ExtractFrom(Prepare(Fenced(lang, code, "")), 0)
         == Extraction(Placeholder(0), [CodeBlock(lang, code)])
  {
    var md := Fenced(lang, code, "");
    PrepareIdentity(lang, code);
    assert forall i :: !FenceAt(code, i);
    ExtractBlock(lang, code, "", 0);
    assert Placeholder(0) + [] == Placeholder(0);
  }

  /** Plain text the line passes leave alone: one trimmed, non-empty line with no
      `*`, `#`, backtick or `[`. */
  predicate PlainTextLine(x: string) {
    x != [] && Trimmed(x) && NoLineBreak(x) && '*' !in x && '#' !in x && '`' !in x && '[' !in x
  }

  /** A line of text, a fenced block, a line of text: the text passes leave the
      document as it is, and the fence pass puts placeholder 0 on the middle line
      and records the block. */
  lemma TextBlockTextExtraction(head: string, lang: string, code: string, tail: string)
    requires PlainTextLine(head) && PlainTextLine(tail) && IsWord(lang)
    requires '`' !in code && '*' !in code && '#' !in code
    ensures var md := head + "\n" + Fenced(lang, code, "\n" + tail);
      ExtractFrom(Prepare(md), 0)
        == Extraction(head + "\n" + (Placeholder(0) + ("\n" + tail)), [CodeBlock(lang, code)])
  {
    var md := head + "\n" + Fenced(lang, code, "\n" + tail);
    TextBlockTextPrepared(head, lang, code, tail);
    TextBlockTextFences(head, lang, code, tail);
  }

  lemma TextBlockTextPrepared(head: string, lang: string, code: string, tail: string)
    requires PlainTextLine(head) && PlainTextLine(tail) && IsWord(lang)
    requires '*' !in code && '#' !in code
    ensures var md := head + "\n" + Fenced(lang, code, "\n" + tail); Prepare(md) == md
  {
    var md := head + "\n" + Fenced(lang, code, "\n" + tail);
    TextBlockTextPlain(head, lang, code, tail);
    StripTrimmed(md);
    PreparePlain(md);
  }

  lemma TextBlockTextFences(head: string, lang: string, code: string, tail: string)
    requires PlainTextLine(head) && PlainTextLine(tail) && IsWord(lang) && '`' !in code
    ensures ExtractFrom(head + "\n" + Fenced(lang, code, "\n" + tail), 0)
         == Extraction(head + "\n" + (Placeholder(0) + ("\n" + tail)), [CodeBlock(lang, code)])
  {
    var after := "\n" + tail;
    var block := Fenced(lang, code, after);
    assert ExtractFrom(after, 1) == Extraction(after, []) by {
      forall i | 0 <= i < |after| ensures after[i] != '`' {
        if i > 0 {
          assert after[i] == tail[i - 1];
        }
      }
      ExtractNoFence(after, 1);
    }
    assert ExtractFrom(block, 0) == Extraction(Placeholder(0) + after, [CodeBlock(lang, code)]) by {
      assert forall i :: !FenceAt(code, i);
      ExtractBlock(lang, code, after, 0);
      assert [CodeBlock(lang, code)] + [] == [CodeBlock(lang, code)];
    }
    assert '`' !in head + "\n";
    ExtractPrefix(head + "\n", block, 0);
  }

  /** Three paragraphs, the middle one placeholder 0: the block takes the
      placeholder's place and the paragraphs around it are kept. */
  lemma ReinsertMiddleParagraph(head: string, tail: string, block: string)
    requires '[' !in head && '[' !in tail
    ensures Reinserted(JoinOn(["<p>" + head + "</p>", "<p>" + Placeholder(0) + "</p>", "<p>" + tail + "</p>"], '\n'), [block])
         == "<p>" + head + "</p>\n<p>" + block + "</p>\n<p>" + tail + "</p>"
  {
    var p := Placeholder(0);
    var x, y, z := "<p>" + head + "</p>", "<p>" + p + "</p>", "<p>" + tail + "</p>";
    var a := "<p>" + head + "</p>\n<p>";
    var c := "</p>\n<p>" + tail + "</p>";
    assert JoinOn([x, y, z], '\n') == a + (p + c) by {
      JoinThree(x, y, z, '\n');
      assert x + ['\n'] + y + ['\n'] + z == a + (p + c);
    }
    assert '[' !in a && '[' !in c by {
      assert forall ch :: ch in a ==> ch in head || ch in "<p></p>\n";
      assert forall ch :: ch in c ==> ch in tail || ch in "<p></p>\n";
      var tags: string := "<p></p>\n";
      assert forall i :: 0 <= i < |tags| ==> tags[i] != '[';
    }
    assert Reinserted(a + (p + c), [block]) == a + (block + c) by { ReinsertOne(a, c, block); }
    assert a + (block + c) == "<p>" + head + "</p>\n<p>" + block + "</p>\n<p>" + tail + "</p>";
  }

  /** Such a document has no `*` or `#`, and no whitespace at either end. */
  lemma TextBlockTextPlain(head: string, lang: string, code: string, tail: string)
    requires PlainTextLine(head) && PlainTextLine(tail) && IsWord(lang)
    requires '*' !in code && '#' !in code
    ensures var md := head + "\n" + Fenced(lang, code, "\n" + tail);
      '*' !in md && '#' !in md && Trimmed(md)
  {
    var md := head + "\n" + Fenced(lang, code, "\n" + tail);
    assert md == head + "\n```" + lang + "\n" + code + "```\n" + tail;
    assert md[0] == head[0] && md[|md| - 1] == tail[|tail| - 1];
    assert forall c :: c in md ==>
      c in head || c in "\n```" || c in lang || c in "\n" || c in code || c in "```\n" || c in tail;
    assert forall i :: 0 <= i < |lang| ==> lang[i] != '*' && lang[i] != '#';
  }

  /** Text with no `*` and no `#` comes out of the four text passes only trimmed. */
  lemma PreparePlain(md: string)
    requires '*' !in md && '#' !in md
    ensures Prepare(md) == Strip(md)
  {
    var s := Strip(md);
    StripChars(md);
    BoldSkips(s, "");
    assert s + "" == s;
    DropNoHash(s, true);
    HeadingsNoHash(s);
  }

  /** The opening line of a fence is one trimmed line that starts with a backtick. */
  lemma FenceLine(lang: string)
    requires IsWord(lang)
    ensures var head := "```" + lang; NoLineBreak(head) && Trimmed(head) && head[0] == '`'
  {
    var head := "```" + lang;
    assert forall i :: 3 <= i < |head| ==> head[i] == lang[i - 3];
  }

  /** The opening line of an unclosed fence is split off as the first line. */
  lemma FenceHeadLines(lang: string, code: string)
    requires IsWord(lang)
    ensures SplitLines("```" + (lang + ("\n" + code))) == ["```" + lang] + SplitLines(code)
  {
    var head := "```" + lang;
    FenceLine(lang);
    SplitLinesFirst(head, code);
    Assoc3(head, "\n", code);
    Assoc3("```", lang, "\n" + code);
  }

  /** A placeholder is one trimmed line. */
  lemma PlaceholderOneLine(n: nat)
    ensures SplitLines(Placeholder(n)) == [Placeholder(n)] && Strip(Placeholder(n)) == Placeholder(n)
  {
    var p := Placeholder(n);
    forall i | 0 <= i < |p| && IsLineBreak(p[i]) ensures false {
      LineBreakIsSpace(p[i]);
    }
    SplitLinesOneLine(p);
    StripTrimmed(p);
  }

  /** A document that opens a fence and never closes it passes the text and
      fence passes unchanged, for plain content that does not end in whitespace. */
  lemma UnterminatedDocument(lang: string, code: string)
    requires IsWord(lang)
    requires '`' !in code && '*' !in code && '#' !in code
    requires code != [] && !IsSpace(code[|code| - 1])
    ensures var md := "```" + (lang + ("\n" + code));
      ExtractFrom(Prepare(md), 0) == Extraction(md, [])
  {
    var md := "```" + (lang + ("\n" + code));
    forall i | 0 <= i < |md| ensures md[i] != '*' && md[i] != '#' {
      if 3 <= i < 3 + |lang| {
        assert md[i] == lang[i - 3];
      } else if i > 3 + |lang| {
        assert md[i] == code[i - 4 - |lang|];
        assert md[i] in code;
      }
    }
    assert md[|md| - 1] == code[|code| - 1];
    StripTrimmed(md);
    PreparePlain(md);
    assert forall i :: !FenceAt(code, i);
    ExtractUnterminated(lang, code, 0);
  }

  lemma PrepareIdentity(lang: string, code: string)
    requires IsWord(lang)
    requires '`' !in code && '*' !in code && '#' !in code
    ensures Prepare(Fenced(lang, code, "")) == Fenced(lang, code, "")
  {
    var md := Fenced(lang, code, "");
    assert md[0] == '`' && md[|md| - 1] == '`';
    StripTrimmed(md);
    forall i | 0 <= i < |md| ensures md[i] != '*' && md[i] != '#' {
      var L := 3 + |lang|;
      if 3 <= i < L {
        assert md[i] == lang[i - 3];
      } else if L + 1 <= i < L + 1 + |code| {
        assert md[i] == code[i - L - 1];
        assert md[i] in code;
      }
    }
    PreparePlain(md);
  }
}
