/** Python string primitives the renderer relies on, modelled on `seq<char>`:
    `str.strip`, `str.lstrip(chars)`, `str.startswith`, `in`, `str.splitlines`,
    `str.split(sep)`, `sep.join`, `str.replace`, `str.lower` and `str(int)`. */
module Text {

  datatype Option<T> = None | Some(value: T)

  /** Python's `str.isspace`, which is also what `\s` matches in a `str` pattern. */
  predicate IsSpace(c: char) {
    c == ' ' || ('\t' <= c <= '\r') || ('\U{1C}' <= c <= '\U{1F}')
    || c == '\U{85}' || c == '\U{A0}' || c == '\U{1680}' || ('\U{2000}' <= c <= '\U{200A}')
    || c == '\U{2028}' || c == '\U{2029}' || c == '\U{202F}' || c == '\U{205F}' || c == '\U{3000}'
  }

  /** The characters at which `str.splitlines` breaks a line. */
  predicate IsLineBreak(c: char) {
    c == '\n' || c == '\r' || c == '\U{0B}' || c == '\U{0C}' || c == '\U{1C}' || c == '\U{1D}'
    || c == '\U{1E}' || c == '\U{85}' || c == '\U{2028}' || c == '\U{2029}'
  }

  predicate IsDigit(c: char) { '0' <= c <= '9' }

  predicate NoLineBreak(s: string) { forall i :: 0 <= i < |s| ==> !IsLineBreak(s[i]) }

  // ---------------------------------------------------------------- strip

  predicate AllSpace(w: string) { forall i :: 0 <= i < |w| ==> IsSpace(w[i]) }

  /** Text that neither starts nor ends with whitespace. */
  predicate Trimmed(t: string) { t == [] || (!IsSpace(t[0]) && !IsSpace(t[|t| - 1])) }

  // The strip functions carry no postconditions of their own: what they compute
  // is stated by the lemmas after them, which a proof calls where it needs them.
  // Postconditions here would be instantiated for every stripped line of every
  // proof about the renderers.

  /** `s.lstrip()`: drops the longest all-whitespace prefix. */
  function LStrip(s: string): string {
    if s != [] && IsSpace(s[0]) then LStrip(s[1..]) else s
  }

  /** `s.rstrip()`: drops the longest all-whitespace suffix. */
  function RStrip(s: string): string {
    if s != [] && IsSpace(s[|s| - 1]) then RStrip(s[..|s| - 1]) else s
  }

  /** `s.strip()`. */
  function Strip(s: string): string {
    RStrip(LStrip(s))
  }

  /** `lstrip` keeps a suffix: what it drops is whitespace, and what it keeps
      does not start with whitespace. */
  lemma {:induction false} LStripSpec(s: string)
    ensures var r := LStrip(s);
      && |r| <= |s| && r == s[|s| - |r|..]
      && (forall i :: 0 <= i < |s| - |r| ==> IsSpace(s[i]))
      && (r != [] ==> !IsSpace(r[0]))
    decreases |s|
  {
    if s != [] && IsSpace(s[0]) {
      LStripSpec(s[1..]);
    }
  }

  /** `rstrip` keeps a prefix: what it drops is whitespace, and what it keeps
      does not end with whitespace. */
  lemma {:induction false} RStripSpec(s: string)
    ensures var r := RStrip(s);
      && |r| <= |s| && r == s[..|r|]
      && (forall i :: |r| <= i < |s| ==> IsSpace(s[i]))
      && (r != [] ==> !IsSpace(r[|r| - 1]))
    decreases |s|
  {
    if s != [] && IsSpace(s[|s| - 1]) {
      RStripSpec(s[..|s| - 1]);
    }
  }

  /** `strip` keeps the slice between the leading and the trailing whitespace:
      the result is empty exactly for all-whitespace text, and otherwise starts
      and ends with a non-space character. */
  lemma StripSpec(s: string)
    ensures var r := Strip(s);
      && (r == [] <==> AllSpace(s))
      && Trimmed(r)
  {
    var l := LStrip(s);
    var r := RStrip(l);
    LStripSpec(s);
    RStripSpec(l);
    var d := |s| - |l|;
    if r == [] {
    } else {
      assert r[0] == l[0] && l[0] == s[d];
      assert !IsSpace(s[d]);
    }
  }

  /** `strip` only removes characters: every character of the result is in the input. */
  lemma StripChars(s: string)
    ensures forall c :: c in Strip(s) ==> c in s
  {
    var l := LStrip(s);
    var r := RStrip(l);
    LStripSpec(s);
    RStripSpec(l);
    var d := |s| - |l|;
    assert forall i :: 0 <= i < |r| ==> r[i] == l[i] && l[i] == s[d + i];
    forall c | c in r ensures c in s {
      var i :| 0 <= i < |r| && r[i] == c;
      assert s[d + i] == c;
    }
  }

  /** Stripping text that neither starts nor ends with whitespace leaves it as it is. */
  lemma StripTrimmed(s: string)
    requires Trimmed(s)
    ensures Strip(s) == s
  {
  }

  /** Stripping is idempotent. */
  lemma StripStrip(s: string)
    ensures Strip(Strip(s)) == Strip(s)
  {
    StripSpec(s);
    StripTrimmed(Strip(s));
  }

  lemma {:induction false} LStripSpaces(w: string, t: string)
    requires AllSpace(w) && (t == [] || !IsSpace(t[0]))
    ensures LStrip(w + t) == t
    decreases |w|
  {
    if w != [] {
      assert (w + t)[1..] == w[1..] + t;
      LStripSpaces(w[1..], t);
    } else {
      assert w + t == t;
    }
  }

  lemma {:induction false} RStripSpaces(t: string, w: string)
    requires AllSpace(w) && (t == [] || !IsSpace(t[|t| - 1]))
    ensures RStrip(t + w) == t
    decreases |w|
  {
    if w != [] {
      var v := w[..|w| - 1];
      assert (t + w)[..|t + w| - 1] == t + v;
      RStripSpaces(t, v);
    } else {
      assert t + w == t;
    }
  }

  /** Whitespace around trimmed text is exactly what `strip` removes. */
  lemma StripPadded(w1: string, t: string, w2: string)
    requires AllSpace(w1) && AllSpace(w2) && Trimmed(t)
    ensures Strip(w1 + t + w2) == t
  {
    if t == [] {
      assert w1 + t + w2 == (w1 + w2) + [];
      assert AllSpace(w1 + w2);
      LStripSpaces(w1 + w2, []);
    } else {
      assert w1 + t + w2 == w1 + (t + w2);
      LStripSpaces(w1, t + w2);
      RStripSpaces(t, w2);
    }
  }

  /** `s.lstrip("-*")`: drops every leading list marker character. */
  function LStripMarkers(s: string): string {
    if s != [] && (s[0] == '-' || s[0] == '*') then LStripMarkers(s[1..]) else s
  }

  /** `lstrip("-*")` keeps a suffix that does not start with a marker and drops only markers. */
  lemma {:induction false} LStripMarkersSpec(s: string)
    ensures var r := LStripMarkers(s);
      && |r| <= |s| && r == s[|s| - |r|..]
      && (forall i :: 0 <= i < |s| - |r| ==> s[i] == '-' || s[i] == '*')
      && (r != [] ==> r[0] != '-' && r[0] != '*')
    decreases |s|
  {
    if s != [] && (s[0] == '-' || s[0] == '*') {
      LStripMarkersSpec(s[1..]);
    }
  }

  lemma {:induction false} LStripMarkersOf(m: string, t: string)
    requires forall i :: 0 <= i < |m| ==> m[i] == '-' || m[i] == '*'
    requires t == [] || (t[0] != '-' && t[0] != '*')
    ensures LStripMarkers(m + t) == t
    decreases |m|
  {
    if m != [] {
      assert (m + t)[1..] == m[1..] + t;
      LStripMarkersOf(m[1..], t);
    } else {
      assert m + t == t;
    }
  }

  /** Every line break is whitespace, so `strip` also removes line breaks at the ends. */
  lemma LineBreakIsSpace(c: char)
    requires IsLineBreak(c)
    ensures IsSpace(c)
  {
  }

  lemma Assoc3(a: string, b: string, c: string)
    ensures a + b + c == a + (b + c)
  {
  }

  lemma Assoc4(a: string, b: string, c: string, d: string)
    ensures a + b + c + d == a + (b + (c + d))
  {
  }

  // ---------------------------------------------------------------- search

  predicate StartsWith(s: string, p: string) {
    |p| <= |s| && s[..|p|] == p
  }

  /** Python's `sub in s`. */
  predicate Contains(s: string, sub: string)
    decreases |s|
  {
    StartsWith(s, sub) || (s != [] && Contains(s[1..], sub))
  }

  /** An occurrence at a known offset is an occurrence. */
  lemma {:induction false} ContainsAt(s: string, sub: string, k: nat)
    requires k + |sub| <= |s| && s[k..k + |sub|] == sub
    ensures Contains(s, sub)
    decreases k
  {
    if k > 0 {
      assert s[1..][k - 1..k - 1 + |sub|] == sub;
      ContainsAt(s[1..], sub, k - 1);
    }
  }

  /** An occurrence in `s` is a position where `sub` starts. */
  lemma {:induction false} ContainsWitness(s: string, sub: string) returns (k: nat)
    requires Contains(s, sub)
    ensures k + |sub| <= |s| && s[k..k + |sub|] == sub
    decreases |s|
  {
    if StartsWith(s, sub) {
      k := 0;
    } else {
      var j := ContainsWitness(s[1..], sub);
      k := j + 1;
      assert s[k..k + |sub|] == s[1..][j..j + |sub|];
    }
  }

  /** `s.find(c)`, reported as `|s|` when `c` does not occur. */
  function IndexOf(s: string, c: char): (i: nat)
    ensures i <= |s| && (i < |s| ==> s[i] == c)
    ensures forall k :: 0 <= k < i ==> s[k] != c
  {
    if s == [] || s[0] == c then 0 else 1 + IndexOf(s[1..], c)
  }

  lemma IndexOfAt(s: string, c: char, i: nat)
    requires i < |s| && s[i] == c && forall k :: 0 <= k < i ==> s[k] != c
    ensures IndexOf(s, c) == i
  {
  }

  lemma IndexOfAbsent(s: string, c: char)
    requires forall k :: 0 <= k < |s| ==> s[k] != c
    ensures IndexOf(s, c) == |s|
  {
  }

  // ---------------------------------------------------------------- split and join

  /** `s.split(sep)` for a one-character separator. */
  function SplitOn(s: string, sep: char): (parts: seq<string>)
    ensures |parts| > 0
    ensures forall k :: 0 <= k < |parts| ==> sep !in parts[k]
    decreases |s|
  {
    var i := IndexOf(s, sep);
    if i == |s| then [s] else [s[..i]] + SplitOn(s[i + 1..], sep)
  }

  /** `sep.join(parts)` for a one-character separator. */
  function JoinOn(parts: seq<string>, sep: char): string
    decreases |parts|
  {
    if parts == [] then ""
    else if |parts| == 1 then parts[0]
    else parts[0] + [sep] + JoinOn(parts[1..], sep)
  }

  lemma JoinCons(a: string, rest: seq<string>, sep: char)
    requires rest != []
    ensures JoinOn([a] + rest, sep) == a + ([sep] + JoinOn(rest, sep))
  {
    assert ([a] + rest)[1..] == rest;
  }

  /** A text that starts with a separator-free part and a separator splits there first. */
  lemma SplitFirst(p: string, rest: string, sep: char)
    requires forall j :: 0 <= j < |p| ==> p[j] != sep
    ensures SplitOn(p + [sep] + rest, sep) == [p] + SplitOn(rest, sep)
  {
    var s := p + [sep] + rest;
    assert forall j :: 0 <= j < |p| ==> s[j] == p[j];
    IndexOfAt(s, sep, |p|);
    assert s[..|p|] == p;
    assert s[|p| + 1..] == rest;
  }

  /** Splitting undoes joining when no part contains the separator. */
  lemma {:induction false} SplitJoin(parts: seq<string>, sep: char)
    requires |parts| > 0
    requires forall k :: 0 <= k < |parts| ==> sep !in parts[k]
    ensures SplitOn(JoinOn(parts, sep), sep) == parts
    decreases |parts|
  {
    var s := JoinOn(parts, sep);
    var p := parts[0];
    assert forall j :: 0 <= j < |p| ==> p[j] != sep;
    if |parts| == 1 {
      IndexOfAbsent(s, sep);
    } else {
      var tail := parts[1..];
      var rest := JoinOn(tail, sep);
      assert s == p + [sep] + rest;
      SplitFirst(p, rest, sep);
      assert forall k :: 0 <= k < |tail| ==> sep !in tail[k] by {
        forall k | 0 <= k < |tail| ensures sep !in tail[k] {
          assert tail[k] == parts[k + 1];
        }
      }
      SplitJoin(tail, sep);
    }
  }

  /** Joining undoes splitting. */
  lemma {:induction false} JoinSplit(s: string, sep: char)
    ensures JoinOn(SplitOn(s, sep), sep) == s
    decreases |s|
  {
    var i := IndexOf(s, sep);
    if i < |s| {
      var a := s[..i];
      var b := s[i + 1..];
      assert s == a + [sep] + b;
      JoinSplit(b, sep);
      var rest := SplitOn(b, sep);
      assert SplitOn(s, sep) == [a] + rest;
      JoinCons(a, rest, sep);
    }
  }

  /** Index of the first `splitlines` break, `|s|` when there is none. */
  function FirstLineBreak(s: string): (i: nat)
    ensures i <= |s| && (i < |s| ==> IsLineBreak(s[i]))
    ensures forall k :: 0 <= k < i ==> !IsLineBreak(s[k])
  {
    if s == [] || IsLineBreak(s[0]) then 0 else 1 + FirstLineBreak(s[1..])
  }

  /** `s.splitlines()`: `\r\n` is one break, and a break at the very end adds no empty line. */
  function SplitLines(s: string): (lines: seq<string>)
    ensures forall k :: 0 <= k < |lines| ==> NoLineBreak(lines[k])
    ensures lines == [] <==> s == []
    decreases |s|
  {
    if s == [] then []
    else
      var i := FirstLineBreak(s);
      if i == |s| then [s]
      else
        var next := if s[i] == '\r' && i + 1 < |s| && s[i + 1] == '\n' then i + 2 else i + 1;
        [s[..i]] + SplitLines(s[next..])
  }

  /** Text without line breaks is one line. */
  lemma SplitLinesOneLine(s: string)
    requires s != [] && NoLineBreak(s)
    ensures SplitLines(s) == [s]
  {
    assert FirstLineBreak(s) == |s|;
  }

  /** A line ended by `\n` is split off first. */
  lemma SplitLinesFirst(a: string, rest: string)
    requires NoLineBreak(a)
    ensures SplitLines(a + "\n" + rest) == [a] + SplitLines(rest)
  {
    var s := a + "\n" + rest;
    assert s[|a|] == '\n';
    assert forall k :: 0 <= k < |a| ==> s[k] == a[k];
    assert FirstLineBreak(s) == |a|;
    assert s[..|a|] == a;
    assert s[|a| + 1..] == rest;
  }

  /** Three lines joined by `\n` split back into those three lines. */
  lemma SplitLinesThree(a: string, b: string, c: string)
    requires NoLineBreak(a) && NoLineBreak(b) && NoLineBreak(c) && c != []
    ensures SplitLines(a + "\n" + (b + ("\n" + c))) == [a, b, c]
  {
    var tail := b + ("\n" + c);
    assert SplitLines(tail) == [b, c] by {
      assert tail == b + "\n" + c;
      SplitLinesFirst(b, c);
      SplitLinesOneLine(c);
    }
    assert SplitLines(a + "\n" + tail) == [a] + SplitLines(tail) by {
      SplitLinesFirst(a, tail);
    }
  }

  /** Three parts joined by the separator. */
  lemma JoinThree(a: string, b: string, c: string, sep: char)
    ensures JoinOn([a, b, c], sep) == a + [sep] + b + [sep] + c
  {
    assert [a, b, c][1..] == [b, c];
    assert [b, c][1..] == [c];
    assert JoinOn([b, c], sep) == b + [sep] + c;
    assert JoinOn([a, b, c], sep) == a + [sep] + (b + [sep] + c);
  }

  /** A line ended by a `\r` that no `\n` follows is split off first. */
  lemma SplitLinesFirstCr(a: string, rest: string)
    requires NoLineBreak(a) && (rest == [] || rest[0] != '\n')
    ensures SplitLines(a + "\r" + rest) == [a] + SplitLines(rest)
  {
    var s := a + "\r" + rest;
    assert s[|a|] == '\r';
    assert forall k :: 0 <= k < |a| ==> s[k] == a[k];
    assert FirstLineBreak(s) == |a|;
    assert s[..|a|] == a;
    assert |a| + 1 < |s| ==> s[|a| + 1] == rest[0];
    assert s[|a| + 1..] == rest;
  }

  /** A lone `\r` and then a `\n` break two lines. */
  lemma SplitLinesCrThenNewline(a: string, b: string, rest: string)
    requires NoLineBreak(a) && NoLineBreak(b) && b != []
    ensures SplitLines(a + "\r" + (b + "\n" + rest)) == [a, b] + SplitLines(rest)
  {
    var after := b + "\n" + rest;
    assert SplitLines(after) == [b] + SplitLines(rest) by { SplitLinesFirst(b, rest); }
    assert after[0] == b[0] && !IsLineBreak(b[0]);
    assert SplitLines(a + "\r" + after) == [a] + SplitLines(after) by { SplitLinesFirstCr(a, after); }
  }

  /** Text whose only line boundary is `\n`. */
  predicate OnlyNewlines(s: string) {
    forall i :: 0 <= i < |s| && IsLineBreak(s[i]) ==> s[i] == '\n'
  }

  /** The text without the one `\n` it may end in. */
  function DropFinalNewline(s: string): string {
    if s != [] && s[|s| - 1] == '\n' then s[..|s| - 1] else s
  }

  /** When `\n` is the only boundary, the first boundary is the first `\n`. */
  lemma FirstLineBreakNewline(s: string)
    requires OnlyNewlines(s)
    ensures FirstLineBreak(s) == IndexOf(s, '\n')
  {
    var i := FirstLineBreak(s);
    if i < |s| {
      IndexOfAt(s, '\n', i);
    } else {
      IndexOfAbsent(s, '\n');
    }
  }

  /** For text whose only boundary is `\n`, `splitlines` is `split("\n")` of the
      text without its final newline. */
  lemma {:induction false} SplitLinesNewlines(s: string)
    requires s != [] && OnlyNewlines(s)
    ensures SplitLines(s) == SplitOn(DropFinalNewline(s), '\n')
    decreases |s|
  {
    FirstLineBreakNewline(s);
    var i := FirstLineBreak(s);
    if i == |s| {
      assert DropFinalNewline(s) == s;
    } else {
      var head, rest := s[..i], s[i + 1..];
      assert NoLineBreak(head) by {
        assert forall j :: 0 <= j < |head| ==> head[j] == s[j];
      }
      assert s == head + "\n" + rest;
      SplitLinesFirst(head, rest);
      if rest == [] {
        NewlineLast(head);
      } else {
        OnlyNewlinesAfter(s, i + 1);
        SplitLinesNewlines(rest);
        NewlineInside(head, rest);
      }
    }
  }

  lemma OnlyNewlinesAfter(s: string, k: nat)
    requires k <= |s| && OnlyNewlines(s)
    ensures OnlyNewlines(s[k..])
  {
    var t := s[k..];
    forall j | 0 <= j < |t| && IsLineBreak(t[j]) ensures t[j] == '\n' {
      assert t[j] == s[k + j];
    }
  }

  /** A line followed only by its `\n` is one part. */
  lemma NewlineLast(head: string)
    requires '\n' !in head
    ensures DropFinalNewline(head + ['\n']) == head && SplitOn(head, '\n') == [head]
  {
    assert (head + ['\n'])[..|head|] == head;
    IndexOfAbsent(head, '\n');
  }

  /** A line, its `\n` and more text split at that `\n`. */
  lemma NewlineInside(head: string, rest: string)
    requires '\n' !in head && rest != []
    ensures SplitOn(DropFinalNewline(head + ['\n'] + rest), '\n')
         == [head] + SplitOn(DropFinalNewline(rest), '\n')
  {
    var s := head + ['\n'] + rest;
    assert s[|s| - 1] == rest[|rest| - 1];
    if rest[|rest| - 1] == '\n' {
      assert s[..|s| - 1] == head + ['\n'] + rest[..|rest| - 1];
    }
    assert DropFinalNewline(s) == head + ['\n'] + DropFinalNewline(rest);
    SplitFirst(head, DropFinalNewline(rest), '\n');
  }

  /** Joining the lines with `\n` rebuilds text whose only boundary is `\n`, up
      to the final newline that `splitlines` does not report. */
  lemma JoinSplitLines(s: string)
    requires OnlyNewlines(s)
    ensures JoinOn(SplitLines(s), '\n') == DropFinalNewline(s)
  {
    if s != [] {
      SplitLinesNewlines(s);
      JoinSplit(DropFinalNewline(s), '\n');
    }
  }

  // ---------------------------------------------------------------- replace

  /** `s.replace(pat, rep)`: every non-overlapping occurrence, left to right. */
  function ReplaceAll(s: string, pat: string, rep: string): string
    requires pat != []
    decreases |s|
  {
    if s == [] then []
    else if StartsWith(s, pat) then rep + ReplaceAll(s[|pat|..], pat, rep)
    else [s[0]] + ReplaceAll(s[1..], pat, rep)
  }

  /** Replacing a string that does not occur changes nothing. */
  lemma {:induction false} ReplaceAbsent(s: string, pat: string, rep: string)
    requires pat != [] && !Contains(s, pat)
    ensures ReplaceAll(s, pat, rep) == s
    decreases |s|
  {
    if s != [] {
      ReplaceAbsent(s[1..], pat, rep);
    }
  }

  /** An occurrence at the front is replaced, and the scan resumes after it. */
  lemma ReplaceFront(pat: string, rep: string, rest: string)
    requires pat != []
    ensures ReplaceAll(pat + rest, pat, rep) == rep + ReplaceAll(rest, pat, rep)
  {
    assert StartsWith(pat + rest, pat);
    assert (pat + rest)[|pat|..] == rest;
  }

  /** A character where `pat` does not start is copied. */
  lemma ReplaceCons(c: char, u: string, pat: string, rep: string)
    requires pat != [] && !StartsWith([c] + u, pat)
    ensures ReplaceAll([c] + u, pat, rep) == [c] + ReplaceAll(u, pat, rep)
  {
    assert ([c] + u)[1..] == u;
  }

  /** Text in which the first character of `pat` never appears is copied unchanged. */
  lemma {:induction false} ReplaceSkips(a: string, rest: string, pat: string, rep: string)
    requires pat != [] && pat[0] !in a
    ensures ReplaceAll(a + rest, pat, rep) == a + ReplaceAll(rest, pat, rep)
    decreases |a|
  {
    if a != [] {
      var s := a + rest;
      assert s[0] == a[0] != pat[0];
      assert !StartsWith(s, pat);
      assert ReplaceAll(s, pat, rep) == [a[0]] + ReplaceAll(s[1..], pat, rep);
      assert s[1..] == a[1..] + rest;
      ReplaceSkips(a[1..], rest, pat, rep);
      assert a == [a[0]] + a[1..];
    } else {
      assert a + rest == rest;
    }
  }

  /** A string without the first character of `pat` does not contain it. */
  lemma {:induction false} AbsentFirstChar(s: string, pat: string)
    requires pat != [] && pat[0] !in s
    ensures !Contains(s, pat)
    decreases |s|
  {
    if s != [] {
      AbsentFirstChar(s[1..], pat);
    }
  }

  // ---------------------------------------------------------------- lower

  function LowerChar(c: char): char {
    if 'A' <= c <= 'Z' then (c as int + 32) as char else c
  }

  /** `s.lower()` on ASCII letters. */
  function Lower(s: string): (r: string)
    ensures |r| == |s|
    ensures forall i :: 0 <= i < |r| ==> !('A' <= r[i] <= 'Z')
    ensures forall i :: 0 <= i < |r| ==> (r[i] == s[i] <==> !('A' <= s[i] <= 'Z'))
    ensures forall i :: 0 <= i < |r| && 'A' <= s[i] <= 'Z' ==> r[i] as int == s[i] as int + 32
  {
    seq(|s|, i requires 0 <= i < |s| => LowerChar(s[i]))
  }

  // ---------------------------------------------------------------- str(int)

  function DigitChar(d: nat): (c: char)
    requires d < 10
    ensures IsDigit(c) && c as int - '0' as int == d
  {
    (d + '0' as int) as char
  }

  /** `str(n)` for a non-negative integer: decimal, no leading zero. */
  function NatToString(n: nat): (s: string)
    ensures s != [] && forall i :: 0 <= i < |s| ==> IsDigit(s[i])
    ensures n > 0 ==> s[0] != '0'
    decreases n
  {
    if n < 10 then [DigitChar(n)] else NatToString(n / 10) + [DigitChar(n % 10)]
  }

  /** The number a string of decimal digits denotes. */
  function DigitsValue(s: string): nat
    requires forall i :: 0 <= i < |s| ==> IsDigit(s[i])
    decreases |s|
  {
    if s == [] then 0
    else
      assert IsDigit(s[|s| - 1]);
      DigitsValue(s[..|s| - 1]) * 10 + (s[|s| - 1] as int - '0' as int)
  }

  /** Reading the decimal string back gives the number. */
  lemma {:induction false} NatToStringValue(n: nat)
    ensures DigitsValue(NatToString(n)) == n
    decreases n
  {
    var s := NatToString(n);
    if n >= 10 {
      NatToStringValue(n / 10);
      assert s[..|s| - 1] == NatToString(n / 10);
    } else {
      assert s[..|s| - 1] == [];
    }
  }

  /** Different numbers have different decimal strings. */
  lemma NatToStringInjective(a: nat, b: nat)
    requires NatToString(a) == NatToString(b)
    ensures a == b
  {
    NatToStringValue(a);
    NatToStringValue(b);
  }

  // ---------------------------------------------------------------- counting

  /** How many times `x` occurs in `xs`. */
  function Count<T(==)>(xs: seq<T>, x: T): nat
    decreases |xs|
  {
    if xs == [] then 0 else (if xs[0] == x then 1 else 0) + Count(xs[1..], x)
  }

  lemma {:induction false} CountConcat<T>(a: seq<T>, b: seq<T>, x: T)
    ensures Count(a + b, x) == Count(a, x) + Count(b, x)
    decreases |a|
  {
    if a != [] {
      assert (a + b)[1..] == a[1..] + b;
      CountConcat(a[1..], b, x);
    } else {
      assert a + b == b;
    }
  }

  lemma {:induction false} CountAbsent<T>(a: seq<T>, x: T)
    requires x !in a
    ensures Count(a, x) == 0
    decreases |a|
  {
    if a != [] {
      CountAbsent(a[1..], x);
    }
  }
}
