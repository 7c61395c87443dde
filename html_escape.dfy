/** Python's `html.escape(s)` (with its default `quote=True`) and an unescaper for
    the five entities it produces, used to state that escaping loses nothing. */
module HtmlEscape {
  import opened Text

  /** The replacement `html.escape` makes for one character. */
  function EscapeChar(c: char): string {
    if c == '&' then "&amp;"
    else if c == '<' then "&lt;"
    else if c == '>' then "&gt;"
    else if c == '"' then "&quot;"
    else if c == '\'' then "&#x27;"
    else [c]
  }

  /** A character that may not appear raw in escaped text. */
  predicate IsMarkup(c: char) {
    c == '<' || c == '>' || c == '"' || c == '\''
  }

  /** `html.escape(s)`. */
  function Escape(s: string): (r: string)
    ensures forall i :: 0 <= i < |r| ==> !IsMarkup(r[i])
    ensures |r| >= |s|
    decreases |s|
  {
    if s == [] then [] else EscapeChar(s[0]) + Escape(s[1..])
  }

  /** Replaces the five entities of `Escape` by the characters they stand for. */
  function Unescape(s: string): string
    decreases |s|
  {
    if s == [] then []
    else if StartsWith(s, "&amp;") then "&" + Unescape(s[5..])
    else if StartsWith(s, "&lt;") then "<" + Unescape(s[4..])
    else if StartsWith(s, "&gt;") then ">" + Unescape(s[4..])
    else if StartsWith(s, "&quot;") then "\"" + Unescape(s[6..])
    else if StartsWith(s, "&#x27;") then "'" + Unescape(s[6..])
    else [s[0]] + Unescape(s[1..])
  }

  lemma UnescapeOne(c: char, rest: string)
    ensures Unescape(EscapeChar(c) + rest) == [c] + Unescape(rest)
  {
    var e := EscapeChar(c);
    var s := e + rest;
    assert s[..|e|] == e;
    assert s[|e|..] == rest;
    if c == '&' {
      assert StartsWith(s, "&amp;");
    } else if c == '<' {
      assert s[1] == 'l';
      assert !StartsWith(s, "&amp;");
      assert StartsWith(s, "&lt;");
    } else if c == '>' {
      assert s[1] == 'g';
      assert !StartsWith(s, "&amp;") && !StartsWith(s, "&lt;");
      assert StartsWith(s, "&gt;");
    } else if c == '"' {
      assert s[1] == 'q';
      assert !StartsWith(s, "&amp;") && !StartsWith(s, "&lt;") && !StartsWith(s, "&gt;");
      assert StartsWith(s, "&quot;");
    } else if c == '\'' {
      assert s[1] == '#';
      assert !StartsWith(s, "&amp;") && !StartsWith(s, "&lt;") && !StartsWith(s, "&gt;");
      assert !StartsWith(s, "&quot;");
      assert StartsWith(s, "&#x27;");
    } else {
      assert s[0] == c;
      assert !StartsWith(s, "&amp;") && !StartsWith(s, "&lt;") && !StartsWith(s, "&gt;");
      assert !StartsWith(s, "&quot;") && !StartsWith(s, "&#x27;");
    }
  }

  /** Unescaping the escaped text gives back the original: escaping is lossless. */
  lemma {:induction false} UnescapeEscape(s: string)
    ensures Unescape(Escape(s)) == s
    decreases |s|
  {
    if s != [] {
      UnescapeOne(s[0], Escape(s[1..]));
      UnescapeEscape(s[1..]);
    }
  }

  /** Text with none of `& < > " '` is left as it is. */
  lemma {:induction false} EscapePlain(s: string)
    requires forall i :: 0 <= i < |s| ==> s[i] != '&' && !IsMarkup(s[i])
    ensures Escape(s) == s
    decreases |s|
  {
    if s != [] {
      EscapePlain(s[1..]);
    }
  }

  lemma {:induction false} EscapeConcat(a: string, b: string)
    ensures Escape(a + b) == Escape(a) + Escape(b)
    decreases |a|
  {
    if a != [] {
      assert (a + b)[1..] == a[1..] + b;
      EscapeConcat(a[1..], b);
    } else {
      assert a + b == b;
    }
  }

  lemma EscapeLt()
    ensures Escape("<") == "&lt;"
  {
    assert Escape("<") == EscapeChar('<') + Escape("<"[1..]);
    assert "<"[1..] == [];
  }

  lemma EscapeGt()
    ensures Escape(">") == "&gt;"
  {
    assert Escape(">") == EscapeChar('>') + Escape(">"[1..]);
    assert ">"[1..] == [];
  }

  lemma EscapeAfterLt(s: string)
    ensures Escape("<" + s) == "&lt;" + Escape(s)
  {
    EscapeConcat("<", s);
    EscapeLt();
  }

  lemma EscapeBeforeGt(s: string)
    ensures Escape(s + ">") == Escape(s) + "&gt;"
  {
    EscapeConcat(s, ">");
    EscapeGt();
  }

  /** A tag in code, such as `<script>`, is rendered as inert text. */
  lemma EscapeTag(name: string)
    requires forall i :: 0 <= i < |name| ==> name[i] != '&' && !IsMarkup(name[i])
    ensures Escape("<" + (name + ">")) == "&lt;" + (name + "&gt;")
  {
    EscapeAfterLt(name + ">");
    EscapeBeforeGt(name);
    EscapePlain(name);
  }
}
