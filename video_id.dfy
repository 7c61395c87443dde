/** `get_video_id(url)`, the same in `app.py` and `video_summarizer/app.py`: a
    `youtu.be` link gives the text after its last `/`; a `youtube.com` link gives
    the first value of its `v` query parameter, as `urlparse` and `parse_qs` find
    it; anything else, or a link without a `v` value, gives `None`. */
module VideoId {
  import opened Text

  // ================================================================ urlparse(url).query

  /** The characters `urlsplit` deletes from the whole URL before splitting it. */
  predicate IsUnsafe(c: char) { c == '\t' || c == '\r' || c == '\n' }

  function RemoveUnsafe(s: string): (r: string)
    ensures forall i :: 0 <= i < |r| ==> !IsUnsafe(r[i])
    decreases |s|
  {
    if s == [] then [] else (if IsUnsafe(s[0]) then [] else [s[0]]) + RemoveUnsafe(s[1..])
  }

  /** Removal works character by character: it distributes over concatenation. */
  lemma {:induction false} RemoveUnsafeConcat(a: string, b: string)
    ensures RemoveUnsafe(a + b) == RemoveUnsafe(a) + RemoveUnsafe(b)
    decreases |a|
  {
    if a == [] {
      assert a + b == b;
    } else {
      assert (a + b)[1..] == a[1..] + b;
      RemoveUnsafeConcat(a[1..], b);
    }
  }

  /** A tab, carriage return or newline is removed, and any other character is kept. */
  lemma RemoveUnsafeChar(c: char)
    ensures RemoveUnsafe([c]) == if IsUnsafe(c) then [] else [c]
  {
    assert [c][1..] == [];
  }

  /** Removal adds no character. */
  lemma {:induction false} RemoveUnsafeChars(s: string, c: char)
    requires c !in s
    ensures c !in RemoveUnsafe(s)
    decreases |s|
  {
    if s != [] {
      RemoveUnsafeChars(s[1..], c);
    }
  }

  /** `urlparse(url).query`: the fragment is cut at the first `#`, and the query is
      what follows the first `?` before it. The network location ends at the first
      of `/?#`, so it never holds the `?` that starts the query. */
  function Query(url: string): (q: string)
    ensures '#' !in q
  {
    var u := RemoveUnsafe(url);
    var beforeFragment := u[..IndexOf(u, '#')];
    var i := IndexOf(beforeFragment, '?');
    if i == |beforeFragment| then "" else beforeFragment[i + 1..]
  }

  /** The query is the text between the first `?` and the first `#`, with the
      unsafe characters removed, when the `?` comes before any `#`. */
  lemma QueryOf(p: string, q: string, f: string)
    requires '?' !in p && '#' !in p && '#' !in q
    requires f == [] || f[0] == '#'
    ensures Query(p + "?" + q + f) == RemoveUnsafe(q)
  {
    var rp, rq, rf := RemoveUnsafe(p), RemoveUnsafe(q), RemoveUnsafe(f);
    RemoveUnsafeConcat(p + "?" + q, f);
    RemoveUnsafeConcat(p + "?", q);
    RemoveUnsafeConcat(p, "?");
    RemoveUnsafeChar('?');
    RemoveUnsafeChars(p, '?');
    RemoveUnsafeChars(p, '#');
    RemoveUnsafeChars(q, '#');
    FragmentStart(f);
    QueryParts(rp, rq, rf);
  }

  /** Without a `?` before the first `#` the query is empty. */
  lemma QueryNone(p: string, f: string)
    requires '?' !in p && '#' !in p
    requires f == [] || f[0] == '#'
    ensures Query(p + f) == ""
  {
    var rp, rf := RemoveUnsafe(p), RemoveUnsafe(f);
    RemoveUnsafeConcat(p, f);
    RemoveUnsafeChars(p, '?');
    RemoveUnsafeChars(p, '#');
    FragmentStart(f);
    var u := rp + rf;
    assert forall j :: 0 <= j < |rp| ==> u[j] == rp[j];
    if rf != [] {
      IndexOfAt(u, '#', |rp|);
    } else {
      assert u == rp;
      IndexOfAbsent(u, '#');
    }
    assert u[..|rp|] == rp;
    IndexOfAbsent(rp, '?');
  }

  /** A fragment still starts with `#` once the unsafe characters are gone. */
  lemma FragmentStart(f: string)
    requires f == [] || f[0] == '#'
    ensures var r := RemoveUnsafe(f); r == [] || r[0] == '#'
  {
    if f != [] {
      assert f == [f[0]] + f[1..];
      RemoveUnsafeConcat([f[0]], f[1..]);
      RemoveUnsafeChar(f[0]);
    }
  }

  /** Where `urlsplit` cuts a URL of the shape `p?q` followed by a fragment. */
  lemma QueryParts(rp: string, rq: string, rf: string)
    requires '?' !in rp && '#' !in rp && '#' !in rq
    requires rf == [] || rf[0] == '#'
    ensures var u := rp + "?" + rq + rf;
      && u[..IndexOf(u, '#')] == rp + "?" + rq
      && IndexOf(rp + "?" + rq, '?') == |rp|
  {
    var b := rp + "?" + rq;
    NoHashJoined(rp, rq);
    FragmentCut(b, rf);
    assert forall j :: 0 <= j < |rp| ==> b[j] == rp[j];
    IndexOfAt(b, '?', |rp|);
  }

  /** Text without `#` in front of an empty or `#` fragment is what comes before the first `#`. */
  lemma FragmentCut(b: string, rf: string)
    requires '#' !in b && (rf == [] || rf[0] == '#')
    ensures (b + rf)[..IndexOf(b + rf, '#')] == b
  {
    var u := b + rf;
    assert forall j :: 0 <= j < |b| ==> u[j] == b[j];
    if rf != [] {
      IndexOfAt(u, '#', |b|);
    } else {
      assert u == b;
      IndexOfAbsent(u, '#');
    }
    assert u[..|b|] == b;
  }

  /** `p?q` has no `#` when neither part has one. */
  lemma NoHashJoined(rp: string, rq: string)
    requires '#' !in rp && '#' !in rq
    ensures '#' !in rp + "?" + rq
  {
    var b := rp + "?" + rq;
    forall j | 0 <= j < |b| ensures b[j] != '#' {
      if j < |rp| {
        assert b[j] == rp[j];
      } else if j > |rp| {
        assert b[j] == rq[j - |rp| - 1];
      }
    }
  }

  // ================================================================ parse_qs(query)[name][0]

  /** `parse_qs` turns `+` into a space in both names and values, with `replace('+', ' ')`. */
  function PlusToSpace(s: string): string {
    ReplaceAll(s, "+", " ")
  }

  /** The replacement works character by character: each `+` becomes a space and
      every other character is kept where it is. */
  lemma {:induction false} PlusToSpaceChars(s: string)
    ensures |PlusToSpace(s)| == |s|
    ensures forall i :: 0 <= i < |s| ==> PlusToSpace(s)[i] == (if s[i] == '+' then ' ' else s[i])
    decreases |s|
  {
    if s != [] {
      PlusToSpaceChars(s[1..]);
      var r := PlusToSpace(s[1..]);
      var c := if s[0] == '+' then ' ' else s[0];
      assert PlusToSpace(s) == [c] + r by {
        if s[0] == '+' {
          assert s[..1] == "+";
        } else {
          assert s[..1] != "+";
        }
      }
      forall i | 0 <= i < |s| ensures PlusToSpace(s)[i] == (if s[i] == '+' then ' ' else s[i]) {
        if i > 0 {
          assert PlusToSpace(s)[i] == r[i - 1] && s[i] == s[1..][i - 1];
        }
      }
    }
  }

  /** One `&`-separated field: split at its first `=`; a field without `=` or with
      an empty value is dropped, as `parse_qs` does without `keep_blank_values`. */
  function FieldValue(f: string, name: string): Option<string> {
    var eq := IndexOf(f, '=');
    if eq + 1 < |f| && PlusToSpace(f[..eq]) == name then Some(PlusToSpace(f[eq + 1..])) else None
  }

  /** The first value given for `name`, if any. */
  function FirstValue(fields: seq<string>, name: string): Option<string>
    decreases |fields|
  {
    if fields == [] then None
    else
      match FieldValue(fields[0], name)
      case Some(v) => Some(v)
      case None => FirstValue(fields[1..], name)
  }

  /** `parse_qs(query)[name][0]`, with `None` for the `KeyError` of a missing name. */
  function QueryValue(query: string, name: string): Option<string> {
    FirstValue(SplitOn(query, '&'), name)
  }

  // ================================================================ get_video_id

  /** `get_video_id(url)`; the `except` turns the `KeyError` into `None`. */
  function GetVideoId(url: string): Option<string> {
    if Contains(url, "youtu.be") then
      var parts := SplitOn(url, '/');
      Some(parts[|parts| - 1])
    else if Contains(url, "youtube.com") then QueryValue(Query(url), "v")
    else None
  }

  // ================================================================ short links

  /** `last` is a suffix of `s` that is preceded by `sep` unless it is all of `s`. */
  predicate EndPart(s: string, last: string, sep: char) {
    |last| <= |s| && s[|s| - |last|..] == last && (|last| < |s| ==> s[|s| - |last| - 1] == sep)
  }

  /** The last `/`-separated part of `s` is its suffix after the last `/`. */
  lemma SplitLast(s: string, sep: char)
    ensures EndPart(s, Last(SplitOn(s, sep)), sep)
  {
    LastPartSplit(s, sep);
    LastPartEnd(s, sep);
  }

  /** What follows the last separator, read from the end of the text. */
  function LastPart(s: string, sep: char): string
    decreases |s|
  {
    if s == [] || s[|s| - 1] == sep then [] else LastPart(s[..|s| - 1], sep) + [s[|s| - 1]]
  }

  lemma {:induction false} LastPartEnd(s: string, sep: char)
    ensures EndPart(s, LastPart(s, sep), sep)
    decreases |s|
  {
    if s != [] && s[|s| - 1] != sep {
      var init := s[..|s| - 1];
      LastPartEnd(init, sep);
      var l := LastPart(init, sep);
      assert s == init + [s[|s| - 1]];
      assert s[|s| - |l| - 1..] == init[|init| - |l|..] + [s[|s| - 1]];
    }
  }

  /** Without a separator the whole text is the last part. */
  lemma {:induction false} LastPartWhole(s: string, sep: char)
    requires sep !in s
    ensures LastPart(s, sep) == s
    decreases |s|
  {
    if s != [] {
      LastPartWhole(s[..|s| - 1], sep);
      assert s == s[..|s| - 1] + [s[|s| - 1]];
    }
  }

  /** Text up to and including a separator does not affect the last part. */
  lemma {:induction false} LastPartAfter(p: string, sep: char, t: string)
    ensures LastPart(p + [sep] + t, sep) == LastPart(t, sep)
    decreases |t|
  {
    var s := p + [sep] + t;
    if t == [] {
      assert s[|s| - 1] == sep;
    } else {
      var init := t[..|t| - 1];
      assert s[..|s| - 1] == p + [sep] + init;
      LastPartAfter(p, sep, init);
    }
  }

  lemma {:induction false} LastPartSplit(s: string, sep: char)
    ensures Last(SplitOn(s, sep)) == LastPart(s, sep)
    decreases |s|
  {
    var i := IndexOf(s, sep);
    if i < |s| {
      var t := s[i + 1..];
      LastPartSplit(t, sep);
      SplitLastStep(s, sep);
      assert s == s[..i] + [sep] + t;
      LastPartAfter(s[..i], sep, t);
    } else {
      assert SplitOn(s, sep) == [s];
      LastPartWhole(s, sep);
    }
  }

  function Last(parts: seq<string>): string
    requires parts != []
  {
    parts[|parts| - 1]
  }

  /** Past a first separator, the last part is the last part of what follows it. */
  lemma SplitLastStep(s: string, sep: char)
    requires IndexOf(s, sep) < |s|
    ensures Last(SplitOn(s, sep)) == Last(SplitOn(s[IndexOf(s, sep) + 1..], sep))
  {
    var i := IndexOf(s, sep);
    var tparts := SplitOn(s[i + 1..], sep);
    assert SplitOn(s, sep) == [s[..i]] + tparts;
  }

  /** A link that names neither host gives no id. */
  lemma OtherLink(url: string)
    requires !Contains(url, "youtu.be") && !Contains(url, "youtube.com")
    ensures GetVideoId(url) == None
  {
  }

  /** A `youtu.be` link always gives an id: the text after its last `/`, which
      holds no `/` and is all of the link when the link has none. */
  lemma ShortLink(url: string)
    requires Contains(url, "youtu.be")
    ensures GetVideoId(url).Some?
    ensures var id := GetVideoId(url).value;
      && '/' !in id
      && |id| <= |url| && url[|url| - |id|..] == id
      && (|id| < |url| ==> url[|url| - |id| - 1] == '/')
  {
    var parts := SplitOn(url, '/');
    var id := parts[|parts| - 1];
    SplitLast(url, '/');
  }

  /** The part after the last `/` of `p + id`, where `p` ends with `/`, is `id`. */
  lemma LastPartOf(p: string, id: string)
    requires p != [] && p[|p| - 1] == '/' && '/' !in id
    ensures var parts := SplitOn(p + id, '/'); parts[|parts| - 1] == id
  {
    var s := p + id;
    var parts := SplitOn(s, '/');
    var last := parts[|parts| - 1];
    SplitLast(s, '/');
    assert '/' !in last;
    assert s[|s| - |id|..] == id;
  }

  /** The id of a `https://youtu.be/<id>` link is `<id>`. */
  lemma ShortLinkRoundTrip(id: string)
    requires '/' !in id
    ensures GetVideoId("https://youtu.be/" + id) == Some(id)
  {
    var p := "https://youtu.be/";
    var url := p + id;
    assert url[8..16] == "youtu.be";
    ContainsAt(url, "youtu.be", 8);
    LastPartOf(p, id);
  }

  // ================================================================ query values

  /** A field that sets `name`: it starts with `name=` and has a non-empty value. */
  predicate Sets(f: string, name: string) {
    StartsWith(f, name + "=") && |f| > |name| + 1
  }

  lemma PlusToSpaceIdentity(s: string)
    requires '+' !in s
    ensures PlusToSpace(s) == s
  {
    PlusToSpaceChars(s);
  }

  /** For a name with no `+`, space or `=`, a field yields a value for it exactly
      when it sets it, and the value is the rest of the field with `+` as space. */
  lemma FieldValueSpec(f: string, name: string)
    requires '+' !in name && ' ' !in name && '=' !in name
    ensures FieldValue(f, name).Some? <==> Sets(f, name)
    ensures Sets(f, name) ==> FieldValue(f, name) == Some(PlusToSpace(f[|name| + 1..]))
  {
    var eq := IndexOf(f, '=');
    if Sets(f, name) {
      assert f[..|name| + 1] == name + "=";
      assert forall k :: 0 <= k < |name| ==> f[k] == name[k];
      assert f[|name|] == '=';
      assert eq == |name|;
      assert f[..eq] == name;
      PlusToSpaceIdentity(name);
    }
    if FieldValue(f, name).Some? {
      var key := f[..eq];
      assert PlusToSpace(key) == name;
      PlusToSpaceChars(key);
      assert forall k :: 0 <= k < |key| ==> name[k] == (if key[k] == '+' then ' ' else key[k]);
      assert forall k :: 0 <= k < |key| ==> key[k] != '+';
      PlusToSpaceIdentity(key);
      assert key == name;
      assert f[..|name| + 1] == name + "=";
    }
  }

  /** Field `k` is the first field that sets `name`, and `v` is the value it sets. */
  predicate FirstSetter(fields: seq<string>, name: string, k: int, v: string) {
    && 0 <= k < |fields| && Sets(fields[k], name) && v == PlusToSpace(fields[k][|name| + 1..])
    && forall j :: 0 <= j < k ==> !Sets(fields[j], name)
  }

  /** `parse_qs(q)[name][0]` is found exactly when some field sets `name`, and it
      is the value of the first field that does. */
  lemma {:induction false} FirstValueSpec(fields: seq<string>, name: string)
    requires '+' !in name && ' ' !in name && '=' !in name
    ensures FirstValue(fields, name).None? <==> forall k :: 0 <= k < |fields| ==> !Sets(fields[k], name)
    ensures FirstValue(fields, name).Some? ==>
      exists k :: FirstSetter(fields, name, k, FirstValue(fields, name).value)
    decreases |fields|
  {
    if fields != [] {
      FieldValueSpec(fields[0], name);
      FirstValueSpec(fields[1..], name);
      if Sets(fields[0], name) {
        assert FirstSetter(fields, name, 0, FirstValue(fields, name).value);
      } else {
        var r := FirstValue(fields[1..], name);
        if r.Some? {
          var k :| FirstSetter(fields[1..], name, k, r.value);
          assert fields[k + 1] == fields[1..][k];
          assert forall j :: 0 <= j < k + 1 ==> !Sets(fields[j], name) by {
            forall j | 0 <= j < k + 1 ensures !Sets(fields[j], name) {
              if j > 0 {
                assert fields[j] == fields[1..][j - 1];
              }
            }
          }
          assert FirstSetter(fields, name, k + 1, r.value);
        } else {
          assert forall k :: 0 <= k < |fields| ==> !Sets(fields[k], name) by {
            forall k | 0 <= k < |fields| ensures !Sets(fields[k], name) {
              if k > 0 {
                assert fields[k] == fields[1..][k - 1];
              }
            }
          }
        }
      }
    }
  }

  /** A `youtube.com` link that is not a `youtu.be` link gives the value of the
      first query field that sets `v`, and `None` when no field sets it. */
  lemma WatchLink(url: string)
    requires !Contains(url, "youtu.be") && Contains(url, "youtube.com")
    ensures var fields := SplitOn(Query(url), '&');
      && (GetVideoId(url).None? <==> forall k :: 0 <= k < |fields| ==> !Sets(fields[k], "v"))
      && (GetVideoId(url).Some? ==> exists k :: FirstSetter(fields, "v", k, GetVideoId(url).value))
  {
    assert GetVideoId(url) == FirstValue(SplitOn(Query(url), '&'), "v");
    FirstValueSpec(SplitOn(Query(url), '&'), "v");
  }

  // ================================================================ watch links

  /** The characters of a YouTube video id. */
  predicate IsIdChar(c: char) {
    ('a' <= c <= 'z') || ('A' <= c <= 'Z') || ('0' <= c <= '9') || c == '_' || c == '-'
  }

  predicate IsId(id: string) { forall i :: 0 <= i < |id| ==> IsIdChar(id[i]) }

  const WatchPrefix: string := "https://www.youtube.com/watch?v="

  lemma WatchPrefixQuery()
    ensures |WatchPrefix| == 32 && WatchPrefix[29] == '?' && WatchPrefix[30..] == "v="
    ensures forall i :: 0 <= i < 29 ==> WatchPrefix[i] != '?'
  {
  }

  lemma WatchPrefixPlain()
    ensures forall i :: 0 <= i < |WatchPrefix| ==> WatchPrefix[i] != '#' && !IsUnsafe(WatchPrefix[i])
  {
  }

  lemma WatchPrefixHost()
    ensures |WatchPrefix| == 32 && WatchPrefix[12..23] == "youtube.com" && WatchPrefix[17] == 'b'
    ensures forall i :: 0 <= i < 32 && i != 12 ==> WatchPrefix[i] != 'y'
  {
    assert WatchPrefix == "https://www." + "y" + "outube.com/watch?v=";
  }

  lemma ShortHostLetters()
    ensures var h := "youtu.be"; |h| == 8 && h[0] == 'y' && h[5] == '.'
  {
  }

  /** No `youtu.be` starts at offset `k` of a watch link. */
  lemma NoShortHostAt(id: string, k: nat)
    requires IsId(id) && k + 8 <= |WatchPrefix + id|
    ensures (WatchPrefix + id)[k..k + 8] != "youtu.be"
  {
    var url := WatchPrefix + id;
    WatchPrefixHost();
    ShortHostLetters();
    var w := url[k..k + 8];
    assert w[0] == url[k] && w[5] == url[k + 5];
    if k + 5 >= 32 {
      assert url[k + 5] == id[k + 5 - 32];
    } else if k == 12 {
      assert url[k + 5] == WatchPrefix[17];
    } else {
      assert url[k] == WatchPrefix[k];
    }
  }

  lemma NoShortHost(id: string)
    requires IsId(id)
    ensures !Contains(WatchPrefix + id, "youtu.be")
  {
    if Contains(WatchPrefix + id, "youtu.be") {
      var k := ContainsWitness(WatchPrefix + id, "youtu.be");
      NoShortHostAt(id, k);
    }
  }

  lemma {:induction false} RemoveUnsafeNone(s: string)
    requires forall i :: 0 <= i < |s| ==> !IsUnsafe(s[i])
    ensures RemoveUnsafe(s) == s
    decreases |s|
  {
    if s != [] {
      RemoveUnsafeNone(s[1..]);
    }
  }

  /** The query of a watch link is `v=<id>`. */
  lemma WatchQuery(id: string)
    requires IsId(id)
    ensures Query(WatchPrefix + id) == "v=" + id
  {
    var url := WatchPrefix + id;
    WatchPrefixPlain();
    WatchPrefixQuery();
    assert forall i :: 0 <= i < |url| ==> url[i] != '#' && !IsUnsafe(url[i]) by {
      forall i | 0 <= i < |url| ensures url[i] != '#' && !IsUnsafe(url[i]) {
        if i >= 32 {
          assert url[i] == id[i - 32];
        } else {
          assert url[i] == WatchPrefix[i];
        }
      }
    }
    RemoveUnsafeNone(url);
    assert IndexOf(url, '#') == |url|;
    assert url[..|url|] == url;
    assert url[29] == '?';
    assert forall i :: 0 <= i < 29 ==> url[i] == WatchPrefix[i];
    assert IndexOf(url, '?') == 29;
    assert url[30..] == "v=" + id;
  }

  /** A watch link names `youtube.com` and not `youtu.be`. */
  lemma WatchHosts(id: string)
    requires IsId(id)
    ensures !Contains(WatchPrefix + id, "youtu.be") && Contains(WatchPrefix + id, "youtube.com")
  {
    var url := WatchPrefix + id;
    NoShortHost(id);
    WatchPrefixHost();
    assert url[12..23] == WatchPrefix[12..23];
    ContainsAt(url, "youtube.com", 12);
  }

  /** The query `v=<id>` gives `<id>` for `v`. */
  lemma WatchField(id: string)
    requires id != [] && IsId(id)
    ensures QueryValue("v=" + id, "v") == Some(id)
  {
    var f := "v=" + id;
    assert forall i :: 0 <= i < |f| ==> f[i] != '&' by {
      forall i | 0 <= i < |f| ensures f[i] != '&' {
        if i >= 2 {
          assert f[i] == id[i - 2];
        }
      }
    }
    IndexOfAbsent(f, '&');
    assert SplitOn(f, '&') == [f];
    var name := "v";
    assert f[..2] == name + "=";
    FieldValueSpec(f, name);
    assert f[2..] == id;
    PlusToSpaceIdentity(id);
  }

  /** The id of a `https://www.youtube.com/watch?v=<id>` link is `<id>`. */
  lemma WatchLinkRoundTrip(id: string)
    requires id != [] && IsId(id)
    ensures GetVideoId(WatchPrefix + id) == Some(id)
  {
    WatchHosts(id);
    WatchQuery(id);
    WatchField(id);
  }
}
