/**
 * `decode(data, encoding)`: turns optional captured bytes into the value a
 * caller sees — the bytes themselves when no encoding is configured, text
 * otherwise. The encoding setting names a codec and, after whitespace, an
 * optional error handler (`"utf-8"`, `"utf-8 replace"`).
 */
module Util {
  import opened Wrappers
  import opened Bytes
  import opened Errors
  import Utf8

  /** What `decode` returns: `bytes` or `str`. */
  datatype Decoded = Raw(bytes: seq<byte>) | Text(text: string)

  /**
   * The characters Python's `str.isspace()` accepts, at which `str.split()`
   * splits: the ASCII controls TAB to CR and FS to US, space, NEL, NO-BREAK
   * SPACE, and the Unicode space and separator characters.
   */
  predicate IsSpace(c: char)
  {
    || ('\t' <= c <= '\r')
    || ('\U{1C}' <= c <= ' ')
    || c == '\U{85}' || c == '\U{A0}' || c == '\U{1680}'
    || ('\U{2000}' <= c <= '\U{200A}')
    || c == '\U{2028}' || c == '\U{2029}' || c == '\U{202F}' || c == '\U{205F}' || c == '\U{3000}'
  }

  /** `s` is whitespace only (possibly empty). */
  predicate AllSpace(s: string)
  {
    forall i :: 0 <= i < |s| ==> IsSpace(s[i])
  }

  /** `s` holds no whitespace. */
  predicate NoSpace(s: string)
  {
    forall i :: 0 <= i < |s| ==> !IsSpace(s[i])
  }

  /** `s` with its leading whitespace removed. */
  function TrimStart(s: string): (r: string)
    ensures |r| <= |s| && r == s[|s| - |r|..]
    ensures AllSpace(s[..|s| - |r|])
    ensures r == [] || !IsSpace(r[0])
  {
    if s != [] && IsSpace(s[0]) then
      var r := TrimStart(s[1..]);
      assert s[..|s| - |r|] == [s[0]] + s[1..][..|s[1..]| - |r|];
      r
    else s
  }

  /** The longest prefix of `s` without whitespace. */
  function Word(s: string): (w: string)
    ensures |w| <= |s| && w == s[..|w|]
    ensures NoSpace(w)
    ensures |w| < |s| ==> IsSpace(s[|w|])
    ensures s != [] && !IsSpace(s[0]) ==> w != []
  {
    if s == [] || IsSpace(s[0]) then [] else [s[0]] + Word(s[1..])
  }

  /**
   * Python's `spec.split(maxsplit=1)`: the first word, and what follows the
   * whitespace after it, trailing whitespace included. `SplitBlank`,
   * `SplitCodecOnly` and `SplitCodecAndHandler` give the result for each of
   * the three forms a setting can take.
   */
  function SplitOnce(spec: string): (parts: seq<string>)
    ensures |parts| <= 2
    ensures |parts| == 0 <==> AllSpace(spec)
    ensures |parts| > 0 ==> parts[0] != [] && NoSpace(parts[0])
    ensures |parts| > 1 ==> parts[1] != [] && !IsSpace(parts[1][0])
    ensures |parts| > 1 ==> |parts[1]| < |spec| && IsSuffix(parts[1], spec)
  {
    var t := TrimStart(spec);
    TrimBlank(spec);
    if t == [] then []
    else
      var parts := SplitWord(t);
      if |parts| > 1 then
        SuffixOfSuffix(spec, t, parts[1]);
        parts
      else parts
  }

  /** `SplitOnce` of text that starts with a non-space character. */
  function SplitWord(t: string): (parts: seq<string>)
    requires t != [] && !IsSpace(t[0])
    ensures 1 <= |parts| <= 2
    ensures parts[0] != [] && NoSpace(parts[0])
    ensures |parts| > 1 ==> parts[1] != [] && !IsSpace(parts[1][0])
    ensures |parts| > 1 ==> |parts[1]| < |t| && IsSuffix(parts[1], t)
  {
    var w := Word(t);
    var rest := TrimStart(t[|w|..]);
    FirstWord(t);
    if rest == [] then [w]
    else
      TailSuffix(t, |w|, rest);
      [w, rest]
  }

  /** The first word of trimmed, non-blank text is not empty. */
  lemma FirstWord(t: string)
    requires t != [] && !IsSpace(t[0])
    ensures Word(t) != [] && NoSpace(Word(t))
  {
  }

  /** Trimming leaves nothing exactly when the text is blank. */
  lemma TrimBlank(s: string)
    ensures TrimStart(s) == [] <==> AllSpace(s)
  {
    var r := TrimStart(s);
    if r == [] {
      assert s[..|s| - |r|] == s;
    } else {
      assert s[|s| - |r|] == r[0];
    }
  }

  /** `r` is a suffix of `s`. */
  predicate IsSuffix(r: string, s: string)
  {
    |r| <= |s| && r == s[|s| - |r|..]
  }

  /** A suffix of the text after a non-empty prefix of `t` is a shorter suffix of `t`. */
  lemma TailSuffix(t: string, k: nat, r: string)
    requires 0 < k <= |t|
    requires |r| <= |t| - k && r == t[k..][|t| - k - |r|..]
    ensures |r| < |t| && IsSuffix(r, t)
  {
  }

  /** A suffix of a suffix of `s` is a suffix of `s`. */
  lemma SuffixOfSuffix(s: string, t: string, r: string)
    requires |t| <= |s| && t == s[|s| - |t|..]
    requires |r| < |t| && IsSuffix(r, t)
    ensures |r| < |s| && IsSuffix(r, s)
  {
  }

  /** The error handler named by `name`. */
  function HandlerNamed(name: string): (h: Utf8.Handler)
    ensures h == Utf8.Strict <==> name == "strict"
    ensures h == Utf8.Replace <==> name == "replace"
    ensures h == Utf8.Ignore <==> name == "ignore"
    ensures h.OtherHandler? ==> h.name == name
  {
    if name == "strict" then Utf8.Strict
    else if name == "replace" then Utf8.Replace
    else if name == "ignore" then Utf8.Ignore
    else Utf8.OtherHandler(name)
  }

  /** An encoding setting: a codec name and an error handler name. */
  datatype Setting = Setting(codec: string, handler: string)

  /**
   * The codec and handler an encoding setting names: its first word and
   * the rest, defaulting to "utf-8" and "strict". `ParseCodecOnly` and
   * `ParseCodecAndHandler` give the result for every non-blank setting.
   */
  function ParseSetting(spec: string): (st: Setting)
    ensures st.codec != [] && st.handler != []
    ensures AllSpace(spec) ==> st == Setting("utf-8", "strict")
  {
    var parts := SplitOnce(spec);
    Setting(if |parts| > 0 then parts[0] else "utf-8", if |parts| > 1 then parts[1] else "strict")
  }

  /** Decoding non-empty bytes to text under a parsed setting. */
  function DecodeText(bytes: seq<byte>, setting: Setting): (r: Result<Decoded, Error>)
    ensures r.Ok? ==>
      && r.value.Text? && setting.codec == "utf-8"
      && Utf8.Decode(bytes, HandlerNamed(setting.handler)) == Ok(r.value.text)
    ensures r.Err? && setting.codec == "utf-8" ==> Utf8.Decode(bytes, HandlerNamed(setting.handler)) == Err(r.error)
    ensures setting.codec != "utf-8" ==> r == Err(UnmodelledCodec(setting.codec))
  {
    if setting.codec != "utf-8" then Err(UnmodelledCodec(setting.codec))
    else
      match Utf8.Decode(bytes, HandlerNamed(setting.handler))
      case Ok(t) => Ok(Text(t))
      case Err(e) => Err(e)
  }

  /** `decode(data, encoding)`. */
  function Decode(data: Option<seq<byte>>, encoding: Option<string>): (r: Result<Decoded, Error>)
    ensures encoding.None? ==> r == Ok(Raw(if data.Some? then data.value else []))
    ensures encoding.Some? && (data.None? || data.value == []) ==> r == Ok(Text(""))
    ensures encoding.Some? && data.Some? && data.value != [] ==> r == DecodeText(data.value, ParseSetting(encoding.value))
    ensures r.Ok? && encoding.Some? ==> r.value.Text?
  {
    var bytes := if data.Some? then data.value else [];
    match encoding
    case None => Ok(Raw(bytes))
    case Some(spec) =>
      if bytes == [] then Ok(Text("")) else DecodeText(bytes, ParseSetting(spec))
  }

  /** Leading whitespace before a non-space is dropped, and nothing else. */
  lemma {:induction false} TrimStartOf(lead: string, t: string)
    requires AllSpace(lead)
    requires t == [] || !IsSpace(t[0])
    ensures TrimStart(lead + t) == t
    decreases |lead|
  {
    if lead == [] {
      assert lead + t == t;
    } else {
      assert (lead + t)[0] == lead[0];
      assert (lead + t)[1..] == lead[1..] + t;
      TrimStartOf(lead[1..], t);
    }
  }

  /** A word followed by whitespace or the end is read as that word. */
  lemma {:induction false} WordOf(w: string, rest: string)
    requires NoSpace(w)
    requires rest == [] || IsSpace(rest[0])
    ensures Word(w + rest) == w
    decreases |w|
  {
    if w != [] {
      assert (w + rest)[1..] == w[1..] + rest;
      WordOf(w[1..], rest);
    }
  }

  /** A blank setting has no parts. */
  lemma SplitBlank(spec: string)
    requires AllSpace(spec)
    ensures SplitOnce(spec) == []
  {
  }

  /** One word between any whitespace splits into that word alone. */
  lemma SplitCodecOnly(lead: string, codec: string, trail: string)
    requires AllSpace(lead) && AllSpace(trail)
    requires codec != [] && NoSpace(codec)
    ensures SplitOnce(lead + codec + trail) == [codec]
  {
    var t := codec + trail;
    assert lead + codec + trail == lead + t;
    assert t[0] == codec[0];
    TrimStartOf(lead, t);
    WordOf(codec, trail);
    assert t[|codec|..] == trail;
    assert trail + [] == trail;
    TrimStartOf(trail, []);
  }

  /**
   * A word, a run of whitespace and a rest that starts with a non-space split
   * into the word and the rest, whatever whitespace surrounds them.
   */
  lemma SplitCodecAndHandler(lead: string, codec: string, gap: string, handler: string)
    requires AllSpace(lead) && AllSpace(gap) && gap != []
    requires codec != [] && NoSpace(codec)
    requires handler != [] && !IsSpace(handler[0])
    ensures SplitOnce(lead + codec + gap + handler) == [codec, handler]
  {
    var tail := gap + handler;
    var t := codec + tail;
    assert lead + codec + gap + handler == lead + t;
    assert t[0] == codec[0];
    TrimStartOf(lead, t);
    WordOf(codec, tail);
    assert t[|codec|..] == tail;
    TrimStartOf(gap, handler);
  }

  /** A setting of one word names that codec with the strict handler. */
  lemma ParseCodecOnly(lead: string, codec: string, trail: string)
    requires AllSpace(lead) && AllSpace(trail)
    requires codec != [] && NoSpace(codec)
    ensures ParseSetting(lead + codec + trail) == Setting(codec, "strict")
  {
    SplitCodecOnly(lead, codec, trail);
  }

  /** A setting of a word and a rest names that codec and the rest as the handler. */
  lemma ParseCodecAndHandler(lead: string, codec: string, gap: string, handler: string)
    requires AllSpace(lead) && AllSpace(gap) && gap != []
    requires codec != [] && NoSpace(codec)
    requires handler != [] && !IsSpace(handler[0])
    ensures ParseSetting(lead + codec + gap + handler) == Setting(codec, handler)
  {
    SplitCodecAndHandler(lead, codec, gap, handler);
  }

  /** "utf-8" names the UTF-8 codec with the strict handler. */
  lemma ParseUtf8()
    ensures ParseSetting("utf-8") == Setting("utf-8", "strict")
  {
    UnspacedUtf8();
    assert [] + "utf-8" + [] == "utf-8";
    ParseCodecOnly([], "utf-8", []);
  }

  /** "utf-8 replace" names the UTF-8 codec with the replace handler. */
  lemma ParseUtf8Replace()
    ensures ParseSetting("utf-8 replace") == Setting("utf-8", "replace")
  {
    UnspacedUtf8();
    assert [] + "utf-8" + " " + "replace" == "utf-8 replace";
    ParseCodecAndHandler([], "utf-8", " ", "replace");
  }

  lemma UnspacedUtf8()
    ensures NoSpace("utf-8")
  {
  }

  /**
   * Under "utf-8" followed by any handler name, non-empty input decodes as
   * the UTF-8 decoder does under that handler.
   */
  lemma DecodeUtf8Handler(data: seq<byte>, lead: string, gap: string, handler: string)
    requires data != []
    requires AllSpace(lead) && AllSpace(gap) && gap != []
    requires handler != [] && !IsSpace(handler[0])
    ensures Decode(Some(data), Some(lead + "utf-8" + gap + handler)) ==
      match Utf8.Decode(data, HandlerNamed(handler)) case Ok(t) => Ok(Text(t)) case Err(e) => Err(e)
  {
    UnspacedUtf8();
    ParseCodecAndHandler(lead, "utf-8", gap, handler);
  }

  /** Under "utf-8", non-empty input decodes exactly as the strict UTF-8 codec does. */
  lemma DecodeUtf8Strict(data: seq<byte>)
    requires data != []
    ensures Decode(Some(data), Some("utf-8")) ==
      match Utf8.Decode(data, Utf8.Strict) case Ok(t) => Ok(Text(t)) case Err(e) => Err(e)
  {
    ParseUtf8();
  }

  /** Under "utf-8 replace", every input decodes, as the `replace` handler reads it. */
  lemma DecodeUtf8Replace(data: seq<byte>)
    requires data != []
    ensures Decode(Some(data), Some("utf-8 replace")) == Ok(Text(Utf8.Decode(data, Utf8.Replace).value))
  {
    ParseUtf8Replace();
  }

  /** Text encoded as UTF-8 decodes back to itself under "utf-8" and under "utf-8 replace". */
  lemma DecodeRoundTrip(t: string)
    ensures Decode(Some(Utf8.Encode(t)), Some("utf-8")) == Ok(Text(t))
    ensures Decode(Some(Utf8.Encode(t)), Some("utf-8 replace")) == Ok(Text(t))
  {
    Utf8.DecodeEncode(t, Utf8.Strict);
    Utf8.DecodeEncode(t, Utf8.Replace);
    if Utf8.Encode(t) != [] {
      DecodeUtf8Strict(Utf8.Encode(t));
      DecodeUtf8Replace(Utf8.Encode(t));
    }
  }

  /** `decode(b"\x81", "utf-8")` raises a UnicodeDecodeError at the first byte. */
  lemma DecodeInvalidByteStrict(data: seq<byte>)
    requires data == [0x81]
    ensures var r := Decode(Some(data), Some("utf-8"));
      r == Err(Utf8Error(0, 1, InvalidStartByte)) && ClassOf(r.error) == UnicodeDecodeError
  {
    assert ClassOf(Utf8Error(0, 1, InvalidStartByte)) == UnicodeDecodeError;
    assert Utf8.SequenceLength(0x81) == 0;
    assert data == [0x81] + [];
    StrictRejectsStartByte(0x81, []);
  }

  /** Under "utf-8", data starting with a byte that cannot start a sequence fails at that byte. */
  lemma StrictRejectsStartByte(b: byte, rest: seq<byte>)
    requires Utf8.SequenceLength(b) == 0
    ensures Decode(Some([b] + rest), Some("utf-8")) == Err(Utf8Error(0, 1, InvalidStartByte))
  {
    DecodeUtf8Strict([b] + rest);
    Utf8.InvalidStartByteDecode(b, rest);
  }

  /** The bytes of "abc". */
  lemma AbcBytes(data: seq<byte>)
    requires data == [0x61, 0x62, 0x63]
    ensures Utf8.Latin(data) == "abc"
    ensures forall i :: 0 <= i < |data| ==> data[i] < 0x80
  {
  }

  /** The `replace` handler reads b"\x81abc" as "�abc". */
  lemma ReplaceInvalidThenAbc(data: seq<byte>)
    requires data == [0x81, 0x61, 0x62, 0x63]
    ensures Utf8.Decode(data, Utf8.Replace) == Ok("�abc")
  {
    var rest := data[1..];
    assert data == [0x81] + rest;
    Utf8.InvalidStartByteDecode(0x81, rest);
    AbcBytes(rest);
    Utf8.DecodeAscii(rest, Utf8.Replace);
    assert [Utf8.ReplacementChar] + "abc" == "�abc";
  }

  /** `decode(b"\x81abc", "utf-8 replace")` is "�abc". */
  lemma DecodeInvalidByteReplace(data: seq<byte>)
    requires data == [0x81, 0x61, 0x62, 0x63]
    ensures Decode(Some(data), Some("utf-8 replace")) == Ok(Text("�abc"))
  {
    DecodeUtf8Replace(data);
    ReplaceInvalidThenAbc(data);
  }

  /** `decode(b"abc", "utf-8")` is "abc". */
  lemma DecodeAsciiText()
    ensures Decode(Some([0x61, 0x62, 0x63]), Some("utf-8")) == Ok(Text("abc"))
  {
    var data: seq<byte> := [0x61, 0x62, 0x63];
    DecodeUtf8Strict(data);
    AbcBytes(data);
    Utf8.DecodeAscii(data, Utf8.Strict);
  }
}
