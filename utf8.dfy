/**
 * UTF-8 as CPython's codec reads it: well-formed sequences are those of
 * RFC 3629, section 4 (the ABNF of byte ranges), and an ill-formed input is
 * cut into "maximal subparts", each of which the `replace` handler turns into
 * one U+FFFD, the `ignore` handler drops, and the `strict` handler reports.
 */
module Utf8 {
  import opened Wrappers
  import opened Bytes
  import opened Errors

  /** The error handlers of `bytes.decode`; any other name is carried as `OtherHandler`. */
  datatype Handler = Strict | Replace | Ignore | OtherHandler(name: string)

  /** What the decoder finds at the head of its input. */
  datatype Step =
    /** A well-formed sequence of `len` bytes encoding `c`. */
    | Scalar(c: char, len: nat)
    /** An ill-formed maximal subpart of `len` bytes. */
    | Invalid(len: nat, reason: DecodeReason)

  const ReplacementChar: char := '�'

  /** Continuation bytes 10xxxxxx. */
  predicate IsContinuation(b: byte)
  {
    0x80 <= b <= 0xBF
  }

  /** The length of the well-formed sequence `b0` starts, or 0 if `b0` cannot start one. */
  function SequenceLength(b0: byte): nat
  {
    if b0 <= 0x7F then 1
    else if 0xC2 <= b0 <= 0xDF then 2
    else if 0xE0 <= b0 <= 0xEF then 3
    else if 0xF0 <= b0 <= 0xF4 then 4
    else 0
  }

  /** Whether `b` may stand at position `i` (1 to 3) of a sequence led by `b0`. */
  predicate TrailOk(b0: byte, i: nat, b: byte)
  {
    if i == 1 then
      if b0 == 0xE0 then 0xA0 <= b <= 0xBF
      else if b0 == 0xED then 0x80 <= b <= 0x9F
      else if b0 == 0xF0 then 0x90 <= b <= 0xBF
      else if b0 == 0xF4 then 0x80 <= b <= 0x8F
      else IsContinuation(b)
    else IsContinuation(b)
  }

  /** `w` is one well-formed UTF-8 sequence. */
  predicate WellFormedSequence(w: seq<byte>)
  {
    && |w| > 0
    && |w| == SequenceLength(w[0])
    && (|w| > 1 ==> TrailOk(w[0], 1, w[1]))
    && (|w| > 2 ==> TrailOk(w[0], 2, w[2]))
    && (|w| > 3 ==> TrailOk(w[0], 3, w[3]))
  }

  /** How many bytes after a valid lead byte `s[0]` continue its sequence correctly. */
  function MatchedTrail(s: seq<byte>): (k: nat)
    requires |s| > 0 && SequenceLength(s[0]) >= 2
    ensures k < SequenceLength(s[0]) && k < |s|
    ensures k >= 1 ==> TrailOk(s[0], 1, s[1])
    ensures k >= 2 ==> TrailOk(s[0], 2, s[2])
    ensures k >= 3 ==> TrailOk(s[0], 3, s[3])
    ensures k + 1 < SequenceLength(s[0]) && k + 1 < |s| ==> !TrailOk(s[0], k + 1, s[k + 1])
  {
    var n := SequenceLength(s[0]);
    if |s| < 2 || !TrailOk(s[0], 1, s[1]) then 0
    else if n == 2 || |s| < 3 || !TrailOk(s[0], 2, s[2]) then 1
    else if n == 3 || |s| < 4 || !TrailOk(s[0], 3, s[3]) then 2
    else 3
  }

  /** The code point a well-formed sequence encodes. */
  function CodePoint(w: seq<byte>): (cp: int)
    requires WellFormedSequence(w)
    ensures 0 <= cp < 0xD800 || 0xE000 <= cp <= 0x10FFFF
    ensures |w| == 1 <==> cp < 0x80
    ensures |w| == 2 <==> 0x80 <= cp < 0x800
    ensures |w| == 3 <==> 0x800 <= cp < 0x10000
    ensures |w| == 4 <==> 0x10000 <= cp
  {
    var b0 := w[0] as int;
    if |w| == 1 then b0
    else if |w| == 2 then (b0 - 0xC0) * 64 + (w[1] as int - 0x80)
    else if |w| == 3 then (b0 - 0xE0) * 4096 + (w[1] as int - 0x80) * 64 + (w[2] as int - 0x80)
    else (b0 - 0xF0) * 262144 + (w[1] as int - 0x80) * 4096 + (w[2] as int - 0x80) * 64 + (w[3] as int - 0x80)
  }

  /** The UTF-8 encoding of one Unicode scalar value (RFC 3629, section 3). */
  function EncodeChar(c: char): (w: seq<byte>)
    ensures 1 <= |w| <= 4
  {
    var cp := c as int;
    if cp < 0x80 then [cp as byte]
    else if cp < 0x800 then [(0xC0 + cp / 64) as byte, (0x80 + cp % 64) as byte]
    else if cp < 0x10000 then
      [(0xE0 + cp / 4096) as byte, (0x80 + cp / 64 % 64) as byte, (0x80 + cp % 64) as byte]
    else
      [(0xF0 + cp / 262144) as byte, (0x80 + cp / 4096 % 64) as byte,
       (0x80 + cp / 64 % 64) as byte, (0x80 + cp % 64) as byte]
  }

  /** The UTF-8 encoding of a string. */
  function Encode(t: string): seq<byte>
  {
    if t == [] then [] else EncodeChar(t[0]) + Encode(t[1..])
  }

  /** Euclidean division of `q * 64 + r` by 64, for a digit `r` in base 64. */
  lemma DivMod64(x: int, q: int, r: int)
    requires 0 <= r < 64 && x == q * 64 + r
    ensures x / 64 == q && x % 64 == r
  {
  }

  /** The base-64 digits of a code point below 0x110000, most significant first. */
  lemma Digits64(cp: int)
    requires 0 <= cp < 0x110000
    ensures cp / 64 == (cp / 4096) * 64 + cp / 64 % 64
    ensures cp / 4096 == (cp / 262144) * 64 + cp / 4096 % 64
  {
    var q1 := cp / 64;
    var q2 := q1 / 64;
    assert cp / 4096 == q2;
    assert q2 / 64 == cp / 262144;
  }

  /** Every encoded scalar value is one well-formed sequence that decodes back to it. */
  lemma EncodeCharWellFormed(c: char)
    ensures WellFormedSequence(EncodeChar(c))
    ensures CodePoint(EncodeChar(c)) == c as int
  {
    var cp := c as int;
    if cp < 0x80 {
    } else if cp < 0x800 {
      EncodeTwo(cp);
    } else if cp < 0x10000 {
      EncodeThree(cp);
    } else {
      EncodeFour(cp);
    }
  }

  lemma EncodeTwo(cp: int)
    requires 0x80 <= cp < 0x800
    ensures var w := EncodeChar(cp as char); WellFormedSequence(w) && CodePoint(w) == cp
  {
  }

  lemma EncodeThree(cp: int)
    requires 0x800 <= cp < 0x10000 && (cp < 0xD800 || 0xE000 <= cp)
    ensures var w := EncodeChar(cp as char); WellFormedSequence(w) && CodePoint(w) == cp
  {
    Digits64(cp);
    var w := EncodeChar(cp as char);
    assert w[0] as int == 0xE0 + cp / 4096;
    assert w[1] as int == 0x80 + cp / 64 % 64;
  }

  lemma EncodeFour(cp: int)
    requires 0x10000 <= cp < 0x110000
    ensures var w := EncodeChar(cp as char); WellFormedSequence(w) && CodePoint(w) == cp
  {
    Digits64(cp);
    var w := EncodeChar(cp as char);
    assert w[0] as int == 0xF0 + cp / 262144;
    assert w[1] as int == 0x80 + cp / 4096 % 64;
  }

  /** A well-formed sequence is the encoding of the code point it holds. */
  lemma EncodeCodePoint(w: seq<byte>)
    requires WellFormedSequence(w)
    ensures EncodeChar(CodePoint(w) as char) == w
  {
    if |w| == 2 {
      DecodeTwo(w);
    } else if |w| == 3 {
      DecodeThree(w);
    } else if |w| == 4 {
      DecodeFour(w);
    }
  }

  lemma DecodeTwo(w: seq<byte>)
    requires WellFormedSequence(w) && |w| == 2
    ensures EncodeChar(CodePoint(w) as char) == w
  {
    DivMod64(CodePoint(w), w[0] as int - 0xC0, w[1] as int - 0x80);
  }

  lemma DecodeThree(w: seq<byte>)
    requires WellFormedSequence(w) && |w| == 3
    ensures EncodeChar(CodePoint(w) as char) == w
  {
    var cp := CodePoint(w);
    var hi := (w[0] as int - 0xE0) * 64 + (w[1] as int - 0x80);
    DivMod64(cp, hi, w[2] as int - 0x80);
    DivMod64(hi, w[0] as int - 0xE0, w[1] as int - 0x80);
    assert cp / 4096 == hi / 64;
    var e := EncodeChar(cp as char);
    assert e[0] == w[0] && e[1] == w[1] && e[2] == w[2];
  }

  lemma DecodeFour(w: seq<byte>)
    requires WellFormedSequence(w) && |w| == 4
    ensures EncodeChar(CodePoint(w) as char) == w
  {
    var cp := CodePoint(w);
    var mid := (w[0] as int - 0xF0) * 64 + (w[1] as int - 0x80);
    var hi := mid * 64 + (w[2] as int - 0x80);
    DivMod64(cp, hi, w[3] as int - 0x80);
    DivMod64(hi, mid, w[2] as int - 0x80);
    DivMod64(mid, w[0] as int - 0xF0, w[1] as int - 0x80);
    assert cp / 4096 == hi / 64;
    assert cp / 262144 == mid / 64;
    var e := EncodeChar(cp as char);
    assert e[0] == w[0] && e[1] == w[1] && e[2] == w[2] && e[3] == w[3];
  }

  /**
   * What the decoder reads at the head of `s`: a well-formed sequence and its
   * scalar value, or the maximal ill-formed subpart and why it is ill-formed.
   */
  function Scan(s: seq<byte>): (st: Step)
    requires |s| > 0
    ensures 1 <= st.len <= |s|
    ensures st.Scalar? ==> st.len == SequenceLength(s[0])
    ensures st.Invalid? ==> (st.reason == InvalidStartByte <==> SequenceLength(s[0]) == 0)
    ensures st.Invalid? && SequenceLength(s[0]) != 0 ==> (st.reason == UnexpectedEndOfData <==> st.len == |s|)
  {
    var n := SequenceLength(s[0]);
    if n == 1 then
      assert s[..1] == [s[0]];
      Scalar(s[0] as int as char, 1)
    else if n == 0 then Invalid(1, InvalidStartByte)
    else
      var k := MatchedTrail(s);
      if k + 1 == n then
        assert WellFormedSequence(s[..n]);
        Scalar(CodePoint(s[..n]) as char, n)
      else if k + 1 == |s| then Invalid(k + 1, UnexpectedEndOfData)
      else Invalid(k + 1, InvalidContinuationByte)
  }

  /** A scalar step consumes exactly the encoding of the character it reads. */
  lemma ScanScalar(s: seq<byte>)
    requires |s| > 0 && Scan(s).Scalar?
    ensures s[..Scan(s).len] == EncodeChar(Scan(s).c)
  {
    var n := Scan(s).len;
    if n == 1 {
      assert s[..1] == [s[0]];
    } else {
      EncodeCodePoint(s[..n]);
    }
  }

  /** Moves the positions a decode error reports `n` bytes to the right. */
  function Shift(e: Error, n: nat): Error
  {
    if e.Utf8Error? then Utf8Error(n + e.start, n + e.end, e.reason) else e
  }

  /** `bytes.decode("utf-8", errors)` for the handler `h`. */
  function Decode(s: seq<byte>, h: Handler): (r: Result<string, Error>)
    ensures h == Replace || h == Ignore ==> r.Ok?
    ensures r.Err? && r.error.Utf8Error? ==> h == Strict && r.error.start < r.error.end <= |s|
    ensures r.Err? ==> r.error.Utf8Error? || (h.OtherHandler? && r.error == UnmodelledHandler(h.name))
    decreases |s|
  {
    if s == [] then Ok([])
    else
      match Scan(s)
      case Scalar(c, n) =>
        (match Decode(s[n..], h)
         case Ok(t) => Ok([c] + t)
         case Err(e) => Err(Shift(e, n)))
      case Invalid(n, why) =>
        (match h
         case Strict => Err(Utf8Error(0, n, why))
         case Replace => Ok([ReplacementChar] + Decode(s[n..], h).value)
         case Ignore => Decode(s[n..], h)
         case OtherHandler(name) => Err(UnmodelledHandler(name)))
  }

  /** The decoder reads an encoded scalar value back as that value. */
  lemma ScanEncoded(c: char, rest: seq<byte>)
    ensures Scan(EncodeChar(c) + rest) == Scalar(c, |EncodeChar(c)|)
  {
    var w := EncodeChar(c);
    var s := w + rest;
    EncodeCharWellFormed(c);
    assert s[..|w|] == w;
    assert s[0] == w[0];
    if |w| > 1 {
      var k := MatchedTrail(s);
      assert forall i :: 1 <= i < |w| ==> s[i] == w[i];
      assert k + 1 == |w|;
    }
  }

  /** Decoding the encoding of any string gives the string back, under every handler. */
  lemma {:induction false} DecodeEncode(t: string, h: Handler)
    ensures Decode(Encode(t), h) == Ok(t)
  {
    if t != [] {
      var w := EncodeChar(t[0]);
      var s := Encode(t);
      ScanEncoded(t[0], Encode(t[1..]));
      assert s[|w|..] == Encode(t[1..]);
      DecodeEncode(t[1..], h);
      assert [t[0]] + t[1..] == t;
    }
  }

  /** What strict decoding accepts is exactly the encoding of what it returns. */
  lemma {:induction false} DecodeStrictSound(s: seq<byte>)
    requires Decode(s, Strict).Ok?
    ensures Encode(Decode(s, Strict).value) == s
    decreases |s|
  {
    if s != [] {
      var st := Scan(s);
      assert st.Scalar?;
      var n := st.len;
      DecodeScalarStep(s, Strict);
      DecodeStrictSound(s[n..]);
      ScanScalar(s);
      EncodeCons(st.c, Decode(s[n..], Strict).value);
      SplitAt(s, n);
    }
  }

  lemma SplitAt(s: seq<byte>, n: nat)
    requires n <= |s|
    ensures s[..n] + s[n..] == s
  {
  }

  lemma SliceOfSlice(s: seq<byte>, n: nat, k: nat)
    requires n + k <= |s|
    ensures s[n..][k..] == s[n + k..] && s[n..][..k] == s[n..n + k]
  {
  }

  /** Encoding a string encodes its first character, then the rest. */
  lemma EncodeCons(c: char, t: string)
    ensures Encode([c] + t) == EncodeChar(c) + Encode(t)
  {
    assert ([c] + t)[1..] == t;
  }

  /** On input strict decoding accepts, every handler gives the same text. */
  lemma {:induction false} HandlersAgreeOnWellFormed(s: seq<byte>, h: Handler)
    requires Decode(s, Strict).Ok?
    ensures Decode(s, h) == Decode(s, Strict)
    decreases |s|
  {
    if s != [] {
      var st := Scan(s);
      assert st.Scalar?;
      HandlersAgreeOnWellFormed(s[st.len..], h);
    }
  }

  /** The text whose characters have the codes of the bytes of `s`. */
  function Latin(s: seq<byte>): (t: string)
    ensures |t| == |s|
    ensures forall i :: 0 <= i < |s| ==> t[i] as int == s[i] as int
  {
    seq(|s|, i requires 0 <= i < |s| => s[i] as int as char)
  }

  lemma LatinCons(s: seq<byte>)
    requires |s| > 0
    ensures Latin(s) == [s[0] as int as char] + Latin(s[1..])
  {
  }

  /** ASCII bytes decode to the same characters in the same order, under every handler. */
  lemma {:induction false} DecodeAscii(s: seq<byte>, h: Handler)
    requires forall i :: 0 <= i < |s| ==> s[i] < 0x80
    ensures Decode(s, h) == Ok(Latin(s))
    decreases |s|
  {
    if s != [] {
      assert Scan(s) == Scalar(s[0] as int as char, 1);
      DecodeAscii(s[1..], h);
      LatinCons(s);
    }
  }

  /**
   * A byte that cannot start any sequence (such as 0x81) makes strict decoding
   * fail at that byte, and `replace` turns it into one U+FFFD and decodes the
   * rest as it would on its own.
   */
  lemma InvalidStartByteDecode(b: byte, rest: seq<byte>)
    requires SequenceLength(b) == 0
    ensures Decode([b] + rest, Strict) == Err(Utf8Error(0, 1, InvalidStartByte))
    ensures Decode([b] + rest, Replace) == Ok([ReplacementChar] + Decode(rest, Replace).value)
    ensures Decode([b] + rest, Ignore) == Decode(rest, Ignore)
  {
    assert ([b] + rest)[1..] == rest;
  }

  /** Decoding past a well-formed sequence: its scalar value, then the rest. */
  lemma DecodeScalarStep(s: seq<byte>, h: Handler)
    requires |s| > 0 && Scan(s).Scalar?
    ensures var n := Scan(s).len;
      Decode(s, h) == match Decode(s[n..], h)
                      case Ok(t) => Ok([Scan(s).c] + t)
                      case Err(e) => Err(Shift(e, n))
  {
  }

  /** Strict decoding accepts `s`. */
  predicate StrictAccepts(s: seq<byte>)
  {
    Decode(s, Strict).Ok?
  }

  /**
   * `s[start..end]` is the first ill-formed subpart of `s`: everything before
   * it decodes, and the span is what the decoder finds there.
   */
  predicate IllFormedAt(s: seq<byte>, start: nat, end: nat, reason: DecodeReason)
  {
    && start < end <= |s|
    && StrictAccepts(s[..start])
    && Scan(s[start..]) == Invalid(end - start, reason)
  }

  /** `e` reports the first ill-formed subpart of `s`. */
  predicate FirstIllFormed(s: seq<byte>, e: Error)
  {
    e.Utf8Error? && IllFormedAt(s, e.start, e.end, e.reason)
  }

  /** Strict decoding fails only at the first ill-formed subpart. */
  lemma {:induction false} StrictErrorIsFirst(s: seq<byte>)
    requires Decode(s, Strict).Err?
    ensures FirstIllFormed(s, Decode(s, Strict).error)
    decreases |s|
  {
    if Scan(s).Scalar? {
      var n := Scan(s).len;
      DecodeScalarStep(s, Strict);
      StrictErrorIsFirst(s[n..]);
      ErrorAfterScalar(s, Decode(s[n..], Strict).error);
    } else {
      assert s[..0] == [];
      assert s[0..] == s;
    }
  }

  /** A first ill-formed subpart after a leading scalar is, shifted, the first one of the whole input. */
  lemma ErrorAfterScalar(s: seq<byte>, e: Error)
    requires |s| > 0 && Scan(s).Scalar?
    requires FirstIllFormed(s[Scan(s).len..], e)
    ensures FirstIllFormed(s, Shift(e, Scan(s).len))
  {
    var n := Scan(s).len;
    ScalarAccepted(s);
    FirstIllFormedSpan(s[n..], e);
    ErrorAfterPrefix(s, n, e.start, e.end, e.reason);
    ShiftedFirst(s, n, e);
  }

  /** Strict decoding accepts the well-formed sequence at the head of `s`. */
  lemma ScalarAccepted(s: seq<byte>)
    requires |s| > 0 && Scan(s).Scalar?
    ensures StrictAccepts(s[..Scan(s).len])
  {
    ScalarPrefixDecodes(s);
  }

  /** What `FirstIllFormed` says about the error's span. */
  lemma FirstIllFormedSpan(s: seq<byte>, e: Error)
    requires FirstIllFormed(s, e)
    ensures e.Utf8Error? && IllFormedAt(s, e.start, e.end, e.reason)
  {
  }

  /** An error whose shifted span is ill-formed in `s` is, shifted, the first one of `s`. */
  lemma ShiftedFirst(s: seq<byte>, n: nat, e: Error)
    requires e.Utf8Error? && IllFormedAt(s, n + e.start, n + e.end, e.reason)
    ensures FirstIllFormed(s, Shift(e, n))
  {
  }

  /** A first ill-formed subpart after an accepted prefix is, shifted, the first one of the whole input. */
  lemma ErrorAfterPrefix(s: seq<byte>, n: nat, start: nat, end: nat, reason: DecodeReason)
    requires n <= |s| && StrictAccepts(s[..n])
    requires IllFormedAt(s[n..], start, end, reason)
    ensures IllFormedAt(s, n + start, n + end, reason)
  {
    PrefixJoin(s, n, start);
    ScanAfterOffset(s, n, start);
  }

  /** Strict decoding accepts an accepted prefix followed by `k` more bytes it accepts. */
  lemma PrefixJoin(s: seq<byte>, n: nat, k: nat)
    requires n + k <= |s|
    requires StrictAccepts(s[..n]) && StrictAccepts(s[n..][..k])
    ensures StrictAccepts(s[..n + k])
  {
    SplitPrefix(s, n, k);
    StrictAppend(s[..n], s[n..][..k]);
  }

  /** Scanning from `k` bytes into `s[n..]` is scanning from `n + k` bytes into `s`. */
  lemma ScanAfterOffset(s: seq<byte>, n: nat, k: nat)
    requires n + k < |s|
    ensures Scan(s[n..][k..]) == Scan(s[n + k..])
  {
    SliceOfSlice(s, n, k);
  }

  /** The well-formed sequence at the head of `s` decodes on its own to its character. */
  lemma ScalarPrefixDecodes(s: seq<byte>)
    requires |s| > 0 && Scan(s).Scalar?
    ensures Decode(s[..Scan(s).len], Strict) == Ok([Scan(s).c])
  {
    var c := Scan(s).c;
    ScanScalar(s);
    EncodeCons(c, []);
    assert [c] + [] == [c];
    DecodeEncode([c], Strict);
  }

  lemma SplitPrefix(s: seq<byte>, n: nat, k: nat)
    requires n + k <= |s|
    ensures s[..n + k] == s[..n] + s[n..][..k]
  {
  }

  /** Encoding distributes over concatenation. */
  lemma {:induction false} EncodeAppend(t: string, u: string)
    ensures Encode(t + u) == Encode(t) + Encode(u)
  {
    if t == [] {
      assert t + u == u;
    } else {
      assert (t + u)[0] == t[0];
      assert (t + u)[1..] == t[1..] + u;
      EncodeAppend(t[1..], u);
    }
  }

  /** Strict decoding of a concatenation of accepted inputs is the concatenation of their texts. */
  lemma StrictAppend(a: seq<byte>, b: seq<byte>)
    requires Decode(a, Strict).Ok? && Decode(b, Strict).Ok?
    ensures Decode(a + b, Strict) == Ok(Decode(a, Strict).value + Decode(b, Strict).value)
  {
    var t := Decode(a, Strict).value;
    var u := Decode(b, Strict).value;
    DecodeStrictSound(a);
    DecodeStrictSound(b);
    EncodeAppend(t, u);
    DecodeEncode(t + u, Strict);
  }

  predicate IsPrefix(a: seq<byte>, b: seq<byte>)
  {
    |a| <= |b| && b[..|a|] == a
  }

  /** No well-formed sequence agrees with `s` on more than the bytes the decoder matched. */
  lemma NoEncodingExtends(s: seq<byte>, c: char, m: nat)
    requires 0 < m <= |s| && Scan(s).Invalid? && Scan(s).len < m
    ensures !IsPrefix(s[..m], EncodeChar(c))
  {
    EncodeCharWellFormed(c);
  }

  /**
   * The span the decoder reports as ill-formed is a maximal subpart: no
   * well-formed sequence starts the input, the span (if longer than one byte)
   * begins some well-formed sequence, and one more byte would begin none.
   */
  lemma InvalidIsMaximalSubpart(s: seq<byte>)
    requires |s| > 0 && Scan(s).Invalid?
    ensures forall c: char :: !IsPrefix(EncodeChar(c), s)
    ensures Scan(s).len > 1 ==> exists c: char :: IsPrefix(s[..Scan(s).len], EncodeChar(c))
    ensures Scan(s).len < |s| ==> forall c: char :: !IsPrefix(s[..Scan(s).len + 1], EncodeChar(c))
  {
    var len := Scan(s).len;
    forall c: char ensures !IsPrefix(EncodeChar(c), s) {
      EncodeCharWellFormed(c);
    }
    if len > 1 {
      var n := SequenceLength(s[0]);
      var w := s[..len] + seq(n - len, _ => 0x80 as byte);
      assert WellFormedSequence(w);
      EncodeCodePoint(w);
      assert IsPrefix(s[..len], EncodeChar(CodePoint(w) as char));
    }
    if len < |s| {
      forall c: char ensures !IsPrefix(s[..len + 1], EncodeChar(c)) {
        NoEncodingExtends(s, c, len + 1);
      }
    }
  }
}
