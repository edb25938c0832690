/**
 * The text codecs the core goes through without naming them: UTF-16 strings
 * to scalar values and back, UTF-8 encoding, and the UTF-8 decoder of the
 * WHATWG Encoding Standard. They sit under `TextEncoder`/`TextDecoder` in
 * utils/encryption.ts and under `unescape(encodeURIComponent(…))` /
 * `decodeURIComponent(escape(…))` in utils/share.ts.
 */
module Unicode {
  import opened Wrappers
  import opened Text

  type Byte = x: int | 0 <= x < 256
  type Bytes = seq<Byte>

  /** U+FFFD REPLACEMENT CHARACTER. */
  const Replacement: Scalar := 0xFFFD
  /** U+FEFF, which a UTF-8 `TextDecoder` drops when it opens the output. */
  const ByteOrderMark: Scalar := 0xFEFF

  // ---------------------------------------------------------------------------
  // UTF-16
  // ---------------------------------------------------------------------------

  /** Every high surrogate is followed by a low one and every low one is preceded by a high one. */
  predicate WellFormed16(s: String)
    decreases |s|
  {
    if |s| == 0 then true
    else if IsHighSurrogate(s[0]) then |s| >= 2 && IsLowSurrogate(s[1]) && WellFormed16(s[2..])
    else !IsLowSurrogate(s[0]) && WellFormed16(s[1..])
  }

  /** The scalar value a surrogate pair stands for. */
  function PairValue(hi: CodeUnit, lo: CodeUnit): (cp: Scalar)
    requires IsHighSurrogate(hi) && IsLowSurrogate(lo)
    ensures cp >= 0x1_0000
  {
    0x1_0000 + (hi - 0xD800) * 0x400 + (lo - 0xDC00)
  }

  /** The scalar values of a string, lone surrogates read as U+FFFD (WebIDL's USVString conversion). */
  function Utf16Scalars(s: String): seq<Scalar>
    decreases |s|
  {
    if |s| == 0 then []
    else if |s| >= 2 && IsHighSurrogate(s[0]) && IsLowSurrogate(s[1]) then
      [PairValue(s[0], s[1])] + Utf16Scalars(s[2..])
    else if IsHighSurrogate(s[0]) || IsLowSurrogate(s[0]) then [Replacement] + Utf16Scalars(s[1..])
    else [s[0]] + Utf16Scalars(s[1..])
  }

  lemma PairRoundTrip(hi: CodeUnit, lo: CodeUnit)
    requires IsHighSurrogate(hi) && IsLowSurrogate(lo)
    ensures Utf16Encode1(PairValue(hi, lo)) == [hi, lo]
  {
    var w := PairValue(hi, lo) - 0x1_0000;
    assert w == (hi - 0xD800) * 0x400 + (lo - 0xDC00);
    assert w / 0x400 == hi - 0xD800;
    assert w % 0x400 == lo - 0xDC00;
  }

  /** A well-formed string is recovered from its scalar values. */
  lemma {:induction false} Utf16RoundTrip(s: String)
    requires WellFormed16(s)
    ensures Utf16Encode(Utf16Scalars(s)) == s
    decreases |s|
  {
    if |s| > 0 {
      if IsHighSurrogate(s[0]) {
        PairRoundTrip(s[0], s[1]);
        Utf16RoundTrip(s[2..]);
        assert s == [s[0], s[1]] + s[2..];
      } else {
        Utf16RoundTrip(s[1..]);
        assert s == [s[0]] + s[1..];
      }
    }
  }

  /** The first scalar of a string that starts with a non-surrogate unit is that unit. */
  lemma FirstScalar(s: String)
    requires |s| > 0 && !IsHighSurrogate(s[0]) && !IsLowSurrogate(s[0])
    ensures |Utf16Scalars(s)| > 0 && Utf16Scalars(s)[0] == s[0]
  {
  }

  // ---------------------------------------------------------------------------
  // UTF-8 encoding
  // ---------------------------------------------------------------------------

  /** The UTF-8 bytes of one scalar value. */
  function Utf8Encode1(cp: Scalar): (r: Bytes)
    ensures 1 <= |r| <= 4
  {
    if cp < 0x80 then [cp]
    else if cp < 0x800 then [0xC0 + cp / 64, 0x80 + cp % 64]
    else if cp < 0x1_0000 then [0xE0 + cp / 4096, 0x80 + (cp / 64) % 64, 0x80 + cp % 64]
    else
      assert cp / 262144 < 5;
      [0xF0 + cp / 262144, 0x80 + (cp / 4096) % 64, 0x80 + (cp / 64) % 64, 0x80 + cp % 64]
  }

  function Utf8Encode(cps: seq<Scalar>): Bytes {
    if |cps| == 0 then [] else Utf8Encode1(cps[0]) + Utf8Encode(cps[1..])
  }

  // ---------------------------------------------------------------------------
  // UTF-8 decoding (WHATWG Encoding Standard, section 9.1.1)
  // ---------------------------------------------------------------------------

  /** What the decoder yields at one position: a scalar value, or an error for an ill-formed sequence. */
  datatype Item = Ok(cp: Scalar) | Bad

  /**
   * One decoder step at the front of `bs`: the item and the number of bytes
   * consumed. On a continuation byte outside the allowed range the step stops
   * before it, so that byte is decoded again as the start of the next item;
   * at the end of input an unfinished sequence is one error.
   */
  function DecodeStep(bs: Bytes): (r: (Item, nat))
    requires |bs| > 0
    ensures 1 <= r.1 <= |bs| && r.1 <= 4
  {
    var b0: int := bs[0];
    if b0 < 0x80 then (Ok(b0), 1)
    else if 0xC2 <= b0 <= 0xDF then
      if |bs| < 2 || !(0x80 <= bs[1] <= 0xBF) then (Bad, 1)
      else (Ok((b0 - 0xC0) * 64 + (bs[1] as int - 0x80)), 2)
    else if 0xE0 <= b0 <= 0xEF then
      var lower := if b0 == 0xE0 then 0xA0 else 0x80;
      var upper := if b0 == 0xED then 0x9F else 0xBF;
      if |bs| < 2 || !(lower <= bs[1] <= upper) then (Bad, 1)
      else if |bs| < 3 || !(0x80 <= bs[2] <= 0xBF) then (Bad, 2)
      else
        var cp := (b0 - 0xE0) * 4096 + (bs[1] as int - 0x80) * 64 + (bs[2] as int - 0x80);
        assert cp < 0xD800 || 0xE000 <= cp;
        (Ok(cp), 3)
    else if 0xF0 <= b0 <= 0xF4 then
      var lower := if b0 == 0xF0 then 0x90 else 0x80;
      var upper := if b0 == 0xF4 then 0x8F else 0xBF;
      if |bs| < 2 || !(lower <= bs[1] <= upper) then (Bad, 1)
      else if |bs| < 3 || !(0x80 <= bs[2] <= 0xBF) then (Bad, 2)
      else if |bs| < 4 || !(0x80 <= bs[3] <= 0xBF) then (Bad, 3)
      else (Ok((b0 - 0xF0) * 262144 + (bs[1] as int - 0x80) * 4096 + (bs[2] as int - 0x80) * 64 + (bs[3] as int - 0x80)), 4)
    else (Bad, 1)
  }

  /** The decoder's output with errors replaced by U+FFFD, as `TextDecoder` without `fatal` does. */
  function Utf8DecodeLossy(bs: Bytes): seq<Scalar>
    decreases |bs|
  {
    if |bs| == 0 then []
    else
      var (item, n) := DecodeStep(bs);
      [if item.Ok? then item.cp else Replacement] + Utf8DecodeLossy(bs[n..])
  }

  /** The decoder's output, or `None` at the first error, as `decodeURIComponent` (which throws) does. */
  function Utf8DecodeStrict(bs: Bytes): Option<seq<Scalar>>
    decreases |bs|
  {
    if |bs| == 0 then Some([])
    else
      var (item, n) := DecodeStep(bs);
      if item.Bad? then None
      else
        match Utf8DecodeStrict(bs[n..])
        case None => None
        case Some(rest) => Some([item.cp] + rest)
  }

  /** The decoder reads back exactly one encoded scalar value, whatever follows it. */
  lemma DecodeStepEncode1(cp: Scalar, rest: Bytes)
    ensures DecodeStep(Utf8Encode1(cp) + rest) == (Ok(cp), |Utf8Encode1(cp)|)
  {
    if cp < 0x80 {
    } else if cp < 0x800 {
      DecodeTwo(cp, rest);
    } else if cp < 0x1_0000 {
      DecodeThree(cp, rest);
    } else {
      DecodeFour(cp, rest);
    }
  }

  lemma DecodeTwo(cp: Scalar, rest: Bytes)
    requires 0x80 <= cp < 0x800
    ensures DecodeStep(Utf8Encode1(cp) + rest) == (Ok(cp), 2)
  {
    var bs := Utf8Encode1(cp) + rest;
    var a, b := cp / 64, cp % 64;
    assert bs[0] == 0xC0 + a && bs[1] == 0x80 + b;
    assert 2 <= a < 32;
    assert a * 64 + b == cp;
  }

  lemma DecodeThree(cp: Scalar, rest: Bytes)
    requires 0x800 <= cp < 0x1_0000
    ensures DecodeStep(Utf8Encode1(cp) + rest) == (Ok(cp), 3)
  {
    var bs := Utf8Encode1(cp) + rest;
    var a, b, c := cp / 4096, (cp / 64) % 64, cp % 64;
    assert bs[0] == 0xE0 + a && bs[1] == 0x80 + b && bs[2] == 0x80 + c;
    assert cp / 64 == a * 64 + b;
    assert cp == a * 4096 + b * 64 + c;
    assert a == 0 ==> b >= 32;
    assert a == 13 ==> b < 32;
  }

  lemma DecodeFour(cp: Scalar, rest: Bytes)
    requires 0x1_0000 <= cp
    ensures DecodeStep(Utf8Encode1(cp) + rest) == (Ok(cp), 4)
  {
    var bs := Utf8Encode1(cp) + rest;
    var a, b, c, d := cp / 262144, (cp / 4096) % 64, (cp / 64) % 64, cp % 64;
    assert bs[0] == 0xF0 + a && bs[1] == 0x80 + b && bs[2] == 0x80 + c && bs[3] == 0x80 + d;
    assert cp / 4096 == a * 64 + b;
    assert cp / 64 == (a * 64 + b) * 64 + c;
    assert cp == a * 262144 + b * 4096 + c * 64 + d;
    assert a == 0 ==> b >= 16;
    assert a == 4 ==> b < 16;
  }

  /** Strict decoding inverts UTF-8 encoding. */
  lemma {:induction false} Utf8StrictRoundTrip(cps: seq<Scalar>)
    ensures Utf8DecodeStrict(Utf8Encode(cps)) == Some(cps)
  {
    if |cps| > 0 {
      var e := Utf8Encode1(cps[0]);
      var rest := Utf8Encode(cps[1..]);
      DecodeStepEncode1(cps[0], rest);
      assert (e + rest)[|e|..] == rest;
      Utf8StrictRoundTrip(cps[1..]);
      assert cps == [cps[0]] + cps[1..];
    }
  }

  /** Replacing decoding inverts UTF-8 encoding too: well-formed input produces no U+FFFD of its own. */
  lemma {:induction false} Utf8LossyRoundTrip(cps: seq<Scalar>)
    ensures Utf8DecodeLossy(Utf8Encode(cps)) == cps
  {
    if |cps| > 0 {
      var e := Utf8Encode1(cps[0]);
      var rest := Utf8Encode(cps[1..]);
      DecodeStepEncode1(cps[0], rest);
      assert (e + rest)[|e|..] == rest;
      Utf8LossyRoundTrip(cps[1..]);
      assert cps == [cps[0]] + cps[1..];
    }
  }

  // ---------------------------------------------------------------------------
  // The string <-> byte conversions of the browser APIs
  // ---------------------------------------------------------------------------

  /** `new TextEncoder().encode(s)`: lone surrogates become U+FFFD. */
  function TextEncode(s: String): Bytes {
    Utf8Encode(Utf16Scalars(s))
  }

  /** `new TextDecoder().decode(bs)`: errors become U+FFFD and a leading U+FEFF is dropped. */
  function TextDecode(bs: Bytes): String {
    var cps := Utf8DecodeLossy(bs);
    Utf16Encode(if |cps| > 0 && cps[0] == ByteOrderMark then cps[1..] else cps)
  }

  /** The bytes of `unescape(encodeURIComponent(s))`; `encodeURIComponent` throws on a lone surrogate. */
  function UriEncodeBytes(s: String): (r: Option<Bytes>)
    ensures r.Some? <==> WellFormed16(s)
  {
    if WellFormed16(s) then Some(Utf8Encode(Utf16Scalars(s))) else None
  }

  /** `decodeURIComponent(escape(b))` for a binary string `b`: throws unless `b` is well-formed UTF-8. */
  function UriDecodeBytes(bs: Bytes): Option<String> {
    match Utf8DecodeStrict(bs)
    case None => None
    case Some(cps) => Some(Utf16Encode(cps))
  }

  /** Text that is well-formed and does not start with U+FEFF survives `TextEncoder` then `TextDecoder`. */
  lemma TextRoundTrip(s: String)
    requires WellFormed16(s)
    requires s == [] || s[0] != ByteOrderMark
    ensures TextDecode(TextEncode(s)) == s
  {
    Utf8LossyRoundTrip(Utf16Scalars(s));
    Utf16RoundTrip(s);
    if s != [] && !IsHighSurrogate(s[0]) {
      FirstScalar(s);
    }
  }

  /** A leading U+FEFF does not survive: `TextDecoder` strips it as a byte order mark. */
  lemma TextDropsLeadingBom(s: String)
    requires WellFormed16(s)
    ensures TextDecode(TextEncode([ByteOrderMark] + s)) == s
  {
    var t := [ByteOrderMark as CodeUnit] + s;
    assert t[1..] == s;
    assert Utf16Scalars(t) == [ByteOrderMark] + Utf16Scalars(s);
    Utf8LossyRoundTrip(Utf16Scalars(t));
    Utf16RoundTrip(s);
  }

  /** Well-formed strings survive the URI-component byte round trip used by share links. */
  lemma UriRoundTrip(s: String)
    requires WellFormed16(s)
    ensures UriEncodeBytes(s).Some?
    ensures UriDecodeBytes(UriEncodeBytes(s).value) == Some(s)
  {
    Utf8StrictRoundTrip(Utf16Scalars(s));
    Utf16RoundTrip(s);
  }
}
