/**
 * Base64 as the browser's `btoa`/`atob` implement it: the encoding of
 * section 4 of RFC 4648 with `=` padding, decoded by the WHATWG
 * "forgiving-base64 decode" (HTML Standard, section 8.3), plus the
 * base64url alphabet of RFC 4648 section 5 as utils/share.ts derives it by
 * character replacement. A "binary string" (one code unit per byte) is
 * modelled as the byte sequence it carries.
 */
module Base64 {
  import opened Wrappers
  import opened Text
  import opened Unicode

  /** A six-bit group. */
  type Sextet = x: int | 0 <= x < 64

  const Plus: CodeUnit := 43
  const Slash: CodeUnit := 47
  const Minus: CodeUnit := 45
  const Underscore: CodeUnit := 95
  const PadChar: CodeUnit := 61

  // ---------------------------------------------------------------------------
  // Bytes <-> sextets
  // ---------------------------------------------------------------------------

  /** The sextets of a byte sequence: 3 bytes give 4, a final 1 or 2 bytes give 2 or 3 (low bits zero). */
  function Sextets(bs: Bytes): (xs: seq<Sextet>)
    ensures |xs| == 4 * (|bs| / 3) + (if |bs| % 3 == 0 then 0 else |bs| % 3 + 1)
    decreases |bs|
  {
    if |bs| == 0 then []
    else if |bs| == 1 then [bs[0] / 4, (bs[0] % 4) * 16]
    else if |bs| == 2 then [bs[0] / 4, (bs[0] % 4) * 16 + bs[1] / 16, (bs[1] % 16) * 4]
    else [bs[0] / 4, (bs[0] % 4) * 16 + bs[1] / 16, (bs[1] % 16) * 4 + bs[2] / 64, bs[2] % 64] + Sextets(bs[3..])
  }

  /** The first, second and third byte a group of sextets carries. */
  function High(a: Sextet, b: Sextet): Byte { a as int * 4 + b as int / 16 }
  function Middle(b: Sextet, c: Sextet): Byte { (b as int % 16) * 16 + c as int / 4 }
  function Low(c: Sextet, d: Sextet): Byte { (c as int % 4) * 64 + d as int }

  /** The bytes of a sextet sequence; bits left over at the end are discarded. */
  function Unsextets(xs: seq<Sextet>): Bytes
    requires |xs| % 4 != 1
    decreases |xs|
  {
    if |xs| == 0 then []
    else if |xs| == 2 then [High(xs[0], xs[1])]
    else if |xs| == 3 then [High(xs[0], xs[1]), Middle(xs[1], xs[2])]
    else [High(xs[0], xs[1]), Middle(xs[1], xs[2]), Low(xs[2], xs[3])] + Unsextets(xs[4..])
  }

  lemma OneByte(b: Byte)
    ensures Unsextets([b / 4, (b % 4) * 16]) == [b]
  {
  }

  lemma TwoBytes(b0: Byte, b1: Byte)
    ensures Unsextets([b0 / 4, (b0 % 4) * 16 + b1 / 16, (b1 % 16) * 4]) == [b0, b1]
  {
    var x1 := (b0 % 4) * 16 + b1 / 16;
    assert x1 / 16 == b0 % 4 && x1 % 16 == b1 / 16;
  }

  lemma ThreeBytes(b0: Byte, b1: Byte, b2: Byte)
    ensures High(b0 / 4, (b0 % 4) * 16 + b1 / 16) == b0
    ensures Middle((b0 % 4) * 16 + b1 / 16, (b1 % 16) * 4 + b2 / 64) == b1
    ensures Low((b1 % 16) * 4 + b2 / 64, b2 % 64) == b2
  {
    var x1 := (b0 % 4) * 16 + b1 / 16;
    var x2 := (b1 % 16) * 4 + b2 / 64;
    assert x1 / 16 == b0 % 4 && x1 % 16 == b1 / 16;
    assert x2 / 4 == b1 % 16 && x2 % 4 == b2 / 64;
  }

  /** The sextet count of any byte sequence is never 1 more than a multiple of 4. */
  lemma SextetCount(bs: Bytes)
    ensures |Sextets(bs)| % 4 != 1
    ensures |Sextets(bs)| % 4 == 0 <==> |bs| % 3 == 0
  {
    var n := |bs|;
    CountShape(n, |Sextets(bs)|);
  }

  lemma CountShape(n: nat, k: nat)
    requires k == 4 * (n / 3) + (if n % 3 == 0 then 0 else n % 3 + 1)
    ensures k % 4 != 1
    ensures k % 4 == 0 <==> n % 3 == 0
  {
    var q, r := n / 3, n % 3;
    var t := if r == 0 then 0 else r + 1;
    assert k == 4 * q + t;
    assert k % 4 == t;
  }

  /** Decoding the sextets of a byte sequence gives the sequence back. */
  lemma {:induction false} SextetsRoundTrip(bs: Bytes)
    ensures |Sextets(bs)| % 4 != 1
    ensures Unsextets(Sextets(bs)) == bs
    decreases |bs|
  {
    SextetCount(bs);
    if |bs| == 1 {
      OneByte(bs[0]);
    } else if |bs| == 2 {
      TwoBytes(bs[0], bs[1]);
    } else if |bs| >= 3 {
      var xs := Sextets(bs);
      SextetsRoundTrip(bs[3..]);
      ThreeBytes(bs[0], bs[1], bs[2]);
      assert xs[4..] == Sextets(bs[3..]);
      assert Unsextets(xs) == [bs[0], bs[1], bs[2]] + Unsextets(xs[4..]);
      assert bs == [bs[0], bs[1], bs[2]] + bs[3..];
    }
  }

  // ---------------------------------------------------------------------------
  // The alphabet
  // ---------------------------------------------------------------------------

  /** The character of a sextet in the base64 alphabet (RFC 4648, Table 1). */
  function CharOf(x: Sextet): CodeUnit {
    if x < 26 then 65 + x
    else if x < 52 then 97 + (x - 26)
    else if x < 62 then 48 + (x - 52)
    else if x == 62 then Plus
    else Slash
  }

  /** The sextet a character stands for, if it belongs to the alphabet. */
  function ValueOf(c: CodeUnit): Option<Sextet> {
    if 65 <= c <= 90 then Some(c - 65)
    else if 97 <= c <= 122 then Some(c - 97 + 26)
    else if 48 <= c <= 57 then Some(c - 48 + 52)
    else if c == Plus then Some(62)
    else if c == Slash then Some(63)
    else None
  }

  /** The alphabet and its decoding are inverse bijections. */
  lemma AlphabetBijection(x: Sextet, c: CodeUnit)
    ensures ValueOf(CharOf(x)) == Some(x)
    ensures ValueOf(c) == Some(x) <==> CharOf(x) == c
  {
  }

  /** ASCII letters and digits, the characters `buildShareKey` keeps. */
  predicate IsAlnum(c: CodeUnit) {
    65 <= c <= 90 || 97 <= c <= 122 || 48 <= c <= 57
  }

  function Chars(xs: seq<Sextet>): (s: String)
    ensures |s| == |xs|
    ensures forall i | 0 <= i < |xs| :: s[i] == CharOf(xs[i])
  {
    if |xs| == 0 then [] else [CharOf(xs[0])] + Chars(xs[1..])
  }

  /** The sextets of a string of alphabet characters; `None` if any character is outside it. */
  function Values(s: String): (r: Option<seq<Sextet>>)
    ensures r.Some? ==> |r.value| == |s|
  {
    if |s| == 0 then Some([])
    else
      match ValueOf(s[0])
      case None => None
      case Some(x) =>
        match Values(s[1..])
        case None => None
        case Some(rest) => Some([x] + rest)
  }

  lemma {:induction false} ValuesChars(xs: seq<Sextet>)
    ensures Values(Chars(xs)) == Some(xs)
  {
    if |xs| > 0 {
      ValuesChars(xs[1..]);
      AlphabetBijection(xs[0], CharOf(xs[0]));
      assert Chars(xs) == [CharOf(xs[0])] + Chars(xs[1..]);
      ValuesCons(CharOf(xs[0]), Chars(xs[1..]), xs[0], xs[1..]);
      assert xs == [xs[0]] + xs[1..];
    }
  }

  lemma ValuesCons(c: CodeUnit, s: String, x: Sextet, rest: seq<Sextet>)
    requires ValueOf(c) == Some(x) && Values(s) == Some(rest)
    ensures Values([c] + s) == Some([x] + rest)
  {
    assert ([c] + s)[1..] == s;
  }

  // ---------------------------------------------------------------------------
  // btoa / atob
  // ---------------------------------------------------------------------------

  function Padding(n: nat): (s: String)
    ensures |s| == n
    ensures forall i | 0 <= i < n :: s[i] == PadChar
  {
    seq(n, _ => PadChar)
  }

  /** `btoa` of a binary string: the alphabet characters, then `=` up to a multiple of 4. */
  function Encode(bs: Bytes): (s: String)
    ensures |s| % 4 == 0
    ensures |s| == 4 * (|bs| / 3) + (if |bs| % 3 == 0 then 0 else 4)
  {
    var xs := Sextets(bs);
    Chars(xs) + Padding(PadCount(bs))
  }

  /** How many `=` `btoa` appends: none, two or one for a final group of 0, 1 or 2 bytes. */
  function PadCount(bs: Bytes): (n: nat)
    ensures n <= 2
    ensures (|Sextets(bs)| + n) % 4 == 0
    ensures n == (4 - |Sextets(bs)| % 4) % 4
  {
    SextetCount(bs);
    if |bs| % 3 == 0 then 0 else 3 - |bs| % 3
  }

  /** ASCII whitespace as the forgiving decoder removes it: TAB, LF, FF, CR and SPACE. */
  predicate IsAsciiWhitespace(c: CodeUnit) {
    c == 9 || c == 10 || c == 12 || c == 13 || c == 32
  }

  function RemoveAsciiWhitespace(s: String): (r: String)
    ensures |r| <= |s|
    ensures forall i | 0 <= i < |r| :: !IsAsciiWhitespace(r[i])
  {
    if |s| == 0 then []
    else if IsAsciiWhitespace(s[0]) then RemoveAsciiWhitespace(s[1..])
    else [s[0]] + RemoveAsciiWhitespace(s[1..])
  }

  /** Step 2 of the forgiving decoder: a length divisible by 4 loses one or two final `=`. */
  function StripPadding(d: String): (r: String)
    ensures r <= d && |d| - 2 <= |r|
  {
    if |d| % 4 != 0 then d
    else if |d| >= 2 && d[|d| - 1] == PadChar && d[|d| - 2] == PadChar then d[..|d| - 2]
    else if |d| >= 1 && d[|d| - 1] == PadChar then d[..|d| - 1]
    else d
  }

  /** `atob`: the WHATWG forgiving-base64 decode; `None` where `atob` throws. */
  function Decode(s: String): Option<Bytes> {
    var d := StripPadding(RemoveAsciiWhitespace(s));
    if |d| % 4 == 1 then None
    else
      match Values(d)
      case None => None
      case Some(xs) => Some(Unsextets(xs))
  }

  lemma {:induction false} NoWhitespaceUnchanged(s: String)
    requires forall i | 0 <= i < |s| :: !IsAsciiWhitespace(s[i])
    ensures RemoveAsciiWhitespace(s) == s
  {
    if |s| > 0 {
      NoWhitespaceUnchanged(s[1..]);
      assert s == [s[0]] + s[1..];
    }
  }

  /** A pad-free text followed by at most two `=` (to a multiple of 4) loses exactly that padding. */
  lemma StripPaddingOfPadded(c: String, n: nat)
    requires n <= 2 && (|c| + n) % 4 == 0
    requires n == 1 ==> |c| > 0
    requires forall i | 0 <= i < |c| :: c[i] != PadChar
    ensures StripPadding(c + Padding(n)) == c
  {
    var s := c + Padding(n);
    assert s[..|c|] == c;
    if n == 0 {
      assert s == c;
      if |c| > 0 {
        assert s[|s| - 1] == c[|c| - 1];
      }
    } else if n == 1 {
      assert s[|s| - 2] == c[|c| - 1];
    }
  }

  /** `btoa` output has no whitespace and no `=` before its padding. */
  lemma EncodeChars(bs: Bytes)
    ensures forall i | 0 <= i < |Chars(Sextets(bs))| ::
      Chars(Sextets(bs))[i] != PadChar && !IsAsciiWhitespace(Chars(Sextets(bs))[i])
    ensures forall i | 0 <= i < |Encode(bs)| :: !IsAsciiWhitespace(Encode(bs)[i])
  {
  }

  /** `atob(btoa(b)) == b` for every binary string `b` (RFC 4648 section 4). */
  lemma DecodeEncode(bs: Bytes)
    ensures Decode(Encode(bs)) == Some(bs)
  {
    var xs := Sextets(bs);
    var c := Chars(xs);
    SextetsRoundTrip(bs);
    EncodeChars(bs);
    NoWhitespaceUnchanged(Encode(bs));
    StripPaddingOfPadded(c, PadCount(bs));
    ValuesChars(xs);
  }

  /** `btoa` output never carries more than two `=`, all of them at the end. */
  lemma EncodePaddingShape(bs: Bytes)
    ensures var s := Encode(bs); var k := |Chars(Sextets(bs))|;
      k <= |s| <= k + 2 &&
      (forall i | 0 <= i < k :: s[i] != PadChar) &&
      (forall i | k <= i < |s| :: s[i] == PadChar)
  {
  }

  /** `generateRandomPassword`: the base64 text of 32 random bytes. */
  function RandomPassword(random: Bytes): (p: String)
    requires |random| == 32
    ensures |p| == 44
    ensures p[43] == PadChar && p[42] != PadChar
    ensures forall i | 0 <= i < 43 :: ValueOf(p[i]).Some?
  {
    var xs := Sextets(random);
    assert |xs| == 43;
    forall i | 0 <= i < 43 ensures ValueOf(Encode(random)[i]).Some? {
      AlphabetBijection(xs[i], Encode(random)[i]);
    }
    Encode(random)
  }

  // ---------------------------------------------------------------------------
  // base64url (RFC 4648 section 5) as utils/share.ts derives it
  // ---------------------------------------------------------------------------

  /** The base64url character of a sextet: `-` and `_` replace `+` and `/`. */
  function UrlCharOf(x: Sextet): CodeUnit {
    if x == 62 then Minus else if x == 63 then Underscore else CharOf(x)
  }

  /** `.replace(/\+/g, '-').replace(/\//g, '_')`. */
  function ToUrlAlphabet(s: String): (r: String)
    ensures |r| == |s|
    ensures forall i | 0 <= i < |s| ::
      r[i] == (if s[i] == Plus then Minus else if s[i] == Slash then Underscore else s[i])
  {
    seq(|s|, i requires 0 <= i < |s| => if s[i] == Plus then Minus else if s[i] == Slash then Underscore else s[i])
  }

  /** `.replace(/-/g, '+').replace(/_/g, '/')`. */
  function FromUrlAlphabet(s: String): (r: String)
    ensures |r| == |s|
    ensures forall i | 0 <= i < |s| ::
      r[i] == (if s[i] == Minus then Plus else if s[i] == Underscore then Slash else s[i])
  {
    seq(|s|, i requires 0 <= i < |s| => if s[i] == Minus then Plus else if s[i] == Underscore then Slash else s[i])
  }

  /** `.replace(/=+$/g, '')`: every trailing `=` goes. */
  function StripTrailingPad(s: String): (r: String)
    ensures r <= s
    ensures r == [] || r[|r| - 1] != PadChar
    ensures forall i | |r| <= i < |s| :: s[i] == PadChar
  {
    if |s| > 0 && s[|s| - 1] == PadChar then StripTrailingPad(s[..|s| - 1]) else s
  }

  /** base64url without padding: the encoder side of utils/share.ts on bytes. */
  function UrlEncode(bs: Bytes): String {
    StripTrailingPad(ToUrlAlphabet(Encode(bs)))
  }

  /** The re-padding of `fromBase64Url`: `=` up to the next multiple of 4. */
  function Repad(s: String): (r: String)
    ensures |r| % 4 == 0
    ensures s <= r && |r| < |s| + 4
    ensures forall k | |s| <= k < |r| :: r[k] == PadChar
  {
    s + Padding((4 - |s| % 4) % 4)
  }

  /** The decoder side of utils/share.ts on bytes; `None` where `atob` throws. */
  function UrlDecode(s: String): Option<Bytes> {
    Decode(Repad(FromUrlAlphabet(s)))
  }

  /** The URL-safe text is exactly the sextets in the base64url alphabet, with no padding. */
  lemma UrlEncodeIsUrlAlphabet(bs: Bytes)
    ensures var xs := Sextets(bs); var u := UrlEncode(bs);
      |u| == |xs| && forall i | 0 <= i < |xs| :: u[i] == UrlCharOf(xs[i])
  {
    var xs := Sextets(bs);
    var c := Chars(xs);
    var t := ToUrlAlphabet(Encode(bs));
    assert forall i | 0 <= i < |c| :: t[i] == UrlCharOf(xs[i]) && t[i] != PadChar;
    assert forall i | |c| <= i < |t| :: t[i] == PadChar;
    StripTrailingPadPrefix(t, |c|);
  }

  /** Stripping trailing `=` from a pad-free prefix followed by padding leaves that prefix. */
  lemma {:induction false} StripTrailingPadPrefix(t: String, k: nat)
    requires k <= |t|
    requires k == 0 || t[k - 1] != PadChar
    requires forall i | k <= i < |t| :: t[i] == PadChar
    ensures StripTrailingPad(t) == t[..k]
    decreases |t|
  {
    if |t| > k {
      StripTrailingPadPrefix(t[..|t| - 1], k);
      assert t[..|t| - 1][..k] == t[..k];
    } else {
      assert t == t[..k];
    }
  }

  /** URL-safe output contains no `+`, `/` or `=`. */
  lemma UrlEncodeClean(bs: Bytes)
    ensures forall i | 0 <= i < |UrlEncode(bs)| ::
      UrlEncode(bs)[i] !in {Plus, Slash, PadChar}
  {
    var xs := Sextets(bs);
    var u := UrlEncode(bs);
    UrlEncodeIsUrlAlphabet(bs);
    forall i | 0 <= i < |u| ensures u[i] !in {Plus, Slash, PadChar} {
      UrlCharClean(xs[i]);
    }
  }

  lemma UrlCharClean(x: Sextet)
    ensures UrlCharOf(x) !in {Plus, Slash, PadChar}
  {
  }

  /** Mapping the URL-safe text back to the standard alphabet gives the unpadded `btoa` text. */
  lemma FromUrlAlphabetOfEncode(bs: Bytes)
    ensures FromUrlAlphabet(UrlEncode(bs)) == Chars(Sextets(bs))
  {
    var xs := Sextets(bs);
    var u := UrlEncode(bs);
    UrlEncodeIsUrlAlphabet(bs);
    var f := FromUrlAlphabet(u);
    var c := Chars(xs);
    forall i | 0 <= i < |f|
      ensures f[i] == c[i]
    {
      assert u[i] == UrlCharOf(xs[i]);
    }
  }

  /** Mapping back to the standard alphabet and re-padding restores the `btoa` text. */
  lemma UrlRestoresStandard(bs: Bytes)
    ensures Repad(FromUrlAlphabet(UrlEncode(bs))) == Encode(bs)
  {
    var c := Chars(Sextets(bs));
    var n := PadCount(bs);
    assert FromUrlAlphabet(UrlEncode(bs)) == c by {
      FromUrlAlphabetOfEncode(bs);
    }
    assert Repad(c) == c + Padding(n) by {
      assert |c| == |Sextets(bs)|;
    }
  }

  /** base64url round trip on bytes: `UrlDecode(UrlEncode(b)) == b` (RFC 4648 section 5). */
  lemma UrlRoundTrip(bs: Bytes)
    ensures UrlDecode(UrlEncode(bs)) == Some(bs)
  {
    UrlRestoresStandard(bs);
    DecodeEncode(bs);
  }

  /** A token whose length is 1 more than a multiple of 4 is rejected whatever its characters. */
  lemma UrlDecodeRejectsLengthOneModFour(s: String)
    requires |s| % 4 == 1
    requires forall i | 0 <= i < |s| :: !IsAsciiWhitespace(s[i])
    ensures UrlDecode(s) == None
  {
    var f := FromUrlAlphabet(s);
    var p := Repad(f);
    assert forall i | 0 <= i < |p| :: !IsAsciiWhitespace(p[i]);
    NoWhitespaceUnchanged(p);
    var d := StripPadding(p);
    assert |d| >= |p| - 2 && |d| <= |p|;
    if |d| % 4 != 1 {
      assert |d| == |p| - 2;
      assert p[|p| - 3] == PadChar;
      assert d[|d| - 1] == PadChar;
      ValuesRejectsPad(d);
    }
  }

  lemma {:induction false} ValuesRejectsPad(s: String)
    requires |s| > 0 && s[|s| - 1] == PadChar
    ensures Values(s) == None
    decreases |s|
  {
    if |s| > 1 && ValueOf(s[0]).Some? {
      assert s[1..][|s[1..]| - 1] == PadChar;
      ValuesRejectsPad(s[1..]);
    }
  }
}
