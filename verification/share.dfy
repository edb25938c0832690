/**
 * utils/share.ts: share links. A link carries the base64url text of a JSON
 * payload in its query parameter `s` and the password of the ciphertext in
 * its fragment parameter `k`. The payload is checked by a base-36 checksum
 * and by the display id derived from the signature; v1 payloads (plaintext)
 * are still read, v2 payloads (ciphertext) are written.
 *
 * `URL` parsing and serialisation are abstract: a `Url` is the address
 * before `?`, the query text and the fragment text. `JSON.stringify` and
 * `JSON.parse` are the fields of a `Json` value, assumed to round-trip flat
 * objects of strings and finite numbers.
 */
module Share {
  import opened Wrappers
  import opened Text
  import opened Unicode
  import opened JsValues
  import Hash
  import Base64
  import Encryption
  import UrlParams

  /** `s`, the query parameter holding the payload. */
  const ShareParamKey: String := [115]
  /** `k`, the fragment parameter holding the password. */
  const KeyHashParam: String := [107]
  const ShareVersion: int := 2
  const LegacyVersion: int := 1
  const MaxMessageLength: nat := 500
  const MinKeyLength: nat := 10
  const MaxKeyLength: nat := 128
  const ShareKeyLength: nat := 32
  /** `|`, the separator of checksum seeds. */
  const Bar: CodeUnit := 124
  /** `SN-`, the prefix of display ids. */
  const IdPrefix: String := [83, 78, 45]
  /** `snowflake::`, the prefix of the text hashed into a display id. */
  const IdSeedPrefix: String := [115, 110, 111, 119, 102, 108, 97, 107, 101, 58, 58]

  // ---------------------------------------------------------------------------
  // toBase64Url / fromBase64Url
  // ---------------------------------------------------------------------------

  /**
   * `toBase64Url(input)`: the UTF-8 bytes of the text (via
   * `unescape(encodeURIComponent(…))`) in unpadded base64url; `None` where
   * `encodeURIComponent` throws on a lone surrogate.
   */
  function ToBase64Url(input: String): (r: Option<String>)
    ensures r.Some? <==> WellFormed16(input)
  {
    match UriEncodeBytes(input)
    case None => None
    case Some(bs) => Some(Base64.UrlEncode(bs))
  }

  /** `fromBase64Url(input)`; `None` where `atob` or `decodeURIComponent` throws. */
  function FromBase64Url(input: String): Option<String> {
    match Base64.UrlDecode(input)
    case None => None
    case Some(bs) => UriDecodeBytes(bs)
  }

  /** Every well-formed text survives the base64url round trip (RFC 4648 section 5). */
  lemma Base64UrlRoundTrip(input: String)
    requires WellFormed16(input)
    ensures ToBase64Url(input).Some?
    ensures FromBase64Url(ToBase64Url(input).value) == Some(input)
  {
    UriRoundTrip(input);
    Base64.UrlRoundTrip(UriEncodeBytes(input).value);
  }

  /** A base64url character: an ASCII letter or digit, `-` or `_`. */
  predicate IsUrlSafe(c: CodeUnit) {
    Base64.IsAlnum(c) || c == Base64.Minus || c == Base64.Underscore
  }

  /** The encoder's output uses only the base64url alphabet: no `+`, `/`, `=` (nor `&`). */
  lemma Base64UrlAlphabet(input: String)
    requires WellFormed16(input)
    ensures forall k | 0 <= k < |ToBase64Url(input).value| :: IsUrlSafe(ToBase64Url(input).value[k])
    ensures input != [] ==> ToBase64Url(input).value != []
  {
    var bs := UriEncodeBytes(input).value;
    Base64.UrlEncodeIsUrlAlphabet(bs);
    if input != [] {
      NonEmptyUtf8(input);
    }
  }

  /** Non-empty well-formed text has at least one UTF-8 byte. */
  lemma NonEmptyUtf8(input: String)
    requires WellFormed16(input) && input != []
    ensures |UriEncodeBytes(input).value| > 0
  {
    var cps := Utf16Scalars(input);
    Utf16RoundTrip(input);
    assert |cps| > 0;
    assert Utf8Encode(cps) == Utf8Encode1(cps[0]) + Utf8Encode(cps[1..]);
  }

  // ---------------------------------------------------------------------------
  // Checksums and display ids
  // ---------------------------------------------------------------------------

  /** The template `${v}|${body}|${sig}|${ts}|${id}` of both checksum versions. */
  function ChecksumSeed(version: int, body: String, sig: String, ts: JsNumber, id: String): String {
    Decimal(version) + [Bar] + body + [Bar] + sig + [Bar] + NumberToString(ts) + [Bar] + id
  }

  /** `hashString(seed).toString(36)`: at most six base-36 digits, since the hash is at most 2^31. */
  function Checksum(version: int, body: String, sig: String, ts: JsNumber, id: String): (c: String)
    ensures 1 <= |c| <= 6
    ensures forall k | 0 <= k < |c| :: IsDigitOf(c[k], 36)
  {
    var h := Hash.Hash(ChecksumSeed(version, body, sig, ts, id));
    HashFitsSixDigits(h);
    Base36(h)
  }

  /** The checksum is a lossless rendering of the hash of its seed. */
  lemma ChecksumDenotesHash(version: int, body: String, sig: String, ts: JsNumber, id: String)
    ensures RadixValue(Checksum(version, body, sig, ts, id), 36) == Hash.Hash(ChecksumSeed(version, body, sig, ts, id))
  {
    RadixRoundTrip(Hash.Hash(ChecksumSeed(version, body, sig, ts, id)), 36);
  }

  /** `computeChecksumV1`: over the plaintext message. */
  function ChecksumV1(m: String, sig: String, ts: JsNumber, id: String): String {
    Checksum(LegacyVersion, m, sig, ts, id)
  }

  /** `computeChecksumV2`: over the ciphertext. */
  function ChecksumV2(ct: String, sig: String, ts: JsNumber, id: String): String {
    Checksum(ShareVersion, ct, sig, ts, id)
  }

  /** 36^6 = 2176782336 exceeds 2^31, the largest hash. */
  lemma HashFitsSixDigits(h: nat)
    requires h <= Hash.TwoTo31
    ensures |Base36(h)| <= 6
  {
    assert Pow(36, 6) == 2176782336 by {
      assert Pow(36, 3) == 46656;
      assert Pow(36, 6) == 36 * 36 * 36 * Pow(36, 3);
    }
    RadixLength(h, 36, 6);
  }

  predicate IsUpperAlnum(c: CodeUnit) {
    48 <= c <= 57 || 65 <= c <= 90
  }

  /**
   * `getSnowflakeId(signature)`: `SN-` and the base-36 hash of
   * `snowflake::` + signature, upper-cased and zero-padded to 7 characters.
   * The hash has at most 6 base-36 digits, so the first of the 7 is always `0`.
   */
  function GetSnowflakeId(signature: String): (id: String)
    ensures |id| == 10
    ensures id[..3] == IdPrefix
    ensures forall k | 3 <= k < 10 :: IsUpperAlnum(id[k])
    ensures id[3] == 48
  {
    var h := Hash.Hash(IdSeedPrefix + signature);
    HashFitsSixDigits(h);
    var digits := SliceLast(PadStartZero(AsciiUpper(Base36(h)), 7), 7);
    IdPrefix + digits
  }

  /** Reads the number back from a display id: lower-case the 7 digits and read them in base 36. */
  function IdNumber(id: String): Option<nat> {
    if |id| == 10 && id[..3] == IdPrefix && forall k | 3 <= k < 10 :: IsUpperAlnum(id[k]) then
      var digits := AsciiLower(id[3..]);
      assert forall k | 0 <= k < 7 :: IsDigitOf(digits[k], 36) by {
        forall k | 0 <= k < 7 ensures IsDigitOf(digits[k], 36) {
          assert IsUpperAlnum(id[3 + k]);
        }
      }
      Some(RadixValue(digits, 36))
    else None
  }

  /** Lower-casing undoes upper-casing on base-36 digits. */
  lemma LowerUpperDigits(s: String)
    requires forall k | 0 <= k < |s| :: IsDigitOf(s[k], 36)
    ensures AsciiLower(AsciiUpper(s)) == s
  {
    forall k | 0 <= k < |s| ensures AsciiLower(AsciiUpper(s))[k] == s[k] {
      assert IsDigitOf(s[k], 36);
    }
  }

  /** The display id is `SN-` followed by the zero-padded upper-case digits of the hash. */
  lemma IdDigits(signature: String)
    ensures var b := Base36(Hash.Hash(IdSeedPrefix + signature));
      |b| <= 7 && GetSnowflakeId(signature) == IdPrefix + (Zeros(7 - |b|) + AsciiUpper(b))
  {
    var h := Hash.Hash(IdSeedPrefix + signature);
    HashFitsSixDigits(h);
    PaddedHashDigits(Base36(h));
  }

  lemma PaddedHashDigits(b: String)
    requires |b| <= 6
    ensures SliceLast(PadStartZero(AsciiUpper(b), 7), 7) == Zeros(7 - |b|) + AsciiUpper(b)
  {
    var u := AsciiUpper(b);
    var p := PadStartZero(u, 7);
    assert p == Zeros(7 - |u|) + u;
    assert SliceLast(p, 7) == p;
  }

  /** An id whose digits are the zero-padded upper-case form of `b` reads back as `b`'s value. */
  lemma ReadPaddedDigits(b: String)
    requires forall k | 0 <= k < |b| :: IsDigitOf(b[k], 36)
    requires |b| <= 7
    ensures IdNumber(IdPrefix + (Zeros(7 - |b|) + AsciiUpper(b))) == Some(RadixValue(b, 36))
  {
    PaddedValue(7 - |b|, b);
    IdNumberOfDigits(Zeros(7 - |b|) + AsciiUpper(b));
  }

  predicate UpperDigits(u: String) {
    forall k | 0 <= k < |u| :: IsUpperAlnum(u[k])
  }

  /** An id made of `SN-` and seven upper-case base-36 digits reads as those digits' value. */
  lemma IdNumberOfDigits(u: String)
    requires |u| == 7 && UpperDigits(u)
    ensures var d := AsciiLower(u);
      (forall k | 0 <= k < |d| :: IsDigitOf(d[k], 36)) && IdNumber(IdPrefix + u) == Some(RadixValue(d, 36))
  {
    var id := IdPrefix + u;
    assert id[..3] == IdPrefix && id[3..] == u;
    forall k | 3 <= k < 10 ensures IsUpperAlnum(id[k]) {
      assert id[k] == u[k - 3];
    }
    var d := AsciiLower(u);
    forall k | 0 <= k < |d| ensures IsDigitOf(d[k], 36) {
      assert IsUpperAlnum(u[k]);
    }
  }

  /** Zero-padded upper-case digits are upper-case alphanumerics whose lower-case reading has `b`'s value. */
  lemma PaddedValue(z: nat, b: String)
    requires forall k | 0 <= k < |b| :: IsDigitOf(b[k], 36)
    ensures var u := Zeros(z) + AsciiUpper(b);
      UpperDigits(u) &&
      (forall k | 0 <= k < |u| :: IsDigitOf(AsciiLower(u)[k], 36)) &&
      RadixValue(AsciiLower(u), 36) == RadixValue(b, 36)
  {
    PaddedDigits(z, b);
    RadixLeadingZeros(z, b, 36);
  }

  lemma PaddedDigits(z: nat, b: String)
    requires forall k | 0 <= k < |b| :: IsDigitOf(b[k], 36)
    ensures forall k | 0 <= k < z + |b| :: IsUpperAlnum((Zeros(z) + AsciiUpper(b))[k])
    ensures AsciiLower(Zeros(z) + AsciiUpper(b)) == Zeros(z) + b
  {
    var d := Zeros(z) + b;
    RadixLeadingZeros(z, b, 36);
    assert AsciiUpper(d) == Zeros(z) + AsciiUpper(b);
    LowerUpperDigits(d);
    forall k | 0 <= k < z + |b| ensures IsUpperAlnum(AsciiUpper(d)[k]) {
      assert IsDigitOf(d[k], 36);
    }
  }

  /** The display id encodes the hash of its seed exactly. */
  lemma IdEncodesHash(signature: String)
    ensures IdNumber(GetSnowflakeId(signature)) == Some(Hash.Hash(IdSeedPrefix + signature))
  {
    var h := Hash.Hash(IdSeedPrefix + signature);
    IdDigits(signature);
    ReadPaddedDigits(Base36(h));
    RadixRoundTrip(h, 36);
  }

  /** Two signatures share a display id exactly when their seeds hash alike. */
  lemma SameIdIffSameHash(sig1: String, sig2: String)
    ensures GetSnowflakeId(sig1) == GetSnowflakeId(sig2) <==>
      Hash.Hash(IdSeedPrefix + sig1) == Hash.Hash(IdSeedPrefix + sig2)
  {
    IdEncodesHash(sig1);
    IdEncodesHash(sig2);
  }

  // ---------------------------------------------------------------------------
  // The share key in the fragment
  // ---------------------------------------------------------------------------

  /** `.replace(/[^a-zA-Z0-9]/g, '')`. */
  function KeepAlnum(s: String): (r: String)
    ensures |r| <= |s|
    ensures forall k | 0 <= k < |r| :: Base64.IsAlnum(r[k])
    ensures (forall k | 0 <= k < |s| :: Base64.IsAlnum(s[k])) ==> r == s
  {
    if |s| == 0 then []
    else if Base64.IsAlnum(s[0]) then [s[0]] + KeepAlnum(s[1..])
    else KeepAlnum(s[1..])
  }

  /** `buildShareKey()`: the first 32 letters and digits of a random password, or all of them when fewer. */
  function BuildShareKey(random: Bytes): (key: String)
    requires |random| == Encryption.PasswordBytes
    ensures |key| <= ShareKeyLength
    ensures forall k | 0 <= k < |key| :: Base64.IsAlnum(key[k])
    ensures key <= KeepAlnum(Encryption.GenerateRandomPassword(random))
    ensures |key| == if |KeepAlnum(Encryption.GenerateRandomPassword(random))| <= ShareKeyLength
      then |KeepAlnum(Encryption.GenerateRandomPassword(random))| else ShareKeyLength
  {
    var a := KeepAlnum(Encryption.GenerateRandomPassword(random));
    if |a| <= ShareKeyLength then a else a[..ShareKeyLength]
  }

  /** Nothing bounds the key from below: 32 bytes of 0xFF give the one-character key `8`. */
  lemma ShortShareKey()
    ensures BuildShareKey(seq(32, _ => 255)) == [56]
  {
    var r: Bytes := seq(32, _ => 255);
    AllOnesSextets(10, r[..30]);
    assert r == r[..30] + [255, 255];
    SextetsAppend(r[..30], [255, 255]);
    var xs := Base64.Sextets(r);
    assert xs == seq(40, _ => 63) + [63, 63, 60];
    var p := Encryption.GenerateRandomPassword(r);
    assert p == Base64.Chars(xs) + [Base64.PadChar];
    assert p == seq(42, _ => Base64.Slash) + [56, Base64.PadChar];
    KeepAlnumNone(seq(42, _ => Base64.Slash));
    KeepAlnumAppend(seq(42, _ => Base64.Slash), [56, Base64.PadChar]);
  }

  lemma {:induction false} AllOnesSextets(n: nat, bs: Bytes)
    requires |bs| == 3 * n && forall k | 0 <= k < |bs| :: bs[k] == 255
    ensures Base64.Sextets(bs) == seq(4 * n, _ => 63)
    decreases n
  {
    if n > 0 {
      AllOnesSextets(n - 1, bs[3..]);
    }
  }

  /** The four sextets of three whole bytes. */
  function Quad(x: Byte, y: Byte, z: Byte): seq<Base64.Sextet> {
    [x / 4, (x % 4) * 16 + y / 16, (y % 16) * 4 + z / 64, z % 64]
  }

  lemma SextetsCons(bs: Bytes)
    requires |bs| >= 3
    ensures Base64.Sextets(bs) == Quad(bs[0], bs[1], bs[2]) + Base64.Sextets(bs[3..])
  {
  }

  lemma {:induction false} SextetsAppend(a: Bytes, b: Bytes)
    requires |a| % 3 == 0
    ensures Base64.Sextets(a + b) == Base64.Sextets(a) + Base64.Sextets(b)
    decreases |a|
  {
    if |a| > 0 {
      assert (a + b)[0] == a[0] && (a + b)[1] == a[1] && (a + b)[2] == a[2];
      assert (a + b)[3..] == a[3..] + b;
      SextetsAppend(a[3..], b);
      SextetsCons(a + b);
      SextetsCons(a);
    } else {
      assert a + b == b;
    }
  }

  lemma {:induction false} KeepAlnumNone(s: String)
    requires forall k | 0 <= k < |s| :: !Base64.IsAlnum(s[k])
    ensures KeepAlnum(s) == []
  {
    if |s| > 0 {
      KeepAlnumNone(s[1..]);
    }
  }

  lemma {:induction false} KeepAlnumAppend(a: String, b: String)
    ensures KeepAlnum(a + b) == KeepAlnum(a) + KeepAlnum(b)
  {
    if |a| > 0 {
      assert (a + b)[1..] == a[1..] + b;
      KeepAlnumAppend(a[1..], b);
    } else {
      assert a + b == b;
    }
  }

  /** The address before `?`, the query text (without `?`) and the fragment text (without `#`). */
  datatype Url = Url(address: String, query: String, fragment: String)

  /**
   * `readShareKeyFromHash(url)`: the first `k` of the fragment, read through
   * the `URLSearchParams` constructor, accepted with 10 to 128 characters.
   */
  function ReadShareKey(url: Url): (key: Option<String>)
    ensures key.Some? ==> MinKeyLength <= |key.value| <= MaxKeyLength
    ensures key.Some? ==> key == UrlParams.Get(UrlParams.ParseInit(url.fragment), KeyHashParam)
    ensures key.Some? <==>
      url.fragment != [] &&
      UrlParams.Get(UrlParams.ParseInit(url.fragment), KeyHashParam).Some? &&
      MinKeyLength <= |UrlParams.Get(UrlParams.ParseInit(url.fragment), KeyHashParam).value| <= MaxKeyLength
  {
    if url.fragment == [] then None
    else
      match UrlParams.Get(UrlParams.ParseInit(url.fragment), KeyHashParam)
      case None => None
      case Some(key) => if key == [] || |key| < MinKeyLength || |key| > MaxKeyLength then None else Some(key)
  }

  /** A fragment holding only `k=<key>` yields the key exactly when its length is in [10, 128]. */
  lemma ReadWrittenKey(address: String, query: String, key: String)
    requires UrlParams.Amp !in key
    ensures var frag := UrlParams.Serialize(UrlParams.Set([], KeyHashParam, key));
      ReadShareKey(Url(address, query, frag)) == (if MinKeyLength <= |key| <= MaxKeyLength then Some(key) else None)
  {
    var frag := UrlParams.Serialize(UrlParams.Set([], KeyHashParam, key));
    KeyFragmentReads(key);
    ReadShareKeyOf(Url(address, query, frag), key);
  }

  lemma KeyFragmentReads(key: String)
    requires UrlParams.Amp !in key
    ensures var frag := UrlParams.Serialize(UrlParams.Set([], KeyHashParam, key));
      frag != [] && UrlParams.Get(UrlParams.ParseInit(frag), KeyHashParam) == Some(key)
  {
    UrlParams.ReadSingleParam(KeyHashParam, key);
    assert UrlParams.Set([], KeyHashParam, key) == [UrlParams.Param(KeyHashParam, key)];
    UrlParams.ParseInitSerialize([UrlParams.Param(KeyHashParam, key)]);
  }

  lemma ReadShareKeyOf(url: Url, key: String)
    requires url.fragment != [] && UrlParams.Get(UrlParams.ParseInit(url.fragment), KeyHashParam) == Some(key)
    ensures ReadShareKey(url) == if MinKeyLength <= |key| <= MaxKeyLength then Some(key) else None
  {
  }

  // ---------------------------------------------------------------------------
  // Payloads
  // ---------------------------------------------------------------------------

  /** The two payload versions: v1 carries the message in clear, v2 its ciphertext. */
  datatype Payload =
    | Legacy(m: String, sig: String, ts: JsNumber, id: String, c: String)
    | Sealed(ct: String, sig: String, ts: JsNumber, id: String, c: String)
  {
    function Version(): int {
      if Legacy? then LegacyVersion else ShareVersion
    }

    function Body(): String {
      if Legacy? then m else ct
    }
  }

  /** The checksum a payload should carry. */
  function ExpectedChecksum(p: Payload): String {
    Checksum(p.Version(), p.Body(), p.sig, p.ts, p.id)
  }

  /** Both integrity checks of `parseShareUrl`: the checksum and the id derived from the signature. */
  predicate Intact(p: Payload) {
    p.c == ExpectedChecksum(p) && p.id == GetSnowflakeId(p.sig)
  }

  const KeyV: String := [118]
  const KeyM: String := [109]
  const KeyCt: String := [99, 116]
  const KeySig: String := [115, 105, 103]
  const KeyTs: String := [116, 115]
  const KeyId: String := [105, 100]
  const KeyC: String := [99]

  /** The object `JSON.stringify` is given for a payload. */
  function PayloadObject(p: Payload): (v: JsValue)
    ensures v.Obj?
  {
    Obj(map[
      KeyV := Num(Finite(p.Version())),
      (if p.Legacy? then KeyM else KeyCt) := Str(p.Body()),
      KeySig := Str(p.sig),
      KeyTs := Num(p.ts),
      KeyId := Str(p.id),
      KeyC := Str(p.c)])
  }

  /**
   * The type checks and version dispatch of `parseShareUrl` on a parsed JSON
   * value: a falsy value or a non-number `v` is refused, `v === 1` reads a
   * v1 payload, `v === 2` a v2 payload, any other `v` is refused; every
   * field must have its declared type.
   */
  function Classify(parsed: JsValue): (r: Option<Payload>)
    ensures r.Some? ==> Truthy(parsed) && GetProp(parsed, KeyV) == Num(Finite(r.value.Version()))
    ensures r.Some? ==>
      GetProp(parsed, KeySig) == Str(r.value.sig) && GetProp(parsed, KeyTs) == Num(r.value.ts) &&
      GetProp(parsed, KeyId) == Str(r.value.id) && GetProp(parsed, KeyC) == Str(r.value.c)
    ensures r.Some? && r.value.Legacy? ==> GetProp(parsed, KeyM) == Str(r.value.m)
    ensures r.Some? && r.value.Sealed? ==> GetProp(parsed, KeyCt) == Str(r.value.ct)
    ensures Truthy(parsed) && GetProp(parsed, KeyV) == Num(Finite(LegacyVersion)) ==>
      (r.Some? <==> GetProp(parsed, KeyM).Str? && GetProp(parsed, KeySig).Str? && GetProp(parsed, KeyTs).Num? &&
                    GetProp(parsed, KeyId).Str? && GetProp(parsed, KeyC).Str?)
    ensures Truthy(parsed) && GetProp(parsed, KeyV) == Num(Finite(ShareVersion)) ==>
      (r.Some? <==> GetProp(parsed, KeyCt).Str? && GetProp(parsed, KeySig).Str? && GetProp(parsed, KeyTs).Num? &&
                    GetProp(parsed, KeyId).Str? && GetProp(parsed, KeyC).Str?)
  {
    if !Truthy(parsed) then None
    else
      match GetProp(parsed, KeyV)
      case Num(v) =>
        var sig, ts, id, c := GetProp(parsed, KeySig), GetProp(parsed, KeyTs), GetProp(parsed, KeyId), GetProp(parsed, KeyC);
        if v == Finite(LegacyVersion) then
          var m := GetProp(parsed, KeyM);
          if m.Str? && sig.Str? && ts.Num? && id.Str? && c.Str? then Some(Legacy(m.s, sig.s, ts.num, id.s, c.s)) else None
        else if v != Finite(ShareVersion) then None
        else
          var ct := GetProp(parsed, KeyCt);
          if ct.Str? && sig.Str? && ts.Num? && id.Str? && c.Str? then Some(Sealed(ct.s, sig.s, ts.num, id.s, c.s)) else None
      case _ => None
  }

  /** Classification reads back every payload object. */
  lemma ClassifyPayloadObject(p: Payload)
    ensures Classify(PayloadObject(p)) == Some(p)
  {
    var v := PayloadObject(p);
    assert KeyV != KeyM && KeyV != KeyCt && KeyV != KeySig && KeyV != KeyTs && KeyV != KeyId && KeyV != KeyC;
    assert KeyM != KeySig && KeyM != KeyTs && KeyM != KeyId && KeyM != KeyC;
    assert KeyCt != KeySig && KeyCt != KeyTs && KeyCt != KeyId && KeyCt != KeyC;
    assert KeySig != KeyTs && KeySig != KeyId && KeySig != KeyC;
    assert KeyTs != KeyId && KeyTs != KeyC && KeyId != KeyC;
    assert GetProp(v, KeyV) == Num(Finite(p.Version()));
    assert GetProp(v, KeySig) == Str(p.sig);
    assert GetProp(v, KeyTs) == Num(p.ts);
    assert GetProp(v, KeyId) == Str(p.id);
    assert GetProp(v, KeyC) == Str(p.c);
    if p.Legacy? {
      assert GetProp(v, KeyM) == Str(p.m);
    } else {
      assert GetProp(v, KeyCt) == Str(p.ct);
    }
  }

  /** A `v` that is not a number, or a number other than 1 and 2, is refused. */
  lemma UnknownVersionRefused(parsed: JsValue)
    requires !GetProp(parsed, KeyV).Num? ||
      (GetProp(parsed, KeyV).num != Finite(LegacyVersion) && GetProp(parsed, KeyV).num != Finite(ShareVersion))
    ensures Classify(parsed) == None
  {
  }

  // ---------------------------------------------------------------------------
  // JSON, abstract
  // ---------------------------------------------------------------------------

  datatype Json = Json(stringify: JsValue -> String, parse: String -> Option<JsValue>)

  /** An object of strings and finite numbers only: what `JSON.stringify` renders faithfully. */
  predicate Flat(v: JsValue) {
    v.Obj? && forall k | k in v.props :: v.props[k].Str? || (v.props[k].Num? && v.props[k].num.Finite?)
  }

  /**
   * What `JSON.stringify`/`JSON.parse` are assumed to do on flat objects: the
   * text is non-empty (it starts with `{`), well-formed (lone surrogates are
   * escaped) and parses back to the object.
   */
  ghost predicate Faithful(j: Json) {
    forall v | Flat(v) :: j.stringify(v) != [] && WellFormed16(j.stringify(v)) && j.parse(j.stringify(v)) == Some(v)
  }

  // ---------------------------------------------------------------------------
  // buildShareUrl
  // ---------------------------------------------------------------------------

  datatype ShareError =
    | EmptyMessage
    | MessageTooLong
    | EncryptFailed(cause: Encryption.CryptoError)
    | MalformedPayloadText
    | ShareKeyTooShort

  /** `Error.message` of the two validation errors. */
  function ShareErrorMessage(e: ShareError): String {
    match e
    case EmptyMessage => Lit("Empty message can not be shared")
    case MessageTooLong => Lit("Message is too long to share")
    case EncryptFailed(cause) => Encryption.ErrorMessage(cause)
    case MalformedPayloadText => Lit("URI malformed")
    case ShareKeyTooShort => Lit("Share key is too short")
  }

  /** The sealed payload for a ciphertext: the display id and the v2 checksum filled in. */
  function SealedPayload(ct: String, signature: String, timestamp: JsNumber): (p: Payload)
    ensures p.Sealed? && Intact(p)
    ensures p.ct == ct && p.sig == signature && p.ts == timestamp
  {
    var id := GetSnowflakeId(signature);
    Sealed(ct, signature, timestamp, id, ChecksumV2(ct, signature, timestamp, id))
  }

  /** The link for a payload and a key: `?s=<base64url JSON>#k=<key>` on the base address. */
  function LinkFor(base: Url, p: Payload, key: String, json: Json): Option<Url> {
    match ToBase64Url(json.stringify(PayloadObject(p)))
    case None => None
    case Some(token) =>
      Some(Url(base.address,
        UrlParams.Serialize(UrlParams.Set([], ShareParamKey, token)),
        UrlParams.Serialize(UrlParams.Set([], KeyHashParam, key))))
  }

  /**
   * `buildShareUrl(message, signature, timestamp, baseUrl)`, given the random
   * bytes behind the share key and the salt and IV of the encryption.
   */
  function BuildShareUrl(message: String, signature: String, timestamp: JsNumber, base: Url,
                         random: Bytes, salt: Bytes, iv: Bytes, c: Encryption.Cipher, json: Json): (r: Result<Url, ShareError>)
    requires |random| == Encryption.PasswordBytes
    requires |salt| == Encryption.SaltLength && |iv| == Encryption.IvLength
    ensures r == Failure(EmptyMessage) <==> Trim(message) == []
    ensures r == Failure(MessageTooLong) <==> Trim(message) != [] && |Trim(message)| > MaxMessageLength
    ensures r.Failure? && r.error != EmptyMessage && r.error != MessageTooLong ==>
      1 <= |Trim(message)| <= MaxMessageLength && r.error != ShareKeyTooShort
    ensures r.Success? ==> r.value.address == base.address
  {
    var trimmed := Trim(message);
    if trimmed == [] then Failure(EmptyMessage)
    else if |trimmed| > MaxMessageLength then Failure(MessageTooLong)
    else
      var key := BuildShareKey(random);
      match Encryption.Encrypt(trimmed, key, salt, iv, c)
      case Failure(e) => Failure(EncryptFailed(e))
      case Success(ct) =>
        match LinkFor(base, SealedPayload(ct, signature, timestamp), key, json)
        case None => Failure(MalformedPayloadText)
        case Some(url) => Success(url)
  }

  // ---------------------------------------------------------------------------
  // parseShareUrl
  // ---------------------------------------------------------------------------

  /** `ParsedSharePayload`. */
  datatype Shared = Shared(message: String, signature: String, timestamp: JsNumber, snowflakeId: String)

  /** The payload a link's `s` parameter carries, up to the type checks; `None` for every thrown or refused step. */
  function DecodeToken(url: Url, json: Json): Option<Payload> {
    match UrlParams.Get(UrlParams.Parse(url.query), ShareParamKey)
    case None => None
    case Some(token) =>
      if token == [] then None
      else
        match FromBase64Url(token)
        case None => None
        case Some(text) =>
          match json.parse(text)
          case None => None
          case Some(parsed) => Classify(parsed)
  }

  /** A message `parseShareUrl` accepts: not blank and at most 500 code units. */
  predicate Acceptable(message: String) {
    Trim(message) != [] && |message| <= MaxMessageLength
  }

  /** `parseLegacyPayload`: the plaintext message, checked like the v2 path. */
  function ParseLegacy(p: Payload): (r: Option<Shared>)
    requires p.Legacy?
    ensures r.Some? <==> Acceptable(p.m) && Intact(p)
    ensures r.Some? ==> r.value == Shared(p.m, p.sig, p.ts, p.id)
  {
    if !Acceptable(p.m) then None
    else if ChecksumV1(p.m, p.sig, p.ts, p.id) != p.c then None
    else if GetSnowflakeId(p.sig) != p.id then None
    else Some(Shared(p.m, p.sig, p.ts, p.id))
  }

  /** The v2 path of `parseShareUrl`: integrity checks, the key from the fragment, decryption. */
  function OpenSealed(p: Payload, url: Url, c: Encryption.Cipher): (r: Option<Shared>)
    requires p.Sealed?
    ensures r.Some? ==> Intact(p) && ReadShareKey(url).Some?
    ensures r.Some? ==> Encryption.Decrypt(p.ct, ReadShareKey(url).value, c) == Success(r.value.message)
    ensures r.Some? ==> Acceptable(r.value.message)
    ensures r.Some? ==> r.value.signature == p.sig && r.value.timestamp == p.ts && r.value.snowflakeId == p.id
  {
    if ChecksumV2(p.ct, p.sig, p.ts, p.id) != p.c then None
    else if GetSnowflakeId(p.sig) != p.id then None
    else
      match ReadShareKey(url)
      case None => None
      case Some(key) =>
        match Encryption.Decrypt(p.ct, key, c)
        case Failure(_) => None
        case Success(message) =>
          if !Acceptable(message) then None
          else Some(Shared(message, p.sig, p.ts, p.id))
  }

  /** `parseShareUrl(url)`: the payload of a link, or `None` (never a partial result). */
  function ParseShareUrl(url: Url, c: Encryption.Cipher, json: Json): (r: Option<Shared>)
    ensures r.Some? ==> DecodeToken(url, json).Some? && Intact(DecodeToken(url, json).value)
    ensures r.Some? ==> Acceptable(r.value.message)
    ensures r.Some? ==> var p := DecodeToken(url, json).value;
      r.value.signature == p.sig && r.value.timestamp == p.ts && r.value.snowflakeId == p.id
  {
    match DecodeToken(url, json)
    case None => None
    case Some(p) => if p.Legacy? then ParseLegacy(p) else OpenSealed(p, url, c)
  }

  /** A payload whose checksum or id has been altered is refused, whichever version it claims. */
  lemma TamperedRefused(url: Url, c: Encryption.Cipher, json: Json)
    requires DecodeToken(url, json).Some?
    requires DecodeToken(url, json).value.c != ExpectedChecksum(DecodeToken(url, json).value) ||
      DecodeToken(url, json).value.id != GetSnowflakeId(DecodeToken(url, json).value.sig)
    ensures ParseShareUrl(url, c, json) == None
  {
  }

  /** A v2 link opens only with a key from its fragment that decrypts its ciphertext. */
  lemma SealedNeedsKey(url: Url, c: Encryption.Cipher, json: Json)
    requires DecodeToken(url, json).Some? && DecodeToken(url, json).value.Sealed?
    requires ReadShareKey(url).None? || Encryption.Decrypt(DecodeToken(url, json).value.ct, ReadShareKey(url).value, c).Failure?
    ensures ParseShareUrl(url, c, json) == None
  {
  }

  /** A v1 link yields its plaintext as written, untrimmed, exactly when it is acceptable and intact. */
  lemma LegacyReadsPlaintext(url: Url, c: Encryption.Cipher, json: Json)
    requires DecodeToken(url, json).Some? && DecodeToken(url, json).value.Legacy?
    ensures var p := DecodeToken(url, json).value;
      ParseShareUrl(url, c, json) == if Acceptable(p.m) && Intact(p) then Some(Shared(p.m, p.sig, p.ts, p.id)) else None
  {
  }

  // ---------------------------------------------------------------------------
  // Round trip
  // ---------------------------------------------------------------------------

  /** The token of a built link is found again under `s`, and the payload read back. */
  lemma DecodeLink(base: Url, p: Payload, key: String, json: Json)
    requires Faithful(json) && p.ts.Finite?
    requires LinkFor(base, p, key, json).Some?
    ensures DecodeToken(LinkFor(base, p, key, json).value, json) == Some(p)
  {
    var obj := PayloadObject(p);
    PayloadObjectFlat(p);
    var text := json.stringify(obj);
    assert text != [] && WellFormed16(text) && json.parse(text) == Some(obj);
    var token := ToBase64Url(text).value;
    TokenIsClean(text);
    Base64UrlRoundTrip(text);
    UrlParams.ReadSingleParam(ShareParamKey, token);
    ClassifyPayloadObject(p);
    assert LinkFor(base, p, key, json).value.query == UrlParams.Serialize(UrlParams.Set([], ShareParamKey, token));
  }

  /** Well-formed `JSON.stringify` output always encodes, so a payload with a finite timestamp always gets its link. */
  lemma LinkWritten(base: Url, p: Payload, key: String, json: Json)
    requires Faithful(json) && p.ts.Finite?
    ensures LinkFor(base, p, key, json).Some?
  {
    PayloadObjectFlat(p);
    assert WellFormed16(json.stringify(PayloadObject(p)));
  }

  /**
   * With a finite timestamp, a valid trimmed message fails to share only
   * when encryption fails: the payload text always encodes.
   */
  lemma OnlyEncryptionFails(message: String, signature: String, timestamp: JsNumber, base: Url,
                            random: Bytes, salt: Bytes, iv: Bytes, c: Encryption.Cipher, json: Json)
    requires |random| == Encryption.PasswordBytes
    requires |salt| == Encryption.SaltLength && |iv| == Encryption.IvLength
    requires Faithful(json) && timestamp.Finite?
    ensures var r := BuildShareUrl(message, signature, timestamp, base, random, salt, iv, c, json);
      r.Failure? && 1 <= |Trim(message)| <= MaxMessageLength ==> r.error.EncryptFailed?
  {
    var trimmed := Trim(message);
    if 1 <= |trimmed| <= MaxMessageLength {
      var key := BuildShareKey(random);
      var e := Encryption.Encrypt(trimmed, key, salt, iv, c);
      if e.Success? {
        var p := SealedPayload(e.value, signature, timestamp);
        LinkWritten(base, p, key, json);
        assert BuildShareUrl(message, signature, timestamp, base, random, salt, iv, c, json)
          == Success(LinkFor(base, p, key, json).value);
      } else {
        assert BuildShareUrl(message, signature, timestamp, base, random, salt, iv, c, json)
          == Failure(EncryptFailed(e.error));
      }
    }
  }

  lemma PayloadObjectFlat(p: Payload)
    requires p.ts.Finite?
    ensures Flat(PayloadObject(p))
  {
  }

  /** A base64url token of non-empty text is non-empty and has no `&`. */
  lemma TokenIsClean(text: String)
    requires WellFormed16(text) && text != []
    ensures ToBase64Url(text).value != []
    ensures UrlParams.Amp !in ToBase64Url(text).value
  {
    Base64UrlAlphabet(text);
    UrlSafeHasNoAmp(ToBase64Url(text).value);
  }

  lemma UrlSafeHasNoAmp(token: String)
    requires forall k | 0 <= k < |token| :: IsUrlSafe(token[k])
    ensures UrlParams.Amp !in token
  {
    forall k | 0 <= k < |token| ensures token[k] != UrlParams.Amp {
      assert IsUrlSafe(token[k]);
    }
  }

  /** The key built from random bytes contains no `&`, so it is found again in the fragment. */
  lemma KeyInFragment(base: Url, p: Payload, key: String, json: Json)
    requires LinkFor(base, p, key, json).Some?
    requires forall k | 0 <= k < |key| :: Base64.IsAlnum(key[k])
    ensures ReadShareKey(LinkFor(base, p, key, json).value) ==
      (if MinKeyLength <= |key| <= MaxKeyLength then Some(key) else None)
  {
    assert UrlParams.Amp !in key by {
      forall k | 0 <= k < |key| ensures key[k] != UrlParams.Amp {
        assert Base64.IsAlnum(key[k]);
      }
    }
    var url := LinkFor(base, p, key, json).value;
    ReadWrittenKey(url.address, url.query, key);
  }

  /** What a successful `buildShareUrl` did: a valid trimmed message, its encryption, and the link for the sealed payload. */
  lemma BuiltLink(message: String, signature: String, timestamp: JsNumber, base: Url,
                  random: Bytes, salt: Bytes, iv: Bytes, c: Encryption.Cipher, json: Json)
    requires |random| == Encryption.PasswordBytes
    requires |salt| == Encryption.SaltLength && |iv| == Encryption.IvLength
    requires BuildShareUrl(message, signature, timestamp, base, random, salt, iv, c, json).Success?
    ensures 1 <= |Trim(message)| <= MaxMessageLength
    ensures Encryption.Encrypt(Trim(message), BuildShareKey(random), salt, iv, c).Success?
    ensures var ct := Encryption.Encrypt(Trim(message), BuildShareKey(random), salt, iv, c).value;
      LinkFor(base, SealedPayload(ct, signature, timestamp), BuildShareKey(random), json) ==
      Some(BuildShareUrl(message, signature, timestamp, base, random, salt, iv, c, json).value)
  {
    var trimmed := Trim(message);
    assert trimmed != [] && |trimmed| <= MaxMessageLength;
    var key := BuildShareKey(random);
    var e := Encryption.Encrypt(trimmed, key, salt, iv, c);
    assert e.Success?;
    assert LinkFor(base, SealedPayload(e.value, signature, timestamp), key, json).Some?;
  }

  /** An intact sealed payload opens to whatever its fragment's key decrypts, if that is acceptable. */
  lemma OpenIntact(p: Payload, url: Url, c: Encryption.Cipher, key: String, message: String)
    requires p.Sealed? && Intact(p)
    requires ReadShareKey(url) == Some(key)
    requires Encryption.Decrypt(p.ct, key, c) == Success(message)
    requires Acceptable(message)
    ensures OpenSealed(p, url, c) == Some(Shared(message, p.sig, p.ts, p.id))
  {
  }

  /** A trimmed message of at most 500 units that is not empty is acceptable to the parser. */
  lemma TrimmedAcceptable(message: String)
    requires 1 <= |Trim(message)| <= MaxMessageLength
    ensures Acceptable(Trim(message))
  {
    TrimIdempotent(message);
  }

  /**
   * Parsing a built link gives back the trimmed message, the signature, the
   * timestamp and the signature's display id, provided AES-GCM and JSON
   * behave, the timestamp is finite, the trimmed message is well-formed
   * UTF-16, and the random share key has at least 10 characters.
   */
  lemma ShareRoundTrip(message: String, signature: String, timestamp: JsNumber, base: Url,
                       random: Bytes, salt: Bytes, iv: Bytes, c: Encryption.Cipher, json: Json)
    requires |random| == Encryption.PasswordBytes
    requires |salt| == Encryption.SaltLength && |iv| == Encryption.IvLength
    requires Encryption.Sound(c) && Faithful(json)
    requires timestamp.Finite? && WellFormed16(Trim(message))
    requires |BuildShareKey(random)| >= MinKeyLength
    requires BuildShareUrl(message, signature, timestamp, base, random, salt, iv, c, json).Success?
    ensures ParseShareUrl(BuildShareUrl(message, signature, timestamp, base, random, salt, iv, c, json).value, c, json)
      == Some(Shared(Trim(message), signature, timestamp, GetSnowflakeId(signature)))
  {
    BuiltLink(message, signature, timestamp, base, random, salt, iv, c, json);
    var trimmed := Trim(message);
    var key := BuildShareKey(random);
    var ct := Encryption.Encrypt(trimmed, key, salt, iv, c).value;
    var p := SealedPayload(ct, signature, timestamp);
    assert Encryption.Decrypt(ct, key, c) == Success(trimmed) by {
      TrimmedWellFormed(message);
      Encryption.DecryptEncrypt(trimmed, key, salt, iv, c);
    }
    TrimmedAcceptable(message);
    SealedLinkOpens(base, p, key, json, c, trimmed);
  }

  /** The link written for an intact sealed payload opens to what its key decrypts, when that is acceptable. */
  lemma SealedLinkOpens(base: Url, p: Payload, key: String, json: Json, c: Encryption.Cipher, message: String)
    requires Faithful(json) && p.Sealed? && Intact(p) && p.ts.Finite?
    requires LinkFor(base, p, key, json).Some?
    requires forall k | 0 <= k < |key| :: Base64.IsAlnum(key[k])
    requires MinKeyLength <= |key| <= MaxKeyLength
    requires Encryption.Decrypt(p.ct, key, c) == Success(message) && Acceptable(message)
    ensures ParseShareUrl(LinkFor(base, p, key, json).value, c, json) == Some(Shared(message, p.sig, p.ts, p.id))
  {
    var url := LinkFor(base, p, key, json).value;
    DecodeLink(base, p, key, json);
    KeyInFragment(base, p, key, json);
    OpenIntact(p, url, c, key, message);
  }

  /** The trimmed message does not start with U+FEFF, which is white space to `trim`. */
  lemma TrimmedWellFormed(message: String)
    requires Trim(message) != []
    ensures Trim(message)[0] != ByteOrderMark
  {
  }

  /** With 32 bytes of 0xFF the link is built (when encryption succeeds) but its one-character key is refused, so it never opens. */
  lemma ShortKeyLinkUnreadable(message: String, signature: String, timestamp: JsNumber, base: Url,
                               salt: Bytes, iv: Bytes, c: Encryption.Cipher, json: Json)
    requires |salt| == Encryption.SaltLength && |iv| == Encryption.IvLength
    requires Faithful(json) && timestamp.Finite?
    requires BuildShareUrl(message, signature, timestamp, base, seq(32, _ => 255), salt, iv, c, json).Success?
    ensures ParseShareUrl(BuildShareUrl(message, signature, timestamp, base, seq(32, _ => 255), salt, iv, c, json).value, c, json) == None
  {
    var random: Bytes := seq(32, _ => 255);
    BuiltLink(message, signature, timestamp, base, random, salt, iv, c, json);
    ShortShareKey();
    var key := BuildShareKey(random);
    var ct := Encryption.Encrypt(Trim(message), key, salt, iv, c).value;
    var p := SealedPayload(ct, signature, timestamp);
    KeyInFragment(base, p, key, json);
    var url := LinkFor(base, p, key, json).value;
    assert ReadShareKey(url) == None;
    DecodeLink(base, p, key, json);
    NoKeyNoMessage(url, c, json);
  }

  /** Without a readable key only a v1 link can open. */
  lemma NoKeyNoMessage(url: Url, c: Encryption.Cipher, json: Json)
    requires ReadShareKey(url) == None
    ensures ParseShareUrl(url, c, json).Some? ==> DecodeToken(url, json).value.Legacy?
  {
  }

  /**
   * `buildShareUrl` refusing a key that `readShareKeyFromHash` would refuse,
   * so that every link it returns can be opened.
   */
  function BuildShareUrlChecked(message: String, signature: String, timestamp: JsNumber, base: Url,
                                random: Bytes, salt: Bytes, iv: Bytes, c: Encryption.Cipher, json: Json): (r: Result<Url, ShareError>)
    requires |random| == Encryption.PasswordBytes
    requires |salt| == Encryption.SaltLength && |iv| == Encryption.IvLength
    ensures r == Failure(ShareKeyTooShort) <==>
      1 <= |Trim(message)| <= MaxMessageLength && |BuildShareKey(random)| < MinKeyLength
    ensures r.Success? ==> r == BuildShareUrl(message, signature, timestamp, base, random, salt, iv, c, json)
  {
    var trimmed := Trim(message);
    if trimmed != [] && |trimmed| <= MaxMessageLength && |BuildShareKey(random)| < MinKeyLength then Failure(ShareKeyTooShort)
    else BuildShareUrl(message, signature, timestamp, base, random, salt, iv, c, json)
  }

  /** Every link the checked builder returns opens to the trimmed message, with no assumption on the key. */
  lemma CheckedShareRoundTrip(message: String, signature: String, timestamp: JsNumber, base: Url,
                              random: Bytes, salt: Bytes, iv: Bytes, c: Encryption.Cipher, json: Json)
    requires |random| == Encryption.PasswordBytes
    requires |salt| == Encryption.SaltLength && |iv| == Encryption.IvLength
    requires Encryption.Sound(c) && Faithful(json)
    requires timestamp.Finite? && WellFormed16(Trim(message))
    requires BuildShareUrlChecked(message, signature, timestamp, base, random, salt, iv, c, json).Success?
    ensures ParseShareUrl(BuildShareUrlChecked(message, signature, timestamp, base, random, salt, iv, c, json).value, c, json)
      == Some(Shared(Trim(message), signature, timestamp, GetSnowflakeId(signature)))
  {
    ShareRoundTrip(message, signature, timestamp, base, random, salt, iv, c, json);
  }

  // ---------------------------------------------------------------------------
  // removeShareParamFromUrl
  // ---------------------------------------------------------------------------

  /**
   * `removeShareParamFromUrl(url)`: every `s` leaves the query and every `k`
   * the fragment (read through the `URLSearchParams` constructor); both are
   * re-serialised, and a fragment left empty is dropped.
   */
  function RemoveShareParam(url: Url): (r: Url)
    ensures r.address == url.address
    ensures UrlParams.Parse(r.query) == UrlParams.Delete(UrlParams.Parse(url.query), ShareParamKey)
    ensures url.fragment == [] ==> r.fragment == []
    ensures url.fragment != [] ==> UrlParams.Parse(r.fragment) == UrlParams.Delete(UrlParams.ParseInit(url.fragment), KeyHashParam)
    ensures url.fragment != [] && !StartsWithQuestionMark(r.fragment) ==>
      UrlParams.ParseInit(r.fragment) == UrlParams.Delete(UrlParams.ParseInit(url.fragment), KeyHashParam)
  {
    var q := UrlParams.Delete(UrlParams.Parse(url.query), ShareParamKey);
    UrlParams.ParseSerialize(q);
    var f := UrlParams.Delete(UrlParams.ParseInit(url.fragment), KeyHashParam);
    UrlParams.ParseSerialize(f);
    Url(url.address, UrlParams.Serialize(q), if url.fragment == [] then [] else UrlParams.Serialize(f))
  }

  predicate StartsWithQuestionMark(text: String) {
    text != [] && text[0] == UrlParams.QuestionMark
  }

  /**
   * After removal the query holds no `s` and the fragment text no `k`, so
   * the link opens nothing, and other parameters read as before. The key is
   * unreadable unless the rewritten fragment starts with `?` (see
   * `RemovedKeyResurfaces`).
   */
  lemma RemovedLinkCarriesNothing(url: Url, name: String, c: Encryption.Cipher, json: Json)
    ensures UrlParams.Get(UrlParams.Parse(RemoveShareParam(url).query), ShareParamKey) == None
    ensures UrlParams.Get(UrlParams.Parse(RemoveShareParam(url).fragment), KeyHashParam) == None
    ensures !StartsWithQuestionMark(RemoveShareParam(url).fragment) ==> ReadShareKey(RemoveShareParam(url)) == None
    ensures ParseShareUrl(RemoveShareParam(url), c, json) == None
    ensures name != ShareParamKey ==>
      UrlParams.Get(UrlParams.Parse(RemoveShareParam(url).query), name) == UrlParams.Get(UrlParams.Parse(url.query), name)
    ensures url.fragment != [] && name != KeyHashParam ==>
      UrlParams.Get(UrlParams.Parse(RemoveShareParam(url).fragment), name) == UrlParams.Get(UrlParams.ParseInit(url.fragment), name)
  {
    UrlParams.GetAfterDelete(UrlParams.Parse(url.query), ShareParamKey, name);
    if url.fragment != [] {
      UrlParams.GetAfterDelete(UrlParams.ParseInit(url.fragment), KeyHashParam, name);
    }
  }

  /** A fragment `?k=<key>` gives its key, as the constructor skips the `?`, and removal drops the whole fragment. */
  lemma LeadingQuestionSkipped(address: String, query: String, key: String)
    requires UrlParams.Amp !in key
    ensures var url := Url(address, query, [UrlParams.QuestionMark] + (KeyHashParam + [UrlParams.EqualsSign] + key));
      ReadShareKey(url) == (if MinKeyLength <= |key| <= MaxKeyLength then Some(key) else None) &&
      RemoveShareParam(url).fragment == []
  {
    var text := KeyHashParam + [UrlParams.EqualsSign] + key;
    var url := Url(address, query, [UrlParams.QuestionMark] + text);
    UrlParams.ParseInitSkipsOnce(text);
    SinglePairText(KeyHashParam, key);
    ReadShareKeyOf(url, key);
    assert UrlParams.Delete([UrlParams.Param(KeyHashParam, key)], KeyHashParam) == [];
  }

  /**
   * Because names are kept unescaped here, a fragment `??k=<key>` loses no
   * pair (its one name is `?k`) and is written back as `?k=<key>`, whose key
   * the constructor reads again.
   */
  lemma RemovedKeyResurfaces(key: String)
    requires UrlParams.Amp !in key && MinKeyLength <= |key| <= MaxKeyLength
    ensures var url := Url([], [], [UrlParams.QuestionMark] + QuestionKeyText(key));
      ReadShareKey(url) == None && ReadShareKey(RemoveShareParam(url)) == Some(key)
  {
    var url := Url([], [], [UrlParams.QuestionMark] + QuestionKeyText(key));
    var ps := QuestionKeyParses(key);
    assert UrlParams.Get(ps, KeyHashParam) == None;
    assert UrlParams.Delete(ps, KeyHashParam) == ps;
    var rest := KeyHashParam + [UrlParams.EqualsSign] + key;
    PrefixRegroup(UrlParams.QuestionMark, KeyHashParam, [UrlParams.EqualsSign] + key);
    assert RemoveShareParam(url).fragment == [UrlParams.QuestionMark] + rest;
    UrlParams.ParseInitSkipsOnce(rest);
    KeyFragmentReads(key);
    assert UrlParams.Set([], KeyHashParam, key) == [UrlParams.Param(KeyHashParam, key)];
    ReadShareKeyOf(RemoveShareParam(url), key);
  }

  /** `?k=<key>`: a pair named `?k`. */
  function QuestionKeyText(key: String): String {
    [UrlParams.QuestionMark] + KeyHashParam + [UrlParams.EqualsSign] + key
  }

  /** `??k=<key>` parses to the single pair named `?k`, which serialises back to `?k=<key>`. */
  lemma QuestionKeyParses(key: String) returns (ps: seq<UrlParams.Param>)
    requires UrlParams.Amp !in key
    ensures ps == [UrlParams.Param([UrlParams.QuestionMark] + KeyHashParam, key)]
    ensures UrlParams.ParseInit([UrlParams.QuestionMark] + QuestionKeyText(key)) == ps
    ensures UrlParams.Serialize(ps) == QuestionKeyText(key)
  {
    ps := [UrlParams.Param([UrlParams.QuestionMark] + KeyHashParam, key)];
    QuestionNameSerialisable(key);
    SinglePairText([UrlParams.QuestionMark] + KeyHashParam, key);
    UrlParams.ParseInitSkipsOnce(QuestionKeyText(key));
  }

  lemma QuestionNameSerialisable(key: String)
    requires UrlParams.Amp !in key
    ensures UrlParams.Serialisable(UrlParams.Param([UrlParams.QuestionMark] + KeyHashParam, key))
  {
    assert [UrlParams.QuestionMark] + KeyHashParam == [63, 107];
  }

  lemma PrefixRegroup(c: CodeUnit, body: String, rest: String)
    ensures [c] + body + rest == [c] + (body + rest)
  {
  }

  lemma SinglePairText(name: String, value: String)
    requires UrlParams.Serialisable(UrlParams.Param(name, value))
    ensures UrlParams.Serialize([UrlParams.Param(name, value)]) == name + [UrlParams.EqualsSign] + value
    ensures UrlParams.Parse(name + [UrlParams.EqualsSign] + value) == [UrlParams.Param(name, value)]
  {
    UrlParams.ParseSerialize([UrlParams.Param(name, value)]);
  }

  /** A fragment whose only parameters are `k` is dropped altogether. */
  lemma KeyOnlyFragmentDropped(url: Url)
    requires url.fragment != []
    requires forall k | 0 <= k < |UrlParams.ParseInit(url.fragment)| :: UrlParams.ParseInit(url.fragment)[k].name == KeyHashParam
    ensures RemoveShareParam(url).fragment == []
  {
    var ps := UrlParams.ParseInit(url.fragment);
    var d := UrlParams.Delete(ps, KeyHashParam);
    if d != [] {
      assert d[0] in ps;
    }
  }
}
