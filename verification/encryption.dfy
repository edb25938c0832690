/**
 * utils/encryption.ts: the ciphertext blob `salt(16) ‖ iv(12) ‖ ct` in
 * base64, its slicing inverse, the single error each direction reports, and
 * the shape of the random password. PBKDF2 (RFC 8018 section 5.2) and
 * AES-GCM (NIST SP 800-38D) are uninterpreted functions of a `Cipher`
 * value; `crypto.getRandomValues` output is a parameter.
 */
module Encryption {
  import opened Wrappers
  import opened Text
  import opened Unicode
  import Base64

  const SaltLength: nat := 16
  const IvLength: nat := 12
  /** Bytes in front of the AES-GCM output: salt then IV. */
  const HeaderLength: nat := 28
  /** Random bytes behind a generated password. */
  const PasswordBytes: nat := 32

  /**
   * The Web Crypto operations the module calls: PBKDF2-SHA-256 key derivation
   * from password bytes and a salt, AES-GCM sealing (which may fail) and
   * opening (which fails when the tag does not authenticate).
   */
  datatype Cipher = Cipher(
    deriveKey: (Bytes, Bytes) -> Bytes,
    seal: (Bytes, Bytes, Bytes) -> Option<Bytes>,
    open: (Bytes, Bytes, Bytes) -> Option<Bytes>)

  /** What AES-GCM is assumed to guarantee: opening what was sealed, with the same key and IV, gives it back. */
  ghost predicate Sound(c: Cipher) {
    forall key: Bytes, iv: Bytes, pt: Bytes ::
      c.seal(key, iv, pt).Some? ==> c.open(key, iv, c.seal(key, iv, pt).value) == Some(pt)
  }

  /** The two errors the module throws; the cause of a failure is never reported. */
  datatype CryptoError = EncryptionFailed | DecryptionFailed

  /** The `Error.message` of each. */
  function ErrorMessage(e: CryptoError): String {
    match e
    case EncryptionFailed => Lit("加密失败")
    case DecryptionFailed => Lit("解密失败：密码错误或数据损坏")
  }

  /** `combined.slice(from, to)`: indices are clamped to the sequence, never out of range. */
  function Slice(bs: Bytes, from: nat, to: nat): (r: Bytes)
    ensures |r| == if to <= from || |bs| <= from then 0 else (if to <= |bs| then to else |bs|) - from
    ensures forall k | 0 <= k < |r| :: r[k] == bs[from + k]
  {
    var hi := if to <= |bs| then to else |bs|;
    if from >= hi then [] else bs[from..hi]
  }

  /** The blob layout of `encrypt`: salt, then IV, then the AES-GCM output. */
  function Frame(salt: Bytes, iv: Bytes, ct: Bytes): (combined: Bytes)
    requires |salt| == SaltLength && |iv| == IvLength
    ensures |combined| == HeaderLength + |ct|
  {
    salt + iv + ct
  }

  /** The slicing of `decrypt`: `[0, 16)`, `[16, 28)` and `[28, …)`, each clamped. */
  function Unframe(combined: Bytes): (parts: (Bytes, Bytes, Bytes))
    ensures |parts.0| + |parts.1| + |parts.2| == |combined|
    ensures |combined| >= HeaderLength ==> |parts.0| == SaltLength && |parts.1| == IvLength
  {
    (Slice(combined, 0, 16), Slice(combined, 16, 28), Slice(combined, 28, |combined|))
  }

  /** The slicing undoes the framing. */
  lemma UnframeFrame(salt: Bytes, iv: Bytes, ct: Bytes)
    requires |salt| == SaltLength && |iv| == IvLength
    ensures Unframe(Frame(salt, iv, ct)) == (salt, iv, ct)
  {
    var c := Frame(salt, iv, ct);
    assert Slice(c, 0, 16) == c[0..16] == salt;
    assert Slice(c, 16, 28) == c[16..28] == iv;
    if |ct| > 0 {
      assert Slice(c, 28, |c|) == c[28..] == ct;
    }
  }

  /** Any blob of at least 28 bytes is the framing of its slices. */
  lemma FrameUnframe(combined: Bytes)
    requires |combined| >= HeaderLength
    ensures var (s, i, c) := Unframe(combined); Frame(s, i, c) == combined
  {
    var (s, i, c) := Unframe(combined);
    assert combined == combined[0..16] + combined[16..28] + combined[28..];
  }

  /** `encrypt(text, password)` with the random salt and IV it draws. */
  function Encrypt(text: String, password: String, salt: Bytes, iv: Bytes, c: Cipher): (r: Result<String, CryptoError>)
    requires |salt| == SaltLength && |iv| == IvLength
    ensures r.Failure? ==> r.error == EncryptionFailed
    ensures r.Failure? <==> c.seal(c.deriveKey(TextEncode(password), salt), iv, TextEncode(text)).None?
  {
    var key := c.deriveKey(TextEncode(password), salt);
    match c.seal(key, iv, TextEncode(text))
    case None => Failure(EncryptionFailed)
    case Some(ct) => Success(Base64.Encode(Frame(salt, iv, ct)))
  }

  /** `decrypt(blob, password)`: every failure, whatever its cause, is the same `DecryptionFailed`. */
  function Decrypt(blob: String, password: String, c: Cipher): (r: Result<String, CryptoError>)
    ensures r.Failure? ==> r.error == DecryptionFailed
    ensures Base64.Decode(blob).None? ==> r.Failure?
  {
    match Base64.Decode(blob)
    case None => Failure(DecryptionFailed)
    case Some(combined) =>
      var (salt, iv, ct) := Unframe(combined);
      var key := c.deriveKey(TextEncode(password), salt);
      match c.open(key, iv, ct)
      case None => Failure(DecryptionFailed)
      case Some(pt) => Success(TextDecode(pt))
  }

  /**
   * Decryption with the same password inverts encryption, for well-formed
   * text that does not start with U+FEFF (which `TextDecoder` would strip).
   */
  lemma DecryptEncrypt(text: String, password: String, salt: Bytes, iv: Bytes, c: Cipher)
    requires |salt| == SaltLength && |iv| == IvLength
    requires Sound(c)
    requires WellFormed16(text) && (text == [] || text[0] != ByteOrderMark)
    requires Encrypt(text, password, salt, iv, c).Success?
    ensures Decrypt(Encrypt(text, password, salt, iv, c).value, password, c) == Success(text)
  {
    var key := c.deriveKey(TextEncode(password), salt);
    var ct := c.seal(key, iv, TextEncode(text)).value;
    Base64.DecodeEncode(Frame(salt, iv, ct));
    UnframeFrame(salt, iv, ct);
    TextRoundTrip(text);
  }

  /** The blob is the base64 text of the frame, so its length is fixed by the ciphertext's. */
  lemma EncryptLength(text: String, password: String, salt: Bytes, iv: Bytes, c: Cipher)
    requires |salt| == SaltLength && |iv| == IvLength
    requires Encrypt(text, password, salt, iv, c).Success?
    ensures var ct := c.seal(c.deriveKey(TextEncode(password), salt), iv, TextEncode(text)).value;
      |Encrypt(text, password, salt, iv, c).value| == 4 * ((HeaderLength + |ct|) / 3) + (if (HeaderLength + |ct|) % 3 == 0 then 0 else 4)
  {
  }

  /** Two encryptions that drew different salts or IVs produce different blobs. */
  lemma FreshRandomnessDiffers(text: String, password: String, salt1: Bytes, iv1: Bytes, salt2: Bytes, iv2: Bytes, c: Cipher)
    requires |salt1| == SaltLength && |iv1| == IvLength
    requires |salt2| == SaltLength && |iv2| == IvLength
    requires salt1 != salt2 || iv1 != iv2
    requires Encrypt(text, password, salt1, iv1, c).Success? && Encrypt(text, password, salt2, iv2, c).Success?
    ensures Encrypt(text, password, salt1, iv1, c).value != Encrypt(text, password, salt2, iv2, c).value
  {
    var ct1 := c.seal(c.deriveKey(TextEncode(password), salt1), iv1, TextEncode(text)).value;
    var ct2 := c.seal(c.deriveKey(TextEncode(password), salt2), iv2, TextEncode(text)).value;
    Base64.DecodeEncode(Frame(salt1, iv1, ct1));
    Base64.DecodeEncode(Frame(salt2, iv2, ct2));
    UnframeFrame(salt1, iv1, ct1);
    UnframeFrame(salt2, iv2, ct2);
  }

  /** A blob that is not base64 fails with the one decryption error, whatever the password. */
  lemma NotBase64Fails(blob: String, password: String, c: Cipher)
    requires Base64.Decode(blob).None?
    ensures Decrypt(blob, password, c) == Failure(DecryptionFailed)
  {
  }

  /** `generateRandomPassword()`: base64 of 32 random bytes. */
  function GenerateRandomPassword(random: Bytes): (p: String)
    requires |random| == PasswordBytes
    ensures |p| == 44
    ensures p[43] == Base64.PadChar && p[42] != Base64.PadChar
  {
    Base64.RandomPassword(random)
  }

  /** The password decodes back to the random bytes it was made from. */
  lemma PasswordCarriesRandomBytes(random: Bytes)
    requires |random| == PasswordBytes
    ensures Base64.Decode(GenerateRandomPassword(random)) == Some(random)
  {
    Base64.DecodeEncode(random);
  }
}
