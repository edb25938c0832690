/**
 * JavaScript strings as sequences of UTF-16 code units, and the handful of
 * `String.prototype` / `Number.prototype` operations the core relies on:
 * `trim`, `split`, `startsWith`, `toString(10)` and `toString(36)`.
 */
module Text {

  /** One UTF-16 code unit, the value `String.prototype.charCodeAt` returns. */
  type CodeUnit = x: int | 0 <= x < 0x1_0000

  /** A JavaScript string. Its `length` is the number of code units. */
  type String = seq<CodeUnit>

  /** A Unicode scalar value: a code point that is not a surrogate. */
  predicate IsScalar(cp: int) {
    0 <= cp < 0xD800 || 0xE000 <= cp < 0x11_0000
  }

  type Scalar = cp: int | 0 <= cp < 0xD800 || 0xE000 <= cp < 0x11_0000

  predicate IsHighSurrogate(u: int) {
    0xD800 <= u <= 0xDBFF
  }

  predicate IsLowSurrogate(u: int) {
    0xDC00 <= u <= 0xDFFF
  }

  /** The UTF-16 form of one scalar value: itself, or a high/low surrogate pair above U+FFFF. */
  function Utf16Encode1(cp: Scalar): (r: String)
    ensures 1 <= |r| <= 2
    ensures |r| == 1 <==> cp < 0x1_0000
    ensures |r| == 1 ==> r[0] == cp
    ensures |r| == 2 ==> IsHighSurrogate(r[0]) && IsLowSurrogate(r[1])
  {
    if cp < 0x1_0000 then
      var u: CodeUnit := cp;
      [u]
    else
      var w := cp - 0x1_0000;
      assert 0 <= w / 0x400 < 0x400;
      var hi: CodeUnit := 0xD800 + w / 0x400;
      var lo: CodeUnit := 0xDC00 + w % 0x400;
      [hi, lo]
  }

  /** The UTF-16 string of a sequence of scalar values. */
  function Utf16Encode(cps: seq<Scalar>): (r: String)
    ensures |r| >= |cps|
  {
    if |cps| == 0 then [] else Utf16Encode1(cps[0]) + Utf16Encode(cps[1..])
  }

  /** The JavaScript string spelled by a Dafny string literal (a Dafny `char` is a scalar value). */
  function Lit(s: string): (r: String)
    ensures |r| >= |s|
  {
    if |s| == 0 then [] else Utf16Encode1(s[0] as int) + Lit(s[1..])
  }

  lemma {:induction false} LitAppend(a: string, b: string)
    ensures Lit(a + b) == Lit(a) + Lit(b)
  {
    if |a| > 0 {
      assert (a + b)[1..] == a[1..] + b;
      LitAppend(a[1..], b);
    } else {
      assert a + b == b;
    }
  }

  /** The first and last code units of a literal whose first and last characters lie in the BMP. */
  lemma LitEdges(s: string)
    requires |s| > 0 && s[0] as int < 0x1_0000 && s[|s| - 1] as int < 0x1_0000
    ensures |Lit(s)| > 0 && Lit(s)[0] == s[0] as int && Lit(s)[|Lit(s)| - 1] == s[|s| - 1] as int
  {
    var n := |s| - 1;
    assert s == s[..n] + [s[n]];
    LitAppend(s[..n], [s[n]]);
    assert Lit([s[n]]) == Utf16Encode1(s[n] as int) + Lit([]);
  }

  // ---------------------------------------------------------------------------
  // Whitespace and trim
  // ---------------------------------------------------------------------------

  /** The code units `String.prototype.trim` removes: ECMAScript WhiteSpace and LineTerminator. */
  predicate IsWhite(c: CodeUnit) {
    || c == 0x09 || c == 0x0A || c == 0x0B || c == 0x0C || c == 0x0D || c == 0x20
    || c == 0xA0 || c == 0x1680 || (0x2000 <= c <= 0x200A)
    || c == 0x2028 || c == 0x2029 || c == 0x202F || c == 0x205F || c == 0x3000
    || c == 0xFEFF
  }

  predicate AllWhite(s: String) {
    forall k | 0 <= k < |s| :: IsWhite(s[k])
  }

  function TrimStart(s: String): (r: String)
    ensures |r| <= |s| && r == s[|s| - |r|..]
    ensures AllWhite(s[..|s| - |r|])
    ensures r == [] || !IsWhite(r[0])
    ensures r == [] <==> AllWhite(s)
  {
    if |s| > 0 && IsWhite(s[0]) then TrimStart(s[1..]) else s
  }

  function TrimEnd(s: String): (r: String)
    ensures |r| <= |s| && r == s[..|r|]
    ensures AllWhite(s[|r|..])
    ensures r == [] || !IsWhite(r[|r| - 1])
    ensures r == [] <==> AllWhite(s)
  {
    if |s| > 0 && IsWhite(s[|s| - 1]) then TrimEnd(s[..|s| - 1]) else s
  }

  /** `s.trim()`: the longest infix of `s` that neither starts nor ends with whitespace. */
  function Trim(s: String): (r: String)
    ensures |r| <= |s|
    ensures r == [] <==> AllWhite(s)
    ensures IsTrimmed(r)
  {
    var t := TrimStart(s);
    var r := TrimEnd(t);
    assert r != [] ==> !IsWhite(r[0]) by {
      if r != [] {
        assert r[0] == t[0];
      }
    }
    r
  }

  /** What `trim` cuts off is whitespace on both sides: the result is an infix framed by whitespace. */
  lemma TrimIsInfix(s: String)
    ensures var r := Trim(s);
      exists i | 0 <= i <= |s| - |r| :: r == s[i..i + |r|] && AllWhite(s[..i]) && AllWhite(s[i + |r|..])
  {
    var t := TrimStart(s);
    var r := TrimEnd(t);
    assert Trim(s) == r;
    var i := InfixBetweenWhite(s, t, r);
    assert r == s[i..i + |r|] && AllWhite(s[..i]) && AllWhite(s[i + |r|..]);
  }

  /** A prefix of a suffix of `s`, with only whitespace cut off either side, is a whitespace-framed infix. */
  lemma InfixBetweenWhite(s: String, t: String, r: String) returns (i: nat)
    requires |t| <= |s| && t == s[|s| - |t|..] && AllWhite(s[..|s| - |t|])
    requires |r| <= |t| && r == t[..|r|] && AllWhite(t[|r|..])
    ensures i <= |s| - |r| && r == s[i..i + |r|] && AllWhite(s[..i]) && AllWhite(s[i + |r|..])
  {
    i := |s| - |t|;
    assert r == s[i..i + |r|];
    assert s[i + |r|..] == t[|r|..];
  }

  /** Neither starts nor ends with whitespace. */
  predicate IsTrimmed(s: String) {
    s == [] || (!IsWhite(s[0]) && !IsWhite(s[|s| - 1]))
  }

  /** A string without surrounding whitespace is its own trim. */
  lemma TrimOfTrimmed(s: String)
    requires IsTrimmed(s)
    ensures Trim(s) == s
  {
  }

  /** `trim` is idempotent. */
  lemma TrimIdempotent(s: String)
    ensures Trim(Trim(s)) == Trim(s)
  {
    TrimOfTrimmed(Trim(s));
  }

  function StartsWith(s: String, prefix: String): bool {
    |prefix| <= |s| && s[..|prefix|] == prefix
  }

  // ---------------------------------------------------------------------------
  // split / join on a single separator
  // ---------------------------------------------------------------------------

  /** Position of the first `c` in `s`, or `|s|` when there is none. */
  function IndexOf(s: String, c: CodeUnit): (i: nat)
    ensures i <= |s|
    ensures i < |s| ==> s[i] == c
    ensures forall k | 0 <= k < i :: s[k] != c
  {
    if |s| == 0 then 0
    else if s[0] == c then 0
    else 1 + IndexOf(s[1..], c)
  }

  /** `s.split(sep)` for a one-unit separator: always at least one part. */
  function Split(s: String, sep: CodeUnit): (parts: seq<String>)
    ensures |parts| >= 1
    ensures forall k | 0 <= k < |parts| :: sep !in parts[k]
    decreases |s|
  {
    var i := IndexOf(s, sep);
    if i == |s| then
      assert s[..i] == s;
      [s]
    else [s[..i]] + Split(s[i + 1..], sep)
  }

  /** `parts.join(sep)`. */
  function Join(parts: seq<String>, sep: CodeUnit): String
    requires |parts| >= 1
  {
    if |parts| == 1 then parts[0] else parts[0] + [sep] + Join(parts[1..], sep)
  }

  lemma {:induction false} JoinSplit(s: String, sep: CodeUnit)
    ensures Join(Split(s, sep), sep) == s
    decreases |s|
  {
    var i := IndexOf(s, sep);
    if i < |s| {
      var rest := s[i + 1..];
      var parts := Split(s, sep);
      JoinSplit(rest, sep);
      assert parts == [s[..i]] + Split(rest, sep);
      assert parts[1..] == Split(rest, sep);
      assert Join(parts, sep) == s[..i] + [sep] + Join(Split(rest, sep), sep);
      assert s == s[..i] + [sep] + rest;
    } else {
      assert s[..i] == s;
    }
  }

  lemma {:induction false} SplitJoin(parts: seq<String>, sep: CodeUnit)
    requires |parts| >= 1
    requires forall k | 0 <= k < |parts| :: sep !in parts[k]
    ensures Split(Join(parts, sep), sep) == parts
  {
    if |parts| > 1 {
      var s := Join(parts, sep);
      var p := parts[0];
      assert s == p + ([sep] + Join(parts[1..], sep));
      assert s[..|p|] == p;
      assert s[|p|] == sep;
      IndexOfFirst(s, sep, |p|);
      assert s[|p| + 1..] == Join(parts[1..], sep);
      SplitJoin(parts[1..], sep);
    } else {
      IndexOfFirst(parts[0], sep, |parts[0]|);
    }
  }

  /** `IndexOf` finds the first occurrence, so any position before which `c` is absent and at which it occurs (or the end) is it. */
  lemma IndexOfFirst(s: String, c: CodeUnit, i: nat)
    requires i <= |s|
    requires forall k | 0 <= k < i :: s[k] != c
    requires i < |s| ==> s[i] == c
    ensures IndexOf(s, c) == i
  {
  }

  // ---------------------------------------------------------------------------
  // Number.prototype.toString(radix) on non-negative integers
  // ---------------------------------------------------------------------------

  /** The digit character for `d`: `0`-`9`, then lower-case `a`-`z`. */
  function DigitChar(d: nat): CodeUnit
    requires d < 36
  {
    if d < 10 then 48 + d else 87 + d
  }

  predicate IsDigitOf(c: CodeUnit, radix: nat) {
    (48 <= c < 48 + radix && c <= 57) || (radix > 10 && 97 <= c < 87 + radix)
  }

  function DigitValue(c: CodeUnit): nat
    requires IsDigitOf(c, 36)
  {
    if c <= 57 then c - 48 else c - 87
  }

  function Pow(b: nat, k: nat): nat {
    if k == 0 then 1 else b * Pow(b, k - 1)
  }

  /** `n.toString(radix)` for a non-negative integer: most significant digit first, no leading zero. */
  function ToRadix(n: nat, radix: nat): (r: String)
    requires 2 <= radix <= 36
    ensures 1 <= |r|
    ensures forall k | 0 <= k < |r| :: IsDigitOf(r[k], radix)
    ensures r[0] == 48 ==> n == 0
    decreases n
  {
    if n < radix then [DigitChar(n)]
    else
      QuotientPositive(n, radix);
      var high := ToRadix(n / radix, radix);
      var low := DigitChar(n % radix);
      var r := high + [low];
      assert IsDigitOf(low, radix);
      assert r[0] == high[0];
      assert forall k | 0 <= k < |r| :: IsDigitOf(r[k], radix) by {
        forall k | 0 <= k < |r| ensures IsDigitOf(r[k], radix) {
          if k < |high| {
            assert r[k] == high[k];
          }
        }
      }
      r
  }

  lemma QuotientPositive(n: nat, d: nat)
    requires 2 <= d <= n
    ensures 1 <= n / d < n && n % d < d
  {
    var q := n / d;
    DivMod(n, d);
    MulMonotone(d, q, 0);
    MulMonotone(q, 2, d);
  }

  /** Reads a digit string back; the reference for what `ToRadix` denotes. */
  function RadixValue(s: String, radix: nat): nat
    requires 2 <= radix <= 36
    requires forall k | 0 <= k < |s| :: IsDigitOf(s[k], radix)
  {
    if |s| == 0 then 0
    else
      assert IsDigitOf(s[|s| - 1], radix);
      RadixValue(s[..|s| - 1], radix) * radix + DigitValue(s[|s| - 1])
  }

  lemma {:induction false} RadixRoundTrip(n: nat, radix: nat)
    requires 2 <= radix <= 36
    ensures RadixValue(ToRadix(n, radix), radix) == n
    decreases n
  {
    if n >= radix {
      var q, d := n / radix, n % radix;
      var p := ToRadix(q, radix);
      var r := ToRadix(n, radix);
      assert r == p + [DigitChar(d)];
      assert DigitValue(DigitChar(d)) == d;
      RadixValueSnoc(p, DigitChar(d), radix);
      assert RadixValue(r, radix) == RadixValue(p, radix) * radix + d;
      DivMod(n, radix);
      DivSmaller(n, radix);
      RadixRoundTrip(q, radix);
    }
  }

  lemma RadixValueSnoc(p: String, c: CodeUnit, radix: nat)
    requires 2 <= radix <= 36
    requires forall k | 0 <= k < |p| :: IsDigitOf(p[k], radix)
    requires IsDigitOf(c, radix)
    ensures RadixValue(p + [c], radix) == RadixValue(p, radix) * radix + DigitValue(c)
  {
    assert (p + [c])[..|p|] == p;
  }

  lemma DivSmaller(n: nat, d: nat)
    requires d >= 2 && n >= 1
    ensures n / d < n
  {
  }

  lemma DivMod(n: nat, d: nat)
    requires d > 0
    ensures n == (n / d) * d + n % d && n % d < d
  {
  }

  /** `n` digit zeros. */
  function Zeros(n: nat): (r: String)
    ensures |r| == n
    ensures forall k | 0 <= k < n :: r[k] == 48
  {
    seq(n, _ => 48)
  }

  /** Leading zero digits do not change the value a digit string denotes. */
  lemma {:induction false} RadixLeadingZeros(z: nat, s: String, radix: nat)
    requires 2 <= radix <= 36
    requires forall k | 0 <= k < |s| :: IsDigitOf(s[k], radix)
    ensures forall k | 0 <= k < z + |s| :: IsDigitOf((Zeros(z) + s)[k], radix)
    ensures RadixValue(Zeros(z) + s, radix) == RadixValue(s, radix)
    decreases |s|, z
  {
    var t := Zeros(z) + s;
    if |s| > 0 {
      var p := s[..|s| - 1];
      RadixLeadingZeros(z, p, radix);
      assert t[..|t| - 1] == Zeros(z) + p;
      assert t[|t| - 1] == s[|s| - 1];
    } else if z > 0 {
      RadixLeadingZeros(z - 1, [], radix);
      assert t[..|t| - 1] == Zeros(z - 1) + [];
    }
  }

  /** A number below `radix^k` needs at most `k` digits. */
  lemma {:induction false} RadixLength(n: nat, radix: nat, k: nat)
    requires 2 <= radix <= 36 && 1 <= k
    requires n < Pow(radix, k)
    ensures |ToRadix(n, radix)| <= k
    decreases k
  {
    if n >= radix {
      assert k > 1;
      DivBelow(n, radix, Pow(radix, k - 1));
      RadixLength(n / radix, radix, k - 1);
    }
  }

  lemma DivBelow(n: nat, d: nat, p: nat)
    requires d >= 1 && n < d * p
    ensures n / d < p
  {
    var q := n / d;
    assert d * q <= n;
    MulMonotone(d, p, q);
  }

  /** Multiplying by a positive factor keeps the order. */
  lemma MulMonotone(d: nat, p: nat, q: nat)
    requires d >= 1
    ensures q >= p ==> d * q >= d * p
  {
    if q >= p {
      assert d * q == d * p + d * (q - p);
    }
  }

  /** `String(n)` / `${n}` for an integer (JavaScript prints these in plain decimal below 10^21). */
  function Decimal(n: int): (r: String)
    ensures |r| >= 1
  {
    if n < 0 then [45] + ToRadix(-n, 10) else ToRadix(n, 10)
  }

  /** `n.toString(36)`. */
  function Base36(n: nat): (r: String)
    ensures 1 <= |r|
    ensures forall k | 0 <= k < |r| :: IsDigitOf(r[k], 36)
  {
    ToRadix(n, 36)
  }

  /** `toUpperCase` restricted to ASCII letters, which is all the core applies it to. */
  function AsciiUpper(s: String): (r: String)
    ensures |r| == |s|
    ensures forall k | 0 <= k < |s| :: r[k] == if 97 <= s[k] <= 122 then s[k] - 32 else s[k]
  {
    seq(|s|, k requires 0 <= k < |s| => if 97 <= s[k] <= 122 then s[k] - 32 else s[k])
  }

  /** `toLowerCase` restricted to ASCII letters; other units unchanged. */
  function AsciiLower(s: String): (r: String)
    ensures |r| == |s|
    ensures forall k | 0 <= k < |s| :: r[k] == if 65 <= s[k] <= 90 then s[k] + 32 else s[k]
  {
    seq(|s|, k requires 0 <= k < |s| => if 65 <= s[k] <= 90 then s[k] + 32 else s[k])
  }

  /** `s.padStart(n, '0')`. */
  function PadStartZero(s: String, n: nat): (r: String)
    ensures |r| == if |s| >= n then |s| else n
    ensures r[|r| - |s|..] == s
    ensures forall k | 0 <= k < |r| - |s| :: r[k] == 48
  {
    if |s| >= n then s else Zeros(n - |s|) + s
  }

  /** `s.slice(-n)` for `n > 0`: the last `n` units, or all of `s` when it is shorter. */
  function SliceLast(s: String, n: nat): (r: String)
    ensures |r| == if |s| >= n then n else |s|
    ensures r == s[|s| - |r|..]
  {
    if |s| >= n then s[|s| - n..] else s
  }
}
