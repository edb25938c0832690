/**
 * `hashString` from utils/snowflakeGenerator.ts: a 32-bit rolling hash over
 * UTF-16 code units (`h = 31*h + unit` with int32 wrap-around), followed by
 * `Math.abs`. It seeds the snowflake generator and is the checksum primitive of
 * share links, so its exact arithmetic is a format constant.
 */
module Hash {
  import opened Text

  const TwoTo31: int := 0x8000_0000
  const TwoTo32: int := 0x1_0000_0000

  /** A value of JavaScript's 32-bit signed integer domain. */
  type Int32 = x: int | -0x8000_0000 <= x < 0x8000_0000

  /** ECMAScript `ToInt32` on an integer: the unique int32 congruent to `x` modulo 2^32. */
  function ToInt32(x: int): (r: Int32)
    ensures (x - r) % TwoTo32 == 0
  {
    (x + TwoTo31) % TwoTo32 - TwoTo31
  }

  /** `ToInt32` only sees its argument modulo 2^32. */
  lemma ToInt32Congruent(a: int, b: int, k: int)
    requires a == b + k * TwoTo32
    ensures ToInt32(a) == ToInt32(b)
  {
    var x, y := a + TwoTo31, b + TwoTo31;
    assert x == y + k * TwoTo32;
    assert x % TwoTo32 == y % TwoTo32 by {
      var qy := y / TwoTo32;
      assert y == qy * TwoTo32 + y % TwoTo32;
      assert x == (qy + k) * TwoTo32 + y % TwoTo32;
    }
  }

  /** One step of the recurrence as the hash is usually stated: `ToInt32(31*h + unit)`. */
  function Step(h: Int32, unit: CodeUnit): Int32 {
    ToInt32(31 * h + unit)
  }

  /**
   * One step exactly as the source computes it: `((hash << 5) - hash) + char`
   * (the shift is `ToInt32(hash * 32)` on an int32), then `hash & hash`, which
   * is `ToInt32` of the sum.
   */
  function StepAsWritten(h: Int32, unit: CodeUnit): Int32 {
    ToInt32(ToInt32(h * 32) - h + unit)
  }

  /** The shift-subtract form is multiplication by 31 modulo 2^32. */
  lemma StepAsWrittenIsStep(h: Int32, unit: CodeUnit)
    ensures StepAsWritten(h, unit) == Step(h, unit)
  {
    var s := ToInt32(h * 32);
    var k := (h * 32 - s) / TwoTo32;
    assert h * 32 - s == k * TwoTo32;
    ToInt32Congruent(31 * h + unit, s - h + unit, k);
  }

  /** The int32 `hash` variable after the loop has consumed all of `s`. */
  function Accumulate(s: String): Int32 {
    if |s| == 0 then 0 else Step(Accumulate(s[..|s| - 1]), s[|s| - 1])
  }

  function Abs(x: int): nat {
    if x < 0 then -x else x
  }

  /** `hashString(s)`. `Math.abs(-2^31)` is 2^31, so the bound is inclusive. */
  function Hash(s: String): (r: nat)
    ensures r <= TwoTo31
  {
    Abs(Accumulate(s))
  }

  /** The source loop, with the shift-subtract step, computes `Hash`. */
  method HashString(str: String) returns (r: nat)
    ensures r == Hash(str)
    ensures r <= TwoTo31
  {
    var hash: Int32 := 0;
    for i := 0 to |str|
      invariant hash == Accumulate(str[..i])
    {
      var ch := str[i];
      StepAsWrittenIsStep(hash, ch);
      assert str[..i + 1][..i] == str[..i];
      hash := ToInt32(ToInt32(hash * 32) - hash + ch);
    }
    assert str[..|str|] == str;
    r := if hash < 0 then -(hash as int) else hash as int;
  }

  lemma HashEmpty()
    ensures Hash([]) == 0
  {
  }

  /** The upper bound 2^31 is reached: the ASCII string "xfjfxtf" accumulates to -2^31. */
  lemma HashBoundReached()
    ensures Hash([120, 102, 106, 102, 120, 116, 102]) == TwoTo31
  {
    var s: String := [120, 102, 106, 102, 120, 116, 102];
    var p0: String := [];
    var p1 := p0 + [120];
    AccumulateSnoc(p0, 120);
    assert Step(0, 120) == 120;
    var p2 := p1 + [102];
    AccumulateSnoc(p1, 102);
    assert Step(120, 102) == 3822;
    var p3 := p2 + [106];
    AccumulateSnoc(p2, 106);
    assert Step(3822, 106) == 118588;
    var p4 := p3 + [102];
    AccumulateSnoc(p3, 102);
    assert Step(118588, 102) == 3676330;
    var p5 := p4 + [120];
    AccumulateSnoc(p4, 120);
    assert Step(3676330, 120) == 113966350;
    var p6 := p5 + [116];
    AccumulateSnoc(p5, 116);
    assert Step(113966350, 116) == -762010330;
    var p7 := p6 + [102];
    AccumulateSnoc(p6, 102);
    assert Step(-762010330, 102) == -2147483648;
    assert p7 == s;
  }

  lemma AccumulateSnoc(s: String, c: CodeUnit)
    ensures Accumulate(s + [c]) == Step(Accumulate(s), c)
  {
    assert (s + [c])[..|s|] == s;
  }
}
