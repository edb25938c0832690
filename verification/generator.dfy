/**
 * The deterministic parts of utils/snowflakeGenerator.ts: the Park–Miller
 * "minimal standard" generator `SeededRandom`, the derivation of snowflake
 * parameters from a text and a signature, and how many random draws and SVG
 * lines each branch of the image consumes and emits. Coordinates, stroke
 * widths and the SVG text itself are not modelled; JavaScript doubles are
 * modelled as exact reals.
 */
module Generator {
  import opened Wrappers
  import opened Text
  import Hash

  /** The generator's modulus, the Mersenne prime 2^31 - 1. */
  const Modulus: int := 2147483647
  /** The generator's multiplier, 7^5. */
  const Multiplier: int := 16807
  /** The inverse of `Multiplier` modulo `Modulus`: 16807 * 1407677000 == 1 + 11017 * Modulus. */
  const InverseMultiplier: int := 1407677000

  /** A state the generator can be in once constructed from a non-negative seed. */
  type State = s: int | 1 <= s <= 2147483646 witness 1

  /** JavaScript `Math.trunc(a / b)` on integers: the quotient rounded toward zero. */
  function JsQuot(a: int, b: int): int
    requires b > 0
  {
    if a >= 0 then a / b else -((-a) / b)
  }

  /**
   * JavaScript `%` on integers: truncates toward zero, so the sign follows
   * the dividend, and it completes the truncated quotient to the dividend.
   */
  function JsRem(a: int, b: int): (r: int)
    requires b > 0
    ensures a >= 0 ==> 0 <= r < b
    ensures a < 0 ==> -b < r <= 0
    ensures JsQuot(a, b) * b + r == a
  {
    var n := if a >= 0 then a else -a;
    DivMod(n, b);
    if a >= 0 then a % b else -(n % b)
  }

  /** The constructor `new SeededRandom(seed)`: the initial state. */
  function Init(seed: int): (s: int)
    ensures seed >= 0 ==> 1 <= s <= 2147483646
    ensures seed >= 0 && seed % Modulus != 0 ==> s == seed % Modulus
    ensures seed >= 0 && seed % Modulus == 0 ==> s == Modulus - 1
  {
    var s0 := JsRem(seed, Modulus);
    if s0 <= 0 then s0 + 2147483646 else s0
  }

  /** Seed 0 is remapped to 2147483646. */
  lemma InitZero()
    ensures Init(0) == 2147483646
  {
  }

  /**
   * The remapping only repairs non-negative seeds: a negative seed such as
   * -2147483646 leaves the generator in state 0, where it stays. The source
   * only ever seeds it with `hashString` output, which is non-negative.
   */
  lemma InitNegativeSeedReachesZero()
    ensures Init(-2147483646) == 0
  {
  }

  /** `x == r + m * Modulus` with `0 <= r < Modulus` pins down `x % Modulus`. */
  lemma ModOfMultiple(x: int, r: int, m: int)
    requires 0 <= r < Modulus
    requires x == r + m * Modulus
    ensures x % Modulus == r
  {
  }

  /** Multiplying by `InverseMultiplier` undoes a multiplication by `Multiplier` modulo `Modulus`. */
  lemma {:induction false} UndoMultiplier(s: int)
    requires 0 <= s < Modulus
    ensures ((s * Multiplier) % Modulus * InverseMultiplier) % Modulus == s
  {
    var t := s * Multiplier;
    var q := t / Modulus;
    var r := t % Modulus;
    assert t == q * Modulus + r;
    assert Multiplier * InverseMultiplier == 1 + 11017 * Modulus;
    calc {
      r * InverseMultiplier;
      (t - q * Modulus) * InverseMultiplier;
      t * InverseMultiplier - q * Modulus * InverseMultiplier;
      s * (Multiplier * InverseMultiplier) - q * Modulus * InverseMultiplier;
      s * (1 + 11017 * Modulus) - q * Modulus * InverseMultiplier;
      s + (s * 11017 - q * InverseMultiplier) * Modulus;
    }
    ModOfMultiple(r * InverseMultiplier, s, s * 11017 - q * InverseMultiplier);
  }

  /** The state transition of `next()`: multiplication by 16807 modulo 2^31 - 1. */
  function Advance(s: State): (s': State)
    ensures Retreat(s') == s
  {
    var t := (s * Multiplier) % Modulus;
    UndoMultiplier(s);
    t
  }

  /** The inverse transition; it exists because 16807 is invertible modulo the prime 2^31 - 1. */
  function Retreat(s: State): int {
    (s * InverseMultiplier) % Modulus
  }

  /** Distinct states stay distinct: the generator permutes its state space. */
  lemma AdvanceInjective(a: State, b: State)
    requires Advance(a) == Advance(b)
    ensures a == b
  {
  }

  /** The value `next()` returns for the state it has just moved to. */
  function Draw(s: State): (d: real)
    ensures 0.0 <= d < 1.0
  {
    (s - 1) as real / 2147483646.0
  }

  /** `next()`: the new state and the draw in [0, 1). */
  function Next(s: State): (r: (State, real))
    ensures r.0 == Advance(s) && r.1 == Draw(r.0)
    ensures 0.0 <= r.1 < 1.0
  {
    var s' := Advance(s);
    (s', Draw(s'))
  }

  /** The state after `n` calls to `next()`. */
  function AdvanceN(s: State, n: nat): State
    decreases n
  {
    if n == 0 then s else AdvanceN(Advance(s), n - 1)
  }

  // ---------------------------------------------------------------------------
  // generateSnowflakeParams
  // ---------------------------------------------------------------------------

  datatype Params = Params(branches: nat, complexity: int, symmetry: real, seed: nat)

  /** `signature.trim() || text`: the string the hash is taken of. */
  function SeedSource(text: String, signature: String): String {
    var sig := Trim(signature);
    if sig != [] then sig else text
  }

  /** `generateSnowflakeParams(text, signature)`. */
  function GenerateParams(text: String, signature: String): (p: Params)
    ensures p.branches == 6
    ensures 3 <= p.complexity <= 7
    ensures 0.85 <= p.symmetry < 1.15
    ensures p.seed == Hash.Hash(SeedSource(text, signature))
  {
    var hash := Hash.Hash(SeedSource(text, signature));
    var s0 := Init(hash);
    var (s1, d1) := Next(s0);
    var (s2, d2) := Next(s1);
    Params(6, (d1 * 5.0).Floor + 3, d2 * 0.3 + 0.85, hash)
  }

  /** With a non-blank signature the text plays no part. */
  lemma SignatureDecides(text1: String, text2: String, signature: String)
    requires Trim(signature) != []
    ensures GenerateParams(text1, signature) == GenerateParams(text2, signature)
  {
  }

  /** Parameters are a function of the seed source alone. */
  lemma ParamsFromSourceOnly(text: String, signature: String)
    ensures GenerateParams(text, signature) == GenerateParams(SeedSource(text, signature), [])
  {
  }

  // ---------------------------------------------------------------------------
  // generateBranch / generateSnowflakeSVG: draw and line counting
  // ---------------------------------------------------------------------------

  /** The generator state left by one branch, and what the branch consumed and emitted. */
  datatype BranchTally = BranchTally(state: State, draws: nat, lines: nat, sides: nat)

  /**
   * The draws of `n` segments after the main line, taken in order from `s`:
   * each draws once and, above 0.3, three more for its two side lines.
   * Returns the state after them and how many segments grew side lines.
   */
  function Segments(s: State, n: nat): (r: (State, nat))
    ensures r.1 <= n
    decreases n
  {
    if n == 0 then (s, 0)
    else
      var s1 := Advance(s);
      if Draw(s1) > 0.3 then
        var rest := Segments(Advance(Advance(Advance(s1))), n - 1);
        (rest.0, rest.1 + 1)
      else Segments(s1, n - 1)
  }

  /** The side-line segments of `branches` branches of `n + 1` segments each, drawn one after another from `s`. */
  function BranchSides(s: State, branches: nat, n: nat): nat
    decreases branches
  {
    if branches == 0 then 0
    else
      var (e, sides) := Segments(s, n);
      sides + BranchSides(e, branches - 1, n)
  }

  /**
   * The control flow of `generateBranch`: segment 0 emits the main line and
   * draws nothing; every later segment draws once and, when that draw exceeds
   * 0.3, draws three more and emits two side lines.
   */
  method GenerateBranch(s: State, complexity: int) returns (t: BranchTally)
    ensures complexity >= 1 ==> t.lines == 1 + 2 * t.sides && t.sides <= complexity - 1
    ensures complexity >= 1 ==> t.draws == complexity - 1 + 3 * t.sides
    ensures complexity < 1 ==> t.lines == 0 && t.sides == 0 && t.draws == 0 && t.state == s
    ensures t.state == AdvanceN(s, t.draws)
    ensures complexity >= 1 ==> (t.state, t.sides) == Segments(s, complexity - 1)
  {
    var rng := s;
    var draws, lines, sides := 0, 0, 0;
    var i := 0;
    while i < complexity
      invariant complexity >= 1 ==> 0 <= i <= complexity
      invariant complexity < 1 ==> i == 0
      invariant rng == AdvanceN(s, draws)
      invariant i == 0 ==> lines == 0 && draws == 0 && sides == 0
      invariant i >= 1 ==> lines == 1 + 2 * sides && sides <= i - 1
      invariant i >= 1 ==> draws == i - 1 + 3 * sides
      invariant i >= 1 ==>
        Segments(s, complexity - 1) == (Segments(rng, complexity - i).0, sides + Segments(rng, complexity - i).1)
    {
      if i == 0 {
        lines := lines + 1;
      }
      if i > 0 {
        var (r1, d) := Next(rng);
        AdvanceNSucc(s, draws);
        rng, draws := r1, draws + 1;
        if d > 0.3 {
          var (r2, _) := Next(rng);
          AdvanceNSucc(s, draws);
          var (r3, _) := Next(r2);
          AdvanceNSucc(s, draws + 1);
          var (r4, _) := Next(r3);
          AdvanceNSucc(s, draws + 2);
          rng, draws := r4, draws + 3;
          lines, sides := lines + 2, sides + 1;
        }
      }
      i := i + 1;
    }
    t := BranchTally(rng, draws, lines, sides);
  }

  lemma {:induction false} AdvanceNSucc(s: State, n: nat)
    ensures AdvanceN(s, n + 1) == Advance(AdvanceN(s, n))
    decreases n
  {
    if n > 0 {
      AdvanceNSucc(Advance(s), n - 1);
    }
  }

  lemma BranchSidesStep(s: State, branches: nat, n: nat)
    requires branches >= 1
    ensures BranchSides(s, branches, n) == Segments(s, n).1 + BranchSides(Segments(s, n).0, branches - 1, n)
  {
  }

  /**
   * `generateSnowflakeSVG(params)`: one generator seeded with `params.seed`
   * is shared by all branches in turn. Returns the number of lines emitted
   * and how many segments grew side lines.
   */
  method GenerateSnowflake(p: Params) returns (lines: nat, sides: nat)
    ensures p.complexity >= 1 ==> lines == p.branches + 2 * sides
    ensures p.complexity >= 1 ==> sides <= p.branches * (p.complexity - 1)
    ensures p.complexity < 1 ==> lines == 0 && sides == 0
    ensures p.complexity >= 1 ==> sides == BranchSides(Init(p.seed), p.branches, p.complexity - 1)
  {
    var rng: State := Init(p.seed);
    var perBranch := p.complexity - 1;
    lines, sides := 0, 0;
    var b := 0;
    while b < p.branches
      invariant b <= p.branches
      invariant p.complexity >= 1 ==> lines == b + 2 * sides && sides <= b * perBranch
      invariant p.complexity < 1 ==> lines == 0 && sides == 0
      invariant p.complexity >= 1 ==>
        sides + BranchSides(rng, p.branches - b, perBranch) == BranchSides(Init(p.seed), p.branches, perBranch)
    {
      var t := GenerateBranch(rng, p.complexity);
      assert (b + 1) * perBranch == b * perBranch + perBranch;
      if p.complexity >= 1 {
        BranchSidesStep(rng, p.branches - b, perBranch);
      }
      rng := t.state;
      lines, sides := lines + t.lines, sides + t.sides;
      b := b + 1;
    }
  }

  // ---------------------------------------------------------------------------
  // generateSnowflakeDataURL: the seed text
  // ---------------------------------------------------------------------------

  /** `(text ?? '').trim() || 'snowflake'`. */
  function SafeText(text: Option<String>): (r: String)
    ensures r != []
  {
    var t := Trim(text.GetOr([]));
    if t != [] then t else Lit("snowflake")
  }

  /** The parameters `generateSnowflakeDataURL(text, size, signature)` renders. */
  function DataUrlParams(text: Option<String>, signature: String): Params {
    GenerateParams(SafeText(text), signature)
  }

  /** Missing, empty and whitespace-only text all render the snowflake of the word "snowflake". */
  lemma BlankTextFallsBack(text: Option<String>, signature: String)
    requires text.None? || AllWhite(text.value)
    ensures SafeText(text) == Lit("snowflake")
    ensures DataUrlParams(text, signature) == GenerateParams(Lit("snowflake"), signature)
  {
  }

  /** Surrounding whitespace in the text does not change the image. */
  lemma SurroundingWhitespaceIgnored(text: String, signature: String)
    ensures DataUrlParams(Some(text), signature) == DataUrlParams(Some(Trim(text)), signature)
  {
    TrimIdempotent(text);
  }
}
