/**
 * The earlier monolithic implementation, halffloat/hf_lib.c.
 *
 * Most of its operations are the code the modular files later took over
 * unchanged: `hf_abs`, `hf_neg`, `hf_mul`, `hf_ln`, `hf_exp` and
 * `reduce_radian_uword` are the members `Arith.Abs`, `Arith.Neg`,
 * `Arith.Mul`, `ExpLog.Ln`, `ExpLog.Exp` and `LibCommon.ReduceRadianUword`,
 * and `normalize_denormalized_mantissa` is `Denormal`.  This module holds
 * the operations whose code differs: `hf_int` (a fixed-point mask instead
 * of a fraction mask), `hf_add` (no case for two zeros), `hf_div` (0/0 is
 * a NaN), `hf_sqrt` (a shift-and-subtract root of a fixed-point value),
 * `hf_pow` (a negative base is never raised), and `sinus_shiftable` and
 * `hf_tan` (other interpolation rules).  Each one builds the record it
 * passes to `compose_half`, as the source does with its local `result`,
 * and each is related to its modular counterpart or to the value it
 * approximates.
 */
module Legacy {
  import opened CInt
  import opened HalfCommon
  import opened Precalc
  import opened LibCommon
  import opened IntSqrt
  import Arith
  import ExpLog
  import Trig
  import Round

  // ------------------------------------------------------------------ hf_int

  /** `hf_int` */
  function Int(w: Word): Word
  {
    Composed(IntResult(Decompose(w)))
  }

  /**
   * The record `hf_int` hands to `compose_half`: NaN, infinities and zeros
   * pass through; any other operand becomes its Q15 fixed-point magnitude
   * with the fifteen fraction bits masked off, at exponent 0, rounded.
   */
  function IntResult(a: HalfFloat): (r: HalfFloat)
    requires Trig.Decoded(a)
    ensures r.sign == a.sign && r.mant >= 0
  {
    if IsNaN(a) || IsInfinity(a) || IsZero(a) then a
    else
      // `value & ~((1U << 15) - 1U)` on a non-negative value.
      var value := Trig.Fixed(a);
      NormalizedRounded(HalfFloat(a.sign, 0, value / 0x8000 * 0x8000))
  }

  /**
   * `hf_int` of this file and `hf_trunc` of halffloat/hf_lib_round.c agree
   * on every word: masking the fixed-point value at the binary point and
   * masking the fraction bits of the mantissa at its exponent keep the same
   * integer part.
   */
  lemma IntIsTrunc(w: Word)
    ensures Int(w) == Round.Trunc(w)
  {
    var a := Decompose(w);
    if IsNaN(a) || IsInfinity(a) || IsZero(a) {
    } else if a.exp < 0 {
      IntBelowOne(a);
      ComposeZeroMantissa(IntResult(a));
    } else if a.exp < Round.MANT_BITS {
      Round.DecodedInRange(w);
      Round.TruncRecord(a, FracField(w) + 1024, Pow2(25 - ExpField(w)));
      IntInRange(a);
    } else {
      IntLarge(a);
    }
  }

  /** Below 1.0 the fixed-point value has no integer bits: the record is a zero of the operand's sign. */
  lemma IntBelowOne(a: HalfFloat)
    requires Trig.Decoded(a) && !IsNaN(a) && !IsInfinity(a) && !IsZero(a) && a.exp < 0
    ensures IntResult(a).mant == 0 && IntResult(a).exp < EXP_FULL
  {
    var value := Trig.Fixed(a);
    assert value / 0x8000 == 0;
  }

  /**
   * From exponent 0 to 9 the mask keeps the multiple of 2^(15 - exp)
   * below the mantissa, shifted up by the exponent, which normalises back
   * to the record `hf_trunc` builds.
   */
  lemma IntInRange(a: HalfFloat)
    requires Trig.Decoded(a) && !IsNaN(a) && !IsInfinity(a) && !IsZero(a) && 0 <= a.exp < Round.MANT_BITS
    requires var m := Round.TruncMantissa(a); MANT_NORM_MIN <= m < MANT_OVERFLOW && m % 32 == 0
    ensures IntResult(a) == Round.TruncResult(a)
  {
    var m := Round.TruncMantissa(a);
    var h := a.(mant := m);
    MaskScaled(a.mant, a.exp);
    assert Trig.Fixed(a) / 0x8000 * 0x8000 == m * Pow2(a.exp);
    NormalizedScaled(h, a.exp);
    assert h.(mant := m * Pow2(a.exp), exp := a.exp - a.exp) == HalfFloat(a.sign, 0, m * Pow2(a.exp));
    NormalizedExact(h);
  }

  /** From exponent 10 up the mantissa has no fraction bits and `hf_int` returns the operand. */
  lemma IntLarge(a: HalfFloat)
    requires Trig.Decoded(a) && !IsNaN(a) && !IsInfinity(a) && !IsZero(a) && Round.MANT_BITS <= a.exp
    requires a.mant % 32 == 0
    ensures IntResult(a) == a
  {
    var u, v := Pow2(15 - a.exp), Pow2(a.exp - 10);
    MaskScaled(a.mant, a.exp);
    Pow2Add(15 - a.exp, a.exp - 10);
    assert Pow2(5) == 32;
    ExactMultiple(a.mant, u, v);
    assert Trig.Fixed(a) / 0x8000 * 0x8000 == a.mant * Pow2(a.exp);
    NormalizedScaled(a, a.exp);
    assert a.(mant := a.mant * Pow2(a.exp), exp := a.exp - a.exp) == HalfFloat(a.sign, 0, a.mant * Pow2(a.exp));
  }

  /**
   * `(m << e) & ~0x7FFF` is `m` rounded down to a multiple of 2^(15 - e),
   * shifted up by `e`.
   */
  lemma MaskScaled(m: nat, e: nat)
    requires e <= 15
    ensures m * Pow2(e) / 0x8000 * 0x8000 == m / Pow2(15 - e) * Pow2(15 - e) * Pow2(e)
  {
    Pow2Add(15 - e, e);
    Trig.Pow2Fifteen();
    MaskCore(m, Pow2(15 - e), Pow2(e));
  }

  lemma MaskCore(m: nat, u: int, p: int)
    requires u >= 1 && p >= 1
    ensures m * p / (u * p) * (u * p) == m / u * u * p
  {
    var q, r := m / u, m % u;
    assert m == q * u + r;
    assert m * p == q * (u * p) + r * p;
    MulLe(r, u - 1, p);
    assert (u - 1) * p == u * p - p;
    DivUnique(m * p, u * p, q);
    assert q * (u * p) == q * u * p;
  }

  /** A multiple of `u * v` is its own multiple of `u`. */
  lemma ExactMultiple(m: nat, u: nat, v: nat)
    requires u >= 1 && v >= 1 && u * v == 32 && m % 32 == 0
    ensures m / u * u == m
  {
    var c := m / 32;
    assert m == c * 32 == (c * v) * u;
    DivUnique(m, u, c * v);
  }

  /**
   * A normal record with clear guard bits, its mantissa scaled up by 2^j
   * and its exponent lowered by j, normalises back to the record itself.
   */
  lemma NormalizedScaled(h: HalfFloat, j: nat)
    requires MANT_NORM_MIN <= h.mant < MANT_OVERFLOW && h.mant % 32 == 0 && h.exp < EXP_FULL
    ensures NormalizedRounded(h.(mant := h.mant * Pow2(j), exp := h.exp - j)) == h
  {
    var g := h.(mant := h.mant * Pow2(j), exp := h.exp - j);
    MulLe(1, Pow2(j), h.mant);
    assert ShiftUp(g) == g;
    ShiftDownScaled(h, j);
    assert ShiftUp(h) == h;
    assert NormalizedRounded(g) == NormalizedRounded(h);
    NormalizedExact(h);
  }

  lemma {:induction false} ShiftDownScaled(h: HalfFloat, j: nat)
    requires MANT_NORM_MIN <= h.mant < MANT_OVERFLOW
    ensures ShiftDown(h.(mant := h.mant * Pow2(j), exp := h.exp - j)) == h
  {
    var g := h.(mant := h.mant * Pow2(j), exp := h.exp - j);
    if j == 0 {
      assert g == h;
    } else {
      assert Pow2(j) == 2 * Pow2(j - 1);
      MulLe(1, Pow2(j - 1), h.mant);
      assert g.mant == 2 * (h.mant * Pow2(j - 1));
      assert g.mant >= MANT_OVERFLOW;
      assert g.(mant := g.mant / 2, exp := g.exp + 1) == h.(mant := h.mant * Pow2(j - 1), exp := h.exp - (j - 1));
      ShiftDownScaled(h, j - 1);
    }
  }

  // ------------------------------------------------------------------ hf_add

  /** `hf_add` */
  function Add(w1: Word, w2: Word): Word
  {
    Composed(AddResult(Decompose(w1), Decompose(w2)))
  }

  /**
   * The record `hf_add` hands to `compose_half`: the NaN (first NaN's
   * sign, 16, 1), (-, 16, 1) for opposite infinities, an infinite operand
   * as it is, and every pair of finite operands, two zeros included, on
   * the arithmetic path of `Arith.AddFinite`.
   */
  function AddResult(a: HalfFloat, b: HalfFloat): (r: HalfFloat)
    requires Arith.Operand(a) && Arith.Operand(b)
    ensures ValidSign(r.sign) && r.mant >= 0
  {
    if IsNaN(a) || IsNaN(b) then
      HalfFloat(if IsNaN(a) then a.sign else b.sign, EXP_FULL, 1)
    else if IsInfinity(a) || IsInfinity(b) then
      if IsInfinity(a) && IsInfinity(b) then
        if a.sign != b.sign then HalfFloat(ZERO_NEG, EXP_FULL, 1) else a
      else if IsInfinity(a) then a else b
    else
      Arith.AddFinite(a, b)
  }

  /**
   * The modular `hf_add` added a case for two zeros and changed nothing
   * else: on every pair of words that are not both zeros the two agree.
   */
  lemma AddAgrees(w1: Word, w2: Word)
    requires !(IsZero(Decompose(w1)) && IsZero(Decompose(w2)))
    ensures Add(w1, w2) == Arith.Add(w1, w2)
  {
  }

  /**
   * Two zeros go through the arithmetic path, whose zero sum is positive:
   * the sum of any two zeros is +0, so -0 + -0 is +0 here where the
   * modular `hf_add` gives -0.
   */
  lemma AddZeros(w1: Word, w2: Word)
    requires w1 == ZERO_POS || w1 == ZERO_NEG
    requires w2 == ZERO_POS || w2 == ZERO_NEG
    ensures Add(w1, w2) == ZERO_POS
    ensures w1 == ZERO_NEG && w2 == ZERO_NEG ==> Add(w1, w2) != Arith.Add(w1, w2)
  {
    var a, b := Decompose(w1), Decompose(w2);
    DecomposeZero(w1);
    DecomposeZero(w2);
    assert AlignMantissas(a, b) == (a, b);
    ComposeZeroMantissa(AddResult(a, b));
    Arith.AddZeros(w1, w2);
  }

  /** Exact cancellation: every finite number plus its negation is +0, in either order, zeros included. */
  lemma AddCancels(w: Word)
    requires ExpField(w) != 31
    ensures Add(w, Arith.Neg(w)) == ZERO_POS && Add(Arith.Neg(w), w) == ZERO_POS
  {
    var n := Arith.Neg(w);
    DecomposeZero(w);
    DecomposeZero(n);
    if w == ZERO_POS || w == ZERO_NEG {
      AddZeros(w, n);
      AddZeros(n, w);
    } else {
      AddAgrees(w, n);
      AddAgrees(n, w);
      Arith.AddCancels(w);
    }
  }

  // ------------------------------------------------------------------ hf_div

  /** `hf_div` */
  function Div(w1: Word, w2: Word): Word
  {
    Composed(DivResult(Decompose(w1), Decompose(w2)))
  }

  /**
   * The record `hf_div` hands to `compose_half`, in the order of the
   * source's tests: a NaN, infinity over infinity, zero over zero (the NaN
   * with the XOR of the signs), an infinite dividend, an infinite divisor
   * or a zero dividend, a zero divisor, and the arithmetic path of
   * `Arith.DivFinite`.
   */
  function DivResult(a: HalfFloat, b: HalfFloat): (r: HalfFloat)
    requires Arith.Operand(a) && Arith.Operand(b)
    ensures ValidSign(r.sign) && r.mant >= 0
  {
    var sign := Arith.SignXor(a.sign, b.sign);
    if IsNaN(a) || IsNaN(b) then
      HalfFloat(if IsNaN(a) then a.sign else b.sign, EXP_FULL, 1)
    else if IsInfinity(a) && IsInfinity(b) then
      HalfFloat(ZERO_NEG, EXP_FULL, 1)
    else if IsZero(a) && IsZero(b) then
      HalfFloat(sign, EXP_FULL, 1)
    else if IsInfinity(a) then
      HalfFloat(sign, EXP_FULL, 0)
    else if IsInfinity(b) || IsZero(a) then
      HalfFloat(sign, -EXP_BIAS, 0)
    else if IsZero(b) then
      HalfFloat(sign, EXP_FULL, 0)
    else
      Arith.DivFinite(a, b)
  }

  /** Except for zero over zero, `hf_div` of this file and of the modular file agree on every pair of words. */
  lemma DivAgrees(w1: Word, w2: Word)
    requires !(IsZero(Decompose(w1)) && IsZero(Decompose(w2)))
    ensures Div(w1, w2) == Arith.Div(w1, w2)
  {
  }

  /**
   * Zero over zero is a NaN carrying the XOR of the signs (0x7E00 for equal
   * signs, 0xFE00 otherwise), where the modular `hf_div` gives an infinity.
   */
  lemma DivZeroByZero(w1: Word, w2: Word)
    requires w1 == ZERO_POS || w1 == ZERO_NEG
    requires w2 == ZERO_POS || w2 == ZERO_NEG
    ensures Div(w1, w2) == if w1 == w2 then NAN else SIGN_NEG + NAN
    ensures Div(w1, w2) != Arith.Div(w1, w2)
  {
    var a, b := Decompose(w1), Decompose(w2);
    DecomposeZero(w1);
    DecomposeZero(w2);
    assert DivResult(a, b) == HalfFloat(Arith.SignXor(w1, w2), EXP_FULL, 1);
    Arith.DivZeroByZero(w1, w2);
  }

  // ----------------------------------------------------------------- hf_sqrt

  /** `hf_sqrt` */
  function Sqrt(w: Word): Word
  {
    Composed(SqrtResult(Decompose(w)))
  }

  /**
   * The record `hf_sqrt` hands to `compose_half`: a zero as it is, a NaN or
   * a negative operand the NaN with the operand's sign, +infinity as
   * (+, 16, 0), and a positive finite operand the arithmetic path.
   */
  function SqrtResult(a: HalfFloat): (r: HalfFloat)
    requires Trig.Decoded(a)
    ensures ValidSign(r.sign) && r.mant >= 0
  {
    if IsZero(a) then a
    else if IsNaN(a) || a.sign != SIGN_POS then HalfFloat(a.sign, EXP_FULL, 1)
    else if IsInfinity(a) then HalfFloat(SIGN_POS, EXP_FULL, 0)
    else SqrtFinite(a)
  }

  /**
   * The fixed-point value `hf_sqrt` takes the root of: the mantissa shifted
   * up by one, then by the exponent (down for a negative one).  With a
   * mantissa below 2^16 and an exponent at most 15 it fits in 32 bits, so
   * the `uint32_t` shifts never lose a bit at the top.
   */
  function SqrtRadicand(a: HalfFloat): (v: Bits32)
    requires 0 <= a.mant < MANT_OVERFLOW && EXP_MIN <= a.exp <= EXP_BIAS
    ensures a.exp >= 0 ==> v == a.mant * 2 * Pow2(a.exp)
  {
    RadicandBounds(a.mant * 2, a.exp);
    ExpLog.Scaled(a.mant * 2, a.exp)
  }

  lemma RadicandBounds(m: int, e: int)
    requires 0 <= m < 2 * MANT_OVERFLOW && EXP_MIN <= e <= EXP_BIAS
    ensures 0 <= ExpLog.Scaled(m, e) < 0x1_0000_0000
  {
    if e >= 0 {
      Pow2Monotone(e, 15);
      Trig.Pow2Fifteen();
      Trig.ProductBelow(m, Pow2(e), 2 * MANT_OVERFLOW - 1, 0x8000);
    } else {
      DivFacts(m, Pow2(-e));
    }
  }

  /**
   * The arithmetic path of `hf_sqrt`: the shift-and-subtract loop leaves
   * twice the integer root of the radicand, which `sqrt << 6` turns into a
   * Q15 mantissa with exponent 0 (the radicand carries 16 fraction bits,
   * its root 8), rounded.
   */
  function SqrtFinite(a: HalfFloat): (r: HalfFloat)
    requires 0 <= a.mant < MANT_OVERFLOW && EXP_MIN <= a.exp <= EXP_BIAS
    ensures r.sign == SIGN_POS && r.mant >= 0
  {
    NormalizedRounded(HalfFloat(SIGN_POS, 0, 2 * SquareRootOf(SqrtRadicand(a)) * 64))
  }

  /**
   * The loop of `hf_sqrt` from iteration `loop` down to 0: each iteration
   * shifts the next two bits of `value` into `quot` and one bit into
   * `sqrt`, subtracting `sqrt + 1` from `quot` when it fits.
   */
  function ShiftLoop(value: Bits32, quot: int, sqrt: int, loop: int): int
    decreases loop + 1
  {
    if loop < 0 then sqrt
    else
      var d := TopDigit(value);
      ShiftLoop(ShiftedUp(value), ShiftQuot(d, quot, sqrt), ShiftRoot(d, quot, sqrt), loop - 1)
  }

  /** `value >> 30`: the bit pair at the top of a 32-bit word. */
  function TopDigit(value: Bits32): int {
    value / 0x4000_0000 % 4
  }

  /** `value << 2` within 32 bits. */
  function ShiftedUp(value: Bits32): Bits32 {
    value * 4 % 0x1_0000_0000
  }

  /** `quot` after one iteration that brings in the bit pair `d`. */
  function ShiftQuot(d: int, quot: int, sqrt: int): int {
    var q, s := quot * 4 + d, sqrt * 2;
    if q >= s + 1 then q - (s + 1) else q
  }

  /** `sqrt` after one iteration: doubled, plus two when `sqrt + 1` fitted. */
  function ShiftRoot(d: int, quot: int, sqrt: int): int {
    var q, s := quot * 4 + d, sqrt * 2;
    if q >= s + 1 then s + 2 else s
  }

  /**
   * The loop of `hf_sqrt` as the source runs it.  `sqrt` holds twice the
   * root found so far, so the sixteen iterations end with twice the integer
   * square root of the input, the root the modular `square_root` computes.
   */
  method ShiftSquareRoot(input: Bits32) returns (sqrt: int)
    ensures sqrt == 2 * SquareRootOf(input)
  {
    var loop := 16;
    sqrt := 0;
    var quot := 0;
    var value: Bits32 := input;
    loop := loop - 1;
    ShiftLoopStart(input, quot, sqrt, loop);
    while loop >= 0
      invariant -1 <= loop <= 15
      invariant ShiftLoop(value, quot, sqrt, loop) == 2 * SquareRootOf(input)
      decreases loop
    {
      ghost var value0, quot0, sqrt0 := value, quot, sqrt;
      ghost var d := value / 0x4000_0000 % 4;
      quot := quot * 4 + value / 0x4000_0000 % 4;
      sqrt := sqrt * 2;
      value := value * 4 % 0x1_0000_0000;
      if quot >= sqrt + 1 {
        sqrt := sqrt + 1;
        quot := quot - sqrt;
        sqrt := sqrt + 1;
      }
      loop := loop - 1;
      assert quot == ShiftQuot(d, quot0, sqrt0) && sqrt == ShiftRoot(d, quot0, sqrt0);
      assert ShiftLoop(value0, quot0, sqrt0, loop + 1) == ShiftLoop(value, quot, sqrt, loop);
    }
  }

  /** Started on the whole input with nothing consumed, the sixteen iterations end with twice its root. */
  lemma ShiftLoopStart(v: Bits32, quot: int, sqrt: int, loop: int)
    requires quot == 0 && sqrt == 0 && loop == 15
    ensures ShiftLoop(v, quot, sqrt, loop) == 2 * SquareRootOf(v)
  {
    ShiftLoopCorrect(v, 0, v, quot, sqrt, loop);
  }

  /** `value` after `k` iterations: the input shifted left by `2k` bits within 32 bits. */
  ghost function Remaining(v: Bits32, k: nat): Bits32 {
    if k == 0 then v else ShiftedUp(Remaining(v, k - 1))
  }

  /** The radicand consumed after `k` iterations: the bit pairs shifted out of `value`. */
  ghost function Consumed(v: Bits32, k: nat): int {
    if k == 0 then 0 else 4 * Consumed(v, k - 1) + TopDigit(Remaining(v, k - 1))
  }

  /**
   * After `k` iterations `value` holds the unconsumed low bits of the input
   * shifted to the top, and `sqrt / 2` is the root of the consumed prefix
   * with remainder `quot`; the remaining iterations end with twice the root
   * of the whole input.
   */
  lemma {:induction false} ShiftLoopCorrect(v: Bits32, k: nat, value: Bits32, quot: int, sqrt: int, loop: int)
    requires k <= 16 && loop == 15 - k && value == Remaining(v, k)
    requires sqrt % 2 == 0 && RootOfPrefix(Consumed(v, k), quot, sqrt / 2)
    ensures ShiftLoop(value, quot, sqrt, loop) == 2 * SquareRootOf(v)
    decreases 16 - k
  {
    if k == 16 {
      ConsumedWhole(v, k);
      RootsAgree(v, sqrt / 2, SquareRootOf(v));
    } else {
      ShiftStep(Consumed(v, k), quot, sqrt, TopDigit(value));
      ShiftLoopCorrect(v, k + 1, ShiftedUp(value),
        ShiftQuot(TopDigit(value), quot, sqrt), ShiftRoot(TopDigit(value), quot, sqrt), loop - 1);
    }
  }

  /** After sixteen iterations the whole input has been consumed. */
  lemma ConsumedWhole(v: Bits32, k: nat)
    requires k == 16
    ensures Consumed(v, k) == v
  {
    ConsumedTopBits(v, k);
    assert 32 - 2 * k == 0;
    assert Pow2(0) == 1;
  }

  /** The consumed radicand is the top `2k` bits of the input, and `value` the rest shifted up. */
  lemma {:induction false} ConsumedTopBits(v: Bits32, k: nat)
    requires k <= 16
    ensures Consumed(v, k) == v / Pow2(32 - 2 * k)
    ensures Remaining(v, k) == v % Pow2(32 - 2 * k) * Pow2(2 * k)
  {
    if k == 0 {
      ShiftStart(v, k);
    } else {
      ConsumedTopBits(v, k - 1);
      ShiftDigit(v, k - 1, Remaining(v, k - 1));
      assert 30 - 2 * (k - 1) == 32 - 2 * k;
    }
  }

  /** Before the first iteration nothing is consumed and the value is the input. */
  lemma ShiftStart(v: Bits32, k: int)
    requires k == 0
    ensures v == v % Pow2(32 - 2 * k) * Pow2(2 * k)
    ensures v / Pow2(32 - 2 * k) == 0
  {
    assert 32 - 2 * k == 32 && 2 * k == 0;
    Pow2ThirtyTwo();
    SmallDivMod(v, Pow2(32));
    assert Pow2(0) == 1;
  }

  /**
   * One iteration of the loop of `hf_sqrt` after `k` iterations: the top
   * two bits of `value` are the next base-4 digit of the input, and
   * shifting `value` left by two drops them.
   */
  lemma ShiftDigit(v: Bits32, k: nat, value: int)
    requires k < 16 && value == v % Pow2(32 - 2 * k) * Pow2(2 * k)
    ensures 0 <= value < 0x1_0000_0000
    ensures v / Pow2(30 - 2 * k) == 4 * (v / Pow2(32 - 2 * k)) + TopDigit(value)
    ensures ShiftedUp(value) == v % Pow2(32 - 2 * (k + 1)) * Pow2(2 * (k + 1))
  {
    DigitPowers(k);
    DigitCore(v, Pow2(2 * k), Pow2(30 - 2 * k), Pow2(32 - 2 * k), Pow2(2 * (k + 1)), value);
  }

  /** The powers of two one iteration after `k` iterations relate by factors of four. */
  lemma DigitPowers(k: nat)
    requires k < 16
    ensures Pow2(2 * k) * Pow2(30 - 2 * k) == 0x4000_0000
    ensures Pow2(32 - 2 * k) == 4 * Pow2(30 - 2 * k)
    ensures Pow2(2 * (k + 1)) == 4 * Pow2(2 * k)
    ensures Pow2(32 - 2 * (k + 1)) == Pow2(30 - 2 * k)
  {
    Pow2Split(2 * k);
    assert 2 * (k + 1) == 2 * k + 2 && 32 - 2 * (k + 1) == 30 - 2 * k;
  }

  /** `ShiftDigit` with `a = 2^(2k)`, `b = 2^(30 - 2k)`, `c = 4b` and `e = 4a`. */
  lemma DigitCore(v: nat, a: int, b: int, c: int, e: int, value: int)
    requires a >= 1 && b >= 1 && a * b == 0x4000_0000 && c == 4 * b && e == 4 * a && value == v % c * a
    ensures 0 <= value < 0x1_0000_0000
    ensures v / b == 4 * (v / c) + TopDigit(value)
    ensures ShiftedUp(value) == v % b * e
  {
    var q, s1, s0 := SplitDigit(v, b);
    assert v % c == s1 * b + s0 && v / c == q;
    Distribute(s1, s0, a, b);
    var low := s0 * a;
    assert value == s1 * 0x4000_0000 + low;
    assert 0 <= low <= 0x4000_0000 - a by {
      MulLe(s0, b - 1, a);
      assert (b - 1) * a == a * b - a;
    }
    DigitSplit(value, s1, low, 0x4000_0000);
    MulAssoc(s0, a, 4);
    assert low * 4 == s0 * e;
    DigitSplit(value * 4, s1, low * 4, 0x1_0000_0000);
  }

  /**
   * The root update of one iteration: `quot` gains the digit `d`, `sqrt`
   * is doubled, and `sqrt + 1` is subtracted when it fits, leaving `sqrt`
   * twice the root of the longer prefix.
   */
  lemma ShiftStep(p: int, quot: int, sqrt: int, d: int)
    requires sqrt % 2 == 0 && RootOfPrefix(p, quot, sqrt / 2) && 0 <= d < 4
    ensures ShiftRoot(d, quot, sqrt) % 2 == 0
    ensures RootOfPrefix(4 * p + d, ShiftQuot(d, quot, sqrt), ShiftRoot(d, quot, sqrt) / 2)
  {
    ShiftHalvesRoot(quot, sqrt, d);
    RootStep(p, quot, sqrt / 2, d);
  }

  /** One step with `sqrt` doubled is the step of `square_root` on half of it, with the root doubled. */
  lemma ShiftHalvesRoot(quot: int, sqrt: int, d: int)
    requires sqrt % 2 == 0
    ensures ShiftRoot(d, quot, sqrt) % 2 == 0
    ensures ShiftQuot(d, quot, sqrt) == NextRest(d, quot, sqrt / 2)
    ensures ShiftRoot(d, quot, sqrt) / 2 == NextRoot(d, quot, sqrt / 2)
  {
    assert sqrt == 2 * (sqrt / 2);
    if quot * 4 + d >= sqrt * 2 + 1 {
      assert NextRoot(d, quot, sqrt / 2) == sqrt + 1;
      assert ShiftRoot(d, quot, sqrt) == 2 * sqrt + 2;
    } else {
      assert NextRoot(d, quot, sqrt / 2) == sqrt;
      assert ShiftRoot(d, quot, sqrt) == 2 * sqrt;
    }
  }

  lemma RootsAgree(v: int, r: int, s: int)
    requires RootOfPrefix(v, v - r * r, r) && s >= 0 && s * s <= v < (s + 1) * (s + 1)
    ensures r == s
  {
    RootBound(v, r, s);
    RootBound(v, s, r);
  }

  /**
   * `hf_sqrt` special cases: a zero comes back unchanged, a NaN or any
   * negative non-zero number gives a quiet NaN with the operand's sign
   * (0xFE00 for a negative number), and +infinity gives +infinity.
   */
  lemma SqrtSpecial(w: Word)
    ensures var a := Decompose(w);
      && (IsZero(a) ==> Sqrt(w) == w)
      && (IsNaN(a) || (a.sign == SIGN_NEG && !IsZero(a)) ==> Sqrt(w) == Arith.QuietNaN(a.sign))
      && (IsInfinity(a) && a.sign == SIGN_POS ==> Sqrt(w) == INFINITY_POS)
  {
    DecomposeZero(w);
  }

  /**
   * The square root of a power of four 4^k, 0 <= k <= 7, is exactly 2^k,
   * as with the modular `hf_sqrt` (sqrt(1) == 1, sqrt(4) == 2, ...).
   */
  lemma SqrtPowerOfFour(w: Word)
    requires SignBit(w) == SIGN_POS && FracField(w) == 0 && 15 <= ExpField(w) <= 29 && ExpField(w) % 2 == 1
    ensures Sqrt(w) == Pack(SIGN_POS, EXP_BIAS + (ExpField(w) - EXP_BIAS) / 2, 0)
    ensures Sqrt(w) == Arith.Sqrt(w)
  {
    PowerOfFourRoot(w, (ExpField(w) - EXP_BIAS) / 2);
    Arith.SqrtPowerOfFour(w);
  }

  lemma PowerOfFourRoot(w: Word, k: nat)
    requires SignBit(w) == SIGN_POS && FracField(w) == 0 && ExpField(w) == EXP_BIAS + 2 * k && k <= 7
    ensures Sqrt(w) == Pack(SIGN_POS, EXP_BIAS + k, 0)
  {
    var a := Decompose(w);
    assert a == HalfFloat(SIGN_POS, 2 * k, MANT_NORM_MIN);
    var root := RadicandPowerOfFour(a, k);
    var r := Pack(SIGN_POS, EXP_BIAS + k, 0);
    PackOne(k, r);
    SqrtExact(w, root, k, MANT_NORM_MIN, r);
  }

  /** The word of 2^k, built from the exponent and the mantissa 1.0 as `SqrtExact` builds it. */
  lemma PackOne(k: nat, r: Word)
    requires k <= 7 && r == Pack(SIGN_POS, EXP_BIAS + k, 0)
    ensures r == Pack(SIGN_POS, k + EXP_BIAS, MANT_NORM_MIN / 32 % 1024)
  {
    assert MANT_NORM_MIN / 32 % 1024 == 0 && k + EXP_BIAS == EXP_BIAS + k;
  }

  /** 4^k scaled to Q16 is the square of 2^(8 + k), and 2^(8 + k) in Q7 is 1.0 scaled up by 2^k. */
  lemma RadicandPowerOfFour(a: HalfFloat, k: nat) returns (root: nat)
    requires a.sign == SIGN_POS && a.exp == 2 * k && a.mant == MANT_NORM_MIN && k <= 7
    ensures SqrtRadicand(a) == root * root
    ensures 128 * root == MANT_NORM_MIN * Pow2(k)
  {
    root := Pow2(8 + k);
    RadicandIsSquare(a, k);
    RootInQ7(k);
  }

  /** The radicand of 4^k is (2^(8 + k))^2. */
  lemma RadicandIsSquare(a: HalfFloat, k: nat)
    requires a.sign == SIGN_POS && a.exp == 2 * k && a.mant == MANT_NORM_MIN && k <= 7
    ensures SqrtRadicand(a) == Pow2(8 + k) * Pow2(8 + k)
  {
    assert SqrtRadicand(a) == 0x1_0000 * Pow2(a.exp);
    SquareOfPow2(k, a.exp);
  }

  /** 2^(16 + 2k) is the square of 2^(8 + k). */
  lemma SquareOfPow2(k: nat, n: nat)
    requires n == 2 * k
    ensures 0x1_0000 * Pow2(n) == Pow2(8 + k) * Pow2(8 + k)
  {
    Pow2Sixteen();
    Pow2Add(16, n);
    Pow2Add(8 + k, 8 + k);
    assert 16 + n == 8 + k + (8 + k);
  }

  lemma Pow2Sixteen()
    ensures Pow2(16) == 0x1_0000
  {
    Pow2Values();
  }

  /** 2^(8 + k) in Q7 is the mantissa 1.0 scaled by 2^k. */
  lemma RootInQ7(k: nat)
    ensures 128 * Pow2(8 + k) == MANT_NORM_MIN * Pow2(k)
  {
    Trig.Pow2Fifteen();
    assert Pow2(7) == 128;
    Pow2Add(7, 8 + k);
    Pow2Add(15, k);
    assert 7 + (8 + k) == 15 + k;
  }

  /**
   * A positive normal operand whose radicand is the square of `root`, where
   * 128 times the root is a guard-free normal mantissa `m` scaled by 2^j:
   * the result is exactly `m` with exponent `j`.
   */
  lemma SqrtExact(w: Word, root: nat, j: nat, m: int, r: Word)
    requires SignBit(w) == SIGN_POS && 1 <= ExpField(w) <= 30
    requires SqrtRadicand(Decompose(w)) == root * root
    requires 128 * root == m * Pow2(j) && MANT_NORM_MIN <= m < MANT_OVERFLOW && m % 32 == 0 && j <= 15
    requires r == Pack(SIGN_POS, j + EXP_BIAS, m / 32 % 1024)
    ensures Sqrt(w) == r
  {
    var a := Decompose(w);
    SquareRootOfSquare(root * root, root);
    var h := HalfFloat(SIGN_POS, j, m);
    NormalizedScaled(h, j);
    assert h.(mant := h.mant * Pow2(j), exp := h.exp - j) == HalfFloat(SIGN_POS, 0, 2 * root * 64);
    assert SqrtResult(a) == h;
    ComposedNormal(h);
  }

  /** `hf_sqrt` is exact on the squares 9, 25 and 36, as the modular `hf_sqrt` is. */
  lemma SqrtExactSquares(w: Word)
    ensures w == 0x4880 ==> Sqrt(w) == 0x4200 == Arith.Sqrt(w)
    ensures w == 0x4E40 ==> Sqrt(w) == 0x4500 == Arith.Sqrt(w)
    ensures w == 0x5080 ==> Sqrt(w) == 0x4600 == Arith.Sqrt(w)
  {
    Arith.SqrtExactSquares(w);
    if w == 0x4880 {
      SqrtNine(w);
    } else if w == 0x4E40 {
      SqrtTwentyFive(w);
    } else if w == 0x5080 {
      SqrtThirtySix(w);
    }
  }

  lemma SqrtNine(w: Word)
    requires w == 0x4880
    ensures Sqrt(w) == 0x4200
  {
    assert Decompose(w) == HalfFloat(SIGN_POS, 3, 0x9000);
    assert Pow2(3) == 8 && Pow2(1) == 2;
    SqrtExact(w, 768, 1, 0xC000, 0x4200);
  }

  lemma SqrtTwentyFive(w: Word)
    requires w == 0x4E40
    ensures Sqrt(w) == 0x4500
  {
    assert Decompose(w) == HalfFloat(SIGN_POS, 4, 0xC800);
    assert Pow2(4) == 16 && Pow2(2) == 4;
    SqrtExact(w, 1280, 2, 0xA000, 0x4500);
  }

  lemma SqrtThirtySix(w: Word)
    requires w == 0x5080
    ensures Sqrt(w) == 0x4600
  {
    assert Decompose(w) == HalfFloat(SIGN_POS, 5, 0x9000);
    assert Pow2(5) == 32 && Pow2(2) == 4;
    SqrtExact(w, 1536, 2, 0xC000, 0x4600);
  }

  // ------------------------------------------------------------------ hf_pow

  /** `hf_pow` */
  function Pow(w1: Word, w2: Word, t: Tables): Word
    requires ValidTables(t)
  {
    Composed(PowResult(w1, w2, t))
  }

  /** The record `hf_pow` hands to `compose_half`, from the decoded operands and the magnitude bits of the base word. */
  function PowResult(w1: Word, w2: Word, t: Tables): (r: HalfFloat)
    requires ValidTables(t)
    ensures ValidSign(r.sign) && r.mant >= 0
  {
    PowCases(Decompose(w1), Decompose(w2), w1 % 0x8000, t)
  }

  /**
   * The cases of `hf_pow` in the order of the source; the result starts as
   * 1.0 and each case overwrites part of it: a base of exactly +1.0 or a
   * zero exponent, a NaN, a zero base, an infinite base, an infinite
   * exponent, the exponent +1.0, a negative base, and the general path.
   */
  function PowCases(base: HalfFloat, e: HalfFloat, absBase: int, t: Tables): (r: HalfFloat)
    requires Arith.Operand(base) && Arith.Operand(e) && ValidTables(t)
    ensures ValidSign(r.sign) && r.mant >= 0
  {
    var one := ExpLog.One();
    if (base.exp == 0 && base.mant == MANT_NORM_MIN && base.sign == SIGN_POS) || IsZero(e) then one
    else if IsNaN(base) || IsNaN(e) then HalfFloat(if IsNaN(base) then base.sign else e.sign, EXP_FULL, 1)
    else if IsZero(base) then
      if e.sign == SIGN_POS then base else one.(exp := EXP_FULL, mant := 0)
    else if IsInfinity(base) then
      HalfFloat(InfiniteBaseSign(base, e), if e.sign == SIGN_POS then EXP_FULL else -EXP_BIAS, 0)
    else if IsInfinity(e) then
      if absBase > ONE_POS then one.(exp := if e.sign != SIGN_POS then -EXP_BIAS else EXP_FULL, mant := 0)
      else if absBase < ONE_POS then one.(exp := if e.sign != SIGN_POS then EXP_FULL else -EXP_BIAS, mant := 0)
      else one
    else if e.exp == 0 && e.mant == MANT_NORM_MIN && e.sign == SIGN_POS then base
    else if base.sign != SIGN_POS && (e.exp != -EXP_BIAS || e.mant != 0) then HalfFloat(base.sign, EXP_FULL, 1)
    else PowFinite(base, e, t)
  }

  /**
   * The sign of infinity^y: negative for -infinity and an exponent of at
   * least 1.0 whose integer part `mant >> (15 - exp)` is odd.
   */
  function InfiniteBaseSign(base: HalfFloat, e: HalfFloat): (s: Word)
    requires e.mant >= 0
    ensures ValidSign(s)
  {
    if base.sign != SIGN_POS && e.exp >= 0 && IntPart(e) % 2 == 1 then SIGN_NEG else SIGN_POS
  }

  /**
   * `mant >> (15 - exp)`: the integer part of an exponent from 1.0 up.  An
   * infinite exponent (16) would be shifted by -1; its mantissa is 0, and
   * so is the value here.
   */
  function IntPart(e: HalfFloat): (k: int)
    requires e.mant >= 0 && e.exp >= 0
    ensures k >= 0
  {
    if e.exp <= 15 then Shr(e.mant, 15 - e.exp) else 0
  }

  /**
   * The general path of `hf_pow` for a positive finite base: ln x in Q15
   * as in `hf_ln` with the guard-bit interpolation, times the exponent in
   * fixed point, shifted back by 15 bits in 64-bit arithmetic and cast to
   * 32 bits, and negated for a negative exponent.  The inline copy of
   * `exp_fixed` gives e to the magnitude of that product; for a negative
   * product the mantissa is replaced by `2^30 / mant` and the exponent
   * negated, the reciprocal.
   */
  function PowFinite(base: HalfFloat, e: HalfFloat, t: Tables): (r: HalfFloat)
    requires base.mant > 0 && e.mant >= 0 && ValidTables(t)
    ensures r.sign == SIGN_POS && r.mant >= 0
  {
    var lnBase := ExpLog.PowLnFixed(base, t);
    var y := ExpLog.Scaled(e.mant, e.exp);
    var product := ToInt32(y * lnBase / 0x8000);
    var expLn := if e.sign != SIGN_POS then -product else product;
    var r := ExpFixed(Abs(expLn), t, HalfFloat(SIGN_POS, 0, 0));
    NormalizedRounded(if expLn < 0 && r.mant != 0 then HalfFloat(SIGN_POS, -r.exp, 0x4000_0000 / r.mant) else r)
  }

  /** Only the word +1.0 decodes to the record of 1.0. */
  lemma UnitRecord(w: Word)
    ensures Decompose(w) == ExpLog.One() <==> w == ONE_POS
  {
    if w == ONE_POS {
      Arith.OneFields(w);
    }
    if Decompose(w) == ExpLog.One() {
      ComposeDecompose(w);
      ExpLog.ComposedUnit(ExpLog.One());
    }
  }

  /** x^+-0 is 1.0 for every x, a NaN included. */
  lemma PowZeroExponent(w1: Word, w2: Word, t: Tables)
    requires ValidTables(t) && (w2 == ZERO_POS || w2 == ZERO_NEG)
    ensures Pow(w1, w2, t) == ONE_POS
  {
    DecomposeZero(w2);
    ExpLog.ComposedUnit(ExpLog.One());
  }

  /**
   * 1^y is 1.0 for every y, a NaN included.  Unlike the modular `hf_pow`,
   * the base -1.0 is not a case of its own.
   */
  lemma PowOneBase(w1: Word, w2: Word, t: Tables)
    requires ValidTables(t) && w1 == ONE_POS
    ensures Pow(w1, w2, t) == ONE_POS
  {
    Arith.OneFields(w1);
    ExpLog.ComposedUnit(ExpLog.One());
  }

  /** Apart from the base +1.0 and a zero exponent, a NaN operand gives a quiet NaN with the sign of the first NaN. */
  lemma PowNaN(w1: Word, w2: Word, t: Tables)
    requires ValidTables(t) && w1 != ONE_POS && w2 != ZERO_POS && w2 != ZERO_NEG
    requires IsNaN(Decompose(w1)) || IsNaN(Decompose(w2))
    ensures Pow(w1, w2, t) == Arith.QuietNaN(if IsNaN(Decompose(w1)) then SignBit(w1) else SignBit(w2))
  {
    DecomposeZero(w2);
    UnitRecord(w1);
  }

  /**
   * 0^y: a positive y gives the zero itself, its sign kept, and a negative
   * y gives +infinity whatever the sign of the zero.
   */
  lemma PowZeroBase(w1: Word, w2: Word, t: Tables)
    requires ValidTables(t) && (w1 == ZERO_POS || w1 == ZERO_NEG)
    requires w2 != ZERO_POS && w2 != ZERO_NEG && !IsNaN(Decompose(w2))
    ensures Pow(w1, w2, t) == if SignBit(w2) == SIGN_POS then w1 else INFINITY_POS
  {
    DecomposeZero(w1);
    DecomposeZero(w2);
    var r := PowResult(w1, w2, t);
    if r.exp != EXP_FULL {
      ComposeZeroMantissa(r);
    }
  }

  /**
   * infinity^y: an infinity for a positive y and a zero for a negative y,
   * negative only for -infinity and an exponent whose integer part is odd,
   * whether or not the exponent is an integer.
   */
  lemma PowInfiniteBase(w1: Word, w2: Word, t: Tables)
    requires ValidTables(t) && IsInfinity(Decompose(w1))
    requires w2 != ZERO_POS && w2 != ZERO_NEG && !IsNaN(Decompose(w2))
    ensures Pow(w1, w2, t) ==
      InfiniteBaseSign(Decompose(w1), Decompose(w2)) + (if SignBit(w2) == SIGN_POS then INFINITY_POS else 0)
  {
    DecomposeZero(w2);
    var r := PowResult(w1, w2, t);
    if r.exp != EXP_FULL {
      ComposeZeroMantissa(r);
    }
  }

  /** (-infinity)^3.5 is -infinity: the integer part 3 is odd, although 3.5 is not an integer. */
  lemma PowNegInfinityNonInteger(w1: Word, w2: Word, t: Tables)
    requires ValidTables(t) && w1 == 0xFC00 && w2 == 0x4300
    ensures Pow(w1, w2, t) == 0xFC00
  {
    var b, e := Decompose(w1), Decompose(w2);
    assert b.sign == SIGN_NEG;
    assert e == HalfFloat(SIGN_POS, 1, 0xE000);
    IntPartOdd(e);
    assert InfiniteBaseSign(b, e) == SIGN_NEG;
    PowInfiniteBase(w1, w2, t);
  }

  /** The integer part of 3.5 is 3. */
  lemma IntPartOdd(e: HalfFloat)
    requires e == HalfFloat(SIGN_POS, 1, 0xE000)
    ensures IntPart(e) == 3
  {
    assert Pow2(14) == 0x4000;
  }

  /**
   * An infinite exponent with a finite non-zero base other than +1.0:
   * x^+infinity is +infinity for |x| > 1 and +0 for |x| < 1, x^-infinity
   * the other way round, and (-1)^+-infinity is 1.0.
   */
  lemma PowInfiniteExponent(w1: Word, w2: Word, t: Tables)
    requires ValidTables(t) && w1 != ONE_POS && ExpField(w1) != 31 && w1 != ZERO_POS && w1 != ZERO_NEG
    requires IsInfinity(Decompose(w2))
    ensures Pow(w1, w2, t) ==
      if w1 % 0x8000 == ONE_POS then ONE_POS
      else if (w1 % 0x8000 > ONE_POS) == (w2 == INFINITY_POS) then INFINITY_POS
      else ZERO_POS
  {
    var base, e := Decompose(w1), Decompose(w2);
    DecomposeZero(w1);
    DecomposeClasses(w1);
    UnitRecord(w1);
    ExpLog.InfinityWord(w2);
    var r := PowResult(w1, w2, t);
    InfiniteExponentCases(base, e, w1 % 0x8000, t);
    if r.exp == 0 {
      ExpLog.ComposedUnit(r);
    } else if r.exp != EXP_FULL {
      ComposeZeroMantissa(r);
    }
  }

  lemma InfiniteExponentCases(base: HalfFloat, e: HalfFloat, absBase: int, t: Tables)
    requires Arith.Operand(base) && Arith.Operand(e) && ValidTables(t)
    requires !IsNaN(base) && !IsZero(base) && !IsInfinity(base) && base != ExpLog.One() && IsInfinity(e)
    ensures var r := PowCases(base, e, absBase, t);
      r == if absBase == ONE_POS then ExpLog.One()
           else HalfFloat(SIGN_POS, if (absBase > ONE_POS) == (e.sign == SIGN_POS) then EXP_FULL else -EXP_BIAS, 0)
  {
  }

  /**
   * x^1 hands the decoded base itself to `compose_half` for every base
   * that is not a NaN, so it is x for every exponent field from 2 up, and
   * a subnormal base comes back as a signed zero.
   */
  lemma PowByOne(w1: Word, w2: Word, t: Tables)
    requires ValidTables(t) && w2 == ONE_POS && !IsNaN(Decompose(w1))
    ensures PowResult(w1, w2, t) == Decompose(w1)
    ensures ExpField(w1) >= 2 ==> Pow(w1, w2, t) == w1
    ensures ExpField(w1) == 0 ==> Pow(w1, w2, t) == SignBit(w1)
  {
    var base, e := Decompose(w1), Decompose(w2);
    Arith.OneFields(w2);
    Trig.Pow2Fifteen();
    assert IntPart(e) == 1;
    UnitRecord(w1);
    ByOneCases(base, e, w1 % 0x8000, t);
    ComposeDecompose(w1);
  }

  lemma ByOneCases(base: HalfFloat, e: HalfFloat, absBase: int, t: Tables)
    requires Arith.Operand(base) && Arith.Operand(e) && ValidTables(t) && !IsNaN(base)
    requires e == ExpLog.One() && IntPart(e) == 1
    ensures PowCases(base, e, absBase, t) == base
  {
  }

  /**
   * A negative finite non-zero base with a finite non-zero exponent other
   * than +1.0 gives the NaN 0xFE00, integer exponents included: (-2)^2 is
   * a NaN here.
   */
  lemma PowNegativeBase(w1: Word, w2: Word, t: Tables)
    requires ValidTables(t) && SignBit(w1) == SIGN_NEG && ExpField(w1) != 31 && w1 != ZERO_NEG
    requires ExpField(w2) != 31 && w2 != ZERO_POS && w2 != ZERO_NEG && w2 != ONE_POS
    ensures Pow(w1, w2, t) == SIGN_NEG + NAN
  {
    DecomposeZero(w1);
    DecomposeZero(w2);
    DecomposeClasses(w1);
    DecomposeClasses(w2);
    UnitRecord(w2);
  }

  /** A positive base raised to any exponent, neither operand a NaN, gives a result with a clear sign bit. */
  lemma PowPositiveBase(w1: Word, w2: Word, t: Tables)
    requires ValidTables(t) && SignBit(w1) == SIGN_POS && !IsNaN(Decompose(w1)) && !IsNaN(Decompose(w2))
    ensures SignBit(Pow(w1, w2, t)) == SIGN_POS
  {
  }

  // ------------------------------------------------------ hf_sin and hf_cos

  /** `hf_sin`: `sinus_shiftable` without phase. */
  function Sin(w: Word, t: Tables): Word
    requires ValidTables(t)
  {
    SinusShiftable(w, 0, t)
  }

  /** `hf_cos`: `sinus_shiftable` a quarter turn on. */
  function Cos(w: Word, t: Tables): Word
    requires ValidTables(t)
  {
    SinusShiftable(w, Trig.COS_SHIFT, t)
  }

  /** `sinus_shiftable` */
  function SinusShiftable(w: Word, shift: Word, t: Tables): Word
    requires ValidTables(t)
  {
    Composed(SinusResult(Decompose(w), shift, t))
  }

  /**
   * The record `sinus_shiftable` hands to `compose_half`: a NaN keeps its
   * sign, an infinity gives the NaN with the sign bit set, and a finite
   * angle is read from the sine table at its turn fraction, which is
   * computed as in the modular version.
   */
  function SinusResult(a: HalfFloat, shift: Word, t: Tables): (r: HalfFloat)
    requires Trig.Decoded(a) && ValidTables(t)
    ensures ValidSign(r.sign) && r.mant >= 0
  {
    if IsNaN(a) then HalfFloat(a.sign, EXP_FULL, 1)
    else if IsInfinity(a) then HalfFloat(SIGN_NEG, EXP_FULL, 1)
    else SinFinite(Trig.Turn(a, shift), t)
  }

  /** The arithmetic path of `sinus_shiftable`: the signed table value with exponent 0, rounded. */
  function SinFinite(n: int, t: Tables): (r: HalfFloat)
    requires 0 <= n < 0x1_0000 && ValidTables(t)
    ensures ValidSign(r.sign) && r.mant >= 0
  {
    NormalizedRounded(Trig.Signed(SinValue(n, t)))
  }

  /**
   * The two sine table indices of turn fraction `n`: the Q4 position in
   * the quarter turn and the next one, or, when bit 14 is set, the
   * position counted back from entry 1024 and the one before it; both
   * clamped to the 1025 entries.
   */
  function SinIndices(n: int): (idx: (int, int))
    requires 0 <= n < 0x1_0000
    ensures 0 <= idx.0 <= SIN_TABLE_SIZE && 0 <= idx.1 <= SIN_TABLE_SIZE
  {
    var q := n % 0x4000 / 16;
    var i0 := if n / 0x4000 % 2 == 1 then SIN_TABLE_SIZE - q else q;
    var i1 := if n / 0x4000 % 2 == 1 then (if i0 - 1 < 0 then 0 else i0 - 1) else i0 + 1;
    (Clamp(i0, SIN_TABLE_SIZE + 1), Clamp(i1, SIN_TABLE_SIZE + 1))
  }

  /** `a + ((((b - a) * f) + 8) >> 4)`: the rounded interpolation by `f` sixteenths, between the two entries. */
  function Interpolated(a: int, b: int, f: int): (m: int)
    requires 0 <= f < 16
    ensures Between(m, a, b)
    ensures f == 0 ==> m == a
  {
    assert Pow2(4) == 16 && Pow2(3) == 8;
    InterpolationStep(b - a, f, 4);
    a + ((b - a) * f + 8) / 16
  }

  /**
   * The sine in Q15 at turn fraction `n`: the interpolation between the two
   * table entries by the low four bits, negated when bit 15 is set.
   */
  function SinValue(n: int, t: Tables): (v: int)
    requires 0 <= n < 0x1_0000 && ValidTables(t)
    ensures n < 0x8000 ==> v >= 0
    ensures n >= 0x8000 ==> v <= 0
  {
    var (i0, i1) := SinIndices(n);
    var m := Interpolated(t.sin[i0], t.sin[i1], n % 16);
    if n / 0x8000 == 1 then -m else m
  }

  /** `hf_sin` and `hf_cos`: a NaN keeps its sign, and +-infinity gives 0xFE00. */
  lemma SinCosSpecial(w: Word, t: Tables)
    requires ValidTables(t)
    ensures var a := Decompose(w);
      && (IsNaN(a) ==> Sin(w, t) == Arith.QuietNaN(a.sign) && Cos(w, t) == Arith.QuietNaN(a.sign))
      && (IsInfinity(a) ==> Sin(w, t) == 0xFE00 && Cos(w, t) == 0xFE00)
  {
  }

  /** Cosine reads the sine a quarter turn further on, for every finite angle. */
  lemma CosIsShiftedSine(w: Word, t: Tables)
    requires ValidTables(t)
    requires !IsNaN(Decompose(w)) && !IsInfinity(Decompose(w))
    ensures var n := Trig.Turn(Decompose(w), 0);
      && Sin(w, t) == Composed(SinFinite(n, t))
      && Cos(w, t) == Composed(SinFinite((n + Trig.COS_SHIFT) % 0x1_0000, t))
  {
    Trig.TurnPhase(Decompose(w), Trig.COS_SHIFT);
  }

  /** Half a turn further on, the sine changes sign: sin(x + pi) == -sin(x). */
  lemma SinHalfTurn(n: int, m: int, t: Tables)
    requires 0 <= n < 0x8000 && m == n + 0x8000 && ValidTables(t)
    ensures SinValue(m, t) == -SinValue(n, t)
  {
    var quarter, low := n / 0x4000, n % 0x4000;
    TurnParts(n, quarter, low);
    TurnParts(m, quarter + 2, low);
  }

  /** The quarter, the offset in it, the low four bits and bit 15 of a turn fraction. */
  lemma TurnParts(n: int, quarter: int, low: int)
    requires 0 <= quarter < 4 && 0 <= low < 0x4000 && n == quarter * 0x4000 + low
    ensures n / 0x4000 == quarter && n % 0x4000 == low
    ensures n % 16 == low % 16 && n / 0x8000 == quarter / 2
  {
    DivUnique(n, 0x4000, quarter);
    DivUnique(n, 16, quarter * 1024 + low / 16);
    DivUnique(n, 0x8000, quarter / 2);
  }

  /**
   * The reflection in the second quarter is exact: sin(pi - x) == sin(x)
   * for every turn fraction strictly inside the half turn (the modular
   * version is one step off).
   */
  lemma SinMirror(n: int, m: int, t: Tables)
    requires 0 < n < 0x8000 && m == 0x8000 - n && ValidTables(t)
    ensures SinValue(m, t) == SinValue(n, t)
  {
    if n < 0x4000 {
      MirrorQuarter(n, m, t);
    } else if n > 0x4000 {
      MirrorQuarter(m, n, t);
    }
  }

  /** The reflection of a turn `n` in the first quarter onto `m` in the second. */
  lemma MirrorQuarter(n: int, m: int, t: Tables)
    requires 0 < n < 0x4000 && m == 0x8000 - n && ValidTables(t)
    ensures SinValue(m, t) == SinValue(n, t)
  {
    MirrorIndices(n, m);
    if n % 16 != 0 {
      InterpolatedMirror(t.sin[n / 16], t.sin[n / 16 + 1], n % 16, m % 16);
    }
  }

  /**
   * The table entries and fractions the two turns use: `n` steps from entry
   * `n / 16` upwards, and its mirror image steps from the next entry down.
   */
  lemma MirrorIndices(n: int, m: int)
    requires 0 < n < 0x4000 && m == 0x8000 - n
    ensures n / 0x8000 == 0 && m / 0x8000 == 0
    ensures SinIndices(n) == (n / 16, n / 16 + 1)
    ensures n % 16 == 0 ==> m % 16 == 0 && SinIndices(m) == (n / 16, n / 16 - 1)
    ensures n % 16 != 0 ==> m % 16 == 16 - n % 16 && SinIndices(m) == (n / 16 + 1, n / 16)
  {
    var q := n / 16;
    TurnParts(n, 0, n);
    TurnParts(m, 1, 0x4000 - n);
    if n % 16 == 0 {
      DivUnique(0x4000 - n, 16, 1024 - q);
    } else {
      DivUnique(0x4000 - n, 16, 1023 - q);
    }
  }

  /** Interpolating from the far entry by the complementary fraction gives the same value. */
  lemma InterpolatedMirror(a: int, b: int, f: int, g: int)
    requires 0 < f < 16 && g == 16 - f
    ensures Interpolated(b, a, g) == Interpolated(a, b, f)
  {
    var d := b - a;
    assert (a - b) * (16 - f) + 8 == (d * f + 8) - 16 * d;
    DivShift(d * f + 8, -d);
  }

  lemma DivShift(x: int, k: int)
    ensures (x + 16 * k) / 16 == x / 16 + k
  {
    DivUnique(x + 16 * k, 16, x / 16 + k);
  }

  /**
   * A negated angle reads the sine at the full turn minus the turn
   * fraction, and away from the fractions 0 and one half that is exactly
   * the negated sine: sin(-x) == -sin(x).
   */
  lemma SinNegatedTurn(n: int, m: int, t: Tables)
    requires 0 < n < 0x1_0000 && n != 0x8000 && m == 0x1_0000 - n && ValidTables(t)
    ensures SinValue(m, t) == -SinValue(n, t)
  {
    if n < 0x8000 {
      var k := 0x8000 - n;
      SinHalfTurn(k, m, t);
      SinMirror(n, k, t);
    } else {
      var k := n - 0x8000;
      SinHalfTurn(k, n, t);
      SinMirror(m, k, t);
    }
  }

  /**
   * `hf_sin` is odd wherever its value is not zero and the turn fraction is
   * neither 0 nor one half: sin(-x) == -sin(x).
   */
  lemma SinOdd(w: Word, t: Tables)
    requires ValidTables(t) && !IsNaN(Decompose(w)) && !IsInfinity(Decompose(w))
    requires var n := Trig.Turn(Decompose(w), 0);
      n != 0 && n != 0x8000 && SinValue(n, t) != 0
    ensures Sin(Arith.Neg(w), t) == Arith.Neg(Sin(w, t))
  {
    var a := Decompose(w);
    Trig.DecomposeNeg(w);
    assert Decompose(Arith.Neg(w)) == a.(sign := Flip(a.sign));
    SinRecordOdd(a, t);
  }

  /** The record-level step of `SinOdd`: a flipped finite angle gives the flipped sine. */
  lemma SinRecordOdd(a: HalfFloat, t: Tables)
    requires Trig.Decoded(a) && ValidTables(t) && !IsNaN(a) && !IsInfinity(a)
    requires var n := Trig.Turn(a, 0); n != 0 && n != 0x8000 && SinValue(n, t) != 0
    ensures Composed(SinusResult(a.(sign := Flip(a.sign)), 0, t)) == Arith.Neg(Composed(SinusResult(a, 0, t)))
  {
    var b := a.(sign := Flip(a.sign));
    TurnFlip(a);
    SinusResultFinite(a, t);
    SinusResultFinite(b, t);
    SinFiniteOdd(Trig.Turn(a, 0), Trig.Turn(b, 0), t);
  }

  /** A non-zero turn fraction `n` of a finite angle becomes `65536 - n` under negation. */
  lemma TurnFlip(a: HalfFloat)
    requires Trig.Decoded(a) && !IsNaN(a) && !IsInfinity(a) && Trig.Turn(a, 0) != 0
    ensures Trig.Turn(a.(sign := Flip(a.sign)), 0) == 0x1_0000 - Trig.Turn(a, 0)
  {
    TurnNegated(a);
  }

  /** A finite angle takes the arithmetic path of `sinus_shiftable`. */
  lemma SinusResultFinite(a: HalfFloat, t: Tables)
    requires Trig.Decoded(a) && ValidTables(t) && !IsNaN(a) && !IsInfinity(a)
    ensures SinusResult(a, 0, t) == SinFinite(Trig.Turn(a, 0), t)
  {
  }

  /** The arithmetic path of `sinus_shiftable` at `65536 - n` gives the word of `n` with the sign bit flipped. */
  lemma SinFiniteOdd(n: int, m: int, t: Tables)
    requires 0 < n < 0x1_0000 && n != 0x8000 && m == 0x1_0000 - n && ValidTables(t) && SinValue(n, t) != 0
    ensures Composed(SinFinite(m, t)) == Arith.Neg(Composed(SinFinite(n, t)))
  {
    var u, v := SinValue(m, t), SinValue(n, t);
    SinNegatedTurn(n, m, t);
    assert SinFinite(m, t) == NormalizedRounded(Trig.Signed(u));
    assert SinFinite(n, t) == NormalizedRounded(Trig.Signed(v));
    SignedOdd(u, v);
  }

  /** Negating a finite angle takes its turn fraction to the full turn minus it. */
  lemma TurnNegated(a: HalfFloat)
    requires Trig.Decoded(a) && !IsNaN(a) && !IsInfinity(a)
    ensures var n := Trig.Turn(a, 0);
      Trig.Turn(a.(sign := Flip(a.sign)), 0) == if n == 0 then 0 else 0x1_0000 - n
  {
    var p, q := Trig.Turn(a.(sign := SIGN_POS), 0), Trig.Turn(a.(sign := SIGN_NEG), 0);
    Trig.TurnOfNegation(a);
    FractionFlip(p, q);
    if a.sign == SIGN_POS {
      assert a.(sign := SIGN_POS) == a;
    } else {
      assert a.(sign := SIGN_NEG) == a;
    }
  }

  /** Taking a turn fraction to the full turn minus it, modulo the full turn, is its own inverse. */
  lemma FractionFlip(p: int, q: int)
    requires 0 <= p < 0x1_0000 && q == (0x1_0000 - p) % 0x1_0000
    ensures q == (if p == 0 then 0 else 0x1_0000 - p)
    ensures p == (if q == 0 then 0 else 0x1_0000 - q)
  {
    if p != 0 {
      DivUnique(0x1_0000 - p, 0x1_0000, 0);
    }
  }

  /** A non-zero Q15 value and its negation round and compose to words that differ in the sign bit only. */
  lemma SignedOdd(u: int, v: int)
    requires v != 0 && u == -v
    ensures Composed(NormalizedRounded(Trig.Signed(u))) == Arith.Neg(Composed(NormalizedRounded(Trig.Signed(v))))
  {
    var h := Trig.Signed(v);
    assert Trig.Signed(u) == h.(sign := Flip(h.sign));
    NormalizedSign(h, Flip(h.sign));
    Trig.ComposedNeg(NormalizedRounded(h));
  }

  /**
   * In the first and third quarters of the turn the sine is read exactly
   * as the modular `table_interpolate` reads it; the two versions differ
   * only in the reflected quarters.
   */
  lemma SinAgreesUnreflected(n: int, t: Tables)
    requires 0 <= n < 0x1_0000 && n / 0x4000 % 2 == 0 && ValidTables(t)
    ensures SinValue(n, t) == Trig.SinValue(n, t)
  {
    var low := n % 0x4000;
    TurnParts(n, n / 0x4000, low);
    assert Trig.SinIndex(n) == low;
    assert SinIndices(n) == (low / 16, low / 16 + 1);
    EntryAgrees(low, t);
  }

  /** In the first quarter, `table_interpolate` on the sine table is `Interpolated` between the Q4 neighbours. */
  lemma EntryAgrees(low: int, t: Tables)
    requires 0 <= low < 0x4000 && ValidTables(t)
    ensures low / 16 + 1 <= SIN_TABLE_SIZE
    ensures Trig.SinEntry(low, t) == Interpolated(t.sin[low / 16], t.sin[low / 16 + 1], low % 16)
  {
    QFourSplit(low);
    assert Clamp(low / 16, SIN_TABLE_SIZE + 1) == low / 16;
    assert Clamp(low / 16 + 1, SIN_TABLE_SIZE + 1) == low / 16 + 1;
    TableInterpolateValue(t.sin, SIN_TABLE_SIZE + 1, low, 4, low / 16, low / 16 + 1, low % 16);
    InterpolatedQFour(t.sin[low / 16], t.sin[low / 16 + 1], low % 16);
  }

  /** With the shifts spelled as powers of two, `table_interpolate`'s step is `Interpolated`. */
  lemma InterpolatedQFour(a: int, b: int, f: int)
    requires 0 <= f < 16
    ensures a + ((b - a) * f + Pow2(3)) / Pow2(4) == Interpolated(a, b, f)
  {
    QFourSplit(0);
  }

  /** A Q4 index splits into its entry `x / 16` and its fraction `x % 16`. */
  lemma QFourSplit(x: nat)
    ensures Pow2(4) == 16 && Pow2(3) == 8
    ensures Shr(x, 4) == x / 16 && x % Pow2(4) == x % 16
  {
    assert Pow2(4) == 16;
  }

  // ------------------------------------------------------------------ hf_tan

  /** `hf_tan` */
  function Tan(w: Word, t: Tables): Word
    requires ValidTables(t)
  {
    Composed(TanResult(Decompose(w), t))
  }

  /**
   * The record `hf_tan` hands to `compose_half`: a NaN keeps its sign, an
   * infinity gives the NaN with the sign bit set, and a finite angle is
   * read from the two tangent tables at its half-turn fraction, which is
   * computed as in the modular version.
   */
  function TanResult(a: HalfFloat, t: Tables): (r: HalfFloat)
    requires Trig.Decoded(a) && ValidTables(t)
    ensures ValidSign(r.sign) && r.mant >= 0
  {
    if IsNaN(a) then HalfFloat(a.sign, EXP_FULL, 1)
    else if IsInfinity(a) then HalfFloat(SIGN_NEG, EXP_FULL, 1)
    else TanFinite(Trig.TanTurn(a), t)
  }

  /**
   * One tangent table segment: the Q8 position `input * 256 / range`, the
   * entry there shifted up by `scale` (4 or 512, into Q15), and, when the
   * next entry exists, a step toward it by the seven-bit fraction of the
   * remainder, rounded down.  The value lies between the two scaled
   * entries.
   */
  function TanSegment(table: seq<Word>, input: int, range: int, scale: int): (m: int)
    requires |table| == TAN_DUAL_TABLE_SIZE + 1 && 0 <= input <= range && range > 0 && scale > 0
    ensures var i0 := input * TAN_DUAL_TABLE_SIZE / range;
      0 <= i0 <= TAN_DUAL_TABLE_SIZE &&
      Between(m, table[i0] * scale, table[if i0 < TAN_DUAL_TABLE_SIZE then i0 + 1 else i0] * scale)
  {
    Trig.TanIndexBounds(input, range);
    var idx0 := input * TAN_DUAL_TABLE_SIZE / range;
    var idx1 := if idx0 < TAN_DUAL_TABLE_SIZE then idx0 + 1 else TAN_DUAL_TABLE_SIZE;
    var frac := input * TAN_DUAL_TABLE_SIZE % range * 128 / range;
    var m0 := table[idx0] * scale;
    if idx0 != idx1 && idx1 <= TAN_DUAL_TABLE_SIZE then
      TanStep(table[idx1] * scale - m0, frac);
      m0 + (table[idx1] * scale - m0) * frac / 128
    else
      m0
  }

  /** The step `(delta * frac) >> 7` with a seven-bit fraction stays between 0 and `delta`. */
  lemma TanStep(d: int, frac: int)
    requires 0 <= frac < 128
    ensures Between(d * frac / 128, 0, d)
  {
    if d >= 0 {
      StepUp(d, frac, 128, 0);
    } else {
      StepDown(-d, frac, 128, 0);
      assert 0 - (-d) * frac == d * frac;
    }
  }

  /**
   * The tangent in Q15 at half-turn fraction `n`: the position folded into
   * the first quarter turn, the low table (Q13) up to 75 degrees and the
   * high table (Q6) above, negated past the quarter turn.
   */
  function TanValue(n: int, t: Tables): (v: int)
    requires 0 <= n <= 0x1_0000 && ValidTables(t)
    ensures n <= 0x8000 ==> v >= 0
    ensures n > 0x8000 ==> v <= 0
  {
    var i := if n > 0x8000 then 0x1_0000 - n else n;
    var m :=
      if i > Trig.TAN_SWITCH then TanSegment(t.tanHigh, i - Trig.TAN_SWITCH, 0x8000 - Trig.TAN_SWITCH, 512)
      else TanSegment(t.tanLow, i, Trig.TAN_SWITCH, 4);
    if n > 0x8000 then -m else m
  }

  /** Table entries are 16-bit, so the tangent in Q15 stays below 2^25 in magnitude. */
  lemma TanValueBound(n: int, t: Tables)
    requires 0 <= n <= 0x1_0000 && ValidTables(t)
    ensures -0x200_0000 < TanValue(n, t) < 0x200_0000
  {
  }

  /**
   * The arithmetic path of `hf_tan`: a value beyond 2^26 in magnitude
   * becomes an infinity of its sign, any other value is rounded with
   * exponent 0.
   */
  function TanFinite(n: int, t: Tables): (r: HalfFloat)
    requires 0 <= n <= 0x1_0000 && ValidTables(t)
    ensures ValidSign(r.sign) && r.mant >= 0
  {
    var v := TanValue(n, t);
    if v > Trig.TAN_OVERFLOW || v < -Trig.TAN_OVERFLOW then
      NormalizedRounded(HalfFloat(if v < 0 then SIGN_NEG else SIGN_POS, EXP_FULL, 0))
    else
      NormalizedRounded(Trig.Signed(v))
  }

  /** `hf_tan`: a NaN keeps its sign, and +-infinity gives 0xFE00. */
  lemma TanSpecial(w: Word, t: Tables)
    requires ValidTables(t)
    ensures var a := Decompose(w);
      && (IsNaN(a) ==> Tan(w, t) == Arith.QuietNaN(a.sign))
      && (IsInfinity(a) ==> Tan(w, t) == 0xFE00)
  {
  }

  /**
   * The overflow test of `hf_tan` never fires: every finite angle gives a
   * finite result, never an infinity or a NaN.
   */
  lemma TanFiniteResult(w: Word, t: Tables)
    requires ValidTables(t)
    requires !IsNaN(Decompose(w)) && !IsInfinity(Decompose(w))
    ensures ExpField(Tan(w, t)) != 31
  {
    var a := Decompose(w);
    var n := Trig.TanTurn(a);
    var h := Trig.Signed(TanValue(n, t));
    TanValueBound(n, t);
    assert TanResult(a, t) == TanFinite(n, t);
    assert TanFinite(n, t) == NormalizedRounded(h);
    Trig.SmallSignedFinite(h);
  }

  /**
   * The half-turn fractions `n` and `65536 - n` give opposite tangents,
   * the ends of the range included; at the quarter turn itself the two
   * coincide.
   */
  lemma TanReflection(n: int, t: Tables)
    requires 0 <= n <= 0x1_0000 && n != 0x8000 && ValidTables(t)
    ensures TanValue(0x1_0000 - n, t) == -TanValue(n, t)
  {
  }

  /** `hf_tan` is odd wherever its value is not zero: tan(-x) == -tan(x). */
  lemma TanOdd(w: Word, t: Tables)
    requires ValidTables(t) && !IsNaN(Decompose(w)) && !IsInfinity(Decompose(w))
    requires var n := Trig.TanTurn(Decompose(w)); n != 0x8000 && TanValue(n, t) != 0
    ensures Tan(Arith.Neg(w), t) == Arith.Neg(Tan(w, t))
  {
    var a := Decompose(w);
    Trig.DecomposeNeg(w);
    assert Decompose(Arith.Neg(w)) == a.(sign := Flip(a.sign));
    TanRecordOdd(a, t);
  }

  /** The record-level step of `TanOdd`: a flipped finite angle gives the flipped tangent. */
  lemma TanRecordOdd(a: HalfFloat, t: Tables)
    requires Trig.Decoded(a) && ValidTables(t) && !IsNaN(a) && !IsInfinity(a)
    requires var n := Trig.TanTurn(a); n != 0x8000 && TanValue(n, t) != 0
    ensures Composed(TanResult(a.(sign := Flip(a.sign)), t)) == Arith.Neg(Composed(TanResult(a, t)))
  {
    var n := Trig.TanTurn(a);
    var b := a.(sign := Flip(a.sign));
    TanTurnNegated(a);
    TanResultFinite(a, t);
    TanResultFinite(b, t);
    TanFiniteOdd(n, t);
  }

  /** A finite angle takes the arithmetic path of `hf_tan`. */
  lemma TanResultFinite(a: HalfFloat, t: Tables)
    requires Trig.Decoded(a) && ValidTables(t) && !IsNaN(a) && !IsInfinity(a)
    ensures TanResult(a, t) == TanFinite(Trig.TanTurn(a), t)
  {
  }

  /** The arithmetic path of `hf_tan` at `65536 - n` gives the word of `n` with the sign bit flipped. */
  lemma TanFiniteOdd(n: int, t: Tables)
    requires 0 <= n <= 0x1_0000 && n != 0x8000 && ValidTables(t) && TanValue(n, t) != 0
    ensures Composed(TanFinite(0x1_0000 - n, t)) == Arith.Neg(Composed(TanFinite(n, t)))
  {
    var u, v := TanValue(0x1_0000 - n, t), TanValue(n, t);
    TanReflection(n, t);
    TanUnbounded(n, t);
    TanUnbounded(0x1_0000 - n, t);
    SignedOdd(u, v);
  }

  /** Negating a finite angle takes its half-turn fraction to 65536 minus it. */
  lemma TanTurnNegated(a: HalfFloat)
    requires Trig.Decoded(a) && !IsNaN(a) && !IsInfinity(a)
    ensures Trig.TanTurn(a.(sign := Flip(a.sign))) == 0x1_0000 - Trig.TanTurn(a)
  {
  }

  /** Below the overflow bound, the arithmetic path of `hf_tan` rounds the signed value. */
  lemma TanUnbounded(n: int, t: Tables)
    requires 0 <= n <= 0x1_0000 && ValidTables(t)
    ensures TanFinite(n, t) == NormalizedRounded(Trig.Signed(TanValue(n, t)))
  {
    TanValueBound(n, t);
  }
}
