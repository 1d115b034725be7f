/**
 * The arithmetic operations of halffloat/hf_lib_arith.c on 16-bit words.
 *
 * Each operation decodes its operands, picks a special case (NaN,
 * infinity, zero) or computes a mantissa and exponent with integer
 * arithmetic, then rounds with `normalize_and_round` and packs with
 * `compose_half`.  A special result is built as the source builds it, as a
 * record passed to `compose_half`: the default record (sign, 16, 1) is a
 * NaN, (sign, 16, 0) an infinity and (sign, -15, 0) a zero.
 */
module Arith {
  import opened CInt
  import opened HalfCommon
  import opened Denormal
  import opened IntSqrt

  /** `sign1 ^ sign2` on two sign values 0 or 0x8000. */
  function SignXor(a: Word, b: Word): (s: Word)
    requires ValidSign(a) && ValidSign(b)
    ensures ValidSign(s)
  {
    if a == b then SIGN_POS else SIGN_NEG
  }

  /** The quiet NaN `compose_half` produces for a record with exponent 16 and a non-zero mantissa. */
  function QuietNaN(s: Word): Word
    requires ValidSign(s)
  {
    s + NAN
  }

  /** `hf_neg`: `hf ^ 0x8000` flips the sign bit and keeps exponent and fraction. */
  function Neg(w: Word): (r: Word)
    ensures SignBit(r) != SignBit(w)
    ensures ExpField(r) == ExpField(w) && FracField(r) == FracField(w)
  {
    SignFlipped(w);
    if w >= 0x8000 then w - 0x8000 else w + 0x8000
  }

  lemma SignFlipped(w: Word)
    ensures (if w >= 0x8000 then w - 0x8000 else w + 0x8000) ==
      Pack(if w >= 0x8000 then SIGN_POS else SIGN_NEG, ExpField(w), FracField(w))
  {
    PackFields(w);
  }

  /** `hf_abs`: `hf & ~0x8000` clears the sign bit and keeps exponent and fraction. */
  function Abs(w: Word): (r: Word)
    ensures SignBit(r) == SIGN_POS
    ensures ExpField(r) == ExpField(w) && FracField(r) == FracField(w)
  {
    SignCleared(w);
    PackFieldValues(SIGN_POS, ExpField(w), FracField(w));
    w % 0x8000
  }

  lemma SignCleared(w: Word)
    ensures w % 0x8000 == Pack(SIGN_POS, ExpField(w), FracField(w))
  {
    PackFields(w);
  }

  /** Negation is an involution, absolute value is idempotent and ignores the sign. */
  lemma NegAbsLaws(w: Word)
    ensures Neg(Neg(w)) == w
    ensures Abs(Abs(w)) == Abs(w)
    ensures Abs(Neg(w)) == Abs(w)
  {
    PackFields(w);
    PackFields(Neg(w));
    PackFields(Abs(w));
  }

  /**
   * The records `decompose_half` produces, as far as the operations rely on
   * them: a proper sign, a mantissa below 2^16, and a mantissa without the
   * implicit bit only in a subnormal or zero (exponent -15) or an infinity
   * or NaN (exponent 16).
   */
  predicate Operand(h: HalfFloat) {
    && ValidSign(h.sign) && 0 <= h.mant < MANT_OVERFLOW
    && (h.mant < MANT_NORM_MIN ==> h.exp == -EXP_BIAS || h.exp == EXP_FULL)
  }

  // ---------------------------------------------------------------- addition

  /** `hf_add` */
  function Add(w1: Word, w2: Word): Word
  {
    Composed(AddResult(Decompose(w1), Decompose(w2)))
  }

  /**
   * The record `hf_add` hands to `compose_half`.  It starts as the NaN
   * (+, 16, 1); a NaN operand sets the sign of the first NaN, opposite
   * infinities the sign 0x8000, otherwise an infinite operand replaces it,
   * two zeros give a zero that is negative only when both are, and all
   * other operands take the arithmetic path.
   */
  function AddResult(a: HalfFloat, b: HalfFloat): (r: HalfFloat)
    requires Operand(a) && Operand(b)
    ensures ValidSign(r.sign) && r.mant >= 0
  {
    if IsNaN(a) || IsNaN(b) then
      HalfFloat(if IsNaN(a) then a.sign else b.sign, EXP_FULL, 1)
    else if IsInfinity(a) || IsInfinity(b) then
      if IsInfinity(a) && IsInfinity(b) then
        if a.sign != b.sign then HalfFloat(ZERO_NEG, EXP_FULL, 1) else a
      else if IsInfinity(a) then a else b
    else if IsZero(a) && IsZero(b) then
      HalfFloat(if a.sign != 0 && b.sign != 0 then ZERO_NEG else ZERO_POS, 0, 0)
    else
      AddFinite(a, b)
  }

  /**
   * The arithmetic path of `hf_add`: align, add the signed mantissas, take
   * sign and magnitude of the sum and round.
   */
  function AddFinite(a: HalfFloat, b: HalfFloat): (r: HalfFloat)
    requires ValidSign(a.sign) && ValidSign(b.sign) && a.mant >= 0 && b.mant >= 0
    ensures ValidSign(r.sign) && r.mant >= 0
  {
    var (x, y) := AlignMantissas(a, b);
    var sum := (if x.sign != 0 then -x.mant else x.mant) + (if y.sign != 0 then -y.mant else y.mant);
    NormalizedRounded(if sum < 0 then HalfFloat(ZERO_NEG, x.exp, -sum) else HalfFloat(ZERO_POS, x.exp, sum))
  }

  /** `hf_sub`: addition of the operand with its sign bit flipped. */
  function Sub(w1: Word, w2: Word): Word
  {
    Add(w1, Neg(w2))
  }

  /**
   * `hf_add` special cases: a NaN operand gives a quiet NaN with the sign of
   * the first NaN; opposite infinities give 0xFE00; an infinity with any
   * other non-NaN operand is returned as that infinity.
   */
  lemma AddSpecial(w1: Word, w2: Word)
    ensures var a, b := Decompose(w1), Decompose(w2);
      && (IsNaN(a) ==> Add(w1, w2) == QuietNaN(a.sign))
      && (!IsNaN(a) && IsNaN(b) ==> Add(w1, w2) == QuietNaN(b.sign))
      && (IsInfinity(a) && IsInfinity(b) && a.sign != b.sign ==> Add(w1, w2) == 0xFE00)
      && (IsInfinity(a) && !IsNaN(b) && !(IsInfinity(b) && a.sign != b.sign) ==>
            Add(w1, w2) == a.sign + INFINITY_POS)
      && (IsInfinity(b) && !IsNaN(a) && !(IsInfinity(a) && a.sign != b.sign) ==>
            Add(w1, w2) == b.sign + INFINITY_POS)
  {
  }

  /** The sum of two zeros is -0 only when both are -0. */
  lemma AddZeros(w1: Word, w2: Word)
    requires w1 == ZERO_POS || w1 == ZERO_NEG
    requires w2 == ZERO_POS || w2 == ZERO_NEG
    ensures Add(w1, w2) == if w1 == ZERO_NEG && w2 == ZERO_NEG then ZERO_NEG else ZERO_POS
  {
    var a, b := Decompose(w1), Decompose(w2);
    DecomposeZero(w1);
    DecomposeZero(w2);
    ComposeZeroMantissa(AddResult(a, b));
  }

  /** Exact cancellation: a finite number plus its negation is +0, in either order. */
  lemma AddCancels(w: Word)
    requires ExpField(w) != 31
    ensures Add(w, Neg(w)) == ZERO_POS
    ensures Add(Neg(w), w) == ZERO_POS
  {
    var a, b := Decompose(w), Decompose(Neg(w));
    assert a.exp == b.exp && a.mant == b.mant && a.sign != b.sign;
    OppositesCancel(a, b);
    OppositesCancel(b, a);
  }

  /** The record-level step of `AddCancels`: finite records that differ only in sign sum to +0. */
  lemma OppositesCancel(a: HalfFloat, b: HalfFloat)
    requires Operand(a) && Operand(b) && a.sign != b.sign
    requires a.exp == b.exp < EXP_FULL && a.mant == b.mant
    ensures Composed(AddResult(a, b)) == ZERO_POS
  {
    if IsZero(a) {
      ComposeZeroMantissa(AddResult(a, b));
    } else {
      CancelledSum(a, b);
    }
  }

  lemma CancelledSum(a: HalfFloat, b: HalfFloat)
    requires ValidSign(a.sign) && ValidSign(b.sign) && a.sign != b.sign
    requires a.exp == b.exp < EXP_FULL && 0 <= a.mant == b.mant
    ensures Composed(AddFinite(a, b)) == ZERO_POS
  {
    assert AlignMantissas(a, b) == (a, b);
    ComposeZeroMantissa(AddFinite(a, b));
  }

  /** `hf_sub(w, w)` is +0 for every finite `w`. */
  lemma SubSelf(w: Word)
    requires ExpField(w) != 31
    ensures Sub(w, w) == ZERO_POS
  {
    AddCancels(w);
  }

  /** Apart from the sign of a NaN result, the operands of `hf_add` commute. */
  lemma AddCommutes(w1: Word, w2: Word)
    requires !(IsNaN(Decompose(w1)) && IsNaN(Decompose(w2)))
    ensures Add(w1, w2) == Add(w2, w1)
  {
    var a, b := Decompose(w1), Decompose(w2);
    if !IsNaN(a) && !IsNaN(b) && !IsInfinity(a) && !IsInfinity(b) && !(IsZero(a) && IsZero(b)) {
      AddFiniteCommutes(a, b);
    }
    assert AddResult(a, b) == AddResult(b, a);
  }

  lemma AddFiniteCommutes(a: HalfFloat, b: HalfFloat)
    requires ValidSign(a.sign) && ValidSign(b.sign) && a.mant >= 0 && b.mant >= 0
    ensures AddFinite(a, b) == AddFinite(b, a)
  {
    var (x, y) := AlignMantissas(a, b);
    assert AlignMantissas(b, a) == (y, x);
  }

  /** A zero is a right identity for every word with exponent field 2 to 30. */
  lemma AddZeroIdentity(w: Word, z: Word)
    requires 2 <= ExpField(w) <= 30 && (z == ZERO_POS || z == ZERO_NEG)
    ensures Add(w, z) == w
  {
    DecomposeZero(z);
    AddZeroRecord(Decompose(w), Decompose(z));
    ComposeDecompose(w);
  }

  /** A zero aligned to a normal operand stays zero, and the sum is the operand, exactly. */
  lemma AddZeroRecord(a: HalfFloat, b: HalfFloat)
    requires Operand(a) && MANT_NORM_MIN <= a.mant && a.mant % 32 == 0 && -EXP_BIAS < a.exp < EXP_FULL
    requires ValidSign(b.sign) && IsZero(b)
    ensures AddResult(a, b) == a
  {
    assert AlignMantissas(a, b) == (a, b.(exp := a.exp));
    NormalizedExact(a);
    assert AddFinite(a, b) == NormalizedRounded(a);
  }

  /** 1 + 2 == 3 */
  lemma AddOneTwo(one: Word, two: Word)
    requires one == ONE_POS && two == 0x4000
    ensures Add(one, two) == 0x4200
  {
    OneFields(one);
    TwoFields(two);
    var b := Decompose(two);
    OnePlusTwo(Decompose(one), b);
    var sum := b.(mant := 0xC000);
    ComposedNormal(sum);
    assert Pack(SIGN_POS, 16, 512) == 0x4200;
  }

  /** The aligned sum of 1.0 and 2.0: 1.0 shifts to half of 2.0's mantissa, and the sum is exact. */
  lemma OnePlusTwo(a: HalfFloat, b: HalfFloat)
    requires a.sign == SIGN_POS && a.exp == 0 && a.mant == MANT_NORM_MIN
    requires b.sign == SIGN_POS && b.exp == 1 && b.mant == MANT_NORM_MIN
    ensures AddResult(a, b) == b.(mant := 0xC000)
  {
    assert AlignMantissas(a, b) == (b.(mant := 0x4000), b) by {
      assert StickyShift(a.mant, 1) == 0x4000;
    }
    NormalizedExact(b.(mant := 0xC000));
  }

  /** The largest finite number added to itself overflows to +infinity. */
  lemma AddOverflow(max: Word)
    requires max == 0x7BEF
    ensures Add(max, max) == INFINITY_POS
  {
    var a := Decompose(max);
    assert a == HalfFloat(0, 15, 0xFDE0);
    assert AlignMantissas(a, a) == (a, a);
    assert ShiftDown(HalfFloat(0, 15, 0x1FBC0)) == HalfFloat(0, 16, 0xFDE0);
    assert AddResult(a, a) == HalfFloat(0, 16, 0);
  }

  // ----------------------------------------------------------- multiplication

  /** `hf_mul` */
  function Mul(w1: Word, w2: Word): Word
  {
    Composed(MulResult(Decompose(w1), Decompose(w2)))
  }

  /**
   * The record `hf_mul` hands to `compose_half`: the NaN (+, 16, 1) with
   * the first NaN's sign, (-, 16, 1) for infinity times zero, otherwise the
   * XOR of the signs with a zero mantissa (a zero with exponent -15, an
   * infinity with 16) or the rounded product of two finite operands.
   */
  function MulResult(a: HalfFloat, b: HalfFloat): (r: HalfFloat)
    requires Operand(a) && Operand(b)
    ensures ValidSign(r.sign) && r.mant >= 0
  {
    if IsNaN(a) || IsNaN(b) then
      HalfFloat(if IsNaN(a) then a.sign else b.sign, EXP_FULL, 1)
    else if (IsInfinity(a) && IsZero(b)) || (IsInfinity(b) && IsZero(a)) then
      HalfFloat(ZERO_NEG, EXP_FULL, 1)
    else
      var sign := SignXor(a.sign, b.sign);
      if IsZero(a) || IsZero(b) then HalfFloat(sign, -EXP_BIAS, 0)
      else if !IsInfinity(a) && !IsInfinity(b) then MulFinite(a, b)
      else HalfFloat(sign, EXP_FULL, 0)
  }

  /**
   * The arithmetic path of `hf_mul`: the product of the two mantissas
   * (below 2^32, taken as the exact `uint32_t` product) shifted down by 15,
   * with the sum of the exponents, rounded.
   */
  function MulFinite(a: HalfFloat, b: HalfFloat): (r: HalfFloat)
    requires ValidSign(a.sign) && ValidSign(b.sign) && a.mant >= 0 && b.mant >= 0
    ensures ValidSign(r.sign) && r.mant >= 0
  {
    var product := a.mant * b.mant;
    NormalizedRounded(HalfFloat(SignXor(a.sign, b.sign), a.exp + b.exp, product / 0x8000))
  }

  /**
   * `hf_mul` special cases: NaN propagates with the first NaN's sign,
   * infinity times zero is 0xFE00, zero times a finite number is a zero and
   * infinity times a non-zero number an infinity, both with the XOR of the
   * signs.
   */
  lemma MulSpecial(w1: Word, w2: Word)
    ensures var a, b := Decompose(w1), Decompose(w2);
      var sign := SignXor(a.sign, b.sign);
      && (IsNaN(a) ==> Mul(w1, w2) == QuietNaN(a.sign))
      && (!IsNaN(a) && IsNaN(b) ==> Mul(w1, w2) == QuietNaN(b.sign))
      && ((IsInfinity(a) && IsZero(b)) || (IsZero(a) && IsInfinity(b)) ==> Mul(w1, w2) == 0xFE00)
      && ((IsZero(a) || IsZero(b)) && !IsNaN(a) && !IsNaN(b) && !IsInfinity(a) && !IsInfinity(b) ==>
            Mul(w1, w2) == sign)
      && ((IsInfinity(a) || IsInfinity(b)) && !IsNaN(a) && !IsNaN(b) && !IsZero(a) && !IsZero(b) ==>
            Mul(w1, w2) == sign + INFINITY_POS)
  {
  }

  /** Apart from the sign of a NaN result, the operands of `hf_mul` commute. */
  lemma MulCommutes(w1: Word, w2: Word)
    requires !(IsNaN(Decompose(w1)) && IsNaN(Decompose(w2)))
    ensures Mul(w1, w2) == Mul(w2, w1)
  {
    var a, b := Decompose(w1), Decompose(w2);
    assert a.mant * b.mant == b.mant * a.mant;
    assert MulResult(a, b) == MulResult(b, a);
  }

  /** 1.0 is a two-sided identity of `hf_mul` for every word with exponent field 2 to 30. */
  lemma MulOneIdentity(w: Word, one: Word)
    requires 2 <= ExpField(w) <= 30 && one == ONE_POS
    ensures Mul(one, w) == w && Mul(w, one) == w
  {
    OneFields(one);
    MulByOne(Decompose(w), Decompose(one));
    ComposeDecompose(w);
  }

  /** A normal mantissa times the mantissa of 1.0, shifted back down by 15, is the mantissa again. */
  lemma MulByOne(a: HalfFloat, u: HalfFloat)
    requires Operand(a) && MANT_NORM_MIN <= a.mant && a.mant % 32 == 0 && a.exp < EXP_FULL
    requires u.sign == SIGN_POS && u.exp == 0 && u.mant == MANT_NORM_MIN
    ensures MulResult(u, a) == a && MulResult(a, u) == a
  {
    MulDivCancel(a.mant, MANT_NORM_MIN);
    assert u.mant * a.mant == a.mant * u.mant == a.mant * MANT_NORM_MIN;
    NormalizedExact(a);
    assert MulFinite(u, a) == a && MulFinite(a, u) == a;
  }

  // ----------------------------------------------------------------- division

  /** `hf_div` */
  function Div(w1: Word, w2: Word): Word
  {
    Composed(DivResult(Decompose(w1), Decompose(w2)))
  }

  /**
   * The record `hf_div` hands to `compose_half`: it starts as (XOR of the
   * signs, 16, 1); a NaN operand sets the first NaN's sign, infinity over
   * infinity the sign 0x8000, an infinite dividend or a zero divisor clears
   * the mantissa (an infinity), an infinite divisor or a zero dividend also
   * sets the exponent -15 (a zero), and finite operands take the arithmetic
   * path.
   */
  function DivResult(a: HalfFloat, b: HalfFloat): (r: HalfFloat)
    requires Operand(a) && Operand(b)
    ensures ValidSign(r.sign) && r.mant >= 0
  {
    var sign := SignXor(a.sign, b.sign);
    if IsNaN(a) || IsNaN(b) then
      HalfFloat(if IsNaN(a) then a.sign else b.sign, EXP_FULL, 1)
    else if IsInfinity(a) && IsInfinity(b) then
      HalfFloat(ZERO_NEG, EXP_FULL, 1)
    else if IsInfinity(a) || IsZero(b) then
      HalfFloat(sign, EXP_FULL, 0)
    else if IsInfinity(b) || IsZero(a) then
      HalfFloat(sign, -EXP_BIAS, 0)
    else
      // The source tests `!(is_zero(a) && is_zero(b))` here, which the
      // branches above already guarantee.
      DivFinite(a, b)
  }

  /**
   * The arithmetic path of `hf_div`: the dividend mantissa shifted up by
   * 15 divided by the divisor mantissa, with a sticky bit 0 for a non-zero
   * remainder, and the difference of the exponents, rounded.
   */
  function DivFinite(a: HalfFloat, b: HalfFloat): (r: HalfFloat)
    requires ValidSign(a.sign) && ValidSign(b.sign) && a.mant >= 0 && b.mant > 0
    ensures ValidSign(r.sign) && r.mant >= 0
  {
    var dividend := a.mant * 0x8000;
    var quotient := dividend / b.mant;
    var mant := if dividend % b.mant != 0 then OrOne(quotient) else quotient;
    NormalizedRounded(HalfFloat(SignXor(a.sign, b.sign), a.exp - b.exp, mant))
  }

  /**
   * `hf_div` special cases: NaN propagates with the first NaN's sign,
   * infinity over infinity is 0xFE00, infinity over a finite number and a
   * non-NaN over zero (zero over zero included) are an infinity, and zero
   * over a non-zero number or a finite number over infinity are a zero,
   * both with the XOR of the signs.
   */
  lemma DivSpecial(w1: Word, w2: Word)
    ensures var a, b := Decompose(w1), Decompose(w2);
      var sign := SignXor(a.sign, b.sign);
      && (IsNaN(a) ==> Div(w1, w2) == QuietNaN(a.sign))
      && (!IsNaN(a) && IsNaN(b) ==> Div(w1, w2) == QuietNaN(b.sign))
      && (IsInfinity(a) && IsInfinity(b) ==> Div(w1, w2) == 0xFE00)
      && (IsInfinity(a) && !IsNaN(b) && !IsInfinity(b) ==> Div(w1, w2) == sign + INFINITY_POS)
      && (IsZero(b) && !IsNaN(a) ==> Div(w1, w2) == sign + INFINITY_POS)
      && (IsZero(a) && !IsNaN(b) && !IsZero(b) ==> Div(w1, w2) == sign)
      && (IsInfinity(b) && !IsNaN(a) && !IsInfinity(a) ==> Div(w1, w2) == sign)
  {
  }

  /** Zero divided by zero is an infinity, not a NaN: +inf for equal signs, -inf otherwise. */
  lemma DivZeroByZero(w1: Word, w2: Word)
    requires w1 == ZERO_POS || w1 == ZERO_NEG
    requires w2 == ZERO_POS || w2 == ZERO_NEG
    ensures Div(w1, w2) == if w1 == w2 then INFINITY_POS else INFINITY_NEG
  {
    DecomposeZero(w1);
    DecomposeZero(w2);
  }

  /** Every finite non-zero number divided by itself is exactly 1.0. */
  lemma DivSelf(w: Word)
    requires ExpField(w) != 31 && w != ZERO_POS && w != ZERO_NEG
    ensures Div(w, w) == ONE_POS
  {
    var a := Decompose(w);
    DecomposeZero(w);
    DivByOwnMantissa(a);
    assert DivResult(a, a) == DivFinite(a, a);
  }

  lemma DivByOwnMantissa(a: HalfFloat)
    requires ValidSign(a.sign) && a.mant > 0
    ensures Composed(DivFinite(a, a)) == ONE_POS
  {
    MulDivCancel(0x8000, a.mant);
    assert a.mant * 0x8000 / a.mant == 0x8000;
    assert a.mant * 0x8000 % a.mant == 0;
    var h := HalfFloat(SIGN_POS, 0, 0x8000);
    NormalizedExact(h);
    assert DivFinite(a, a) == h;
    ComposedNormal(h);
  }

  /** 1.0 is a right identity of `hf_div` for every word with exponent field 2 to 30. */
  lemma DivOneIdentity(w: Word, one: Word)
    requires 2 <= ExpField(w) <= 30 && one == ONE_POS
    ensures Div(w, one) == w
  {
    var a, u := Decompose(w), Decompose(one);
    assert u == HalfFloat(0, 0, 0x8000);
    MulDivCancel(a.mant, 0x8000);
    assert a.mant * 0x8000 / 0x8000 == a.mant;
    NormalizedExact(a);
    assert DivResult(a, u) == a;
    ComposeDecompose(w);
  }

  /** The smallest subnormal divided by 2 underflows to +0. */
  lemma DivUnderflow(tiny: Word, two: Word)
    requires tiny == 0x0001 && two == 0x4000
    ensures Div(tiny, two) == ZERO_POS
  {
    TinyFields(tiny);
    TwoFields(two);
    DivTinyByTwo(Decompose(tiny), Decompose(two));
  }

  lemma DivTinyByTwo(a: HalfFloat, b: HalfFloat)
    requires a.sign == 0 && a.exp == -15 && a.mant == 32
    requires b.sign == 0 && b.exp == 1 && b.mant == 0x8000
    ensures Composed(DivResult(a, b)) == ZERO_POS
  {
    var h := a.(exp := -16);
    assert DivResult(a, b) == DivFinite(a, b) by {
      assert !IsNaN(a) && !IsNaN(b) && !IsInfinity(a) && !IsInfinity(b) && !IsZero(a) && !IsZero(b);
    }
    assert DivFinite(a, b) == NormalizedRounded(h) by {
      assert a.mant * 0x8000 / b.mant == 32 && a.mant * 0x8000 % b.mant == 0;
    }
    assert NormalizedRounded(h).exp < -14 by { TinyHalved(h); }
  }

  lemma TinyFields(w: Word)
    requires w == 0x0001
    ensures Decompose(w).sign == 0 && Decompose(w).exp == -15 && Decompose(w).mant == 32
  {
  }

  lemma OneFields(w: Word)
    requires w == ONE_POS
    ensures Decompose(w).sign == 0 && Decompose(w).exp == 0 && Decompose(w).mant == 0x8000
  {
  }

  lemma TwoFields(w: Word)
    requires w == 0x4000
    ensures Decompose(w).sign == 0 && Decompose(w).exp == 1 && Decompose(w).mant == 0x8000
  {
  }

  /** Half the smallest subnormal normalises ten places further down. */
  lemma TinyHalved(h: HalfFloat)
    requires h.sign == 0 && h.exp == -16 && h.mant == 32
    ensures NormalizedRounded(h).exp < -14
  {
    var u := ShiftUp(h);
    var k: nat := -16 - u.exp;
    assert u.mant == 32 * Pow2(k);
    TinyScale(k);
  }

  /** 32 scaled by fewer than five doublings stays below the normal range. */
  lemma TinyScale(k: nat)
    ensures k < 5 ==> 32 * Pow2(k) < MANT_NORM_MIN
  {
    if k < 5 {
      Pow2Monotone(k, 4);
      assert Pow2(4) == 16;
      MulLe(Pow2(k), 16, 32);
    }
  }

  // ------------------------------------------------------------------ inverse

  /** `hf_inv` */
  function Inv(w: Word): Word
  {
    Composed(InvResult(Decompose(w)))
  }

  /**
   * The record `hf_inv` hands to `compose_half`: it starts as (sign, 16, 1);
   * an infinity gives a zero, a zero an infinity, a NaN stays as it is and
   * every other operand takes the arithmetic path.
   */
  function InvResult(a: HalfFloat): (r: HalfFloat)
    requires Operand(a)
    ensures ValidSign(r.sign) && r.mant >= 0
  {
    if IsInfinity(a) then HalfFloat(a.sign, -EXP_BIAS, 0)
    else if IsZero(a) then HalfFloat(a.sign, EXP_FULL, 0)
    else if !IsNaN(a) then InvFinite(a)
    else HalfFloat(a.sign, EXP_FULL, 1)
  }

  /**
   * The arithmetic path of `hf_inv`: 1.0 with its implicit bit, shifted up
   * by 15, divided by the mantissa, with the negated exponent, rounded.
   */
  function InvFinite(a: HalfFloat): (r: HalfFloat)
    requires ValidSign(a.sign) && a.mant > 0
    ensures ValidSign(r.sign) && r.mant >= 0
  {
    var dividend := MANT_NORM_MIN * 0x8000;
    NormalizedRounded(HalfFloat(a.sign, -a.exp, dividend / a.mant))
  }

  /** `hf_inv`: 1/inf is a signed zero, 1/0 a signed infinity, a NaN keeps its sign. */
  lemma InvSpecial(w: Word)
    ensures var a := Decompose(w);
      && (IsInfinity(a) ==> Inv(w) == a.sign)
      && (IsZero(a) ==> Inv(w) == a.sign + INFINITY_POS)
      && (IsNaN(a) ==> Inv(w) == QuietNaN(a.sign))
  {
  }

  /** The inverse of a positive power of two 2^e with -13 <= e <= 13 is 2^-e. */
  lemma InvPowerOfTwo(w: Word)
    requires FracField(w) == 0 && 2 <= ExpField(w) <= 28 && SignBit(w) == SIGN_POS
    ensures Inv(w) == Pack(SIGN_POS, 30 - ExpField(w), 0)
  {
    var a := Decompose(w);
    assert a == HalfFloat(SIGN_POS, ExpField(w) - 15, 0x8000);
    var h := HalfFloat(SIGN_POS, -a.exp, 0x8000);
    assert MANT_NORM_MIN * 0x8000 / 0x8000 == 0x8000;
    assert InvFinite(a) == NormalizedRounded(h);
    NormalizedExact(h);
    assert InvResult(a) == h;
    ComposedNormal(h);
    assert h.exp != -14;
    assert h.mant / 32 % 1024 == 0 && h.exp + EXP_BIAS == 30 - ExpField(w);
    assert Pack(h.sign, h.exp + EXP_BIAS, h.mant / 32 % 1024) == Pack(SIGN_POS, 30 - ExpField(w), 0);
    assert Inv(w) == Composed(h);
  }

  /**
   * The inverse of 2^14 (0x7400) is 2^-14, the smallest normal number, but
   * `compose_half` writes exponent field 0 for the exponent -14 and drops
   * the implicit bit: `hf_inv` gives +0 instead of 0x0400.
   */
  lemma InvSmallestNormal(w: Word)
    requires SignBit(w) == SIGN_POS && ExpField(w) == 29 && FracField(w) == 0
    ensures Inv(w) == ZERO_POS
  {
    assert 0x8000 / 32 % 1024 == 0;
    var a := Decompose(w);
    assert a.sign == SIGN_POS && a.exp == 14 && a.mant == 0x8000;
    assert MANT_NORM_MIN * 0x8000 / 0x8000 == 0x8000;
    var h := HalfFloat(SIGN_POS, -a.exp, 0x8000);
    assert InvFinite(a) == NormalizedRounded(h);
    NormalizedExact(h);
    assert InvResult(a) == h;
    ComposedNormal(h);
  }

  // ------------------------------------------------------------ square roots

  /** `hf_sqrt` */
  function Sqrt(w: Word): Word
  {
    Composed(SqrtResult(Decompose(w)))
  }

  /**
   * The record `hf_sqrt` hands to `compose_half`: it starts as the NaN
   * (+, 16, 1); a zero keeps its sign and exponent, +infinity clears the
   * mantissa, a positive finite non-zero operand takes the arithmetic path
   * and a NaN or a negative operand stays the NaN.
   */
  function SqrtResult(a: HalfFloat): (r: HalfFloat)
    requires Operand(a)
    ensures ValidSign(r.sign) && r.mant >= 0
  {
    if IsZero(a) then HalfFloat(a.sign, a.exp, 0)
    else if IsInfinity(a) && a.sign == SIGN_POS then HalfFloat(SIGN_POS, EXP_FULL, 0)
    else if a.sign == SIGN_POS && !IsInfinity(a) && !IsNaN(a) then SqrtFinite(a)
    else HalfFloat(SIGN_POS, EXP_FULL, 1)
  }

  /** A positive finite non-zero operand: normal, or subnormal with exponent -15. */
  predicate RootOperand(a: HalfFloat) {
    ValidSign(a.sign) && 0 < a.mant < MANT_OVERFLOW && (a.mant < MANT_NORM_MIN ==> a.exp == EXP_MIN)
  }

  /**
   * The value `hf_sqrt` and `hf_rsqrt` take the root of, with the exponent
   * of the root times two: after a subnormal is normalised, the mantissa
   * shifted up by 15, and by one more with the exponent made even when it
   * is odd.  It is at least 2^30, so its root has sixteen bits.
   */
  function SqrtOperand(a: HalfFloat): (r: (Bits32, int))
    requires RootOperand(a)
    ensures r.1 % 2 == 0 && r.0 >= 0x4000_0000
  {
    var n := DenormalNormalized(a);
    MulLe(MANT_NORM_MIN, n.mant, 0x8000);
    var value := n.mant * 0x8000;
    // `input.exp & 1` on a two's-complement int is the Euclidean remainder.
    if n.exp % 2 == 1 then (value * 2, n.exp - 1) else (value, n.exp)
  }

  /** The arithmetic path of `hf_sqrt`: the integer root of the operand with half the exponent. */
  function SqrtFinite(a: HalfFloat): (r: HalfFloat)
    requires RootOperand(a)
    ensures ValidSign(r.sign) && r.mant >= 0
  {
    var (value, exp) := SqrtOperand(a);
    var root := SquareRootOf(value);
    if root > 0 then NormalizedRounded(HalfFloat(SIGN_POS, CDiv(exp, 2), root))
    else HalfFloat(SIGN_POS, EXP_FULL, 1)
  }

  /**
   * `hf_sqrt` special cases: a zero comes back unchanged, +infinity gives
   * +infinity, and a NaN or any negative non-zero number gives 0x7E00.
   */
  lemma SqrtSpecial(w: Word)
    ensures var a := Decompose(w);
      && (IsZero(a) ==> Sqrt(w) == w)
      && (IsInfinity(a) && a.sign == SIGN_POS ==> Sqrt(w) == INFINITY_POS)
      && (IsNaN(a) || (a.sign == SIGN_NEG && !IsZero(a)) ==> Sqrt(w) == NAN)
  {
    DecomposeZero(w);
  }

  /**
   * On a positive normal number whose root operand is the exact square of
   * a 16-bit root without guard bits, `hf_sqrt` is exact: the result has
   * half the exponent and the root as its mantissa.
   */
  lemma SqrtExact(w: Word, e: int, root: nat, r: Word)
    requires SignBit(w) == SIGN_POS && 1 <= ExpField(w) <= 30
    requires SqrtOperand(Decompose(w)) == (root * root, 2 * e) && -13 <= e <= 15
    requires MANT_NORM_MIN <= root < MANT_OVERFLOW && root % 32 == 0
    requires r == Pack(SIGN_POS, e + EXP_BIAS, root / 32 % 1024)
    ensures Sqrt(w) == r
  {
    var a := Decompose(w);
    SquareRootOfSquare(root * root, root);
    CDivExact(2 * e, 2);
    var h := HalfFloat(SIGN_POS, e, root);
    NormalizedExact(h);
    assert SqrtResult(a) == h;
    ComposedNormal(h);
  }

  /** The square root of a power of four 4^k, -7 <= k <= 7, is exactly 2^k (sqrt(1) == 1, sqrt(4) == 2, ...). */
  lemma SqrtPowerOfFour(w: Word)
    requires SignBit(w) == SIGN_POS && FracField(w) == 0 && 1 <= ExpField(w) <= 29 && ExpField(w) % 2 == 1
    ensures Sqrt(w) == Pack(SIGN_POS, EXP_BIAS + (ExpField(w) - EXP_BIAS) / 2, 0)
  {
    var a := Decompose(w);
    var k := (ExpField(w) - EXP_BIAS) / 2;
    assert a.sign == SIGN_POS && a.exp == 2 * k && a.mant == MANT_NORM_MIN;
    SqrtOperandPowerOfFour(a, k);
    SqrtExact(w, k, 0x8000, Pack(SIGN_POS, EXP_BIAS + k, 0));
  }

  /** A power of four 4^k is scaled to the square 2^30 with the exponent 2k. */
  lemma SqrtOperandPowerOfFour(a: HalfFloat, k: int)
    requires a.sign == SIGN_POS && a.exp == 2 * k && a.mant == MANT_NORM_MIN && -7 <= k <= 7
    ensures RootOperand(a) && SqrtOperand(a) == (0x8000 * 0x8000, 2 * k)
  {
    assert MANT_NORM_MIN * 0x8000 == 0x8000 * 0x8000;
  }

  /** `hf_sqrt` is exact on the squares 9, 25 and 36 as on the powers of four 1, 4, 16 and 64. */
  lemma SqrtExactSquares(w: Word)
    ensures w == 0x4880 ==> Sqrt(w) == 0x4200
    ensures w == 0x4E40 ==> Sqrt(w) == 0x4500
    ensures w == 0x5080 ==> Sqrt(w) == 0x4600
  {
    if w == 0x4880 {
      SqrtNine(w);
    } else if w == 0x4E40 {
      SqrtTwentyFive(w);
    } else if w == 0x5080 {
      SqrtThirtySix(w);
    }
  }

  lemma SqrtNine(w: Word)
    requires w == 0x4880
    ensures Sqrt(w) == 0x4200
  {
    SqrtExact(w, 1, 0xC000, 0x4200);
  }

  lemma SqrtTwentyFive(w: Word)
    requires w == 0x4E40
    ensures Sqrt(w) == 0x4500
  {
    SqrtExact(w, 2, 0xA000, 0x4500);
  }

  lemma SqrtThirtySix(w: Word)
    requires w == 0x5080
    ensures Sqrt(w) == 0x4600
  {
    SqrtExact(w, 2, 0xC000, 0x4600);
  }

  /** `hf_rsqrt` */
  function Rsqrt(w: Word): Word
  {
    Composed(RsqrtResult(Decompose(w)))
  }

  /**
   * The record `hf_rsqrt` hands to `compose_half`: it starts as +infinity
   * (+, 16, 0), which is the result for either zero; a NaN or a negative
   * non-zero operand sets the mantissa 1 (the NaN), +infinity the exponent
   * 0 (a zero), and a positive finite non-zero operand takes the arithmetic
   * path.
   */
  function RsqrtResult(a: HalfFloat): (r: HalfFloat)
    requires Operand(a)
    ensures ValidSign(r.sign) && r.mant >= 0
  {
    if IsNaN(a) || (a.sign != SIGN_POS && !IsZero(a)) then HalfFloat(SIGN_POS, EXP_FULL, 1)
    else if IsInfinity(a) then HalfFloat(SIGN_POS, 0, 0)
    else if !IsZero(a) then RsqrtFinite(a)
    else HalfFloat(SIGN_POS, EXP_FULL, 0)
  }

  /**
   * The arithmetic path of `hf_rsqrt`: the operand is normalised and
   * brought to an even exponent as for `hf_sqrt`, then the integer root
   * of the scaled mantissa is taken.
   */
  function RsqrtFinite(a: HalfFloat): (r: HalfFloat)
    requires RootOperand(a)
    ensures ValidSign(r.sign) && r.mant >= 0
  {
    var (value, exp) := SqrtOperand(a);
    SquareRootAtLeast(value, 0x8000);
    RsqrtOfRoot(SquareRootOf(value), exp)
  }

  /**
   * 2^31 divided by the integer root, cast to `int32_t`, with the exponent
   * `-(exp / 2) - 1`.  The root of an operand scaled to at least 2^30 is at
   * least 2^15, so the quotient is at most 2^16 and the cast keeps it.
   */
  function RsqrtOfRoot(root: nat, exp: int): (r: HalfFloat)
    requires root >= 0x8000
    ensures ValidSign(r.sign) && r.mant >= 0
  {
    if root > 0 then
      NormalizedRounded(HalfFloat(SIGN_POS, -CDiv(exp, 2) - 1, 0x8000_0000 / root))
    else HalfFloat(SIGN_POS, EXP_FULL, 0)
  }

  /** The quotient `2^31 / root` is at most 2^16, so it fits the mantissa field after one shift. */
  lemma RsqrtQuotient(root: int)
    requires root >= 0x8000
    ensures 0 <= 0x8000_0000 / root <= 0x1_0000
  {
    DivBounds(0x8000_0000, root, 0, 0x1_0001);
  }

  /**
   * `hf_rsqrt` special cases: a NaN or a negative non-zero number gives
   * 0x7E00, either zero gives +infinity and +infinity gives +0.
   */
  lemma RsqrtSpecial(w: Word)
    ensures var a := Decompose(w);
      && (IsNaN(a) || (a.sign == SIGN_NEG && !IsZero(a)) ==> Rsqrt(w) == NAN)
      && (IsZero(a) ==> Rsqrt(w) == INFINITY_POS)
      && (IsInfinity(a) && a.sign == SIGN_POS ==> Rsqrt(w) == ZERO_POS)
  {
    var a := Decompose(w);
    if IsInfinity(a) && a.sign == SIGN_POS {
      ComposeZeroMantissa(RsqrtResult(a));
    }
  }

  /**
   * The reciprocal square root of a power of four 4^k, -7 <= k <= 7, is
   * exactly 2^-k (1/sqrt(1) == 1, 1/sqrt(4) == 0.5, ...).
   */
  lemma RsqrtPowerOfFour(w: Word)
    requires SignBit(w) == SIGN_POS && FracField(w) == 0 && 1 <= ExpField(w) <= 29 && ExpField(w) % 2 == 1
    ensures Rsqrt(w) == Pack(SIGN_POS, EXP_BIAS - (ExpField(w) - EXP_BIAS) / 2, 0)
  {
    var a := Decompose(w);
    var k := (ExpField(w) - EXP_BIAS) / 2;
    assert a.sign == SIGN_POS && a.exp == 2 * k && a.mant == MANT_NORM_MIN;
    RsqrtEvenExponent(a, k);
  }

  lemma RsqrtEvenExponent(a: HalfFloat, k: int)
    requires a.sign == SIGN_POS && a.exp == 2 * k && a.mant == MANT_NORM_MIN && -7 <= k <= 7
    ensures Composed(RsqrtResult(a)) == Pack(SIGN_POS, EXP_BIAS - k, 0)
  {
    assert RsqrtResult(a) == RsqrtOfRoot(0x8000, 2 * k) by {
      assert !IsNaN(a) && !IsInfinity(a) && !IsZero(a);
      RsqrtPowerOfFourRoot(a, k);
    }
    RsqrtCarry(0x8000, k);
  }

  /** The operand of a power of four is the square of 2^15 with the exponent unchanged. */
  lemma RsqrtPowerOfFourRoot(a: HalfFloat, k: int)
    requires a.sign == SIGN_POS && a.exp == 2 * k && a.mant == MANT_NORM_MIN && -7 <= k <= 7
    ensures RootOperand(a) && RsqrtFinite(a) == RsqrtOfRoot(0x8000, 2 * k)
  {
    SqrtOperandPowerOfFour(a, k);
    RsqrtOfSquare(a, 0x8000, 2 * k);
  }

  /** An operand scaled to an exact square takes that square's root. */
  lemma RsqrtOfSquare(a: HalfFloat, root: nat, exp: int)
    requires RootOperand(a) && root >= 0x8000 && SqrtOperand(a) == (root * root, exp)
    ensures RsqrtFinite(a) == RsqrtOfRoot(root, exp)
  {
    SquareRootOfSquare(root * root, root);
  }

  /** A root of exactly 2^15 gives the quotient 2^16, which carries into the exponent. */
  lemma RsqrtCarry(root: nat, k: int)
    requires root == 0x8000 && -7 <= k <= 7
    ensures Composed(RsqrtOfRoot(root, 2 * k)) == Pack(SIGN_POS, EXP_BIAS - k, 0)
  {
    assert 0x8000_0000 / 0x8000 == MANT_OVERFLOW && MANT_NORM_MIN / 32 % 1024 == 0;
    CDivExact(2 * k, 2);
    var h := HalfFloat(SIGN_POS, -k - 1, 0x8000_0000 / root);
    assert RsqrtOfRoot(root, 2 * k) == NormalizedRounded(h);
    var n := HalfFloat(SIGN_POS, -k, MANT_NORM_MIN);
    NormalizedCarry(h);
    assert NormalizedRounded(h) == n;
    ComposedNormal(n);
    assert Pack(n.sign, n.exp + EXP_BIAS, n.mant / 32 % 1024) == Pack(SIGN_POS, EXP_BIAS - k, 0);
  }
  // -------------------------------------------------------------------- stubs

  /** `hf_cbrt`, not implemented: always `HF_NAN`. */
  function Cbrt(w: Word): Word { NAN }

  /** `hf_fma`, not implemented: always `HF_NAN`. */
  function Fma(a: Word, b: Word, c: Word): Word { NAN }

  /** `hf_hypot`, not implemented: always `HF_NAN`. */
  function Hypot(x: Word, y: Word): Word { NAN }

  /** `hf_fmod`, not implemented: always `HF_NAN`. */
  function Fmod(x: Word, y: Word): Word { NAN }

  /** `hf_remainder`, not implemented: always `HF_NAN`. */
  function Remainder(x: Word, y: Word): Word { NAN }

  /** `hf_remquo`, not implemented: always `HF_NAN`, the quotient is not written. */
  function Remquo(x: Word, y: Word): Word { NAN }
}
