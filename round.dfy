/**
 * The integer rounding functions of halffloat/hf_lib_round.c.
 *
 * Each one decodes its operand and returns NaN, infinities and zeros as
 * they are.  A value below 1 in magnitude (exponent below 0) is replaced
 * by a constant; a value with exponent from 0 to 9 has fractional bits,
 * which are cleared, and one unit of the integer part is added when the
 * rounding direction asks for it; a value with exponent 10 or more is
 * already an integer.  The record is then rounded and packed as in every
 * other operation.
 *
 * On a word with biased exponent field `E` from 15 to 24 the significand
 * `x = fraction + 1024` counts units of 2^(E - 25), so one integer is
 * `k = 2^(25 - E)` units: the result is `Scaled(sign, E, m)` for the
 * multiple `m` of `k` that the rounding direction picks.
 */
module Round {
  import opened CInt
  import opened HalfCommon
  import Arith

  const MANT_BITS: int := 10
  const PRECISION_SHIFT: int := 5
  /** `1U << (HF_MANT_SHIFT - 1)`: one half at exponent -1. */
  const HALF_THRESHOLD: int := 0x4000
  /** The word of -1.0. */
  const ONE_NEG: Word := 0xBC00

  /** NaN, infinities and zeros are returned by every rounding function without arithmetic. */
  predicate Special(h: HalfFloat) {
    IsNaN(h) || IsInfinity(h) || IsZero(h)
  }

  /**
   * `1U << (frac_bits + HF_PRECISION_SHIFT)` with `frac_bits = HF_MANT_BITS - exp`:
   * the mantissa of 1.0 at exponent `exp`, so the bits below it are the fraction.
   */
  function Unit(exp: int): (u: nat)
    requires 0 <= exp < MANT_BITS
    ensures u >= 2
  {
    Pow2(MANT_BITS - exp + PRECISION_SHIFT)
  }

  // --------------------------------------------------------------- records

  /** The record `hf_trunc` hands to `compose_half`. */
  function TruncResult(a: HalfFloat): (r: HalfFloat)
    requires ValidSign(a.sign) && a.mant >= 0
    ensures r.sign == a.sign && r.mant >= 0
  {
    if Special(a) then a
    else if a.exp < 0 then a.(mant := 0, exp := EXP_MIN)
    else if a.exp < MANT_BITS then NormalizedRounded(a.(mant := TruncMantissa(a)))
    else a
  }

  /** The mantissa `hf_trunc` keeps from exponent 0 to 9: `mant & ~(unit - 1)`, the multiple of the unit below it. */
  function TruncMantissa(a: HalfFloat): nat
    requires a.mant >= 0 && 0 <= a.exp < MANT_BITS
  {
    RoundedDown(a.mant, Unit(a.exp))
  }

  /** The record `hf_ceil` hands to `compose_half`. */
  function CeilResult(a: HalfFloat): (r: HalfFloat)
    requires ValidSign(a.sign) && a.mant >= 0
    ensures r.sign == a.sign && r.mant >= 0
  {
    if Special(a) then a
    else if a.exp < 0 then
      if a.sign == SIGN_POS then a.(mant := MANT_NORM_MIN, exp := 0)
      else a.(sign := ZERO_NEG, mant := 0, exp := EXP_MIN)
    else if a.exp < MANT_BITS then NormalizedRounded(a.(mant := CeilMantissa(a)))
    else a
  }

  /**
   * The mantissa `hf_ceil` hands to `normalize_and_round` from exponent 0
   * to 9: when the fraction `mant & (unit - 1)` is not zero it is cleared,
   * and a positive value gains one unit.
   */
  function CeilMantissa(a: HalfFloat): nat
    requires ValidSign(a.sign) && a.mant >= 0 && 0 <= a.exp < MANT_BITS
  {
    var u := Unit(a.exp);
    if a.mant % u != 0 then RoundedDown(a.mant, u) + (if a.sign == SIGN_POS then u else 0)
    else a.mant
  }

  /** The record `hf_floor` hands to `compose_half`. */
  function FloorResult(a: HalfFloat): (r: HalfFloat)
    requires ValidSign(a.sign) && a.mant >= 0
    ensures r.sign == a.sign && r.mant >= 0
  {
    if Special(a) then a
    else if a.exp < 0 then
      if a.sign == SIGN_POS then a.(mant := 0, exp := EXP_MIN)
      else a.(mant := MANT_NORM_MIN, exp := 0)
    else if a.exp < MANT_BITS then NormalizedRounded(a.(mant := FloorMantissa(a)))
    else a
  }

  /**
   * The mantissa `hf_floor` hands to `normalize_and_round` from exponent 0
   * to 9: a non-zero fraction is cleared, and a negative value gains one
   * unit.
   */
  function FloorMantissa(a: HalfFloat): nat
    requires ValidSign(a.sign) && a.mant >= 0 && 0 <= a.exp < MANT_BITS
  {
    var u := Unit(a.exp);
    if a.mant % u != 0 then RoundedDown(a.mant, u) + (if a.sign == SIGN_NEG then u else 0)
    else a.mant
  }

  /**
   * The record `hf_round` hands to `compose_half`.  Below 1 the mantissa
   * alone is compared with 1 << 14, whatever the exponent; from exponent 0
   * to 9 `RoundMantissa` decides.
   */
  function RoundResult(a: HalfFloat): (r: HalfFloat)
    requires ValidSign(a.sign) && a.mant >= 0
    ensures ValidSign(r.sign) && r.mant >= 0
  {
    if Special(a) then a
    else if a.exp < 0 then
      if a.mant < HALF_THRESHOLD then a.(mant := 0, exp := EXP_MIN, sign := ZERO_POS)
      else a.(mant := MANT_NORM_MIN, exp := 0)
    else if a.exp < MANT_BITS then NormalizedRounded(a.(mant := RoundMantissa(a)))
    else a
  }

  /**
   * The mantissa `hf_round` hands to `normalize_and_round` from exponent 0
   * to 9: a non-zero fraction is compared with half a unit, and the
   * integer part goes up one unit above it, or on a tie when bit `unit` of
   * the integer part is set.
   */
  function RoundMantissa(a: HalfFloat): nat
    requires a.mant >= 0 && 0 <= a.exp < MANT_BITS
  {
    var u := Unit(a.exp);
    var frac := a.mant % u;
    var intPart := RoundedDown(a.mant, u);
    if frac != 0 then
      var halfBit := u / 2;
      // `int_part & unit` is bit 0 of the integer part.
      if frac > halfBit || (frac == halfBit && intPart / u % 2 == 1) then intPart + u
      else intPart
    else a.mant
  }

  // ----------------------------------------------------------------- words

  /** `hf_trunc` */
  function Trunc(w: Word): Word
  {
    Composed(TruncResult(Decompose(w)))
  }

  /** `hf_int` is `hf_trunc`. */
  function Int(w: Word): Word
  {
    Trunc(w)
  }

  /** `hf_ceil` */
  function Ceil(w: Word): Word
  {
    Composed(CeilResult(Decompose(w)))
  }

  /** `hf_floor` */
  function Floor(w: Word): Word
  {
    Composed(FloorResult(Decompose(w)))
  }

  /** `hf_round` */
  function Round(w: Word): Word
  {
    Composed(RoundResult(Decompose(w)))
  }

  // ------------------------------------------------ integer multiples of k

  /** The largest multiple of `k` not above `x`. */
  function RoundedDown(x: nat, k: nat): (m: nat)
    requires k >= 1
  {
    x / k * k
  }

  /** The multiple of `k` the ceiling picks: one more unit when `x` is not a multiple. */
  function RoundedUp(x: nat, k: nat): (m: nat)
    requires k >= 1
  {
    (x / k + (if x % k != 0 then 1 else 0)) * k
  }

  /** The multiple of `k` `hf_round` picks: up when the remainder is above half, or exactly half and the quotient odd. */
  function RoundedToEven(x: nat, k: nat): (m: nat)
    requires k >= 1
  {
    var r := x % k;
    (x / k + (if 2 * r > k || (2 * r == k && x / k % 2 == 1) then 1 else 0)) * k
  }

  /** A multiple of `k` leaves no remainder and its quotient back. */
  lemma MultipleOf(q: int, k: int)
    requires k >= 1
    ensures q * k % k == 0 && q * k / k == q
  {
    DivUnique(q * k, k, q);
  }

  /** `RoundedDown` is the truncation: a multiple of `k` within one unit below `x`. */
  lemma RoundedDownIsFloor(x: nat, k: nat)
    requires k >= 1
    ensures RoundedDown(x, k) % k == 0
    ensures RoundedDown(x, k) <= x < RoundedDown(x, k) + k
  {
    DivFacts(x, k);
    MultipleOf(x / k, k);
  }

  /** `RoundedUp` is the ceiling: a multiple of `k` within one unit above `x`. */
  lemma RoundedUpIsCeiling(x: nat, k: nat)
    requires k >= 1
    ensures RoundedUp(x, k) % k == 0
    ensures x <= RoundedUp(x, k) < x + k
  {
    var q, r := x / k, x % k;
    assert x == q * k + r;
    if r != 0 {
      assert RoundedUp(x, k) == (q + 1) * k == q * k + k;
      MultipleOf(q + 1, k);
    } else {
      assert RoundedUp(x, k) == q * k;
      MultipleOf(q, k);
    }
  }

  /**
   * `RoundedToEven` is the nearest multiple of `k`, and on a tie the one
   * whose quotient by `k` is even.
   */
  lemma RoundedToEvenIsNearest(x: nat, k: nat)
    requires k >= 1
    ensures var m := RoundedToEven(x, k);
      && m % k == 0
      && 2 * Dist(x, m) <= k
      && (2 * Dist(x, m) == k ==> m / k % 2 == 0)
  {
    var q, r := x / k, x % k;
    DivFacts(x, k);
    assert x == q * k + r && 0 <= r < k;
    var up := 2 * r > k || (2 * r == k && q % 2 == 1);
    assert RoundedToEven(x, k) == (q + (if up then 1 else 0)) * k;
    NearestStep(x, k, q, r, up);
  }

  lemma NearestStep(x: int, k: int, q: int, r: int, up: bool)
    requires k >= 1 && x == q * k + r && 0 <= r < k
    requires up <==> 2 * r > k || (2 * r == k && q % 2 == 1)
    ensures var m := (q + (if up then 1 else 0)) * k;
      && m % k == 0
      && 2 * Dist(x, m) <= k
      && (2 * Dist(x, m) == k ==> m / k % 2 == 0)
  {
    if up {
      MultipleOf(q + 1, k);
      assert (q + 1) * k == x + (k - r);
    } else {
      MultipleOf(q, k);
    }
  }

  /** Ceiling and nearest add at most one unit `k` to the truncation. */
  lemma RoundedAboveDown(x: nat, k: nat)
    requires k >= 1
    ensures RoundedUp(x, k) == RoundedDown(x, k) + (if x % k != 0 then k else 0)
    ensures RoundedToEven(x, k) == RoundedDown(x, k) +
      (if 2 * (x % k) > k || (2 * (x % k) == k && x / k % 2 == 1) then k else 0)
    ensures x % k == 0 ==> RoundedDown(x, k) == x
  {
    DivFacts(x, k);
    assert x == x / k * k + x % k;
  }

  /** The distance between two integers. */
  function Dist(x: int, y: int): (d: nat)
    ensures d == x - y || d == y - x
  {
    if x >= y then x - y else y - x
  }

  // ------------------------------------------------- the arithmetic steps

  /**
   * The word of sign `s` and magnitude `m` units of 2^(e - 25), for `m`
   * from 1024 to 2048: below 2048 the fraction field is `m - 1024`, and
   * 2048 is 2^(e - 14), the next exponent with fraction 0.
   */
  function Scaled(s: Word, e: int, m: int): (w: Word)
    requires ValidSign(s) && 15 <= e <= 24
    ensures SignBit(w) == s
  {
    if 1024 <= m < 2048 then Pack(s, e, m - 1024) else Pack(s, e + 1, 0)
  }

  /** The unit at exponent `e` is 32 times `k = 2^(10 - e)`, and `k` times `2^e` is 1024. */
  lemma UnitFactor(e: int)
    requires 0 <= e < MANT_BITS
    ensures Unit(e) == 32 * Pow2(10 - e)
    ensures Pow2(10 - e) * Pow2(e) == 1024
  {
    assert Pow2(5) == 32;
    assert Pow2(10) == 1024;
    Pow2Add(5, 10 - e);
    Pow2Add(10 - e, e);
  }

  /** Quotient and remainder by `32 * k` of a mantissa `32 * x`. */
  lemma SplitScaled(x: nat, k: nat)
    requires k >= 1
    ensures (x * 32) / (32 * k) == x / k
    ensures (x * 32) % (32 * k) == x % k * 32
    ensures (x * 32) / (32 * k) * (32 * k) == x / k * k * 32
  {
    var q, r := x / k, x % k;
    assert x == q * k + r;
    assert x * 32 == q * (32 * k) + r * 32;
    DivUnique(x * 32, 32 * k, q);
  }

  /** The multiples of `k` around a significand from 1024 to 2047 lie from 1024 to 2048. */
  lemma MultipleBounds(x: nat, k: nat, j: nat)
    requires 1024 <= x < 2048 && k >= 1 && k * j == 1024
    ensures 1024 <= x / k * k && (x / k + 1) * k <= 2048
  {
    assert 2 * j * k == 2048;
    DivBounds(x, k, j, 2 * j);
    MulLe(j, x / k, k);
    MulLe(x / k + 1, 2 * j, k);
  }

  /** Rounding and packing a record whose mantissa is `32 * m`, with `m` from 1024 to 2048. */
  lemma ComposedScaled(a: HalfFloat, m: int)
    requires ValidSign(a.sign) && 0 <= a.exp < MANT_BITS && 1024 <= m <= 2048
    ensures Composed(NormalizedRounded(a.(mant := m * 32))) == Scaled(a.sign, a.exp + EXP_BIAS, m)
  {
    var e := a.exp + EXP_BIAS;
    if m < 2048 {
      assert Scaled(a.sign, e, m) == Pack(a.sign, e, m - 1024);
      ComposedScaledExact(a, m);
    } else {
      assert Scaled(a.sign, e, m) == Pack(a.sign, e + 1, 0);
      assert a.(mant := m * 32) == a.(mant := 2048 * 32);
      ComposedScaledCarry(a);
    }
  }

  lemma ComposedScaledExact(a: HalfFloat, m: int)
    requires ValidSign(a.sign) && 0 <= a.exp < MANT_BITS && 1024 <= m < 2048
    ensures Composed(NormalizedRounded(a.(mant := m * 32))) == Pack(a.sign, a.exp + EXP_BIAS, m - 1024)
  {
    var h := a.(mant := m * 32);
    NormalizedExact(h);
    ComposedNormal(h);
    assert h.mant / 32 % 1024 == m - 1024;
  }

  /** A significand of 2048 carries into the next exponent with a zero fraction. */
  lemma ComposedScaledCarry(a: HalfFloat)
    requires ValidSign(a.sign) && 0 <= a.exp < MANT_BITS
    ensures Composed(NormalizedRounded(a.(mant := 2048 * 32))) == Pack(a.sign, a.exp + EXP_BIAS + 1, 0)
  {
    var h := a.(mant := 2048 * 32);
    NormalizedCarry(h);
    var n := NormalizedRounded(h);
    assert n.sign == a.sign && n.exp == a.exp + 1 && n.mant == MANT_NORM_MIN;
    ComposedNormal(n);
    assert n.mant / 32 % 1024 == 0;
  }

  /**
   * At exponent `e` from 0 to 9 the unit is 32 times `k = 2^(10 - e)`; a
   * mantissa `32 * x` splits by it into the quotient and remainder of `x`
   * by `k`, and for a significand `x` from 1024 to 2047 the multiple of
   * `k` below it lies from 1024 up, one `k` below 2048 or less.
   */
  lemma UnitSplit(x: nat, e: int)
    requires 1024 <= x < 2048 && 0 <= e < MANT_BITS
    ensures var u, k := Unit(e), Pow2(10 - e);
      && k >= 2 && u == 32 * k
      && (x * 32) % u == x % k * 32 && (x * 32) / u == x / k
      && RoundedDown(x * 32, u) == RoundedDown(x, k) * 32
      && 1024 <= RoundedDown(x, k) && RoundedDown(x, k) + k <= 2048
  {
    UnitFactor(e);
    UnitQuotient(x, Pow2(10 - e));
    UnitBounds(x, e);
  }

  lemma UnitQuotient(x: nat, k: nat)
    requires k >= 1
    ensures (x * 32) % (32 * k) == x % k * 32 && (x * 32) / (32 * k) == x / k
    ensures RoundedDown(x * 32, 32 * k) == RoundedDown(x, k) * 32
  {
    SplitScaled(x, k);
  }

  lemma UnitBounds(x: nat, e: int)
    requires 1024 <= x < 2048 && 0 <= e < MANT_BITS
    ensures Pow2(10 - e) >= 2
    ensures 1024 <= RoundedDown(x, Pow2(10 - e)) && RoundedDown(x, Pow2(10 - e)) + Pow2(10 - e) <= 2048
  {
    UnitFactor(e);
    MultipleBounds(x, Pow2(10 - e), Pow2(e));
  }

  /**
   * What the rounding functions see of a word with exponent field 15 to 24:
   * a normal record whose unit is 32 times `k`, whose fraction bits are
   * those of the significand `x` below `k`, and whose truncation leaves a
   * multiple of `k` from 1024 up, one unit below 2048 or less.
   */
  lemma DecodeInRange(w: Word)
    requires 15 <= ExpField(w) <= 24
    ensures var a, x, k := Decompose(w), FracField(w) + 1024, Pow2(25 - ExpField(w));
      && !Special(a) && 0 <= a.exp < MANT_BITS && a.exp + EXP_BIAS == ExpField(w) && k >= 2
      && Unit(a.exp) == 32 * k && a.mant == x * 32
      && a.mant % Unit(a.exp) == x % k * 32 && a.mant / Unit(a.exp) == x / k
      && RoundedDown(a.mant, Unit(a.exp)) == RoundedDown(x, k) * 32
      && 1024 <= RoundedDown(x, k) && RoundedDown(x, k) + k <= 2048
  {
    var a, x := Decompose(w), FracField(w) + 1024;
    var e := ExpField(w) - EXP_BIAS;
    assert a == HalfFloat(SignBit(w), e, x * 32);
    assert !Special(a);
    assert Pow2(25 - ExpField(w)) == Pow2(10 - e);
    UnitSplit(x, e);
  }

  /**
   * A normal record from exponent 0 to 9 as `DecodeInRange` describes it:
   * mantissa `32 * x`, unit `32 * k`, the truncation a multiple of `k`
   * from 1024 up, one `k` below 2048 or less.
   */
  ghost predicate InRangeRecord(a: HalfFloat, x: nat, k: nat)
  {
    && ValidSign(a.sign) && !Special(a) && 0 <= a.exp < MANT_BITS && k >= 2
    && Unit(a.exp) == 32 * k && a.mant == x * 32
    && a.mant % Unit(a.exp) == x % k * 32 && a.mant / Unit(a.exp) == x / k
    && RoundedDown(a.mant, Unit(a.exp)) == RoundedDown(x, k) * 32
    && 1024 <= RoundedDown(x, k) && RoundedDown(x, k) + k <= 2048
  }

  lemma DecodedInRange(w: Word)
    requires 15 <= ExpField(w) <= 24
    ensures var a := Decompose(w);
      InRangeRecord(a, FracField(w) + 1024, Pow2(25 - ExpField(w))) && a.sign == SignBit(w) && a.exp + EXP_BIAS == ExpField(w)
  {
    DecodeInRange(w);
  }

  lemma TruncRecord(a: HalfFloat, x: nat, k: nat)
    requires InRangeRecord(a, x, k)
    ensures TruncMantissa(a) == RoundedDown(x, k) * 32
    ensures 1024 <= RoundedDown(x, k) <= 2048
  {
  }

  lemma CeilRecord(a: HalfFloat, x: nat, k: nat)
    requires InRangeRecord(a, x, k)
    ensures var m := if a.sign == SIGN_POS then RoundedUp(x, k) else RoundedDown(x, k);
      CeilMantissa(a) == m * 32 && 1024 <= m <= 2048
  {
    RoundedAboveDown(x, k);
  }

  lemma FloorRecord(a: HalfFloat, x: nat, k: nat)
    requires InRangeRecord(a, x, k)
    ensures var m := if a.sign == SIGN_NEG then RoundedUp(x, k) else RoundedDown(x, k);
      FloorMantissa(a) == m * 32 && 1024 <= m <= 2048
  {
    RoundedAboveDown(x, k);
  }

  lemma RoundRecord(a: HalfFloat, x: nat, k: nat)
    requires InRangeRecord(a, x, k)
    ensures RoundMantissa(a) == RoundedToEven(x, k) * 32
    ensures 1024 <= RoundedToEven(x, k) <= 2048
  {
    RoundedAboveDown(x, k);
    var u := Unit(a.exp);
    MultipleOf(a.mant / u, u);
    assert RoundedDown(a.mant, u) / u == x / k;
  }

  /**
   * `hf_trunc` from exponent 0 to 9 clears exactly the fraction bits: the
   * significand becomes the multiple of `k` below it.
   */
  lemma TruncInRange(w: Word)
    requires 15 <= ExpField(w) <= 24
    ensures Trunc(w) == Scaled(SignBit(w), ExpField(w), RoundedDown(FracField(w) + 1024, Pow2(25 - ExpField(w))))
  {
    var a, x, k := Decompose(w), FracField(w) + 1024, Pow2(25 - ExpField(w));
    DecodedInRange(w);
    TruncRecord(a, x, k);
    ComposedScaled(a, RoundedDown(x, k));
  }

  /**
   * `hf_ceil` from exponent 0 to 9: a positive value goes up to the next
   * multiple of `k`, a negative one is truncated toward zero.
   */
  lemma CeilInRange(w: Word)
    requires 15 <= ExpField(w) <= 24
    ensures var x, k := FracField(w) + 1024, Pow2(25 - ExpField(w));
      Ceil(w) == Scaled(SignBit(w), ExpField(w), if SignBit(w) == SIGN_POS then RoundedUp(x, k) else RoundedDown(x, k))
  {
    var a, x, k := Decompose(w), FracField(w) + 1024, Pow2(25 - ExpField(w));
    DecodedInRange(w);
    CeilRecord(a, x, k);
    ComposedScaled(a, if a.sign == SIGN_POS then RoundedUp(x, k) else RoundedDown(x, k));
  }

  /**
   * `hf_floor` from exponent 0 to 9: a positive value is truncated, a
   * negative one goes away from zero to the next multiple of `k`.
   */
  lemma FloorInRange(w: Word)
    requires 15 <= ExpField(w) <= 24
    ensures var x, k := FracField(w) + 1024, Pow2(25 - ExpField(w));
      Floor(w) == Scaled(SignBit(w), ExpField(w), if SignBit(w) == SIGN_NEG then RoundedUp(x, k) else RoundedDown(x, k))
  {
    var a, x, k := Decompose(w), FracField(w) + 1024, Pow2(25 - ExpField(w));
    DecodedInRange(w);
    FloorRecord(a, x, k);
    ComposedScaled(a, if a.sign == SIGN_NEG then RoundedUp(x, k) else RoundedDown(x, k));
  }

  /** `hf_round` from exponent 0 to 9 picks the nearest multiple of `k`, the even one on a tie. */
  lemma RoundInRange(w: Word)
    requires 15 <= ExpField(w) <= 24
    ensures Round(w) == Scaled(SignBit(w), ExpField(w), RoundedToEven(FracField(w) + 1024, Pow2(25 - ExpField(w))))
  {
    var a, x, k := Decompose(w), FracField(w) + 1024, Pow2(25 - ExpField(w));
    DecodedInRange(w);
    RoundRecord(a, x, k);
    ComposedScaled(a, RoundedToEven(x, k));
  }

  // --------------------------------------------- the other exponent ranges

  /**
   * NaN, infinities and zeros skip the arithmetic: a NaN comes back as the
   * quiet NaN with its sign, an infinity or a zero bit for bit.
   */
  lemma SpecialsUnchanged(w: Word)
    ensures ExpField(w) == 31 && FracField(w) != 0 ==>
      && Trunc(w) == SignBit(w) + NAN && Ceil(w) == SignBit(w) + NAN
      && Floor(w) == SignBit(w) + NAN && Round(w) == SignBit(w) + NAN
    ensures (ExpField(w) == 31 && FracField(w) == 0) || w == ZERO_POS || w == ZERO_NEG ==>
      Trunc(w) == w && Ceil(w) == w && Floor(w) == w && Round(w) == w
  {
    DecomposeClasses(w);
    DecomposeZero(w);
    ComposeDecompose(w);
  }

  /** From exponent 10 up a finite value is an integer already and every rounding function returns it. */
  lemma LargeUnchanged(w: Word)
    requires 25 <= ExpField(w) <= 30
    ensures Trunc(w) == w && Ceil(w) == w && Floor(w) == w && Round(w) == w
  {
    ComposeDecompose(w);
  }

  /**
   * Below 1 in magnitude (exponent field below 15, not a zero): `hf_trunc`
   * gives the zero of the same sign, `hf_ceil` 1.0 or -0, `hf_floor` +0 or
   * -1.0, and `hf_round` +0 only for a subnormal below 2^-15 and the
   * one of the same sign otherwise.
   */
  lemma SmallValues(w: Word)
    requires ExpField(w) < 15 && (ExpField(w) != 0 || FracField(w) != 0)
    ensures Trunc(w) == SignBit(w)
    ensures Ceil(w) == if SignBit(w) == SIGN_POS then ONE_POS else ZERO_NEG
    ensures Floor(w) == if SignBit(w) == SIGN_POS then ZERO_POS else ONE_NEG
    ensures Round(w) == if ExpField(w) == 0 && FracField(w) < 512 then ZERO_POS else Pack(SignBit(w), 15, 0)
  {
    SmallTruncValue(w);
    SmallCeilValue(w);
    SmallFloorValue(w);
    SmallRoundValue(w);
  }

  /** The record for 1.0 with the sign of `w` packs to the signed one. */
  lemma SignedOne(w: Word)
    ensures Composed(Decompose(w).(mant := MANT_NORM_MIN, exp := 0)) == Pack(SignBit(w), 15, 0)
    ensures Pack(SIGN_POS, 15, 0) == ONE_POS && Pack(SIGN_NEG, 15, 0) == ONE_NEG
  {
    assert MANT_NORM_MIN / 32 % 1024 == 0;
    ComposedNormal(Decompose(w).(mant := MANT_NORM_MIN, exp := 0));
  }

  lemma SmallTruncValue(w: Word)
    requires ExpField(w) < 15 && (ExpField(w) != 0 || FracField(w) != 0)
    ensures Trunc(w) == SignBit(w)
  {
    SmallRecords(w);
  }

  lemma SmallCeilValue(w: Word)
    requires ExpField(w) < 15 && (ExpField(w) != 0 || FracField(w) != 0)
    ensures Ceil(w) == if SignBit(w) == SIGN_POS then ONE_POS else ZERO_NEG
  {
    SmallRecords(w);
    SignedOne(w);
  }

  lemma SmallFloorValue(w: Word)
    requires ExpField(w) < 15 && (ExpField(w) != 0 || FracField(w) != 0)
    ensures Floor(w) == if SignBit(w) == SIGN_POS then ZERO_POS else ONE_NEG
  {
    SmallRecords(w);
    SignedOne(w);
  }

  lemma SmallRoundValue(w: Word)
    requires ExpField(w) < 15 && (ExpField(w) != 0 || FracField(w) != 0)
    ensures Round(w) == if ExpField(w) == 0 && FracField(w) < 512 then ZERO_POS else Pack(SignBit(w), 15, 0)
  {
    SmallRecords(w);
    SignedOne(w);
  }

  /** The records the four functions hand to `compose_half` below 1 in magnitude. */
  lemma SmallRecords(w: Word)
    requires ExpField(w) < 15 && (ExpField(w) != 0 || FracField(w) != 0)
    ensures var a := Decompose(w);
      var one, zero := a.(mant := MANT_NORM_MIN, exp := 0), a.(mant := 0, exp := EXP_MIN);
      && a.sign == SignBit(w)
      && TruncResult(a) == zero
      && CeilResult(a) == (if a.sign == SIGN_POS then one else zero)
      && FloorResult(a) == (if a.sign == SIGN_POS then zero else one)
      && RoundResult(a) == (if ExpField(w) == 0 && FracField(w) < 512 then zero.(sign := SIGN_POS) else one)
  {
    SmallDecoded(w);
  }

  /** Below 1 in magnitude the decoded record is finite, not zero, with a negative exponent; it is below one half exactly for the subnormals under 2^-15. */
  lemma SmallDecoded(w: Word)
    requires ExpField(w) < 15 && (ExpField(w) != 0 || FracField(w) != 0)
    ensures var a := Decompose(w);
      && !Special(a) && a.exp < 0 && a.sign == SignBit(w)
      && (a.mant < HALF_THRESHOLD <==> ExpField(w) == 0 && FracField(w) < 512)
  {
    DecomposeClasses(w);
  }

  // ---------------------------------------------------------- integrality

  /**
   * The words every rounding function returns unchanged: the integers
   * (zeros, exponent 10 or more, or exponent 0 to 9 without fraction bits
   * below the unit), the infinities and the two quiet NaNs.
   */
  predicate Integral(w: Word) {
    || (ExpField(w) == 0 && FracField(w) == 0)
    || (15 <= ExpField(w) <= 24 && FracField(w) % Pow2(25 - ExpField(w)) == 0)
    || 25 <= ExpField(w) <= 30
    || (ExpField(w) == 31 && (FracField(w) == 0 || FracField(w) == 512))
  }

  /** A multiple of `k` is its own rounding in each direction. */
  lemma MultipleFixed(x: nat, k: nat)
    requires k >= 1 && x % k == 0
    ensures RoundedDown(x, k) == x && RoundedUp(x, k) == x && RoundedToEven(x, k) == x
  {
    RoundedAboveDown(x, k);
  }

  /** Without fraction bits below `k`, the significand `x` itself is a multiple of `k`. */
  lemma SignificandMultiple(w: Word)
    requires 15 <= ExpField(w) <= 24 && FracField(w) % Pow2(25 - ExpField(w)) == 0
    ensures (FracField(w) + 1024) % Pow2(25 - ExpField(w)) == 0
  {
    var k := Pow2(25 - ExpField(w));
    var e := ExpField(w) - EXP_BIAS;
    assert k == Pow2(10 - e);
    UnitFactor(e);
    assert k * Pow2(e) == 1024;
    ModShift(FracField(w), Pow2(e), k);
  }

  /** A significand that is a multiple of `k` is its own rounding, and scales back to its word. */
  lemma ExactMultiple(w: Word)
    requires 15 <= ExpField(w) <= 24 && FracField(w) % Pow2(25 - ExpField(w)) == 0
    ensures var x, k := FracField(w) + 1024, Pow2(25 - ExpField(w));
      && RoundedDown(x, k) == x && RoundedUp(x, k) == x && RoundedToEven(x, k) == x
      && Scaled(SignBit(w), ExpField(w), x) == w
  {
    SignificandMultiple(w);
    MultipleFixed(FracField(w) + 1024, Pow2(25 - ExpField(w)));
    PackFields(w);
  }

  /** A word from exponent 0 to 9 without fraction bits below the unit is a fixed point of all four functions. */
  lemma ExactUnchanged(w: Word)
    requires 15 <= ExpField(w) <= 24 && FracField(w) % Pow2(25 - ExpField(w)) == 0
    ensures Trunc(w) == w && Ceil(w) == w && Floor(w) == w && Round(w) == w
  {
    ExactMultiple(w);
    assert Trunc(w) == w by { TruncInRange(w); }
    assert Ceil(w) == w by { CeilInRange(w); }
    assert Floor(w) == w by { FloorInRange(w); }
    assert Round(w) == w by { RoundInRange(w); }
  }

  /** An integral word is a fixed point of all four rounding functions. */
  lemma IntegralUnchanged(w: Word)
    requires Integral(w)
    ensures Trunc(w) == w && Ceil(w) == w && Floor(w) == w && Round(w) == w
  {
    if 15 <= ExpField(w) <= 24 {
      ExactUnchanged(w);
    } else if 25 <= ExpField(w) <= 30 {
      LargeUnchanged(w);
    } else {
      SpecialsUnchanged(w);
      PackFields(w);
      if ExpField(w) == 0 {
        assert w == ZERO_POS || w == ZERO_NEG;
      } else if FracField(w) == 512 {
        assert w == SignBit(w) + NAN;
      }
    }
  }

  /** A multiple of `k` from 1024 to 2048 scales to an integral word. */
  lemma ScaledIntegral(s: Word, e: int, m: int)
    requires ValidSign(s) && 15 <= e <= 24 && 1024 <= m <= 2048 && m % Pow2(25 - e) == 0
    ensures Integral(Scaled(s, e, m))
  {
    if m < 2048 {
      UnitDivides(e);
      ShiftedMultiple(m, Pow2(25 - e), Pow2(e - EXP_BIAS));
      PackedIntegral(s, e, m - 1024);
    } else {
      CarryIntegral(s, e);
    }
  }

  /** A word whose fraction is a multiple of the unit `k` of its exponent field is integral. */
  lemma PackedIntegral(s: Word, e: int, f: int)
    requires ValidSign(s) && 15 <= e <= 24 && 0 <= f < 1024 && f % Pow2(25 - e) == 0
    ensures Integral(Pack(s, e, f))
  {
    PackFieldValues(s, e, f);
  }

  /** The carry into the next exponent field leaves a zero fraction, an integral word. */
  lemma CarryIntegral(s: Word, e: int)
    requires ValidSign(s) && 15 <= e <= 24
    ensures Integral(Pack(s, e + 1, 0))
  {
    PackFieldValues(s, e + 1, 0);
    if e < 24 {
      var k := Pow2(25 - (e + 1));
      assert 0 % k == 0;
    }
  }

  /** The unit `k` of exponent field `e` divides 1024. */
  lemma UnitDivides(e: int)
    requires 15 <= e <= 24
    ensures Pow2(25 - e) * Pow2(e - EXP_BIAS) == 1024
  {
    UnitFactor(e - EXP_BIAS);
    assert Pow2(25 - e) == Pow2(10 - (e - EXP_BIAS));
  }

  /** A multiple of a divisor `k` of 1024 stays a multiple once 1024 is taken off. */
  lemma ShiftedMultiple(m: int, k: int, j: int)
    requires k >= 1 && k * j == 1024 && m % k == 0
    ensures (m - 1024) % k == 0
  {
    ModShift(m - 1024, j, k);
    assert m - 1024 + j * k == m;
  }

  /** The zeros and the quiet NaNs are integral. */
  lemma ZeroNaNIntegral(s: Word)
    requires ValidSign(s)
    ensures Integral(s) && Integral(s + NAN)
  {
    if s == SIGN_POS {
      assert s + NAN == 0x7E00;
      assert ExpField(0) == 0 && FracField(0) == 0;
      assert ExpField(0x7E00) == 31 && FracField(0x7E00) == 512;
    } else {
      assert s + NAN == 0xFE00;
      assert ExpField(0x8000) == 0 && FracField(0x8000) == 0;
      assert ExpField(0xFE00) == 31 && FracField(0xFE00) == 512;
    }
  }

  /** The ones of either sign are integral. */
  lemma OneIntegral(s: Word)
    requires ValidSign(s)
    ensures Integral(Pack(s, 15, 0))
  {
    var k := Pow2(10);
    assert 0 % k == 0;
    if s == SIGN_POS {
      assert Pack(s, 15, 0) == ONE_POS;
      assert ExpField(ONE_POS) == 15 && FracField(ONE_POS) == 0 && 25 - ExpField(ONE_POS) == 10;
    } else {
      assert Pack(s, 15, 0) == ONE_NEG;
      assert ExpField(ONE_NEG) == 15 && FracField(ONE_NEG) == 0 && 25 - ExpField(ONE_NEG) == 10;
    }
  }

  /** From exponent 0 to 9 the four results are integral. */
  lemma InRangeIntegral(w: Word)
    requires 15 <= ExpField(w) <= 24
    ensures Integral(Trunc(w)) && Integral(Ceil(w)) && Integral(Floor(w)) && Integral(Round(w))
  {
    var s, e := SignBit(w), ExpField(w);
    var x, k := FracField(w) + 1024, Pow2(25 - e);
    DecodeInRange(w);
    RoundedAboveDown(x, k);
    RoundedDownIsFloor(x, k);
    RoundedUpIsCeiling(x, k);
    RoundedToEvenIsNearest(x, k);
    ScaledIntegral(s, e, RoundedDown(x, k));
    ScaledIntegral(s, e, RoundedUp(x, k));
    ScaledIntegral(s, e, RoundedToEven(x, k));
    TruncInRange(w);
    CeilInRange(w);
    FloorInRange(w);
    RoundInRange(w);
  }

  /** Below 1 in magnitude the four results are integral. */
  lemma SmallIntegral(w: Word)
    requires ExpField(w) < 15 && (ExpField(w) != 0 || FracField(w) != 0)
    ensures Integral(Trunc(w)) && Integral(Ceil(w)) && Integral(Floor(w)) && Integral(Round(w))
  {
    SmallValues(w);
    ZeroNaNIntegral(SIGN_POS);
    ZeroNaNIntegral(SIGN_NEG);
    OneIntegral(SIGN_POS);
    OneIntegral(SIGN_NEG);
    OneIntegral(SignBit(w));
  }

  /** Every rounding function returns an integral word: an integer, an infinity or a quiet NaN. */
  lemma RoundingIsIntegral(w: Word)
    ensures Integral(Trunc(w)) && Integral(Ceil(w)) && Integral(Floor(w)) && Integral(Round(w))
  {
    var e := ExpField(w);
    if 15 <= e <= 24 {
      InRangeIntegral(w);
    } else if 25 <= e <= 30 {
      LargeUnchanged(w);
    } else if e < 15 && (e != 0 || FracField(w) != 0) {
      SmallIntegral(w);
    } else {
      SpecialsUnchanged(w);
      ZeroNaNIntegral(SignBit(w));
      PackFields(w);
    }
  }

  /** Rounding twice is rounding once, for each of the four functions. */
  lemma RoundingIdempotent(w: Word)
    ensures Trunc(Trunc(w)) == Trunc(w) && Ceil(Ceil(w)) == Ceil(w)
    ensures Floor(Floor(w)) == Floor(w) && Round(Round(w)) == Round(w)
  {
    RoundingIsIntegral(w);
    IntegralUnchanged(Trunc(w));
    IntegralUnchanged(Ceil(w));
    IntegralUnchanged(Floor(w));
    IntegralUnchanged(Round(w));
  }

  /**
   * `hf_round` sends every positive normal below one half (exponent field 1
   * to 13, 0.25 = 0x3400 among them) to 1.0: below 1 it compares the
   * mantissa with 1 << 14 without looking at the exponent, and the mantissa
   * of a normal always carries the implicit bit 1 << 15.
   */
  lemma RoundBelowHalf(w: Word)
    requires SignBit(w) == SIGN_POS && 0 < ExpField(w) < 14
    ensures Round(w) == ONE_POS
  {
    SmallRoundValue(w);
    SignedOne(w);
  }

  // ------------------------------------------------------------------ sign

  /** `hf_neg` of a packed word packs the opposite sign with the same fields. */
  lemma NegPack(s: Word, e: int, f: int)
    requires ValidSign(s) && 0 <= e < 32 && 0 <= f < 1024
    ensures Arith.Neg(Pack(s, e, f)) == Pack(Flip(s), e, f)
  {
    PackFields(Arith.Neg(Pack(s, e, f)));
  }

  lemma NegScaled(s: Word, e: int, m: int)
    requires ValidSign(s) && 15 <= e <= 24
    ensures Arith.Neg(Scaled(s, e, m)) == Scaled(Flip(s), e, m)
  {
    if 1024 <= m < 2048 {
      NegPack(s, e, m - 1024);
    } else {
      NegPack(s, e + 1, 0);
    }
  }

  /** A negative operand is rounded toward zero by `hf_ceil`, a positive one by `hf_floor`. */
  lemma TowardZero(w: Word)
    ensures SignBit(w) == SIGN_NEG ==> Ceil(w) == Trunc(w)
    ensures SignBit(w) == SIGN_POS ==> Floor(w) == Trunc(w)
  {
    TowardZeroRecord(Decompose(w));
  }

  lemma TowardZeroRecord(a: HalfFloat)
    requires ValidSign(a.sign) && a.mant >= 0
    ensures a.sign == SIGN_NEG ==> CeilResult(a) == TruncResult(a)
    ensures a.sign == SIGN_POS ==> FloorResult(a) == TruncResult(a)
  {
    if !Special(a) && 0 <= a.exp < MANT_BITS {
      var u := Unit(a.exp);
      RoundedAboveDown(a.mant, u);
      if a.mant % u == 0 {
        assert a.(mant := RoundedDown(a.mant, u)) == a;
      }
    }
  }

  /** The fields of `hf_neg(w)`, and the integer `x` and unit `k` it shares with `w`. */
  lemma NegFields(w: Word)
    ensures SignBit(Arith.Neg(w)) == Flip(SignBit(w))
    ensures ExpField(Arith.Neg(w)) == ExpField(w) && FracField(Arith.Neg(w)) == FracField(w)
  {
  }

  /** From exponent 0 to 9, `hf_ceil(-x) == -hf_floor(x)`. */
  lemma InRangeCeilFloor(w: Word)
    requires 15 <= ExpField(w) <= 24
    ensures Ceil(Arith.Neg(w)) == Arith.Neg(Floor(w))
  {
    var s, e := SignBit(w), ExpField(w);
    var x, k := FracField(w) + 1024, Pow2(25 - e);
    FloorInRange(w);
    CeilOfNegated(w);
    NegScaled(s, e, if s == SIGN_NEG then RoundedUp(x, k) else RoundedDown(x, k));
  }

  /** `CeilInRange` read on the negated word. */
  lemma CeilOfNegated(w: Word)
    requires 15 <= ExpField(w) <= 24
    ensures var s, x, k := SignBit(w), FracField(w) + 1024, Pow2(25 - ExpField(w));
      Ceil(Arith.Neg(w)) == Scaled(Flip(s), ExpField(w), if s == SIGN_NEG then RoundedUp(x, k) else RoundedDown(x, k))
  {
    var v, s, e := Arith.Neg(w), SignBit(w), ExpField(w);
    var x, k := FracField(w) + 1024, Pow2(25 - e);
    var m := if s == SIGN_NEG then RoundedUp(x, k) else RoundedDown(x, k);
    NegFields(w);
    assert SignBit(v) == Flip(s) && ExpField(v) == e && FracField(v) + 1024 == x;
    assert (SignBit(v) == SIGN_POS) == (s == SIGN_NEG);
    assert Ceil(v) == Scaled(Flip(s), e, m) by {
      CeilInRange(v);
    }
  }

  /** From exponent 0 to 9, `hf_trunc` is odd. */
  lemma InRangeTrunc(w: Word)
    requires 15 <= ExpField(w) <= 24
    ensures Trunc(Arith.Neg(w)) == Arith.Neg(Trunc(w))
  {
    TruncInRange(w);
    TruncOfNegated(w);
    NegScaled(SignBit(w), ExpField(w), RoundedDown(FracField(w) + 1024, Pow2(25 - ExpField(w))));
  }

  /** `TruncInRange` read on the negated word. */
  lemma TruncOfNegated(w: Word)
    requires 15 <= ExpField(w) <= 24
    ensures Trunc(Arith.Neg(w)) == Scaled(Flip(SignBit(w)), ExpField(w), RoundedDown(FracField(w) + 1024, Pow2(25 - ExpField(w))))
  {
    NegFields(w);
    TruncInRange(Arith.Neg(w));
  }

  /** From exponent 0 to 9, `hf_round` is odd. */
  lemma InRangeRound(w: Word)
    requires 15 <= ExpField(w) <= 24
    ensures Round(Arith.Neg(w)) == Arith.Neg(Round(w))
  {
    RoundInRange(w);
    RoundOfNegated(w);
    NegScaled(SignBit(w), ExpField(w), RoundedToEven(FracField(w) + 1024, Pow2(25 - ExpField(w))));
  }

  /** `RoundInRange` read on the negated word. */
  lemma RoundOfNegated(w: Word)
    requires 15 <= ExpField(w) <= 24
    ensures Round(Arith.Neg(w)) == Scaled(Flip(SignBit(w)), ExpField(w), RoundedToEven(FracField(w) + 1024, Pow2(25 - ExpField(w))))
  {
    NegFields(w);
    RoundInRange(Arith.Neg(w));
  }

  /** Below 1 in magnitude, `hf_ceil(-x) == -hf_floor(x)`. */
  lemma SmallCeilFloor(w: Word)
    requires ExpField(w) < 15 && (ExpField(w) != 0 || FracField(w) != 0)
    ensures Ceil(Arith.Neg(w)) == Arith.Neg(Floor(w))
  {
    var v := Arith.Neg(w);
    NegFields(w);
    if SignBit(w) == SIGN_POS {
      assert Floor(w) == ZERO_POS by { SmallValues(w); }
      assert Ceil(v) == ZERO_NEG by { SmallValues(v); }
    } else {
      assert Floor(w) == ONE_NEG by { SmallValues(w); }
      assert Ceil(v) == ONE_POS by { SmallValues(v); }
    }
  }

  /** Below 1 in magnitude, `hf_trunc` is odd. */
  lemma SmallTrunc(w: Word)
    requires ExpField(w) < 15 && (ExpField(w) != 0 || FracField(w) != 0)
    ensures Trunc(Arith.Neg(w)) == Arith.Neg(Trunc(w))
  {
    var v := Arith.Neg(w);
    NegFields(w);
    assert Trunc(w) == SignBit(w) by { SmallValues(w); }
    assert Trunc(v) == SignBit(v) by { SmallValues(v); }
  }

  /** Below 1 in magnitude, `hf_round` is odd except on the subnormals it sends to +0. */
  lemma SmallRound(w: Word)
    requires ExpField(w) < 15 && (ExpField(w) != 0 || FracField(w) != 0)
    ensures Round(Arith.Neg(w)) == if ExpField(w) == 0 && FracField(w) < 512 then ZERO_POS else Arith.Neg(Round(w))
  {
    var v := Arith.Neg(w);
    NegFields(w);
    if ExpField(w) == 0 && FracField(w) < 512 {
      assert Round(v) == ZERO_POS by { SmallValues(v); }
    } else if SignBit(w) == SIGN_POS {
      assert Round(w) == ONE_POS by { SmallValues(w); }
      assert Round(v) == ONE_NEG by { SmallValues(v); }
    } else {
      assert Round(w) == ONE_NEG by { SmallValues(w); }
      assert Round(v) == ONE_POS by { SmallValues(v); }
    }
  }

  /** Infinities, NaNs, zeros and exponents 10 to 15 are left alone by all four functions. */
  lemma UnchangedSymmetry(w: Word)
    requires ExpField(w) >= 25 || (ExpField(w) == 0 && FracField(w) == 0)
    ensures Ceil(Arith.Neg(w)) == Arith.Neg(Floor(w))
    ensures Trunc(Arith.Neg(w)) == Arith.Neg(Trunc(w))
    ensures Round(Arith.Neg(w)) == Arith.Neg(Round(w))
  {
    var v, e := Arith.Neg(w), ExpField(w);
    NegFields(w);
    if 25 <= e <= 30 {
      LargeUnchanged(w);
      LargeUnchanged(v);
    } else if e == 31 && FracField(w) != 0 {
      SpecialsUnchanged(w);
      SpecialsUnchanged(v);
      NegNaN(SignBit(w));
    } else if e == 31 {
      SpecialsUnchanged(w);
      SpecialsUnchanged(v);
    } else {
      ZeroFields(w);
      ZeroFields(v);
      SpecialsUnchanged(w);
      SpecialsUnchanged(v);
    }
  }

  /** `hf_neg` of the quiet NaN of one sign is the quiet NaN of the other. */
  lemma NegNaN(s: Word)
    requires ValidSign(s)
    ensures Arith.Neg(s + NAN) == Flip(s) + NAN
  {
    if s == SIGN_POS {
      assert Arith.Neg(0x7E00) == 0xFE00;
    } else {
      assert Arith.Neg(0xFE00) == 0x7E00;
    }
  }

  lemma SymmetryOneWay(w: Word)
    ensures Ceil(Arith.Neg(w)) == Arith.Neg(Floor(w))
    ensures Trunc(Arith.Neg(w)) == Arith.Neg(Trunc(w))
    ensures Round(Arith.Neg(w)) ==
      if ExpField(w) == 0 && 0 < FracField(w) < 512 then ZERO_POS else Arith.Neg(Round(w))
  {
    var e := ExpField(w);
    if 15 <= e <= 24 {
      InRangeCeilFloor(w);
      InRangeTrunc(w);
      InRangeRound(w);
    } else if e < 15 && (e != 0 || FracField(w) != 0) {
      SmallCeilFloor(w);
      SmallTrunc(w);
      SmallRound(w);
    } else {
      UnchangedSymmetry(w);
    }
  }

  /**
   * `hf_ceil(-x) == -hf_floor(x)` and `hf_floor(-x) == -hf_ceil(x)` for
   * every word, and `hf_trunc` is odd; `hf_round` is odd except on the
   * subnormals below 2^-15, which both signs send to +0.
   */
  lemma SignSymmetry(w: Word)
    ensures Ceil(Arith.Neg(w)) == Arith.Neg(Floor(w))
    ensures Floor(Arith.Neg(w)) == Arith.Neg(Ceil(w))
    ensures Trunc(Arith.Neg(w)) == Arith.Neg(Trunc(w))
    ensures Round(Arith.Neg(w)) ==
      if ExpField(w) == 0 && 0 < FracField(w) < 512 then ZERO_POS else Arith.Neg(Round(w))
  {
    var v := Arith.Neg(w);
    Arith.NegAbsLaws(w);
    SymmetryOneWay(w);
    SymmetryOneWay(v);
  }
}
