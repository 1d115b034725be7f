/**
 * The helpers shared by the operation modules, halffloat/hf_lib_common.c:
 * reduction of an angle modulo 2 pi, three-way comparison of unpacked
 * values, the exact-integer test used by `hf_pow`, linear interpolation in
 * a 16-bit table and the fixed-point exponential.
 */
module LibCommon {
  import opened CInt
  import opened HalfCommon
  import opened Precalc

  /** `(uint64_t)((2.0 * M_PI) * 2^32 + 0.5)` */
  const FIXED_TWO_PI: int := 26986075409
  /** `(uint64_t)((1.0 / (2.0 * M_PI)) * 2^32 + 0.5)` */
  const FIXED_TWO_PI_INV: int := 683565276

  /**
   * `fixed_two_pi >> fact`, never 0 for the shifts allowed; the two shifts
   * the library uses are spelled out as numbers.
   */
  function TwoPiShifted(fact: int): (r: int)
    requires 0 <= fact <= 34
    ensures r >= 1
  {
    if fact == 0 then 26986075409
    else if fact == 1 then 13493037704
    else
      Pow2Values();
      Pow2Monotone(fact, 34);
      MulLe(1, Pow2(fact), FIXED_TWO_PI + 1);
      DivBounds(FIXED_TWO_PI, Pow2(fact), 1, FIXED_TWO_PI + 1);
      FIXED_TWO_PI / Pow2(fact)
  }

  /** `fixed_two_pi_inv << fact`, with the two shifts the library uses spelled out as numbers. */
  function TwoPiInvShifted(fact: int): (r: int)
    requires 0 <= fact <= 34
    ensures r == FIXED_TWO_PI_INV * Pow2(fact)
  {
    if fact == 0 then 683565276
    else if fact == 1 then assert Pow2(1) == 2; 1367130552
    else FIXED_TWO_PI_INV * Pow2(fact)
  }

  /**
   * The reduced angle `(angle << 17) mod (fixed_two_pi >> fact)`:
   * `angle - (angle / two_pi) * two_pi` on unsigned values is the remainder.
   */
  function ReducedAngle(angle: Bits32, fact: int): (red: int)
    requires 0 <= fact <= 34
    ensures 0 <= red < TwoPiShifted(fact)
  {
    angle * 0x2_0000 % TwoPiShifted(fact)
  }

  /**
   * `reduce_radian_uword`: the angle, shifted into 64-bit fixed point, is
   * reduced modulo 2 pi and scaled to a 16-bit turn fraction by a 64-bit
   * multiplication that wraps (modulo 2^64), then a shift by 48.
   */
  function ReduceRadianUword(angle: Bits32, fact: int): (r: Word)
    requires 0 <= fact <= 34
  {
    var red := ReducedAngle(angle, fact);
    var res := red * TwoPiInvShifted(fact) % 0x1_0000_0000_0000_0000 / 0x1_0000_0000_0000;
    res % 0x1_0000
  }

  /**
   * `reduce_radian_uword` is periodic: two angles whose shifted values
   * `angle << 17` differ by a whole number `k` of periods
   * `fixed_two_pi >> fact` give the same turn fraction.
   */
  lemma ReduceRadianPeriodic(a: Bits32, b: Bits32, k: int, fact: int)
    requires 0 <= fact <= 34
    requires a * 0x2_0000 == b * 0x2_0000 + k * TwoPiShifted(fact)
    ensures ReduceRadianUword(a, fact) == ReduceRadianUword(b, fact)
  {
    var p := TwoPiShifted(fact);
    var x, y := a * 0x2_0000, b * 0x2_0000;
    var q := y / p;
    assert y == q * p + y % p;
    assert x == (q + k) * p + y % p;
    DivUnique(x, p, q + k);
    assert x % p == y % p;
  }

  /**
   * For the two scalings the library uses (0 for sine and cosine, 1 for
   * tangent) the 64-bit product of the reduced angle and the inverse of
   * 2 pi overflows only for the last few reduced values below 2 pi;
   * below that the result is the exact scaled product, and at the top it
   * wraps to 0, the turn fraction of 2 pi itself.
   */
  lemma ReduceRadianWrap(angle: Bits32, fact: int)
    requires fact == 0 || fact == 1
    ensures var red := ReducedAngle(angle, fact);
      var inv := TwoPiInvShifted(fact);
      var threshold := if fact == 0 then 26986075393 else 13493037697;
      ReduceRadianUword(angle, fact) ==
        if red < threshold then red * inv / 0x1_0000_0000_0000 else 0
  {
    var red := ReducedAngle(angle, fact);
    assert Pow2(1) == 2;
    Pow2Values();
    if fact == 0 {
      WrapProduct(red, 683565276, 26986075393, 26986075409);
    } else {
      WrapProduct(red, 1367130552, 13493037697, 13493037704);
    }
  }

  /**
   * A product `red * inv` below `top * inv` that passes 2^64 at `th` and
   * stays below 2^64 + 2^48: shifted down by 48 after the wrap it is the
   * exact 16-bit quotient below `th` and 0 from `th` on.
   */
  lemma WrapProduct(red: int, inv: int, th: int, top: int)
    requires 0 <= red < top && inv > 0 && th >= 1
    requires (th - 1) * inv < 0x1_0000_0000_0000_0000 <= th * inv
    requires (top - 1) * inv < 0x1_0000_0000_0000_0000 + 0x1_0000_0000_0000
    ensures var x := red * inv;
      x % 0x1_0000_0000_0000_0000 / 0x1_0000_0000_0000 % 0x1_0000 ==
        if red < th then x / 0x1_0000_0000_0000 else 0
  {
    var x := red * inv;
    MulLe(0, red, inv);
    if red < th {
      MulLe(red, th - 1, inv);
      DivUnique(x, 0x1_0000_0000_0000_0000, 0);
      DivBounds(x, 0x1_0000_0000_0000, 0, 0x1_0000);
    } else {
      MulLe(th, red, inv);
      MulLe(red, top - 1, inv);
      DivUnique(x, 0x1_0000_0000_0000_0000, 1);
      DivUnique(x - 0x1_0000_0000_0000_0000, 0x1_0000_0000_0000, 0);
    }
  }

  /** `(cond ^ sign) ? -1 : 1`: bit 0 and bit 15 do not overlap, so `^` adds. */
  function XorSign(cond: bool, sign: Word): int
    requires ValidSign(sign)
  {
    (if cond then 1 else 0) + sign
  }

  /**
   * `compare_half`: -2 exactly when an operand is a NaN, otherwise -1, 0
   * or 1, and 0 exactly for identical records.
   */
  function CompareHalf(a: HalfFloat, b: HalfFloat): (r: int)
    requires ValidSign(a.sign) && ValidSign(b.sign)
    ensures r == -2 <==> IsNaN(a) || IsNaN(b)
    ensures -2 <= r <= 1
    ensures r == 0 <==> !IsNaN(a) && a == b
  {
    if IsNaN(a) || IsNaN(b) then -2
    else if a.sign != b.sign then (if a.sign != 0 then -1 else 1)
    else if a.exp != b.exp then (if XorSign(a.exp < b.exp, a.sign) != 0 then -1 else 1)
    else if a.mant != b.mant then (if XorSign(a.mant < b.mant, a.sign) != 0 then -1 else 1)
    else 0
  }

  /**
   * Two non-negative numbers are ordered by exponent, then by mantissa,
   * and the comparison is antisymmetric.
   */
  lemma CompareNonNegative(a: HalfFloat, b: HalfFloat)
    requires a.sign == SIGN_POS && b.sign == SIGN_POS && !IsNaN(a) && !IsNaN(b)
    ensures CompareHalf(a, b) == -1 <==> a.exp < b.exp || (a.exp == b.exp && a.mant < b.mant)
    ensures CompareHalf(a, b) == 1 <==> a.exp > b.exp || (a.exp == b.exp && a.mant > b.mant)
    ensures CompareHalf(a, b) == -CompareHalf(b, a)
  {
  }

  /** Operands of different signs put the negative one first. */
  lemma CompareMixedSigns(a: HalfFloat, b: HalfFloat)
    requires a.sign == SIGN_NEG && b.sign == SIGN_POS && !IsNaN(a) && !IsNaN(b)
    ensures CompareHalf(a, b) == -1 && CompareHalf(b, a) == 1
  {
  }

  /**
   * Because the sign value 0x8000 is XORed with a boolean, any two
   * distinct negative operands compare as -1 in both orders.
   */
  lemma CompareNegativeBothOrders(a: HalfFloat, b: HalfFloat)
    requires a.sign == SIGN_NEG && b.sign == SIGN_NEG && !IsNaN(a) && !IsNaN(b) && a != b
    ensures CompareHalf(a, b) == -1 && CompareHalf(b, a) == -1
  {
  }

  /**
   * `check_int_half`: -1 for NaN, infinity, a non-zero subnormal or a
   * number that is not an integer; 0 for a zero and for every exponent
   * of 15 or more; otherwise the integer value `mant >> (15 - exp)`,
   * which then loses no bits.
   */
  function CheckIntHalf(h: HalfFloat): (r: int)
    requires h.mant >= 0
    ensures r >= -1
    ensures IsNaN(h) || IsInfinity(h) ==> r == -1
    ensures IsZero(h) ==> r == 0
    ensures h.exp == -EXP_BIAS && h.mant != 0 ==> r == -1
    ensures h.exp < 0 && !IsZero(h) ==> r == -1
    ensures EXP_BIAS <= h.exp < EXP_FULL ==> r == 0
    ensures 0 <= h.exp < EXP_BIAS ==>
      (r == -1 <==> h.mant % Pow2(15 - h.exp) != 0) &&
      (r != -1 ==> r * Pow2(15 - h.exp) == h.mant)
  {
    if !IsNaN(h) && !IsInfinity(h) then
      if h.mant == 0 && h.exp == -EXP_BIAS then 0
      else if !(h.exp == -EXP_BIAS && h.mant != 0) then
        var shift := 15 - h.exp;
        if shift <= 0 then 0
        else if shift <= 15 then
          var kept := h.mant / Pow2(shift);
          // `((mant >> shift) << shift) == mant`
          if kept * Pow2(shift) == h.mant then kept else -1
        else -1
      else -1
    else -1
  }

  /** The index `table_interpolate` reads: clamped to the last entry. */
  function Clamp(i: int, size: int): (r: int)
    requires size >= 1 && i >= 0
    ensures 0 <= r < size && r <= i
    ensures i < size ==> r == i
  {
    if i >= size then size - 1 else i
  }

  /** The value strictly between or equal to the two neighbouring entries. */
  predicate Between(x: int, a: int, b: int) {
    (a <= x <= b) || (b <= x <= a)
  }

  /**
   * `table_interpolate`: reads only the clamped indices `index >> fracBits`
   * and the one after it; with a zero fraction it returns the entry at the
   * first, and otherwise a value between the two entries.
   */
  function TableInterpolate(table: seq<Word>, size: int, index: Bits32, fracBits: int): (r: Word)
    requires 1 <= size <= |table| && 1 <= fracBits <= 30
    ensures var i0 := Clamp(Shr(index, fracBits), size);
      var i1 := Clamp(Shr(index, fracBits) + 1, size);
      Between(r, table[i0], table[i1])
    ensures index % Pow2(fracBits) == 0 ==> r == table[Clamp(Shr(index, fracBits), size)]
  {
    var idx0 := Clamp(Shr(index, fracBits), size);
    var idx1 := Clamp(Shr(index, fracBits) + 1, size);
    var frac := index % Pow2(fracBits);
    var val0 := table[idx0];
    var val1 := table[idx1];
    var step := ((val1 - val0) * frac + Pow2(fracBits - 1)) / Pow2(fracBits);
    InterpolationStep(val1 - val0, frac, fracBits);
    ToUint16(val0 + step)
  }

  /** Proof step for `Legacy.EntryAgrees`: unfolds `TableInterpolate` at given indices and fraction. */
  lemma TableInterpolateValue(table: seq<Word>, size: int, index: Bits32, fracBits: int, i0: int, i1: int, frac: int)
    requires 1 <= size <= |table| && 1 <= fracBits <= 30
    requires i0 == Clamp(Shr(index, fracBits), size) && i1 == Clamp(Shr(index, fracBits) + 1, size)
    requires frac == index % Pow2(fracBits)
    ensures TableInterpolate(table, size, index, fracBits)
      == ToUint16(table[i0] + ((table[i1] - table[i0]) * frac + Pow2(fracBits - 1)) / Pow2(fracBits))
  {
  }

  /**
   * The rounded step `(d * frac + half) >> bits` lies between 0 and the
   * difference `d`, and is 0 for a zero fraction.
   */
  lemma InterpolationStep(d: int, frac: int, bits: int)
    requires 1 <= bits && 0 <= frac < Pow2(bits)
    ensures var t := (d * frac + Pow2(bits - 1)) / Pow2(bits);
      Between(t, 0, d) && (frac == 0 ==> t == 0)
  {
    var p := Pow2(bits);
    var half := Pow2(bits - 1);
    assert p == 2 * half;
    if frac == 0 {
      assert d * frac == 0;
      DivBounds(d * frac + half, p, 0, 1);
    } else if d >= 0 {
      StepUp(d, frac, p, half);
    } else {
      StepDown(-d, frac, p, half);
      assert d * frac == -((-d) * frac);
    }
  }

  lemma StepUp(d: int, frac: int, p: int, half: int)
    requires d >= 0 && 0 <= frac < p && 0 <= half < p
    ensures 0 <= (d * frac + half) / p <= d
  {
    MulLe(0, d, frac);
    MulLe(frac, p - 1, d);
    assert (p - 1) * d == p * d - d;
    assert (d + 1) * p == d * p + p;
    DivBounds(d * frac + half, p, 0, d + 1);
  }

  lemma StepDown(e: int, frac: int, p: int, half: int)
    requires e > 0 && 0 <= frac < p && 0 <= half < p
    ensures -e <= (half - e * frac) / p <= 0
  {
    MulLe(0, e, frac);
    MulLe(frac, p - 1, e);
    assert (p - 1) * e == p * e - e;
    assert (-e) * p == -(p * e);
    DivBounds(half - e * frac, p, -e, 1);
  }

  /**
   * The argument reduction of `exp_fixed`: a truncating division by ln 2,
   * corrected by one when the remainder is negative, is the floor
   * reduction `x == k * LNI_2 + r` with `0 <= r < LNI_2`.
   */
  function ExpReduce(x: int): (kr: (int, int))
    ensures x == kr.0 * LNI_2 + kr.1 && 0 <= kr.1 < LNI_2
    ensures kr.0 == x / LNI_2
  {
    var k := CDiv(x, LNI_2);
    var r := x - k * LNI_2;
    var kr := if r < 0 then (k - 1, r + LNI_2) else (k, r);
    DivUnique(x, LNI_2, kr.0);
    kr
  }

  /** The `exp_table` index of `exp_fixed`, within the table. */
  function ExpIndex(r: int): (index: int)
    requires 0 <= r < LNI_2
    ensures 0 <= index < EXP_TABLE_SIZE
  {
    var index := r * EXP_TABLE_SIZE / LNI_2;
    if index >= EXP_TABLE_SIZE then EXP_TABLE_SIZE - 1 else index
  }

  /**
   * `exp_fixed`: writes `mant` and `exp` of `result`, keeping its sign.
   * The exponent is the floor of `x / ln 2` in Q15 and the mantissa lies
   * between the two `exp_table` entries around the reduced argument.
   */
  function ExpFixed(x: int, t: Tables, result: HalfFloat): (r: HalfFloat)
    requires ValidTables(t)
    ensures r.sign == result.sign
    ensures r.exp == x / LNI_2
    ensures var index := ExpIndex(ExpReduce(x).1);
      Between(r.mant, t.exp[index], t.exp[index + 1])
  {
    var (k, rFixed) := ExpReduce(x);
    var index := ExpIndex(rFixed);
    var mant := t.exp[index];
    var mant' :=
      if index < EXP_TABLE_SIZE - 1 then
        var frac := rFixed * EXP_TABLE_SIZE % LNI_2 * 256;
        ExpStep(t.exp[index + 1] - mant, frac);
        mant + CDiv((t.exp[index + 1] - mant) * frac, LNI_2) / 256
      else mant;
    result.(mant := mant', exp := k)
  }

  /** The step `((d * frac) / LNI_2) >> 8` with `frac < LNI_2 << 8` stays between 0 and `d`. */
  lemma ExpStep(d: int, frac: int)
    requires 0 <= frac < LNI_2 * 256
    ensures Between(CDiv(d * frac, LNI_2) / 256, 0, d)
  {
    if d >= 0 {
      MulLe(frac, LNI_2 * 256, d);
      DivBounds(d * frac, LNI_2, 0, d * 256 + 1);
      DivBounds(CDiv(d * frac, LNI_2), 256, 0, d + 1);
    } else {
      MulLe(frac, LNI_2 * 256, -d);
      DivBounds(-d * frac, LNI_2, 0, -d * 256 + 1);
      assert -d * frac == -(d * frac);
      DivBounds(CDiv(d * frac, LNI_2), 256, d, 1);
    }
  }

  /** e^0: with `exp_table[0] == 32768`, `exp_fixed(0)` gives mantissa 1.0 in Q15 and exponent 0. */
  lemma ExpFixedZero(t: Tables, result: HalfFloat)
    requires ValidTables(t)
    ensures ExpFixed(0, t, result) == result.(mant := 32768, exp := 0)
  {
    assert ExpReduce(0) == (0, 0);
    assert ExpIndex(0) == 0;
  }
}
