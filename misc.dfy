/**
 * Comparison, minimum and maximum of halffloat/hf_lib_misc.c, built on
 * `compare_half`; the remaining functions of that file are stubs.
 */
module Misc {
  import opened CInt
  import opened HalfCommon
  import opened LibCommon

  /** `hf_cmp`: `compare_half` of the two decoded words. */
  function Cmp(w1: Word, w2: Word): (r: int)
    ensures r == -2 <==> IsNaN(Decompose(w1)) || IsNaN(Decompose(w2))
    ensures r == -2 || r == -1 || r == 0 || r == 1
    ensures r == 0 <==> !IsNaN(Decompose(w1)) && w1 == w2
  {
    DecomposeInjective(w1, w2);
    CompareHalf(Decompose(w1), Decompose(w2))
  }

  /** Distinct words decode to distinct records. */
  lemma DecomposeInjective(w1: Word, w2: Word)
    ensures Decompose(w1) == Decompose(w2) ==> w1 == w2
  {
    if Decompose(w1) == Decompose(w2) {
      assert ExpField(w1) == ExpField(w2);
      assert FracField(w1) == FracField(w2) by {
        assert Decompose(w1).mant % MANT_NORM_MIN == Decompose(w2).mant % MANT_NORM_MIN;
      }
      PackFields(w1);
      PackFields(w2);
    }
  }

  /**
   * `hf_min`: a NaN pair gives `HF_NAN`, a single NaN the other operand;
   * otherwise the second operand when `compare_half` says the first is
   * greater, and the first one else. Two zeros found equal are rebuilt
   * as -0 when either is negative; they are then the same word, so the
   * result is still one of the operands.
   */
  function Min(w1: Word, w2: Word): (r: Word)
    ensures IsNaN(Decompose(w1)) && IsNaN(Decompose(w2)) ==> r == NAN
    ensures !(IsNaN(Decompose(w1)) && IsNaN(Decompose(w2))) ==> r == w1 || r == w2
  {
    var a, b := Decompose(w1), Decompose(w2);
    if IsNaN(a) && IsNaN(b) then NAN
    else if IsNaN(a) then w2
    else if !IsNaN(b) then
      var cmp := CompareHalf(a, b);
      if cmp == 0 && IsZero(a) && IsZero(b) then
        DecomposeZero(w1);
        if a.sign != SIGN_POS || b.sign != SIGN_POS then ZERO_NEG else ZERO_POS
      else if cmp > 0 then w2
      else w1
    else w1
  }

  /**
   * `hf_max`: as `hf_min` with the comparison reversed; two equal zeros
   * are rebuilt as -0 only when both are negative.
   */
  function Max(w1: Word, w2: Word): (r: Word)
    ensures IsNaN(Decompose(w1)) && IsNaN(Decompose(w2)) ==> r == NAN
    ensures !(IsNaN(Decompose(w1)) && IsNaN(Decompose(w2))) ==> r == w1 || r == w2
  {
    var a, b := Decompose(w1), Decompose(w2);
    if IsNaN(a) && IsNaN(b) then NAN
    else if IsNaN(a) then w2
    else if !IsNaN(b) then
      var cmp := CompareHalf(a, b);
      if cmp == 0 && IsZero(a) && IsZero(b) then
        DecomposeZero(w1);
        if a.sign != SIGN_POS && b.sign != SIGN_POS then ZERO_NEG else ZERO_POS
      else if cmp < 0 then w2
      else w1
    else w1
  }

  // ------------------------------------------------------------ comparison

  /** On non-negative words the fields are ordered as the words themselves. */
  lemma FieldOrder(w1: Word, w2: Word)
    requires SignBit(w1) == SIGN_POS && SignBit(w2) == SIGN_POS
    ensures w1 < w2 <==> ExpField(w1) < ExpField(w2) || (ExpField(w1) == ExpField(w2) && FracField(w1) < FracField(w2))
  {
    PackFields(w1);
    PackFields(w2);
  }

  /** Decoding keeps that order: exponent first, then mantissa. */
  lemma DecodedOrder(w1: Word, w2: Word)
    ensures var a, b := Decompose(w1), Decompose(w2);
      (a.exp < b.exp <==> ExpField(w1) < ExpField(w2)) &&
      (ExpField(w1) == ExpField(w2) ==> (a.mant < b.mant <==> FracField(w1) < FracField(w2)))
  {
  }

  /**
   * For two non-negative numbers that are not NaN, `hf_cmp` is the order
   * of the words: -1, 0 or 1 as the first word is below, equal to or
   * above the second, whatever their classes (subnormal, normal,
   * infinity).
   */
  lemma CmpNonNegative(w1: Word, w2: Word)
    requires SignBit(w1) == SIGN_POS && SignBit(w2) == SIGN_POS
    requires !IsNaN(Decompose(w1)) && !IsNaN(Decompose(w2))
    ensures Cmp(w1, w2) == (if w1 < w2 then -1 else if w1 == w2 then 0 else 1)
  {
    FieldOrder(w1, w2);
    DecodedOrder(w1, w2);
    CompareNonNegative(Decompose(w1), Decompose(w2));
  }

  /** On non-negative numbers `hf_cmp` is antisymmetric. */
  lemma CmpAntisymmetric(w1: Word, w2: Word)
    requires SignBit(w1) == SIGN_POS && SignBit(w2) == SIGN_POS
    requires !IsNaN(Decompose(w1)) && !IsNaN(Decompose(w2))
    ensures Cmp(w1, w2) == -Cmp(w2, w1)
  {
    CmpNonNegative(w1, w2);
    CmpNonNegative(w2, w1);
  }

  /** A negative number compares below a non-negative one, in either order, zeros included. */
  lemma CmpMixedSigns(w1: Word, w2: Word)
    requires SignBit(w1) == SIGN_NEG && SignBit(w2) == SIGN_POS
    requires !IsNaN(Decompose(w1)) && !IsNaN(Decompose(w2))
    ensures Cmp(w1, w2) == -1 && Cmp(w2, w1) == 1
  {
    CompareMixedSigns(Decompose(w1), Decompose(w2));
  }

  /**
   * The two zeros are not equal for `hf_cmp`: +0 compares above -0,
   * although the function's documentation promises 0 for them.
   */
  lemma CmpSignedZeros(pz: Word, nz: Word)
    requires pz == ZERO_POS && nz == ZERO_NEG
    ensures Cmp(pz, nz) == 1 && Cmp(nz, pz) == -1
  {
    CmpMixedSigns(nz, pz);
  }

  /**
   * Two distinct negative numbers compare as -1 in both orders, because
   * `compare_half` XORs the sign value 0x8000 with a boolean.
   */
  lemma CmpNegatives(w1: Word, w2: Word)
    requires SignBit(w1) == SIGN_NEG && SignBit(w2) == SIGN_NEG && w1 != w2
    requires !IsNaN(Decompose(w1)) && !IsNaN(Decompose(w2))
    ensures Cmp(w1, w2) == -1 && Cmp(w2, w1) == -1
  {
    DecomposeInjective(w1, w2);
    CompareNegativeBothOrders(Decompose(w1), Decompose(w2));
  }

  // ---------------------------------------------------------- min and max

  /** A single NaN operand is ignored: the other operand comes back unchanged (minNum, maxNum). */
  lemma MinMaxOneNaN(w1: Word, w2: Word)
    requires IsNaN(Decompose(w1)) != IsNaN(Decompose(w2))
    ensures var other := if IsNaN(Decompose(w1)) then w2 else w1;
      Min(w1, w2) == other && Max(w1, w2) == other
  {
  }

  /** On non-negative numbers `hf_min` and `hf_max` are the smaller and the larger word. */
  lemma MinMaxNonNegative(w1: Word, w2: Word)
    requires SignBit(w1) == SIGN_POS && SignBit(w2) == SIGN_POS
    requires !IsNaN(Decompose(w1)) && !IsNaN(Decompose(w2))
    ensures Min(w1, w2) == (if w1 <= w2 then w1 else w2)
    ensures Max(w1, w2) == (if w1 <= w2 then w2 else w1)
  {
    CmpNonNegative(w1, w2);
  }

  /** A negative number is below a non-negative one for `hf_min` and `hf_max`, in either order. */
  lemma MinMaxMixedSigns(w1: Word, w2: Word)
    requires SignBit(w1) == SIGN_NEG && SignBit(w2) == SIGN_POS
    requires !IsNaN(Decompose(w1)) && !IsNaN(Decompose(w2))
    ensures Min(w1, w2) == w1 && Min(w2, w1) == w1
    ensures Max(w1, w2) == w2 && Max(w2, w1) == w2
  {
    CmpMixedSigns(w1, w2);
  }

  /** min(+0, -0) is -0 and max(+0, -0) is +0, in either order. */
  lemma MinMaxSignedZeros(pz: Word, nz: Word)
    requires pz == ZERO_POS && nz == ZERO_NEG
    ensures Min(pz, nz) == ZERO_NEG && Min(nz, pz) == ZERO_NEG
    ensures Max(pz, nz) == ZERO_POS && Max(nz, pz) == ZERO_POS
  {
    MinMaxMixedSigns(nz, pz);
  }

  /** max(+inf, v) is +inf and min(+inf, v) is v, in either order, for every `v` that is not a NaN. */
  lemma MinMaxInfinity(inf: Word, v: Word)
    requires inf == INFINITY_POS && !IsNaN(Decompose(v))
    ensures Max(inf, v) == INFINITY_POS && Max(v, inf) == INFINITY_POS
    ensures Min(inf, v) == v && Min(v, inf) == v
  {
    assert Decompose(inf).sign == SIGN_POS && !IsNaN(Decompose(inf));
    if SignBit(v) == SIGN_POS {
      MinMaxNonNegative(inf, v);
    } else {
      MinMaxMixedSigns(v, inf);
    }
  }

  /**
   * On two distinct negative numbers `hf_min` returns the first operand
   * and `hf_max` the second, whatever their values: the comparison says
   * -1 in both orders.
   */
  lemma MinMaxNegatives(w1: Word, w2: Word)
    requires SignBit(w1) == SIGN_NEG && SignBit(w2) == SIGN_NEG && w1 != w2
    requires !IsNaN(Decompose(w1)) && !IsNaN(Decompose(w2))
    ensures Min(w1, w2) == w1 && Max(w1, w2) == w2
  {
    CmpNegatives(w1, w2);
  }

  // ------------------------------------------------------------------ stubs

  /** `hf_modf`, not implemented: `HF_NAN`, with `HF_NAN` stored as the integer part. */
  function Modf(w: Word): (Word, Word) { (NAN, NAN) }

  /** `hf_frexp`, not implemented: `HF_NAN`, with exponent 0 stored. */
  function Frexp(w: Word): (Word, int) { (NAN, 0) }

  /** `hf_ldexp`, not implemented. */
  function Ldexp(w: Word, e: int): Word { NAN }

  /** `hf_scalbn`, not implemented. */
  function Scalbn(w: Word, n: int): Word { NAN }

  /** `hf_logb`, not implemented. */
  function Logb(w: Word): Word { NAN }

  /** `hf_ilogb`, not implemented: always -1. */
  function Ilogb(w: Word): int { -1 }

  /** `hf_copysign`, not implemented. */
  function Copysign(mag: Word, sign: Word): Word { NAN }

  /** `hf_nextafter`, not implemented. */
  function Nextafter(from: Word, to: Word): Word { NAN }

  /** `hf_nexttoward`, not implemented; the `long double` target is left out. */
  function Nexttoward(from: Word): Word { NAN }
}
