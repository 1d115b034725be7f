/**
 * `normalize_denormalized_mantissa` of halffloat/hf_lib.c, the one helper of
 * the earlier monolithic implementation that the modular operation files
 * also call.  `decompose_half` gives a subnormal the exponent -15 and no
 * implicit bit; this helper moves it to its true exponent -14 and shifts
 * the mantissa up until the implicit bit is set.
 */
module Denormal {
  import opened CInt
  import opened HalfCommon

  /**
   * The record `normalize_denormalized_mantissa` leaves: a subnormal comes
   * out normalised with the same value, mant * 2^exp == old mant * 2^-14;
   * every other record is unchanged.  A zero mantissa with exponent -15
   * would loop forever in the source and is excluded.
   */
  function DenormalNormalized(h: HalfFloat): (r: HalfFloat)
    requires h.exp == EXP_MIN ==> h.mant > 0
    ensures h.exp != EXP_MIN ==> r == h
    ensures h.exp == EXP_MIN ==>
      && r.sign == h.sign
      && MANT_NORM_MIN <= r.mant
      && (h.mant < MANT_OVERFLOW ==> r.mant < MANT_OVERFLOW)
      && r.exp <= -14
      && r.mant == h.mant * Pow2(-14 - r.exp)
  {
    if h.exp == EXP_MIN then ShiftUp(h.(exp := -14)) else h
  }

  /** `normalize_denormalized_mantissa` as the source runs it, with its shift loop. */
  method NormalizeDenormalizedMantissa(hf: HalfFloat) returns (result: HalfFloat)
    requires hf.exp == EXP_MIN ==> hf.mant > 0
    ensures result == DenormalNormalized(hf)
  {
    result := hf;
    if result.exp == EXP_MIN {
      result := result.(exp := result.exp + 1);
      while result.mant < MANT_NORM_MIN
        invariant result.mant > 0 && ShiftUp(result) == ShiftUp(hf.(exp := -14))
        decreases MANT_NORM_MIN - result.mant
      {
        result := result.(mant := result.mant * 2, exp := result.exp - 1);
      }
    }
  }

  /**
   * On a decoded subnormal word the helper shifts by the number of leading
   * zeros of the 10-bit fraction plus one: the result is normal, and its
   * exponent lies between -24 and -15 (the binary16 subnormal range).
   */
  lemma DenormalOfDecoded(w: Word)
    requires ExpField(w) == 0 && FracField(w) != 0
    ensures var r := DenormalNormalized(Decompose(w));
      MANT_NORM_MIN <= r.mant < MANT_OVERFLOW && r.mant % 32 == 0 &&
      -24 <= r.exp <= -15 && r.mant == FracField(w) * 32 * Pow2(-14 - r.exp)
  {
    var h := Decompose(w);
    var m := FracField(w) * 32;
    assert h.mant == m && h.exp == EXP_MIN;
    var r := DenormalNormalized(h);
    var k := -14 - r.exp;
    assert r.mant == m * Pow2(k) && MANT_NORM_MIN <= r.mant < MANT_OVERFLOW;
    ShiftCount(m, k);
    ShiftedMultiple(m, k);
  }

  /**
   * A mantissa from 32 to 2^15 - 1 that a shift by `k` brings into
   * [2^15, 2^16) was shifted at least once and at most ten times.
   */
  lemma ShiftCount(m: nat, k: nat)
    requires 32 <= m < MANT_NORM_MIN && MANT_NORM_MIN <= m * Pow2(k) < MANT_OVERFLOW
    ensures 1 <= k <= 10
  {
    ShiftBound(m, k);
    assert k == 0 ==> Pow2(k) == 1;
  }

  /** Shifting left by 11 or more multiplies by at least 2048. */
  lemma ShiftBound(m: nat, k: nat)
    ensures k >= 11 ==> m * Pow2(k) >= 2048 * m
  {
    Pow2Large(k);
    if k >= 11 {
      MulLe(2048, Pow2(k), m);
    }
  }

  lemma ShiftedMultiple(m: int, k: nat)
    requires m % 32 == 0
    ensures m * Pow2(k) % 32 == 0
  {
    var q := m / 32;
    assert m * Pow2(k) == 32 * (q * Pow2(k));
  }
}
