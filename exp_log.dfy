/**
 * The natural logarithm, exponential and power of halffloat/hf_lib_exp.c.
 *
 * `hf_ln` adds the exponent times ln 2 to a table entry for the fraction,
 * `hf_exp` turns its operand into a Q15 fixed-point number and hands it to
 * `exp_fixed`, and `hf_pow` settles the special operands of C99 Annex
 * F.9.4.4 before computing exp(y * ln |x|) with the same two tables.  The
 * tables are an input (`Precalc.Tables`).  Each operation builds the
 * record it passes to `compose_half`, as the source does with its local
 * `result`.
 */
module ExpLog {
  import opened CInt
  import opened HalfCommon
  import opened Precalc
  import opened LibCommon
  import opened Denormal
  import opened Arith

  /** The record (+, 0, 1 << 15) that stands for 1.0. */
  function One(): (h: HalfFloat)
  {
    HalfFloat(SIGN_POS, 0, MANT_NORM_MIN)
  }

  /** A normalised mantissa with an exponent of 0 packs to +1.0 or -1.0. */
  lemma ComposedUnit(h: HalfFloat)
    requires ValidSign(h.sign) && h.exp == 0 && h.mant == MANT_NORM_MIN
    ensures Composed(h) == h.sign + ONE_POS
  {
    UnitFields(h.sign);
    ComposedNormal(h);
  }

  lemma UnitFields(s: Word)
    requires ValidSign(s)
    ensures MANT_NORM_MIN / 32 % 1024 == 0 && Pack(s, EXP_BIAS, 0) == s + ONE_POS
  {
  }

  /** A normalised mantissa without guard bits is the implicit bit plus 32 times its fraction bits. */
  lemma FractionBits(m: int)
    requires MANT_NORM_MIN <= m < MANT_OVERFLOW && m % 32 == 0
    ensures m / 32 % 1024 * 32 + MANT_NORM_MIN == m
  {
    var q := m / 32;
    assert m == q * 32;
    assert 1024 <= q < 2048;
    DivUnique(q, 1024, 1);
  }

  /**
   * `x_fixed << exp` or `x_fixed >> -exp`: the fixed-point value of a
   * mantissa scaled by 2^exp, rounded toward minus infinity when bits are
   * shifted out (an arithmetic right shift).
   */
  function Scaled(m: int, exp: int): int
  {
    if exp >= 0 then m * Pow2(exp) else m / Pow2(-exp)
  }

  /** A left shift multiplies by 2^exp; a right shift leaves the floor of the quotient. */
  lemma ScaledValue(m: int, exp: int)
    ensures var x := Scaled(m, exp);
      && (exp >= 0 ==> x == m * Pow2(exp))
      && (exp < 0 ==> x * Pow2(-exp) <= m < x * Pow2(-exp) + Pow2(-exp))
  {
    if exp < 0 {
      var p := Pow2(-exp);
      assert m == m / p * p + m % p;
    }
  }

  // ------------------------------------------------------------------ hf_ln

  /** `hf_ln` */
  function Ln(w: Word, t: Tables): Word
    requires ValidTables(t)
  {
    Composed(LnResult(Decompose(w), t))
  }

  /**
   * The record `hf_ln` hands to `compose_half`: -infinity for a zero, a NaN
   * with the operand's sign for a NaN or a negative number, +infinity for
   * +infinity, and otherwise the rounded table sum.
   */
  function LnResult(a: HalfFloat, t: Tables): (r: HalfFloat)
    requires Operand(a) && ValidTables(t)
    ensures ValidSign(r.sign) && r.mant >= 0
  {
    if IsZero(a) then HalfFloat(ZERO_NEG, EXP_FULL, 0)
    else if IsNaN(a) || a.sign != SIGN_POS then HalfFloat(a.sign, EXP_FULL, 1)
    else if IsInfinity(a) then a
    else LnFinite(a, t)
  }

  /** `(mant >> 5) & 0x3FF`: the ten fraction bits of a mantissa. */
  function LnIndex(n: HalfFloat): (i: int)
    requires n.mant >= 0
    ensures 0 <= i < LN_TABLE_SIZE
  {
    n.mant / 32 % 1024
  }

  /**
   * ln x in Q15 as `hf_ln` computes it: the exponent of the normalised
   * operand times ln 2, plus the table entry for its fraction.
   */
  function LnFixed(a: HalfFloat, t: Tables): int
    requires a.mant > 0 && ValidTables(t)
  {
    var n := DenormalNormalized(a);
    n.exp * LNI_2 + t.ln[LnIndex(n)]
  }

  /** The arithmetic path of `hf_ln`: sign and magnitude of the Q15 sum, with exponent 0, rounded. */
  function LnFinite(a: HalfFloat, t: Tables): (r: HalfFloat)
    requires a.mant > 0 && ValidTables(t)
    ensures r.sign == SIGN_NEG <==> LnFixed(a, t) < 0
    ensures ValidSign(r.sign) && r.mant >= 0
  {
    var m := LnFixed(a, t);
    NormalizedRounded(if m < 0 then HalfFloat(ZERO_NEG, 0, -m) else HalfFloat(ZERO_POS, 0, m))
  }

  /**
   * `hf_ln` special cases: ln(+-0) is -infinity, a NaN or a negative
   * number gives a NaN with the operand's sign, and ln(+infinity) is
   * +infinity.
   */
  lemma LnSpecial(w: Word, t: Tables)
    requires ValidTables(t)
    ensures var a := Decompose(w);
      && (IsZero(a) ==> Ln(w, t) == INFINITY_NEG)
      && ((IsNaN(a) || (a.sign == SIGN_NEG && !IsZero(a))) ==> Ln(w, t) == QuietNaN(a.sign))
      && (IsInfinity(a) && a.sign == SIGN_POS ==> Ln(w, t) == INFINITY_POS)
  {
  }

  /**
   * The table index of `hf_ln` on a positive finite non-zero operand is the
   * fraction of the normalised mantissa: a normal number reads its own
   * fraction field, a subnormal the fraction left after its leading zeros
   * are shifted out.
   */
  lemma LnReadsFraction(w: Word)
    requires ExpField(w) != 31 && !(ExpField(w) == 0 && FracField(w) == 0)
    ensures var n := DenormalNormalized(Decompose(w));
      LnIndex(n) * 32 + MANT_NORM_MIN == n.mant
    ensures ExpField(w) != 0 ==> LnIndex(DenormalNormalized(Decompose(w))) == FracField(w)
  {
    var n := DenormalNormalized(Decompose(w));
    if ExpField(w) == 0 {
      DenormalOfDecoded(w);
    } else {
      assert n.mant == (FracField(w) + 1024) * 32;
    }
    FractionBits(n.mant);
  }

  /** ln 1 is +0, given `ln_table[0] == 0`. */
  lemma LnOfOne(w: Word, t: Tables)
    requires w == ONE_POS && ValidTables(t)
    ensures Ln(w, t) == ZERO_POS
  {
    OneFields(w);
    LnOfOneRecord(Decompose(w), t);
  }

  lemma LnOfOneRecord(a: HalfFloat, t: Tables)
    requires a.sign == SIGN_POS && a.exp == 0 && a.mant == MANT_NORM_MIN && ValidTables(t)
    ensures Composed(LnResult(a, t)) == ZERO_POS
  {
    assert !IsNaN(a) && !IsInfinity(a) && !IsZero(a);
    assert DenormalNormalized(a) == a;
    assert LnIndex(a) == 0;
    assert LnFixed(a, t) == 0;
    ComposeZeroMantissa(LnFinite(a, t));
  }

  /** The logarithm of a number of at least 1.0 is never negative. */
  lemma LnAtLeastOne(w: Word, t: Tables)
    requires ValidTables(t)
    requires SignBit(w) == SIGN_POS && EXP_BIAS <= ExpField(w) <= 30
    ensures SignBit(Ln(w, t)) == SIGN_POS
  {
    var a := Decompose(w);
    assert !IsNaN(a) && !IsInfinity(a) && !IsZero(a);
    assert DenormalNormalized(a) == a;
  }

  // ----------------------------------------------------------------- hf_exp

  /** `THRESHOLD_MANT = (3 * HF_MANT_NORM_MIN) >> 1`: 1.5 in Q15. */
  const EXP_THRESHOLD_MANT: int := 0xC000

  /** `hf_exp` */
  function Exp(w: Word, t: Tables): Word
    requires ValidTables(t)
  {
    Composed(ExpResult(Decompose(w), t))
  }

  /** `|x| >= 12`: an exponent above 3, or 3 with a mantissa of at least 1.5. */
  predicate ExpOverflows(a: HalfFloat) {
    a.exp > 3 || (a.exp == 3 && a.mant >= EXP_THRESHOLD_MANT)
  }

  /**
   * The record `hf_exp` hands to `compose_half`: a NaN keeps its sign,
   * +infinity and large positive operands give +infinity, -infinity and
   * large negative operands the zero record, and every other operand goes
   * through `exp_fixed`.  Only a NaN result carries a sign.
   */
  function ExpResult(a: HalfFloat, t: Tables): (r: HalfFloat)
    requires Operand(a) && ValidTables(t)
    ensures ValidSign(r.sign) && r.mant >= 0
    ensures !IsNaN(a) ==> r.sign == SIGN_POS
  {
    if IsNaN(a) then HalfFloat(a.sign, EXP_FULL, 1)
    else if IsInfinity(a) || ExpOverflows(a) then
      HalfFloat(ZERO_POS, if a.sign == SIGN_POS then EXP_FULL else 0, 0)
    else
      var x := Scaled(if a.sign != SIGN_POS then -a.mant else a.mant, a.exp);
      NormalizedRounded(ExpFixed(x, t, HalfFloat(ZERO_POS, 0, 0)))
  }

  /**
   * `hf_exp` special cases: a NaN keeps its sign, exp(+infinity) is
   * +infinity and exp(-infinity) is +0.
   */
  lemma ExpSpecial(w: Word, t: Tables)
    requires ValidTables(t)
    ensures var a := Decompose(w);
      && (IsNaN(a) ==> Exp(w, t) == QuietNaN(a.sign))
      && (IsInfinity(a) ==> Exp(w, t) == if a.sign == SIGN_POS then INFINITY_POS else ZERO_POS)
  {
    var a := Decompose(w);
    if IsInfinity(a) && a.sign != SIGN_POS {
      ComposeZeroMantissa(ExpResult(a, t));
    }
  }

  /**
   * Saturation: for a finite operand of magnitude 12 or more `hf_exp` is
   * +infinity when it is positive and +0 when it is negative.
   */
  lemma ExpSaturates(w: Word, t: Tables)
    requires ValidTables(t)
    requires ExpField(w) != 31 && ExpOverflows(Decompose(w))
    ensures Exp(w, t) == if SignBit(w) == SIGN_POS then INFINITY_POS else ZERO_POS
  {
    var a := Decompose(w);
    if a.sign != SIGN_POS {
      ComposeZeroMantissa(ExpResult(a, t));
    }
  }

  /** The result of `hf_exp` is never negative unless it is a NaN. */
  lemma ExpNotNegative(w: Word, t: Tables)
    requires ValidTables(t) && !IsNaN(Decompose(w))
    ensures SignBit(Exp(w, t)) == SIGN_POS
  {
  }

  /** e^0 is 1.0 for both zeros, given `exp_table[0] == 32768`. */
  lemma ExpOfZero(w: Word, t: Tables)
    requires ValidTables(t) && (w == ZERO_POS || w == ZERO_NEG)
    ensures Exp(w, t) == ONE_POS
  {
    DecomposeZero(w);
    ExpOfZeroRecord(Decompose(w), t);
  }

  lemma ExpOfZeroRecord(a: HalfFloat, t: Tables)
    requires ValidTables(t) && ValidSign(a.sign) && a.exp == -EXP_BIAS && a.mant == 0
    ensures Composed(ExpResult(a, t)) == ONE_POS
  {
    var z := HalfFloat(ZERO_POS, 0, 0);
    ZeroArgument(a, t);
    ExpFixedOne(t, z);
  }

  /** A zero operand reaches `exp_fixed` as the fixed-point value 0. */
  lemma ZeroArgument(a: HalfFloat, t: Tables)
    requires ValidTables(t) && ValidSign(a.sign) && a.exp == -EXP_BIAS && a.mant == 0
    ensures ExpResult(a, t) == NormalizedRounded(ExpFixed(0, t, HalfFloat(ZERO_POS, 0, 0)))
  {
    assert !IsNaN(a) && !IsInfinity(a) && !ExpOverflows(a);
    assert Scaled(0, a.exp) == 0;
  }

  lemma ExpFixedOne(t: Tables, z: HalfFloat)
    requires ValidTables(t) && z.sign == SIGN_POS
    ensures Composed(NormalizedRounded(ExpFixed(0, t, z))) == ONE_POS
  {
    ExpFixedZero(t, z);
    var r := ExpFixed(0, t, z);
    assert r.sign == SIGN_POS && r.exp == 0 && r.mant == MANT_NORM_MIN;
    NormalizedExact(r);
    ComposedUnit(r);
  }

  // ----------------------------------------------------------------- hf_pow

  /** `(sign && k >= 0 && (k & 1)) ? HF_ZERO_NEG : HF_ZERO_POS`: negative for a negative base and an odd integer exponent. */
  function ParitySign(s: Word, k: int): (r: Word)
    ensures ValidSign(r)
  {
    if s != SIGN_POS && k >= 0 && k % 2 == 1 then SIGN_NEG else SIGN_POS
  }

  /** `hf_pow` */
  function Pow(w1: Word, w2: Word, t: Tables): Word
    requires ValidTables(t)
  {
    Composed(PowResult(w1, w2, t))
  }

  /**
   * The record `hf_pow` hands to `compose_half`, case by case in the order
   * of the source: a zero exponent, a base of magnitude one, a NaN, a zero
   * base, an infinite base, an infinite exponent, the exponent 1, a
   * negative base with a non-integer exponent, and the general path.  The
   * result starts as 1.0 and each case overwrites part of it.
   */
  function PowResult(w1: Word, w2: Word, t: Tables): (r: HalfFloat)
    requires ValidTables(t)
    ensures ValidSign(r.sign) && r.mant >= 0
  {
    PowCases(Decompose(w1), Decompose(w2), w1 % 0x8000, CheckIntHalf(Decompose(w2)), t)
  }

  /**
   * The case analysis of `hf_pow` on the decoded operands, the magnitude
   * bits `absBase` of the base word and `k`, the `check_int_half` of the
   * exponent.
   */
  function PowCases(base: HalfFloat, e: HalfFloat, absBase: int, k: int, t: Tables): (r: HalfFloat)
    requires Operand(base) && Operand(e) && ValidTables(t)
    ensures ValidSign(r.sign) && r.mant >= 0
  {
    var nan := One().(exp := EXP_FULL, mant := 1);
    if IsZero(e) then One()
    else if absBase == ONE_POS then
      if IsInfinity(e) || IsNaN(e) || base.sign == SIGN_POS then One()
      else if k < 0 then nan
      else One().(sign := if k % 2 == 1 then ZERO_NEG else ZERO_POS)
    else if IsNaN(base) || IsNaN(e) then nan
    else if IsZero(base) then
      HalfFloat(ParitySign(base.sign, k), if e.sign != SIGN_POS then EXP_FULL else -EXP_BIAS, 0)
    else if IsInfinity(base) then
      HalfFloat(ParitySign(base.sign, k), if e.sign != SIGN_POS then -EXP_BIAS else EXP_FULL, 0)
    else if IsInfinity(e) then
      // |x| differs from 1 here, so one of the source's two comparisons holds.
      One().(exp := if absBase > ONE_POS then (if e.sign != SIGN_POS then -EXP_BIAS else EXP_FULL)
                    else (if e.sign != SIGN_POS then EXP_FULL else -EXP_BIAS),
             mant := 0)
    else if e.exp == 0 && e.mant == MANT_NORM_MIN && e.sign == SIGN_POS then base
    else if base.sign != SIGN_POS && k < 0 then nan
    else PowFinite(base, e, k, t)
  }

  /**
   * ln |x| in Q15 as `hf_pow` computes it: the `hf_ln` sum plus an
   * interpolation toward the next table entry weighted by the five guard
   * bits of the normalised mantissa.
   */
  function PowLnFixed(base: HalfFloat, t: Tables): int
    requires base.mant > 0 && ValidTables(t)
  {
    var n := DenormalNormalized(base);
    var idx := LnIndex(n);
    var ln := n.exp * LNI_2 + t.ln[idx];
    if idx < LN_TABLE_SIZE - 1 then
      ln + (t.ln[idx + 1] - t.ln[idx]) * (n.mant % 32) / 32
    else
      ln
  }

  /**
   * The general path of `hf_pow`: the exponent as a fixed-point number
   * times ln |x|, shifted back by 15 bits in 64-bit arithmetic and cast to
   * 32 bits, negated for a negative exponent and handed to `exp_fixed`
   * with the sign the parity rule chose.
   */
  function PowFinite(base: HalfFloat, e: HalfFloat, k: int, t: Tables): (r: HalfFloat)
    requires base.mant > 0 && e.mant >= 0 && ValidTables(t)
    ensures r.sign == ParitySign(base.sign, k)
  {
    var lnBase := PowLnFixed(base, t);
    var y := Scaled(e.mant, e.exp);
    var product := ToInt32(y * lnBase / 0x8000);
    var expLn := if e.sign != SIGN_POS then -product else product;
    NormalizedRounded(ExpFixed(expLn, t, One().(sign := ParitySign(base.sign, k))))
  }

  /** `check_int_half` of the exponent 1.0 is 1. */
  lemma OneIsOdd(e: HalfFloat)
    requires e.mant >= 0
    ensures e.sign == SIGN_POS && e.exp == 0 && e.mant == MANT_NORM_MIN ==> CheckIntHalf(e) == 1
  {
    assert Pow2(15) == MANT_NORM_MIN;
  }

  /** The two words of magnitude one decode to the mantissa 1 << 15 with exponent 0. */
  lemma UnitWord(w: Word)
    requires w % 0x8000 == ONE_POS
    ensures Decompose(w).exp == 0 && Decompose(w).mant == MANT_NORM_MIN
    ensures w == ONE_POS <==> Decompose(w).sign == SIGN_POS
  {
    assert w == ONE_POS || w == SIGN_NEG + ONE_POS;
  }

  /** The two infinities have the magnitude bits 0x7C00. */
  lemma InfinityWord(w: Word)
    requires IsInfinity(Decompose(w))
    ensures w % 0x8000 == INFINITY_POS
    ensures w == INFINITY_POS <==> Decompose(w).sign == SIGN_POS
  {
    DecomposeClasses(w);
    PackFields(w);
  }

  /** x^+-0 is 1.0 for every x, a NaN included. */
  lemma PowZeroExponent(w1: Word, w2: Word, t: Tables)
    requires ValidTables(t) && (w2 == ZERO_POS || w2 == ZERO_NEG)
    ensures Pow(w1, w2, t) == ONE_POS
  {
    DecomposeZero(w2);
    ComposedUnit(One());
  }

  /**
   * A base of magnitude one: 1^y is 1.0 for every y; (-1)^y is 1.0 for an
   * infinite or NaN y, +-1.0 by parity for an integer y and 0x7E00 for any
   * other y.
   */
  lemma PowUnitBase(w1: Word, w2: Word, t: Tables)
    requires ValidTables(t) && w1 % 0x8000 == ONE_POS
    ensures var e, k := Decompose(w2), CheckIntHalf(Decompose(w2));
      && (w1 == ONE_POS ==> Pow(w1, w2, t) == ONE_POS)
      && (IsInfinity(e) || IsNaN(e) ==> Pow(w1, w2, t) == ONE_POS)
      && (w1 != ONE_POS && !IsInfinity(e) && !IsNaN(e) ==>
            Pow(w1, w2, t) == if k < 0 then NAN else if k % 2 == 1 then SIGN_NEG + ONE_POS else ONE_POS)
  {
    UnitWord(w1);
    var r := PowResult(w1, w2, t);
    if r.exp == 0 {
      ComposedUnit(r);
    }
  }

  /** Apart from a base of magnitude one and a zero exponent, a NaN operand gives 0x7E00. */
  lemma PowNaN(w1: Word, w2: Word, t: Tables)
    requires ValidTables(t) && w1 % 0x8000 != ONE_POS && w2 != ZERO_POS && w2 != ZERO_NEG
    requires IsNaN(Decompose(w1)) || IsNaN(Decompose(w2))
    ensures Pow(w1, w2, t) == NAN
  {
    DecomposeZero(w2);
  }

  /**
   * A zero base: 0^y is +infinity for a negative y and a zero for a
   * positive y, negative only for -0 raised to an odd integer.
   */
  lemma PowZeroBase(w1: Word, w2: Word, t: Tables)
    requires ValidTables(t) && (w1 == ZERO_POS || w1 == ZERO_NEG)
    requires w2 != ZERO_POS && w2 != ZERO_NEG && !IsNaN(Decompose(w2))
    ensures Pow(w1, w2, t) ==
      ParitySign(w1, CheckIntHalf(Decompose(w2))) + (if SignBit(w2) == SIGN_NEG then INFINITY_POS else 0)
  {
    DecomposeZero(w1);
    DecomposeZero(w2);
    var r := PowResult(w1, w2, t);
    if r.exp != EXP_FULL {
      ComposeZeroMantissa(r);
    }
  }

  /**
   * An infinite base: infinity^y is a zero for a negative y and an
   * infinity for a positive y, negative only for -infinity raised to an
   * odd integer.
   */
  lemma PowInfiniteBase(w1: Word, w2: Word, t: Tables)
    requires ValidTables(t) && IsInfinity(Decompose(w1))
    requires w2 != ZERO_POS && w2 != ZERO_NEG && !IsNaN(Decompose(w2))
    ensures Pow(w1, w2, t) ==
      ParitySign(SignBit(w1), CheckIntHalf(Decompose(w2))) + (if SignBit(w2) == SIGN_NEG then 0 else INFINITY_POS)
  {
    DecomposeZero(w2);
    var r := PowResult(w1, w2, t);
    if r.exp != EXP_FULL {
      ComposeZeroMantissa(r);
    }
  }

  /**
   * An infinite exponent with a base of magnitude other than one:
   * x^+infinity is +infinity for |x| > 1 and +0 for |x| < 1, and
   * x^-infinity the other way round, zeros and infinities included.
   */
  lemma PowInfiniteExponent(w1: Word, w2: Word, t: Tables)
    requires ValidTables(t) && w1 % 0x8000 != ONE_POS && !IsNaN(Decompose(w1))
    requires IsInfinity(Decompose(w2))
    ensures Pow(w1, w2, t) ==
      if (w1 % 0x8000 > ONE_POS) == (w2 == INFINITY_POS) then INFINITY_POS else ZERO_POS
  {
    var base, e := Decompose(w1), Decompose(w2);
    DecomposeZero(w1);
    InfinityWord(w2);
    if IsInfinity(base) {
      InfinityWord(w1);
    }
    var r := PowResult(w1, w2, t);
    InfiniteExponentCases(base, e, w1 % 0x8000, CheckIntHalf(e), t);
    if r.exp != EXP_FULL {
      ComposeZeroMantissa(r);
    }
  }

  lemma InfiniteExponentCases(base: HalfFloat, e: HalfFloat, absBase: int, k: int, t: Tables)
    requires Operand(base) && Operand(e) && ValidTables(t)
    requires !IsNaN(base) && IsInfinity(e) && absBase != ONE_POS && k == -1
    requires IsZero(base) ==> absBase < ONE_POS
    requires IsInfinity(base) ==> absBase > ONE_POS
    ensures var r := PowCases(base, e, absBase, k, t);
      r.sign == SIGN_POS && r.mant == 0 &&
      r.exp == if (absBase > ONE_POS) == (e.sign == SIGN_POS) then EXP_FULL else -EXP_BIAS
  {
  }

  /**
   * x^1: for every base that is not a NaN, `hf_pow` hands the decoded base
   * itself to `compose_half` (each special case agrees with it).  So x^1 is
   * x for every exponent field from 2 to 31, but a subnormal base comes
   * back as a signed zero, since `compose_half` flushes exponent -15.
   */
  lemma PowByOne(w1: Word, w2: Word, t: Tables)
    requires ValidTables(t) && w2 == ONE_POS && !IsNaN(Decompose(w1))
    ensures PowResult(w1, w2, t) == Decompose(w1)
    ensures ExpField(w1) >= 2 ==> Pow(w1, w2, t) == w1
    ensures ExpField(w1) == 0 ==> Pow(w1, w2, t) == SignBit(w1)
  {
    var base, e := Decompose(w1), Decompose(w2);
    OneFields(w2);
    OneIsOdd(e);
    DecomposeZero(w1);
    if IsInfinity(base) {
      InfinityWord(w1);
    }
    if w1 % 0x8000 == ONE_POS {
      UnitWord(w1);
    }
    ByOneCases(base, e, w1 % 0x8000, 1, t);
    ComposeDecompose(w1);
  }

  lemma ByOneCases(base: HalfFloat, e: HalfFloat, absBase: int, k: int, t: Tables)
    requires Operand(base) && Operand(e) && ValidTables(t) && !IsNaN(base) && k == 1
    requires e.sign == SIGN_POS && e.exp == 0 && e.mant == MANT_NORM_MIN
    requires absBase == ONE_POS ==> base.exp == 0 && base.mant == MANT_NORM_MIN
    requires IsZero(base) || IsInfinity(base) ==> absBase != ONE_POS
    ensures PowCases(base, e, absBase, k, t) == base
  {
  }

  /** A negative finite non-zero base with a finite non-integer exponent gives 0x7E00. */
  lemma PowNegativeNonInteger(w1: Word, w2: Word, t: Tables)
    requires ValidTables(t)
    requires SignBit(w1) == SIGN_NEG && ExpField(w1) != 31 && w1 != ZERO_NEG
    requires ExpField(w2) != 31 && CheckIntHalf(Decompose(w2)) < 0
    ensures Pow(w1, w2, t) == NAN
  {
    var base, e := Decompose(w1), Decompose(w2);
    DecomposeZero(w1);
    DecomposeClasses(w1);
    DecomposeClasses(w2);
    OneIsOdd(e);
    NegativeNonIntegerCases(base, e, w1 % 0x8000, CheckIntHalf(e), t);
  }

  lemma NegativeNonIntegerCases(base: HalfFloat, e: HalfFloat, absBase: int, k: int, t: Tables)
    requires Operand(base) && Operand(e) && ValidTables(t)
    requires base.sign == SIGN_NEG && !IsNaN(base) && !IsZero(base) && !IsInfinity(base)
    requires !IsNaN(e) && !IsInfinity(e) && !IsZero(e) && k < 0
    requires !(e.sign == SIGN_POS && e.exp == 0 && e.mant == MANT_NORM_MIN)
    ensures PowCases(base, e, absBase, k, t) == One().(exp := EXP_FULL, mant := 1)
  {
  }

  /**
   * For a finite non-zero base and a finite non-zero exponent, the result
   * is negative exactly when the base is negative and the exponent is an
   * odd integer, whichever case of `hf_pow` produces it.
   */
  lemma PowSign(w1: Word, w2: Word, t: Tables)
    requires ValidTables(t)
    requires ExpField(w1) != 31 && w1 != ZERO_POS && w1 != ZERO_NEG
    requires ExpField(w2) != 31 && w2 != ZERO_POS && w2 != ZERO_NEG
    ensures var k := CheckIntHalf(Decompose(w2));
      SignBit(Pow(w1, w2, t)) == SIGN_NEG <==> SignBit(w1) == SIGN_NEG && k >= 0 && k % 2 == 1
  {
    var base, e := Decompose(w1), Decompose(w2);
    DecomposeZero(w1);
    DecomposeZero(w2);
    DecomposeClasses(w1);
    DecomposeClasses(w2);
    OneIsOdd(e);
    if w1 % 0x8000 == ONE_POS {
      UnitWord(w1);
    }
    SignCases(base, e, w1 % 0x8000, CheckIntHalf(e), t);
  }

  lemma SignCases(base: HalfFloat, e: HalfFloat, absBase: int, k: int, t: Tables)
    requires Operand(base) && Operand(e) && ValidTables(t)
    requires !IsNaN(base) && !IsZero(base) && !IsInfinity(base)
    requires !IsNaN(e) && !IsZero(e) && !IsInfinity(e)
    requires absBase == ONE_POS ==> base.exp == 0 && base.mant == MANT_NORM_MIN
    requires e.sign == SIGN_POS && e.exp == 0 && e.mant == MANT_NORM_MIN ==> k == 1
    ensures PowCases(base, e, absBase, k, t).sign == ParitySign(base.sign, k)
  {
  }

  /**
   * The interpolation step of the logarithm in `hf_pow` never contributes:
   * a decoded mantissa has clear guard bits and so does its normalised
   * form, so `hf_pow` uses the same ln |x| as `hf_ln`.
   */
  lemma PowLnIsLn(w: Word, t: Tables)
    requires ValidTables(t) && ExpField(w) != 31 && !(ExpField(w) == 0 && FracField(w) == 0)
    ensures PowLnFixed(Decompose(w), t) == LnFixed(Decompose(w), t)
  {
    if ExpField(w) == 0 {
      DenormalOfDecoded(w);
    }
  }

  // ------------------------------------------------------------------ stubs

  /** `hf_log2`, not implemented. */
  function Log2(w: Word): Word { NAN }

  /** `hf_log10`, not implemented. */
  function Log10(w: Word): Word { NAN }

  /** `hf_exp2`, not implemented. */
  function Exp2(w: Word): Word { NAN }

  /** `hf_exp10`, not implemented. */
  function Exp10(w: Word): Word { NAN }

  /** `hf_expm1`, not implemented. */
  function Expm1(w: Word): Word { NAN }

  /** `hf_log1p`, not implemented. */
  function Log1p(w: Word): Word { NAN }
}
