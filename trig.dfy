/**
 * The trigonometric and hyperbolic functions of halffloat/hf_lib_trig.c.
 *
 * Sine and cosine share `sinus_shiftable`: the angle, in Q15 radians, is
 * reduced to a 16-bit fraction of a turn, shifted by a phase (a quarter
 * turn for cosine) and looked up in a quarter-wave table.  Tangent folds
 * a half-turn fraction onto [0, pi/2] and reads one of two tables; arcsine
 * and arccosine share `asinus_shiftable`; arctangent and its two-argument
 * form interpolate the arctangent table on a ratio at most 1.0.  The
 * hyperbolic functions combine e^|x| from `exp_fixed` with its Q31
 * reciprocal; the inverse hyperbolic functions are compositions of the
 * word operations of the other modules.  Each operation builds the record
 * it passes to `compose_half`, as the source does with its local `result`.
 */
module Trig {
  import opened CInt
  import opened HalfCommon
  import opened Precalc
  import opened LibCommon
  import opened Arith
  import opened Misc
  import opened ExpLog

  /** `COS_SHIFT`: a quarter turn in the 16-bit angle unit. */
  const COS_SHIFT: Word := 16384
  /** `SWITCH_NORM_75DEG`: 75 degrees in the unit of `hf_tan`, where it changes tables. */
  const TAN_SWITCH: int := 27306
  /** `1 << 26`: the magnitude above which `hf_tan` returns an infinity. */
  const TAN_OVERFLOW: int := 0x400_0000
  /** `Q15_ONE`: 1.0 in Q15, the largest ratio the arctangent table is read at. */
  const Q15_ONE: int := 0x8000

  /** The records `decompose_half` produces: an `Operand` with an exponent from -15 to 16. */
  predicate Decoded(h: HalfFloat) {
    Operand(h) && EXP_MIN <= h.exp <= EXP_FULL
  }

  /** `hf_neg` only flips the sign of the decoded record. */
  lemma DecomposeNeg(w: Word)
    ensures Decompose(Neg(w)) == Decompose(w).(sign := Flip(SignBit(w)))
  {
  }

  /**
   * A record with the opposite sign composes to the negated word: with
   * `hf_neg` on both sides, every operation that carries its operand's
   * sign into its result record unchanged is odd.
   */
  lemma ComposedNeg(h: HalfFloat)
    requires ValidSign(h.sign) && h.mant >= 0
    ensures Composed(h.(sign := Flip(h.sign))) == Neg(Composed(h))
  {
    ComposedSign(h, h.sign);
    ComposedSign(h, Flip(h.sign));
    assert h.(sign := h.sign) == h;
  }

  /**
   * `mant << exp` or `mant >> -exp` on a finite decoded operand: its
   * magnitude in Q15, truncated, which fits in an `int32_t`.  Below 1.0
   * (a negative exponent) it stays below 1.0 in Q15; with exponent 0 it is
   * the mantissa; a normal number with a positive exponent is at least 2.0.
   */
  function Fixed(h: HalfFloat): (x: int)
    requires 0 <= h.mant < MANT_OVERFLOW && EXP_MIN <= h.exp <= EXP_BIAS
    ensures 0 <= x < 0x8000_0000
    ensures h.exp < 0 ==> x < 0x8000
    ensures h.exp == 0 ==> x == h.mant
    ensures h.exp > 0 && h.mant >= MANT_NORM_MIN ==> x >= 0x1_0000
  {
    FixedBounds(h.mant, h.exp);
    Scaled(h.mant, h.exp)
  }

  lemma FixedBounds(m: int, e: int)
    requires 0 <= m < MANT_OVERFLOW && EXP_MIN <= e <= EXP_BIAS
    ensures var x := Scaled(m, e);
      && 0 <= x < 0x8000_0000
      && (e < 0 ==> x < 0x8000)
      && (e == 0 ==> x == m)
      && (e > 0 && m >= MANT_NORM_MIN ==> x >= 0x1_0000)
  {
    if e >= 0 {
      ShiftedUp(m, e);
    } else {
      ShiftedDown(m, -e);
    }
  }

  lemma ShiftedUp(m: int, e: nat)
    requires 0 <= m < MANT_OVERFLOW && e <= EXP_BIAS
    ensures 0 <= m * Pow2(e) < 0x8000_0000
    ensures e > 0 && m >= MANT_NORM_MIN ==> m * Pow2(e) >= 0x1_0000
  {
    Pow2Monotone(e, 15);
    Pow2Fifteen();
    ProductBelow(m, Pow2(e), 0xFFFF, 0x8000);
    if e > 0 && m >= MANT_NORM_MIN {
      ProductAbove(m, Pow2(e), MANT_NORM_MIN, 2);
    }
  }

  lemma Pow2Fifteen()
    ensures Pow2(15) == 0x8000
  {
    Pow2Values();
    assert Pow2(16) == 2 * Pow2(15);
  }

  lemma ProductBelow(a: int, b: int, x: int, y: int)
    requires 0 <= a <= x && 0 <= b <= y
    ensures 0 <= a * b <= x * y
  {
    MulLe(a, x, b);
    MulLe(b, y, x);
  }

  lemma ProductAbove(a: int, b: int, x: int, y: int)
    requires 0 <= x <= a && 0 <= y <= b
    ensures x * y <= a * b
  {
    MulLe(x, a, y);
    MulLe(y, b, a);
  }

  lemma ShiftedDown(m: int, k: int)
    requires 0 <= m < MANT_OVERFLOW && k >= 1
    ensures 0 <= Scaled(m, -k) < 0x8000
  {
    var x := Scaled(m, -k);
    var p := Pow2(k);
    if x < 0 {
      MulLe(x, -1, p);
    }
    if x >= 0x8000 {
      MulLe(0x8000, x, p);
      MulLe(2, p, 0x8000);
    }
  }

  /** A signed Q15 value as the record the source builds: exponent 0, sign of the value, magnitude. */
  function Signed(v: int): (h: HalfFloat)
    ensures ValidSign(h.sign) && h.exp == 0 && h.mant >= 0
    ensures (h.sign == SIGN_NEG <==> v < 0) && (h.mant == v || h.mant == -v)
  {
    if v < 0 then HalfFloat(SIGN_NEG, 0, -v) else HalfFloat(SIGN_POS, 0, v)
  }

  // ----------------------------------------------------- hf_sin and hf_cos

  /** `hf_sin`: `sinus_shiftable` without phase. */
  function Sin(w: Word, t: Tables): Word
    requires ValidTables(t)
  {
    SinusShiftable(w, 0, t)
  }

  /** `hf_cos`: `sinus_shiftable` a quarter turn on. */
  function Cos(w: Word, t: Tables): Word
    requires ValidTables(t)
  {
    SinusShiftable(w, COS_SHIFT, t)
  }

  /** `sinus_shiftable` */
  function SinusShiftable(w: Word, shift: Word, t: Tables): Word
    requires ValidTables(t)
  {
    Composed(SinusResult(Decompose(w), shift, t))
  }

  /**
   * The record `sinus_shiftable` hands to `compose_half`: a NaN keeps its
   * sign, an infinity gives the NaN with the sign bit set, and a finite
   * angle is read from the sine table at its turn fraction.
   */
  function SinusResult(a: HalfFloat, shift: Word, t: Tables): (r: HalfFloat)
    requires Decoded(a) && ValidTables(t)
    ensures ValidSign(r.sign) && r.mant >= 0
  {
    if IsNaN(a) then HalfFloat(a.sign, EXP_FULL, 1)
    else if IsInfinity(a) then HalfFloat(SIGN_NEG, EXP_FULL, 1)
    else SinFinite(Turn(a, shift), t)
  }

  /**
   * The angle of `sinus_shiftable` in 1/65536 of a turn: the magnitude
   * reduced modulo 2 pi by `reduce_radian_uword`, taken from a full turn
   * for a negative angle, plus the phase, masked to 16 bits.
   */
  function Turn(a: HalfFloat, shift: int): (n: int)
    requires ValidSign(a.sign) && 0 <= a.mant < MANT_OVERFLOW && EXP_MIN <= a.exp <= EXP_BIAS
    ensures 0 <= n < 0x1_0000
  {
    (SignedTurn(a) + shift) % 0x1_0000
  }

  /** The reduced magnitude, taken from a full turn for a negative angle, before the phase is added. */
  function SignedTurn(a: HalfFloat): (n: int)
    requires ValidSign(a.sign) && 0 <= a.mant < MANT_OVERFLOW && EXP_MIN <= a.exp <= EXP_BIAS
    ensures 0 <= n <= 0x1_0000
  {
    var norm := ReduceRadianUword(Fixed(a), 0);
    if a.sign != SIGN_POS then 0x1_0000 - norm else norm
  }

  /** The Q4 sine table index: the position in the quarter turn, reflected when bit 14 is set. */
  function SinIndex(n: int): (i: int)
    requires 0 <= n < 0x1_0000
    ensures 0 <= i < 0x4000
  {
    var low := n % 0x4000;
    if n / 0x4000 % 2 == 1 then 0x3FFF - low else low
  }

  /**
   * The sine in Q15 at turn fraction `n`: the interpolated table entry,
   * negated in the second half of the turn (bit 15).
   */
  function SinValue(n: int, t: Tables): (v: int)
    requires 0 <= n < 0x1_0000 && ValidTables(t)
    ensures n < 0x8000 ==> v >= 0
    ensures n >= 0x8000 ==> v <= 0
  {
    var m: int := SinEntry(SinIndex(n), t);
    if n >= 0x8000 then -m else m
  }

  /** `table_interpolate` on the sine table at a Q4 index within the quarter turn. */
  function SinEntry(i: int, t: Tables): (m: Word)
    requires 0 <= i < 0x4000 && ValidTables(t)
  {
    TableInterpolate(t.sin, SIN_TABLE_SIZE + 1, i, 4)
  }

  /** The arithmetic path of `sinus_shiftable`: the signed table value with exponent 0, rounded. */
  function SinFinite(n: int, t: Tables): (r: HalfFloat)
    requires 0 <= n < 0x1_0000 && ValidTables(t)
    ensures ValidSign(r.sign) && r.mant >= 0
  {
    NormalizedRounded(Signed(SinValue(n, t)))
  }

  /** `hf_sin` and `hf_cos`: a NaN keeps its sign, and +-infinity gives 0xFE00. */
  lemma SinCosSpecial(w: Word, t: Tables)
    requires ValidTables(t)
    ensures var a := Decompose(w);
      && (IsNaN(a) ==> Sin(w, t) == QuietNaN(a.sign) && Cos(w, t) == QuietNaN(a.sign))
      && (IsInfinity(a) ==> Sin(w, t) == 0xFE00 && Cos(w, t) == 0xFE00)
  {
  }

  /**
   * The phase is added to the turn fraction modulo 65536: cosine reads the
   * sine table a quarter turn further on, for every finite angle.
   */
  lemma CosIsShiftedSine(w: Word, t: Tables)
    requires ValidTables(t)
    requires !IsNaN(Decompose(w)) && !IsInfinity(Decompose(w))
    ensures var n := Turn(Decompose(w), 0);
      && Sin(w, t) == Composed(SinFinite(n, t))
      && Cos(w, t) == Composed(SinFinite((n + COS_SHIFT) % 0x1_0000, t))
  {
    TurnPhase(Decompose(w), COS_SHIFT);
  }

  lemma TurnPhase(a: HalfFloat, shift: int)
    requires ValidSign(a.sign) && 0 <= a.mant < MANT_OVERFLOW && EXP_MIN <= a.exp <= EXP_BIAS
    ensures Turn(a, shift) == (Turn(a, 0) + shift) % 0x1_0000
  {
    ModAddLeft(SignedTurn(a), shift, 0x1_0000);
  }

  /**
   * The sine table is read at two neighbouring entries within its 1025
   * entries (index 0 to 1024), and the clamp of `table_interpolate` never
   * applies.
   */
  lemma SinTableIndices(n: int)
    requires 0 <= n < 0x1_0000
    ensures var i := Shr(SinIndex(n), 4);
      && i + 1 <= SIN_TABLE_SIZE
      && Clamp(i, SIN_TABLE_SIZE + 1) == i
      && Clamp(i + 1, SIN_TABLE_SIZE + 1) == i + 1
  {
    Pow2Values();
    assert Pow2(4) == 16;
  }

  /** Half a turn further on, the sine changes sign: sin(x + pi) == -sin(x). */
  lemma SinHalfTurn(n: int, t: Tables)
    requires 0 <= n < 0x8000 && ValidTables(t)
    ensures SinValue(n + 0x8000, t) == -SinValue(n, t)
  {
    assert SinIndex(n + 0x8000) == SinIndex(n);
  }

  /**
   * The reflection in the second quarter is one step off: the sine at
   * pi - x is the sine at x one 1/65536 turn earlier, so the value at a
   * quarter turn itself (n = 0x4000) is read at index 0x3FFF.
   */
  lemma SinMirror(n: int, t: Tables)
    requires 1 <= n <= 0x8000 && ValidTables(t)
    ensures SinValue(0x8000 - n, t) == SinValue(n - 1, t)
  {
    assert SinIndex(0x8000 - n) == SinIndex(n - 1);
  }

  /**
   * For a negated angle the turn fraction is taken from a full turn, and
   * with the same one-step reflection the sine is odd only up to that
   * step: sin(-x) is -sin of x one 1/65536 turn earlier.
   */
  lemma SinNegatedTurn(n: int, t: Tables)
    requires 1 <= n < 0x1_0000 && ValidTables(t)
    ensures SinValue(0x1_0000 - n, t) == -SinValue(n - 1, t)
  {
    SinIndexNegated(n);
  }

  lemma SinIndexNegated(n: int)
    requires 1 <= n < 0x1_0000
    ensures SinIndex(0x1_0000 - n) == SinIndex(n - 1)
  {
    var q, low := (n - 1) / 0x4000, (n - 1) % 0x4000;
    assert n - 1 == q * 0x4000 + low;
    DivBounds(n - 1, 0x4000, 0, 4);
    SinIndexParts(n - 1, q, low);
    SinIndexParts(0x1_0000 - n, 3 - q, 0x3FFF - low);
  }

  /** The sine table index of the turn fraction in quarter `q` at offset `low`. */
  lemma SinIndexParts(n: int, q: int, low: int)
    requires 0 <= q < 4 && 0 <= low < 0x4000 && n == q * 0x4000 + low
    ensures SinIndex(n) == if q % 2 == 1 then 0x3FFF - low else low
  {
    DivUnique(n, 0x4000, q);
  }

  /** A negative angle turns the other way: its turn fraction is the full turn minus that of its magnitude. */
  lemma TurnOfNegation(a: HalfFloat)
    requires ValidSign(a.sign) && 0 <= a.mant < MANT_OVERFLOW && EXP_MIN <= a.exp <= EXP_BIAS
    ensures Turn(a.(sign := SIGN_NEG), 0) == (0x1_0000 - Turn(a.(sign := SIGN_POS), 0)) % 0x1_0000
  {
    var p, q := a.(sign := SIGN_POS), a.(sign := SIGN_NEG);
    SignedTurnNegated(p, q);
    Complement(SignedTurn(p));
  }

  /** The signed turn of a negative angle is the full turn minus that of its magnitude. */
  lemma SignedTurnNegated(p: HalfFloat, q: HalfFloat)
    requires p.sign == SIGN_POS && 0 <= p.mant < MANT_OVERFLOW && EXP_MIN <= p.exp <= EXP_BIAS
    requires q == p.(sign := SIGN_NEG)
    ensures SignedTurn(q) == 0x1_0000 - SignedTurn(p)
  {
    assert Fixed(q) == Fixed(p);
  }

  /** For `0 <= n <= 2^16`, (2^16 - n) mod 2^16 == (2^16 - n mod 2^16) mod 2^16. */
  lemma Complement(n: int)
    requires 0 <= n <= 0x1_0000
    ensures (0x1_0000 - n) % 0x1_0000 == (0x1_0000 - n % 0x1_0000) % 0x1_0000
  {
    if n == 0x1_0000 {
      assert n % 0x1_0000 == 0;
    } else {
      assert n % 0x1_0000 == n;
    }
  }

  // ----------------------------------------------------------------- hf_tan

  /** `hf_tan` */
  function Tan(w: Word, t: Tables): Word
    requires ValidTables(t)
  {
    Composed(TanResult(Decompose(w), t))
  }

  /**
   * The record `hf_tan` hands to `compose_half`: a NaN keeps its sign, an
   * infinity gives the NaN with the sign bit set, and a finite angle is
   * read from the two tangent tables.
   */
  function TanResult(a: HalfFloat, t: Tables): (r: HalfFloat)
    requires Decoded(a) && ValidTables(t)
    ensures ValidSign(r.sign) && r.mant >= 0
  {
    if IsNaN(a) then HalfFloat(a.sign, EXP_FULL, 1)
    else if IsInfinity(a) then HalfFloat(SIGN_NEG, EXP_FULL, 1)
    else TanFinite(TanTurn(a), t)
  }

  /**
   * The angle of `hf_tan` in 1/65536 of a half turn: `reduce_radian_uword`
   * with factor 1 (modulo pi), taken from 65536 for a negative angle and
   * not masked, so from 0 to 65536.
   */
  function TanTurn(a: HalfFloat): (n: int)
    requires ValidSign(a.sign) && 0 <= a.mant < MANT_OVERFLOW && EXP_MIN <= a.exp <= EXP_BIAS
    ensures 0 <= n <= 0x1_0000
  {
    var norm := ReduceRadianUword(Fixed(a), 1);
    if a.sign != SIGN_POS then 0x1_0000 - norm else norm
  }

  /**
   * The Q7 index into a tangent table of `TAN_DUAL_TABLE_SIZE + 1` entries
   * for a position `input` within a segment of length `range`: the whole
   * part `input * 256 / range` shifted by 7, and the seven-bit fraction of
   * the remainder.  The whole part is at most 256, so the first entry read
   * is never clamped; the two ends of the segment read entries 0 and 256.
   */
  function TanIndex(input: int, range: int): (index: int)
    requires 0 <= input <= range && range > 0
    ensures 0 <= index && index / 128 <= TAN_DUAL_TABLE_SIZE
    ensures input == 0 ==> index == 0
    ensures input == range ==> index == TAN_DUAL_TABLE_SIZE * 128
  {
    var whole := input * TAN_DUAL_TABLE_SIZE / range;
    var rem := input * TAN_DUAL_TABLE_SIZE % range;
    var frac := rem * 128 / range;
    TanIndexBounds(input, range);
    whole * 128 + frac
  }

  lemma TanIndexBounds(input: int, range: int)
    requires 0 <= input <= range && range > 0
    ensures var whole := input * TAN_DUAL_TABLE_SIZE / range;
      var frac := input * TAN_DUAL_TABLE_SIZE % range * 128 / range;
      && 0 <= whole <= TAN_DUAL_TABLE_SIZE && 0 <= frac < 128
      && (whole * 128 + frac) / 128 == whole
      && (input == 0 ==> whole == 0 && frac == 0)
      && (input == range ==> whole == TAN_DUAL_TABLE_SIZE && frac == 0)
  {
    var x := input * TAN_DUAL_TABLE_SIZE;
    var whole := x / range;
    var rem := x % range;
    DivBounds(x, range, 0, TAN_DUAL_TABLE_SIZE + 1);
    DivBounds(rem * 128, range, 0, 128);
    DivUnique(whole * 128 + rem * 128 / range, 128, whole);
    if input == range {
      MulDivCancel(TAN_DUAL_TABLE_SIZE, range);
      assert x == TAN_DUAL_TABLE_SIZE * range;
    }
  }

  /**
   * The tangent in Q15 at half-turn fraction `n`: the position folded into
   * the first quarter turn, the low table (Q13, shifted left by 2) up to 75
   * degrees and the high table (Q6, shifted left by 9) above, negated past
   * the quarter turn.
   */
  function TanValue(n: int, t: Tables): (v: int)
    requires 0 <= n <= 0x1_0000 && ValidTables(t)
    ensures n <= 0x8000 ==> v >= 0
    ensures n > 0x8000 ==> v <= 0
  {
    var i := if n > 0x8000 then 0x1_0000 - n else n;
    var m: int :=
      if i > TAN_SWITCH then
        TableInterpolate(t.tanHigh, TAN_DUAL_TABLE_SIZE + 1, TanIndex(i - TAN_SWITCH, 0x8000 - TAN_SWITCH), 7) * 512
      else
        TableInterpolate(t.tanLow, TAN_DUAL_TABLE_SIZE + 1, TanIndex(i, TAN_SWITCH), 7) * 4;
    if n > 0x8000 then -m else m
  }

  /** Table entries are 16-bit, so the tangent in Q15 stays below 2^25 in magnitude. */
  lemma TanValueBound(n: int, t: Tables)
    requires 0 <= n <= 0x1_0000 && ValidTables(t)
    ensures -0x200_0000 < TanValue(n, t) < 0x200_0000
  {
  }

  /**
   * The arithmetic path of `hf_tan`: a value beyond 2^26 in magnitude
   * becomes an infinity of its sign, any other value is rounded with
   * exponent 0.
   */
  function TanFinite(n: int, t: Tables): (r: HalfFloat)
    requires 0 <= n <= 0x1_0000 && ValidTables(t)
    ensures ValidSign(r.sign) && r.mant >= 0
  {
    var v := TanValue(n, t);
    if v > TAN_OVERFLOW || v < -TAN_OVERFLOW then
      NormalizedRounded(HalfFloat(if v < 0 then SIGN_NEG else SIGN_POS, EXP_FULL, 0))
    else
      NormalizedRounded(Signed(v))
  }

  /** `hf_tan`: a NaN keeps its sign, and +-infinity gives 0xFE00. */
  lemma TanSpecial(w: Word, t: Tables)
    requires ValidTables(t)
    ensures var a := Decompose(w);
      && (IsNaN(a) ==> Tan(w, t) == QuietNaN(a.sign))
      && (IsInfinity(a) ==> Tan(w, t) == 0xFE00)
  {
  }

  /**
   * The overflow test of `hf_tan` never fires: every finite angle gives a
   * finite result, never an infinity or a NaN, since the table values
   * shifted into Q15 stay below 2^25.
   */
  lemma TanFiniteResult(w: Word, t: Tables)
    requires ValidTables(t)
    requires !IsNaN(Decompose(w)) && !IsInfinity(Decompose(w))
    ensures ExpField(Tan(w, t)) != 31
  {
    var a := Decompose(w);
    var n := TanTurn(a);
    var h := Signed(TanValue(n, t));
    TanValueBound(n, t);
    assert TanResult(a, t) == TanFinite(n, t);
    assert TanFinite(n, t) == NormalizedRounded(h);
    SmallSignedFinite(h);
  }

  /** A signed Q15 value below 2^25 in magnitude rounds and composes to a finite word. */
  lemma SmallSignedFinite(h: HalfFloat)
    requires ValidSign(h.sign) && h.exp == 0 && 0 <= h.mant < 0x200_0000
    ensures ExpField(Composed(NormalizedRounded(h))) != 31
  {
    Pow2Add(16, 9);
    Pow2Values();
    assert Pow2(9) == 512;
    NormalizedExpBound(h, 9);
    FiniteComposed(NormalizedRounded(h));
  }

  /** A rounded record with an exponent below 16 composes to a word that is neither infinite nor NaN. */
  lemma FiniteComposed(r: HalfFloat)
    requires ValidSign(r.sign) && r.exp < EXP_FULL
    requires r.mant == 0 || MANT_NORM_MIN <= r.mant < MANT_OVERFLOW
    ensures ExpField(Composed(r)) != 31
  {
    if r.mant == 0 {
      ComposeZeroMantissa(r);
      assert ExpField(r.sign) == 0;
    } else if r.exp >= -14 {
      ComposedNormal(r);
      PackFieldValues(r.sign, if r.exp == -14 then 0 else r.exp + EXP_BIAS, r.mant / 32 % 1024);
    } else {
      assert Composed(r) == r.sign;
    }
  }

  // ------------------------------------------------------ hf_asin and hf_acos

  /** `hf_asin`: `asinus_shiftable` without shift. */
  function Asin(w: Word, t: Tables): Word
    requires ValidTables(t)
  {
    AsinusShiftable(w, 0, t)
  }

  /** `hf_acos`: `asinus_shiftable` shifted by pi/2. */
  function Acos(w: Word, t: Tables): Word
    requires ValidTables(t)
  {
    AsinusShiftable(w, ACOS_SHIFT, t)
  }

  /** `asinus_shiftable`, with the two shifts its callers pass. */
  function AsinusShiftable(w: Word, shift: int, t: Tables): Word
    requires ValidTables(t) && (shift == 0 || shift == ACOS_SHIFT)
  {
    Composed(AsinusResult(Decompose(w), shift, t))
  }

  /**
   * The record `asinus_shiftable` hands to `compose_half`: the NaN with the
   * input's sign unless the input is finite with magnitude at most 1.0
   * (Q15 value at most 0x8000), in which case the table value, shifted for
   * arccosine, rounded with exponent 0.
   */
  function AsinusResult(a: HalfFloat, shift: int, t: Tables): (r: HalfFloat)
    requires Decoded(a) && ValidTables(t) && (shift == 0 || shift == ACOS_SHIFT)
    ensures ValidSign(r.sign) && r.mant >= 0
  {
    if IsNaN(a) || IsInfinity(a) || Fixed(a) > MANT_NORM_MIN then HalfFloat(a.sign, EXP_FULL, 1)
    else NormalizedRounded(AsinusFixed(a.sign, Fixed(a), shift, t))
  }

  /** `table_interpolate` on the arcsine table: a Q15 magnitude read with 5 fraction bits. */
  function AsinValue(norm: int, t: Tables): (m: int)
    requires 0 <= norm <= MANT_NORM_MIN && ValidTables(t)
    ensures 0 <= m <= ACOS_SHIFT
  {
    TableInterpolate(t.asin, ASIN_TABLE_SIZE + 1, norm, 5)
  }

  /**
   * The Q15 result of `asinus_shiftable` before rounding: the arcsine with
   * the input's sign, or for arccosine pi/2 plus or minus the arcsine and
   * always positive.
   */
  function AsinusFixed(s: Word, norm: int, shift: int, t: Tables): (r: HalfFloat)
    requires ValidSign(s) && 0 <= norm <= MANT_NORM_MIN && ValidTables(t)
    requires shift == 0 || shift == ACOS_SHIFT
    ensures ValidSign(r.sign) && r.exp == 0 && r.mant >= 0
    ensures shift == 0 ==> r.sign == s && r.mant <= ACOS_SHIFT
    ensures shift != 0 ==> r.sign == SIGN_POS && r.mant <= 2 * ACOS_SHIFT
  {
    var m := AsinValue(norm, t);
    if shift != 0 then HalfFloat(SIGN_POS, 0, if s != SIGN_POS then shift + m else shift - m)
    else HalfFloat(s, 0, m)
  }

  /** The signed Q15 value a record with exponent 0 stands for. */
  function Q15Value(h: HalfFloat): int {
    if h.sign == SIGN_NEG then -h.mant else h.mant
  }

  /**
   * Before rounding, arccosine is pi/2 minus arcsine for both signs of the
   * input: acos(x) == pi/2 - asin(x) in Q15.
   */
  lemma AcosComplementsAsin(s: Word, norm: int, t: Tables)
    requires ValidSign(s) && 0 <= norm <= MANT_NORM_MIN && ValidTables(t)
    ensures Q15Value(AsinusFixed(s, norm, ACOS_SHIFT, t)) == ACOS_SHIFT - Q15Value(AsinusFixed(s, norm, 0, t))
  {
  }

  /**
   * A finite input's Q15 magnitude is above 0x8000 exactly when the word's
   * magnitude is above 1.0 (0x3C00), and is 0x8000 exactly for +-1.0.
   */
  lemma FixedAboveOne(w: Word)
    requires ExpField(w) != 31
    ensures Fixed(Decompose(w)) > MANT_NORM_MIN <==> Arith.Abs(w) > ONE_POS
    ensures Fixed(Decompose(w)) == MANT_NORM_MIN <==> Arith.Abs(w) == ONE_POS
  {
    var a := Decompose(w);
    PackFields(Arith.Abs(w));
    if ExpField(w) == 15 {
      assert a.mant == MANT_NORM_MIN + FracField(w) * 32;
    }
  }

  /**
   * `hf_asin` and `hf_acos` outside [-1, 1] (a NaN, an infinity or a
   * magnitude above 1.0) give the quiet NaN with the input's sign.
   */
  lemma AsinOutOfDomain(w: Word, t: Tables)
    requires ValidTables(t)
    requires ExpField(w) == 31 || Arith.Abs(w) > ONE_POS
    ensures Asin(w, t) == QuietNaN(SignBit(w)) && Acos(w, t) == QuietNaN(SignBit(w))
  {
    if ExpField(w) != 31 {
      FixedAboveOne(w);
    }
  }

  /**
   * Inside [-1, 1] both give a finite number: arcsine with the input's
   * sign, arccosine positive.
   */
  lemma AsinInDomain(w: Word, t: Tables)
    requires ValidTables(t)
    requires ExpField(w) != 31 && Arith.Abs(w) <= ONE_POS
    ensures ExpField(Asin(w, t)) != 31 && SignBit(Asin(w, t)) == SignBit(w)
    ensures ExpField(Acos(w, t)) != 31 && SignBit(Acos(w, t)) == SIGN_POS
  {
    FixedAboveOne(w);
    var a := Decompose(w);
    AsinusFinite(a.sign, Fixed(a), 0, t);
    AsinusFinite(a.sign, Fixed(a), ACOS_SHIFT, t);
  }

  lemma AsinusFinite(s: Word, norm: int, shift: int, t: Tables)
    requires ValidSign(s) && 0 <= norm <= MANT_NORM_MIN && ValidTables(t)
    requires shift == 0 || shift == ACOS_SHIFT
    ensures var r := NormalizedRounded(AsinusFixed(s, norm, shift, t));
      ExpField(Composed(r)) != 31 && r.sign == AsinusFixed(s, norm, shift, t).sign
  {
    var h := AsinusFixed(s, norm, shift, t);
    RoundedBelowFour(h);
    FiniteComposed(NormalizedRounded(h));
  }

  /** A record with exponent 0 and a mantissa below 2^17 (a value below 4.0) rounds to a finite exponent. */
  lemma RoundedBelowFour(h: HalfFloat)
    requires h.exp == 0 && 0 <= h.mant < 0x2_0000
    ensures NormalizedRounded(h).exp < EXP_FULL
  {
    Pow2Fifteen();
    assert Pow2(17) == 4 * Pow2(15);
    NormalizedExpBound(h, 1);
  }

  /** `hf_asin` is odd for every input, NaNs included: asin(-x) == -asin(x). */
  lemma AsinOdd(w: Word, t: Tables)
    requires ValidTables(t)
    ensures Asin(Neg(w), t) == Neg(Asin(w, t))
  {
    var a := Decompose(w);
    DecomposeNeg(w);
    AsinusSign(a, Flip(a.sign), t);
    ComposedNeg(AsinusResult(a, 0, t));
  }

  lemma AsinusSign(a: HalfFloat, s: Word, t: Tables)
    requires Decoded(a) && ValidSign(s) && ValidTables(t)
    ensures AsinusResult(a.(sign := s), 0, t) == AsinusResult(a, 0, t).(sign := s)
  {
    if !(IsNaN(a) || IsInfinity(a) || Fixed(a) > MANT_NORM_MIN) {
      NormalizedSign(AsinusFixed(a.sign, Fixed(a), 0, t), s);
      assert AsinusFixed(s, Fixed(a), 0, t) == AsinusFixed(a.sign, Fixed(a), 0, t).(sign := s);
    }
  }

  /**
   * Before rounding, arccosine of -x and of x add up to pi: the Q15 values
   * for the two signs of the same magnitude sum to twice `ACOS_SHIFT`.
   */
  lemma AcosReflection(norm: int, t: Tables)
    requires 0 <= norm <= MANT_NORM_MIN && ValidTables(t)
    ensures AsinusFixed(SIGN_NEG, norm, ACOS_SHIFT, t).mant + AsinusFixed(SIGN_POS, norm, ACOS_SHIFT, t).mant
      == 2 * ACOS_SHIFT
  {
  }

  // ---------------------------------------------------------------- hf_atan

  /** `hf_atan` */
  function Atan(w: Word, t: Tables): Word
    requires ValidTables(t)
  {
    Composed(AtanResult(Decompose(w), t))
  }

  /**
   * The record `hf_atan` hands to `compose_half`: a NaN keeps its sign, an
   * infinity gives pi/2 with its sign, a finite input the table value for
   * its Q15 magnitude with its sign, rounded with exponent 0.
   */
  function AtanResult(a: HalfFloat, t: Tables): (r: HalfFloat)
    requires Decoded(a) && ValidTables(t)
    ensures ValidSign(r.sign) && r.mant >= 0 && r.sign == a.sign
  {
    if IsNaN(a) then HalfFloat(a.sign, EXP_FULL, 1)
    else if IsInfinity(a) then NormalizedRounded(HalfFloat(a.sign, 0, t.piHalf))
    else NormalizedRounded(HalfFloat(a.sign, 0, AtanValue(Fixed(a), t)))
  }

  /**
   * The Q15 ratio at which `hf_atan` reads the table: the magnitude itself
   * up to 1.0, its Q15 reciprocal `(1 << 30) / norm` above; both clamped
   * to 1.0, which never applies.
   */
  function AtanRatio(norm: int): (ratio: int)
    requires 0 <= norm < 0x8000_0000
    ensures 0 <= ratio <= Q15_ONE
    ensures norm <= Q15_ONE ==> ratio == norm
    ensures norm > Q15_ONE ==> ratio == 0x4000_0000 / norm
  {
    if norm == 0 then 0
    else if norm > MANT_NORM_MIN then
      var r := 0x4000_0000 / norm;
      DivBounds(0x4000_0000, norm, 0, Q15_ONE);
      if r > Q15_ONE then Q15_ONE else r
    else
      if norm > Q15_ONE then Q15_ONE else norm
  }

  /** `table_interpolate` on the arctangent table: at most pi/2, since every entry is. */
  function AtanEntry(ratio: int, t: Tables): (v: int)
    requires 0 <= ratio <= Q15_ONE && ValidTables(t)
    ensures 0 <= v <= t.piHalf
  {
    TableInterpolate(t.atan, |t.atan|, ratio, t.atanIndexShift)
  }

  /**
   * The arctangent in Q15 of a Q15 magnitude: the table value, or pi/2
   * minus the value at the reciprocal above 1.0; always in [0, pi/2].
   */
  function AtanValue(norm: int, t: Tables): (v: int)
    requires 0 <= norm < 0x8000_0000 && ValidTables(t)
    ensures 0 <= v <= t.piHalf
  {
    var value := AtanEntry(AtanRatio(norm), t);
    if norm > MANT_NORM_MIN then t.piHalf - value else value
  }

  /** pi/2 in Q15 (51472) rounds to 0x3E48, about 1.5703. */
  lemma PiHalfRounded(s: Word)
    requires ValidSign(s)
    ensures Composed(NormalizedRounded(HalfFloat(s, 0, ACOS_SHIFT))) == s + 0x3E48
  {
    var h := HalfFloat(s, 0, ACOS_SHIFT);
    RoundingRule(h);
    var r := h.(mant := ACOS_SHIFT / 32 * 32);
    assert NormalizedRounded(h) == r;
    ComposedNormal(r);
  }

  /**
   * `hf_atan`: a NaN keeps its sign, +-infinity gives +-pi/2, and the result
   * always has the input's sign.
   */
  lemma AtanSpecial(w: Word, t: Tables)
    requires ValidTables(t)
    ensures IsNaN(Decompose(w)) ==> Atan(w, t) == QuietNaN(SignBit(w))
    ensures IsInfinity(Decompose(w)) ==> Atan(w, t) == SignBit(w) + 0x3E48
    ensures SignBit(Atan(w, t)) == SignBit(w)
  {
    if IsInfinity(Decompose(w)) {
      PiHalfRounded(SignBit(w));
    }
  }

  /** `hf_atan` is odd for every input: atan(-x) == -atan(x). */
  lemma AtanOdd(w: Word, t: Tables)
    requires ValidTables(t)
    ensures Atan(Neg(w), t) == Neg(Atan(w, t))
  {
    var a := Decompose(w);
    DecomposeNeg(w);
    var r := AtanResult(a, t);
    var s := Flip(a.sign);
    if IsInfinity(a) {
      NormalizedSign(HalfFloat(a.sign, 0, t.piHalf), s);
    } else if !IsNaN(a) {
      NormalizedSign(HalfFloat(a.sign, 0, AtanValue(Fixed(a), t)), s);
    }
    assert AtanResult(a.(sign := s), t) == r.(sign := s);
    ComposedNeg(r);
  }

  /**
   * The reduction for magnitudes above 1.0 is atan(x) + atan(1/x) == pi/2:
   * the Q15 values at `norm` and at its Q15 reciprocal add up to pi/2.
   */
  lemma AtanReciprocal(norm: int, t: Tables)
    requires MANT_NORM_MIN < norm < 0x8000_0000 && ValidTables(t)
    ensures AtanValue(norm, t) + AtanValue(0x4000_0000 / norm, t) == t.piHalf
  {
    DivBounds(0x4000_0000, norm, 0, Q15_ONE);
  }

  // --------------------------------------------------------------- hf_atan2

  /** `hf_atan2` */
  function Atan2(wy: Word, wx: Word, t: Tables): Word
    requires ValidTables(t)
  {
    Composed(Atan2Result(Decompose(wy), Decompose(wx), t))
  }

  /**
   * The record `hf_atan2` hands to `compose_half`: the NaN with the sign
   * bit set if either input is a NaN; a multiple of pi/4 chosen by the
   * infinities and the sign of x if either is infinite; the quadrant-
   * corrected table value otherwise; and zero with y's sign when both are
   * zero.  Every result but the NaN has y's sign.
   */
  function Atan2Result(y: HalfFloat, x: HalfFloat, t: Tables): (r: HalfFloat)
    requires Decoded(y) && Decoded(x) && ValidTables(t)
    ensures ValidSign(r.sign) && r.mant >= 0
  {
    if IsNaN(y) || IsNaN(x) then HalfFloat(SIGN_NEG, EXP_FULL, 1)
    else if IsInfinity(y) || IsInfinity(x) then NormalizedRounded(HalfFloat(y.sign, 0, Atan2InfAngle(y, x, t)))
    else if !(IsZero(y) && IsZero(x)) then NormalizedRounded(HalfFloat(y.sign, 0, Atan2Value(y, x, t)))
    else HalfFloat(y.sign, 0, 0)
  }

  /** The angle magnitude when an input is infinite: 3 pi/4 or pi/4, pi/2, pi or 0. */
  function Atan2InfAngle(y: HalfFloat, x: HalfFloat, t: Tables): (m: int)
    requires ValidSign(x.sign) && ValidTables(t)
    ensures 0 <= m <= t.pi
  {
    if IsInfinity(y) && IsInfinity(x) then (if x.sign != SIGN_POS then t.piThreeQuarters else t.piQuarter)
    else if IsInfinity(y) then t.piHalf
    else if x.sign != SIGN_POS then t.pi
    else 0
  }

  /**
   * `((int64_t)num << (Q15_SHIFT + exp_diff)) / den` clamped to [0, 1.0]:
   * the Q15 ratio of two mantissas whose exponents differ by `15 - sh`.  A
   * negative count shifts right.
   */
  function Atan2Ratio(num: int, den: int, sh: int): (ratio: int)
    requires 0 <= num < MANT_OVERFLOW && den > 0 && -EXP_BIAS <= sh <= EXP_BIAS
    ensures 0 <= ratio <= Q15_ONE
  {
    FixedBounds(num, sh);
    var q := Scaled(num, sh) / den;
    if q > Q15_ONE then Q15_ONE else q
  }

  /**
   * The Q15 angle magnitude of `hf_atan2` for finite inputs, not both zero.
   * The smaller magnitude goes over the larger (`use_complement` when y's is
   * larger, then pi/2 minus the table value), and a negative x reflects the
   * angle to pi minus it: the result lies in [0, pi/2] for a positive x and
   * in [pi - pi/2, pi] for a negative one.
   */
  function Atan2Value(y: HalfFloat, x: HalfFloat, t: Tables): (v: int)
    requires Decoded(y) && Decoded(x) && ValidTables(t)
    requires !IsNaN(y) && !IsNaN(x) && !IsInfinity(y) && !IsInfinity(x) && !(IsZero(y) && IsZero(x))
    ensures x.sign == SIGN_POS ==> 0 <= v <= t.piHalf
    ensures x.sign != SIGN_POS ==> t.pi - t.piHalf <= v <= t.pi
  {
    var d := y.exp - x.exp;
    var comp := d > 0 || (d == 0 && y.mant > x.mant);
    Atan2Operands(y, x);
    var value :=
      if comp then t.piHalf - AtanEntry(Atan2Ratio(x.mant, y.mant, Q15_SHIFT - d), t)
      else AtanEntry(Atan2Ratio(y.mant, x.mant, Q15_SHIFT + d), t);
    if x.sign != SIGN_POS then t.pi - value else value
  }

  /**
   * The larger magnitude, the denominator of the ratio, is not zero, and
   * the exponent difference keeps the shift count within 15 either way.
   */
  lemma Atan2Operands(y: HalfFloat, x: HalfFloat)
    requires Decoded(y) && Decoded(x)
    requires !IsNaN(y) && !IsNaN(x) && !IsInfinity(y) && !IsInfinity(x) && !(IsZero(y) && IsZero(x))
    ensures -30 <= y.exp - x.exp <= 30
    ensures y.exp - x.exp > 0 || (y.exp == x.exp && y.mant > x.mant) ==> y.mant > 0
    ensures !(y.exp - x.exp > 0 || (y.exp == x.exp && y.mant > x.mant)) ==> x.mant > 0
  {
  }

  /** `Q15_SHIFT` */
  const Q15_SHIFT: int := 15

  /** `hf_atan2`: a NaN in either input gives 0xFE00, and (+-0, +-0) gives y itself. */
  lemma Atan2Special(wy: Word, wx: Word, t: Tables)
    requires ValidTables(t)
    ensures IsNaN(Decompose(wy)) || IsNaN(Decompose(wx)) ==> Atan2(wy, wx, t) == 0xFE00
    ensures IsZero(Decompose(wy)) && IsZero(Decompose(wx)) ==> Atan2(wy, wx, t) == wy
  {
    var y, x := Decompose(wy), Decompose(wx);
    if IsNaN(y) || IsNaN(x) {
      assert Atan2Result(y, x, t) == HalfFloat(SIGN_NEG, EXP_FULL, 1);
    } else if IsZero(y) && IsZero(x) {
      assert Atan2Result(y, x, t) == HalfFloat(y.sign, 0, 0);
      DecomposeZero(wy);
      ComposeZeroMantissa(HalfFloat(y.sign, 0, 0));
    }
  }

  /**
   * With an infinite y and a finite x the angle is +-pi/2 with y's sign;
   * every result but the NaN has y's sign.
   */
  lemma Atan2Infinite(wy: Word, wx: Word, t: Tables)
    requires ValidTables(t)
    ensures IsInfinity(Decompose(wy)) && ExpField(wx) != 31 ==> Atan2(wy, wx, t) == SignBit(wy) + 0x3E48
    ensures !IsNaN(Decompose(wy)) && !IsNaN(Decompose(wx)) ==> SignBit(Atan2(wy, wx, t)) == SignBit(wy)
  {
    var y, x := Decompose(wy), Decompose(wx);
    if IsInfinity(y) && ExpField(wx) != 31 {
      assert !IsNaN(x) && !IsInfinity(x);
      assert Atan2Result(y, x, t) == NormalizedRounded(HalfFloat(y.sign, 0, t.piHalf));
      PiHalfRounded(SignBit(wy));
    } else if !IsNaN(y) && !IsNaN(x) {
      assert Atan2Result(y, x, t).sign == y.sign;
    }
  }

  /**
   * Two infinities give 3 pi/4 for a negative x and pi/4 for a positive x,
   * rounded, with y's sign.
   */
  lemma Atan2InfiniteBoth(wy: Word, wx: Word, t: Tables)
    requires ValidTables(t) && IsInfinity(Decompose(wy)) && IsInfinity(Decompose(wx))
    ensures var angle := if SignBit(wx) == SIGN_NEG then t.piThreeQuarters else t.piQuarter;
      Atan2(wy, wx, t) == Composed(NormalizedRounded(HalfFloat(SignBit(wy), 0, angle)))
  {
  }

  /**
   * A finite y with x = -infinity gives pi, rounded, with y's sign, and with
   * x = +infinity the zero of y's sign.
   */
  lemma Atan2InfiniteX(wy: Word, wx: Word, t: Tables)
    requires ValidTables(t) && ExpField(wy) != 31 && IsInfinity(Decompose(wx))
    ensures SignBit(wx) == SIGN_NEG ==> Atan2(wy, wx, t) == Composed(NormalizedRounded(HalfFloat(SignBit(wy), 0, t.pi)))
    ensures SignBit(wx) == SIGN_POS ==> Atan2(wy, wx, t) == SignBit(wy)
  {
    var y, x := Decompose(wy), Decompose(wx);
    assert !IsNaN(y) && !IsInfinity(y);
    if SignBit(wx) == SIGN_POS {
      assert Atan2Result(y, x, t) == NormalizedRounded(HalfFloat(y.sign, 0, 0));
      ComposeZeroMantissa(NormalizedRounded(HalfFloat(y.sign, 0, 0)));
    }
  }

  /**
   * Negating y negates the angle, for every pair without a NaN:
   * atan2(-y, x) == -atan2(y, x).
   */
  lemma Atan2OddInY(wy: Word, wx: Word, t: Tables)
    requires ValidTables(t)
    requires !IsNaN(Decompose(wy)) && !IsNaN(Decompose(wx))
    ensures Atan2(Neg(wy), wx, t) == Neg(Atan2(wy, wx, t))
  {
    var y := Decompose(wy);
    DecomposeNeg(wy);
    Atan2Sign(y, Decompose(wx), Flip(y.sign), t);
    ComposedNeg(Atan2Result(y, Decompose(wx), t));
  }

  lemma Atan2Sign(y: HalfFloat, x: HalfFloat, s: Word, t: Tables)
    requires Decoded(y) && Decoded(x) && ValidSign(s) && ValidTables(t)
    requires !IsNaN(y) && !IsNaN(x)
    ensures Atan2Result(y.(sign := s), x, t) == Atan2Result(y, x, t).(sign := s)
  {
    var ys := y.(sign := s);
    if IsInfinity(y) || IsInfinity(x) {
      var h := HalfFloat(y.sign, 0, Atan2InfAngle(y, x, t));
      assert Atan2InfAngle(ys, x, t) == h.mant;
      assert Atan2Result(ys, x, t) == NormalizedRounded(h.(sign := s));
      NormalizedSign(h, s);
    } else if !(IsZero(y) && IsZero(x)) {
      var h := HalfFloat(y.sign, 0, Atan2Value(y, x, t));
      Atan2ValueSign(y, x, s, t);
      assert Atan2Result(ys, x, t) == NormalizedRounded(h.(sign := s));
      NormalizedSign(h, s);
    } else {
      assert Atan2Result(ys, x, t) == HalfFloat(s, 0, 0);
    }
  }

  /** The magnitude of atan2 reads only the exponent and mantissa of `y`. */
  lemma Atan2ValueSign(y: HalfFloat, x: HalfFloat, s: Word, t: Tables)
    requires Decoded(y) && Decoded(x) && ValidSign(s) && ValidTables(t)
    requires !IsNaN(y) && !IsNaN(x) && !IsInfinity(y) && !IsInfinity(x) && !(IsZero(y) && IsZero(x))
    ensures Decoded(y.(sign := s)) && !IsNaN(y.(sign := s)) && !IsInfinity(y.(sign := s))
    ensures !(IsZero(y.(sign := s)) && IsZero(x))
    ensures Atan2Value(y.(sign := s), x, t) == Atan2Value(y, x, t)
  {
    var ys := y.(sign := s);
    assert ys.exp == y.exp && ys.mant == y.mant;
  }

  /**
   * In the first quadrant swapping the coordinates gives the complementary
   * angle, atan2(y, x) + atan2(x, y) == pi/2 in Q15, whenever the two
   * magnitudes differ (equal ones both read the table at 1.0).
   */
  lemma Atan2Swap(y: HalfFloat, x: HalfFloat, t: Tables)
    requires Decoded(y) && Decoded(x) && ValidTables(t)
    requires !IsNaN(y) && !IsNaN(x) && !IsInfinity(y) && !IsInfinity(x) && !(IsZero(y) && IsZero(x))
    requires y.sign == SIGN_POS && x.sign == SIGN_POS && (y.exp, y.mant) != (x.exp, x.mant)
    ensures Atan2Value(y, x, t) + Atan2Value(x, y, t) == t.piHalf
  {
  }

  // ------------------------------------------- hf_sinh, hf_cosh and hf_tanh

  /**
   * `is_subnormal`: the minimum exponent with a mantissa below the implicit
   * bit, which takes in both zeros.
   */
  predicate IsSubnormal(h: HalfFloat) {
    h.exp == EXP_MIN && h.mant < MANT_NORM_MIN
  }

  /** `x >> 1` of a non-negative value, and `(int32_t)((1u << 31) / m)` for 1 <= m < 2^16. */
  function Reciprocal31(m: int): (r: int)
    requires MANT_NORM_MIN <= m < MANT_OVERFLOW
    ensures MANT_NORM_MIN <= r <= 0x1_0000
  {
    DivBounds(0x8000_0000, m, MANT_NORM_MIN, 0x1_0001);
    0x8000_0000 / m
  }

  /**
   * `cosh_sinh_helper`: `exp_fixed` writes e^|x| as a mantissa from 1.0 to
   * 2.0 in Q15 and an exponent into `result`; the helper returns that
   * record, its mantissa, and e^-|x| as a Q15 mantissa aligned to the same
   * exponent: the Q31 reciprocal shifted right by `2 * exp + 1`, or 0 once
   * the shift reaches 31.
   */
  function CoshSinh(xAbs: int, result: HalfFloat, t: Tables): (r: (HalfFloat, int, int))
    requires 0 <= xAbs && ValidTables(t)
    ensures r.0 == ExpFixed(xAbs, t, result) && r.0.exp >= 0
    ensures r.1 == r.0.mant && MANT_NORM_MIN <= r.1 < MANT_OVERFLOW
    ensures 0 <= r.2 <= MANT_NORM_MIN
  {
    var e := ExpFixed(xAbs, t, result);
    var index := ExpIndex(ExpReduce(xAbs).1);
    assert MANT_NORM_MIN <= t.exp[index] && MANT_NORM_MIN <= t.exp[index + 1];
    var pos := e.mant;
    var neg := if e.mant > 0 then Reciprocal31(e.mant) else 0;
    var k := -e.exp - 1;
    if e.exp > k then
      var shift := e.exp - k;
      (e, pos, if shift < 31 then neg / Pow2(shift) else 0)
    else (e, pos, neg)
  }

  /**
   * The aligned reciprocal is exact up to truncation: `neg` is
   * 2^31 / (pos * 2^(2 exp + 1)) rounded down, the Q15 mantissa of e^-|x|
   * at the exponent of e^|x|, so that e^|x| * e^-|x| never exceeds 1.0.
   */
  lemma CoshSinhReciprocal(xAbs: int, result: HalfFloat, t: Tables)
    requires 0 <= xAbs && ValidTables(t)
    ensures var (e, pos, neg) := CoshSinh(xAbs, result, t);
      var shift := 2 * e.exp + 1;
      && (shift < 31 ==> neg == 0x8000_0000 / (pos * Pow2(shift)))
      && (shift >= 31 ==> neg == 0)
  {
    var (e, pos, neg) := CoshSinh(xAbs, result, t);
    var shift := 2 * e.exp + 1;
    if shift < 31 {
      DivDiv(0x8000_0000, pos, Pow2(shift));
    }
  }

  /** Two truncating divisions in a row are one division by the product. */
  lemma DivDiv(a: int, b: int, c: int)
    requires a >= 0 && b > 0 && c > 0
    ensures a / b / c == a / (b * c)
  {
    var q1, r1 := a / b, a % b;
    var q2, r2 := q1 / c, q1 % c;
    assert a == q1 * b + r1;
    assert q1 == q2 * c + r2;
    assert a == q2 * (b * c) + (r2 * b + r1) by {
      assert q1 * b == q2 * c * b + r2 * b;
      MulAssoc(q2, b, c);
    }
    MulLe(r2, c - 1, b);
    assert (c - 1) * b + b == b * c;
    DivUnique(a, b * c, q2);
  }

  /** At x = 0 the helper gives e^0 == e^-0 == 1.0 in Q15 with exponent 0. */
  lemma CoshSinhAtZero(result: HalfFloat, t: Tables)
    requires ValidTables(t)
    ensures CoshSinh(0, result, t) == (result.(mant := MANT_NORM_MIN, exp := 0), MANT_NORM_MIN, MANT_NORM_MIN)
  {
    ExpFixedZero(t, result);
    assert Pow2(1) == 2;
  }

  /**
   * `mant = v >> 1`, and when that is 0 for a non-zero `v`, the exponent
   * decremented and `mant = v >> 1` again, which is still 0.
   */
  function Halved(h: HalfFloat, v: int): (r: HalfFloat)
    requires v >= 0
    ensures r.sign == h.sign && r.mant == v / 2
    ensures r.exp == h.exp || (v == 1 && r.exp == h.exp - 1)
  {
    if v / 2 == 0 && v != 0 then h.(exp := h.exp - 1, mant := v / 2)
    else h.(mant := v / 2)
  }

  /**
   * The helper does not look at the sign of `result`: the record it returns
   * carries that sign, and the two mantissas do not depend on it.
   */
  lemma CoshSinhSign(xAbs: int, s: Word, t: Tables)
    requires 0 <= xAbs && ValidSign(s) && ValidTables(t)
    ensures var p := CoshSinh(xAbs, HalfFloat(SIGN_POS, EXP_FULL, 0), t);
      CoshSinh(xAbs, HalfFloat(s, EXP_FULL, 0), t) == (p.0.(sign := s), p.1, p.2)
  {
  }

  /** `hf_sinh` */
  function Sinh(w: Word, t: Tables): Word
    requires ValidTables(t)
  {
    Composed(SinhResult(Decompose(w), t))
  }

  /**
   * The record `hf_sinh` hands to `compose_half`: a NaN keeps its sign with
   * mantissa 1, a subnormal or zero is passed through, an infinity is kept,
   * and otherwise (e^|x| - e^-|x|) / 2 with the input's sign.
   */
  function SinhResult(a: HalfFloat, t: Tables): (r: HalfFloat)
    requires Decoded(a) && ValidTables(t)
    ensures ValidSign(r.sign) && r.mant >= 0 && r.sign == a.sign
  {
    if IsNaN(a) then HalfFloat(a.sign, EXP_FULL, 1)
    else if IsSubnormal(a) then a
    else if IsInfinity(a) then HalfFloat(a.sign, EXP_FULL, 0)
    else SinhFinite(Fixed(a), a.sign, t)
  }

  /** The arithmetic path of `hf_sinh` for the Q15 magnitude `xAbs` and the sign `s`. */
  function SinhFinite(xAbs: int, s: Word, t: Tables): (r: HalfFloat)
    requires 0 <= xAbs && ValidSign(s) && ValidTables(t)
    ensures r.sign == s && r.mant >= 0
  {
    var (e, pos, neg) := CoshSinh(xAbs, HalfFloat(s, EXP_FULL, 0), t);
    HalfDifference(e, pos, neg)
  }

  /** `(e^x - e^-x) / 2` from the record of e^x and the two aligned mantissas, rounded. */
  function HalfDifference(e: HalfFloat, pos: int, neg: int): (r: HalfFloat)
    requires pos >= neg
    ensures r.sign == e.sign && r.mant >= 0
  {
    NormalizedRounded(Halved(e, pos - neg))
  }

  /** The sign only rides along: the arithmetic path for `s` is the positive one with sign `s`. */
  lemma SinhFiniteSign(xAbs: int, s: Word, t: Tables)
    requires 0 <= xAbs && ValidSign(s) && ValidTables(t)
    ensures SinhFinite(xAbs, s, t) == SinhFinite(xAbs, SIGN_POS, t).(sign := s)
  {
    CoshSinhSign(xAbs, s, t);
    var p := CoshSinh(xAbs, HalfFloat(SIGN_POS, EXP_FULL, 0), t);
    HalfDifferenceSign(p.0, p.1, p.2, s);
  }

  lemma HalfDifferenceSign(e: HalfFloat, pos: int, neg: int, s: Word)
    requires pos >= neg
    ensures HalfDifference(e.(sign := s), pos, neg) == HalfDifference(e, pos, neg).(sign := s)
  {
    assert Halved(e.(sign := s), pos - neg) == Halved(e, pos - neg).(sign := s);
    NormalizedSign(Halved(e, pos - neg), s);
  }

  /**
   * `hf_sinh`: a NaN keeps its sign, an infinity is returned unchanged, and
   * an input with exponent field 0 (a zero or a subnormal) gives the zero of
   * its sign, since `compose_half` flushes the record passed through.
   */
  lemma SinhSpecial(w: Word, t: Tables)
    requires ValidTables(t)
    ensures IsNaN(Decompose(w)) ==> Sinh(w, t) == QuietNaN(SignBit(w))
    ensures IsInfinity(Decompose(w)) ==> Sinh(w, t) == w
    ensures ExpField(w) == 0 ==> Sinh(w, t) == SignBit(w)
    ensures SignBit(Sinh(w, t)) == SignBit(w)
  {
    var a := Decompose(w);
    if IsNaN(a) {
      assert SinhResult(a, t) == HalfFloat(a.sign, EXP_FULL, 1);
    } else if IsSubnormal(a) {
      assert SinhResult(a, t) == a;
    } else if IsInfinity(a) {
      assert SinhResult(a, t) == HalfFloat(a.sign, EXP_FULL, 0);
      PackFields(w);
    }
  }

  /**
   * Where `is_subnormal` is read without the zeros, +-0 takes the arithmetic
   * path of `hf_sinh` instead; e^0 - e^-0 is 0 there, so sinh(+-0) is the
   * zero of the input's sign under either reading.
   */
  lemma SinhFiniteAtZero(s: Word, t: Tables)
    requires ValidSign(s) && ValidTables(t)
    ensures Composed(SinhFinite(0, s, t)) == s
  {
    CoshSinhAtZero(HalfFloat(s, EXP_FULL, 0), t);
    var e := HalfFloat(s, 0, MANT_NORM_MIN);
    assert Halved(e, 0) == HalfFloat(s, 0, 0);
    ComposeZeroMantissa(NormalizedRounded(HalfFloat(s, 0, 0)));
  }

  /** `hf_sinh` is odd for every input: sinh(-x) == -sinh(x). */
  lemma SinhOdd(w: Word, t: Tables)
    requires ValidTables(t)
    ensures Sinh(Neg(w), t) == Neg(Sinh(w, t))
  {
    var a := Decompose(w);
    var s := Flip(a.sign);
    DecomposeNeg(w);
    if !IsNaN(a) && !IsSubnormal(a) && !IsInfinity(a) {
      SinhFiniteSign(Fixed(a), s, t);
      SinhFiniteSign(Fixed(a), a.sign, t);
    }
    assert SinhResult(a.(sign := s), t) == SinhResult(a, t).(sign := s);
    ComposedNeg(SinhResult(a, t));
  }

  /** `hf_cosh` */
  function Cosh(w: Word, t: Tables): Word
    requires ValidTables(t)
  {
    Composed(CoshResult(Decompose(w), t))
  }

  /**
   * The record `hf_cosh` hands to `compose_half`, always positive: a NaN
   * with mantissa 1, +infinity for an infinity, and otherwise
   * (e^|x| + e^-|x|) / 2.
   */
  function CoshResult(a: HalfFloat, t: Tables): (r: HalfFloat)
    requires Decoded(a) && ValidTables(t)
    ensures ValidSign(r.sign) && r.mant >= 0 && r.sign == SIGN_POS
  {
    if IsNaN(a) then HalfFloat(SIGN_POS, EXP_FULL, 1)
    else if IsInfinity(a) then HalfFloat(SIGN_POS, EXP_FULL, 0)
    else CoshFinite(Fixed(a), t)
  }

  /** The arithmetic path of `hf_cosh` for the Q15 magnitude `xAbs`. */
  function CoshFinite(xAbs: int, t: Tables): (r: HalfFloat)
    requires 0 <= xAbs && ValidTables(t)
    ensures r.sign == SIGN_POS && r.mant >= 0
  {
    var (e, pos, neg) := CoshSinh(xAbs, HalfFloat(SIGN_POS, EXP_FULL, 0), t);
    NormalizedRounded(Halved(e, pos + neg))
  }

  /** `hf_cosh`: every NaN gives the positive quiet NaN and both infinities +infinity. */
  lemma CoshSpecial(w: Word, t: Tables)
    requires ValidTables(t)
    ensures IsNaN(Decompose(w)) ==> Cosh(w, t) == NAN
    ensures IsInfinity(Decompose(w)) ==> Cosh(w, t) == INFINITY_POS
    ensures SignBit(Cosh(w, t)) == SIGN_POS
  {
  }

  /** `hf_cosh` is even for every input: cosh(-x) == cosh(x). */
  lemma CoshEven(w: Word, t: Tables)
    requires ValidTables(t)
    ensures Cosh(Neg(w), t) == Cosh(w, t)
  {
    var a := Decompose(w);
    DecomposeNeg(w);
    CoshResultSign(a, Flip(a.sign), t);
  }

  lemma CoshResultSign(a: HalfFloat, s: Word, t: Tables)
    requires Decoded(a) && ValidSign(s) && ValidTables(t)
    ensures CoshResult(a.(sign := s), t) == CoshResult(a, t)
  {
    if !IsNaN(a) && !IsInfinity(a) {
      assert Fixed(a.(sign := s)) == Fixed(a);
    }
  }

  /** cosh(+-0) == 1.0 exactly. */
  lemma CoshOfZero(t: Tables)
    requires ValidTables(t)
    ensures Cosh(ZERO_POS, t) == ONE_POS && Cosh(ZERO_NEG, t) == ONE_POS
  {
    var a := Decompose(ZERO_POS);
    assert Fixed(a) == 0;
    CoshAtZero(t);
    assert CoshResult(a, t) == One();
    ComposedUnit(One());
    CoshEven(ZERO_POS, t);
  }

  lemma CoshAtZero(t: Tables)
    requires ValidTables(t)
    ensures CoshFinite(0, t) == HalfFloat(SIGN_POS, 0, MANT_NORM_MIN)
  {
    CoshSinhAtZero(HalfFloat(SIGN_POS, EXP_FULL, 0), t);
    var h := HalfFloat(SIGN_POS, 0, MANT_NORM_MIN);
    assert Halved(h, 2 * MANT_NORM_MIN) == h;
    NormalizedExact(h);
  }

  /** `hf_tanh` */
  function Tanh(w: Word, t: Tables): Word
    requires ValidTables(t)
  {
    Composed(TanhResult(Decompose(w), t))
  }

  /**
   * The record `hf_tanh` hands to `compose_half`: a NaN keeps its sign, an
   * infinity gives 1.0 with its sign, and otherwise the Q15 quotient of
   * sinh and cosh.
   */
  function TanhResult(a: HalfFloat, t: Tables): (r: HalfFloat)
    requires Decoded(a) && ValidTables(t)
    ensures ValidSign(r.sign) && r.mant >= 0
  {
    if IsNaN(a) then HalfFloat(a.sign, EXP_FULL, 1)
    else if IsInfinity(a) then HalfFloat(a.sign, 0, MANT_NORM_MIN)
    else TanhFinite(Fixed(a), a.sign, t)
  }

  /**
   * The arithmetic path of `hf_tanh`: sinh with the input's sign over cosh,
   * both unhalved, guarded against a zero cosh (mantissa 1 in the helper's
   * record).
   */
  function TanhFinite(xAbs: int, s: Word, t: Tables): (r: HalfFloat)
    requires 0 <= xAbs && ValidSign(s) && ValidTables(t)
    ensures ValidSign(r.sign) && r.mant >= 0
  {
    var (e, pos, neg) := CoshSinh(xAbs, HalfFloat(s, EXP_FULL, 0), t);
    TanhOfParts(e, pos, neg, s)
  }

  /** The quotient step of `hf_tanh` on the helper's record and the two aligned mantissas. */
  function TanhOfParts(e: HalfFloat, pos: int, neg: int, s: Word): (r: HalfFloat)
    requires ValidSign(s) && ValidSign(e.sign) && e.mant >= 0
    ensures ValidSign(r.sign) && r.mant >= 0
  {
    var cosh := pos + neg;
    if cosh == 0 then e.(mant := 1)
    else NormalizedRounded(TanhQuotient(SignedSinh(pos, neg, s), cosh))
  }

  /** The helper's sinh mantissa, `pos - neg`, negated for a negative input. */
  function SignedSinh(pos: int, neg: int, s: Word): (d: int)
    ensures pos >= neg && s == SIGN_POS ==> d >= 0
  {
    if s != SIGN_POS then -(pos - neg) else pos - neg
  }

  /**
   * `(sinh << 15) / cosh`, truncated toward zero: its sign (a zero quotient
   * is positive) and its magnitude capped at 1.0, with exponent 0.
   */
  function TanhQuotient(sinh: int, cosh: int): (r: HalfFloat)
    requires cosh != 0
    ensures ValidSign(r.sign) && r.exp == 0 && 0 <= r.mant <= MANT_NORM_MIN
    ensures r.sign == SIGN_NEG <==> CDiv(sinh * 0x8000, cosh) < 0
  {
    var q := CDiv(sinh * 0x8000, cosh);
    var m := if q < 0 then -q else q;
    HalfFloat(if q < 0 then SIGN_NEG else SIGN_POS, 0, if m > MANT_NORM_MIN then MANT_NORM_MIN else m)
  }

  /** `hf_tanh`: a NaN keeps its sign, and +-infinity gives +-1.0. */
  lemma TanhSpecial(w: Word, t: Tables)
    requires ValidTables(t)
    ensures IsNaN(Decompose(w)) ==> Tanh(w, t) == QuietNaN(SignBit(w))
    ensures IsInfinity(Decompose(w)) ==> Tanh(w, t) == SignBit(w) + ONE_POS
  {
    var a := Decompose(w);
    if IsInfinity(a) {
      ComposedUnit(TanhResult(a, t));
    }
  }

  /**
   * For a finite input the quotient is a magnitude of at most 1.0, so the
   * rounded record stays at most 1.0: below exponent 0, or exactly 0 or
   * 1.0 at exponent 0.
   */
  lemma TanhFiniteAtMostOne(xAbs: int, s: Word, t: Tables)
    requires 0 <= xAbs && ValidSign(s) && ValidTables(t)
    ensures var r := TanhFinite(xAbs, s, t);
      && r.mant % 32 == 0 && (r.mant == 0 || MANT_NORM_MIN <= r.mant < MANT_OVERFLOW)
      && (r.exp < 0 || (r.exp == 0 && (r.mant == 0 || r.mant == MANT_NORM_MIN)))
  {
    var (e, pos, neg) := CoshSinh(xAbs, HalfFloat(s, EXP_FULL, 0), t);
    TanhPartsAtMostOne(e, pos, neg, s);
  }

  lemma TanhPartsAtMostOne(e: HalfFloat, pos: int, neg: int, s: Word)
    requires ValidSign(s) && ValidSign(e.sign) && e.mant >= 0 && pos + neg > 0
    ensures var r := TanhOfParts(e, pos, neg, s);
      && r.mant % 32 == 0 && (r.mant == 0 || MANT_NORM_MIN <= r.mant < MANT_OVERFLOW)
      && (r.exp < 0 || (r.exp == 0 && (r.mant == 0 || r.mant == MANT_NORM_MIN)))
  {
    NormalizedAtMostOne(TanhQuotient(SignedSinh(pos, neg, s), pos + neg));
  }

  /** |tanh(x)| <= 1.0 for every input but a NaN. */
  lemma TanhBounded(w: Word, t: Tables)
    requires ValidTables(t)
    requires !IsNaN(Decompose(w))
    ensures Arith.Abs(Tanh(w, t)) <= ONE_POS
  {
    var a := Decompose(w);
    if !IsInfinity(a) {
      TanhFiniteAtMostOne(Fixed(a), a.sign, t);
    }
    AtMostOneComposed(TanhResult(a, t));
  }

  /** The magnitude of a packed word is its exponent and fraction fields. */
  lemma AbsOfPack(s: Word, e: int, f: int)
    requires ValidSign(s) && 0 <= e < 32 && 0 <= f < 1024
    ensures Arith.Abs(Pack(s, e, f)) == e * 1024 + f
  {
  }

  /** A rounded record of magnitude at most 1.0 composes to a word of magnitude at most 0x3C00. */
  lemma AtMostOneComposed(r: HalfFloat)
    requires ValidSign(r.sign) && r.mant % 32 == 0
    requires r.mant == 0 || MANT_NORM_MIN <= r.mant < MANT_OVERFLOW
    requires r.exp < 0 || (r.exp == 0 && (r.mant == 0 || r.mant == MANT_NORM_MIN))
    ensures Arith.Abs(Composed(r)) <= ONE_POS
  {
    if r.mant == 0 {
      ComposeZeroMantissa(r);
      AbsOfPack(r.sign, 0, 0);
    } else if r.exp < -14 {
      AbsOfPack(r.sign, 0, 0);
    } else if r.exp == 0 {
      ComposedUnit(r);
      AbsOfPack(r.sign, EXP_BIAS, 0);
    } else {
      BelowOneComposed(r);
    }
  }

  lemma BelowOneComposed(r: HalfFloat)
    requires ValidSign(r.sign) && MANT_NORM_MIN <= r.mant < MANT_OVERFLOW && -14 <= r.exp < 0
    ensures Arith.Abs(Composed(r)) < ONE_POS
  {
    ComposedNormal(r);
    var e := if r.exp == -14 then 0 else r.exp + EXP_BIAS;
    AbsOfPack(r.sign, e, r.mant / 32 % 1024);
  }

  /**
   * The arithmetic path of `hf_tanh` is odd except where the quotient
   * truncates to zero: the positive path has the positive sign, and the
   * negative one is its negation, or the same +0.
   */
  lemma TanhFiniteOdd(xAbs: int, t: Tables)
    requires 0 <= xAbs && ValidTables(t)
    ensures var p := TanhFinite(xAbs, SIGN_POS, t);
      && p.sign == SIGN_POS
      && (p.mant == 0 ==> TanhFinite(xAbs, SIGN_NEG, t) == p && p.exp == 0)
      && (p.mant != 0 ==> TanhFinite(xAbs, SIGN_NEG, t) == p.(sign := SIGN_NEG))
  {
    CoshSinhSign(xAbs, SIGN_NEG, t);
    var (e, pos, neg) := CoshSinh(xAbs, HalfFloat(SIGN_POS, EXP_FULL, 0), t);
    TanhPartsOdd(e, e.(sign := SIGN_NEG), pos, neg);
  }

  lemma TanhPartsOdd(e: HalfFloat, e': HalfFloat, pos: int, neg: int)
    requires ValidSign(e.sign) && e.mant >= 0 && ValidSign(e'.sign) && e'.mant >= 0
    requires 0 <= neg <= pos && pos > 0
    ensures var p := TanhOfParts(e, pos, neg, SIGN_POS);
      && p.sign == SIGN_POS
      && (p.mant == 0 ==> TanhOfParts(e', pos, neg, SIGN_NEG) == p && p.exp == 0)
      && (p.mant != 0 ==> TanhOfParts(e', pos, neg, SIGN_NEG) == p.(sign := SIGN_NEG))
  {
    TanhQuotientOdd(SignedSinh(pos, neg, SIGN_POS), SignedSinh(pos, neg, SIGN_NEG), pos + neg);
    var hp := TanhQuotient(SignedSinh(pos, neg, SIGN_POS), pos + neg);
    assert TanhOfParts(e, pos, neg, SIGN_POS) == NormalizedRounded(hp);
    assert TanhOfParts(e', pos, neg, SIGN_NEG) == NormalizedRounded(TanhQuotient(SignedSinh(pos, neg, SIGN_NEG), pos + neg));
    if hp.mant != 0 {
      NormalizedSign(hp, SIGN_NEG);
    }
  }

  /**
   * A non-negative sinh gives a positive quotient and its negation the same
   * magnitude with the negative sign, unless the magnitude is 0; then both
   * are +0.
   */
  lemma TanhQuotientOdd(d: int, d': int, c: int)
    requires d >= 0 && d' == -d && c > 0
    ensures TanhQuotient(d, c).sign == SIGN_POS
    ensures TanhQuotient(d', c) ==
      if TanhQuotient(d, c).mant == 0 then TanhQuotient(d, c) else TanhQuotient(d, c).(sign := SIGN_NEG)
  {
    assert -d * 0x8000 == -(d * 0x8000);
  }

  /**
   * `hf_tanh` is odd except where the quotient truncates to zero: then both
   * x and -x give +0, since a zero quotient takes the positive sign.
   */
  lemma TanhOdd(w: Word, t: Tables)
    requires ValidTables(t)
    ensures Tanh(Neg(w), t) == Neg(Tanh(w, t)) || (Tanh(w, t) == ZERO_POS && Tanh(Neg(w), t) == ZERO_POS)
  {
    var a := Decompose(w);
    var s := Flip(a.sign);
    DecomposeNeg(w);
    NegAbsLaws(Tanh(w, t));
    if IsNaN(a) || IsInfinity(a) {
      assert TanhResult(a.(sign := s), t) == TanhResult(a, t).(sign := s);
      ComposedNeg(TanhResult(a, t));
    } else {
      var x := Fixed(a);
      assert Fixed(a.(sign := s)) == x;
      TanhFiniteOdd(x, t);
      var p := TanhFinite(x, SIGN_POS, t);
      if p.mant == 0 {
        ComposeZeroMantissa(p);
      } else {
        ComposedNeg(p);
        NegAbsLaws(Composed(p));
      }
    }
  }

  /** tanh(-0) is +0, not -0: the zero quotient takes the positive sign. */
  lemma TanhNegativeZero(t: Tables)
    requires ValidTables(t)
    ensures Tanh(ZERO_NEG, t) == ZERO_POS
  {
    var a := Decompose(ZERO_NEG);
    assert Fixed(a) == 0;
    CoshSinhAtZero(HalfFloat(SIGN_NEG, EXP_FULL, 0), t);
    var h := TanhQuotient(0, 2 * MANT_NORM_MIN);
    assert h == HalfFloat(SIGN_POS, 0, 0);
    assert TanhFinite(0, SIGN_NEG, t) == NormalizedRounded(h);
    ComposeZeroMantissa(NormalizedRounded(h));
  }

  // ------------------------------------------ hf_asinh, hf_acosh and hf_atanh

  /** `hf_asinh` */
  function Asinh(w: Word, t: Tables): Word
    requires ValidTables(t)
  {
    Composed(AsinhResult(w, t))
  }

  /**
   * The record `hf_asinh` hands to `compose_half`: a NaN keeps its sign, an
   * infinity and a zero are kept, and otherwise the decoded
   * ln(|x| + sqrt(x^2 + 1)), computed with the word operations, with the
   * input's sign.
   */
  function AsinhResult(w: Word, t: Tables): (r: HalfFloat)
    requires ValidTables(t)
    ensures ValidSign(r.sign) && r.mant >= 0 && r.sign == SignBit(w)
  {
    var a := Decompose(w);
    if IsNaN(a) then HalfFloat(a.sign, EXP_FULL, 1)
    else if IsInfinity(a) then HalfFloat(a.sign, EXP_FULL, 0)
    else if !IsZero(a) then Decompose(AsinhMagnitude(Arith.Abs(w), t)).(sign := a.sign)
    else HalfFloat(a.sign, 0, 0)
  }

  /** ln(|x| + sqrt(|x| * |x| + 1.0)) with `hf_mul`, `hf_add`, `hf_sqrt` and `hf_ln`. */
  function AsinhMagnitude(absx: Word, t: Tables): Word
    requires ValidTables(t)
  {
    Ln(Add(absx, Sqrt(Add(Mul(absx, absx), ONE_POS))), t)
  }

  /** `hf_asinh`: a NaN keeps its sign, and the infinities and zeros are returned unchanged. */
  lemma AsinhSpecial(w: Word, t: Tables)
    requires ValidTables(t)
    ensures IsNaN(Decompose(w)) ==> Asinh(w, t) == QuietNaN(SignBit(w))
    ensures IsInfinity(Decompose(w)) || IsZero(Decompose(w)) ==> Asinh(w, t) == w
  {
    var a := Decompose(w);
    if IsInfinity(a) {
      PackFields(w);
    } else if IsZero(a) {
      DecomposeZero(w);
      ComposeZeroMantissa(AsinhResult(w, t));
    }
  }

  /** `hf_asinh` is odd for every input: it only uses |x| and puts the sign back. */
  lemma AsinhOdd(w: Word, t: Tables)
    requires ValidTables(t)
    ensures Asinh(Neg(w), t) == Neg(Asinh(w, t))
  {
    var a := Decompose(w);
    DecomposeNeg(w);
    NegAbsLaws(w);
    var r := AsinhResult(w, t);
    assert AsinhResult(Neg(w), t) == r.(sign := Flip(r.sign));
    ComposedNeg(r);
  }

  /** `hf_acosh` */
  function Acosh(w: Word, t: Tables): Word
    requires ValidTables(t)
  {
    Composed(AcoshResult(w, t))
  }

  /**
   * The record `hf_acosh` hands to `compose_half`: a NaN keeps its sign,
   * -infinity gives the NaN with the sign bit set, +infinity is kept, a
   * value below 1.0 by `hf_cmp` gives the positive NaN, and otherwise the
   * decoded ln(x + sqrt(x * x - 1.0)).
   */
  function AcoshResult(w: Word, t: Tables): (r: HalfFloat)
    requires ValidTables(t)
    ensures ValidSign(r.sign) && r.mant >= 0
  {
    var a := Decompose(w);
    if IsNaN(a) then HalfFloat(a.sign, EXP_FULL, 1)
    else if IsInfinity(a) then
      (if a.sign != SIGN_POS then HalfFloat(SIGN_NEG, EXP_FULL, 1) else HalfFloat(SIGN_POS, EXP_FULL, 0))
    else if Cmp(w, ONE_POS) < 0 then HalfFloat(SIGN_POS, EXP_FULL, 1)
    else Decompose(AcoshValue(w, t))
  }

  /** ln(x + sqrt(x * x - 1.0)) with `hf_mul`, `hf_sub`, `hf_sqrt`, `hf_add` and `hf_ln`. */
  function AcoshValue(w: Word, t: Tables): Word
    requires ValidTables(t)
  {
    Ln(Add(w, Sqrt(Sub(Mul(w, w), ONE_POS))), t)
  }

  /** `hf_acosh`: a NaN keeps its sign, -infinity gives 0xFE00 and +infinity is kept. */
  lemma AcoshSpecial(w: Word, t: Tables)
    requires ValidTables(t)
    ensures IsNaN(Decompose(w)) ==> Acosh(w, t) == QuietNaN(SignBit(w))
    ensures w == INFINITY_NEG ==> Acosh(w, t) == 0xFE00
    ensures w == INFINITY_POS ==> Acosh(w, t) == INFINITY_POS
  {
    var a := Decompose(w);
    DecomposeClasses(w);
    if IsNaN(a) {
      assert AcoshResult(w, t) == HalfFloat(a.sign, EXP_FULL, 1);
    } else if w == INFINITY_NEG {
      assert IsInfinity(a) && a.sign == SIGN_NEG;
      assert AcoshResult(w, t) == HalfFloat(SIGN_NEG, EXP_FULL, 1);
    } else if w == INFINITY_POS {
      assert IsInfinity(a) && a.sign == SIGN_POS;
      assert AcoshResult(w, t) == HalfFloat(SIGN_POS, EXP_FULL, 0);
    }
  }

  /**
   * Below the domain: every finite negative input (-0 included) and every
   * positive one below 1.0 gives the positive quiet NaN.
   */
  lemma AcoshBelowOne(w: Word, t: Tables)
    requires ValidTables(t)
    requires ExpField(w) != 31 && (SignBit(w) == SIGN_NEG || w < ONE_POS)
    ensures Acosh(w, t) == NAN
  {
    OneFields(ONE_POS);
    if SignBit(w) == SIGN_NEG {
      CmpMixedSigns(w, ONE_POS);
    } else {
      CmpNonNegative(w, ONE_POS);
    }
  }

  /** acosh(1) == +0: every step of the composition is exact there. */
  lemma AcoshOne(t: Tables)
    requires ValidTables(t)
    ensures Acosh(ONE_POS, t) == ZERO_POS
  {
    var w := ONE_POS;
    OneFields(w);
    assert !IsNaN(Decompose(w)) && !IsInfinity(Decompose(w));
    assert Cmp(w, ONE_POS) == 0;
    AcoshValueOne(w, t);
    assert AcoshResult(w, t) == Decompose(ZERO_POS);
    ComposeDecompose(ZERO_POS);
  }

  lemma AcoshValueOne(w: Word, t: Tables)
    requires w == ONE_POS && ValidTables(t)
    ensures AcoshValue(w, t) == ZERO_POS
  {
    MulOneIdentity(w, w);
    SubSelf(w);
    var z := Sub(Mul(w, w), ONE_POS);
    assert z == ZERO_POS;
    SqrtSpecial(z);
    DecomposeZero(z);
    AddZeroIdentity(w, z);
    LnOfOne(w, t);
  }

  /** `hf_atanh` */
  function Atanh(w: Word, t: Tables): Word
    requires ValidTables(t)
  {
    Composed(AtanhResult(w, t))
  }

  /**
   * The record `hf_atanh` hands to `compose_half`: a NaN keeps its sign, an
   * infinity gives the NaN with the sign bit set, +-1.0 gives +-infinity, a
   * magnitude above 1.0 by `hf_cmp` the positive NaN, a subnormal or zero
   * is passed through, and otherwise the decoded 0.5 * ln((1 + x) / (1 - x)).
   */
  function AtanhResult(w: Word, t: Tables): (r: HalfFloat)
    requires ValidTables(t)
    ensures ValidSign(r.sign) && r.mant >= 0
  {
    var a := Decompose(w);
    if IsNaN(a) then HalfFloat(a.sign, EXP_FULL, 1)
    else if IsInfinity(a) then HalfFloat(SIGN_NEG, EXP_FULL, 1)
    else if Arith.Abs(w) == ONE_POS then HalfFloat(a.sign, EXP_FULL, 0)
    else if Cmp(Arith.Abs(w), ONE_POS) > 0 then HalfFloat(SIGN_POS, EXP_FULL, 1)
    else if IsSubnormal(a) then a
    else Decompose(AtanhValue(w, t))
  }

  /** `float_to_half(0.5f)`: the binary32 pattern 0x3F000000. */
  const HALF_FLOAT_BITS: Bits32 := 0x3F00_0000

  /** 0.5 * ln((1 + x) / (1 - x)) with `hf_add`, `hf_sub`, `hf_div`, `hf_ln` and `hf_mul`. */
  function AtanhValue(w: Word, t: Tables): Word
    requires ValidTables(t)
  {
    Mul(FloatToHalf(HALF_FLOAT_BITS), Ln(Div(Add(ONE_POS, w), Sub(ONE_POS, w)), t))
  }

  /** `float_to_half(0.5f)` is 0x3800, one half. */
  lemma HalfWord(f: Bits32)
    requires f == HALF_FLOAT_BITS
    ensures FloatToHalf(f) == 0x3800
  {
    assert FloatSign(f) == 0 by { assert f / 0x8000_0000 == 0; }
    assert FloatExpField(f) == 126 by { assert f / 0x80_0000 == 126; }
    assert FloatFrac(f) == 0 by { assert f == 126 * 0x80_0000; }
    var w := FloatToHalf(f);
    FloatToHalfTruncates(f);
    PackFields(w);
  }

  /**
   * Where `is_subnormal` is read without the zeros, +-0 takes the arithmetic
   * path of `hf_atanh`: 1 + x and 1 - x are 1.0, their quotient is 1.0, its
   * logarithm +0 and half of that +0, so atanh(-0) would be +0, not -0.
   */
  lemma AtanhValueAtZero(w: Word, t: Tables)
    requires ValidTables(t) && (w == ZERO_POS || w == ZERO_NEG)
    ensures AtanhValue(w, t) == ZERO_POS
  {
    var q := Div(Add(ONE_POS, w), Sub(ONE_POS, w));
    QuotientAtZero(w);
    LnOfOne(q, t);
    HalfWord(HALF_FLOAT_BITS);
    HalfTimesZero(0x3800, ZERO_POS);
  }

  /** (1 + x) / (1 - x) is exactly 1.0 at both zeros. */
  lemma QuotientAtZero(w: Word)
    requires w == ZERO_POS || w == ZERO_NEG
    ensures Div(Add(ONE_POS, w), Sub(ONE_POS, w)) == ONE_POS
  {
    OneFields(ONE_POS);
    OnePlusZero(w);
    OnePlusZero(Neg(w));
    DivSelf(ONE_POS);
  }

  lemma OnePlusZero(w: Word)
    requires w == ZERO_POS || w == ZERO_NEG
    ensures Neg(w) == ZERO_POS || Neg(w) == ZERO_NEG
    ensures Add(ONE_POS, w) == ONE_POS
  {
    assert Neg(w) == if w == ZERO_NEG then ZERO_POS else ZERO_NEG;
    assert ExpField(ONE_POS) == 15;
    AddZeroIdentity(ONE_POS, w);
  }

  /** 0.5 * +0 is +0. */
  lemma HalfTimesZero(h: Word, z: Word)
    requires h == 0x3800 && z == ZERO_POS
    ensures Mul(h, z) == z
  {
    assert ExpField(h) == 14 && FracField(h) == 0;
    DecomposeClasses(h);
    DecomposeZero(h);
    DecomposeZero(z);
    MulSpecial(h, z);
  }

  /** `hf_atanh` of a NaN keeps its sign, and of an infinity is 0xFE00. */
  lemma AtanhNonFinite(w: Word, t: Tables)
    requires ValidTables(t)
    ensures IsNaN(Decompose(w)) ==> Atanh(w, t) == QuietNaN(SignBit(w))
    ensures IsInfinity(Decompose(w)) ==> Atanh(w, t) == 0xFE00
  {
    var a := Decompose(w);
    if IsNaN(a) {
      assert AtanhResult(w, t) == HalfFloat(a.sign, EXP_FULL, 1);
    } else if IsInfinity(a) {
      assert AtanhResult(w, t) == HalfFloat(SIGN_NEG, EXP_FULL, 1);
    }
  }

  /** `hf_atanh(+-1.0)` is the infinity of that sign. */
  lemma AtanhUnit(w: Word, t: Tables)
    requires ValidTables(t) && Arith.Abs(w) == ONE_POS
    ensures Atanh(w, t) == SignBit(w) + INFINITY_POS
  {
    var a := Decompose(w);
    OneFields(ONE_POS);
    assert ExpField(w) == 15;
    assert AtanhResult(w, t) == HalfFloat(a.sign, EXP_FULL, 0);
  }

  /** A finite magnitude above 1.0 gives the positive NaN. */
  lemma AtanhOutside(w: Word, t: Tables)
    requires ValidTables(t) && ExpField(w) != 31 && Arith.Abs(w) > ONE_POS
    ensures Atanh(w, t) == NAN
  {
    OneFields(ONE_POS);
    CmpNonNegative(Arith.Abs(w), ONE_POS);
    assert AtanhResult(w, t) == HalfFloat(SIGN_POS, EXP_FULL, 1);
  }

  /** A zero or subnormal argument is decoded and composed back, which flushes it to a signed zero. */
  lemma AtanhSubnormal(w: Word, t: Tables)
    requires ValidTables(t) && ExpField(w) == 0
    ensures Atanh(w, t) == SignBit(w)
  {
    var a := Decompose(w);
    OneFields(ONE_POS);
    CmpNonNegative(Arith.Abs(w), ONE_POS);
    PackFields(Arith.Abs(w));
    assert AtanhResult(w, t) == a;
  }
}
