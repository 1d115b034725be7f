/**
 * The binary16 codec and normalisation engine of halffloat/hf_common.c.
 *
 * A half-precision word has the sign in bit 15, a 5-bit biased exponent in
 * bits 14..10 and a 10-bit fraction in bits 9..0.  The library works on an
 * unpacked record whose `sign` is 0 or 0x8000, whose `exp` is the unbiased
 * exponent (-15 for zeros and subnormals, 16 for infinities and NaNs) and
 * whose `mant` is the fraction shifted left by five guard bits, plus the
 * implicit bit 1 << 15 for normal numbers.
 */
module HalfCommon {
  import opened CInt

  const SIGN_MASK: Word := 0x8000
  const INFINITY_POS: Word := 0x7C00
  const INFINITY_NEG: Word := 0xFC00
  const NAN: Word := 0x7E00
  const ZERO_POS: Word := 0x0000
  const ZERO_NEG: Word := 0x8000
  const ONE_POS: Word := 0x3C00
  const SIGN_POS: Word := 0
  const SIGN_NEG: Word := 0x8000

  const EXP_BIAS: int := 15
  const EXP_FULL: int := 16
  const EXP_MIN: int := -15
  /** `1 << 15`: the implicit bit of a normal mantissa. */
  const MANT_NORM_MIN: int := 0x8000
  /** `1 << 16`: the first mantissa that needs a right shift. */
  const MANT_OVERFLOW: int := 0x1_0000

  /** The unpacked form `half_float` of hf_common.h. */
  datatype HalfFloat = HalfFloat(sign: Word, exp: int, mant: int)

  predicate ValidSign(s: Word) {
    s == SIGN_POS || s == SIGN_NEG
  }

  /** The sign opposite to `s`. */
  function Flip(s: Word): (r: Word)
    requires ValidSign(s)
    ensures ValidSign(r) && r != s
  {
    if s == SIGN_POS then SIGN_NEG else SIGN_POS
  }

  /** `w & 0x8000` */
  function SignBit(w: Word): (s: Word)
    ensures ValidSign(s) && (s == SIGN_NEG <==> w >= 0x8000)
  {
    w / 0x8000 * 0x8000
  }

  /** The biased exponent field `(w >> 10) & 0x1F`. */
  function ExpField(w: Word): (e: int)
    ensures 0 <= e < 32
  {
    w / 1024 % 32
  }

  /** The fraction field `w & 0x3FF`. */
  function FracField(w: Word): (f: int)
    ensures 0 <= f < 1024
  {
    w % 1024
  }

  /** `s | (e << 10) | f`: the three fields do not overlap, so `|` adds. */
  function Pack(s: Word, e: int, f: int): Word
    requires ValidSign(s) && 0 <= e < 32 && 0 <= f < 1024
  {
    s + e * 1024 + f
  }

  /** The three fields read back from a packed word. */
  lemma PackFieldValues(s: Word, e: int, f: int)
    requires ValidSign(s) && 0 <= e < 32 && 0 <= f < 1024
    ensures var w := Pack(s, e, f); SignBit(w) == s && ExpField(w) == e && FracField(w) == f
  {
  }

  /** Every word is the packing of its own fields. */
  lemma PackFields(w: Word)
    ensures w == Pack(SignBit(w), ExpField(w), FracField(w))
  {
  }

  predicate IsInfinity(h: HalfFloat) {
    h.exp == EXP_FULL && h.mant == 0
  }

  predicate IsNaN(h: HalfFloat) {
    h.exp == EXP_FULL && h.mant != 0
  }

  predicate IsZero(h: HalfFloat) {
    h.exp == -EXP_BIAS && h.mant == 0
  }

  /**
   * `decompose_half`: every word unpacks to a record with a proper sign,
   * an exponent in [-15, 16] and a mantissa with clear guard bits that
   * carries the implicit bit exactly for the normal exponents.
   */
  function Decompose(w: Word): (h: HalfFloat)
    ensures ValidSign(h.sign) && (h.sign == SIGN_NEG <==> w >= 0x8000)
    ensures h.exp == ExpField(w) - EXP_BIAS
    ensures 0 <= h.mant < MANT_OVERFLOW && h.mant % 32 == 0
    ensures h.mant >= MANT_NORM_MIN <==> -EXP_BIAS < h.exp < EXP_FULL
    ensures h.mant % 0x8000 == FracField(w) * 32
  {
    var exp := ExpField(w) - EXP_BIAS;
    var mant := FracField(w) * 32;
    // The shifted fraction is below 1 << 15, so `|=` of the implicit bit adds it.
    HalfFloat(SignBit(w), exp, if -EXP_BIAS < exp < EXP_FULL then mant + MANT_NORM_MIN else mant)
  }

  /** `while (mant >= 1 << 16) { mant >>= 1; exp++; }` */
  function ShiftDown(h: HalfFloat): (r: HalfFloat)
    requires h.mant >= 0
    ensures r.sign == h.sign && 0 <= r.mant < MANT_OVERFLOW
    ensures r.exp >= h.exp && r.mant <= h.mant
    ensures h.mant < MANT_OVERFLOW ==> r == h
    ensures h.mant >= MANT_NORM_MIN ==> r.mant >= MANT_NORM_MIN
    decreases h.mant
  {
    if h.mant >= MANT_OVERFLOW then
      ShiftDown(h.(mant := h.mant / 2, exp := h.exp + 1))
    else
      h
  }

  /** `while (mant < 1 << 15) { mant <<= 1; exp--; }` for a non-zero mantissa. */
  function ShiftUp(h: HalfFloat): (r: HalfFloat)
    requires h.mant > 0
    ensures r.sign == h.sign && r.mant >= MANT_NORM_MIN
    ensures r.exp <= h.exp && r.mant == h.mant * Pow2(h.exp - r.exp)
    ensures h.mant < MANT_OVERFLOW ==> r.mant < MANT_OVERFLOW
    ensures h.mant >= MANT_NORM_MIN ==> r == h
    decreases MANT_NORM_MIN - h.mant
  {
    if h.mant < MANT_NORM_MIN then
      var r := ShiftUp(h.(mant := h.mant * 2, exp := h.exp - 1));
      ShiftUpStep(h.mant, h.exp - r.exp);
      r
    else
      h
  }

  lemma ShiftUpStep(m: int, k: nat)
    requires k >= 1
    ensures m * 2 * Pow2(k - 1) == m * Pow2(k)
  {
  }

  /** `while (mant < 1 << 15 && exp > -14) { mant <<= 1; exp--; }` */
  function ShiftUpBounded(h: HalfFloat): (r: HalfFloat)
    requires h.mant >= 0
    ensures r.sign == h.sign && r.exp <= h.exp
    ensures h.mant == 0 ==> r.mant == 0
    ensures h.exp >= -14 ==> r.exp >= -14
    ensures r.mant >= MANT_NORM_MIN || r.exp <= -14
    ensures h.mant < MANT_OVERFLOW ==> r.mant < MANT_OVERFLOW
    ensures h.mant >= MANT_NORM_MIN ==> r == h
    decreases h.exp + 14
  {
    if h.mant < MANT_NORM_MIN && h.exp > -14 then
      ShiftUpBounded(h.(mant := h.mant * 2, exp := h.exp - 1))
    else
      h
  }

  /** `compose_half`: packs a record into a word. */
  function Composed(h: HalfFloat): (w: Word)
    requires ValidSign(h.sign) && h.mant >= 0
    ensures SignBit(w) == h.sign
    ensures h.exp == EXP_FULL ==> w - h.sign == (if h.mant != 0 then NAN else INFINITY_POS)
    ensures h.exp < -14 ==> w == h.sign
  {
    if h.exp == EXP_FULL then
      h.sign + (if h.mant != 0 then NAN else INFINITY_POS)
    else if h.exp < -14 || (h.exp == -14 && h.mant == 0) then
      h.sign
    else
      PackRounded(h.sign, ShiftUpBounded(ShiftDown(h)))
  }

  /**
   * The last step of `compose_half`, on the record `n` left by the two
   * shift loops: an exponent above 15 gives the infinity with sign `s`,
   * one below -14 the zero with sign `s`, and any other the packed fields
   * (exponent -14 packs as field 0).
   */
  function PackRounded(s: Word, n: HalfFloat): (w: Word)
    requires ValidSign(s)
    ensures w >= 0x8000 <==> s == SIGN_NEG
    ensures n.exp > EXP_BIAS ==> w == s + INFINITY_POS
    ensures n.exp < -14 ==> w == s
  {
    if n.exp > EXP_BIAS then
      s + INFINITY_POS
    else if n.exp < -14 then
      s
    else
      var expBits := if n.exp == -14 then 0 else (n.exp + EXP_BIAS) % 32;
      var mantBits := n.mant / 32 % 1024;
      Pack(s, expBits, mantBits)
  }

  /** `compose_half` as the source runs it: two shift loops on a local copy of the record. */
  method ComposeHalf(hf: HalfFloat) returns (result: Word)
    requires ValidSign(hf.sign) && hf.mant >= 0
    ensures result == Composed(hf)
  {
    if hf.exp == EXP_FULL {
      result := hf.sign + (if hf.mant != 0 then NAN else INFINITY_POS);
    } else if hf.exp < -14 || (hf.exp == -14 && hf.mant == 0) {
      result := hf.sign;
    } else {
      var h := ShiftDownLoop(hf);
      h := ShiftUpLoop(h);
      assert Composed(hf) == PackRounded(hf.sign, h);
      if h.exp > EXP_BIAS {
        result := hf.sign + INFINITY_POS;
      } else if h.exp < -14 {
        result := hf.sign;
      } else {
        var expBits := if h.exp == -14 then 0 else (h.exp + EXP_BIAS) % 32;
        var mantBits := h.mant / 32 % 1024;
        result := Pack(hf.sign, expBits, mantBits);
      }
    }
  }

  /** The first loop of `compose_half`: `while (mant >= 1 << 16) { mant >>= 1; exp++; }` */
  method ShiftDownLoop(hf: HalfFloat) returns (h: HalfFloat)
    requires hf.mant >= 0
    ensures h == ShiftDown(hf)
  {
    h := hf;
    while h.mant >= MANT_OVERFLOW
      invariant h.mant >= 0 && ShiftDown(h) == ShiftDown(hf)
      decreases h.mant
    {
      h := h.(mant := h.mant / 2, exp := h.exp + 1);
    }
  }

  /** The second loop of `compose_half`: `while (mant < 1 << 15 && exp > -14) { mant <<= 1; exp--; }` */
  method ShiftUpLoop(hf: HalfFloat) returns (h: HalfFloat)
    requires hf.mant >= 0
    ensures h == ShiftUpBounded(hf)
  {
    h := hf;
    while h.mant < MANT_NORM_MIN && h.exp > -14
      invariant h.mant >= 0 && ShiftUpBounded(h) == ShiftUpBounded(hf)
      decreases h.exp + 14
    {
      h := h.(mant := h.mant * 2, exp := h.exp - 1);
    }
  }

  /** The rounding decision of `normalize_and_round` on the low six bits of a mantissa. */
  predicate RoundUpBits(mant: int)
    requires mant >= 0
  {
    var roundSticky := mant % 16;
    mant / 16 % 2 == 1 && (roundSticky > 8 || (roundSticky == 8 && mant / 32 % 2 == 1))
  }

  /**
   * `normalize_and_round`: the mantissa is brought into [1 << 15, 1 << 16)
   * unless it is zero, rounded on its five guard bits, and an exponent of
   * 16 or more becomes infinity.  The result never has a guard bit set and
   * is zero, infinity or a normalised finite value; a zero mantissa keeps
   * its exponent (clamped at 16).
   */
  function NormalizedRounded(h: HalfFloat): (r: HalfFloat)
    requires h.mant >= 0
    ensures r.sign == h.sign && r.mant % 32 == 0 && r.exp <= EXP_FULL
    ensures r.mant == 0 || (MANT_NORM_MIN <= r.mant < MANT_OVERFLOW && r.exp < EXP_FULL)
    ensures h.mant == 0 ==> r.mant == 0 && r.exp == (if h.exp >= EXP_FULL then EXP_FULL else h.exp)
    ensures h.mant != 0 ==> (r.mant == 0 <==> r.exp == EXP_FULL)
  {
    var n := if h.mant != 0 then ShiftDown(ShiftUp(h)) else h;
    var rounded :=
      if RoundUpBits(n.mant) then
        if n.mant + 0x20 >= MANT_OVERFLOW then n.(mant := (n.mant + 0x20) / 2, exp := n.exp + 1)
        else n.(mant := n.mant + 0x20)
      else n;
    var clamped := if rounded.exp >= EXP_FULL then rounded.(exp := EXP_FULL, mant := 0) else rounded;
    // `mant &= 0xFFE0` on a mantissa below 1 << 16 clears the five guard bits.
    clamped.(mant := clamped.mant / 32 * 32)
  }

  /** `normalize_and_round` as the source runs it, updating the record step by step. */
  method NormalizeAndRound(hf: HalfFloat) returns (result: HalfFloat)
    requires hf.mant >= 0
    ensures result == NormalizedRounded(hf)
  {
    result := hf;
    if result.mant != 0 {
      while result.mant < MANT_NORM_MIN
        invariant result.mant > 0 && ShiftUp(result) == ShiftUp(hf)
        decreases MANT_NORM_MIN - result.mant
      {
        result := result.(mant := result.mant * 2, exp := result.exp - 1);
      }
      while result.mant >= MANT_OVERFLOW
        invariant result.mant >= 0 && ShiftDown(result) == ShiftDown(ShiftUp(hf))
        decreases result.mant
      {
        result := result.(mant := result.mant / 2, exp := result.exp + 1);
      }
    }
    if result.mant / 16 % 2 == 1 {
      var roundSticky := result.mant % 16;
      if roundSticky > 8 || (roundSticky == 8 && result.mant / 32 % 2 == 1) {
        result := result.(mant := result.mant + 0x20);
        if result.mant >= MANT_OVERFLOW {
          result := result.(mant := result.mant / 2, exp := result.exp + 1);
        }
      }
    }
    if result.exp >= EXP_FULL {
      result := result.(exp := EXP_FULL, mant := 0);
    }
    result := result.(mant := result.mant / 32 * 32);
  }

  /**
   * The rounding rule of `normalize_and_round` on an already normalised
   * finite mantissa, stated on the kept part `q` (mant >> 5) and the
   * discarded part `rem` (the five guard bits): it rounds up exactly when
   * the discarded part is more than 24/32 of a unit in the last place, or
   * exactly 24/32 with an odd kept part; a carry out of the top renormalises
   * to 1 << 15 with the exponent one higher.
   */
  lemma RoundingRule(h: HalfFloat)
    requires MANT_NORM_MIN <= h.mant < MANT_OVERFLOW && h.exp < EXP_BIAS
    ensures var q, rem := h.mant / 32, h.mant % 32;
      var up := rem > 24 || (rem == 24 && q % 2 == 1);
      NormalizedRounded(h) ==
        if !up then h.(mant := q * 32)
        else if q + 1 < 2048 then h.(mant := (q + 1) * 32)
        else h.(mant := MANT_NORM_MIN, exp := h.exp + 1)
  {
    var m := h.mant;
    var q, rem := m / 32, m % 32;
    assert ShiftDown(ShiftUp(h)) == h;
    assert m == q * 32 + rem;
    assert rem == m / 16 % 2 * 16 + m % 16;
    assert q % 2 == m / 32 % 2;
    assert RoundUpBits(m) <==> rem > 24 || (rem == 24 && q % 2 == 1);
    assert m + 0x20 >= MANT_OVERFLOW <==> q + 1 == 2048;
  }

  /**
   * Overflow in `normalize_and_round`: a normalised mantissa becomes
   * infinity (exponent 16, mantissa 0) with its sign exactly when its
   * exponent is 16 or more, or is 15 and rounding carries out of the top.
   */
  lemma NormalizedOverflow(h: HalfFloat)
    requires MANT_NORM_MIN <= h.mant < MANT_OVERFLOW
    ensures var q, rem := h.mant / 32, h.mant % 32;
      var carry := (rem > 24 || (rem == 24 && q % 2 == 1)) && q + 1 == 2048;
      NormalizedRounded(h) == HalfFloat(h.sign, EXP_FULL, 0) <==> h.exp >= EXP_FULL || (h.exp == EXP_BIAS && carry)
  {
    var m := h.mant;
    var q, rem := m / 32, m % 32;
    assert ShiftDown(ShiftUp(h)) == h;
    assert m == q * 32 + rem;
    assert rem == m / 16 % 2 * 16 + m % 16;
    assert q % 2 == m / 32 % 2;
    assert RoundUpBits(m) <==> rem > 24 || (rem == 24 && q % 2 == 1);
    assert m + 0x20 >= MANT_OVERFLOW <==> q + 1 == 2048;
  }

  /**
   * The mantissa is normalised before it is rounded: a record rounds as the
   * record with its mantissa shifted into [1 << 15, 1 << 16) does.
   */
  lemma NormalizedFirst(h: HalfFloat)
    requires h.mant > 0
    ensures var n := ShiftDown(ShiftUp(h));
      MANT_NORM_MIN <= n.mant < MANT_OVERFLOW && NormalizedRounded(h) == NormalizedRounded(n)
  {
    var n := ShiftDown(ShiftUp(h));
    assert ShiftUp(n) == n;
    assert ShiftDown(n) == n;
  }

  /**
   * The rounding rule is not round-to-nearest: a mantissa whose discarded
   * part is 20/32 of a unit, above one half, is rounded down.
   */
  lemma RoundingBelowThreeQuarters()
    ensures var h := HalfFloat(SIGN_POS, 0, MANT_NORM_MIN + 20);
      NormalizedRounded(h) == h.(mant := MANT_NORM_MIN)
  {
  }

  /** `lost` bits go into bit 0: the right shift by `shift` of `align_mantissas`. */
  function StickyShift(m: nat, shift: int): (r: nat)
    requires 1 <= shift <= 31
    ensures r <= m && (r == 0 <==> m == 0)
    ensures shift < 31 ==> r == m / Pow2(shift) || (r == m / Pow2(shift) + 1 && m % Pow2(shift) != 0)
    ensures shift == 31 ==> r <= 1
  {
    if shift < 31 then
      var lost := m % Pow2(shift);
      var kept := Shr(m, shift);
      DivPow2Bounds(m, shift);
      if lost != 0 then OrOne(kept) else kept
    else if m != 0 then 1 else 0
  }

  lemma DivPow2Bounds(m: nat, k: nat)
    requires k >= 1
    ensures m / Pow2(k) * 2 <= m
    ensures m / Pow2(k) == 0 ==> m % Pow2(k) == m
    ensures m % Pow2(k) == 0 && m / Pow2(k) == 0 ==> m == 0
  {
    DivAtLeastTwo(m, Pow2(k));
  }

  lemma DivAtLeastTwo(m: nat, p: nat)
    requires p >= 2
    ensures m / p * 2 <= m
    ensures m / p == 0 ==> m % p == m
    ensures m % p == 0 && m / p == 0 ==> m == 0
  {
    var q, r := m / p, m % p;
    assert m == q * p + r;
    MulLe(2, p, q);
  }

  /**
   * `align_mantissas`: the operand with the smaller exponent is shifted
   * right (keeping a sticky bit, shift capped at 31) and takes the larger
   * exponent; the other operand is untouched.
   */
  function AlignMantissas(a: HalfFloat, b: HalfFloat): (r: (HalfFloat, HalfFloat))
    requires a.mant >= 0 && b.mant >= 0
    ensures r.0.exp == r.1.exp == (if a.exp >= b.exp then a.exp else b.exp)
    ensures r.0.sign == a.sign && r.1.sign == b.sign
    ensures a.exp >= b.exp ==> r.0 == a
    ensures b.exp >= a.exp ==> r.1 == b
    ensures 0 <= r.0.mant <= a.mant && (r.0.mant == 0 <==> a.mant == 0)
    ensures 0 <= r.1.mant <= b.mant && (r.1.mant == 0 <==> b.mant == 0)
  {
    if a.exp > b.exp then
      var shift := if a.exp - b.exp > 31 then 31 else a.exp - b.exp;
      (a, b.(mant := StickyShift(b.mant, shift), exp := a.exp))
    else if b.exp > a.exp then
      var shift := if b.exp - a.exp > 31 then 31 else b.exp - a.exp;
      (a.(mant := StickyShift(a.mant, shift), exp := b.exp), b)
    else
      (a, b)
  }

  /**
   * `compose_half(decompose_half(w))`: the identity on every word with an
   * exponent field from 2 to 30 and on the infinities; a NaN comes back as
   * the canonical NaN with its sign.  Exponent field 1 loses its implicit
   * bit (compose writes field 0 for exponent -14) and every subnormal is
   * flushed to a signed zero (compose treats exponent -15 as too small).
   */
  lemma ComposeDecompose(w: Word)
    ensures var s, e, f := SignBit(w), ExpField(w), FracField(w);
      Composed(Decompose(w)) ==
        if e == 31 && f != 0 then s + NAN
        else if e >= 2 then w
        else if e == 1 then s + f
        else s
  {
    var h := Decompose(w);
    var e, f := ExpField(w), FracField(w);
    PackFields(w);
    if 1 <= e <= 30 {
      assert h.mant == (f + 1024) * 32;
      assert ShiftUpBounded(ShiftDown(h)) == h;
      assert h.mant / 32 % 1024 == f;
    }
  }

  /** `compose_half` of a record with a zero mantissa and a finite exponent is a signed zero. */
  lemma ComposeZeroMantissa(h: HalfFloat)
    requires ValidSign(h.sign) && h.mant == 0 && h.exp < EXP_FULL
    ensures Composed(h) == h.sign
  {
    if h.exp > -14 {
      var n := h.(exp := -14);
      assert ShiftDown(h) == h;
      ShiftUpZero(h);
      assert Composed(h) == PackRounded(h.sign, n);
      PackRoundedZero(h.sign, n);
    } else {
      assert h.exp < -14 || (h.exp == -14 && h.mant == 0);
    }
  }

  /** With a zero mantissa the second loop of `compose_half` only walks the exponent down to -14. */
  lemma {:induction false} ShiftUpZero(h: HalfFloat)
    requires h.mant == 0 && h.exp >= -14
    ensures ShiftUpBounded(h) == h.(exp := -14)
    decreases h.exp + 14
  {
    if h.exp > -14 {
      var next := h.(mant := h.mant * 2, exp := h.exp - 1);
      ShiftUpZero(next);
      assert next.(exp := -14) == h.(exp := -14);
    }
  }

  /** A zero mantissa at exponent -14 packs as the zero of its sign. */
  lemma PackRoundedZero(s: Word, n: HalfFloat)
    requires ValidSign(s) && n.mant == 0 && n.exp == -14
    ensures PackRounded(s, n) == s
  {
    assert n.mant / 32 % 1024 == 0;
  }

  /**
   * `normalize_and_round` and `compose_half` only carry the sign: the same
   * record with another sign gives the same result with that sign, so
   * every operation that builds its result from a magnitude and a sign is
   * odd in that sign.
   */
  lemma NormalizedSign(h: HalfFloat, s: Word)
    requires h.mant >= 0
    ensures NormalizedRounded(h.(sign := s)) == NormalizedRounded(h).(sign := s)
  {
    if h.mant != 0 {
      ShiftUpSign(h, s);
      ShiftDownSign(ShiftUp(h), s);
    }
  }

  lemma ComposedSign(h: HalfFloat, s: Word)
    requires ValidSign(h.sign) && ValidSign(s) && h.mant >= 0
    ensures Composed(h.(sign := s)) == s + Composed(h.(sign := SIGN_POS))
  {
    if h.exp != EXP_FULL && !(h.exp < -14 || (h.exp == -14 && h.mant == 0)) {
      ComposedSignRounded(h, s);
    }
  }

  /** `ComposedSign` where `compose_half` shifts and rounds. */
  lemma ComposedSignRounded(h: HalfFloat, s: Word)
    requires ValidSign(h.sign) && ValidSign(s) && h.mant >= 0
    requires h.exp != EXP_FULL && !(h.exp < -14 || (h.exp == -14 && h.mant == 0))
    ensures Composed(h.(sign := s)) == s + Composed(h.(sign := SIGN_POS))
  {
    var p, q := h.(sign := SIGN_POS), h.(sign := s);
    assert p.(sign := s) == q;
    ShiftDownSign(p, s);
    ShiftUpBoundedSign(ShiftDown(p), s);
    var n := ShiftUpBounded(ShiftDown(p));
    assert Composed(q) == PackRounded(s, n.(sign := s));
    assert Composed(p) == PackRounded(SIGN_POS, n);
    PackRoundedSign(s, n);
  }

  /** `PackRounded` reads only the exponent and mantissa of the record; the sign is added on top. */
  lemma PackRoundedSign(s: Word, n: HalfFloat)
    requires ValidSign(s)
    ensures PackRounded(s, n.(sign := s)) == s + PackRounded(SIGN_POS, n)
  {
  }

  lemma {:induction false} ShiftUpSign(h: HalfFloat, s: Word)
    requires h.mant > 0
    ensures ShiftUp(h.(sign := s)) == ShiftUp(h).(sign := s)
    decreases MANT_NORM_MIN - h.mant
  {
    if h.mant < MANT_NORM_MIN {
      var next := h.(mant := h.mant * 2, exp := h.exp - 1);
      assert h.(sign := s).(mant := h.mant * 2, exp := h.exp - 1) == next.(sign := s);
      ShiftUpSign(next, s);
    }
  }

  lemma {:induction false} ShiftDownSign(h: HalfFloat, s: Word)
    requires h.mant >= 0
    ensures ShiftDown(h.(sign := s)) == ShiftDown(h).(sign := s)
    decreases h.mant
  {
    if h.mant >= MANT_OVERFLOW {
      var next := h.(mant := h.mant / 2, exp := h.exp + 1);
      assert h.(sign := s).(mant := h.mant / 2, exp := h.exp + 1) == next.(sign := s);
      ShiftDownSign(next, s);
    }
  }

  lemma {:induction false} ShiftUpBoundedSign(h: HalfFloat, s: Word)
    requires h.mant >= 0
    ensures ShiftUpBounded(h.(sign := s)) == ShiftUpBounded(h).(sign := s)
    decreases h.exp + 14
  {
    if h.mant < MANT_NORM_MIN && h.exp > -14 {
      var next := h.(mant := h.mant * 2, exp := h.exp - 1);
      assert h.(sign := s).(mant := h.mant * 2, exp := h.exp - 1) == next.(sign := s);
      ShiftUpBoundedSign(next, s);
    }
  }

  /**
   * A mantissa below 2^(16 + k) leaves `normalize_and_round` with an
   * exponent at most k + 1 above the record's: the shifts down add at most
   * k and a rounding carry one more.
   */
  lemma NormalizedExpBound(h: HalfFloat, k: nat)
    requires 0 <= h.mant < Pow2(16 + k)
    ensures NormalizedRounded(h).exp <= h.exp + k + 1
  {
    if h.mant != 0 {
      if h.mant < MANT_NORM_MIN {
        assert ShiftDown(ShiftUp(h)) == ShiftUp(h);
      } else {
        ShiftDownExp(h, k);
      }
    }
  }

  lemma {:induction false} ShiftDownExp(h: HalfFloat, k: nat)
    requires 0 <= h.mant < Pow2(16 + k)
    ensures ShiftDown(h).exp <= h.exp + k
    decreases k
  {
    if h.mant >= MANT_OVERFLOW {
      Pow2Values();
      if k == 0 {
        assert false;
      }
      ShiftDownExp(h.(mant := h.mant / 2, exp := h.exp + 1), k - 1);
    }
  }

  /**
   * A value of at most 1.0 (exponent 0, mantissa at most 1 << 15) stays at
   * most 1.0: the exponent becomes negative, or stays 0 with a mantissa of
   * 0 or exactly 1 << 15.
   */
  lemma NormalizedAtMostOne(h: HalfFloat)
    requires h.exp == 0 && 0 <= h.mant <= MANT_NORM_MIN
    ensures var r := NormalizedRounded(h);
      r.exp < 0 || (r.exp == 0 && (r.mant == 0 || r.mant == MANT_NORM_MIN))
  {
    if h.mant == MANT_NORM_MIN {
      NormalizedExact(h);
    } else if h.mant != 0 {
      var u := ShiftUp(h);
      assert u.exp < 0;
      assert ShiftDown(u) == u;
    }
  }

  /** `normalize_and_round` leaves a normalised mantissa without guard bits unchanged. */
  lemma NormalizedExact(h: HalfFloat)
    requires MANT_NORM_MIN <= h.mant < MANT_OVERFLOW && h.mant % 32 == 0 && h.exp < EXP_FULL
    ensures NormalizedRounded(h) == h
  {
    assert ShiftUp(h) == h;
    assert h.mant / 16 % 2 == 0;
  }

  /** A mantissa of exactly 2^16 is shifted down once: the value is 2^(exp + 1). */
  lemma NormalizedCarry(h: HalfFloat)
    requires h.mant == MANT_OVERFLOW && h.exp < EXP_BIAS
    ensures NormalizedRounded(h) == HalfFloat(h.sign, h.exp + 1, MANT_NORM_MIN)
  {
    var n := HalfFloat(h.sign, h.exp + 1, MANT_NORM_MIN);
    assert ShiftUp(h) == h;
    assert ShiftDown(h) == n;
    assert !RoundUpBits(n.mant);
  }

  /**
   * `compose_half` of a normalised record with an exponent from -14 to 15:
   * the exponent field is the biased exponent, except 0 for -14, and the
   * fraction field is the mantissa without implicit bit and guard bits.
   */
  lemma ComposedNormal(h: HalfFloat)
    requires ValidSign(h.sign) && MANT_NORM_MIN <= h.mant < MANT_OVERFLOW && -14 <= h.exp <= 15
    ensures Composed(h) == Pack(h.sign, if h.exp == -14 then 0 else h.exp + EXP_BIAS, h.mant / 32 % 1024)
  {
    assert ShiftDown(h) == h;
    assert ShiftUpBounded(h) == h;
    var e := if h.exp == -14 then 0 else h.exp + EXP_BIAS;
    assert e == if h.exp == -14 then 0 else (h.exp + EXP_BIAS) % 32;
    assert h.exp != EXP_FULL && !(h.exp < -14 || (h.exp == -14 && h.mant == 0));
  }

  /** The two zeros are the only words that decode to a zero, and their sign is the word. */
  lemma DecomposeZero(w: Word)
    ensures IsZero(Decompose(w)) <==> w == ZERO_POS || w == ZERO_NEG
    ensures IsZero(Decompose(w)) ==> Decompose(w).sign == w
  {
    if IsZero(Decompose(w)) {
      ZeroFields(w);
    }
  }

  lemma ZeroFields(w: Word)
    requires ExpField(w) == 0 && FracField(w) == 0
    ensures w == SignBit(w)
  {
    PackFields(w);
  }

  /**
   * The classification predicates on decoded words: NaN exactly for exponent
   * field 31 with a non-zero fraction, infinity for field 31 with a zero
   * fraction, zero for field 0 with a zero fraction; hence no record is
   * two of them at once.
   */
  lemma DecomposeClasses(w: Word)
    ensures IsNaN(Decompose(w)) <==> ExpField(w) == 31 && FracField(w) != 0
    ensures IsInfinity(Decompose(w)) <==> ExpField(w) == 31 && FracField(w) == 0
    ensures IsZero(Decompose(w)) <==> ExpField(w) == 0 && FracField(w) == 0
    ensures !(IsNaN(Decompose(w)) && IsInfinity(Decompose(w)))
    ensures !(IsNaN(Decompose(w)) && IsZero(Decompose(w)))
    ensures !(IsInfinity(Decompose(w)) && IsZero(Decompose(w)))
  {
  }

  /** The sign, biased exponent and fraction fields of a binary32 bit pattern. */
  function FloatSign(f: Bits32): (s: int)
    ensures 0 <= s < 2
  {
    f / 0x8000_0000
  }

  function FloatExpField(f: Bits32): (e: int)
    ensures 0 <= e < 256
  {
    f / 0x80_0000 % 256
  }

  function FloatFrac(f: Bits32): (m: int)
    ensures 0 <= m < 0x80_0000
  {
    f % 0x80_0000
  }

  /** `(s << 31) | (e << 23) | m` for fields that do not overlap. */
  function PackFloat(s: int, e: int, m: int): (f: Bits32)
    requires 0 <= s < 2 && 0 <= e < 256 && 0 <= m < 0x80_0000
    ensures FloatSign(f) == s && FloatExpField(f) == e && FloatFrac(f) == m
  {
    s * 0x8000_0000 + e * 0x80_0000 + m
  }

  /**
   * `float_to_half` on the bit pattern of a float.  The conversion
   * truncates: for a float in the normal range of binary16 the fraction is
   * the top ten bits of the float's fraction, and it never produces a NaN
   * from a number.
   */
  function FloatToHalf(f: Bits32): (w: Word)
    ensures SignBit(w) == FloatSign(f) * 0x8000
    ensures ExpField(w) == 31 && FracField(w) != 0 <==> FloatExpField(f) == 255 && FloatFrac(f) != 0
  {
    HalfFromFloatFields(FloatSign(f), FloatExpField(f) - 127, FloatFrac(f))
  }

  /** The body of `float_to_half` once the three fields of the float are extracted. */
  function HalfFromFloatFields(sign: int, exp: int, mant: int): (w: Word)
    requires 0 <= sign < 2 && -127 <= exp <= 128 && 0 <= mant < 0x80_0000
    ensures SignBit(w) == sign * 0x8000
    ensures ExpField(w) == 31 && FracField(w) != 0 <==> exp == 128 && mant != 0
  {
    var result := sign * 0x8000;
    if exp == 128 then
      result + (if mant == 0 then INFINITY_POS else NAN)
    else if exp < -14 then
      // `mant |= 0x800000` adds the implicit bit above the 23 fraction bits.
      if exp >= -24 then result + ShiftedFraction(mant + 0x80_0000, -exp - 1) else result
    else if exp > 15 then
      result + INFINITY_POS
    else
      PackFieldValues(result, (exp + EXP_BIAS) % 32, (mant + 0x80_0000) / 0x2000 % 1024);
      Pack(result, (exp + EXP_BIAS) % 32, (mant + 0x80_0000) / 0x2000 % 1024)
  }

  /** `(m >> shift) & 0x3FF` */
  function ShiftedFraction(m: nat, shift: nat): (r: int)
    ensures 0 <= r < 1024
  {
    m / Pow2(shift) % 1024
  }

  /**
   * `float_to_half` truncates: a float in the normal range of binary16 keeps
   * its exponent and the top ten bits of its fraction; the low thirteen
   * bits are dropped, not rounded.
   */
  lemma FloatToHalfTruncates(f: Bits32)
    requires 113 <= FloatExpField(f) <= 142
    ensures ExpField(FloatToHalf(f)) == FloatExpField(f) - 112
    ensures FracField(FloatToHalf(f)) == FloatFrac(f) / 0x2000
  {
    NormalFloatFields(FloatSign(f), FloatExpField(f) - 127, FloatFrac(f));
    PackFieldValues(FloatSign(f) * 0x8000, FloatExpField(f) - 112, FloatFrac(f) / 0x2000);
  }

  lemma NormalFloatFields(sign: int, exp: int, mant: int)
    requires 0 <= sign < 2 && -14 <= exp <= 15 && 0 <= mant < 0x80_0000
    ensures HalfFromFloatFields(sign, exp, mant) == Pack(sign * 0x8000, exp + EXP_BIAS, mant / 0x2000)
  {
    assert (mant + 0x80_0000) / 0x2000 % 1024 == mant / 0x2000;
  }

  /**
   * `while (!(mant & 0x400)) { mant <<= 1; exp--; }` on a non-zero subnormal
   * fraction.  Below 0x800 bit 10 is clear exactly when `mant < 0x400`; the
   * test is written with `0 < mant` too, so that the definition stops at 0.
   */
  function SubnormalShift(mant: int, exp: int): (r: (int, int))
    requires 0 < mant < 0x800
    ensures 0x400 <= r.0 < 0x800 && r.1 <= exp
    ensures r.0 == mant * Pow2(exp - r.1)
    ensures mant >= 0x400 ==> r == (mant, exp)
    decreases 0x800 - mant
  {
    if 0 < mant < 0x400 then
      var r := SubnormalShift(mant * 2, exp - 1);
      ShiftUpStep(mant, exp - r.1);
      r
    else
      (mant, exp)
  }

  /** A subnormal fraction needs at most ten shifts. */
  lemma SubnormalShiftCount(mant: int, exp: int)
    requires 0 < mant < 0x400
    ensures 1 <= exp - SubnormalShift(mant, exp).1 <= 10
  {
    var r := SubnormalShift(mant, exp);
    var k := exp - r.1;
    MulLe(1, mant, Pow2(k));
    Pow2Large(k);
  }

  /**
   * `half_to_float` on bit patterns: the float keeps the sign, is a NaN or
   * an infinity exactly when the half is, and is zero exactly when the half is.
   */
  function HalfToFloatBits(w: Word): (f: Bits32)
    ensures FloatSign(f) * 0x8000 == SignBit(w)
    ensures FloatExpField(f) == 255 <==> ExpField(w) == 31
    ensures FloatExpField(f) == 255 ==> (FloatFrac(f) == 0 <==> FracField(w) == 0)
    ensures FloatExpField(f) == 0 && FloatFrac(f) == 0 <==> ExpField(w) == 0 && FracField(w) == 0
  {
    var sign := w / 0x8000;
    var exp := ExpField(w);
    var mant := FracField(w);
    if exp == 31 then
      if mant == 0 then PackFloat(sign, 0xFF, 0) else PackFloat(sign, 0xFF, mant * 0x2000)
    else if exp == 0 && mant == 0 then
      PackFloat(sign, 0, 0)
    else if exp == 0 then
      var r := SubnormalShift(mant, exp);
      SubnormalShiftCount(mant, exp);
      // `mant &= 0x3FF; exp++; exp += 112;`
      PackFloat(sign, r.1 + 1 + 112, r.0 % 1024 * 0x2000)
    else
      PackFloat(sign, exp + 112, mant * 0x2000)
  }

  /** `half_to_float` as the source runs it, with its shift loop for subnormals. */
  method HalfToFloat(half: Word) returns (fBits: Bits32)
    ensures fBits == HalfToFloatBits(half)
  {
    var sign := half / 0x8000;
    var exp := ExpField(half);
    var mant := FracField(half);
    if exp == 31 {
      if mant == 0 {
        fBits := PackFloat(sign, 0xFF, 0);
      } else {
        fBits := PackFloat(sign, 0xFF, mant * 0x2000);
      }
    } else if exp == 0 && mant == 0 {
      fBits := PackFloat(sign, 0, 0);
    } else {
      if exp == 0 {
        SubnormalShiftCount(mant, exp);
        while 0 < mant < 0x400
          invariant 0 < mant < 0x800 && SubnormalShift(mant, exp) == SubnormalShift(FracField(half), 0)
          decreases 0x800 - mant
        {
          mant := mant * 2;
          exp := exp - 1;
        }
        mant := mant % 1024;
        exp := exp + 1;
      }
      exp := exp + 112;
      fBits := PackFloat(sign, exp, mant * 0x2000);
    }
  }

  /**
   * `float_to_half(half_to_float(w)) == w` for every word that is not a
   * NaN (zeros, subnormals, normals and infinities); a NaN comes back as the
   * canonical NaN with its sign.
   */
  lemma FloatRoundTrip(w: Word)
    ensures FloatToHalf(HalfToFloatBits(w)) ==
      if ExpField(w) == 31 && FracField(w) != 0 then SignBit(w) + NAN else w
  {
    var e, m := ExpField(w), FracField(w);
    if e == 31 {
      SpecialRoundTrip(w);
    } else if e == 0 && m == 0 {
      ZeroRoundTrip(w);
    } else if e == 0 {
      SubnormalRoundTrip(w);
    } else {
      NormalRoundTrip(w);
    }
  }

  lemma SpecialRoundTrip(w: Word)
    requires ExpField(w) == 31
    ensures FloatToHalf(HalfToFloatBits(w)) == if FracField(w) != 0 then SignBit(w) + NAN else w
  {
    var s := w / 0x8000;
    var f := HalfToFloatBits(w);
    PackFields(w);
    assert SignBit(w) == s * 0x8000;
    if FracField(w) != 0 {
      assert f == PackFloat(s, 0xFF, FracField(w) * 0x2000);
      assert FloatToHalf(f) == s * 0x8000 + NAN;
    } else {
      assert f == PackFloat(s, 0xFF, 0);
      assert FloatToHalf(f) == s * 0x8000 + INFINITY_POS;
    }
  }

  lemma ZeroRoundTrip(w: Word)
    requires ExpField(w) == 0 && FracField(w) == 0
    ensures FloatToHalf(HalfToFloatBits(w)) == w
  {
    ZeroFields(w);
    FloatZeroToHalf(HalfToFloatBits(w));
  }

  /** A float zero converts to the half zero of the same sign. */
  lemma FloatZeroToHalf(f: Bits32)
    requires FloatExpField(f) == 0 && FloatFrac(f) == 0
    ensures FloatToHalf(f) == FloatSign(f) * 0x8000
  {
    var s := FloatSign(f);
    assert FloatToHalf(f) == HalfFromFloatFields(s, -127, 0);
  }

  lemma NormalRoundTrip(w: Word)
    requires 0 < ExpField(w) < 31
    ensures FloatToHalf(HalfToFloatBits(w)) == w
  {
    var s, e, m := w / 0x8000, ExpField(w), FracField(w);
    var f := HalfToFloatBits(w);
    PackFields(w);
    assert SignBit(w) == s * 0x8000;
    assert f == PackFloat(s, e + 112, m * 0x2000);
    assert FloatToHalf(f) == HalfFromFloatFields(s, e - 15, m * 0x2000);
    NormalFloatFields(s, e - 15, m * 0x2000);
  }

  lemma SubnormalRoundTrip(w: Word)
    requires ExpField(w) == 0 && FracField(w) != 0
    ensures FloatToHalf(HalfToFloatBits(w)) == w
  {
    var s, m := w / 0x8000, FracField(w);
    var r := SubnormalShift(m, 0);
    var k := -r.1;
    SubnormalShiftCount(m, 0);
    var frac := r.0 % 1024 * 0x2000;
    var f := HalfToFloatBits(w);
    assert f == PackFloat(s, 113 - k, frac);
    assert FloatToHalf(f) == HalfFromFloatFields(s, -14 - k, frac);
    SubnormalFraction(m);
    assert w == s * 0x8000 + m by {
      PackFields(w);
    }
  }

  /** The float's fraction of a subnormal half, shifted back, is the half's fraction. */
  lemma SubnormalFraction(m: int)
    requires 0 < m < 1024
    ensures var r := SubnormalShift(m, 0);
      ShiftedFraction(r.0 % 1024 * 0x2000 + 0x80_0000, 13 - r.1) == m
  {
    var r := SubnormalShift(m, 0);
    var k := -r.1;
    var p := Pow2(13 + k);
    assert r.0 == m * Pow2(k);
    ImplicitBit(r.0);
    ScaledBy13(m, k);
    assert r.0 % 1024 * 0x2000 + 0x80_0000 == m * p;
    MulDivCancel(m, p);
    assert ShiftedFraction(m * p, 13 + k) == m * p / p % 1024;
  }

  /** Clearing bit 10 of a normalised fraction and adding the float's implicit bit back. */
  lemma ScaledBy13(m: int, k: nat)
    ensures m * Pow2(k) * 0x2000 == m * Pow2(13 + k)
  {
    Pow2Add(13, k);
    assert Pow2(13) == 0x2000;
    MulAssoc(m, Pow2(k), Pow2(13));
  }

  lemma ImplicitBit(x: int)
    requires 0x400 <= x < 0x800
    ensures x % 1024 * 0x2000 + 0x80_0000 == x * 0x2000
  {
  }
}
