# halffloat in Dafny

A model of the `halffloat` C library: IEEE 754 binary16 ("half float")
arithmetic done in software on 16-bit words. It covers the conversions to
and from the internal record, the arithmetic, rounding, comparison,
exponential, logarithm, power and trigonometric operations. It also covers
the earlier single-file implementation `hf_lib.c`, wherever its code
differs from the modular files.

Every operation takes and returns a `Word`, an `int` in [0, 0x10000). As in
the library, a word is decoded with `decompose_half` into the record
`HalfFloat(sign, exp, mant)`, where:

- `sign` is 0 or 0x8000;
- `exp` is -15 for zeros and subnormals and 16 for infinities and NaNs;
- `mant` is the fraction shifted left by 5 guard bits, plus the implicit
  bit 0x8000 for normal numbers.

Each operation then builds the record it hands to `compose_half`.

Modules, following the source files:

| module | file | contents |
|---|---|---|
| `CInt` | (C integer semantics) | powers of two, arithmetic shifts as floor division, truncating `/` and `%`, 32-bit and 16-bit casts, small division lemmas |
| `Precalc` | `hf_precalc.h`, `hf_precalc.c` | the lookup tables as an input record with the contract `ValidTables` |
| `HalfCommon` | `hf_common.c` | `decompose_half`, `compose_half`, `normalize_and_round`, `align_mantissas`, `float_to_half`, `half_to_float` |
| `Denormal` | `hf_lib.c` | `normalize_denormalized_mantissa` |
| `IntSqrt` | `hf_lib_arith.c` | `square_root`, the bit-by-bit integer square root |
| `LibCommon` | `hf_lib_common.c` | `reduce_radian_uword`, `compare_half`, `check_int_half`, `table_interpolate`, `exp_fixed` |
| `Arith` | `hf_lib_arith.c` | `hf_neg`, `hf_abs`, `hf_add`, `hf_sub`, `hf_mul`, `hf_div`, `hf_inv`, `hf_sqrt`, `hf_rsqrt` and the stubs |
| `Round` | `hf_lib_round.c` | `hf_trunc`, `hf_int`, `hf_ceil`, `hf_floor`, `hf_round` |
| `Misc` | `hf_lib_misc.c` | `hf_cmp`, `hf_min`, `hf_max` and the stubs |
| `ExpLog` | `hf_lib_exp.c` | `hf_ln`, `hf_exp`, `hf_pow` and the stubs |
| `Trig` | `hf_lib_trig.c` | circular functions, their inverses, `atan2`, and the hyperbolic functions with their inverses |
| `Legacy` | `hf_lib.c` | the single-file `hf_int`, `hf_add`, `hf_div`, `hf_sqrt`, `hf_pow`, `hf_sin`, `hf_cos` and `hf_tan`; its `hf_abs`, `hf_neg`, `hf_mul`, `hf_ln` and `hf_exp` compute the same as the modular ones and are modelled by `Arith` and `ExpLog` |

The C code updates a local `half_float result` field by field and fills
out-pointers: the `result` of `exp_fixed`, and `exp_pos` and `exp_neg` of
`cosh_sinh_helper`. The model does these updates on values. Each operation
is a function that returns the final record, and `exp_fixed` and
`cosh_sinh_helper` return records or tuples instead of writing through
pointers.

The helpers that loop are methods in the source's form, each proved equal
to the specification function used everywhere else:

- `compose_half`: `HalfCommon.ComposeHalf`, with its two shift loops;
- `normalize_and_round`: `HalfCommon.NormalizeAndRound`;
- `half_to_float`: `HalfCommon.HalfToFloat`;
- `normalize_denormalized_mantissa`: `Denormal.NormalizeDenormalizedMantissa`;
- `square_root`: `IntSqrt.SquareRoot`;
- the root loop of the single-file `hf_sqrt`: `Legacy.ShiftSquareRoot`.

The word operations themselves (`Arith.Add`, `Trig.Sin`, …) are
`Composed(XResult(Decompose(w)))`. Their properties are stated as lemmas
about them, listed below.

## Divergences

Each of these behaviours differs from what the comments or documentation
promise. The model keeps the code's behaviour, and each case has a lemma
that states it.

**Conversions and rounding**
- `compose_half` of a record with exponent -14 writes exponent field 0, so
  the smallest normal becomes a signed zero (`HalfCommon.ComposeDecompose`,
  `HalfCommon.ComposedNormal`). As a consequence, the inverse of 2^14 is +0,
  not 2^-14 (`Arith.InvSmallestNormal`).
- `normalize_and_round` is not round-to-nearest: guard bits worth 20/32 of
  a unit are rounded down (`HalfCommon.RoundingBelowThreeQuarters`).
- `float_to_half` truncates the float's fraction rather than rounding it
  (`HalfCommon.FloatToHalfTruncates`).
- `hf_round` sends every positive normal below one half to 1.0
  (`Round.RoundBelowHalf`).

**Comparison**
- `compare_half` XORs a boolean with the sign value 0x8000, so two distinct
  negative words compare -1 in both orders
  (`LibCommon.CompareNegativeBothOrders`, `Misc.CmpNegatives`).
- `hf_cmp(+0, -0)` is 1, not 0 (`Misc.CmpSignedZeros`).

**Modular arithmetic**
- Zero over zero gives an infinity, not a NaN (`Arith.DivZeroByZero`).

**Modular trigonometry**
- The second-quarter reflection of `sinus_shiftable` is one Q4 index unit (1/65536 turn) off
  (`Trig.SinMirror`). So `hf_sin` is odd only up to one 1/65536 turn
  (`Trig.SinNegatedTurn`).
- The overflow branch of `hf_tan` never fires (`Trig.TanFiniteResult`).
- tanh(-0) is +0 (`Trig.TanhNegativeZero`).
- atan2(±0, ±0) returns y unchanged (`Trig.Atan2Special`).
- `hf_sinh` and `hf_atanh` mean to return a subnormal argument unchanged.
  Passing it through `compose_half` flushes it to the zero of its sign
  (`Trig.SinhSpecial`, `Trig.AtanhSubnormal`).

**The single-file `hf_lib.c`**
- -0 + -0 is +0 (`Legacy.AddZeros`).
- 0/0 is the NaN with the XOR of the signs (`Legacy.DivZeroByZero`).
- The square root of a negative number is the NaN with the operand's sign
  (`Legacy.SqrtSpecial`).
- Any negative finite base gives 0xFE00, integer exponents included
  (`Legacy.PowNegativeBase`).
- (-∞)^3.5 is -∞ (`Legacy.PowNegInfinityNonInteger`).
- 0^y for y < 0 is +∞ whatever the zero's sign (`Legacy.PowZeroBase`).
- x^1 flushes subnormals (`Legacy.PowByOne`), like the modular `hf_pow`
  (`ExpLog.PowByOne`).
- The sine reflection is exact here (`Legacy.SinMirror`). Sine is odd
  except at the turn fractions 0 and one half and at zero values
  (`Legacy.SinOdd`).
- Tangent is odd except at the quarter turn and at zero values (`Legacy.TanOdd`);
  for example `hf_tan(0x8000)` is 0x0000 when the first table entry is zero.
- The overflow branch of `hf_tan` never fires (`Legacy.TanFiniteResult`).

## Model

| member | source | states |
|---|---|---|
| HalfCommon.SignBit | halffloat/hf_common.c:145 | the sign mask gives 0 or 0x8000, and 0x8000 exactly for words from 0x8000 up |
| HalfCommon.ExpField | halffloat/hf_common.c:146 | the biased exponent field lies in [0, 31] |
| HalfCommon.FracField | halffloat/hf_common.c:147 | the fraction field lies in [0, 1023] |
| HalfCommon.PackFieldValues | halffloat/hf_common.c:190-192 | packing a sign, an exponent field and a fraction and reading the three fields back gives them unchanged |
| HalfCommon.PackFields | halffloat/hf_common.c:145-147 | every word is the packing of its own sign, exponent field and fraction |
| HalfCommon.Decompose | halffloat/hf_common.c:143-155 | `decompose_half` is total: the sign is the top bit, exp is the field minus 15, the mantissa is the fraction shifted left by 5 and carries the implicit bit 1<<15 exactly when exp lies in (-15, 16) |
| HalfCommon.ShiftDown | halffloat/hf_common.c:175-178 | the right-shift loop ends with a mantissa below 2^16, never lowers the exponent, changes nothing below 2^16 and keeps a normal mantissa normal |
| HalfCommon.ShiftUp | halffloat/hf_common.c:247-250 | the left-shift loop of `normalize_and_round` ends with a mantissa at least 1<<15 and preserves the value: mant' = mant * 2^(exp - exp') |
| HalfCommon.ShiftUpBounded | halffloat/hf_common.c:179-182 | the bounded left-shift loop of `compose_half` stops at exponent -14 or at a normal mantissa, keeps a zero mantissa zero and never lowers exp below -14 from a start at or above it |
| HalfCommon.Composed | halffloat/hf_common.c:163-196 | `compose_half` keeps the sign; exponent 16 gives the NaN 0x7E00 or infinity 0x7C00 by the mantissa; exponents below -14 give the bare sign |
| HalfCommon.PackRounded | halffloat/hf_common.c:185-193 | after the shift loops, an exponent above 15 packs as a signed infinity, one below -14 as a signed zero, and the sign is the word's top bit |
| HalfCommon.ComposeHalf | halffloat/hf_common.c:163-196 | the loop version of `compose_half` computes `Composed` |
| HalfCommon.ShiftDownLoop | halffloat/hf_common.c:175-178 | the first `compose_half` loop computes `ShiftDown` |
| HalfCommon.ShiftUpLoop | halffloat/hf_common.c:179-182 | the second `compose_half` loop computes `ShiftUpBounded` |
| HalfCommon.NormalizedRounded | halffloat/hf_common.c:243-284 | `normalize_and_round` keeps the sign and clears bits 0-4; the result is a zero mantissa or lies in [2^15, 2^16) with exp < 16; a non-zero mantissa ends at mantissa 0 exactly when it overflowed to infinity |
| HalfCommon.NormalizeAndRound | halffloat/hf_common.c:243-284 | the step-by-step version of `normalize_and_round` computes `NormalizedRounded` |
| HalfCommon.RoundingRule | halffloat/hf_common.c:259-273 | on a normalised mantissa the rounding adds one unit exactly when the five guard bits exceed 24, or equal 24 with the kept LSB set; a carry to 2^16 becomes 1<<15 with exp + 1 |
| HalfCommon.RoundingBelowThreeQuarters | halffloat/hf_common.c:259-273 | guard bits worth 20/32 of a unit, more than one half, are rounded down, so the rule is not round-to-nearest |
| HalfCommon.StickyShift | halffloat/hf_common.c:211-218 | the sticky right shift never grows the mantissa, keeps it non-zero exactly when it was, equals the plain shift or one more when bits were lost, and is at most 1 when the shift is capped at 31 |
| HalfCommon.AlignMantissas | halffloat/hf_common.c:208-232 | both exponents become the larger one, signs are kept, the operand with the larger exponent is untouched, and each mantissa shrinks but stays non-zero exactly when it was |
| HalfCommon.ComposeDecompose | halffloat/hf_common.c:143-196 | `compose_half(decompose_half(w))` is w for exponent fields 2-30 and the infinities, the canonical NaN with w's sign for a NaN, w without its exponent field for field 1, and the bare sign for field 0 |
| HalfCommon.ComposeZeroMantissa | halffloat/hf_common.c:169-194 | a zero mantissa with an exponent below 16 composes to the signed zero |
| HalfCommon.ShiftUpZero | halffloat/hf_common.c:179-182 | with a zero mantissa the bounded loop only walks the exponent down to -14 |
| HalfCommon.PackRoundedZero | halffloat/hf_common.c:187-192 | a zero mantissa at exponent -14 packs as the zero of its sign |
| HalfCommon.NormalizedSign | halffloat/hf_common.c:243-284 | `normalize_and_round` only carries the sign: changing the input sign changes only the output sign |
| HalfCommon.ComposedSign | halffloat/hf_common.c:163-196 | `compose_half` of a record with sign s is s plus the composition of its positive twin |
| HalfCommon.ComposedSignRounded | halffloat/hf_common.c:173-194 | the same sign property on the shifting branch of `compose_half` |
| HalfCommon.PackRoundedSign | halffloat/hf_common.c:185-193 | the final packing reads only exponent and mantissa; the sign is added on top |
| HalfCommon.ShiftUpSign | halffloat/hf_common.c:247-250 | the left-shift loop does not depend on the sign |
| HalfCommon.ShiftDownSign | halffloat/hf_common.c:175-178 | the right-shift loop does not depend on the sign |
| HalfCommon.ShiftUpBoundedSign | halffloat/hf_common.c:179-182 | the bounded left-shift loop does not depend on the sign |
| HalfCommon.NormalizedExpBound | halffloat/hf_common.c:252-273 | a mantissa below 2^(16+k) leaves `normalize_and_round` with an exponent at most k + 1 above the input's |
| HalfCommon.ShiftDownExp | halffloat/hf_common.c:253-256 | a mantissa below 2^(16+k) is shifted down at most k times |
| HalfCommon.NormalizedAtMostOne | halffloat/hf_common.c:243-284 | a value of at most 1.0 (exp 0, mantissa at most 1<<15) is still at most 1.0 after rounding |
| HalfCommon.NormalizedExact | halffloat/hf_common.c:259-283 | a normalised mantissa without guard bits and a finite exponent is left unchanged |
| HalfCommon.NormalizedCarry | halffloat/hf_common.c:253-256 | a mantissa of exactly 2^16 is shifted once: 1<<15 at exp + 1 |
| HalfCommon.NormalizedOverflow | halffloat/hf_common.c:259-280 | a normalised mantissa becomes infinity (exp 16, mantissa 0) with its sign exactly when its exponent is 16 or more, or is 15 and the rounding carries out of the top |
| HalfCommon.NormalizedFirst | halffloat/hf_common.c:245-257 | the mantissa is shifted into [1<<15, 1<<16) before rounding: every non-zero record rounds as its normalised form does |
| HalfCommon.ComposedNormal | halffloat/hf_common.c:189-193 | a normalised record with exp in [-14, 15] packs with field exp + 15, except field 0 for -14, and the mantissa without implicit and guard bits |
| HalfCommon.DecomposeZero | halffloat/hf_common.c:133-155 | only 0x0000 and 0x8000 decode to a zero, and the decoded sign is the word |
| HalfCommon.DecomposeClasses | halffloat/hf_common.c:113-155 | a decoded word is NaN iff field 31 with a non-zero fraction, infinite iff field 31 with fraction 0, zero iff field 0 with fraction 0; the three are pairwise exclusive |
| HalfCommon.FloatSign | halffloat/hf_common.c:45 | the float sign bit is 0 or 1 |
| HalfCommon.FloatExpField | halffloat/hf_common.c:46 | the float exponent field lies in [0, 255] |
| HalfCommon.FloatFrac | halffloat/hf_common.c:47 | the float fraction lies below 2^23 |
| HalfCommon.PackFloat | halffloat/hf_common.c:101 | packing a float's three fields reads them back unchanged |
| HalfCommon.FloatToHalf | halffloat/hf_common.c:42-68 | `float_to_half` keeps the sign and yields a half NaN exactly for a float NaN |
| HalfCommon.HalfFromFloatFields | halffloat/hf_common.c:48-65 | the conversion on extracted fields keeps the sign and maps exp 128 with a non-zero fraction, and only that, to a NaN |
| HalfCommon.ShiftedFraction | halffloat/hf_common.c:56 | the shifted and masked fraction lies in [0, 1023] |
| HalfCommon.FloatToHalfTruncates | halffloat/hf_common.c:60-64 | a float in the binary16 normal range keeps its exponent and the top ten fraction bits; the low 13 bits are dropped, not rounded |
| HalfCommon.NormalFloatFields | halffloat/hf_common.c:60-64 | the normal branch packs the rebiased exponent and the fraction shifted right by 13 |
| HalfCommon.SubnormalShift | halffloat/hf_common.c:93-96 | the subnormal loop ends with bit 10 set and bit 11 clear, and preserves the value: mant' = mant * 2^(exp - exp') |
| HalfCommon.SubnormalShiftCount | halffloat/hf_common.c:93-96 | a subnormal fraction takes between 1 and 10 shifts |
| HalfCommon.HalfToFloatBits | halffloat/hf_common.c:76-105 | `half_to_float` keeps the sign, is a NaN or infinity exactly when the half is (with a zero fraction exactly for infinity), and is zero exactly when the half is |
| HalfCommon.HalfToFloat | halffloat/hf_common.c:76-105 | the loop version of `half_to_float` computes `HalfToFloatBits` |
| HalfCommon.FloatRoundTrip | halffloat/hf_common.c:42-105 | `float_to_half(half_to_float(w)) == w` for every non-NaN word; a NaN comes back as the canonical NaN with its sign |
| HalfCommon.SpecialRoundTrip | halffloat/hf_common.c:83-88 | the round trip on exponent field 31: infinities are kept and NaNs become canonical |
| HalfCommon.ZeroRoundTrip | halffloat/hf_common.c:89-90 | the round trip keeps both zeros |
| HalfCommon.FloatZeroToHalf | halffloat/hf_common.c:53-57 | a float zero converts to the half zero of the same sign |
| HalfCommon.NormalRoundTrip | halffloat/hf_common.c:60-64 | the round trip keeps every normal half |
| HalfCommon.SubnormalRoundTrip | halffloat/hf_common.c:53-57 | the round trip keeps every subnormal half |
| HalfCommon.SubnormalFraction | halffloat/hf_common.c:92-98 | the float fraction of a subnormal half, shifted back by the subnormal branch of `float_to_half`, is the half's fraction |
| HalfCommon.IsInfinity | halffloat/hf_common.c:113-115 | no ensures; what the class tests mean on a word is stated by `DecomposeClasses` |
| HalfCommon.IsNaN | halffloat/hf_common.c:123-125 | no ensures; what the class tests mean on a word is stated by `DecomposeClasses` |
| HalfCommon.IsZero | halffloat/hf_common.c:133-135 | no ensures; what the class tests mean on a word is stated by `DecomposeClasses` and `DecomposeZero` |
| Denormal.DenormalNormalized | halffloat/hf_lib.c:862-870 | a record with exponent -15 and a non-zero mantissa comes out normal with the same value (mant' * 2^exp' == mant * 2^-14); every other record is unchanged |
| Denormal.NormalizeDenormalizedMantissa | halffloat/hf_lib.c:862-870 | the loop version computes `DenormalNormalized` |
| Denormal.DenormalOfDecoded | halffloat/hf_lib.c:862-870 | a decoded subnormal word comes out normal with clear guard bits, an exponent in [-24, -15] and the value of its fraction |
| LibCommon.TwoPiShifted | halffloat/hf_lib_common.c:42 | `fixed_two_pi >> fact` is never zero for the shifts used |
| LibCommon.TwoPiInvShifted | halffloat/hf_lib_common.c:43 | `fixed_two_pi_inv << fact` is the constant times 2^fact |
| LibCommon.ReducedAngle | halffloat/hf_lib_common.c:45-47 | `angle - cnt * fixed_two_pi` is the remainder of `angle << 17`, in [0, fixed_two_pi >> fact) |
| LibCommon.ReduceRadianPeriodic | halffloat/hf_lib_common.c:41-52 | periodicity: two angles whose values `angle << 17` differ by a whole number of periods `fixed_two_pi >> fact` reduce to the same turn fraction |
| LibCommon.ReduceRadianWrap | halffloat/hf_lib_common.c:48-51 | for fact 0 and 1 the 64-bit product wraps only for the last reduced values: below a threshold the result is the exact quotient `red * inv >> 48`, from it on the result is 0 |
| LibCommon.WrapProduct | halffloat/hf_lib_common.c:48-51 | a product below 2^64 + 2^48 shifted down by 48 after wrapping modulo 2^64 is the exact quotient below the wrap point and 0 after it |
| LibCommon.CompareHalf | halffloat/hf_lib_common.c:72-89 | `compare_half` returns -2 exactly when an operand is NaN, otherwise -1, 0 or 1, and 0 exactly for identical records |
| LibCommon.CompareNonNegative | halffloat/hf_lib_common.c:81-86 | two positive operands are ordered by exponent then mantissa, and the comparison is antisymmetric |
| LibCommon.CompareMixedSigns | halffloat/hf_lib_common.c:78-79 | of two operands with different signs the negative one is smaller, in both orders |
| LibCommon.CompareNegativeBothOrders | halffloat/hf_lib_common.c:81-86 | XOR of a boolean with the sign value 0x8000 is always true, so two distinct negative operands compare -1 in both orders |
| LibCommon.CheckIntHalf | halffloat/hf_lib_common.c:108-129 | `check_int_half` is never below -1; it is -1 for NaN, infinity, a non-zero subnormal and a non-zero value below 1, 0 for a zero and for exp 15 up, and for exp in [0, 15) it is -1 exactly when dropped bits are set and otherwise the integer whose shift gives back the mantissa |
| LibCommon.Clamp | halffloat/hf_lib_common.c:156-157 | a clamped index lies in [0, size), never exceeds the index and is the index itself when in range |
| LibCommon.TableInterpolate | halffloat/hf_lib_common.c:151-164 | `table_interpolate` reads only the two clamped indices, returns a value between their entries, and returns the first entry when the fraction is zero |
| LibCommon.InterpolationStep | halffloat/hf_lib_common.c:163 | the rounded step `(d * frac + half) >> bits` lies between 0 and d and is 0 for a zero fraction |
| LibCommon.ExpReduce | halffloat/hf_lib_common.c:192-200 | the truncating division corrected for a negative remainder is the floor reduction x = k * 22713 + r with 0 <= r < 22713 |
| LibCommon.ExpIndex | halffloat/hf_lib_common.c:203-204 | the `exp_table` index lies in [0, 256) |
| LibCommon.ExpFixed | halffloat/hf_lib_common.c:191-214 | `exp_fixed` keeps the sign, sets exp to floor(x / ln 2) and a mantissa between the two `exp_table` entries around the reduced argument |
| LibCommon.ExpStep | halffloat/hf_lib_common.c:209-210 | the interpolation step with `frac < LNI_2 << 8` lies between 0 and the entry difference |
| LibCommon.ExpFixedZero | halffloat/hf_lib_common.c:191-214 | with `exp_table[0] == 32768`, `exp_fixed(0)` gives mantissa 1.0 in Q15 and exponent 0 |
| LibCommon.ReduceRadianUword | halffloat/hf_lib_common.c:41-52 | no ensures; what it computes is stated by `ReducedAngle`, `ReduceRadianPeriodic` and `ReduceRadianWrap` |
| CInt.CDiv | halffloat/hf_lib_common.c:192 | no ensures; C division truncating toward zero, which agrees with floor division on exact quotients (`CDivExact`) and is what `LibCommon.ExpStep` and `Trig.TanhQuotient` rely on |
| CInt.Shr | halffloat/hf_lib.c:512 | a right shift of a non-negative value by n is floor division by 2^n: the result r satisfies r * 2^n <= x < r * 2^n + 2^n, so it never exceeds x |
| CInt.ToInt32 | halffloat/hf_lib_exp.c:241 | the `(int32_t)` cast keeps a value already in the 32-bit range and otherwise wraps it modulo 2^32 into that range |
| Precalc.ValidTables | halffloat/hf_precalc.h:43-50 | no ensures; the table sizes the header declares, with `ln[0] == 0` and `exp[0] == 32768`; every table-reading operation requires it, and `Trig.SinEntry`, `ExpLog.LnFixed` and the other lookups take their index bounds from it |
| Arith.SignXor | halffloat/hf_lib_arith.c:154 | the XOR of two sign values is again 0 or 0x8000 |
| Arith.Neg | halffloat/hf_lib_arith.c:31-35 | `hf_neg` flips the sign bit and keeps the exponent and fraction fields |
| Arith.Abs | halffloat/hf_lib_arith.c:46-50 | `hf_abs` clears the sign bit and keeps the exponent and fraction fields |
| Arith.NegAbsLaws | halffloat/hf_lib_arith.c:31-50 | negation is an involution, absolute value is idempotent, and the absolute value of a negation is the absolute value |
| Arith.AddResult | halffloat/hf_lib_arith.c:59-111 | the record `hf_add` composes has a proper sign and a non-negative mantissa |
| Arith.AddFinite | halffloat/hf_lib_arith.c:92-110 | the aligned signed sum, split into sign and magnitude and rounded, has a proper sign and a non-negative mantissa |
| Arith.AddSpecial | halffloat/hf_lib_arith.c:69-85 | a NaN operand gives the quiet NaN of the first NaN's sign; opposite infinities give 0xFE00; an infinity with any other non-NaN operand is that infinity |
| Arith.AddZeros | halffloat/hf_lib_arith.c:86-90 | the sum of two zeros is -0 only when both are -0 |
| Arith.AddCancels | halffloat/hf_lib_arith.c:92-113 | a finite x plus its negation is +0, in either order |
| Arith.OppositesCancel | halffloat/hf_lib_arith.c:92-113 | two finite records differing only in sign compose to +0 |
| Arith.CancelledSum | halffloat/hf_lib_arith.c:99-110 | the arithmetic path of opposite equal operands gives +0 |
| Arith.SubSelf | halffloat/hf_lib_arith.c:123-126 | `hf_sub(w, w)` is +0 for every finite w |
| Arith.AddCommutes | halffloat/hf_lib_arith.c:59-114 | unless both operands are NaN, `hf_add` is commutative |
| Arith.AddFiniteCommutes | halffloat/hf_lib_arith.c:92-110 | the arithmetic path of `hf_add` is commutative |
| Arith.AddZeroIdentity | halffloat/hf_lib_arith.c:92-113 | either zero is a right identity for every word with exponent field 2 to 30 |
| Arith.AddZeroRecord | halffloat/hf_lib_arith.c:92-110 | a zero aligned to a normal operand stays zero, and the sum is the operand exactly |
| Arith.AddOneTwo | halffloat/hf_tests.c:167 | `hf_add(0x3C00, 0x4000) == 0x4200`, i.e. 1 + 2 == 3 |
| Arith.OnePlusTwo | halffloat/hf_lib_arith.c:96-104 | 1.0 is aligned to half of 2.0's mantissa and the sum is 0xC000 at exponent 1, exactly |
| Arith.AddOverflow | halffloat/hf_tests.c:1192-1196 | `hf_add(0x7BEF, 0x7BEF)`, the largest finite number doubled, is +infinity |
| Arith.MulResult | halffloat/hf_lib_arith.c:135-170 | the record `hf_mul` composes has a proper sign and a non-negative mantissa |
| Arith.MulFinite | halffloat/hf_lib_arith.c:160-168 | the product path (exact 32-bit product shifted down by 15, exponents added, rounded) has a proper sign and a non-negative mantissa |
| Arith.MulSpecial | halffloat/hf_lib_arith.c:146-170 | NaN propagates with the first NaN's sign; infinity times zero is 0xFE00; zero times a finite number is a zero and infinity times a non-zero number an infinity, both with the XOR of the signs |
| Arith.MulCommutes | halffloat/hf_lib_arith.c:135-173 | unless both operands are NaN, `hf_mul` is commutative |
| Arith.MulOneIdentity | halffloat/hf_lib_arith.c:135-173 | 1.0 is a two-sided identity for every word with exponent field 2 to 30 |
| Arith.MulByOne | halffloat/hf_lib_arith.c:160-168 | a normal mantissa times the mantissa of 1.0, shifted down by 15, is unchanged |
| Arith.DivResult | halffloat/hf_lib_arith.c:182-214 | the record `hf_div` composes has a proper sign and a non-negative mantissa |
| Arith.DivFinite | halffloat/hf_lib_arith.c:205-213 | the quotient path (dividend shifted up by 15, sticky bit for a remainder, exponents subtracted, rounded) has a proper sign and a non-negative mantissa |
| Arith.DivSpecial | halffloat/hf_lib_arith.c:193-204 | NaN propagates with the first NaN's sign; infinity over infinity is 0xFE00; infinity over a finite number and a non-NaN over zero are infinities, and zero over a non-zero number and a finite number over infinity are zeros, all with the XOR of the signs |
| Arith.DivZeroByZero | halffloat/hf_lib_arith.c:198-200 | zero over zero takes the x/0 branch: +infinity for equal signs, -infinity otherwise |
| Arith.DivSelf | halffloat/hf_lib_arith.c:205-217 | every finite non-zero number divided by itself is exactly 1.0 |
| Arith.DivByOwnMantissa | halffloat/hf_lib_arith.c:205-213 | the quotient path on equal operands composes to 1.0 |
| Arith.DivOneIdentity | halffloat/hf_lib_arith.c:182-218 | 1.0 is a right identity for every word with exponent field 2 to 30 |
| Arith.DivUnderflow | halffloat/hf_tests.c:1199-1203 | `hf_div(0x0001, 0x4000)`, the smallest subnormal halved, is +0 |
| Arith.DivTinyByTwo | halffloat/hf_lib_arith.c:205-217 | the record path of the smallest subnormal over 2.0 composes to +0 |
| Arith.TinyHalved | halffloat/hf_common.c:243-284 | half the smallest subnormal normalises below exponent -14 |
| Arith.InvResult | halffloat/hf_lib_arith.c:226-255 | the record `hf_inv` composes has a proper sign and a non-negative mantissa |
| Arith.InvFinite | halffloat/hf_lib_arith.c:243-255 | the reciprocal path (1.0 shifted up by 15 over the mantissa, negated exponent, rounded) has a proper sign and a non-negative mantissa |
| Arith.InvSpecial | halffloat/hf_lib_arith.c:236-243 | 1/infinity is the zero of its sign, 1/0 the infinity of its sign, and a NaN keeps its sign |
| Arith.InvPowerOfTwo | halffloat/hf_lib_arith.c:226-259 | the inverse of a positive 2^e with -13 <= e <= 13 is exactly 2^-e |
| Arith.InvSmallestNormal | halffloat/hf_lib_arith.c:226-259 | the inverse of 2^14 (0x7400) is +0, not the smallest normal 0x0400, because `compose_half` writes exponent field 0 for -14 |
| Arith.SqrtResult | halffloat/hf_lib_arith.c:272-316 | the record `hf_sqrt` composes has a proper sign and a non-negative mantissa |
| Arith.SqrtOperand | halffloat/hf_lib_arith.c:299-306 | after normalising a subnormal, the mantissa shifted up by 15 (once more for an odd exponent) is at least 2^30 and pairs with an even exponent |
| Arith.SqrtFinite | halffloat/hf_lib_arith.c:292-315 | the root path has a proper sign and a non-negative mantissa |
| Arith.SqrtSpecial | halffloat/hf_lib_arith.c:282-292 | a zero comes back unchanged, +infinity stays +infinity, and a NaN or negative non-zero number gives 0x7E00 |
| Arith.SqrtExact | halffloat/hf_lib_arith.c:292-319 | when the scaled operand is the exact square of a root without guard bits, the result is that root with half the exponent |
| Arith.SqrtPowerOfFour | halffloat/hf_lib_arith.c:272-320 | the square root of 4^k for -7 <= k <= 7 is exactly 2^k (sqrt of 1, 4, 16 and 64 gives 1, 2, 4 and 8) |
| Arith.SqrtOperandPowerOfFour | halffloat/hf_lib_arith.c:299-306 | a power of four 4^k scales to the square 2^30 with exponent 2k |
| Arith.SqrtExactSquares | halffloat/hf_tests.c:1229-1266 | `hf_sqrt` is exact on 9, 25 and 36, giving 3, 5 and 6 |
| Arith.SqrtNine | halffloat/hf_lib_arith.c:272-320 | sqrt(9) == 3 |
| Arith.SqrtTwentyFive | halffloat/hf_lib_arith.c:272-320 | sqrt(25) == 5 |
| Arith.SqrtThirtySix | halffloat/hf_lib_arith.c:272-320 | sqrt(36) == 6 |
| Arith.RsqrtResult | halffloat/hf_lib_arith.c:332-375 | the record `hf_rsqrt` composes has a proper sign and a non-negative mantissa |
| Arith.RsqrtFinite | halffloat/hf_lib_arith.c:350-374 | the reciprocal-root path has a proper sign and a non-negative mantissa |
| Arith.RsqrtOfRoot | halffloat/hf_lib_arith.c:369-374 | 2^31 over a root of at least 2^15, with exponent -(exp/2) - 1, has a proper sign and a non-negative mantissa |
| Arith.RsqrtQuotient | halffloat/hf_lib_arith.c:370-371 | the quotient 2^31 / root is at most 2^16 |
| Arith.RsqrtSpecial | halffloat/hf_lib_arith.c:342-349 | a NaN or negative non-zero number gives 0x7E00, either zero gives +infinity, +infinity gives +0 |
| Arith.RsqrtPowerOfFour | halffloat/hf_lib_arith.c:332-379 | the reciprocal square root of 4^k for -7 <= k <= 7 is exactly 2^-k |
| Arith.RsqrtEvenExponent | halffloat/hf_lib_arith.c:350-378 | a power of four 4^k composes to 2^-k |
| Arith.RsqrtPowerOfFourRoot | halffloat/hf_lib_arith.c:357-367 | a power of four is scaled to the square of 2^15 with its exponent unchanged |
| Arith.RsqrtOfSquare | halffloat/hf_lib_arith.c:357-371 | an operand scaled to an exact square takes that square's root |
| Arith.RsqrtCarry | halffloat/hf_lib_arith.c:369-374 | a root of exactly 2^15 gives the quotient 2^16, which carries into the exponent |
| Arith.Add | halffloat/hf_lib_arith.c:59-114 | no ensures; what it computes is stated by `AddResult`, `AddSpecial`, `AddZeros`, `AddCancels`, `AddCommutes`, `AddZeroIdentity`, `AddOneTwo` and `AddOverflow` |
| Arith.Sub | halffloat/hf_lib_arith.c:123-126 | no ensures; what it computes is stated by `SubSelf` and, through `hf_add`, by the `Add` lemmas |
| Arith.Mul | halffloat/hf_lib_arith.c:135-173 | no ensures; what it computes is stated by `MulResult`, `MulSpecial`, `MulCommutes` and `MulOneIdentity` |
| Arith.Div | halffloat/hf_lib_arith.c:182-218 | no ensures; what it computes is stated by `DivResult`, `DivSpecial`, `DivZeroByZero`, `DivSelf`, `DivOneIdentity` and `DivUnderflow` |
| Arith.Inv | halffloat/hf_lib_arith.c:226-259 | no ensures; what it computes is stated by `InvResult`, `InvSpecial`, `InvPowerOfTwo` and `InvSmallestNormal` |
| Arith.Sqrt | halffloat/hf_lib_arith.c:272-320 | no ensures; what it computes is stated by `SqrtResult`, `SqrtSpecial`, `SqrtExact`, `SqrtPowerOfFour` and `SqrtExactSquares` |
| Arith.Rsqrt | halffloat/hf_lib_arith.c:332-379 | no ensures; what it computes is stated by `RsqrtResult`, `RsqrtSpecial` and `RsqrtPowerOfFour` |
| IntSqrt.SquareRootOf | halffloat/hf_lib_arith.c:466-483 | `square_root(v)` is the integer square root: r * r <= v < (r + 1) * (r + 1) |
| IntSqrt.SquareRootLoopRoot | halffloat/hf_lib_arith.c:469-482 | the sixteen iterations started from a zero remainder and root end with the integer root of the input |
| IntSqrt.SquareRootLoopConsumes | halffloat/hf_lib_arith.c:469-480 | the sixteen iterations compute the root of the whole consumed radicand |
| IntSqrt.SquareRoot | halffloat/hf_lib_arith.c:466-483 | the loop version of `square_root` returns `SquareRootOf(input)` |
| IntSqrt.RotatedIsRotation | halffloat/hf_lib_arith.c:474 | j rotations by two bits are one 32-bit rotation by 2j |
| IntSqrt.RotatedStep | halffloat/hf_lib_arith.c:474-475 | after one more rotation the two low bits are the next bit pair of the input |
| IntSqrt.RotationStep | halffloat/hf_lib_arith.c:474-475 | `ROL32(value, 2)` advances the rotation by two and exposes the next bit pair |
| IntSqrt.PrefixWhole | halffloat/hf_lib_arith.c:472-480 | after sixteen iterations the whole input has been consumed |
| IntSqrt.SquareRootLoopCorrect | halffloat/hf_lib_arith.c:472-480 | the loop invariant: after k iterations root is the integer root of the consumed top 2k bits and rest is the remainder |
| IntSqrt.RootStep | halffloat/hf_lib_arith.c:475-479 | one iteration turns the root and remainder of p into those of 4p + d |
| IntSqrt.SquareRootDigit | halffloat/hf_lib_arith.c:476-479 | the trial divisor 4 * root + 1 decides the next root bit and the new remainder |
| IntSqrt.SquareRootOfSquare | halffloat/hf_lib_arith.c:466-483 | the root of a perfect square is exact |
| IntSqrt.SquareRootAtLeast | halffloat/hf_lib_arith.c:466-483 | the root is bounded below by every lo with lo * lo <= v |
| IntSqrt.Rol2 | halffloat/hf_lib_arith.c:16 | no ensures; the rotation `ROL32(value, 2)`, whose effect on the remaining digits is stated by `RotationStep` |
| IntSqrt.SquareRootLoop | halffloat/hf_lib_arith.c:472-480 | no ensures; the loop as a recursion, whose result is stated by `SquareRootLoopRoot` and `SquareRootLoopConsumes` and which `SquareRoot` is proved to follow |
| IntSqrt.NextRest | halffloat/hf_lib_arith.c:475-478 | no ensures; one step of the remainder, stated together with `NextRoot` by `RootStep` |
| IntSqrt.NextRoot | halffloat/hf_lib_arith.c:476-479 | no ensures; one step of the root, stated together with `NextRest` by `RootStep` |
| Round.Unit | halffloat/hf_lib_round.c:40-41 | the mantissa of one integer unit at exponents 0 to 9, `1 << (frac_bits + 5)`, is at least 2 |
| Round.TruncResult | halffloat/hf_lib_round.c:162-183 | the record `hf_trunc` composes keeps the operand's sign and a non-negative mantissa |
| Round.CeilResult | halffloat/hf_lib_round.c:20-55 | the record `hf_ceil` composes keeps the operand's sign and a non-negative mantissa |
| Round.FloorResult | halffloat/hf_lib_round.c:65-99 | the record `hf_floor` composes keeps the operand's sign and a non-negative mantissa |
| Round.RoundResult | halffloat/hf_lib_round.c:109-152 | the record `hf_round` composes has a proper sign and a non-negative mantissa |
| Round.RoundedDownIsFloor | halffloat/hf_lib_round.c:178-179 | masking off the fraction gives the multiple of the unit within one unit below the value |
| Round.RoundedUpIsCeiling | halffloat/hf_lib_round.c:44-51 | truncating and adding a unit when a fraction was present gives the multiple of the unit within one unit above the value |
| Round.RoundedToEvenIsNearest | halffloat/hf_lib_round.c:135-147 | the rounding of `hf_round` is to the nearest multiple of the unit, and to the even one on a tie |
| Round.RoundedAboveDown | halffloat/hf_lib_round.c:135-147 | ceiling and nearest add at most one unit to the truncation: the ceiling exactly when a fraction is present, the nearest when it is above one half or one half with an odd quotient |
| Round.Scaled | halffloat/hf_common.c:189-193 | the word of a significand from 1024 to 2048 at a given exponent field keeps the sign |
| Round.ComposedScaled | halffloat/hf_lib_round.c:53 | rounding and packing a significand m from 1024 to 2048 at exponents 0 to 9 gives `Scaled` |
| Round.ComposedScaledExact | halffloat/hf_lib_round.c:53 | a significand below 2048 packs with fraction m - 1024 at the same exponent |
| Round.ComposedScaledCarry | halffloat/hf_lib_round.c:50 | a significand of 2048 carries into the next exponent with a zero fraction |
| Round.UnitSplit | halffloat/hf_lib_round.c:40-42 | the fraction mask splits a mantissa 32x into the quotient and remainder of x by k = 2^(10 - exp) |
| Round.DecodeInRange | halffloat/hf_lib_round.c:39-42 | a word with exponent field 15 to 24 decodes to a normal record whose unit is 32k and whose fraction part is that of its significand by k |
| Round.TruncRecord | halffloat/hf_lib_round.c:173-180 | from exponent 0 to 9 the truncated mantissa is the significand rounded down to a multiple of k |
| Round.CeilRecord | halffloat/hf_lib_round.c:39-53 | from exponent 0 to 9 the ceiling rounds a positive significand up and a negative one down |
| Round.FloorRecord | halffloat/hf_lib_round.c:83-97 | from exponent 0 to 9 the floor rounds a negative significand up and a positive one down |
| Round.RoundRecord | halffloat/hf_lib_round.c:130-150 | from exponent 0 to 9 the mantissa of `hf_round` is the significand rounded to the nearest multiple, ties to even |
| Round.TruncInRange | halffloat/hf_lib_round.c:168-181 | from exponent 0 to 9 `hf_trunc` clears exactly the fraction bits |
| Round.CeilInRange | halffloat/hf_lib_round.c:39-54 | from exponent 0 to 9 `hf_ceil` takes a positive value up to the next integer and truncates a negative one |
| Round.FloorInRange | halffloat/hf_lib_round.c:83-98 | from exponent 0 to 9 `hf_floor` truncates a positive value and takes a negative one away from zero to the next integer |
| Round.RoundInRange | halffloat/hf_lib_round.c:130-151 | from exponent 0 to 9 `hf_round` picks the nearest integer, the even one on a tie |
| Round.SpecialsUnchanged | halffloat/hf_lib_round.c:24 | NaN, infinities and zeros skip the arithmetic: a NaN comes back as the quiet NaN of its sign, infinities and zeros bit for bit |
| Round.LargeUnchanged | halffloat/hf_lib_round.c:182 | from exponent 10 up every finite value is returned unchanged by all four functions |
| Round.SmallValues | halffloat/hf_lib_round.c:26-37 | below 1 in magnitude `hf_trunc` gives the zero of the sign, `hf_ceil` 1.0 or -0, `hf_floor` +0 or -1.0, and `hf_round` +0 for subnormals below 2^-15 and the signed 1.0 otherwise |
| Round.SignedOne | halffloat/hf_lib_round.c:30-31 | the record for 1.0 with a word's sign packs to 0x3C00 or 0xBC00 |
| Round.SmallTruncValue | halffloat/hf_lib_round.c:168-171 | below 1 in magnitude `hf_trunc` gives the zero of the sign |
| Round.SmallCeilValue | halffloat/hf_lib_round.c:26-37 | below 1 in magnitude `hf_ceil` gives 1.0 for a positive value and -0 for a negative one |
| Round.SmallFloorValue | halffloat/hf_lib_round.c:71-81 | below 1 in magnitude `hf_floor` gives +0 for a positive value and -1.0 for a negative one |
| Round.SmallRoundValue | halffloat/hf_lib_round.c:115-128 | below 1 in magnitude `hf_round` gives +0 exactly when the mantissa is below 1 << 14 and otherwise the signed 1.0 |
| Round.SmallRecords | halffloat/hf_lib_round.c:115-127 | the records the four functions compose below 1 in magnitude |
| Round.SmallDecoded | halffloat/hf_lib_round.c:115-118 | below 1 the decoded mantissa is under 1 << 14 exactly for the subnormals with a fraction below 512 |
| Round.ExactMultiple | halffloat/hf_lib_round.c:44 | a significand without fraction bits is its own rounding in every direction and scales back to its word |
| Round.ExactUnchanged | halffloat/hf_lib_round.c:39-54 | an exact integer with exponent 0 to 9 is returned unchanged by all four functions |
| Round.IntegralUnchanged | halffloat/hf_lib_round.c:20-186 | an integral word is a fixed point of all four rounding functions |
| Round.ScaledIntegral | halffloat/hf_lib_round.c:46-53 | a multiple of the unit from 1024 to 2048 packs to an integral word |
| Round.PackedIntegral | halffloat/hf_lib_round.c:46-53 | a word whose fraction is a multiple of the unit of its exponent is integral |
| Round.CarryIntegral | halffloat/hf_lib_round.c:50-53 | the carry into the next exponent leaves an integral word |
| Round.ZeroNaNIntegral | halffloat/hf_lib_round.c:24 | the zeros and the quiet NaNs count as integral |
| Round.OneIntegral | halffloat/hf_lib_round.c:30-31 | the ones of either sign are integral |
| Round.InRangeIntegral | halffloat/hf_lib_round.c:39-54 | from exponent 0 to 9 the four results are integral |
| Round.SmallIntegral | halffloat/hf_lib_round.c:26-37 | below 1 in magnitude the four results are integral |
| Round.RoundingIsIntegral | halffloat/hf_lib_round.c:20-186 | every rounding function returns an integer, an infinity or a quiet NaN |
| Round.RoundingIdempotent | halffloat/hf_lib_round.c:20-186 | rounding twice is rounding once, for each of the four functions |
| Round.RoundBelowHalf | halffloat/hf_lib_round.c:115-127 | `hf_round` sends every positive normal below one half (0.25 among them) to 1.0, since it compares the mantissa with 1 << 14 without looking at the exponent |
| Round.TowardZero | halffloat/hf_lib_round.c:20-102 | `hf_ceil` of a negative operand and `hf_floor` of a positive one equal `hf_trunc` |
| Round.TowardZeroRecord | halffloat/hf_lib_round.c:20-102 | the same on the composed records |
| Round.InRangeCeilFloor | halffloat/hf_lib_round.c:39-98 | from exponent 0 to 9, `hf_ceil(-x) == -hf_floor(x)` |
| Round.InRangeTrunc | halffloat/hf_lib_round.c:173-181 | from exponent 0 to 9 `hf_trunc` is odd |
| Round.InRangeRound | halffloat/hf_lib_round.c:130-151 | from exponent 0 to 9 `hf_round` is odd |
| Round.SmallCeilFloor | halffloat/hf_lib_round.c:26-81 | below 1 in magnitude, `hf_ceil(-x) == -hf_floor(x)` |
| Round.SmallTrunc | halffloat/hf_lib_round.c:168-171 | below 1 in magnitude `hf_trunc` is odd |
| Round.SmallRound | halffloat/hf_lib_round.c:115-127 | below 1 in magnitude `hf_round` is odd except on the subnormals it sends to +0 from either sign |
| Round.UnchangedSymmetry | halffloat/hf_lib_round.c:24 | on the words all four functions leave alone, the symmetries hold trivially |
| Round.SignSymmetry | halffloat/hf_lib_round.c:20-186 | for every word `hf_ceil(-x) == -hf_floor(x)` and `hf_floor(-x) == -hf_ceil(x)`, `hf_trunc` is odd, and `hf_round` is odd except on the subnormals below 2^-15, which both signs send to +0 |
| Round.TruncMantissa | halffloat/hf_lib_round.c:175-179 | no ensures; the masked mantissa, stated by `TruncRecord` as the fixed-point value rounded down to the integer step |
| Round.CeilMantissa | halffloat/hf_lib_round.c:40-52 | no ensures; stated by `CeilRecord`: rounded up for a positive operand, down for a negative one |
| Round.FloorMantissa | halffloat/hf_lib_round.c:84-96 | no ensures; stated by `FloorRecord`: rounded down for a positive operand, up for a negative one |
| Round.RoundMantissa | halffloat/hf_lib_round.c:131-147 | no ensures; stated by `RoundRecord` as rounding to the nearest step with ties to even |
| Round.Trunc | halffloat/hf_lib_round.c:162-186 | no ensures; what it computes is stated by `TruncInRange`, `InRangeTrunc`, `SmallTrunc`, `TowardZero`, `RoundingIsIntegral`, `RoundingIdempotent`, `IntegralUnchanged` and `SignSymmetry` |
| Round.Int | halffloat/hf_lib_round.c:197-199 | no ensures; `hf_int` is `hf_trunc`, and `Legacy.IntIsTrunc` relates the single-file `hf_int` to it |
| Round.Ceil | halffloat/hf_lib_round.c:20-58 | no ensures; what it computes is stated by `CeilInRange`, `InRangeCeilFloor`, `SmallCeilFloor`, `CeilOfNegated`, `RoundingIsIntegral`, `RoundingIdempotent` and `IntegralUnchanged` |
| Round.Floor | halffloat/hf_lib_round.c:65-102 | no ensures; what it computes is stated by `FloorInRange`, `InRangeCeilFloor`, `SmallCeilFloor`, `RoundingIsIntegral`, `RoundingIdempotent` and `IntegralUnchanged` |
| Round.Round | halffloat/hf_lib_round.c:109-155 | no ensures; what it computes is stated by `RoundInRange`, `InRangeRound`, `SmallRound`, `RoundBelowHalf`, `RoundOfNegated`, `RoundingIsIntegral`, `RoundingIdempotent` and `IntegralUnchanged` |
| Misc.Cmp | halffloat/hf_lib_misc.c:35-39 | `hf_cmp` returns -2 exactly when either word decodes to a NaN, otherwise -1, 0 or 1, and 0 exactly for the same non-NaN word |
| Misc.DecomposeInjective | halffloat/hf_common.c:143-155 | distinct words decode to distinct records |
| Misc.Min | halffloat/hf_lib_misc.c:57-88 | `hf_min` of two NaNs is 0x7E00, and in every other case one of the two operands, bit for bit |
| Misc.Max | halffloat/hf_lib_misc.c:106-137 | `hf_max` of two NaNs is 0x7E00, and in every other case one of the two operands, bit for bit |
| Misc.FieldOrder | halffloat/hf_common.c:145-147 | on non-negative words the word order is the order of exponent field, then fraction |
| Misc.DecodedOrder | halffloat/hf_common.c:143-155 | decoding keeps that order on exponent, then mantissa |
| Misc.CmpNonNegative | halffloat/hf_lib_misc.c:35-39 | for two non-negative non-NaN words `hf_cmp` is -1, 0 or 1 as the first word is below, equal to or above the second |
| Misc.CmpAntisymmetric | halffloat/hf_lib_misc.c:35-39 | on non-negative non-NaN words `hf_cmp(a, b) == -hf_cmp(b, a)` |
| Misc.CmpMixedSigns | halffloat/hf_lib_common.c:78-79 | a negative number compares below a non-negative one in either order, zeros included |
| Misc.CmpSignedZeros | halffloat/hf_lib_misc.c:27 | `hf_cmp(+0, -0)` is 1 and `hf_cmp(-0, +0)` is -1, although the documentation promises 0 |
| Misc.CmpNegatives | halffloat/hf_lib_common.c:81-86 | two distinct negative words compare -1 in both orders |
| Misc.MinMaxOneNaN | halffloat/hf_lib_misc.c:62-70 | a single NaN operand is ignored: the other operand comes back unchanged (minNum and maxNum of section 5.3.1 of IEEE 754-2008) |
| Misc.MinMaxNonNegative | halffloat/hf_lib_misc.c:71-84 | on non-negative numbers `hf_min` and `hf_max` return the smaller and the larger word |
| Misc.MinMaxMixedSigns | halffloat/hf_lib_misc.c:71-84 | a negative number is the minimum and a non-negative one the maximum, in either order |
| Misc.MinMaxSignedZeros | halffloat/hf_lib_misc.c:75-82 | `hf_min` of mixed-sign zeros is -0 and `hf_max` is +0, in either order |
| Misc.MinMaxInfinity | halffloat/hf_lib_misc.c:98-100 | `hf_max(+inf, v)` is +inf and `hf_min(+inf, v)` is v, in either order, for every non-NaN v |
| Misc.MinMaxNegatives | halffloat/hf_lib_misc.c:71-84 | on two distinct negative numbers `hf_min` returns the first operand and `hf_max` the second, whatever their values |
| ExpLog.ComposedUnit | halffloat/hf_lib_exp.c:149-152 | the record 1.0 (exp 0, mantissa 1 << 15) with either sign packs to +1.0 or -1.0 |
| ExpLog.ScaledValue | halffloat/hf_lib_exp.c:114 | the shift by the exponent multiplies by 2^exp for exp >= 0 and is the floor of the quotient (arithmetic shift) for exp < 0 |
| ExpLog.LnResult | halffloat/hf_lib_exp.c:26-64 | the record `hf_ln` composes has a proper sign and a non-negative mantissa |
| ExpLog.LnIndex | halffloat/hf_lib_exp.c:53 | the `ln_table` index `(mant >> 5) & 0x3FF` lies in [0, 1023] |
| ExpLog.LnFinite | halffloat/hf_lib_exp.c:47-63 | the table path of `hf_ln` is negative exactly when exp * ln 2 + `ln_table[idx]` is negative, and has a non-negative mantissa |
| ExpLog.LnSpecial | halffloat/hf_lib_exp.c:35-45 | ln(+-0) is -infinity, a NaN or negative number gives a NaN with the operand's sign, and ln(+infinity) is +infinity |
| ExpLog.LnReadsFraction | halffloat/hf_lib_exp.c:50-53 | after normalising a subnormal the table index is the fraction of the normalised mantissa; a normal number reads its own fraction field |
| ExpLog.LnOfOne | halffloat/hf_lib_exp.c:26-67 | ln(1) is +0, given `ln_table[0] == 0` |
| ExpLog.LnOfOneRecord | halffloat/hf_lib_exp.c:47-63 | the table path of 1.0 composes to +0 |
| ExpLog.LnAtLeastOne | halffloat/hf_lib_exp.c:47-63 | the logarithm of a number of at least 1.0 is never negative |
| ExpLog.ExpResult | halffloat/hf_lib_exp.c:83-121 | the record `hf_exp` composes has a proper sign and a non-negative mantissa, positive for every non-NaN operand |
| ExpLog.ExpSpecial | halffloat/hf_lib_exp.c:93-100 | a NaN keeps its sign, exp(+infinity) is +infinity and exp(-infinity) is +0 |
| ExpLog.ExpSaturates | halffloat/hf_lib_exp.c:102-109 | when exp > 3, or exp == 3 with mantissa at least 3 * 2^14 (magnitude 12 or more), the result is +infinity for a positive operand and +0 for a negative one |
| ExpLog.ExpNotNegative | halffloat/hf_lib_exp.c:88 | the result of `hf_exp` is never negative unless it is a NaN |
| ExpLog.ExpOfZero | halffloat/hf_lib_exp.c:110-119 | e^(+-0) is 1.0, given `exp_table[0] == 32768` |
| ExpLog.ExpOfZeroRecord | halffloat/hf_lib_exp.c:110-119 | the arithmetic path of a zero composes to 1.0 |
| ExpLog.ZeroArgument | halffloat/hf_lib_exp.c:111-117 | a zero operand reaches `exp_fixed` as the fixed-point value 0 |
| ExpLog.ExpFixedOne | halffloat/hf_lib_exp.c:117-119 | `exp_fixed(0)` rounded and packed is 1.0 |
| ExpLog.ParitySign | halffloat/hf_lib_exp.c:190 | the parity sign is a proper sign value |
| ExpLog.PowResult | halffloat/hf_lib_exp.c:144-252 | the record `hf_pow` composes has a proper sign and a non-negative mantissa |
| ExpLog.PowCases | halffloat/hf_lib_exp.c:155-252 | each case of `hf_pow` yields a proper sign and a non-negative mantissa |
| ExpLog.PowFinite | halffloat/hf_lib_exp.c:220-250 | the general path is negative exactly when the base is negative and the exponent an odd integer |
| ExpLog.OneIsOdd | halffloat/hf_lib_common.c:108-129 | `check_int_half` of the exponent 1.0 is 1 |
| ExpLog.UnitWord | halffloat/hf_lib_exp.c:156-160 | the two words of magnitude one decode to exp 0 and mantissa 1 << 15, and the positive one has sign 0 |
| ExpLog.InfinityWord | halffloat/hf_lib_exp.c:156 | the two infinities have the magnitude bits 0x7C00 |
| ExpLog.PowZeroExponent | halffloat/hf_lib_exp.c:149-155 | x^(+-0) is 1.0 for every x, a NaN included |
| ExpLog.PowUnitBase | halffloat/hf_lib_exp.c:159-178 | 1^y is 1.0 for every y; (-1)^y is 1.0 for an infinite or NaN y, +-1.0 by parity for an integer y and 0x7E00 for a non-integer y |
| ExpLog.PowNaN | halffloat/hf_lib_exp.c:180-184 | apart from a base of magnitude one and a zero exponent, a NaN operand gives 0x7E00 |
| ExpLog.PowZeroBase | halffloat/hf_lib_exp.c:185-191 | 0^y is +infinity for a negative y and a zero for a positive y, with sign negative only for -0 and an odd integer y |
| ExpLog.PowInfiniteBase | halffloat/hf_lib_exp.c:192-198 | infinity^y is a zero for a negative y and an infinity for a positive y, negative only for -infinity and an odd integer y |
| ExpLog.PowInfiniteExponent | halffloat/hf_lib_exp.c:199-209 | x^+infinity is +infinity for \|x\| > 1 and +0 for \|x\| < 1, and x^-infinity the other way round, zeros and infinities included |
| ExpLog.InfiniteExponentCases | halffloat/hf_lib_exp.c:185-209 | the case analysis on an infinite exponent, zeros and infinite bases included |
| ExpLog.PowByOne | halffloat/hf_lib_exp.c:210-214 | x^1 hands the decoded base itself to `compose_half`, so it is x for exponent fields 2 to 31 and the signed zero for subnormals |
| ExpLog.ByOneCases | halffloat/hf_lib_exp.c:159-214 | every case reached with exponent 1.0 and a non-NaN base yields the decoded base |
| ExpLog.PowNegativeNonInteger | halffloat/hf_lib_exp.c:215-219 | a negative finite non-zero base with a finite non-integer exponent gives 0x7E00 |
| ExpLog.NegativeNonIntegerCases | halffloat/hf_lib_exp.c:215-219 | the case analysis that reaches the NaN for a negative base and a non-integer exponent |
| ExpLog.PowSign | halffloat/hf_lib_exp.c:155-252 | for a finite non-zero base and exponent, the result is negative exactly when the base is negative and the exponent an odd integer |
| ExpLog.SignCases | halffloat/hf_lib_exp.c:159-250 | every case reached with finite non-zero operands carries the parity sign |
| ExpLog.PowLnIsLn | halffloat/hf_lib_exp.c:231-237 | the interpolation step of the logarithm in `hf_pow` never contributes, since a decoded mantissa has clear guard bits, so `hf_pow` uses the same ln \|x\| as `hf_ln` |
| ExpLog.Scaled | halffloat/hf_lib_exp.c:114 | no ensures; the shift by the exponent, stated by `ScaledValue` |
| ExpLog.Ln | halffloat/hf_lib_exp.c:26-67 | no ensures; what it computes is stated by `LnResult`, `LnSpecial`, `LnOfOne` and `LnAtLeastOne` |
| ExpLog.LnFixed | halffloat/hf_lib_exp.c:51-55 | no ensures; the Q15 logarithm `exp * LNI_2 + ln_table[idx]`, bounded by `LnFinite` and equal to the logarithm of `hf_pow` by `PowLnIsLn` |
| ExpLog.Exp | halffloat/hf_lib_exp.c:83-124 | no ensures; what it computes is stated by `ExpResult`, `ExpSpecial`, `ExpSaturates`, `ExpNotNegative` and `ExpOfZero` |
| ExpLog.ExpOverflows | halffloat/hf_lib_exp.c:103-104 | no ensures; the `|x| >= 12` test, whose outcome is stated by `ExpSaturates` |
| ExpLog.Pow | halffloat/hf_lib_exp.c:144-255 | no ensures; what it computes is stated by `PowResult`, `PowCases`, `PowZeroExponent`, `PowUnitBase`, `PowNaN`, `PowZeroBase`, `PowInfiniteBase`, `PowInfiniteExponent`, `PowByOne`, `PowNegativeNonInteger` and `PowSign` |
| ExpLog.PowLnFixed | halffloat/hf_lib_exp.c:228-237 | no ensures; the logarithm of the base with interpolation, equal to `LnFixed` by `PowLnIsLn` |
| Trig.DecomposeNeg | halffloat/hf_lib_arith.c:31-35 | `hf_neg` flips only the sign of the decoded record; exponent and mantissa are unchanged |
| Trig.ComposedNeg | halffloat/hf_lib_arith.c:31-35 | a record with the opposite sign composes to the negated word, for every record with a non-negative mantissa |
| Trig.Fixed | halffloat/hf_lib_trig.c:674 | `mant << exp` / `mant >> -exp` of a finite operand is a non-negative int32 Q15 magnitude: below 0x8000 for a negative exponent, the mantissa itself at exponent 0, at least 2.0 for a positive exponent |
| Trig.Signed | halffloat/hf_lib_trig.c:692-696 | a signed Q15 value becomes a record with exponent 0, the negative sign exactly when the value is negative, and the value's magnitude as mantissa |
| Trig.SinusResult | halffloat/hf_lib_trig.c:650-703 | the record `sinus_shiftable` composes has a valid sign and a non-negative mantissa |
| Trig.Turn | halffloat/hf_lib_trig.c:674-679 | the turn fraction after reduction, the flip for a negative angle and the phase lies in [0, 65535] |
| Trig.SignedTurn | halffloat/hf_lib_trig.c:677-678 | the reduced magnitude taken from a full turn for a negative angle lies in [0, 65536] |
| Trig.SinIndex | halffloat/hf_lib_trig.c:685-686 | the Q4 sine index (low 14 bits, reflected when bit 14 is set) lies in [0, 0x3FFF] |
| Trig.SinValue | halffloat/hf_lib_trig.c:685-692 | the signed Q15 sine is non-negative in the first half turn and non-positive in the second |
| Trig.SinFinite | halffloat/hf_lib_trig.c:689-699 | the arithmetic path of `sinus_shiftable` yields a rounded record with a valid sign and non-negative mantissa |
| Trig.SinCosSpecial | halffloat/hf_lib_trig.c:660-667 | `hf_sin` and `hf_cos` return the quiet NaN with the input's sign for a NaN and 0xFE00 for either infinity |
| Trig.CosIsShiftedSine | halffloat/hf_lib_trig.c:57-60 | for every finite angle `hf_cos` reads the sine at the turn fraction plus a quarter turn (16384) modulo 65536 |
| Trig.TurnPhase | halffloat/hf_lib_trig.c:679 | adding the phase and masking with 0xFFFF is addition modulo 65536 of the unshifted turn fraction |
| Trig.SinTableIndices | halffloat/hf_lib_trig.c:685-689 | the two entries the sine interpolation reads lie within the 1025-entry table, so the clamp in `table_interpolate` never applies |
| Trig.SinHalfTurn | halffloat/hf_lib_trig.c:692 | half a turn further on the Q15 sine is negated: sin(x + pi) == -sin(x) at every turn fraction |
| Trig.SinMirror | halffloat/hf_lib_trig.c:685-686 | the second-quarter reflection `0x3FFF - idx` is one step off: the sine at half turn minus n equals the sine at n - 1, for every n in [1, 0x8000] |
| Trig.SinNegatedTurn | halffloat/hf_lib_trig.c:678-692 | the sine at a full turn minus n is the negated sine at n - 1: sine is odd only up to one 1/65536 step |
| Trig.SinIndexNegated | halffloat/hf_lib_trig.c:685-686 | the table index at 65536 - n equals the index at n - 1 |
| Trig.SinIndexParts | halffloat/hf_lib_trig.c:685-686 | in quarter q at offset low the index is low for even q and 0x3FFF - low for odd q |
| Trig.TurnOfNegation | halffloat/hf_lib_trig.c:677-678 | a negative angle's turn fraction is (65536 - the positive one's) modulo 65536 |
| Trig.TanResult | halffloat/hf_lib_trig.c:75-149 | the record `hf_tan` composes has a valid sign and non-negative mantissa |
| Trig.TanTurn | halffloat/hf_lib_trig.c:101-105 | the half-turn fraction (factor 1, flipped for a negative angle, not masked) lies in [0, 65536] |
| Trig.TanIndex | halffloat/hf_lib_trig.c:119-125 | the Q7 index into a `TAN_DUAL_TABLE_SIZE + 1` table stays within the table; 0 at the segment start, the last entry at its end |
| Trig.TanIndexBounds | halffloat/hf_lib_trig.c:119-120 | the whole part `input*256/range` is at most 256 and the Q7 fraction is below 128 |
| Trig.TanValue | halffloat/hf_lib_trig.c:106-130 | the signed Q15 tangent is non-negative up to a half turn of 32768 and non-positive above |
| Trig.TanValueBound | halffloat/hf_lib_trig.c:125-126 | a 16-bit table entry shifted by 2 or 9 keeps the tangent strictly within +-2^25 |
| Trig.TanFinite | halffloat/hf_lib_trig.c:133-145 | the overflow test and sign handling of `hf_tan` yield a record with a valid sign and non-negative mantissa |
| Trig.TanSpecial | halffloat/hf_lib_trig.c:83-92 | `hf_tan` returns the quiet NaN with the input's sign for a NaN and 0xFE00 for either infinity |
| Trig.TanFiniteResult | halffloat/hf_lib_trig.c:133-136 | the overflow branch never fires: every finite angle gives a word whose exponent field is not 31 |
| Trig.SmallSignedFinite | halffloat/hf_common.c:243-284 | a record with exponent 0 and magnitude below 2^25 rounds and composes to a finite word |
| Trig.FiniteComposed | halffloat/hf_common.c:163-196 | a rounded record with exponent below 16 composes to a word that is neither infinite nor NaN |
| Trig.AsinusResult | halffloat/hf_lib_trig.c:712-754 | the record `asinus_shiftable` composes has a valid sign and non-negative mantissa |
| Trig.AsinValue | halffloat/hf_lib_trig.c:729-735 | the interpolated arcsine table value lies in [0, pi/2 in Q15] |
| Trig.AsinusFixed | halffloat/hf_lib_trig.c:734-747 | before rounding, arcsine keeps the input's sign and is at most pi/2; arccosine is positive and at most pi |
| Trig.AcosComplementsAsin | halffloat/hf_lib_trig.c:738-747 | before rounding, acos(x) == pi/2 - asin(x) in Q15 for both signs of x |
| Trig.FixedAboveOne | halffloat/hf_lib_trig.c:724-728 | the Q15 magnitude exceeds 0x8000 exactly when the word's magnitude exceeds 1.0, and equals it exactly at +-1.0 |
| Trig.AsinOutOfDomain | halffloat/hf_lib_trig.c:716-728 | `hf_asin` and `hf_acos` of a NaN, an infinity or a magnitude above 1.0 return the quiet NaN with the input's sign |
| Trig.AsinInDomain | halffloat/hf_lib_trig.c:728-750 | inside [-1, 1] both are finite: arcsine has the input's sign, arccosine is positive |
| Trig.AsinusFinite | halffloat/hf_lib_trig.c:749 | rounding the Q15 arcsine or arccosine yields an exponent below 16 |
| Trig.RoundedBelowFour | halffloat/hf_common.c:243-284 | a record with exponent 0 and mantissa below 2^17 rounds to an exponent below 16 |
| Trig.AsinOdd | halffloat/hf_lib_trig.c:158-160 | `hf_asin(-x) == -hf_asin(x)` for every word, NaNs included |
| Trig.AsinusSign | halffloat/hf_lib_trig.c:717-746 | for arcsine the input's sign only rides along into the result record |
| Trig.AcosReflection | halffloat/hf_lib_trig.c:743 | before rounding, acos(-x) + acos(x) == pi (twice `ACOS_SHIFT`) in Q15 |
| Trig.AtanResult | halffloat/hf_lib_trig.c:181-238 | the record `hf_atan` composes carries the input's sign and a non-negative mantissa |
| Trig.AtanRatio | halffloat/hf_lib_trig.c:210-223 | the Q15 ratio is the magnitude itself up to 1.0 and `(1 << 30) / norm` above, always in [0, 1.0] |
| Trig.AtanEntry | halffloat/hf_lib_trig.c:226 | the interpolated arctangent table value lies in [0, pi/2] |
| Trig.AtanValue | halffloat/hf_lib_trig.c:226-229 | the Q15 arctangent, with the complement above 1.0, lies in [0, pi/2] |
| Trig.PiHalfRounded | halffloat/hf_lib_trig.c:197-198 | pi/2 in Q15 (51472) rounds and composes to 0x3E48 with the given sign |
| Trig.AtanSpecial | halffloat/hf_lib_trig.c:185-199 | a NaN keeps its sign, +-infinity gives +-pi/2 (0x3E48 with the sign), and every result has the input's sign |
| Trig.AtanOdd | halffloat/hf_lib_trig.c:185-232 | `hf_atan(-x) == -hf_atan(x)` for every word |
| Trig.AtanReciprocal | halffloat/hf_lib_trig.c:213-229 | above 1.0 the values at `norm` and at its Q15 reciprocal add up to pi/2: atan(x) + atan(1/x) == pi/2 |
| Trig.Atan2Result | halffloat/hf_lib_trig.c:250-304 | the record `hf_atan2` composes has a valid sign and non-negative mantissa |
| Trig.Atan2InfAngle | halffloat/hf_lib_trig.c:267-273 | the angle chosen for an infinite input lies in [0, pi] |
| Trig.Atan2Ratio | halffloat/hf_lib_trig.c:292-293 | the clamped Q15 ratio of the smaller over the larger mantissa lies in [0, 1.0] |
| Trig.Atan2Value | halffloat/hf_lib_trig.c:278-298 | for finite inputs not both zero the angle is in [0, pi/2] when x is positive and in [pi - pi/2, pi] when x is negative |
| Trig.Atan2Operands | halffloat/hf_lib_trig.c:281-292 | the divisor mantissa is non-zero and the exponent difference lies in [-30, 30] |
| Trig.Atan2Special | halffloat/hf_lib_trig.c:259-278 | a NaN in either argument gives 0xFE00, and (+-0, +-0) returns y unchanged |
| Trig.Atan2Infinite | halffloat/hf_lib_trig.c:266-276 | an infinite y with finite x gives +-pi/2 with y's sign; without a NaN every result has y's sign |
| Trig.Atan2InfiniteBoth | halffloat/hf_lib_trig.c:267-268 | two infinities give 3pi/4 for a negative x and pi/4 for a positive x, rounded, with y's sign |
| Trig.Atan2InfiniteX | halffloat/hf_lib_trig.c:271-275 | a finite y with x = -infinity gives pi rounded with y's sign, and with x = +infinity the zero of y's sign |
| Trig.Atan2OddInY | halffloat/hf_lib_trig.c:255-300 | `hf_atan2(-y, x) == -hf_atan2(y, x)` whenever neither argument is a NaN |
| Trig.Atan2Sign | halffloat/hf_lib_trig.c:255 | y's sign only rides along into the result record |
| Trig.Atan2ValueSign | halffloat/hf_lib_trig.c:281-298 | the angle magnitude reads only the exponent and mantissa of y |
| Trig.Atan2Swap | halffloat/hf_lib_trig.c:282-297 | in the first quadrant, for distinct magnitudes, atan2(y, x) + atan2(x, y) == pi/2 in Q15 |
| Trig.Reciprocal31 | halffloat/hf_lib_trig.c:772-776 | the Q31 reciprocal of a mantissa in [1.0, 2.0) lies in [0x8000, 0x10000] |
| Trig.CoshSinh | halffloat/hf_lib_trig.c:764-786 | the helper's record is `exp_fixed`'s e^abs(x) with exponent at least 0; its mantissa is in [1.0, 2.0); the aligned e^-abs(x) lies in [0, 1.0] |
| Trig.CoshSinhReciprocal | halffloat/hf_lib_trig.c:772-785 | e^-abs(x) is 2^31 / (mantissa * 2^(2 exp + 1)) rounded down, the reciprocal aligned to e^abs(x)'s exponent |
| Trig.CoshSinhAtZero | halffloat/hf_lib_trig.c:764-786 | at x = 0 both e^0 and e^-0 are exactly 1.0 in Q15 with exponent 0 |
| Trig.Halved | halffloat/hf_lib_trig.c:350-355 | halving keeps the sign, gives v / 2, and lowers the exponent by one only for v == 1 |
| Trig.CoshSinhSign | halffloat/hf_lib_trig.c:764-786 | the helper ignores the sign of the record passed in: the two mantissas do not depend on it |
| Trig.SinhResult | halffloat/hf_lib_trig.c:318-361 | the record `hf_sinh` composes carries the input's sign and a non-negative mantissa |
| Trig.SinhFinite | halffloat/hf_lib_trig.c:338-357 | the arithmetic path of `hf_sinh` carries the sign it is given |
| Trig.HalfDifference | halffloat/hf_lib_trig.c:349-357 | (e^x - e^-x) / 2 keeps the helper record's sign and has a non-negative mantissa |
| Trig.SinhFiniteSign | halffloat/hf_lib_trig.c:323-357 | the negative path is the positive path with the negative sign |
| Trig.HalfDifferenceSign | halffloat/hf_lib_trig.c:349-357 | halving the difference commutes with setting the sign |
| Trig.SinhSpecial | halffloat/hf_lib_trig.c:323-336 | a NaN keeps its sign, an infinity is returned unchanged, an input with exponent field 0 (a subnormal, or a zero with `is_subnormal` read as including the zeros) gives the zero of its sign, and every result has the input's sign |
| Trig.SinhFiniteAtZero | halffloat/hf_lib_trig.c:338-357 | on the arithmetic path, +-0 gives the zero of its own sign: e^0 - e^-0 is 0, so sinh(+-0) is the same under either reading of `is_subnormal` |
| Trig.SinhOdd | halffloat/hf_lib_trig.c:318-361 | `hf_sinh(-x) == -hf_sinh(x)` for every word |
| Trig.CoshResult | halffloat/hf_lib_trig.c:376-414 | the record `hf_cosh` composes is always positive with a non-negative mantissa |
| Trig.CoshFinite | halffloat/hf_lib_trig.c:391-410 | the arithmetic path of `hf_cosh` is positive |
| Trig.CoshSpecial | halffloat/hf_lib_trig.c:381-389 | every NaN gives the positive quiet NaN, both infinities give +infinity, and every result is positive |
| Trig.CoshEven | halffloat/hf_lib_trig.c:376-414 | `hf_cosh(-x) == hf_cosh(x)` for every word |
| Trig.CoshResultSign | halffloat/hf_lib_trig.c:381-396 | the result record does not depend on the input's sign |
| Trig.CoshOfZero | halffloat/hf_lib_trig.c:376-414 | cosh(+0) and cosh(-0) are exactly 1.0 (0x3C00) |
| Trig.CoshAtZero | halffloat/hf_lib_trig.c:399-410 | the arithmetic path at 0 gives the record 1.0 |
| Trig.TanhResult | halffloat/hf_lib_trig.c:426-478 | the record `hf_tanh` composes has a valid sign and non-negative mantissa |
| Trig.TanhFinite | halffloat/hf_lib_trig.c:443-474 | the arithmetic path of `hf_tanh` yields a valid sign and non-negative mantissa |
| Trig.TanhOfParts | halffloat/hf_lib_trig.c:455-474 | the quotient step on the helper's outputs yields a valid sign and non-negative mantissa |
| Trig.SignedSinh | halffloat/hf_lib_trig.c:455 | for a positive input and e^x >= e^-x the unhalved sinh is non-negative |
| Trig.TanhQuotient | halffloat/hf_lib_trig.c:463-471 | the quotient record has exponent 0, a magnitude capped at 1.0, and the negative sign exactly when the truncated quotient is negative |
| Trig.TanhSpecial | halffloat/hf_lib_trig.c:435-441 | a NaN keeps its sign, and +-infinity gives +-1.0 |
| Trig.TanhFiniteAtMostOne | halffloat/hf_lib_trig.c:459-474 | the rounded finite result has magnitude at most 1.0 |
| Trig.TanhPartsAtMostOne | halffloat/hf_lib_trig.c:463-474 | the rounded quotient has magnitude at most 1.0 whenever cosh is positive |
| Trig.TanhBounded | halffloat/hf_lib_trig.c:426-478 | for every non-NaN word the magnitude of `hf_tanh` is at most 0x3C00 (1.0) |
| Trig.AtMostOneComposed | halffloat/hf_common.c:163-196 | a rounded record of magnitude at most 1.0 composes to a word of magnitude at most 0x3C00 |
| Trig.BelowOneComposed | halffloat/hf_common.c:163-196 | a normal record with exponent in [-14, -1] composes to a word of magnitude below 0x3C00 |
| Trig.TanhFiniteOdd | halffloat/hf_lib_trig.c:455-474 | the negative path is the negation of the positive one, or both are +0 |
| Trig.TanhPartsOdd | halffloat/hf_lib_trig.c:455-474 | the quotient step for a negated sinh is the negation, or both are +0 |
| Trig.TanhQuotientOdd | halffloat/hf_lib_trig.c:463-469 | a non-negative sinh gives the positive sign; its negation the same magnitude with the negative sign unless that magnitude is 0 |
| Trig.TanhOdd | halffloat/hf_lib_trig.c:426-478 | `hf_tanh(-x) == -hf_tanh(x)`, except where the quotient truncates to zero and both give +0 |
| Trig.TanhNegativeZero | halffloat/hf_lib_trig.c:463-469 | tanh(-0) is +0, since a zero quotient takes the positive sign |
| Trig.AsinhResult | halffloat/hf_lib_trig.c:491-522 | the record `hf_asinh` composes carries the input's sign and a non-negative mantissa |
| Trig.AsinhSpecial | halffloat/hf_lib_trig.c:499-506 | a NaN keeps its sign; infinities and zeros are returned unchanged |
| Trig.AsinhOdd | halffloat/hf_lib_trig.c:509-517 | `hf_asinh(-x) == -hf_asinh(x)` for every word |
| Trig.AcoshResult | halffloat/hf_lib_trig.c:535-577 | the record `hf_acosh` composes has a valid sign and non-negative mantissa |
| Trig.AcoshSpecial | halffloat/hf_lib_trig.c:543-557 | a NaN keeps its sign, -infinity gives 0xFE00, +infinity is kept |
| Trig.AcoshBelowOne | halffloat/hf_lib_trig.c:558-563 | every finite negative input (-0 included) and every positive one below 1.0 gives the positive quiet NaN |
| Trig.AcoshOne | halffloat/hf_lib_trig.c:564-574 | acosh(1.0) is +0 |
| Trig.AcoshValueOne | halffloat/hf_lib_trig.c:567-572 | the composition of word operations is exact at 1.0 and gives +0 |
| Trig.AtanhResult | halffloat/hf_lib_trig.c:590-641 | the record `hf_atanh` composes has a valid sign and non-negative mantissa |
| Trig.AtanhNonFinite | halffloat/hf_lib_trig.c:598-606 | a NaN keeps its sign; either infinity gives 0xFE00 |
| Trig.AtanhUnit | halffloat/hf_lib_trig.c:607-611 | +-1.0 gives the infinity of that sign |
| Trig.AtanhOutside | halffloat/hf_lib_trig.c:612-617 | a finite magnitude above 1.0 gives the positive quiet NaN |
| Trig.AtanhSubnormal | halffloat/hf_lib_trig.c:625-627 | an input with exponent field 0 (a subnormal, or a zero under the reading of `is_subnormal` that includes the zeros) is decoded and composed back, which flushes it to the zero of its sign |
| Trig.AtanhValueAtZero | halffloat/hf_lib_trig.c:628-635 | on the arithmetic path, +0 and -0 both give +0: 1 + x and 1 - x are 1.0, their quotient 1.0, its logarithm +0 and half of it +0 |
| Trig.QuotientAtZero | halffloat/hf_lib_trig.c:629-631 | for x = +-0, `hf_div(hf_add(1, x), hf_sub(1, x))` is exactly 1.0 |
| Trig.HalfWord | halffloat/hf_lib_trig.c:633 | `float_to_half(0.5f)` is the half word 0x3800 |
| Trig.Sin | halffloat/hf_lib_trig.c:38-40 | no ensures; what it computes is stated by `SinCosSpecial` and `SinusResult` |
| Trig.Cos | halffloat/hf_lib_trig.c:57-60 | no ensures; what it computes is stated by `SinCosSpecial` and `CosIsShiftedSine` |
| Trig.SinusShiftable | halffloat/hf_lib_trig.c:650-703 | no ensures; the composed `SinusResult`, whose cases are stated by its ensures, `SinCosSpecial` and `CosIsShiftedSine` |
| Trig.SinEntry | halffloat/hf_lib_trig.c:689 | no ensures; the table read, stated by `Legacy.EntryAgrees` as the interpolation of two neighbouring sine table entries |
| Trig.Tan | halffloat/hf_lib_trig.c:75-149 | no ensures; what it computes is stated by `TanResult`, `TanSpecial` and `TanFiniteResult` |
| Trig.Asin | halffloat/hf_lib_trig.c:158-160 | no ensures; what it computes is stated by `AsinOutOfDomain`, `AsinInDomain` and `AsinOdd` |
| Trig.Acos | halffloat/hf_lib_trig.c:168-170 | no ensures; what it computes is stated by `AsinOutOfDomain` and `AsinInDomain` |
| Trig.AsinusShiftable | halffloat/hf_lib_trig.c:712-754 | no ensures; the composed `AsinusResult`, whose cases are stated by its ensures, `AsinOutOfDomain` and `AsinInDomain` |
| Trig.Atan | halffloat/hf_lib_trig.c:181-238 | no ensures; what it computes is stated by `AtanResult`, `AtanSpecial` and `AtanOdd` |
| Trig.Atan2 | halffloat/hf_lib_trig.c:250-304 | no ensures; what it computes is stated by `Atan2Result`, `Atan2Special`, `Atan2Infinite`, `Atan2InfiniteBoth`, `Atan2InfiniteX` and `Atan2OddInY` |
| Trig.IsSubnormal | halffloat/hf_lib_trig.c:333 | no ensures; the test `is_subnormal` the source calls without defining, whose chosen meaning shows in `AtanhSubnormal` |
| Trig.Sinh | halffloat/hf_lib_trig.c:318-361 | no ensures; what it computes is stated by `SinhResult`, `SinhSpecial` and `SinhOdd` |
| Trig.Cosh | halffloat/hf_lib_trig.c:376-414 | no ensures; what it computes is stated by `CoshResult`, `CoshSpecial`, `CoshEven` and `CoshOfZero` |
| Trig.Tanh | halffloat/hf_lib_trig.c:426-478 | no ensures; what it computes is stated by `TanhResult`, `TanhSpecial`, `TanhBounded`, `TanhOdd` and `TanhNegativeZero` |
| Trig.Asinh | halffloat/hf_lib_trig.c:491-522 | no ensures; what it computes is stated by `AsinhResult`, `AsinhSpecial` and `AsinhOdd` |
| Trig.AsinhMagnitude | halffloat/hf_lib_trig.c:509-514 | no ensures; `ln(|x| + sqrt(x^2 + 1))` through the word operations, whose use is stated by `AsinhSpecial` and `AsinhOdd` |
| Trig.Acosh | halffloat/hf_lib_trig.c:535-577 | no ensures; what it computes is stated by `AcoshResult`, `AcoshSpecial`, `AcoshBelowOne` and `AcoshOne` |
| Trig.AcoshValue | halffloat/hf_lib_trig.c:567-571 | no ensures; `ln(x + sqrt(x^2 - 1))` through the word operations, which is +0 at 1.0 by `AcoshValueOne` |
| Trig.Atanh | halffloat/hf_lib_trig.c:590-641 | no ensures; what it computes is stated by `AtanhResult`, `AtanhNonFinite`, `AtanhUnit`, `AtanhOutside` and `AtanhSubnormal` |
| Trig.AtanhValue | halffloat/hf_lib_trig.c:629-634 | no ensures; `0.5 * ln((1 + x) / (1 - x))` through the word operations, which is +0 at +0 by `AtanhValueAtZero` |
| Legacy.IntResult | halffloat/hf_lib.c:54-69 | the record the single-file `hf_int` composes keeps the operand's sign and has a non-negative mantissa |
| Legacy.IntIsTrunc | halffloat/hf_lib.c:54-69 | the single-file `hf_int` equals the modular `hf_trunc` on every word |
| Legacy.IntBelowOne | halffloat/hf_lib.c:60-65 | below 1.0 the masked fixed-point value is 0, so the result is a zero of the operand's sign |
| Legacy.IntInRange | halffloat/hf_lib.c:60-65 | for exponents 0 to 9 masking the fixed-point value at the binary point builds the same record as `hf_trunc` |
| Legacy.IntLarge | halffloat/hf_lib.c:60-65 | from exponent 10 up nothing below the binary point is left, and the operand is returned |
| Legacy.MaskScaled | halffloat/hf_lib.c:60-63 | `(m << e) & ~0x7FFF` is m rounded down to a multiple of 2^(15-e), shifted up by e |
| Legacy.NormalizedScaled | halffloat/hf_lib.c:63-65 | a normal guard-free record scaled up by 2^j with its exponent lowered by j normalises back to itself |
| Legacy.AddResult | halffloat/hf_lib.c:108-161 | the record the single-file `hf_add` composes has a valid sign and non-negative mantissa |
| Legacy.AddAgrees | halffloat/hf_lib.c:108-161 | on every pair of words that are not both zeros the single-file `hf_add` equals the modular one |
| Legacy.AddZeros | halffloat/hf_lib.c:136-157 | two zeros take the arithmetic path and give +0, so -0 + -0 is +0 here, unlike the modular `hf_add` |
| Legacy.AddCancels | halffloat/hf_lib.c:136-157 | every finite number plus its negation is +0, in either order |
| Legacy.DivResult | halffloat/hf_lib.c:221-270 | the record the single-file `hf_div` composes has a valid sign and non-negative mantissa |
| Legacy.DivAgrees | halffloat/hf_lib.c:221-270 | except for zero over zero the single-file `hf_div` equals the modular one on every pair of words |
| Legacy.DivZeroByZero | halffloat/hf_lib.c:241-244 | zero over zero is a NaN with the XOR of the signs (0x7E00 or 0xFE00), where the modular `hf_div` gives an infinity |
| Legacy.SqrtResult | halffloat/hf_lib.c:283-332 | the record `hf_sqrt` composes has a valid sign and non-negative mantissa |
| Legacy.SqrtRadicand | halffloat/hf_lib.c:308-311 | the fixed-point radicand is `mant * 2 * 2^exp` for a non-negative exponent |
| Legacy.RadicandBounds | halffloat/hf_lib.c:308-311 | the shifted radicand fits in 32 bits |
| Legacy.SqrtFinite | halffloat/hf_lib.c:305-328 | the arithmetic path of `hf_sqrt` yields a positive record with a non-negative mantissa |
| Legacy.ShiftSquareRoot | halffloat/hf_lib.c:305-323 | the sixteen shift-and-subtract iterations leave twice the integer square root of the radicand |
| Legacy.ShiftLoopStart | halffloat/hf_lib.c:305-323 | started with nothing consumed, the loop ends with twice the root of the whole input |
| Legacy.ShiftLoopCorrect | halffloat/hf_lib.c:314-323 | loop invariant: after k iterations `value` holds the unconsumed bits, and `sqrt / 2` is the root of the consumed prefix with remainder `quot` |
| Legacy.ConsumedTopBits | halffloat/hf_lib.c:315-317 | after k iterations the consumed radicand is the top 2k bits of the input and `value` the rest shifted up |
| Legacy.ShiftDigit | halffloat/hf_lib.c:315-317 | one iteration reads the next base-4 digit from the top two bits of `value` and drops it by the shift |
| Legacy.ShiftStep | halffloat/hf_lib.c:315-322 | one iteration keeps `sqrt` even and twice the root of the prefix extended by one digit |
| Legacy.ShiftHalvesRoot | halffloat/hf_lib.c:315-322 | one step with `sqrt` doubled is the step of the modular `square_root` on its half |
| Legacy.RootsAgree | halffloat/hf_lib.c:305-323 | a root with a remainder fitting the prefix is the unique integer square root |
| Legacy.SqrtSpecial | halffloat/hf_lib.c:292-302 | a zero comes back unchanged, a NaN or a negative non-zero number gives the quiet NaN with the operand's sign, +infinity gives +infinity |
| Legacy.SqrtPowerOfFour | halffloat/hf_lib.c:283-332 | the root of 4^k for 0 <= k <= 7 is exactly 2^k, equal to the modular `hf_sqrt` |
| Legacy.PowerOfFourRoot | halffloat/hf_lib.c:305-328 | the word of 4^k has the root 2^k |
| Legacy.RadicandPowerOfFour | halffloat/hf_lib.c:308-326 | the radicand of 4^k is the square of 2^(8+k), and that root in Q7 is 1.0 scaled by 2^k |
| Legacy.SqrtExact | halffloat/hf_lib.c:305-328 | a radicand that is a perfect square whose root is a guard-free normal mantissa gives exactly that mantissa |
| Legacy.SqrtExactSquares | halffloat/hf_lib.c:283-332 | `hf_sqrt` of 9, 25 and 36 is exactly 3, 5 and 6, as with the modular `hf_sqrt` |
| Legacy.PowResult | halffloat/hf_lib.c:474-619 | the record `hf_pow` composes has a valid sign and non-negative mantissa |
| Legacy.PowCases | halffloat/hf_lib.c:479-616 | every case of `hf_pow` leaves a valid sign and a non-negative mantissa |
| Legacy.InfiniteBaseSign | halffloat/hf_lib.c:510-525 | the sign chosen for an infinite base is a valid sign |
| Legacy.IntPart | halffloat/hf_lib.c:512 | the integer part `mant >> (15 - exp)` of an exponent of at least 1.0 is non-negative |
| Legacy.PowFinite | halffloat/hf_lib.c:551-615 | the general path, for a positive base, yields a positive record with a non-negative mantissa |
| Legacy.UnitRecord | halffloat/hf_lib.c:485 | only the word +1.0 decodes to the record (+, 0, 1 << 15) |
| Legacy.PowZeroExponent | halffloat/hf_lib.c:484-487 | x^(+-0) is 1.0 for every x, NaNs included |
| Legacy.PowOneBase | halffloat/hf_lib.c:484-487 | 1^y is 1.0 for every y, NaNs included |
| Legacy.PowNaN | halffloat/hf_lib.c:488-493 | otherwise a NaN operand gives the quiet NaN with the sign of the first NaN |
| Legacy.PowZeroBase | halffloat/hf_lib.c:494-501 | 0^y keeps the zero, its sign too, for a positive y, and gives +infinity for a negative y |
| Legacy.PowInfiniteBase | halffloat/hf_lib.c:503-526 | infinity^y is an infinity for positive y and a zero for negative y, negative only for -infinity with an odd integer part of y |
| Legacy.PowNegInfinityNonInteger | halffloat/hf_lib.c:510-516 | (-infinity)^3.5 is -infinity, since the integer part 3 is odd |
| Legacy.IntPartOdd | halffloat/hf_lib.c:512 | the integer part of 3.5 is 3 |
| Legacy.PowInfiniteExponent | halffloat/hf_lib.c:527-542 | x^+infinity is +infinity for abs(x) > 1 and +0 below, x^-infinity the reverse, and (-1)^(+-infinity) is 1.0 |
| Legacy.PowByOne | halffloat/hf_lib.c:543-545 | x^1 hands the decoded base to `compose_half`: x for exponent fields from 2 up, a signed zero for a subnormal |
| Legacy.PowNegativeBase | halffloat/hf_lib.c:546-550 | a negative finite non-zero base with a finite non-zero exponent other than 1.0 gives 0xFE00, integer exponents included |
| Legacy.PowPositiveBase | halffloat/hf_lib.c:551-615 | a positive base with neither operand a NaN gives a result with a clear sign bit |
| Legacy.SinusResult | halffloat/hf_lib.c:790-851 | the record the single-file `sinus_shiftable` composes has a valid sign and non-negative mantissa |
| Legacy.SinFinite | halffloat/hf_lib.c:810-847 | the arithmetic path yields a valid sign and non-negative mantissa |
| Legacy.SinIndices | halffloat/hf_lib.c:823-833 | both sine table indices lie in [0, 1024] |
| Legacy.Interpolated | halffloat/hf_lib.c:836-837 | the rounded interpolation by f sixteenths lies between the two entries and is the first entry for f = 0 |
| Legacy.SinValue | halffloat/hf_lib.c:822-840 | the Q15 sine is non-negative in the first half turn and non-positive in the second |
| Legacy.SinCosSpecial | halffloat/hf_lib.c:799-808 | `hf_sin` and `hf_cos` return the quiet NaN with the input's sign for a NaN and 0xFE00 for either infinity |
| Legacy.CosIsShiftedSine | halffloat/hf_lib.c:654-656 | for every finite angle the cosine reads the sine a quarter turn further on |
| Legacy.SinHalfTurn | halffloat/hf_lib.c:840 | half a turn further on the sine is negated |
| Legacy.SinMirror | halffloat/hf_lib.c:827-837 | the reflection is exact: sin(pi - x) == sin(x) at every turn fraction strictly inside the half turn |
| Legacy.MirrorIndices | halffloat/hf_lib.c:823-831 | a first-quarter fraction steps up from entry n/16 and its mirror image steps down from the next entry |
| Legacy.InterpolatedMirror | halffloat/hf_lib.c:836-837 | interpolating from the far entry by the complementary fraction gives the same value |
| Legacy.SinNegatedTurn | halffloat/hf_lib.c:819-840 | away from the fractions 0 and one half, the full turn minus n gives exactly the negated sine |
| Legacy.SinOdd | halffloat/hf_lib.c:635-637 | `hf_sin(-x) == -hf_sin(x)` wherever the value is not zero and the turn fraction is neither 0 nor one half |
| Legacy.SinRecordOdd | halffloat/hf_lib.c:790-851 | a flipped finite angle composes to the flipped sine |
| Legacy.TurnFlip | halffloat/hf_lib.c:818-819 | a non-zero turn fraction becomes 65536 minus it under negation |
| Legacy.SinFiniteOdd | halffloat/hf_lib.c:836-847 | the arithmetic path at 65536 - n composes to the word at n with the sign bit flipped |
| Legacy.SignedOdd | halffloat/hf_lib.c:840-847 | a non-zero Q15 value and its negation compose to words differing only in the sign bit |
| Legacy.SinAgreesUnreflected | halffloat/hf_lib.c:822-837 | in the first and third quarters the sine equals the modular version's; they differ only in the reflected quarters |
| Legacy.EntryAgrees | halffloat/hf_lib.c:836-837 | in the first quarter the modular `table_interpolate` reading equals the single-file interpolation |
| Legacy.TanResult | halffloat/hf_lib.c:671-748 | the record the single-file `hf_tan` composes has a valid sign and non-negative mantissa |
| Legacy.TanSegment | halffloat/hf_lib.c:715-726 | the entry at the Q8 position shifted by the scale, plus a step toward the next entry bounded by their difference |
| Legacy.TanStep | halffloat/hf_lib.c:724-725 | the step `(delta * frac) >> 7` with a seven-bit fraction lies between 0 and delta |
| Legacy.TanValue | halffloat/hf_lib.c:700-729 | the signed Q15 tangent is non-negative up to a half turn of 32768 and non-positive above |
| Legacy.TanValueBound | halffloat/hf_lib.c:722-726 | the tangent stays strictly within +-2^25 |
| Legacy.TanFinite | halffloat/hf_lib.c:731-744 | the overflow test and sign handling yield a valid sign and non-negative mantissa |
| Legacy.TanSpecial | halffloat/hf_lib.c:678-687 | a NaN keeps its sign, and either infinity gives 0xFE00 |
| Legacy.TanFiniteResult | halffloat/hf_lib.c:732-735 | the overflow branch never fires: every finite angle gives a finite word |
| Legacy.TanReflection | halffloat/hf_lib.c:702-729 | the half-turn fractions n and 65536 - n give opposite tangents, except at the quarter turn |
| Legacy.TanOdd | halffloat/hf_lib.c:671-748 | `hf_tan(-x) == -hf_tan(x)` wherever the value is not zero and the fraction is not the quarter turn |
| Legacy.TanRecordOdd | halffloat/hf_lib.c:671-748 | a flipped finite angle composes to the flipped tangent |
| Legacy.TanFiniteOdd | halffloat/hf_lib.c:728-744 | the arithmetic path at 65536 - n composes to the word at n with the sign bit flipped |
| Legacy.TanTurnNegated | halffloat/hf_lib.c:701-702 | negating a finite angle takes its half-turn fraction to 65536 minus it |
| Legacy.TanUnbounded | halffloat/hf_lib.c:731-744 | below the overflow bound the arithmetic path rounds the signed value |
| Legacy.Int | halffloat/hf_lib.c:54-69 | no ensures; what it computes is stated by `IntResult`, `IntIsTrunc`, `IntBelowOne`, `IntInRange` and `IntLarge` |
| Legacy.Add | halffloat/hf_lib.c:108-161 | no ensures; what it computes is stated by `AddResult`, `AddAgrees`, `AddZeros` and `AddCancels` |
| Legacy.Div | halffloat/hf_lib.c:221-270 | no ensures; what it computes is stated by `DivResult`, `DivAgrees` and `DivZeroByZero` |
| Legacy.Sqrt | halffloat/hf_lib.c:283-332 | no ensures; what it computes is stated by `SqrtResult`, `SqrtSpecial`, `SqrtPowerOfFour`, `SqrtExact` and `SqrtExactSquares` |
| Legacy.ShiftLoop | halffloat/hf_lib.c:314-323 | no ensures; the loop as a recursion, stated by `ShiftLoopCorrect` and `ShiftLoopStart` to end at twice the integer square root, which `ShiftSquareRoot` is proved to follow |
| Legacy.TopDigit | halffloat/hf_lib.c:315 | no ensures; the next two bits of the radicand, stated by `ShiftDigit` and `DigitCore` |
| Legacy.ShiftedUp | halffloat/hf_lib.c:317 | no ensures; the radicand moved up two bits, stated by `ShiftDigit` and `DigitCore` |
| Legacy.ShiftQuot | halffloat/hf_lib.c:315-322 | no ensures; one step of the remainder, stated by `ShiftStep` and `ShiftHalvesRoot` |
| Legacy.ShiftRoot | halffloat/hf_lib.c:316-322 | no ensures; one step of the doubled root, stated by `ShiftStep` and `ShiftHalvesRoot` |
| Legacy.Pow | halffloat/hf_lib.c:474-619 | no ensures; what it computes is stated by `PowResult`, `PowCases`, `PowZeroExponent`, `PowOneBase`, `PowNaN`, `PowZeroBase`, `PowInfiniteBase`, `PowInfiniteExponent`, `PowByOne`, `PowNegativeBase` and `PowPositiveBase` |
| Legacy.Sin | halffloat/hf_lib.c:635-637 | no ensures; what it computes is stated by `SinCosSpecial`, `SinOdd` and `SinusResult` |
| Legacy.Cos | halffloat/hf_lib.c:654-656 | no ensures; what it computes is stated by `SinCosSpecial` and `CosIsShiftedSine` |
| Legacy.SinusShiftable | halffloat/hf_lib.c:790-851 | no ensures; the composed `SinusResult`, whose cases are stated by its ensures, `SinCosSpecial`, `CosIsShiftedSine` and `EntryAgrees` |
| Legacy.Tan | halffloat/hf_lib.c:671-748 | no ensures; what it computes is stated by `TanResult`, `TanSpecial`, `TanFiniteResult` and `TanOdd` |


## Left out

- C integer behaviour that is undefined or implementation-defined. The model
  picks one reading in each case, as listed below.
- Trig.TanhQuotient: `sinh_val << 15` (hf_lib_trig.c:463) shifts a negative `sinh_val` for every
  negative input (hf_lib_trig.c:455), which C leaves undefined. The model reads it as
  multiplication by 0x8000.
- HalfCommon.HalfToFloatBits: `sign << 31` (hf_common.c:85, 87, 90, 101) shifts a `uint16_t`
  promoted to `int` into the sign bit, which C leaves undefined when the sign is 1. The model reads
  it as the unsigned value `sign * 2^31` of the float's sign bit.
- ExpLog.PowFinite: `((int64_t)exp_fixed_val * ln_base_fixed) >> 15` (hf_lib_exp.c:241) shifts a
  product that can be negative, and the `(int32_t)` cast receives a value that can pass 32 bits;
  both are implementation-defined. The model reads the shift as floor division by 2^15 and the cast
  as the two's-complement wrap `CInt.ToInt32`. Legacy.PowFinite does the same for hf_lib.c:575.
- Legacy.Interpolated: `(... + 0x8) >> 4` (hf_lib.c:837) shifts a value that is negative when the
  second entry is smaller; the model reads it as floor division by 16.
- Legacy.TanSegment: `(delta_val * frac) >> 7` (hf_lib.c:725) shifts a value that can be negative;
  the model reads it as floor division by 128.
- LibCommon.TableInterpolate: `(...) >> frac_bits` (hf_lib_common.c:163) shifts a value that can be
  negative; the model reads it as floor division by 2^frac_bits.
- LibCommon.ExpFixed: `(...) >> 8` (hf_lib_common.c:210) shifts a value that can be negative; the
  model reads it as floor division by 256.
- Macros and signatures the modular files use but no header defines. `HF_MANT_SHIFT`,
  `HF_MANT_NORM_MIN`, `HF_EXP_MIN`, `HF_ROUND_BIT_MASK`, `HF_ONE_POS`, `Q15_ONE` and `Q15_SHIFT`
  are taken as 15, 0x8000, -15, 0x1F, 0x3C00, 0x8000 and 15, the values the single-file `hf_lib.c`
  writes out. They are `HalfCommon.MANT_NORM_MIN`, `HalfCommon.EXP_MIN`, `HalfCommon.ONE_POS`,
  `Trig.Q15_ONE` and `Trig.Q15_SHIFT`; the shift by 15 and the mask 0x1F appear as
  the literal operations `/ 0x8000`, `* 0x8000` and `% 32`. The
  modular files call `is_nan(&x)`, `compose_half(&x)` and the other helpers through pointers,
  against the by-value prototypes of `hf_common.h`; the model uses the by-value semantics of
  `hf_common.c`.
- Arith.MulFinite: `input1.mant * input2.mant` (halffloat/hf_lib_arith.c:162, and the same
  line in the single-file `hf_mul`, hf_lib.c:201) multiplies two `int32_t` values that can reach
  2^16 each, so the product can pass 2^31 and overflow before the `uint32_t` cast. The model takes
  the exact product, which is what the cast gives on two's-complement targets.
- ExpLog.Scaled: the shifts `x << exp` and `x >> -exp` of `hf_exp` (hf_lib_exp.c:114, hf_lib.c:433)
  and `hf_pow` are read as multiplication by 2^exp and as floor division by 2^-exp. This includes a
  negative `x_fixed`, where C leaves a left shift undefined and a right shift implementation-defined.
  `Trig.Fixed` reads the shifts of the trigonometric functions the same way, on non-negative values.
- Trig.Atan2Ratio: in `hf_atan2` (hf_lib_trig.c:292) the shift count `Q15_SHIFT + exp_diff`
  becomes negative when the exponents differ by more than 15. C leaves that shift undefined; the
  model reads it as a right shift by the opposite amount.
- Legacy.IntPart: in the single-file `hf_pow` (hf_lib.c:512, 523) the integer part
  `mant >> (15 - exp)` of an infinite exponent (exp 16) is a shift by -1, which C leaves undefined;
  the model takes 0 for it.
- LibCommon.TableInterpolate: `(val1 - val0) * frac` (hf_lib_common.c:163) is exact in the model.
  With an index shift of up to 30 the fraction can reach 2^30, so the `int32_t` product can overflow
  in C. The model does not bound the shift more tightly than `ValidTables` does.
- LibCommon.ExpFixed: `(exp_table[index + 1] - mant) * frac` (hf_lib_common.c:210) is exact in the
  model. The fraction can reach about 2^22.5, and the table contract does not bound the step between
  neighbouring entries, so the `int32_t` product can overflow in C for tables other than the
  library's own.
- Legacy.TanSegment: `delta_val * frac` in the single-file `hf_tan` (hf_lib.c:725) is exact in the
  model. The difference between two shifted tangent entries can reach about 2^25 and the fraction
  2^7, so the `int32_t` product can overflow in C. Legacy.TanFiniteResult and the other tangent
  lemmas rely on this exact product.
- Legacy.PowFinite: negating `exp_ln_fixed` (hf_lib.c:577, 583) is exact in the model. In C,
  negating `INT32_MIN` overflows. ExpLog.PowFinite makes the same choice for the modular `hf_pow`.
- Trig.IsSubnormal: `is_subnormal` is called by `hf_sinh` and `hf_atanh` but defined in none of
  the library's files. The model reads it as "minimum exponent and mantissa below the implicit bit",
  which takes in both zeros. Trig.SinhSpecial and Trig.AtanhSubnormal cover ±0 only under that
  reading. Under the reading that leaves the zeros out:
  - sinh(±0) is still the zero of its sign (Trig.SinhFiniteAtZero);
  - atanh(-0) would be +0 instead of -0 (Trig.AtanhValueAtZero).
- The lookup tables and the arctangent constants are inputs (`Precalc.Tables`), constrained only by
  `Precalc.ValidTables`. Their builders in `hf_precalc.c` compute them from double-precision `sin`,
  `asin`, `log`, `exp` and `tan`; floating point of that width is not modelled. The arctangent
  table, its index shift and the Q15 multiples of pi are used by the trigonometric module but are
  defined in none of its files.
- How closely the results approximate the real functions is not stated. The model relates the
  operations to each other, to their table entries and to exact values; it does not give error
  bounds against the real sine, logarithm and so on.
- Arith.Cbrt, Arith.Fma, Arith.Hypot, Arith.Fmod, Arith.Remainder, Arith.Remquo, Misc.Modf,
  Misc.Frexp, Misc.Ldexp, Misc.Scalbn, Misc.Logb, Misc.Ilogb, Misc.Copysign, Misc.Nextafter,
  Misc.Nexttoward, ExpLog.Log2, ExpLog.Log10, ExpLog.Exp2, ExpLog.Exp10, ExpLog.Expm1 and
  ExpLog.Log1p are stubs in the library. They are modelled as the constants they return and state
  nothing. `nexttoward`'s `long double` argument is not modelled.
- `hf_tests.c` and `main.c` are not part of this model. They are test drivers that print; they are
  left out along with all other I/O.
- The word-level operations (`Arith.Add`, `Trig.Sin`, …) have no `ensures` of their own. What they
  compute is stated by the record functions they compose (`Arith.AddResult`, …) and by the lemmas
  in the table above; each has its own row there naming the lemmas that state what it computes.
