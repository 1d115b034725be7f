/**
 * The precomputed lookup tables of halffloat/hf_precalc.h and hf_precalc.c.
 *
 * The library fills its tables at start-up from double-precision `sin`,
 * `asin`, `log`, `exp` and `tan`.  Here the tables are an input: a record
 * of 16-bit sequences whose sizes are those the arrays are declared with,
 * plus the few entries the library's own results depend on.  The arctangent
 * table, its size, its index shift and the multiples of pi in Q15 are used
 * by the trigonometric module without being defined in any of its headers;
 * they are carried in the same record, with the assumptions stated by
 * `ValidTables`.
 */
module Precalc {
  import opened CInt

  const SIN_TABLE_SIZE: int := 1024
  const ASIN_TABLE_SIZE: int := 1024
  const ASIN_TABLE_BITS: int := 10
  const LN_TABLE_SIZE: int := 1024
  const EXP_TABLE_SIZE_SHIFT: int := 8
  const EXP_TABLE_SIZE: int := 256
  const TAN_DUAL_TABLE_SIZE: int := 256
  /** ln 2 in Q15. */
  const LNI_2: int := 22713
  /** `(uint32_t)(M_PI / 2.0 * 32768.0 + 0.5)`: pi/2 in Q15. */
  const ACOS_SHIFT: int := 51472

  datatype Tables = Tables(
    sin: seq<Word>,
    asin: seq<Word>,
    ln: seq<Word>,
    exp: seq<Word>,
    tanLow: seq<Word>,
    tanHigh: seq<Word>,
    atan: seq<Word>,
    atanIndexShift: int,
    piQuarter: int,
    piHalf: int,
    piThreeQuarters: int,
    pi: int)

  /**
   * The table contract: the declared sizes (`SIN_TABLE_SIZE + 1` and so on),
   * `ln_table[0] == 0` (ln 1) and `exp_table[0] == 32768` (e^0 in Q15).
   * Two ranges the builders guarantee: every arcsine entry is at most pi/2
   * in Q15 (`asin` on [0, 1]) and every exponential entry is at least 1.0
   * in Q15 (`exp` on [0, ln 2], saturated at 0xFFFF).
   * For the undeclared arctangent data: a non-empty table whose entries do
   * not exceed pi/2, an index shift between 1 and 30, pi/2 equal to
   * `ACOS_SHIFT`, and the four multiples of pi positive and increasing.
   */
  ghost predicate ValidTables(t: Tables) {
    && |t.sin| == SIN_TABLE_SIZE + 1
    && |t.asin| == ASIN_TABLE_SIZE + 1
    && |t.ln| == LN_TABLE_SIZE
    && |t.exp| == EXP_TABLE_SIZE + 1
    && |t.tanLow| == TAN_DUAL_TABLE_SIZE + 1
    && |t.tanHigh| == TAN_DUAL_TABLE_SIZE + 1
    && t.ln[0] == 0
    && t.exp[0] == 32768
    && (forall i :: 0 <= i < |t.asin| ==> t.asin[i] <= ACOS_SHIFT)
    && (forall i :: 0 <= i < |t.exp| ==> 32768 <= t.exp[i])
    && 1 <= |t.atan| < 0x8000_0000
    && (forall i :: 0 <= i < |t.atan| ==> t.atan[i] <= t.piHalf)
    && 1 <= t.atanIndexShift <= 30
    && t.piHalf == ACOS_SHIFT
    && 0 < t.piQuarter < t.piHalf < t.piThreeQuarters < t.pi < 0x8000_0000
  }
}
