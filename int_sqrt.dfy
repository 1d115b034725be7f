/**
 * `square_root` of halffloat/hf_lib_arith.c: the bit-pair integer square
 * root of a 32-bit word, sixteen iterations that each rotate the next two
 * bits of the input into a running remainder and decide one bit of the
 * root.
 */
module IntSqrt {
  import opened CInt

  /** `ROL32(x, 2)`: `(x << 2) | (x >> 30)` on 32 bits; the two bits shifted out come back at the bottom. */
  function Rol2(x: Bits32): Bits32
  {
    x % 0x4000_0000 * 4 + x / 0x4000_0000
  }

  /**
   * The loop of `square_root` from the state (value, rest, root) with
   * `loop` iterations still to run after the current one: each iteration
   * brings the next two bits of the value into `rest` and decides one bit
   * of the root.
   */
  function SquareRootLoop(value: Bits32, rest: int, root: int, loop: int): int
    decreases loop + 1
  {
    if loop < 0 then root
    else
      var value' := Rol2(value);
      SquareRootLoop(value', NextRest(value' % 4, rest, root), NextRoot(value' % 4, rest, root), loop - 1)
  }

  /**
   * The remainder after one iteration that brings in the bit pair `d`: the
   * trial value `4 * root + 1` is subtracted when it fits.
   */
  function NextRest(d: int, rest: int, root: int): int {
    var r, trial := rest * 4 + d, root * 4 + 1;
    if r >= trial then r - trial else r
  }

  /** The root after one iteration: one more bit, set when the trial value fits. */
  function NextRoot(d: int, rest: int, root: int): int {
    var r, trial := rest * 4 + d, root * 4 + 1;
    if r >= trial then trial / 2 + 1 else trial / 2
  }

  /** The integer square root `square_root` computes: the largest `r` with `r * r <= v`. */
  function SquareRootOf(v: Bits32): (r: nat)
    ensures IsRootOf(r, v)
  {
    SquareRootLoopRoot(v);
    SquareRootLoop(v, 0, 0, 15)
  }

  /** Started from a zero remainder and root, the sixteen iterations end with the root of `v`. */
  lemma SquareRootLoopRoot(v: Bits32)
    ensures IsRootOf(SquareRootLoop(v, 0, 0, 15), v)
  {
    SquareRootLoopConsumes(v);
    PrefixWhole(v);
  }

  lemma SquareRootLoopConsumes(v: Bits32)
    ensures IsRootOf(SquareRootLoop(v, 0, 0, 15), Prefix(v, 16))
  {
    SquareRootLoopCorrect(v, 0, v, 0, 0);
  }

  /** `r` is the integer square root of `v`. */
  ghost predicate IsRootOf(r: int, v: int) {
    r >= 0 && r * r <= v < (r + 1) * (r + 1)
  }

  /** `square_root` as the source runs it: sixteen iterations of the bit-pair loop. */
  method SquareRoot(input: Bits32) returns (root: int)
    ensures root == SquareRootOf(input)
  {
    var value: Bits32 := input;
    var rest := 0;
    root := 0;
    var loop := 16;
    loop := loop - 1;
    while loop >= 0
      invariant -1 <= loop <= 15
      invariant SquareRootLoop(value, rest, root, loop) == SquareRootOf(input)
      decreases loop
    {
      ghost var value0, rest0, root0 := value, rest, root;
      value := Rol2(value);
      rest := rest * 4 + value % 4;
      root := root * 4 + 1;
      var cond := if rest >= root then 1 else 0;
      // `rest -= root & -cond`
      rest := rest - (if cond == 1 then root else 0);
      root := root / 2 + cond;
      loop := loop - 1;
      assert rest == NextRest(value % 4, rest0, root0) && root == NextRoot(value % 4, rest0, root0);
      assert SquareRootLoop(value0, rest0, root0, loop + 1) == SquareRootLoop(value, rest, root, loop);
    }
  }

  /** The value after `j` rotations by two bits. */
  function Rotated(v: Bits32, j: nat): Bits32
    requires j <= 16
  {
    if j == 0 then v else Rol2(Rotated(v, j - 1))
  }

  /** The closed form of `Rotated`: the top `n` bits of `v` have moved below the others. */
  function RotationOf(v: Bits32, n: nat): Bits32
    requires n <= 32
  {
    RotatedRange(v, n);
    v % Pow2(32 - n) * Pow2(n) + v / Pow2(32 - n)
  }

  lemma RotatedRange(v: Bits32, n: nat)
    requires n <= 32
    ensures 0 <= v % Pow2(32 - n) * Pow2(n) + v / Pow2(32 - n) < 0x1_0000_0000
  {
    Pow2Add(n, 32 - n);
    Pow2Values();
    RotatedRangeAlgebra(v, Pow2(n), Pow2(32 - n));
  }

  lemma RotatedRangeAlgebra(v: Bits32, a: int, c: int)
    requires a >= 1 && c >= 1 && a * c == 0x1_0000_0000
    ensures 0 <= v % c * a + v / c < 0x1_0000_0000
  {
    var s, q := v % c, v / c;
    DivBounds(v, c, 0, a);
    MulLe(s, c - 1, a);
    assert (c - 1) * a == c * a - a;
    MulLe(0, s, a);
  }

  lemma {:induction false} RotatedIsRotation(v: Bits32, j: nat)
    requires j <= 16
    ensures Rotated(v, j) == RotationOf(v, 2 * j)
  {
    if j == 0 {
      RotationOfZero(v);
    } else {
      var n := 2 * j - 2;
      RotatedIsRotation(v, j - 1);
      assert Rotated(v, j - 1) == RotationOf(v, n);
      RotationStep(v, n);
      assert RotationOf(v, n + 2) == RotationOf(v, 2 * j);
    }
  }

  lemma RotationOfZero(v: Bits32)
    ensures RotationOf(v, 0) == v
  {
    Pow2ThirtyTwo();
    SmallDivMod(v, Pow2(32));
    assert Pow2(0) == 1;
  }

  lemma Pow2ThirtyTwo()
    ensures Pow2(32) == 0x1_0000_0000
  {
    Pow2Thirty();
    Pow2Times4(30);
  }

  lemma SmallDivMod(x: int, p: int)
    requires 0 <= x < p
    ensures x / p == 0 && x % p == x
  {
    DivUnique(x, p, 0);
    assert x == x / p * p + x % p;
  }

  /**
   * One more rotation by two bits: the rotated value gains the next pair
   * of the value's bits at the bottom, and the top `n + 2` bits of `v` are
   * the top `n` bits followed by that pair.
   */
  lemma RotatedStep(v: Bits32, j: nat)
    requires j < 16
    ensures v / Pow2(30 - 2 * j) == 4 * (v / Pow2(32 - 2 * j)) + Rotated(v, j + 1) % 4
  {
    RotatedIsRotation(v, j + 1);
    RotationStep(v, 2 * j);
  }

  lemma RotationStep(v: Bits32, n: nat)
    requires n <= 30
    ensures Rol2(RotationOf(v, n)) == RotationOf(v, n + 2)
    ensures v / Pow2(30 - n) == 4 * (v / Pow2(32 - n)) + RotationOf(v, n + 2) % 4
  {
    Pow2Split(n);
    var a, b := Pow2(n), Pow2(30 - n);
    assert RotationOf(v, n) == v % (4 * b) * a + v / (4 * b);
    assert Pow2(32 - (n + 2)) == b;
    assert RotationOf(v, n + 2) == v % b * (4 * a) + v / b;
    RotationAlgebra(v, a, b);
  }

  lemma Pow2Split(n: nat)
    requires n <= 30
    ensures Pow2(n) * Pow2(30 - n) == 0x4000_0000
    ensures Pow2(n + 2) == 4 * Pow2(n) && Pow2(32 - n) == 4 * Pow2(30 - n)
  {
    Pow2Add(n, 30 - n);
    Pow2Thirty();
    Pow2Times4(n);
    Pow2Times4(30 - n);
  }

  lemma Pow2Thirty()
    ensures Pow2(30) == 0x4000_0000
  {
    Pow2Add(15, 15);
    assert Pow2(15) == 0x8000;
  }

  lemma Pow2Times4(n: nat)
    ensures Pow2(n + 2) == 4 * Pow2(n)
  {
    assert Pow2(n + 2) == 2 * Pow2(n + 1);
  }

  /** The arithmetic behind `RotationStep`, for `a * b == 2^30`. */
  lemma RotationAlgebra(v: Bits32, a: int, b: int)
    requires a >= 1 && b >= 1 && a * b == 0x4000_0000
    ensures var r := v % (4 * b) * a + v / (4 * b);
      0 <= r < 0x1_0000_0000 &&
      r % 0x4000_0000 * 4 + r / 0x4000_0000 == v % b * (4 * a) + v / b &&
      v / b == 4 * (v / (4 * b)) + (v % b * (4 * a) + v / b) % 4
  {
    var q, s1, s0 := SplitDigit(v, b);
    assert q < a by {
      assert a * (4 * b) == 0x1_0000_0000;
      DivBounds(v, 4 * b, 0, a);
    }
    var low := LowPart(s0, q, a, b);
    var r := v % (4 * b) * a + q;
    assert r == s1 * 0x4000_0000 + low by {
      Distribute(s1, s0, a, b);
    }
    DigitSplit(r, s1, low, 0x4000_0000);
    assert v % b * (4 * a) + v / b == 4 * low + s1 by {
      MulAssoc(s0, a, 4);
    }
    DigitSplit(4 * low + s1, low, s1, 4);
  }

  lemma Distribute(s1: int, s0: int, a: int, b: int)
    ensures (s1 * b + s0) * a == s1 * (a * b) + s0 * a
  {
  }

  /** `r` written as the digit `d` above the remainder `low` in base `p`. */
  lemma DigitSplit(r: int, d: int, low: int, p: int)
    requires p >= 1 && 0 <= low < p && d >= 0 && r == d * p + low
    ensures r % p == low && r / p == d
    ensures d < 4 && p == 0x4000_0000 ==> 0 <= r < 0x1_0000_0000
  {
    DivUnique(r, p, d);
  }

  /**
   * `v` split at `4 * b` and at `b`: the quotient `q` by `4 * b`, the digit
   * `s1 < 4` between them and the remainder `s0` by `b`.
   */
  lemma SplitDigit(v: int, b: int) returns (q: int, s1: int, s0: int)
    requires v >= 0 && b >= 1
    ensures q == v / (4 * b) && 0 <= s1 < 4 && 0 <= s0 < b
    ensures v % (4 * b) == s1 * b + s0 && v / b == 4 * q + s1 && v % b == s0
  {
    q := v / (4 * b);
    var s := v % (4 * b);
    s1, s0 := s / b, s % b;
    assert s == s1 * b + s0;
    DivBounds(s, b, 0, 4);
    assert v == q * (4 * b) + s;
    assert q * (4 * b) == (4 * q) * b;
    assert v == (4 * q + s1) * b + s0;
    DivUnique(v, b, 4 * q + s1);
  }

  /** `s0 * a + q` stays below `a * b` when `s0 < b` and `q < a`. */
  function LowPart(s0: int, q: int, a: int, b: int): (low: int)
    requires 0 <= s0 < b && 0 <= q < a && a * b == 0x4000_0000
    ensures 0 <= low < 0x4000_0000 && low == s0 * a + q
  {
    MulLe(s0, b - 1, a);
    assert (b - 1) * a == a * b - a;
    MulLe(0, s0, a);
    s0 * a + q
  }

  /**
   * The top `2k` bits of `v`, read two at a time from the bottom of the
   * rotated value: the radicand `square_root` has consumed after `k`
   * iterations.
   */
  ghost function Prefix(v: Bits32, k: nat): int
    requires k <= 16
  {
    if k == 0 then 0 else 4 * Prefix(v, k - 1) + Rotated(v, k) % 4
  }

  lemma {:induction false} PrefixIsTopBits(v: Bits32, k: nat)
    requires k <= 16
    ensures Prefix(v, k) == v / Pow2(32 - 2 * k)
  {
    if k == 0 {
      NoTopBits(v);
    } else {
      PrefixIsTopBits(v, k - 1);
      PrefixStep(v, k);
    }
  }

  lemma NoTopBits(v: Bits32)
    ensures v / Pow2(32) == 0
  {
    Pow2ThirtyTwo();
    SmallDivMod(v, Pow2(32));
  }

  lemma PrefixStep(v: Bits32, k: nat)
    requires 1 <= k <= 16 && Prefix(v, k - 1) == v / Pow2(32 - 2 * (k - 1))
    ensures Prefix(v, k) == v / Pow2(32 - 2 * k)
  {
    var j := k - 1;
    var d := Rotated(v, k) % 4;
    assert Prefix(v, k) == 4 * Prefix(v, j) + d;
    var above, here := v / Pow2(32 - 2 * j), v / Pow2(32 - 2 * k);
    assert here == 4 * above + d by {
      RotatedStep(v, j);
      assert 30 - 2 * j == 32 - 2 * k;
    }
  }

  /** After sixteen iterations the whole input has been consumed. */
  lemma PrefixWhole(v: Bits32)
    ensures Prefix(v, 16) == v
  {
    PrefixIsTopBits(v, 16);
  }

  /** `root` is the integer square root of `p` and `rest` the remainder `p - root * root`. */
  ghost predicate RootOfPrefix(p: int, rest: int, root: int) {
    0 <= root && root * root <= p < (root + 1) * (root + 1) && rest == p - root * root
  }

  /**
   * The invariant of `square_root`: after `k` iterations `root` is the
   * integer square root of the consumed radicand and `rest` the remainder,
   * so the remaining iterations end with the root of the whole input.
   */
  lemma {:induction false} SquareRootLoopCorrect(v: Bits32, k: nat, value: Bits32, rest: int, root: int)
    requires k <= 16 && value == Rotated(v, k) && RootOfPrefix(Prefix(v, k), rest, root)
    ensures IsRootOf(SquareRootLoop(value, rest, root, 15 - k), Prefix(v, 16))
    decreases 16 - k
  {
    if k < 16 {
      var d := Rotated(v, k + 1) % 4;
      RootStep(Prefix(v, k), rest, root, d);
      SquareRootLoopCorrect(v, k + 1, Rotated(v, k + 1), NextRest(d, rest, root), NextRoot(d, rest, root));
    }
  }

  /** The arithmetic of one iteration: a new base-4 digit `d` of the radicand. */
  lemma RootStep(p: int, rest: int, root: int, d: int)
    requires RootOfPrefix(p, rest, root) && 0 <= d < 4
    ensures RootOfPrefix(4 * p + d, NextRest(d, rest, root), NextRoot(d, rest, root))
  {
    var r, trial := rest * 4 + d, root * 4 + 1;
    var nrest, nroot := NextRest(d, rest, root), NextRoot(d, rest, root);
    assert r == 4 * (p - root * root) + d;
    SquareRootDigit(p, root, d);
    if r >= trial {
      assert nrest == r - trial && nroot == 2 * root + 1;
    } else {
      assert nrest == r && nroot == 2 * root;
    }
  }

  /** One digit of the square-root recurrence: the trial divisor `4 * root + 1` decides the next root bit. */
  lemma SquareRootDigit(p: int, r: int, d: int)
    requires 0 <= r && r * r <= p < (r + 1) * (r + 1) && 0 <= d < 4
    ensures var p', rest', trial := 4 * p + d, 4 * (p - r * r) + d, 4 * r + 1;
      if rest' >= trial then
        (2 * r + 1) * (2 * r + 1) <= p' < (2 * r + 2) * (2 * r + 2) &&
        rest' - trial == p' - (2 * r + 1) * (2 * r + 1) && trial / 2 + 1 == 2 * r + 1
      else
        (2 * r) * (2 * r) <= p' < (2 * r + 1) * (2 * r + 1) &&
        rest' == p' - (2 * r) * (2 * r) && trial / 2 == 2 * r
  {
    assert (r + 1) * (r + 1) == r * r + 2 * r + 1;
    assert (2 * r + 1) * (2 * r + 1) == 4 * (r * r) + 4 * r + 1;
    assert (2 * r + 2) * (2 * r + 2) == 4 * (r * r) + 8 * r + 4;
    assert (2 * r) * (2 * r) == 4 * (r * r);
  }

  /** The integer square root of a perfect square is exact. */
  lemma SquareRootOfSquare(v: Bits32, r: nat)
    requires r * r == v
    ensures SquareRootOf(v) == r
  {
    SquareRootLoopRoot(v);
    RootUnique(v, SquareRootLoop(v, 0, 0, 15), r);
  }

  lemma RootUnique(v: int, s: int, r: nat)
    requires IsRootOf(s, v) && r * r == v
    ensures s == r
  {
    if s < r {
      MulLe(s + 1, r, s + 1);
      MulLe(s + 1, r, r);
    } else if s > r {
      MulLe(r + 1, s, r + 1);
      MulLe(r + 1, s, s);
    }
  }

  /** The root is monotone: a square at most `v` bounds the root of `v` from below. */
  lemma SquareRootAtLeast(v: Bits32, lo: nat)
    requires lo * lo <= v
    ensures SquareRootOf(v) >= lo
  {
    var r := SquareRootOf(v);
    assert IsRootOf(r, v);
    RootBound(v, r, lo);
  }

  lemma RootBound(v: int, r: int, lo: nat)
    requires r >= 0 && v < (r + 1) * (r + 1) && lo * lo <= v
    ensures r >= lo
  {
    if r < lo {
      MulLe(r + 1, lo, r + 1);
      MulLe(r + 1, lo, lo);
    }
  }
}
