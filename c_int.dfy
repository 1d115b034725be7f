/**
 * Integer helpers that spell out the C semantics the library relies on:
 * fixed-width unsigned words, powers of two for shifts, division that
 * truncates toward zero, and the wrap-around of explicit casts.
 *
 * Words are kept as integers in range rather than bit-vectors; every bit
 * operation of the library is then a division, a remainder or, for fields
 * that do not overlap, an addition.
 */
module CInt {

  /** A `uint16_t` value. */
  type Word = x: int | 0 <= x < 0x1_0000

  /** A `uint32_t` value, used for the bit pattern of a `float`. */
  type Bits32 = x: int | 0 <= x < 0x1_0000_0000

  /** 2^n, the value of `1 << n` for a shift that does not overflow. */
  function Pow2(n: nat): (r: nat)
    ensures r >= 1
    ensures n >= 1 ==> r >= 2
  {
    if n == 0 then 1 else 2 * Pow2(n - 1)
  }

  lemma {:induction false} Pow2Add(a: nat, b: nat)
    ensures Pow2(a + b) == Pow2(a) * Pow2(b)
  {
    if a > 0 {
      Pow2Add(a - 1, b);
      assert Pow2(a + b) == 2 * Pow2(a - 1 + b);
      DoubledProduct(Pow2(a - 1), Pow2(b));
    }
  }

  lemma DoubledProduct(p: int, q: int)
    ensures (2 * p) * q == 2 * (p * q)
  {
  }

  lemma {:induction false} Pow2Monotone(a: nat, b: nat)
    requires a <= b
    ensures Pow2(a) <= Pow2(b)
  {
    if a < b {
      Pow2Monotone(a, b - 1);
    }
  }

  /** From 2^11 up every power of two is at least 2048. */
  lemma Pow2Large(k: nat)
    ensures k >= 11 ==> Pow2(k) >= 2048
  {
    if k >= 11 {
      Pow2Monotone(11, k);
      assert Pow2(11) == 2048;
    }
  }

  /** The powers of two the library shifts by, as constants. */
  lemma Pow2Values()
    ensures Pow2(8) == 0x100 && Pow2(16) == 0x1_0000 && Pow2(17) == 0x2_0000
    ensures Pow2(30) == 0x4000_0000 && Pow2(31) == 0x8000_0000
    ensures Pow2(32) == 0x1_0000_0000 && Pow2(34) == 0x4_0000_0000
    ensures Pow2(48) == 0x1_0000_0000_0000
  {
    assert Pow2(8) == 0x100 && Pow2(6) == 64 && Pow2(2) == 4 && Pow2(1) == 2;
    Pow2Add(8, 8);
    Pow2Add(16, 8);
    Pow2Add(24, 6);
    Pow2Add(30, 1);
    Pow2Add(16, 1);
    Pow2Add(16, 16);
    Pow2Add(32, 2);
    Pow2Add(32, 16);
  }

  /** `x >> n` for a non-negative `x`. */
  function Shr(x: nat, n: nat): (r: nat)
    ensures r <= x
    ensures r * Pow2(n) <= x < r * Pow2(n) + Pow2(n)
  {
    DivFacts(x, Pow2(n));
    x / Pow2(n)
  }

  /** The quotient of a non-negative `x` by a positive `b` and its bracketing multiples. */
  lemma DivFacts(x: int, b: int)
    requires x >= 0 && b >= 1
    ensures 0 <= x / b <= x && x / b * b <= x < x / b * b + b
  {
    MulLe(1, b, x + 1);
    DivBounds(x, b, 0, x + 1);
    assert x == x / b * b + x % b;
  }

  /** C integer division `a / b`: the quotient is truncated toward zero. */
  function CDiv(a: int, b: int): int
    requires b != 0
  {
    if a >= 0 && b > 0 then a / b
    else if a < 0 && b < 0 then (-a) / (-b)
    else if a < 0 then -((-a) / b)
    else -(a / (-b))
  }

  /** An exact quotient truncates and floors alike. */
  lemma CDivExact(a: int, b: int)
    requires b > 0 && a % b == 0
    ensures CDiv(a, b) == a / b
  {
    if a < 0 {
      var q := a / b;
      assert a == q * b;
      assert -a == (-q) * b;
      MulDivCancel(-q, b);
    }
  }

  function Abs(x: int): (r: nat)
    ensures r == x || r == -x
  {
    if x < 0 then -x else x
  }

  /** The value of an explicit `(int32_t)` cast: two's-complement wrap-around. */
  function ToInt32(x: int): (r: int)
    ensures -0x8000_0000 <= r < 0x8000_0000
    ensures (r - x) % 0x1_0000_0000 == 0
    ensures -0x8000_0000 <= x < 0x8000_0000 ==> r == x
  {
    (x + 0x8000_0000) % 0x1_0000_0000 - 0x8000_0000
  }

  /** The value of an explicit `(uint16_t)` cast. */
  function ToUint16(x: int): (r: Word)
    ensures (r - x) % 0x1_0000 == 0
    ensures 0 <= x < 0x1_0000 ==> r == x
  {
    x % 0x1_0000
  }

  /** `x | 1` for a non-negative `x`. */
  function OrOne(x: nat): (r: nat)
    ensures r % 2 == 1 && (r == x || r == x + 1)
  {
    if x % 2 == 0 then x + 1 else x
  }

  lemma MulLe(a: int, c: int, b: int)
    requires a <= c && b >= 0
    ensures a * b <= c * b
  {
  }

  lemma MulAssoc(a: int, b: int, c: int)
    ensures a * b * c == a * (c * b)
  {
  }

  /** Adding a multiple of `k` keeps the remainder. */
  lemma ModShift(f: int, j: int, k: int)
    requires k >= 1
    ensures (f + j * k) % k == f % k
  {
    var q, r := f / k, f % k;
    assert f + j * k == (q + j) * k + r;
    DivUnique(f + j * k, k, q + j);
  }

  /** Reducing the first summand first does not change the remainder of a sum. */
  lemma ModAddLeft(x: int, y: int, k: int)
    requires k >= 1
    ensures (x % k + y) % k == (x + y) % k
  {
    ModShift(x % k + y, x / k, k);
    assert x % k + y + x / k * k == x + y;
  }

  /** The quotient of `x` by `b` is the `q` whose multiples bracket `x`. */
  lemma DivUnique(x: int, b: int, q: int)
    requires b > 0 && q * b <= x < q * b + b
    ensures x / b == q
  {
    var r := x / b;
    assert x == r * b + x % b;
    if r > q {
      assert (q + 1) * b == q * b + b;
      MulLe(q + 1, r, b);
    } else if r < q {
      MulLe(r + 1, q, b);
    }
  }

  /** Bounds on a quotient from bounds on the dividend. */
  lemma DivBounds(x: int, b: int, lo: int, hi: int)
    requires b > 0 && lo * b <= x < hi * b
    ensures lo <= x / b < hi
  {
    var r := x / b;
    assert x == r * b + x % b;
    if r < lo {
      MulLe(r + 1, lo, b);
    } else if r >= hi {
      MulLe(hi, r, b);
    }
  }

  lemma MulDivCancel(a: int, b: int)
    requires b > 0
    ensures a * b / b == a
  {
    DivUnique(a * b, b, a);
  }
}
