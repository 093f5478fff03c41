/** Integer helpers: Kotlin's and C's truncating division and remainder,
    32-bit two's-complement wrap-around, and the few facts about Dafny's
    Euclidean `/` and `%` that the solver does not find by itself. */
module Arith {

  /** Division truncating toward zero (Kotlin `Int./`, C `/`). */
  function TruncDiv(a: int, b: int): int
    requires b != 0
  {
    if a >= 0 then (if b > 0 then a / b else -(a / -b))
    else (if b > 0 then -((-a) / b) else (-a) / (-b))
  }

  /** Remainder with the sign of the dividend (Kotlin `%`, C `%`). */
  function TruncMod(a: int, b: int): (r: int)
    requires b != 0
    ensures a >= 0 ==> r == a % (if b > 0 then b else -b)
    ensures a < 0 && b > 0 ==> r == -((-a) % b)
    ensures a < 0 && b < 0 ==> r == -((-a) % (-b))
  {
    a - TruncDiv(a, b) * b
  }

  const TwoTo31: int := 0x8000_0000
  const TwoTo32: int := 0x1_0000_0000

  type I32 = x: int | -TwoTo31 <= x < TwoTo31

  /** Reduces an unbounded integer to the 32-bit two's-complement value
      Kotlin `Int` arithmetic produces. */
  function Wrap32(x: int): (r: I32)
    ensures -TwoTo31 <= x < TwoTo31 ==> r == x
  {
    ((x + TwoTo31) % TwoTo32) - TwoTo31
  }

  /** The two's-complement bits of a 32-bit value, and back. */
  function Bits32(x: I32): bv32 {
    if x >= 0 then x as bv32 else (x + TwoTo32) as bv32
  }

  function FromBits32(b: bv32): I32 {
    if b as int < TwoTo31 then b as int else b as int - TwoTo32
  }

  lemma MulLe(a: int, b: int, n: nat)
    requires a <= b
    ensures a * n <= b * n
    decreases b - a
  {
    if a < b {
      MulLe(a, b - 1, n);
      assert b * n == (b - 1) * n + n;
    }
  }

  lemma MulGap(a: int, b: int, n: nat)
    ensures a < b ==> a * n + n <= b * n
  {
    if a < b {
      assert (a + 1) * n == a * n + n;
      MulLe(a + 1, b, n);
    }
  }

  /** Quotient and remainder are the unique ones. */
  lemma DivModUnique(a: int, n: int, q: int, r: int)
    requires n > 0 && 0 <= r < n && a == q * n + r
    ensures a % n == r && a / n == q
  {
    var q2, r2 := a / n, a % n;
    assert a == q2 * n + r2;
    MulGap(q, q2, n);
    MulGap(q2, q, n);
  }

  lemma ModShift(j: int, n: int)
    requires n > 0
    ensures (j + n) % n == j % n
  {
    DivModUnique(j + n, n, j / n + 1, j % n);
  }

  /** Reducing before an addition does not change the remainder. */
  lemma ModAdd(x: int, b: int, n: int)
    requires n > 0
    ensures (x % n + b) % n == (x + b) % n
  {
    var q, y := x / n, x % n + b;
    var q2, r2 := y / n, y % n;
    assert x == q * n + x % n;
    assert y == q2 * n + r2;
    assert x + b == (q + q2) * n + r2 by {
      assert (q + q2) * n == q * n + q2 * n;
    }
    DivModUnique(x + b, n, q + q2, r2);
  }

  /** Wrapping a running total at every addition is wrapping once at the end. */
  lemma WrapAdd(a: int, b: int)
    ensures Wrap32(Wrap32(a) + b) == Wrap32(a + b)
  {
    ModAdd(a + TwoTo31, b, TwoTo32);
  }

  /** Wrapping a factor before a multiplication is wrapping once after it. */
  lemma WrapMul(a: int, b: int)
    ensures Wrap32(Wrap32(a) * b) == Wrap32(a * b)
  {
    var q := (a + TwoTo31) / TwoTo32;
    assert Wrap32(a) == a - q * TwoTo32;
    var x := a * b + TwoTo31;
    assert Wrap32(a) * b + TwoTo31 == x - (q * b) * TwoTo32 by {
      assert (a - q * TwoTo32) * b == a * b - (q * b) * TwoTo32;
    }
    assert x == (x / TwoTo32) * TwoTo32 + x % TwoTo32;
    assert x - (q * b) * TwoTo32 == (x / TwoTo32 - q * b) * TwoTo32 + x % TwoTo32;
    DivModUnique(x - (q * b) * TwoTo32, TwoTo32, x / TwoTo32 - q * b, x % TwoTo32);
  }

  /** `i and bit != 0` for a power of two `bit`: bit `log2 bit` of `i` in
      two's complement, which floor division reads off for negative `i` too. */
  predicate BitSet(i: int, bit: int)
    requires bit > 0
  {
    (i / bit) % 2 == 1
  }
}
