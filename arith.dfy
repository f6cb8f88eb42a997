/** Facts about integer multiplication and Euclidean division that the
    solver does not find by itself. */
module Arith {

  lemma MulGap(d: int, n: int)
    requires d > 0
    ensures n >= 1 ==> d * n >= d
    ensures n <= -1 ==> d * n <= -d
  {
    if n >= 1 {
      assert d * n == d + d * (n - 1);
    } else if n <= -1 {
      assert d * n == -d + d * (n + 1);
    }
  }

  /** Euclidean division is determined by quotient and remainder. */
  lemma ModOfSplit(x: int, d: nat, a: int, b: int)
    requires d > 0 && 0 <= b < d && x == d * a + b
    ensures x % d == b && x / d == a
  {
    var q, r := x / d, x % d;
    assert d * a - d * q == r - b;
    assert d * (a - q) == d * a - d * q;
    MulGap(d, a - q);
  }

  /** A multiple of d that is at most x is at most d times x / d. */
  lemma DivLowerBound(x: nat, d: nat, a: nat)
    requires d > 0 && d * a <= x
    ensures a <= x / d
  {
    ModOfSplit(x, d, x / d, x % d);
    MulGap(d, a - x / d);
    assert d * (a - x / d) == d * a - d * (x / d);
  }

  /** Below a multiple of d, the quotient by d stays below the factor. */
  lemma DivUpperBound(x: nat, d: nat, a: nat)
    requires d > 0 && x <= d * a
    ensures x / d <= a
  {
    ModOfSplit(x, d, x / d, x % d);
    MulGap(d, x / d - a);
    assert d * (x / d - a) == d * (x / d) - d * a;
  }

  /** Division by a positive number preserves order. */
  lemma DivMonotone(x: nat, y: nat, d: nat)
    requires d > 0 && x <= y
    ensures x / d <= y / d
  {
    assert x == d * (x / d) + x % d;
    DivLowerBound(y, d, x / d);
  }
}
