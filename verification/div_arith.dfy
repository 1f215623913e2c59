/** Integer helpers: the minimum of two bounds, and facts about Euclidean
    integer division by a positive divisor, used by the word-to-frame
    arithmetic. */
module DivArith {

  function Min(a: int, b: int): int {
    if a < b then a else b
  }

  /** A nonzero multiple of n is at least n away from zero. */
  lemma MulAwayFromZero(d: int, n: int)
    requires 0 < n
    ensures d >= 1 ==> d * n >= n
    ensures d <= -1 ==> d * n <= -n
  {
  }

  /** Division is determined by any quotient/remainder pair. */
  lemma DivUnique(x: int, n: int, q: int, r: int)
    requires 0 < n && 0 <= r < n && x == q * n + r
    ensures x / n == q && x % n == r
  {
    var d := x / n - q;
    assert d * n == r - x % n;
    MulAwayFromZero(d, n);
  }

  /** (a + q*n) / n == a / n + q */
  lemma DivAddMultiple(a: int, q: int, n: int)
    requires 0 < n
    ensures (a + q * n) / n == a / n + q
  {
    DivUnique(a + q * n, n, a / n + q, a % n);
  }

  /** Division by a positive number is monotone. */
  lemma DivMonotone(a: int, b: int, n: int)
    requires 0 < n && a <= b
    ensures a / n <= b / n
  {
    var d := a / n - b / n;
    assert d * n == (a - a % n) - (b - b % n);
    MulAwayFromZero(d, n);
  }

  /** Adding less than one divisor raises the quotient by at most one. */
  lemma DivStep(a: int, r: int, n: int)
    requires 0 < n && 0 <= r < n
    ensures a / n <= (a + r) / n <= a / n + 1
  {
    DivMonotone(a, a + r, n);
    DivMonotone(a + r, a + n, n);
    DivAddMultiple(a, 1, n);
  }

  /** Multiplying by a non-negative number is monotone. */
  lemma MulMonotone(a: int, b: int, w: int)
    requires a <= b && 0 <= w
    ensures a * w <= b * w
  {
    assert b * w - a * w == (b - a) * w;
  }
}
