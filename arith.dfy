/** Small facts of integer arithmetic that the solver does not find alone. */
module Arith {

  lemma MulMonotone(a: int, b: int, k: int)
    requires a <= b && k >= 0
    ensures a * k <= b * k
  {
    assert b * k - a * k == (b - a) * k;
  }

  /** Euclidean division by a positive divisor, with the product written q * n. */
  lemma DivBounds(a: int, n: int)
    requires n >= 1
    ensures (a / n) * n <= a < (a / n) * n + n
  {
    assert a == n * (a / n) + a % n;
  }
}
