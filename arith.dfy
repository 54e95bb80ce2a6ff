/** Facts about Euclidean division that the solver does not find on its own. */
module Arith {
  /** Euclidean division by a positive divisor, with its two defining facts named. */
  lemma Euclid(n: int, d: int)
    requires d > 0
    ensures n == (n / d) * d + n % d && 0 <= n % d < d
  {
  }

  /** Only one quotient can leave a remainder in `[0, d)` (a floor quotient is unique). */
  lemma QuotientUnique(n: int, d: int, q: int, q': int)
    requires d > 0
    requires q * d <= n < q * d + d
    requires q' * d <= n < q' * d + d
    ensures q == q'
  {
    if q < q' {
      assert (q' - q) * d >= d by { MulAtLeast(q' - q, d); }
      assert false;
    } else if q' < q {
      assert (q - q') * d >= d by { MulAtLeast(q - q', d); }
      assert false;
    }
  }

  lemma MulAtLeast(k: int, d: int)
    requires k >= 1 && d > 0
    ensures k * d >= d
  {
    assert k * d == (k - 1) * d + d;
    assert (k - 1) * d >= 0;
  }

  /** Euclidean division is determined by any quotient-remainder pair. */
  lemma DivModOf(n: int, d: int, q: int, m: int)
    requires d > 0 && n == q * d + m && 0 <= m < d
    ensures n / d == q && n % d == m
  {
    Euclid(n, d);
    QuotientUnique(n, d, n / d, q);
  }
}
