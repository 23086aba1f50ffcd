/** Division and remainder facts that several models share. */
module Arithmetic {

  lemma ProductMonotone(a: int, b: int, m: int)
    requires 0 <= m && a <= b
    ensures a * m <= b * m
  {
  }

  lemma QuotientUnique(x: int, m: int, q: int, r: int)
    requires m > 0 && x == q * m + r && 0 <= r < m
    ensures x / m == q && x % m == r
  {
    if x / m > q {
      ProductMonotone(q + 1, x / m, m);
    } else if x / m < q {
      ProductMonotone(x / m + 1, q, m);
    }
  }

  lemma QuotientAtLeast(x: int, d: int, k: int)
    requires 0 < d && k * d <= x
    ensures k <= x / d
  {
    if x / d < k {
      ProductMonotone(x / d + 1, k, d);
    }
  }

  lemma QuotientBelow(x: int, d: int, k: int)
    requires 0 < d && 0 <= x < k * d
    ensures x / d < k
  {
    if x / d >= k {
      ProductMonotone(k, x / d, d);
    }
  }

  lemma SumModulo(a: int, b: int, m: int)
    requires m > 0 && a % m == 0
    ensures (a + b) % m == b % m
  {
    assert a + b == (a / m + b / m) * m + b % m;
    QuotientUnique(a + b, m, a / m + b / m, b % m);
  }

  /** Moving i places round a ring of m. */
  lemma RingMove(x: int, i: int, m: int)
    requires 0 <= i < m
    ensures (x + i) % m == if x % m + i < m then x % m + i else x % m + i - m
  {
    if x % m + i < m {
      QuotientUnique(x + i, m, x / m, x % m + i);
    } else {
      assert (x / m + 1) * m == (x / m) * m + m;
      QuotientUnique(x + i, m, x / m + 1, x % m + i - m);
    }
  }
}
