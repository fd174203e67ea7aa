/** Products and quotients. */
module Arithmetic {

  lemma Monotone(d: nat, p: int, q: int)
    requires p <= q
    ensures d * p <= d * q
  {
  }

  lemma UniqueQuotient(d: nat, p: int, e: nat, q: int, f: nat)
    requires e < d && f < d && d * p + e == d * q + f
    ensures p == q
  {
    if p < q {
      Monotone(d, p + 1, q);
    } else if q < p {
      Monotone(d, q + 1, p);
    }
  }

  lemma DivIs(n: int, d: nat, q: int)
    requires d > 0
    ensures n / d == q <==> d * q <= n < d * q + d
  {
    assert n == d * (n / d) + n % d;
    if d * q <= n < d * q + d {
      UniqueQuotient(d, n / d, n % d, q, n - d * q);
    }
  }

  lemma Next(d: nat, p: int)
    ensures d * (p + 1) == d * p + d
  {
  }

  lemma QuotientBelow(n: int, d: nat, m: nat)
    requires d > 0
    ensures 0 <= n / d < m <==> 0 <= n < d * m
  {
    var q := n / d;
    DivIs(n, d, q);
    Next(d, q);
    if q < 0 {
      Monotone(d, q + 1, 0);
    } else if q < m {
      Monotone(d, 0, q);
      Monotone(d, q + 1, m);
    } else {
      Monotone(d, m, q);
    }
  }

  lemma DividedUp(n: int, d: nat, q: int)
    requires d > 0 && (q - 1) * d < n <= q * d
    ensures (n + d - 1) / d == q
  {
    Next(d, q - 1);
    assert (q - 1) * d == d * (q - 1) && q * d == d * q;
    DivIs(n + d - 1, d, q);
  }
}
