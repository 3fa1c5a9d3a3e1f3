/** Remainders with a variable modulus. */
module Modular {

  lemma MultipleIsLarge(m: nat, k: int)
    requires 1 <= k
    ensures m <= m * k
  {
  }

  lemma QuotientIsUnique(m: nat, p: int, q: int, r: int, s: int)
    requires 0 <= r < m && 0 <= s < m && m * p + r == m * q + s
    ensures p == q && r == s
  {
    assert m * (p - q) == m * p - m * q;
    assert m * (q - p) == m * q - m * p;
    if p > q {
      MultipleIsLarge(m, p - q);
    } else if p < q {
      MultipleIsLarge(m, q - p);
    }
  }

  /** The remainder of `m * q + r` is `r`. */
  lemma RemainderIs(x: int, m: nat, q: int, r: int)
    requires 0 <= r < m && x == m * q + r
    ensures x % m == r
  {
    QuotientIsUnique(m, x / m, q, x % m, r);
  }

  lemma AddToRemainder(x: int, n: int, m: nat)
    requires 0 < m
    ensures (x % m + n) % m == (x + n) % m
  {
    var y := x % m + n;
    assert x + n == m * (x / m + y / m) + y % m by {
      assert x == m * (x / m) + x % m;
      assert y == m * (y / m) + y % m;
      assert m * (x / m + y / m) == m * (x / m) + m * (y / m);
    }
    RemainderIs(x + n, m, x / m + y / m, y % m);
  }

  /** Going `n` steps round a ring of `m` from `a` leads `n % m` places ahead. */
  lemma StepsAround(a: nat, n: nat, m: nat)
    requires a < m
    ensures (a + n) % m == if a + n % m < m then a + n % m else a + n % m - m
  {
    var q, d := n / m, n % m;
    assert n == m * q + d;
    if a + d < m {
      RemainderIs(a + n, m, q, a + d);
    } else {
      assert m * (q + 1) == m * q + m;
      RemainderIs(a + n, m, q + 1, a + d - m);
    }
  }
}
