/** The few facts about products, quotients and remainders that the other modules need. */
module Arithmetic {

  /** Quotient and remainder are determined by the division equation. */
  lemma DivUnique(n: nat, m: nat, q: nat, r: nat)
    requires r < m && n == q * m + r
    ensures n / m == q && n % m == r
  {
    var p, s := n / m, n % m;
    assert n == p * m + s;
    if q > p {
      MulGe(q - p, m);
      MulSub(q, p, m);
    } else if p > q {
      MulGe(p - q, m);
      MulSub(p, q, m);
    }
  }

  lemma MulSub(a: int, b: int, m: int)
    ensures (a - b) * m == a * m - b * m
  {
  }

  lemma MulGe(a: nat, m: nat)
    requires a > 0
    ensures a * m >= m
  {
    assert a * m == (a - 1) * m + m;
  }

  /** Moving n forward inside one block: the block offset grows, or wraps to zero at the block's end. */
  lemma ModAdvance(x: nat, n: nat, m: nat)
    requires m > 0 && x % m + n <= m
    ensures (x + n) % m == if x % m + n == m then 0 else x % m + n
  {
    var q := x / m;
    assert x == q * m + x % m;
    if x % m + n == m {
      DivUnique(x + n, m, q + 1, 0);
    } else {
      DivUnique(x + n, m, q, x % m + n);
    }
  }

  lemma ModSum(x: nat, y: nat, m: nat)
    requires m > 0 && x % m == 0 && y % m == 0
    ensures (x + y) % m == 0
  {
    var p, q := x / m, y / m;
    assert x == p * m && y == q * m;
    assert x + y == (p + q) * m + 0;
    DivUnique(x + y, m, p + q, 0);
  }

  lemma BlocksFit(n: nat, m: nat)
    requires m > 0
    ensures n / m * m <= n < n / m * m + m && n / m * m % m == 0
  {
    DivUnique(n / m * m, m, n / m, 0);
  }

  lemma FloorIsMultiple(n: nat, m: nat)
    requires m > 0
    ensures (n - n % m) % m == 0 && m % m == 0
  {
    DivUnique(n - n % m, m, n / m, 0);
    DivUnique(m, m, 1, 0);
  }

  lemma DivIdentity(n: nat, m: nat)
    requires m > 0
    ensures n == n / m * m + n % m && n % m < m
  {
  }

  lemma DivShrinks(n: nat, m: nat)
    requires n > 0 && m > 1
    ensures n / m < n
  {
    DivIdentity(n, m);
    MulMonotone(n / m, n / m, 2, m);
  }

  lemma MulMonotone(a: nat, b: nat, c: nat, d: nat)
    requires a <= b && c <= d
    ensures a * c <= b * d
  {
    MulSub(b, a, c);
    MulSub(d, c, b);
  }

  lemma Distribute(a: int, b: int, c: int)
    ensures (a + b) * c == a * c + b * c && c * (a + b) == c * a + c * b
  {
  }

  lemma Commute(a: int, b: int)
    ensures a * b == b * a
  {
  }

  lemma Associate(a: int, b: int, c: int)
    ensures a * b * c == a * (b * c)
  {
  }

  lemma DivBelow(n: nat, m: nat, p: nat)
    requires m > 0
    ensures n / m < p <==> n < m * p
  {
    var q := n / m;
    DivIdentity(n, m);
    if q < p {
      MulMonotone(m, m, q + 1, p);
      Distribute(q, 1, m);
    } else {
      MulMonotone(m, m, p, q);
    }
  }

  lemma ModMultiple(k: nat, m: nat, x: nat)
    requires m > 0
    ensures (k * m + x) % m == x % m
  {
    DivIdentity(x, m);
    Distribute(k, x / m, m);
    DivUnique(k * m + x, m, k + x / m, x % m);
  }

  /** Reducing one factor first changes nothing. */
  lemma ModMulAdd(f: nat, v: nat, m: nat, d: nat)
    requires m > 0
    ensures f * (v % m) + d >= 0 && (f * (v % m) + d) % m == (f * v + d) % m
  {
    var q, r := v / m, v % m;
    DivIdentity(v, m);
    Distribute(q * m, r, f);
    Associate(f, q, m);
    MulMonotone(0, f, 0, q);
    MulMonotone(0, f, 0, r);
    ModMultiple(f * q, m, f * r + d);
  }

  lemma ModSmall(x: nat, m: nat)
    requires x < m
    ensures x % m == x
  {
  }
}
