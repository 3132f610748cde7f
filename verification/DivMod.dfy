/** Division facts that the solver does not find by itself. */
module DivMod {

  function Times(a: nat, b: nat): (p: nat)
    ensures p == a * b
  {
    MulLe(0, a, b);
    a * b
  }

  function Quotient(a: nat, b: nat): (q: nat)
    requires b > 0
    ensures q == a / b
  {
    a / b
  }

  lemma MulLe(a: nat, b: nat, c: nat)
    requires a <= b
    ensures a * c <= b * c
    ensures c * a <= c * b
  {
  }

  lemma MulAssoc(a: int, b: int, c: int)
    ensures (a * b) * c == a * (b * c)
  {
  }

  lemma MulDistributes(a: int, b: int, c: int)
    ensures (a + b) * c == a * c + b * c
    ensures (a - b) * c == a * c - b * c
  {
  }

  lemma DivModIdentity(l: int, n: int)
    requires n > 0
    ensures l == (l / n) * n + l % n && 0 <= l % n < n
  {
  }

  /** Quotient and remainder are the only pair with these two properties. */
  lemma DivModUnique(a: int, b: int, q: int, r: int)
    requires b > 0 && a == q * b + r && 0 <= r < b
    ensures a / b == q && a % b == r
  {
    var q', r' := a / b, a % b;
    assert a == q' * b + r';
    MulDistributes(q, q', b);
    assert (q - q') * b == r' - r;
    if q > q' {
      MulLe(1, q - q', b);
    } else if q' > q {
      MulLe(1, q' - q, b);
    }
  }

  /** Removing the two innermost digits, of sizes n and then c, removes one digit of size c * n. */
  lemma TwoDigits(l: nat, c: nat, n: nat)
    requires c > 0 && n > 0
    ensures c * n > 0
    ensures l / (c * n) == (l / n) / c
    ensures l % (c * n) == ((l / n) % c) * n + l % n
  {
    var q, r := l / n, l % n;
    var q2, r2 := q / c, q % c;
    assert q == q2 * c + r2;
    calc {
      l;
      q * n + r;
      { MulDistributes(q2 * c, r2, n); MulAssoc(q2, c, n); }
      q2 * (c * n) + (r2 * n + r);
    }
    MulLe(r2 + 1, c, n);
    MulDistributes(r2, 1, n);
    DivModUnique(l, c * n, q2, r2 * n + r);
  }

  /** A number below m * n has its quotient by n below m. */
  lemma QuotientBelow(l: nat, m: nat, n: nat)
    requires n > 0 && l < m * n
    ensures l / n < m
  {
    if l / n >= m {
      MulLe(m, l / n, n);
    }
  }

  lemma DivOfProduct(a: int, b: int, q: int)
    requires b > 0 && (a == q * b || a == b * q)
    ensures a / b == q && a % b == 0
  {
    DivModUnique(a, b, q, 0);
  }

  lemma CancelFactor(a: nat, b: nat, c: nat)
    requires c > 0 && a * c == b * c
    ensures a == b
  {
    if a < b {
      MulLe(a + 1, b, c);
      MulDistributes(a, 1, c);
    } else if b < a {
      MulLe(b + 1, a, c);
      MulDistributes(b, 1, c);
    }
  }

  /** Two naturals whose product is one are both one. */
  lemma ProductIsOne(a: nat, b: nat)
    requires a * b == 1
    ensures a == 1 && b == 1
  {
    if a >= 2 && b >= 1 {
      MulLe(2, a, b);
    }
    if b >= 2 && a >= 1 {
      MulLe(2, b, a);
    }
  }

  lemma CancelToOne(p: nat, a: nat, b: nat, x: nat)
    requires p > 0 && p * a * b * x == p
    ensures a == 1 && b == 1 && x == 1
  {
    MulAssoc(p, a, b);
    MulAssoc(p, a * b, x);
    CancelFactor(1, (a * b) * x, p);
    ProductIsOne(a * b, x);
    ProductIsOne(a, b);
  }

  lemma QuotientOfRest(p: nat, rest: nat, n: nat, x: nat, y: nat)
    requires p > 0 && n > 0 && p * rest == p * y && y == n * x
    ensures rest / n == x
  {
    CancelFactor(rest, y, p);
    DivOfProduct(rest, n, x);
  }

  /** x * y * r == x with x positive forces r to be one. */
  lemma FactorOfItself(x: nat, y: nat, r: nat)
    requires x > 0 && x == (x * y) * r
    ensures r == 1
  {
    MulAssoc(x, y, r);
    CancelFactor(1, y * r, x);
    ProductIsOne(y, r);
  }

  /** If p * (n * x) == p * r then n divides r, with quotient x. */
  lemma FactorDivides(p: nat, n: nat, x: nat, r: nat)
    requires p > 0 && n > 0 && x > 0 && p * (n * x) == p * r
    ensures n <= r && r % n == 0
  {
    CancelFactor(n * x, r, p);
    MulLe(1, x, n);
    DivOfProduct(r, n, x);
  }

  // ---- groups of equal size laid one after the other ----

  /** Index `j` of the `b`-th group of `n`. */
  function At(b: nat, n: nat, j: nat): nat {
    Times(b, n) + j
  }

  lemma AtUnique(b: nat, j: nat, c: nat, k: nat, n: nat)
    requires j < n && k < n && At(b, n, j) == At(c, n, k)
    ensures b == c && j == k
  {
    DivModUnique(At(b, n, j), n, b, j);
    DivModUnique(At(b, n, j), n, c, k);
  }

  lemma AtBelow(b: nat, j: nat, batch: nat, n: nat)
    requires b < batch && j < n
    ensures At(b, n, j) < Times(batch, n)
  {
    MulLe(b + 1, batch, n);
  }

  lemma NextGroup(b: nat, n: nat)
    ensures At(b, n, n) == Times(b + 1, n)
  {
  }
}
