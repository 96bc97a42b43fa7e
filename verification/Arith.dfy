/** Facts of integer division the solver does not find by itself. */
module Arith {
  lemma MulMono(a: int, b: int, c: nat)
    requires a <= b
    ensures a * c <= b * c
  {
  }

  lemma DivFacts(n: nat, p: nat)
    requires p > 0
    ensures n == n / p * p + n % p && 0 <= n % p < p
  {
  }

  /** An integer multiple of p strictly between -p and 2p is 0 or p. */
  lemma FactorBound(x: int, p: nat)
    requires p > 0 && x * p < 2 * p && x * p > -(p as int)
    ensures 0 <= x <= 1
  {
    if x > 1 {
      MulMono(2, x, p);
    } else if x < 0 {
      MulMono(x, -1, p);
    }
  }

  lemma DivUnique(n: nat, q: nat, m: nat, p: nat)
    requires m < p && n == q * p + m
    ensures n / p == q && n % p == m
  {
    var d, e := n / p, n % p;
    DivFacts(n, p);
    if d < q {
      MulMono(d + 1, q, p);
    } else if d > q {
      MulMono(q + 1, d, p);
    }
  }

  lemma DivBetween(n: nat, p: nat, low: nat, high: nat)
    requires p > 0 && low * p <= n < (high + 1) * p
    ensures low <= n / p <= high
  {
    var d := n / p;
    DivFacts(n, p);
    if d < low {
      MulMono(d + 1, low, p);
    } else if d > high {
      MulMono(high + 1, d, p);
    }
  }

  lemma Distribute(a: int, b: int, c: int)
    ensures (a + b) * c == a * c + b * c
    ensures (a - b) * c == a * c - b * c
  {
  }

  lemma Scale(a: int, b: int)
    ensures (1000 * a) * b == 1000 * (a * b)
  {
  }

  /** Splitting off whole multiples of the divisor: (k*p + r) thousandfold, divided by p. */
  lemma DivThousandfold(k: nat, r: nat, p: nat)
    requires p > 0
    ensures (k * p + r) * 1000 / p == k * 1000 + r * 1000 / p
  {
    var q := r * 1000 / p;
    DivFacts(r * 1000, p);
    Scale(k, p);
    Distribute(1000 * k, q, p);
    DivUnique((k * p + r) * 1000, k * 1000 + q, r * 1000 % p, p);
  }

  /** The quotient of a difference is the difference of the quotients, or one less. */
  lemma DivDifference(a: nat, b: nat, p: nat)
    requires p > 0 && a <= b
    ensures (b - a) / p <= b / p - a / p <= (b - a) / p + 1
  {
    var qa, qb, qd := a / p, b / p, (b - a) / p;
    DivFacts(a, p);
    DivFacts(b, p);
    DivFacts(b - a, p);
    Distribute(qb, qa, p);
    Distribute(qb - qa, qd, p);
    FactorBound(qb - qa - qd, p);
  }
}
