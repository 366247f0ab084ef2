/** Facts of integer division that the verifier does not find by itself. */
module Arith {
  lemma MulMonotone(a: int, b: int, p: nat)
    requires a <= b
    ensures a * p <= b * p
  {
  }

  lemma DivMod(x: nat, p: nat)
    requires 1 <= p
    ensures x / p * p == x - x % p
  {
  }

  /** Quotient and remainder are unique. */
  lemma {:induction false} DivModUnique(p: nat, q: int, r: nat)
    requires r < p
    ensures (q * p + r) / p == q && (q * p + r) % p == r
  {
    var n := q * p + r;
    var q' := n / p;
    MulMonotone(q + 1, if q < q' then q' else q + 1, p);
    MulMonotone(q' + 1, if q' < q then q else q' + 1, p);
    assert (q + 1) * p == q * p + p && (q' + 1) * p == q' * p + p;
  }

  lemma DoubleProduct(q: int, p: int)
    ensures q * (2 * p) == 2 * (q * p)
  {
  }

  /** The numbers with quotient `q` are those from q * p to q * p + p - 1. */
  lemma {:induction false} QuotientRange(a: nat, q: nat, p: nat)
    requires 1 <= p
    ensures a / p == q <==> q * p <= a <= q * p + p - 1
  {
    assert a == a / p * p + a % p;
    if q * p <= a <= q * p + p - 1 {
      DivModUnique(p, q, a - q * p);
    }
  }

  lemma SameMultiple(a: nat, b: nat, p: nat)
    requires 1 <= p
    ensures a * p == b * p <==> a == b
  {
    DivModUnique(p, a, 0);
    DivModUnique(p, b, 0);
  }

  /** Halving the number and the divisor leaves the quotient. */
  lemma {:induction false} HalveQuotient(x: nat, p: nat)
    requires 1 <= p
    ensures x / (2 * p) == x / 2 / p
  {
    var q, r := x / 2 / p, x / 2 % p;
    assert x / 2 == q * p + r;
    DoubleProduct(q, p);
    assert x == q * (2 * p) + (2 * r + x % 2);
    DivModUnique(2 * p, q, 2 * r + x % 2);
  }

  lemma {:induction false} QuotientOfProduct(x: nat, p: nat, k: nat)
    requires 1 <= p && 1 <= k
    ensures k * p >= 1 && x / (k * p) == x / p / k
  {
    MulMonotone(1, k, p);
    var q, r, t := x / p / k, x / p % k, x % p;
    assert x / p == q * k + r;
    assert x == (q * k + r) * p + t == q * (k * p) + (r * p + t);
    MulMonotone(r + 1, k, p);
    DivModUnique(k * p, q, r * p + t);
  }

  lemma CrossMultiply(p: int, q: int)
    ensures (p - 1) * q == (q - 1) * p + (p - q)
  {
  }

  lemma MulPositive(a: nat, b: nat)
    ensures 1 <= a && 1 <= b ==> 1 <= a * b
  {
  }

  lemma NextRemainder(x: nat, p: nat)
    requires 1 <= p
    ensures (p + x) % p == x % p
  {
    DivModUnique(p, x / p + 1, x % p);
    assert (x / p + 1) * p + x % p == p + x;
  }

  lemma SmallModulus(x: nat, m: nat)
    requires x < m
    ensures x % m == x && m % m == 0
  {
  }
}
