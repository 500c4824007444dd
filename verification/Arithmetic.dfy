/** Facts about products, quotients and remainders that the solver is better told. */
module Arithmetic {

  lemma DivMod(v: int, b: nat)
    requires b > 0
    ensures v == (v / b) * b + v % b && 0 <= v % b < b
  {
  }

  lemma DivModOf(v: nat, b: nat) returns (q: nat, r: nat)
    requires b > 0
    ensures q == v / b && r == v % b && r < b && v == q * b + r
  {
    DivMod(v, b);
    q, r := v / b, v % b;
  }

  lemma AddMultiples(p: int, a: int, b: int)
    ensures (a + b) * p == a * p + b * p
  {
  }

  lemma Distribute(x: int, y: int, b: int)
    ensures (x - y) * b == x * b - y * b
  {
  }

  lemma Monotone(a: nat, b: nat, e: nat)
    requires a <= b
    ensures a * e <= b * e
  {
  }

  lemma SmallMultiple(x: int, b: int)
    requires -b < x * b < b
    ensures x == 0
  {
  }

  lemma AtLeast(r: nat, b: nat, d: nat)
    requires r > 0
    ensures r * b + d >= b
  {
  }

  lemma NonNegativeMultiple(x: int, b: int)
    requires b > 0
    ensures x * b > 0 <==> x > 0
  {
  }

  /** Quotient and remainder are unique, whatever the sign of the dividend. */
  lemma QuotientRemainder(v: int, b: nat, q: int, r: nat)
    requires b > 0 && v == q * b + r && r < b
    ensures v / b == q && v % b == r
  {
    DivMod(v, b);
    Distribute(v / b, q, b);
    SmallMultiple(v / b - q, b);
  }

  lemma QuotientMonotone(x: nat, y: nat, b: nat)
    requires b > 0 && x <= y
    ensures x / b <= y / b
  {
    DivMod(x, b);
    DivMod(y, b);
    if y / b < x / b {
      Monotone(y / b + 1, x / b, b);
      AddMultiples(b, y / b, 1);
    }
  }

  lemma Rearrange(s: int, p: int, d: int, b: int)
    ensures (s * p + d) * b == s * (b * p) + d * b
  {
    assert (s * p) * b == s * (b * p);
  }

  lemma BelowProduct(d: nat, p: nat, r: nat, b: nat)
    requires d < p && r < b
    ensures 0 < b * p && d * b + r < b * p
  {
    assert (d + 1) * b <= p * b;
  }

  /** Dividing twice is dividing by the product. */
  lemma DivTwice(v: nat, b: nat, p: nat)
    requires b > 0 && p > 0
    ensures b * p > 0 && v / (b * p) == (v / b) / p
    ensures v % (b * p) == (v / b % p) * b + v % b
  {
    var q, r := v / b, v % b;
    DivMod(v, b);
    var s, d := q / p, q % p;
    DivMod(q, p);
    Rearrange(s, p, d, b);
    BelowProduct(d, p, r, b);
    QuotientRemainder(v, b * p, s, d * b + r);
  }
}
