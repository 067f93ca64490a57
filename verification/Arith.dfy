/** Products, quotients and remainders of integers, one small fact at a time. */
module Arith {

  function Min(x: int, y: int): int {
    if x < y then x else y
  }

  function Max(x: int, y: int): int {
    if x < y then y else x
  }

  lemma MulMono(c: int, x: int, y: int)
    requires 0 <= c && x <= y
    ensures c * x <= c * y
  {
  }

  lemma NonNegativeProduct(x: nat, y: nat)
    ensures x * y >= 0
  {
  }

  lemma MulAssoc(a: int, b: int, c: int)
    ensures a * (b * c) == (a * b) * c
  {
  }

  lemma MulDist(a: int, b: int, c: int)
    ensures a * (b + c) == a * b + a * c
    ensures a * (b - c) == a * b - a * c
  {
  }

  /** Quotient and remainder are the only pair that fits. */
  lemma DivUnique(x: int, p: int, q: int, r: int)
    requires 0 <= r < p && x == p * q + r
    ensures x / p == q && x % p == r
  {
    var d := x / p - q;
    MulDist(p, x / p, q);
    assert p * d == r - x % p;
    if d >= 1 {
      MulMono(p, 1, d);
    } else if d <= -1 {
      MulMono(p, d, -1);
    }
  }

  lemma DivBound(x: nat, p: int)
    requires p > 0
    ensures 0 <= x / p <= x
    ensures x == p * (x / p) + x % p
  {
    if x < x / p {
      MulMono(x / p, 1, p);
    }
  }

  lemma DivBelow(x: nat, p: int, q: int)
    requires p > 0 && x < p * q
    ensures x / p < q
  {
    if x / p >= q {
      MulMono(p, q, x / p);
    }
  }

  lemma DivDiv(x: nat, a: int, b: int)
    requires a > 0 && b > 0
    ensures a * b > 0 && x / (a * b) == x / a / b
  {
    var y := x / a;
    MulAssoc(a, b, y / b);
    MulDist(a, b * (y / b), y % b);
    MulMono(a, y % b, b - 1);
    MulDist(a, b, 1);
    DivUnique(x, a * b, y / b, a * (y % b) + x % a);
  }
}
