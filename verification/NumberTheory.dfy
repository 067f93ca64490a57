/** Congruences, powers and greatest common divisors. */
module NumberTheory {
  import opened Arith

  function Pow(b: nat, e: nat): (p: nat)
    ensures b > 0 ==> p > 0
  {
    if e == 0 then 1 else b * Pow(b, e - 1)
  }

  lemma {:induction false} PowAdd(b: nat, i: nat, j: nat)
    ensures Pow(b, i + j) == Pow(b, i) * Pow(b, j)
  {
    if i > 0 {
      PowAdd(b, i - 1, j);
      MulAssoc(b, Pow(b, i - 1), Pow(b, j));
    }
  }

  lemma {:induction false} PowMul(b: nat, i: nat, j: nat)
    ensures Pow(b, i * j) == Pow(Pow(b, i), j)
  {
    if j > 0 {
      PowMul(b, i, j - 1);
      MulDist(i, j, 1);
      MulMono(i, 0, j - 1);
      PowAdd(b, i, i * (j - 1));
    }
  }

  /** x and y leave the same remainder. */
  ghost predicate Cong(x: int, y: int, m: nat) {
    m > 0 && x % m == y % m
  }

  lemma CongRefl(x: int, m: nat)
    requires m > 0
    ensures Cong(x, x, m)
  {
  }

  lemma CongSym(x: int, y: int, m: nat)
    requires Cong(x, y, m)
    ensures Cong(y, x, m)
  {
  }

  /** A multiple of m may be added. */
  lemma CongShift(x: int, k: int, m: nat)
    requires m > 0
    ensures Cong(x + m * k, x, m)
  {
    MulDist(m, x / m, k);
    DivUnique(x + m * k, m, x / m + k, x % m);
  }

  lemma CongDiff(x: int, y: int, m: nat) returns (k: int)
    requires Cong(x, y, m)
    ensures m > 0 && x == y + m * k
  {
    k := x / m - y / m;
    MulDist(m, x / m, y / m);
  }

  lemma CongTrans(x: int, y: int, z: int, m: nat)
    requires Cong(x, y, m) && Cong(y, z, m)
    ensures Cong(x, z, m)
  {
  }

  lemma CongAddLeft(x: int, x': int, y: int, m: nat)
    requires Cong(x, x', m)
    ensures Cong(x + y, x' + y, m)
  {
    hide Cong;
    var k := CongDiff(x, x', m);
    CongShift(x' + y, k, m);
  }

  lemma CongAdd(x: int, x': int, y: int, y': int, m: nat)
    requires Cong(x, x', m) && Cong(y, y', m)
    ensures Cong(x + y, x' + y', m)
  {
    hide Cong;
    CongAddLeft(x, x', y, m);
    CongAddLeft(y, y', x', m);
    CongTrans(x + y, x' + y, x' + y', m);
  }

  lemma Expand(a: int, m: int, k: int, y: int)
    ensures (a + m * k) * y == a * y + m * (k * y)
  {
    MulDist(y, a, m * k);
    MulAssoc(m, k, y);
  }

  lemma CongMulLeft(x: int, x': int, y: int, m: nat)
    requires Cong(x, x', m)
    ensures Cong(x * y, x' * y, m)
  {
    hide Cong;
    var k := CongDiff(x, x', m);
    Expand(x', m, k, y);
    CongShift(x' * y, k * y, m);
  }

  lemma CongMul(x: int, x': int, y: int, y': int, m: nat)
    requires Cong(x, x', m) && Cong(y, y', m)
    ensures Cong(x * y, x' * y', m)
  {
    hide Cong;
    CongMulLeft(x, x', y, m);
    CongMulLeft(y, y', x', m);
    CongTrans(x * y, x' * y, x' * y', m);
  }

  lemma CongMod(x: int, m: nat)
    requires m > 0
    ensures Cong(x % m, x, m) && (0 <= x < m ==> x % m == x)
  {
    DivUnique(x % m, m, 0, x % m);
    if 0 <= x < m {
      DivUnique(x, m, 0, x);
    }
  }

  lemma {:induction false} CongPow(x: nat, y: nat, e: nat, m: nat)
    requires Cong(x, y, m)
    ensures Cong(Pow(x, e), Pow(y, e), m)
  {
    if e > 0 {
      hide Cong;
      CongPow(x, y, e - 1, m);
      CongMul(x, y, Pow(x, e - 1), Pow(y, e - 1), m);
    }
  }

  ghost predicate Divides(d: int, x: int) {
    exists k: int :: x == d * k
  }

  lemma DividesIsMod(d: nat, x: int)
    requires d > 0
    ensures Divides(d, x) <==> x % d == 0
  {
    if Divides(d, x) {
      var k: int :| x == d * k;
      DivUnique(x, d, k, 0);
    }
    if x % d == 0 {
      assert x == d * (x / d);
    }
  }

  lemma DividesCombination(d: int, x: int, y: int, c: int)
    requires Divides(d, x) && Divides(d, y)
    ensures Divides(d, x + c * y)
  {
    var k: int :| x == d * k;
    var l: int :| y == d * l;
    MulAssoc(c, d, l);
    MulAssoc(d, c, l);
    MulDist(d, k, c * l);
    assert x + c * y == d * (k + c * l);
  }

  function Gcd(a: nat, b: nat): nat
    decreases b
  {
    if b == 0 then a else Gcd(b, a % b)
  }

  /** Gcd is a common divisor, and every common divisor divides it. */
  lemma {:induction false} GcdIsGreatest(a: nat, b: nat)
    ensures Divides(Gcd(a, b), a) && Divides(Gcd(a, b), b)
    ensures forall d: int :: Divides(d, a) && Divides(d, b) ==> Divides(d, Gcd(a, b))
    decreases b
  {
    if b == 0 {
      assert a == a * 1 && 0 == a * 0;
    } else {
      GcdIsGreatest(b, a % b);
      var q := a / b;
      assert a == a % b + q * b;
      DividesCombination(Gcd(a, b), a % b, b, q);
      forall d: int | Divides(d, a) && Divides(d, b)
        ensures Divides(d, Gcd(a, b))
      {
        DividesCombination(d, a, b, -q);
        MulDist(q, b, 0);
        assert a + (-q) * b == a % b;
      }
    }
  }
}
