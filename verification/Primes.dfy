/** Primes: Euclid's lemma, Fermat's little theorem, and the square roots of one. */
module Primes {
  import opened Arith
  import opened NumberTheory

  ghost predicate Prime(n: nat) {
    n > 1 && forall d: nat :: 1 < d < n ==> n % d != 0
  }

  /** A prime dividing a product divides a factor: by descent on a, which may be taken below p. */
  lemma {:induction false} EuclidsLemma(p: nat, a: nat, b: nat)
    requires Prime(p) && Cong(a * b, 0, p)
    ensures Cong(a, 0, p) || Cong(b, 0, p)
    decreases a
  {
    hide Cong;
    if a == 0 {
      CongRefl(0, p);
    } else if a >= p {
      DivBound(a, p);
      CongMod(a, p);
      CongMulLeft(a % p, a, b, p);
      CongTrans((a % p) * b, a * b, 0, p);
      EuclidsLemma(p, a % p, b);
      if Cong(a % p, 0, p) {
        CongSym(a % p, a, p);
        CongTrans(a, a % p, 0, p);
      }
    } else if a > 1 {
      var q, r := p / a, p % a;
      SmallerFactor(p, a, b, q, r);
      EuclidsLemma(p, r, b);
      NotMultiple(r, p);
    }
  }

  lemma SmallerFactor(p: nat, a: int, b: int, q: int, r: int)
    requires p > 0 && Cong(a * b, 0, p) && p == a * q + r
    ensures Cong(r * b, 0, p)
  {
    hide Cong;
    MulDist(b, a * q, r);
    MulAssoc(q, a, b);
    CongShift(q * -(a * b), b, p);
    MulNegLeft(q, a * b);
    assert r * b == q * -(a * b) + p * b;
    CongMulLeft(a * b, 0, -q, p);
    CongTrans(r * b, q * -(a * b), 0, p);
  }

  lemma MulNegLeft(q: int, x: int)
    ensures q * -x == x * -q == -(q * x)
  {
  }

  lemma NotMultiple(r: nat, p: nat)
    requires 0 < r < p
    ensures !Cong(r, 0, p)
  {
    CongMod(r, p);
    CongMod(0, p);
  }

  // ---------- binomial coefficients ----------

  function Choose(n: nat, k: nat): nat {
    if k == 0 then 1 else if n == 0 then 0 else Choose(n - 1, k - 1) + Choose(n - 1, k)
  }

  lemma {:induction false} ChooseNone(n: nat, k: nat)
    requires k > n
    ensures Choose(n, k) == 0
  {
    if n > 0 {
      ChooseNone(n - 1, k - 1);
      ChooseNone(n - 1, k);
    }
  }

  lemma {:induction false} ChooseAll(n: nat)
    ensures Choose(n, n) == 1
  {
    if n > 0 {
      ChooseAll(n - 1);
      ChooseNone(n - 1, n);
    }
  }

  lemma {:induction false} Absorption(n: nat, k: nat)
    requires n > 0 && k > 0
    ensures k * Choose(n, k) == n * Choose(n - 1, k - 1)
  {
    var c, d := Choose(n - 1, k - 1), Choose(n - 1, k);
    assert Choose(n, k) == c + d;
    if n == 1 {
      assert d == 0;
      if k > 1 {
        ChooseNone(0, k - 1);
      }
    } else {
      Absorption(n - 1, k);
      if k > 1 {
        Absorption(n - 1, k - 1);
        assert c == Choose(n - 2, k - 2) + Choose(n - 2, k - 1);
        AbsorptionArith(n, k, c, d, Choose(n - 2, k - 2), Choose(n - 2, k - 1));
      } else {
        assert c == 1 && Choose(n - 2, 0) == 1;
      }
    }
  }

  lemma AbsorptionArith(n: int, k: int, c: int, d: int, x: int, y: int)
    requires k * d == (n - 1) * y && (k - 1) * c == (n - 1) * x && c == x + y
    ensures k * (c + d) == n * c
  {
    MulDist(k, c, d);
    MulDist(c, k, 1);
    MulDist(n - 1, x, y);
    MulDist(c, n, 1);
  }

  /** A prime divides every binomial coefficient strictly inside its row. */
  lemma PrimeRow(p: nat, k: nat)
    requires Prime(p) && 0 < k < p
    ensures Cong(Choose(p, k), 0, p)
  {
    Absorption(p, k);
    CongShift(0, Choose(p - 1, k - 1), p);
    EuclidsLemma(p, k, Choose(p, k));
    NotMultiple(k, p);
  }

  /** The terms of (a+1)^n up to a^k. */
  function BinomialSum(a: nat, n: nat, k: nat): nat {
    if k == 0 then 1 else Choose(n, k) * Pow(a, k) + BinomialSum(a, n, k - 1)
  }

  lemma {:induction false} PascalSum(a: nat, n: nat, k: nat)
    requires k > 0
    ensures BinomialSum(a, n + 1, k) == BinomialSum(a, n, k) + a * BinomialSum(a, n, k - 1)
  {
    var c, d, p := Choose(n, k - 1), Choose(n, k), Pow(a, k - 1);
    if k == 1 {
      FirstTerms(a, n);
    } else {
      PascalSum(a, n, k - 1);
      assert Choose(n + 1, k) == c + d && Pow(a, k) == a * p;
      var s, t := BinomialSum(a, n, k - 1), BinomialSum(a, n, k - 2);
      assert s == c * p + t;
      assert BinomialSum(a, n + 1, k) == (c + d) * (a * p) + (s + a * t);
      hide *;
      PascalArith(a, c, d, p, s, t);
    }
  }

  lemma PascalArith(a: int, c: int, d: int, p: int, s: int, t: int)
    requires s == c * p + t
    ensures (c + d) * (a * p) + (s + a * t) == (d * (a * p) + s) + a * s
  {
    MulDist(a * p, c, d);
    MulAssoc(c, a, p);
    MulAssoc(a, c, p);
    MulDist(a, c * p, t);
  }

  lemma FirstTerms(a: nat, n: nat)
    ensures BinomialSum(a, n + 1, 1) == BinomialSum(a, n, 1) + a * BinomialSum(a, n, 0)
  {
    assert Pow(a, 0) == 1 && Pow(a, 1) == a && Choose(n + 1, 1) == Choose(n, 1) + 1;
    assert BinomialSum(a, n + 1, 0) == 1 && BinomialSum(a, n, 0) == 1;
    MulDist(a, Choose(n, 1), 1);
  }

  lemma NoMoreTerms(a: nat, n: nat)
    requires n > 0
    ensures BinomialSum(a, n - 1, n) == BinomialSum(a, n - 1, n - 1)
  {
    ChooseNone(n - 1, n);
    hide Choose, Pow;
  }

  lemma OneMore(a: int, s: int)
    ensures (a + 1) * s == s + a * s
  {
  }

  lemma PowStep(b: nat, n: nat)
    requires n > 0
    ensures Pow(b, n) == b * Pow(b, n - 1)
  {
  }

  lemma {:induction false} BinomialTheorem(a: nat, n: nat)
    ensures BinomialSum(a, n, n) == Pow(a + 1, n)
  {
    if n > 0 {
      NoMoreTerms(a, n);
      PowStep(a + 1, n);
      hide *;
      BinomialTheorem(a, n - 1);
      PascalSum(a, n - 1, n);
      OneMore(a, BinomialSum(a, n - 1, n - 1));
    }
  }

  /** Modulo a prime all inner terms vanish. */
  lemma {:induction false} InnerTermsVanish(a: nat, p: nat, k: nat)
    requires Prime(p) && k < p
    ensures Cong(BinomialSum(a, p, k), 1, p)
  {
    if k == 0 {
      CongRefl(1, p);
    } else {
      hide Cong;
      InnerTermsVanish(a, p, k - 1);
      PrimeRow(p, k);
      CongMulLeft(Choose(p, k), 0, Pow(a, k), p);
      CongAdd(Choose(p, k) * Pow(a, k), 0, BinomialSum(a, p, k - 1), 1, p);
    }
  }

  /** Fermat: a^p = a mod p. */
  lemma {:induction false} Fermat(a: nat, p: nat)
    requires Prime(p)
    ensures Cong(Pow(a, p), a, p)
  {
    if a == 0 {
      CongRefl(0, p);
    } else {
      hide Cong;
      var b := a - 1;
      Fermat(b, p);
      BinomialTheorem(b, p);
      ChooseAll(p);
      InnerTermsVanish(b, p, p - 1);
      assert Pow(a, p) == Pow(b, p) + BinomialSum(b, p, p - 1);
      CongAdd(Pow(b, p), b, BinomialSum(b, p, p - 1), 1, p);
    }
  }

  lemma FermatUnit(a: nat, p: nat)
    requires Prime(p) && 0 < a < p
    ensures Cong(Pow(a, p - 1), 1, p)
  {
    hide Cong;
    var x := Pow(a, p - 1);
    Fermat(a, p);
    MulDist(a, x, 1);
    CongDifference(a * x, a, p);
    EuclidsLemma(p, a, x - 1);
    NotMultiple(a, p);
    CongAddLeft(x - 1, 0, 1, p);
  }

  lemma CongDifference(x: int, y: int, m: nat)
    requires Cong(x, y, m)
    ensures Cong(x - y, 0, m)
  {
    hide Cong;
    CongAddLeft(x, y, -y, m);
  }

  /** Modulo a prime, only 1 and -1 square to 1. */
  lemma RootsOfOne(x: nat, p: nat)
    requires Prime(p) && x < p && Cong(x * x, 1, p)
    ensures x == 1 || x == p - 1
  {
    hide Cong;
    CongDifference(x * x, 1, p);
    if x == 0 {
      CongSym(-1, 0, p);
      CongAddLeft(0, -1, 1, p);
      CongSym(1, 0, p);
      NotMultiple(1, p);
    } else {
      assert (x - 1) * (x + 1) == x * x - 1;
      EuclidsLemma(p, x - 1, x + 1);
      if 1 < x {
        NotMultiple(x - 1, p);
      }
      if x + 1 < p {
        NotMultiple(x + 1, p);
      }
    }
  }
}
