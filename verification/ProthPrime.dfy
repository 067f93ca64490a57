/**
 A prime of exactly 32 bits: 3 * 2^30 + 1. That 125^(2^29) is -1 modulo it forces every prime
 factor to be 1 modulo 2^30, which leaves room for only one (the theorem of Proth).
 */
module ProthPrime {
  import opened Arith
  import opened Bits
  import opened NumberTheory
  import opened Primes
  import opened WordMath

  const PROTH: nat := 3221225473

  lemma {:induction false} PrimeFactor(n: nat) returns (p: nat)
    requires n > 1
    ensures Prime(p) && Divides(p, n) && p <= n
  {
    if Prime(n) {
      p := n;
      assert n == n * 1;
    } else {
      var d: nat :| 1 < d < n && n % d == 0;
      p := PrimeFactor(d);
      DividesIsMod(d, n);
      DividesTrans(p, d, n);
    }
  }

  lemma DividesTrans(a: int, b: int, c: int)
    requires Divides(a, b) && Divides(b, c)
    ensures Divides(a, c)
  {
    var k: int :| b == a * k;
    var l: int :| c == b * l;
    MulAssoc(a, k, l);
    assert c == a * (k * l);
  }

  /** What is congruent modulo n is so modulo every divisor of n. */
  lemma CongDown(x: int, y: int, n: nat, p: nat)
    requires Cong(x, y, n) && Divides(p, n) && p > 0
    ensures Cong(x, y, p)
  {
    hide Cong;
    var k := CongDiff(x, y, n);
    var l: int :| n == p * l;
    MulAssoc(p, l, k);
    CongShift(y, l * k, p);
  }

  /** 125 squared i times. */
  function SquaredBase(i: nat): nat {
    if i == 0 then 125 else (SquaredBase(i - 1) * SquaredBase(i - 1)) % PROTH
  }

  lemma {:induction false} SquaredBaseIsPower(i: nat)
    ensures Cong(Pow(125, Pow2(i)), SquaredBase(i), PROTH)
  {
    if i == 0 {
      assert Pow2(0) == 1 && Pow(125, 1) == 125 * Pow(125, 0);
    } else {
      SquaredBaseIsPower(i - 1);
      var e, v := Pow2(i - 1), SquaredBase(i - 1);
      assert Pow2(i) == e + e && SquaredBase(i) == (v * v) % PROTH;
      hide *;
      PowAdd(125, e, e);
      CongMul(Pow(125, e), v, Pow(125, e), v, PROTH);
      CongMod(v * v, PROTH);
      CongSym((v * v) % PROTH, v * v, PROTH);
      CongTrans(Pow(125, e + e), v * v, (v * v) % PROTH, PROTH);
    }
  }

  /** One squaring, carried out with quotient q. */
  lemma NextSquare(i: nat, v: nat, w: nat, q: nat)
    requires SquaredBase(i) == v && v * v == PROTH * q + w && w < PROTH
    ensures SquaredBase(i + 1) == w
  {
    DivUnique(v * v, PROTH, q, w);
  }

  lemma AllSquares()
    ensures SquaredBase(29) == 3221225472
  {
    assert SquaredBase(0) == 125;
    hide SquaredBase;
    NextSquare(0, 125, 15625, 0);
    NextSquare(1, 15625, 244140625, 0);
    NextSquare(2, 244140625, 229807484, 18503717);
    NextSquare(3, 229807484, 247425463, 16394841);
    NextSquare(4, 247425463, 1838654099, 19004990);
    NextSquare(5, 1838654099, 538601489, 1049491544);
    NextSquare(6, 538601489, 140749519, 90056274);
    NextSquare(7, 140749519, 3182672916, 6149965);
    NextSquare(8, 3182672916, 448192265, 3144581767);
    NextSquare(9, 448192265, 3009749949, 62360212);
    NextSquare(10, 3009749949, 511777184, 2812157929);
    NextSquare(11, 511777184, 1358427440, 81309392);
    NextSquare(12, 1358427440, 1800384970, 572864310);
    NextSquare(13, 1800384970, 2519378301, 1006258663);
    NextSquare(14, 2519378301, 1405588668, 1970451021);
    NextSquare(15, 1405588668, 1445148504, 613331640);
    NextSquare(16, 1445148504, 1734477367, 648341513);
    NextSquare(17, 1734477367, 211283056, 933933921);
    NextSquare(18, 211283056, 1168849724, 13858244);
    NextSquare(19, 1168849724, 1855261384, 424127304);
    NextSquare(20, 1855261384, 764652596, 1068535820);
    NextSquare(21, 764652596, 1958494276, 181512780);
    NextSquare(22, 1958494276, 1292405718, 1190757946);
    NextSquare(23, 1292405718, 651814490, 518533258);
    NextSquare(24, 651814490, 66931328, 131894564);
    NextSquare(25, 66931328, 2526611335, 1390713);
    NextSquare(26, 2526611335, 1031213943, 1981781434);
    NextSquare(27, 1031213943, 1013946479, 330123490);
    NextSquare(28, 1013946479, 3221225472, 319160353);
  }

  lemma HalfwayIsMinusOne()
    ensures Cong(Pow(125, Pow2(29)), PROTH - 1, PROTH)
  {
    SquaredBaseIsPower(29);
    AllSquares();
  }

  /** An odd power of -1. */
  lemma {:induction false} OddPowerOfMinusOne(p: nat, m: nat)
    requires p > 1 && m % 2 == 1
    ensures Cong(Pow(p - 1, m), p - 1, p)
  {
    if m == 1 {
      assert Pow(p - 1, 1) == (p - 1) * Pow(p - 1, 0);
      CongRefl(p - 1, p);
    } else {
      OddPowerOfMinusOne(p, m - 2);
      assert Pow(p - 1, m) == (p - 1) * ((p - 1) * Pow(p - 1, m - 2));
      hide Pow, Cong;
      MulAssoc(p - 1, p - 1, Pow(p - 1, m - 2));
      assert (p - 1) * (p - 1) == 1 + p * (p - 2);
      CongShift(1, p - 2, p);
      CongMul((p - 1) * (p - 1), 1, Pow(p - 1, m - 2), p - 1, p);
    }
  }

  lemma {:induction false} PowerOfOne(e: nat)
    ensures Pow(1, e) == 1
  {
    if e > 0 {
      PowerOfOne(e - 1);
    }
  }

  lemma SplitExponent(k: nat, s: nat, m: nat, below: nat)
    requires s <= k && below == Pow2(s) * m
    ensures Pow2(k) * m == below * Pow2(k - s)
  {
    hide Pow2;
    Pow2Add(k - s, s);
    MulAssoc(Pow2(k - s), Pow2(s), m);
  }

  /** An odd power of -1 is not a power of 1. */
  lemma NotBothOnes(x: nat, e: nat, m: nat, f: nat, p: nat)
    requires p > 2 && m % 2 == 1 && Cong(Pow(x, e), p - 1, p) && Cong(Pow(x, p - 1), 1, p)
    ensures e * m != (p - 1) * f
  {
    hide Pow, Cong;
    if e * m == (p - 1) * f {
      var z := Pow(x, e * m);
      PowMul(x, e, m);
      PowMul(x, p - 1, f);
      CongPow(Pow(x, e), p - 1, m, p);
      OddPowerOfMinusOne(p, m);
      CongTrans(z, Pow(p - 1, m), p - 1, p);
      CongPow(Pow(x, p - 1), 1, f, p);
      PowerOfOne(f);
      CongSym(z, p - 1, p);
      CongTrans(p - 1, z, 1, p);
      CongDifference(p - 1, 1, p);
      NotMultiple(p - 2, p);
    }
  }

  /** If x^(2^k) is -1 modulo an odd prime p, then 2^(k+1) divides p - 1. */
  lemma OrderDivides(x: nat, k: nat, p: nat)
    requires Prime(p) && p > 2 && Cong(Pow(x, Pow2(k)), p - 1, p)
    ensures Twos(p - 1) > k
  {
    hide Pow, Pow2, Twos, OddPart, Cong;
    Decomposition(p - 1);
    if Twos(p - 1) <= k {
      UnitPower(x, k, p);
      SplitExponent(k, Twos(p - 1), OddPart(p - 1), p - 1);
      NotBothOnes(x, Pow2(k), OddPart(p - 1), Pow2(k - Twos(p - 1)), p);
    }
  }

  /** Such an x is not a multiple of p, so Fermat applies to it. */
  lemma UnitPower(x: nat, k: nat, p: nat)
    requires Prime(p) && p > 2 && Cong(Pow(x, Pow2(k)), p - 1, p)
    ensures Cong(Pow(x, p - 1), 1, p)
  {
    var e, r: nat := Pow2(k), x % p;
    assert e > 0 && Pow(0, e) == 0;
    hide Pow, Pow2, Cong;
    CongMod(x, p);
    CongSym(r, x, p);
    if r == 0 {
      CongPow(0, x, e, p);
      CongTrans(0, Pow(x, e), p - 1, p);
      CongSym(0, p - 1, p);
      NotMultiple(p - 1, p);
    }
    FermatUnit(r, p);
    CongPow(x, r, p - 1, p);
    CongTrans(Pow(x, p - 1), Pow(r, p - 1), 1, p);
  }

  lemma FactorIsLarge(p: nat)
    requires Prime(p) && Divides(p, PROTH)
    ensures p > 0x4000_0000
  {
    NotTwo(p);
    HalfwayIsMinusOne();
    hide Pow, Pow2, Twos, OddPart, Cong, Divides, Prime;
    CongDown(Pow(125, Pow2(29)), PROTH - 1, PROTH, p);
    MinusOneDown(Pow(125, Pow2(29)), p);
    OrderDivides(125, 29, p);
    LargeBecauseEven(p - 1);
  }

  lemma NotTwo(p: nat)
    requires Prime(p) && Divides(p, PROTH)
    ensures p > 2
  {
    DividesIsMod(p, PROTH);
  }

  lemma LargeBecauseEven(m: nat)
    requires m > 0 && Twos(m) >= 30
    ensures m >= 0x4000_0000
  {
    hide Pow2, Twos, OddPart;
    Decomposition(m);
    Pow2Mono(30, Twos(m));
    MulMono(Pow2(Twos(m)), 1, OddPart(m));
    Pow2Thirty();
  }

  lemma MinusOneDown(y: nat, p: nat)
    requires Cong(y, PROTH - 1, p) && Divides(p, PROTH) && p > 1
    ensures Cong(y, p - 1, p)
  {
    var l: int :| PROTH == p * l;
    hide Cong;
    MulDist(p, l, 1);
    CongShift(p - 1, l - 1, p);
    CongTrans(y, PROTH - 1, p - 1, p);
  }

  lemma Pow2Thirty()
    ensures Pow2(30) == 0x4000_0000
  {
    MaskTables(30);
  }

  /** A proper factor this large could only be half of an odd number. */
  lemma NoSecondFactor(p: nat)
    requires p > 0x4000_0000 && Divides(p, PROTH)
    ensures p == PROTH
  {
    var k: int :| PROTH == p * k;
    if k <= 0 {
      MulMono(p, k, 0);
    } else if k >= 3 {
      MulMono(p, 3, k);
    }
  }

  lemma ProthIsPrime()
    ensures Prime(PROTH)
  {
    var p := PrimeFactor(PROTH);
    FactorIsLarge(p);
    NoSecondFactor(p);
  }
}
