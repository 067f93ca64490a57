/** Greatest common divisor and Bezout coefficients. */
module Euclid {
  import opened Arith
  import opened Arrays
  import opened BigIntegers
  import opened Divide
  import opened NumberTheory
  import opened WordMath
  import opened Words

  /** a and b are taken by value, so result may be one of them. */
  method GcdArrays(a0: Word32s, b0: Word32s, result: Word32s)
    requires Canonical(a0.elems) && Canonical(b0.elems)
    modifies result
    ensures Canonical(result.elems)
    ensures Val(result.elems) == Gcd(Val(old(a0.elems)), Val(old(b0.elems)))
  {
    hide Val, Canonical;
    var a := new TArray<u32>.Copy(a0);
    var b := new TArray<u32>.Copy(b0);
    var aQuo := new TArray<u32>();
    var aRem := new TArray<u32>();
    var aux1 := new TArray<u32>();
    CanonicalRange(b.elems);
    while |b.elems| > 0
      invariant Canonical(a.elems) && Canonical(b.elems) && (b.elems == [] <==> Val(b.elems) == 0)
      invariant Gcd(Val(a.elems), Val(b.elems)) == Gcd(Val(old(a0.elems)), Val(old(b0.elems)))
      decreases Val(b.elems)
    {
      var st := DivideArrays(a, b, aQuo, aRem, aux1);
      assert st == Ok;
      a.Assign(b);
      b.Assign(aRem);
      CanonicalRange(b.elems);
    }
    result.Assign(a);
  }

  method GCD(a: BigInteger, b: BigInteger) returns (st: Outcome, result: BigInteger)
    requires a.Valid() && b.Valid()
    ensures st == if a.Value() < 0 || b.Value() < 0 then InvalidArgument else Ok
    ensures st == Ok ==> result.Valid() && result.Value() == Gcd(a.Value(), b.Value())
  {
    hide Val, Canonical, Gcd;
    a.SignIsSign();
    b.SignIsSign();
    result := new BigInteger(0);
    if a.IsNegative() || b.IsNegative() {
      return InvalidArgument, result;
    }
    GcdArrays(a.words, b.words, result.words);
    return Ok, result;
  }

  /** One step of the extended algorithm on one coefficient: x, lastX := lastX - q * x, x. */
  method Advance(x: BigInteger, lastX: BigInteger, q: BigInteger)
    requires x.Valid() && lastX.Valid() && q.Valid()
    requires x != lastX && q !in {x, lastX} && x.words != lastX.words && q.words !in {x.words, lastX.words}
    modifies x, x.words, lastX, lastX.words
    ensures x.Valid() && lastX.Valid()
    ensures x.Value() == old(lastX.Value()) - q.Value() * old(x.Value()) && lastX.Value() == old(x.Value())
  {
    hide Val, Canonical;
    var temp := new BigInteger.Copy(x);
    var t := q.Times(x);
    var u := lastX.Minus(t);
    x.Assign(u);
    lastX.Assign(temp);
  }

  lemma BezoutStep(a: int, b: int, x: int, y: int, lastX: int, lastY: int, aa: int, bb: int, q: int)
    requires a * lastX + b * lastY == aa && a * x + b * y == bb
    ensures a * (lastX - q * x) + b * (lastY - q * y) == aa - q * bb
  {
    MulDist(a, lastX, q * x);
    MulDist(b, lastY, q * y);
    MulAssoc(a, q, x);
    MulAssoc(b, q, y);
    MulAssoc(q, a, x);
    MulAssoc(q, b, y);
    MulDist(q, a * x, b * y);
  }

  lemma NonNegativeDivision(a: int, b: int)
    requires a >= 0 && b > 0
    ensures TruncDiv(a, b) == a / b && TruncMod(a, b) == a % b == a - (a / b) * b
  {
  }

  ghost predicate Bezout(a: int, b: int, x: int, y: int, lastX: int, lastY: int, aa: int, bb: int) {
    && a * lastX + b * lastY == aa && a * x + b * y == bb
    && a >= 0 && b >= 0 && aa >= 0 && bb >= 0 && Gcd(aa, bb) == Gcd(a, b)
  }

  lemma BezoutAdvances(a: int, b: int, x: int, y: int, lastX: int, lastY: int, aa: int, bb: int)
    requires Bezout(a, b, x, y, lastX, lastY, aa, bb) && bb > 0
    ensures aa >= 0 && aa % bb < bb
    ensures Bezout(a, b, lastX - (aa / bb) * x, lastY - (aa / bb) * y, x, y, bb, aa % bb)
  {
    BezoutStep(a, b, x, y, lastX, lastY, aa, bb, aa / bb);
  }

  lemma BezoutStarts(a: int, b: int)
    requires a >= 0 && b >= 0
    ensures Bezout(a, b, 0, 1, 1, 0, a, b)
  {
  }

  lemma BezoutSigns(a: int, b: int, x: int, y: int, lastX: int, lastY: int, aa: int, bb: int)
    requires Bezout(a, b, x, y, lastX, lastY, aa, bb)
    ensures aa >= 0 && bb >= 0
  {
  }

  lemma BezoutEnds(a: int, b: int, x: int, y: int, lastX: int, lastY: int, aa: int)
    requires Bezout(a, b, x, y, lastX, lastY, aa, 0)
    ensures a * lastX + b * lastY == Gcd(a, b)
  {
  }

  /** Six different numbers in six different arrays. */
  ghost predicate AllApart(x: BigInteger, y: BigInteger, lastX: BigInteger, lastY: BigInteger,
                           aa: BigInteger, bb: BigInteger) {
    && x !in {y, lastX, lastY, aa, bb} && y !in {lastX, lastY, aa, bb}
    && lastX !in {lastY, aa, bb} && lastY !in {aa, bb} && aa != bb
    && x.words !in {y.words, lastX.words, lastY.words, aa.words, bb.words}
    && y.words !in {lastX.words, lastY.words, aa.words, bb.words}
    && lastX.words !in {lastY.words, aa.words, bb.words}
    && lastY.words !in {aa.words, bb.words} && aa.words != bb.words
  }

  /** Divides aa by bb and moves both on: aa, bb := bb, aa mod bb. */
  method Remainders(aa: BigInteger, bb: BigInteger) returns (aQuo: BigInteger)
    requires aa.Valid() && bb.Valid() && aa.Value() >= 0 && bb.Value() > 0
    requires aa != bb && aa.words != bb.words
    modifies aa, aa.words, bb, bb.words
    ensures fresh(aQuo) && fresh(aQuo.words) && aa.Valid() && bb.Valid() && aQuo.Valid()
    ensures aa.Value() == old(bb.Value()) && bb.Value() == old(aa.Value()) % old(bb.Value())
    ensures aQuo.Value() == old(aa.Value()) / old(bb.Value())
  {
    hide Val, Canonical;
    NonNegativeDivision(aa.Value(), bb.Value());
    hide TruncDiv, TruncMod;
    aQuo := new BigInteger(0);
    var aRem := new BigInteger(0);
    var st := aa.Div(bb, aQuo, aRem);
    assert st == Ok;
    aa.Assign(bb);
    bb.Assign(aRem);
  }

  /** The body of the loop: divide, move the remainders on, update both coefficient pairs. */
  method EuclidStep(x: BigInteger, y: BigInteger, lastX: BigInteger, lastY: BigInteger,
                    aa: BigInteger, bb: BigInteger, ghost a: int, ghost b: int)
    requires AllApart(x, y, lastX, lastY, aa, bb)
    requires x.Valid() && y.Valid() && lastX.Valid() && lastY.Valid() && aa.Valid() && bb.Valid()
    requires Bezout(a, b, x.Value(), y.Value(), lastX.Value(), lastY.Value(), aa.Value(), bb.Value())
    requires bb.Value() > 0
    modifies x, x.words, y, y.words, lastX, lastX.words, lastY, lastY.words, aa, aa.words, bb, bb.words
    ensures x.Valid() && y.Valid() && lastX.Valid() && lastY.Valid() && aa.Valid() && bb.Valid()
    ensures Bezout(a, b, x.Value(), y.Value(), lastX.Value(), lastY.Value(), aa.Value(), bb.Value())
    ensures 0 <= bb.Value() < old(bb.Value())
  {
    hide Val, Canonical, Gcd, Bezout;
    BezoutAdvances(a, b, x.Value(), y.Value(), lastX.Value(), lastY.Value(), aa.Value(), bb.Value());
    var aQuo := Remainders(aa, bb);
    Advance(x, lastX, aQuo);
    Advance(y, lastY, aQuo);
  }

  method EuclidLoop(x: BigInteger, y: BigInteger, lastX: BigInteger, lastY: BigInteger,
                    aa: BigInteger, bb: BigInteger, ghost a: int, ghost b: int)
    requires AllApart(x, y, lastX, lastY, aa, bb)
    requires x.Valid() && y.Valid() && lastX.Valid() && lastY.Valid() && aa.Valid() && bb.Valid()
    requires Bezout(a, b, x.Value(), y.Value(), lastX.Value(), lastY.Value(), aa.Value(), bb.Value())
    modifies x, x.words, y, y.words, lastX, lastX.words, lastY, lastY.words, aa, aa.words, bb, bb.words
    ensures x.Valid() && y.Valid()
    ensures a * x.Value() + b * y.Value() == Gcd(a, b)
  {
    hide Val, Canonical, Gcd, Bezout;
    bb.SignIsSign();
    while !bb.IsZero()
      invariant x.Valid() && y.Valid() && lastX.Valid() && lastY.Valid() && aa.Valid() && bb.Valid()
      invariant Bezout(a, b, x.Value(), y.Value(), lastX.Value(), lastY.Value(), aa.Value(), bb.Value())
      invariant bb.IsZero() <==> bb.Value() == 0
      decreases Abs(bb.Value())
    {
      BezoutSigns(a, b, x.Value(), y.Value(), lastX.Value(), lastY.Value(), aa.Value(), bb.Value());
      EuclidStep(x, y, lastX, lastY, aa, bb, a, b);
      bb.SignIsSign();
    }
    BezoutEnds(a, b, x.Value(), y.Value(), lastX.Value(), lastY.Value(), aa.Value());
    Outputs(x, y, lastX, lastY);
  }

  /** The last two lines: x = lastX; y = lastY. */
  method Outputs(x: BigInteger, y: BigInteger, lastX: BigInteger, lastY: BigInteger)
    requires x.Apart(lastX) && y.Apart(lastY) && x != y && x != lastY && x.words !in {y.words, lastY.words}
    requires lastX.Valid() && lastY.Valid() && x != lastX && y != lastX && y.words != lastX.words
    modifies x, x.words, y, y.words
    ensures x.Valid() && y.Valid() && x.Value() == old(lastX.Value()) && y.Value() == old(lastY.Value())
  {
    hide Val, Canonical;
    x.Assign(lastX);
    y.Assign(lastY);
  }

  /** What extendedGCD reads as an input after it has written 0 to x and 1 to y. */
  ghost function Overwritten(a: BigInteger, x: BigInteger, y: BigInteger): int
    reads a, a.words
  {
    if a == y then 1 else if a == x then 0 else a.Value()
  }

  method Coefficients(a: BigInteger, b: BigInteger, x: BigInteger, y: BigInteger, ghost va: int, ghost vb: int)
    requires a.Valid() && b.Valid() && x != y && x.words != y.words
    requires a.Apart(x) && a.Apart(y) && b.Apart(x) && b.Apart(y)
    requires va == Overwritten(a, x, y) >= 0 && vb == Overwritten(b, x, y) >= 0
    modifies x, x.words, y, y.words
    ensures x.Valid() && y.Valid()
    ensures va * x.Value() + vb * y.Value() == Gcd(va, vb)
  {
    hide Val, Canonical, Gcd, Bezout;
    var zero := new BigInteger(0);
    var one := new BigInteger(1);
    x.Assign(zero);
    y.Assign(one);
    var lastX := new BigInteger(1);
    var lastY := new BigInteger(0);
    var aa := new BigInteger.Copy(a);
    var bb := new BigInteger.Copy(b);
    assert AllApart(x, y, lastX, lastY, aa, bb);
    BezoutStarts(va, vb);
    EuclidLoop(x, y, lastX, lastY, aa, bb, va, vb);
  }

  /** a*x + b*y = gcd(a, b), but for the values the inputs have once the outputs have been written. */
  method ExtendedGCD(a: BigInteger, b: BigInteger, x: BigInteger, y: BigInteger) returns (st: Outcome)
    requires a.Valid() && b.Valid() && x != y && x.words != y.words
    requires a.Apart(x) && a.Apart(y) && b.Apart(x) && b.Apart(y)
    modifies x, x.words, y, y.words
    ensures st == if old(a.Value()) < 0 || old(b.Value()) < 0 then InvalidArgument else Ok
    ensures st == Ok ==> x.Valid() && y.Valid()
    ensures st == Ok ==> var va, vb := old(Overwritten(a, x, y)), old(Overwritten(b, x, y));
      va >= 0 && vb >= 0 && va * x.Value() + vb * y.Value() == Gcd(va, vb)
  {
    hide Val, Canonical, Gcd, Bezout;
    a.SignIsSign();
    b.SignIsSign();
    if a.IsNegative() || b.IsNegative() {
      return InvalidArgument;
    }
    Coefficients(a, b, x, y, Overwritten(a, x, y), Overwritten(b, x, y));
    return Ok;
  }
}
