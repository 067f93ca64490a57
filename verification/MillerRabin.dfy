/** The Miller-Rabin test against the textbook notion of a strong probable prime. */
module MillerRabin {
  import opened AddSub
  import opened Arith
  import opened Arrays
  import opened Bits
  import opened Divide
  import opened ModPow
  import opened Montgomery
  import opened Multiply
  import opened NumberTheory
  import opened Primes
  import opened WordMath
  import opened Words

  /** a, raised to u and then squared i times. */
  function Squared(a: nat, n: nat, i: nat): nat
    requires n > 1
  {
    Pow(a, Pow2(i) * OddPart(n - 1)) % n
  }

  /** a^u = 1, or one of the first t squarings is -1: what every base does modulo an odd prime. */
  ghost predicate StrongProbablePrime(a: nat, n: nat)
    requires n > 1
  {
    Squared(a, n, 0) == 1 || exists i: nat :: i < Twos(n - 1) && Squared(a, n, i) == n - 1
  }

  lemma SquaringStep(a: nat, n: nat, i: nat)
    requires n > 1
    ensures Squared(a, n, i + 1) == (Squared(a, n, i) * Squared(a, n, i)) % n
    ensures 0 <= Squared(a, n, i) < n
  {
    var e := Pow2(i) * OddPart(n - 1);
    MulAssoc(2, Pow2(i), OddPart(n - 1));
    assert Pow2(i + 1) * OddPart(n - 1) == e + e;
    hide Pow, Pow2, OddPart;
    SquareResidue(a, e, n);
  }

  lemma SquareResidue(a: nat, e: nat, n: nat)
    requires n > 1
    ensures Pow(a, e + e) % n == ((Pow(a, e) % n) * (Pow(a, e) % n)) % n
  {
    hide Pow;
    var x: nat := Pow(a, e) % n;
    CongMod(Pow(a, e), n);
    PowerStep(x, x, a, e, e, n);
    ResidueOf((x * x) % n, Pow(a, e + e), n);
  }

  lemma ResidueOf(x: nat, y: int, n: nat)
    requires x < n && Cong(x, y, n)
    ensures x == y % n
  {
    CongMod(x, n);
  }

  lemma SquareOfOne(x: nat, n: nat)
    requires n > 1 && (x == 1 || x == n - 1)
    ensures (x * x) % n == 1
  {
    if x == 1 {
      CongMod(1, n);
    } else {
      assert x * x == n * (n - 2) + 1;
      DivUnique(x * x, n, n - 2, 1);
    }
  }

  /** Once 1 or -1 has come up, all later squarings are 1. */
  lemma {:induction false} OnesAfter(a: nat, n: nat, i: nat, j: nat)
    requires n > 1 && i < j && (Squared(a, n, i) == 1 || Squared(a, n, i) == n - 1)
    ensures Squared(a, n, j) == 1
  {
    hide Squared;
    if i < j - 1 {
      OnesAfter(a, n, i, j - 1);
    }
    SquaringStep(a, n, j - 1);
    SquareOfOne(Squared(a, n, j - 1), n);
  }

  /** A 1 whose square root before it is neither 1 nor -1 gives n away. */
  ghost predicate NontrivialRoot(a: nat, n: nat, i: nat)
    requires n > 1
  {
    Squared(a, n, i + 1) == 1 && Squared(a, n, i) != 1 && Squared(a, n, i) != n - 1
  }

  lemma RootRefutes(a: nat, n: nat, i: nat)
    requires n > 1 && i < Twos(n - 1) && NontrivialRoot(a, n, i)
    ensures !StrongProbablePrime(a, n)
  {
    hide Squared;
    assert n > 2;
    if Squared(a, n, 0) == 1 && i > 0 {
      OnesAfter(a, n, 0, i);
    }
    if j: nat :| j < Twos(n - 1) && Squared(a, n, j) == n - 1 {
      if j < i {
        OnesAfter(a, n, j, i);
      } else if j > i + 1 {
        OnesAfter(a, n, i + 1, j);
      }
    }
  }

  lemma LastNotOneRefutes(a: nat, n: nat)
    requires n > 1 && Squared(a, n, Twos(n - 1)) != 1
    ensures !StrongProbablePrime(a, n)
  {
    hide Squared;
    var t := Twos(n - 1);
    if Squared(a, n, 0) == 1 && t > 0 {
      OnesAfter(a, n, 0, t);
    }
    if j: nat :| j < t && Squared(a, n, j) == n - 1 {
      OnesAfter(a, n, j, t);
    }
  }

  lemma {:induction false} NoRootNoWitness(a: nat, n: nat, k: nat)
    requires n > 1 && k <= Twos(n - 1) && Squared(a, n, k) == 1
    requires forall i: nat :: i < k ==> !NontrivialRoot(a, n, i)
    ensures StrongProbablePrime(a, n)
  {
    hide Squared;
    if k > 0 {
      assert !NontrivialRoot(a, n, k - 1);
      if Squared(a, n, k - 1) == 1 {
        NoRootNoWitness(a, n, k - 1);
      }
    }
  }

  /** Every base below an odd prime passes. */
  lemma PrimesPass(a: nat, n: nat)
    requires Prime(n) && 0 < a < n
    ensures StrongProbablePrime(a, n)
  {
    var t := Twos(n - 1);
    Decomposition(n - 1);
    FermatUnit(a, n);
    CongMod(1, n);
    assert Squared(a, n, t) == 1;
    forall i: nat | i < t
      ensures !NontrivialRoot(a, n, i)
    {
      SquaringStep(a, n, i);
      if Squared(a, n, i + 1) == 1 {
        var x := Squared(a, n, i);
        CongMod(x * x, n);
        RootsOfOne(x, n);
      }
    }
    NoRootNoWitness(a, n, t);
  }

  // ---------- the same in powers alone ----------

  /** Every way to write n - 1 as e * 2^j with j > 0 is one of the t squarings. */
  lemma WhichSquaring(n: nat, e: nat, j: nat) returns (i: nat)
    requires n > 1 && j > 0 && e * Pow2(j) == n - 1
    ensures i < Twos(n - 1) && e == Pow2(i) * OddPart(n - 1) && 2 * e == Pow2(i + 1) * OddPart(n - 1)
  {
    assert e > 0;
    Decomposition(e);
    i := Twos(e);
    var o := OddPart(e);
    Pow2Add(i, j);
    assert e * Pow2(j) == Pow2(i + j) * o by {
      ThreeFactors(Pow2(i), o, Pow2(j));
    }
    DecompositionUnique(n - 1, i + j, o);
    assert Pow2(i + 1) == 2 * Pow2(i);
    MulAssoc(2, Pow2(i), o);
  }

  lemma ThreeFactors(p: int, o: int, q: int)
    ensures (p * o) * q == (p * q) * o
  {
    MulAssoc(p, o, q);
    MulAssoc(p, q, o);
  }

  lemma SquaringExponent(n: nat, i: nat) returns (e: nat, j: nat)
    requires n > 1 && i < Twos(n - 1)
    ensures j > 0 && e * Pow2(j) == n - 1
    ensures e == Pow2(i) * OddPart(n - 1) && 2 * e == Pow2(i + 1) * OddPart(n - 1)
  {
    var t, o := Twos(n - 1), OddPart(n - 1);
    e, j := Pow2(i) * o, t - i;
    Decomposition(n - 1);
    Pow2Add(i, t - i);
    ThreeFactors(Pow2(i), o, Pow2(t - i));
    MulAssoc(2, Pow2(i), o);
  }

  lemma SquaredAt(b: nat, n: nat, i: nat, e: nat)
    requires n > 1 && e == Pow2(i) * OddPart(n - 1) && 2 * e == Pow2(i + 1) * OddPart(n - 1)
    ensures Squared(b, n, i) == Pow(b, e) % n && Squared(b, n, i + 1) == Pow(b, 2 * e) % n
  {
    hide Pow, Pow2, OddPart;
  }

  /**
   The test spelled out: b^(n-1) is 1, and wherever the exponent n - 1 can be halved to 2e and the power
   to 2e is 1, the power to e is 1 or -1.
   */
  ghost predicate RootsAreTrivial(b: nat, n: nat)
    requires n > 1
  {
    && Pow(b, n - 1) % n == 1
    && forall e: nat, j: nat :: j > 0 && e * Pow2(j) == n - 1 && Pow(b, 2 * e) % n == 1 ==>
         Pow(b, e) % n == 1 || Pow(b, e) % n == n - 1
  }

  lemma LastSquaring(b: nat, n: nat)
    requires n > 1
    ensures Squared(b, n, Twos(n - 1)) == Pow(b, n - 1) % n
  {
    Decomposition(n - 1);
  }

  lemma StrongHasTrivialRoots(b: nat, n: nat)
    requires n > 1 && StrongProbablePrime(b, n)
    ensures RootsAreTrivial(b, n)
  {
    hide StrongProbablePrime, Pow, Pow2, Twos, OddPart;
    LastSquaring(b, n);
    if Squared(b, n, Twos(n - 1)) != 1 {
      LastNotOneRefutes(b, n);
    }
    forall e: nat, j: nat | j > 0 && e * Pow2(j) == n - 1 && Pow(b, 2 * e) % n == 1
      ensures Pow(b, e) % n == 1 || Pow(b, e) % n == n - 1
    {
      var i := WhichSquaring(n, e, j);
      if NontrivialRoot(b, n, i) {
        RootRefutes(b, n, i);
      }
    }
  }

  lemma TrivialRootAt(b: nat, n: nat, i: nat)
    requires n > 1 && RootsAreTrivial(b, n) && i < Twos(n - 1)
    ensures !NontrivialRoot(b, n, i)
  {
    hide Pow, Pow2, Twos, OddPart, Squared;
    var e, j := SquaringExponent(n, i);
    SquaredAt(b, n, i, e);
  }

  lemma StrongInPowers(b: nat, n: nat)
    requires n > 1
    ensures StrongProbablePrime(b, n) <==> RootsAreTrivial(b, n)
  {
    hide StrongProbablePrime, Pow, Pow2, Twos, OddPart, NontrivialRoot, Squared;
    if StrongProbablePrime(b, n) {
      StrongHasTrivialRoots(b, n);
    }
    if RootsAreTrivial(b, n) {
      LastSquaring(b, n);
      forall i: nat | i < Twos(n - 1)
        ensures !NontrivialRoot(b, n, i)
      {
        TrivialRootAt(b, n, i);
      }
      NoRootNoWitness(b, n, Twos(n - 1));
    }
  }

  // ---------- counting the twos of n - 1 ----------

  /** The k low bits of x are zero. */
  ghost predicate LowZeros(x: nat, k: nat) {
    x % Pow2(k) == 0
  }

  lemma HalfLowZeros(x: nat, k: nat)
    ensures LowZeros(x, 0)
    ensures LowZeros(x, k + 1) <==> x % 2 == 0 && LowZeros(x / 2, k)
    ensures LowZeros(0, k)
  {
    HalfMod(x, k + 1);
    DivUnique(0, Pow2(k), 0, 0);
  }

  lemma {:induction false} BitTest(x: nat, j: nat)
    requires LowZeros(x, j)
    ensures And(x, Pow2(j)) == 0 <==> LowZeros(x, j + 1)
  {
    hide LowZeros;
    HalfLowZeros(x, j);
    HalfLowZeros(0, j + 1);
    if j == 0 {
      HalfLowZeros(x / 2, 0);
      AndLow(x, 1);
      Pow2One();
    } else if x > 0 {
      HalfLowZeros(x, j - 1);
      Pow2Next(j - 1);
      AndStep(x, Pow2(j));
      BitTest(x / 2, j - 1);
    }
  }

  lemma FoundBit(x: nat, j: nat)
    requires LowZeros(x, j) && !LowZeros(x, j + 1)
    ensures x == Pow2(j) * (x / Pow2(j)) && (x / Pow2(j)) % 2 == 1
  {
    var p, y := Pow2(j), x / Pow2(j);
    if y % 2 == 0 {
      MulAssoc(p, 2, y / 2);
      DivUnique(x, 2 * p, y / 2, 0);
    }
  }

  /** The lowest nonzero word and the lowest set bit in it give the power of two in the whole number. */
  lemma LowestBit(s: seq<u32>, index: nat, j: nat)
    requires index < |s| && j < 32 && forall k :: 0 <= k < index ==> s[k] == 0
    requires LowZeros(s[index], j) && !LowZeros(s[index], j + 1)
    ensures Val(s) > 0 && Twos(Val(s)) == 32 * index + j
  {
    hide Val, Weight, Twos, OddPart, Pow2;
    var y, rest, q := s[index] / Pow2(j), Val(s[index + 1..]), Pow2(31 - j);
    FoundBit(s[index], j);
    WordOut(s, index);
    ZerosVal(s[..index]);
    SplitShift(index, j);
    Pow2Word();
    Pow2Add(j, 32 - j);
    Pow2Next(31 - j);
    var w := LowestBitArith(Val(s), Weight(index), Pow2(j), s[index], y, q, rest);
    DecompositionUnique(Val(s), 32 * index + j, w);
  }

  lemma LowestBitArith(all: nat, weight: nat, p: nat, x: nat, y: nat, q: nat, rest: nat) returns (w: nat)
    requires p * (2 * q) == 0x1_0000_0000 && x == p * y && y % 2 == 1 && weight > 0 && p > 0
    requires all == weight * (x + 0x1_0000_0000 * rest)
    ensures w % 2 == 1 && all == (weight * p) * w && all > 0
  {
    w := y + 2 * (q * rest);
    MulAssoc(p, 2 * q, rest);
    MulAssoc(2, q, rest);
    MulDist(p, y, 2 * (q * rest));
    MulAssoc(weight, p, w);
    PositiveProduct(weight, p);
    PositiveProduct(weight * p, w);
  }

  /** The mask runs up through the bits of one word, and wraps to the next. */
  method TrailingZeros(u: Word32s) returns (t: nat)
    requires Canonical(u.elems) && u.elems != []
    ensures Val(u.elems) > 0 && t == Twos(Val(u.elems))
  {
    hide Val, Weight, Twos, And, Pow2, LowZeros;
    t := 0;
    var mask: u32 := 1;
    var index := 0;
    ghost var j := 0;
    Pow2Zero();
    HalfLowZeros(u.elems[0], 0);
    while And(u.elems[index], mask) == 0
      invariant 0 <= index < |u.elems| && 0 <= j < 32
      invariant mask == Pow2(j) && t == 32 * index + j
      invariant forall k :: 0 <= k < index ==> u.elems[k] == 0
      invariant LowZeros(u.elems[index], j)
      decreases |u.elems| - index, 32 - j
    {
      BitTest(u.elems[index], j);
      NextMask(mask, j);
      t := t + 1;
      mask := Shl(mask, 1);
      j := j + 1;
      if mask == 0 {
        WordOfZeros(u.elems[index]);
        mask := 1;
        index := index + 1;
        j := 0;
        HalfLowZeros(u.elems[index], 0);
      }
    }
    BitTest(u.elems[index], j);
    LowestBit(u.elems, index, j);
  }

  lemma WordOfZeros(x: u32)
    ensures LowZeros(x, 32) ==> x == 0
  {
    Pow2Word();
  }

  lemma NextMask(mask: u32, j: nat)
    requires mask == Pow2(j) && j < 32
    ensures Shl(mask, 1) == if j == 31 then 0 else Pow2(j + 1)
    ensures j < 31 ==> Pow2(j + 1) > 0
  {
    Pow2Word();
    Pow2One();
    Pow2Mono(j + 1, 32);
  }

  // ---------- the test ----------

  /** True exactly when a, with or without zero words on top, shows that n is not a strong probable prime. */
  method Witness(a: Word32s, n: Word32s) returns (found: bool)
    requires Canonical(n.elems) && Val(n.elems) > 1
    ensures found <==> !StrongProbablePrime(Val(a.elems), Val(n.elems))
  {
    hide Val, Canonical, Squared, StrongProbablePrime, NontrivialRoot, PowMod;
    var one := new TArray<u32>.Filled(1, 1);
    assert one.elems == [1];
    One();
    var nmo := new TArray<u32>.Copy(n);
    var st := Subtract(nmo, one);
    assert st == Ok;
    var u := new TArray<u32>.Copy(nmo);
    CanonicalRange(u.elems);
    var t := TrailingZeros(u);
    ghost var va, vn := Val(a.elems), Val(n.elems);
    ShiftRight(u, t);
    Decomposed(vn - 1, t);
    var xCurr := new TArray<u32>();
    st := ModPowArrays(a, u, n, xCurr);
    assert st == Ok;
    FirstSquaring(va, vn);
    found := SquareUp(xCurr, n, nmo, one, t, va);
  }

  lemma Decomposed(m: nat, t: nat)
    requires m > 0 && t == Twos(m)
    ensures m / Pow2(t) == OddPart(m) > 0
  {
    Decomposition(m);
    DivUnique(m, Pow2(t), OddPart(m), 0);
  }

  lemma FirstSquaring(a: nat, n: nat)
    requires n > 1
    ensures OddPart(n - 1) > 0 && PowMod(a, OddPart(n - 1), n) == Squared(a, n, 0)
  {
    Decomposition(n - 1);
    Pow2Zero();
  }

  /** One squaring, and whether it produced 1 from something other than 1 and -1. */
  method SquareOnce(xPrev: Word32s, xCurr: Word32s, n: Word32s, nmo: Word32s, one: Word32s,
                    aux1: Word32s, aux2: Word32s, aux3: Word32s) returns (root: bool)
    requires Canonical(xCurr.elems) && Canonical(n.elems) && Canonical(nmo.elems) && Canonical(one.elems)
    requires {n, nmo, one} !! {xPrev, xCurr, aux1, aux2, aux3}
    requires xPrev != xCurr && {xPrev, xCurr} !! {aux1, aux2, aux3}
    requires aux1 != aux2 && aux1 != aux3 && aux2 != aux3 && Val(n.elems) > 0
    modifies xPrev, xCurr, aux1, aux2, aux3
    ensures Canonical(xCurr.elems)
    ensures Val(xCurr.elems) == (Val(old(xCurr.elems)) * Val(old(xCurr.elems))) % Val(n.elems)
    ensures root <==> Val(xCurr.elems) == Val(one.elems) && Val(old(xCurr.elems)) != Val(one.elems)
                      && Val(old(xCurr.elems)) != Val(nmo.elems)
  {
    hide Val, Canonical;
    xPrev.Assign(xCurr);
    MultiplyArrays(xPrev, xPrev, aux1, aux2);
    var st := DivideArrays(aux1, n, aux2, xCurr, aux3);
    assert st == Ok;
    var currIsOne := IsEqual(xCurr, one);
    var prevIsOne := IsEqual(xPrev, one);
    var prevIsNmo := IsEqual(xPrev, nmo);
    return currIsOne && !prevIsOne && !prevIsNmo;
  }

  /** t squarings, each checked for a square root of one it should not have. */
  method SquareUp(xCurr: Word32s, n: Word32s, nmo: Word32s, one: Word32s, t: nat, ghost a: nat)
      returns (found: bool)
    requires Canonical(xCurr.elems) && Canonical(n.elems) && Canonical(nmo.elems) && Canonical(one.elems)
    requires xCurr !in {n, nmo, one}
    requires Val(n.elems) > 1 && Val(nmo.elems) == Val(n.elems) - 1 && Val(one.elems) == 1
    requires t == Twos(Val(n.elems) - 1) && Val(xCurr.elems) == Squared(a, Val(n.elems), 0)
    modifies xCurr
    ensures found <==> !StrongProbablePrime(a, Val(n.elems))
  {
    hide Val, Canonical, Squared, StrongProbablePrime;
    ghost var vn := Val(n.elems);
    var xPrev := new TArray<u32>();
    var aux1 := new TArray<u32>();
    var aux2 := new TArray<u32>();
    var aux3 := new TArray<u32>();
    for i := 0 to t
      invariant Canonical(xCurr.elems) && Val(xCurr.elems) == Squared(a, vn, i)
      invariant forall k: nat :: k < i ==> !NontrivialRoot(a, vn, k)
    {
      SquaringStep(a, vn, i);
      var root := SquareOnce(xPrev, xCurr, n, nmo, one, aux1, aux2, aux3);
      if root {
        RootRefutes(a, vn, i);
        return true;
      }
    }
    var isOne := IsEqual(xCurr, one);
    if !isOne {
      LastNotOneRefutes(a, vn);
      return true;
    }
    NoRootNoWitness(a, vn, t);
    return false;
  }
}
