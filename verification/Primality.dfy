/** isPrime: how the bases are drawn, what it answers, and what the answers mean. */
module Primality {
  import opened Arith
  import opened Arrays
  import opened BigIntegers
  import opened Bits
  import opened MillerRabin
  import opened ModPow
  import opened Montgomery
  import opened NumberTheory
  import opened Primes
  import opened ProthPrime
  import opened WordMath
  import opened Words

  // ---------- drawing a base ----------

  /** A number of numBits random bits from the random words given; whole words are not cleaned up. */
  method RandNumWithBits(numBits: nat, words: seq<u32>, number: Word32s)
    requires |words| == numBits / 32 + if numBits % 32 > 0 then 1 else 0
    modifies number
    ensures Val(number.elems) == Val(words) % Pow2(numBits)
    ensures if numBits % 32 == 0 then number.elems == words else Canonical(number.elems)
  {
    hide Val, Pow2, Canonical;
    var numWords := numBits / 32;
    if numBits % 32 > 0 {
      numWords := numWords + 1;
    }
    number.SetSize(numWords);
    if numWords == 0 {
      NoWords(words);
      return;
    }
    number.elems := words;
    KeepOnly(number, numBits);
  }

  lemma NoWords(words: seq<u32>)
    requires words == []
    ensures Val(words) == 0 == 0 % Pow2(0)
  {
  }

  /** The values an accepted draw can have: below n, and zero only if n fills its words to the last bit. */
  ghost predicate Drawable(n: seq<u32>, v: nat) {
    v < Val(n) && (v == 0 ==> BitSize(n) % 32 == 0)
  }

  /** One attempt at a base: draw again unless the number is below n and its array is not empty. */
  method Attempt(n: Word32s, words: seq<u32>, a: Word32s) returns (accepted: bool)
    requires Canonical(n.elems) && n.elems != [] && |words| == |n.elems| && a != n
    modifies a
    ensures accepted <==> a.elems != [] && Val(a.elems) < Val(n.elems)
    ensures Val(a.elems) == Val(words) % Pow2(BitSize(n.elems))
    ensures accepted ==> Drawable(n.elems, Val(a.elems))
    ensures accepted && Val(a.elems) == 0 <==> BitSize(n.elems) % 32 == 0 && Val(words) == 0
  {
    hide Val, Pow2, Canonical, BitSize;
    var numBits := NumBits(n);
    WordCount(n.elems);
    RandNumWithBits(numBits, words, a);
    CanonicalRange(n.elems);
    if Canonical(a.elems) {
      CanonicalRange(a.elems);
    }
    if numBits % 32 == 0 {
      SameBits(words, numBits);
    }
    var less := IsLess(a, n);
    return less && |a.elems| != 0;
  }

  lemma WordCount(s: seq<u32>)
    requires Canonical(s) && s != []
    ensures |s| == BitSize(s) / 32 + if BitSize(s) % 32 > 0 then 1 else 0
  {
    BitSizeBounds(s);
    assert BitSize(s) > 32 * (|s| - 1);
  }

  lemma SameBits(words: seq<u32>, numBits: nat)
    requires numBits == 32 * |words|
    ensures Val(words) % Pow2(numBits) == Val(words)
  {
    AlreadySmall(words, numBits);
  }

  // ---------- the answer ----------

  /** What isPrime answers on n for given random bases. */
  ghost predicate Verdict(n: int, bases: seq<seq<u32>>) {
    n > 1 && n % 2 == 1 && forall k :: 0 <= k < |bases| ==> StrongProbablePrime(Val(bases[k]), n)
  }

  /** The bases stand for the draws that were accepted. */
  ghost predicate Drawn(n: int, bases: seq<seq<u32>>) {
    forall k :: 0 <= k < |bases| ==> bases[k] != [] && Val(bases[k]) < n
  }

  /** What accepting an odd n means, in powers of the bases alone. */
  lemma VerdictInPowers(n: nat, bases: seq<seq<u32>>)
    requires n > 1 && n % 2 == 1
    ensures Verdict(n, bases) <==> forall k :: 0 <= k < |bases| ==> RootsAreTrivial(Val(bases[k]), n)
  {
    hide StrongProbablePrime, RootsAreTrivial, Val;
    forall k | 0 <= k < |bases|
      ensures StrongProbablePrime(Val(bases[k]), n) <==> RootsAreTrivial(Val(bases[k]), n)
    {
      StrongInPowers(Val(bases[k]), n);
    }
  }

  method IsPrime(n: BigInteger, numRounds: u32, bases: seq<seq<u32>>) returns (st: Outcome, prime: bool)
    requires n.Valid() && |bases| == numRounds
    requires n.Value() > 1 && n.Value() % 2 == 1 ==> Drawn(n.Value(), bases)
    ensures st == if numRounds == 0 then InvalidArgument else Ok
    ensures st == Ok ==> (prime <==> Verdict(n.Value(), bases))
    ensures prime ==> n.Value() > 1 && n.Value() % 2 == 1
    ensures st == Ok && n.Value() > 1 && n.Value() % 2 == 1 ==>
      (prime <==> forall k :: 0 <= k < |bases| ==> RootsAreTrivial(Val(bases[k]), n.Value()))
  {
    hide Val, StrongProbablePrime, RootsAreTrivial, And, Twos;
    if n.Value() > 1 && n.Value() % 2 == 1 {
      VerdictInPowers(n.Value(), bases);
    }
    prime := false;
    if numRounds == 0 {
      return InvalidArgument, false;
    }
    n.SignIsSign();
    LowBit(n.words.elems);
    if n.IsNegative() {
      return Ok, false;
    }
    if n.IsZero() {
      return Ok, false;
    }
    if And(n.words.elems[0], 1) == 0 {
      return Ok, false;
    }
    var one := new BigInteger(1);
    var isOne := n.Equals(one);
    if isOne {
      return Ok, false;
    }
    var a := new TArray<u32>();
    for round := 0 to numRounds
      invariant forall k :: 0 <= k < round ==> StrongProbablePrime(Val(bases[k]), n.Value())
    {
      a.elems := bases[round];
      var found := Witness(a, n.words);
      if found {
        return Ok, false;
      }
    }
    return Ok, true;
  }

  // ---------- what it means ----------

  ghost predicate Composite(n: int) {
    exists d: int :: 1 < d < n && n % d == 0
  }

  lemma OddPrime(n: nat)
    requires Prime(n) && n != 2
    ensures n % 2 == 1
  {
    var d: nat := 2;
    assert d < n ==> n % d != 0;
  }

  /** Zero is no base to test with: it rejects everything. */
  lemma ZeroRejects(n: nat)
    requires n > 1
    ensures !StrongProbablePrime(0, n)
  {
    forall i: nat
      ensures Squared(0, n, i) == 0
    {
      Decomposition(n - 1);
      Pow2Add(0, i);
      PositivePower(i, OddPart(n - 1));
      ZeroPower(Pow2(i) * OddPart(n - 1));
      CongMod(0, n);
    }
  }

  lemma PositivePower(i: nat, m: nat)
    requires m > 0
    ensures Pow2(i) * m > 0
  {
    Pow2Mono(0, i);
    MulMono(m, 1, Pow2(i));
  }

  lemma ZeroPower(e: nat)
    requires e > 0
    ensures Pow(0, e) == 0
  {
  }

  /** An odd prime is accepted if and only if zero is not among the bases. */
  lemma OddPrimeAccepted(n: nat, bases: seq<seq<u32>>)
    requires Prime(n) && n != 2 && Drawn(n, bases)
    ensures Verdict(n, bases) <==> forall k :: 0 <= k < |bases| ==> Val(bases[k]) != 0
  {
    hide Val, StrongProbablePrime;
    OddPrime(n);
    ZeroRejects(n);
    forall k | 0 <= k < |bases| && Val(bases[k]) != 0
      ensures StrongProbablePrime(Val(bases[k]), n)
    {
      PrimesPass(Val(bases[k]), n);
    }
  }

  /** An odd prime is safe from rejection if and only if its bit length is not a multiple of 32. */
  lemma SafePrimes(n: seq<u32>)
    requires Prime(Val(n)) && Val(n) != 2
    ensures (forall v: nat :: Drawable(n, v) ==> StrongProbablePrime(v, Val(n))) <==> BitSize(n) % 32 != 0
  {
    hide Val, StrongProbablePrime, BitSize;
    ZeroRejects(Val(n));
    assert BitSize(n) % 32 == 0 ==> Drawable(n, 0);
    forall v: nat | 0 < v < Val(n)
      ensures StrongProbablePrime(v, Val(n))
    {
      PrimesPass(v, Val(n));
    }
  }

  /** 3 * 2^30 + 1 is prime, has 32 bits, and is rejected when a word of zeros is drawn. */
  lemma RejectedPrime()
    ensures Prime(PROTH) && Val([PROTH]) == PROTH && BitSize([PROTH]) == 32
    ensures Drawable([PROTH], 0) && Drawn(PROTH, [[0]]) && !Verdict(PROTH, [[0]])
  {
    ProthIsPrime();
    hide Prime, StrongProbablePrime;
    ValOne(PROTH);
    ValOne(0);
    BitSizeRange([PROTH]);
    BitSizeBounds([PROTH]);
    Pow2Word();
    Pow2Next(31);
    if BitSize([PROTH]) < 32 {
      Pow2Mono(BitSize([PROTH]), 31);
    }
    ZeroRejects(PROTH);
    var bases: seq<seq<u32>> := [[0]];
    assert Val(bases[0]) == 0;
  }

  ghost predicate Among(a: nat, bases: seq<seq<u32>>) {
    exists k :: 0 <= k < |bases| && Val(bases[k]) == a
  }

  /** With every base from 1 to n - 1 drawn, and zero not, exactly the primes among the odd numbers are accepted. */
  lemma ExhaustiveVerdict(n: nat, bases: seq<seq<u32>>)
    requires n > 1 && n % 2 == 1 && Drawn(n, bases)
    requires forall k :: 0 <= k < |bases| ==> Val(bases[k]) != 0
    requires forall a: nat :: 0 < a < n ==> Among(a, bases)
    ensures Verdict(n, bases) <==> Prime(n)
  {
    hide StrongProbablePrime, Val, Prime;
    PrimeIffAllPass(n);
    if Prime(n) {
      OddPrimeAccepted(n, bases);
    }
    if Verdict(n, bases) {
      forall a: nat | 0 < a < n
        ensures StrongProbablePrime(a, n)
      {
        assert Among(a, bases);
        var k :| 0 <= k < |bases| && Val(bases[k]) == a;
      }
    }
  }

  lemma PrimeOrComposite(n: int)
    requires n > 1
    ensures Composite(n) <==> !Prime(n)
  {
  }

  /**
   The documentation promises that an answer of false means composite. For nonzero bases that holds
   exactly above two: 2 is turned away as even, and 1, 0 and the negative numbers are not composite.
   */
  lemma FalseMeansComposite(n: int, bases: seq<seq<u32>>)
    requires !Verdict(n, bases)
    requires n > 1 && n % 2 == 1 ==> Drawn(n, bases) && forall k :: 0 <= k < |bases| ==> Val(bases[k]) != 0
    ensures Composite(n) <==> n > 2
  {
    hide Verdict, Val;
    if n > 2 {
      PrimeOrComposite(n);
      if Prime(n) {
        OddPrime(n);
        OddPrimeAccepted(n, bases);
      }
    }
  }

  /** The numbers on which the promise fails. */
  lemma FalseWithoutFactor(n: int, bases: seq<seq<u32>>)
    requires n <= 2
    ensures !Verdict(n, bases) && !Composite(n) && (n == 2 ==> Prime(n))
  {
  }

  /** A proper divisor is always a witness. */
  lemma DivisorIsWitness(d: nat, n: nat)
    requires 1 < d < n && n % d == 0
    ensures !StrongProbablePrime(d, n)
  {
    var t := Twos(n - 1);
    Decomposition(n - 1);
    assert Squared(d, n, t) == Pow(d, n - 1) % n;
    hide Pow, Squared, StrongProbablePrime, Pow2, Twos;
    if Squared(d, n, t) == 1 {
      DividesIsMod(d, n);
      CongMod(1, n);
      PowerStaysMultiple(d, n - 1);
      CongDown(Pow(d, n - 1), 1, n, d);
      CongSym(Pow(d, n - 1), 0, d);
      CongTrans(0, Pow(d, n - 1), 1, d);
      CongSym(0, 1, d);
      NotMultiple(1, d);
    } else {
      LastNotOneRefutes(d, n);
    }
  }

  lemma PowerStaysMultiple(d: nat, e: nat)
    requires d > 0 && e > 0
    ensures Cong(Pow(d, e), 0, d)
  {
    assert Pow(d, e) == d * Pow(d, e - 1);
    CongShift(0, Pow(d, e - 1), d);
  }

  /** The test decides primality when every base is tried. */
  lemma PrimeIffAllPass(n: nat)
    requires n > 1
    ensures Prime(n) <==> forall a: nat :: 0 < a < n ==> StrongProbablePrime(a, n)
  {
    hide StrongProbablePrime;
    if Prime(n) {
      forall a: nat | 0 < a < n
        ensures StrongProbablePrime(a, n)
      {
        PrimesPass(a, n);
      }
    } else {
      var d: nat :| 1 < d < n && n % d == 0;
      DivisorIsWitness(d, n);
    }
  }
}
