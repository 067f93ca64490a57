/** Exponentiation by Montgomery products, for odd moduli, and the choice of algorithm by size. */
module Montgomery {
  import opened Arith
  import opened AddSub
  import opened Arrays
  import opened BigIntegers
  import opened Bits
  import opened Bytes
  import opened Divide
  import opened Euclid
  import opened ModPow
  import opened Multiply
  import opened NumberTheory
  import opened WordMath
  import opened Words

  // ---------- the constant n' ----------

  lemma {:induction false} OddDivisorOfPow2(g: nat, j: int, k: nat)
    requires g % 2 == 1 && Pow2(k) == g * j
    ensures g == 1
  {
    if k == 0 {
      if g > 1 {
        if j >= 1 {
          MulMono(g, 1, j);
        } else {
          MulMono(g, j, 0);
        }
      }
    } else {
      OddTimes(g, j);
      OddDivisorOfPow2(g, j / 2, k - 1);
    }
  }

  lemma OddTimes(g: nat, j: int)
    requires g % 2 == 1 && (g * j) % 2 == 0
    ensures j % 2 == 0 && g * j == 2 * (g * (j / 2))
  {
    var h, i := g / 2, j / 2;
    assert g == 2 * h + 1 && j == 2 * i + j % 2;
    assert g * j == 2 * (h * j) + j;
    MulDist(g, 2 * i, 0);
  }

  lemma OddGcdIsOne(n: nat, k: nat)
    requires n % 2 == 1
    ensures Gcd(n, Pow2(k)) == 1
  {
    hide Gcd, Pow2;
    var g := Gcd(n, Pow2(k));
    GcdIsGreatest(n, Pow2(k));
    var i: int :| n == g * i;
    var j: int :| Pow2(k) == g * j;
    if g % 2 == 0 {
      MulAssoc(2, g / 2, i);
    }
    OddDivisorOfPow2(g, j, k);
  }

  /** Whatever the sign of the Bezout coefficient, its magnitude serves: n * |x| = -1 mod r. */
  lemma NegativeInverse(n: nat, r: nat, x: int, y: int)
    requires n > 0 && r > 0 && n * x + r * y == 1 && y >= 0 && (n == 1 ==> r == 2)
    ensures (n * Abs(x) + 1) % r == 0
  {
    if x <= 0 {
      MulNeg(n, x);
      DivUnique(r * y, r, y, 0);
    } else {
      MulMono(n, 1, x);
      MulMono(r, 0, y);
      if n > 1 || x > 1 {
        MulMono(x, 1, n);
      }
      assert n == 1 && x == 1;
    }
  }

  lemma ShiftBezout(n: int, r: int, x: int, y: int)
    ensures n * (x - r) + r * (y + n) == n * x + r * y
  {
    MulDist(n, x, r);
    MulDist(r, y, n);
  }

  /** r = 2^k is the first power of two above n, and n * n' = -1 mod r; rInv is an inverse of r. */
  ghost predicate MontgomeryData(n: nat, k: nat, r: nat, nPrim: nat, rInv: int) {
    && 0 < n < r && r == Pow2(k) && k > 0
    && (n * nPrim + 1) % r == 0 && Cong(r * rInv, 1, n)
  }

  lemma FromWordBytes(s: seq<u32>)
    ensures ByteVal(Trim(Unpack(s), 0)) == Val(s)
  {
    UnpackVal(s);
    TrimByteVal(Unpack(s));
  }

  lemma FirstPowerAbove(v: nat, k: nat)
    requires v < Pow2(k) && k > 0 && Pow2(k - 1) <= v
    ensures v == 1 ==> Pow2(k) == 2
  {
    assert k > 1 ==> Pow2(k - 1) == 2 * Pow2(k - 2);
  }

  /** A Bezout pair for n and r, moved to a nonnegative inverse of r; then the other coefficient's magnitude. */
  method InverseBytes(nBI: BigInteger, rBI: BigInteger) returns (bytes: seq<u8>, ghost rInv: int)
    requires nBI.Valid() && rBI.Valid() && nBI.Value() > 0 && rBI.Value() > 0
    requires Gcd(nBI.Value(), rBI.Value()) == 1 && (nBI.Value() == 1 ==> rBI.Value() == 2)
    ensures (nBI.Value() * ByteVal(bytes) + 1) % rBI.Value() == 0
    ensures Cong(rBI.Value() * rInv, 1, nBI.Value())
    ensures bytes == [] || bytes[|bytes| - 1] != 0
  {
    hide Val, Canonical, Gcd, Cong, ByteVal;
    ghost var n, r := nBI.Value(), rBI.Value();
    var nPrimBI := new BigInteger(0);
    var rInvBI := new BigInteger(0);
    var st := ExtendedGCD(nBI, rBI, nPrimBI, rInvBI);
    assert st == Ok;
    rInvBI.SignIsSign();
    while rInvBI.IsNegative()
      invariant nPrimBI.Valid() && rInvBI.Valid() && nBI.Valid() && rBI.Valid()
      invariant nBI.Value() == n && rBI.Value() == r
      invariant n * nPrimBI.Value() + r * rInvBI.Value() == 1
      invariant rInvBI.IsNegative() <==> rInvBI.Value() < 0
      decreases if rInvBI.Value() < 0 then -rInvBI.Value() else 0
    {
      ShiftBezout(n, r, nPrimBI.Value(), rInvBI.Value());
      rInvBI.AddAssign(nBI);
      nPrimBI.SubAssign(rBI);
      rInvBI.SignIsSign();
    }
    rInv := rInvBI.Value();
    NegativeInverse(n, r, nPrimBI.Value(), rInv);
    InverseOfR(n, r, nPrimBI.Value(), rInv);
    bytes := nPrimBI.GetBytes();
  }

  lemma InverseOfR(n: nat, r: nat, x: int, y: int)
    requires n > 0 && n * x + r * y == 1
    ensures Cong(r * y, 1, n)
  {
    CongShift(r * y, x, n);
  }

  /** A word array copied into a nonnegative big integer, by way of its bytes. */
  method ToBigInteger(v: Word32s) returns (b: BigInteger)
    requires Canonical(v.elems)
    ensures fresh(b) && fresh(b.words) && b.Valid() && b.Value() == Val(v.elems)
  {
    var v8 := new TArray<u8>();
    U32to8(v, v8);
    FromWordBytes(v.elems);
    b := new BigInteger.FromBytes(v8.elems);
  }

  method StoreBytes(bytes: seq<u8>, v: Word32s)
    requires bytes == [] || bytes[|bytes| - 1] != 0
    modifies v
    ensures Canonical(v.elems) && Val(v.elems) == ByteVal(bytes)
  {
    var v8 := new TArray<u8>();
    for i := 0 to |bytes|
      invariant v8.elems == bytes[..i]
    {
      v8.PushBack(bytes[i]);
    }
    assert bytes[..|bytes|] == bytes;
    U8to32(v8, v);
    PackVal(bytes);
    PackCanonical(bytes);
  }

  method CalculateNprim(n: Word32s, nPrim: Word32s, r: Word32s) returns (ghost k: nat, ghost rInv: int)
    requires Canonical(n.elems) && Val(n.elems) % 2 == 1 && n !in {nPrim, r} && nPrim != r
    modifies nPrim, r
    ensures Canonical(nPrim.elems) && Canonical(r.elems)
    ensures MontgomeryData(Val(n.elems), k, Val(r.elems), Val(nPrim.elems), rInv)
  {
    hide Val, Canonical, Pow2, ByteVal, Gcd, Cong;
    var bits := NumBits(n);
    k := bits;
    r.Clear();
    r.PushBack(1);
    assert r.elems == [1];
    One();
    ShiftLeft(r, bits);
    CanonicalRange(n.elems);
    FirstPowerAbove(Val(n.elems), k);
    OddGcdIsOne(Val(n.elems), k);
    var nBI := ToBigInteger(n);
    var rBI := ToBigInteger(r);
    var bytes;
    bytes, rInv := InverseBytes(nBI, rBI);
    StoreBytes(bytes, nPrim);
  }

  // ---------- Montgomery products ----------

  /** Montgomery's reduction of t, before the conditional subtraction. */
  function Redc(t: nat, n: nat, r: nat, nPrim: nat): nat
    requires r > 0
  {
    (((t * nPrim) % r) * n + t) / r
  }

  /** t + (t * n' mod r) * n is a multiple of r, and the quotient is below 2n. */
  lemma Reduction(t: nat, n: nat, r: nat, nPrim: nat)
    requires n > 0 && r > 0 && (n * nPrim + 1) % r == 0 && t < n * r
    ensures Redc(t, n, r, nPrim) < 2 * n
    ensures Cong(Redc(t, n, r, nPrim) * r, t, n) && Cong((Redc(t, n, r, nPrim) - n) * r, t, n)
  {
    var m := (t * nPrim) % r;
    var u := ReductionExact(t, n, r, nPrim);
    assert Redc(t, n, r, nPrim) == u by {
      DivUnique(m * n + t, r, u, 0);
    }
    hide Redc, Cong;
    ReductionBound(u, r, n, m, t);
    ReducedCong(u, r, n, m, t);
  }

  lemma ReductionExact(t: nat, n: nat, r: nat, nPrim: nat) returns (u: int)
    requires n > 0 && r > 0 && (n * nPrim + 1) % r == 0
    ensures u * r == ((t * nPrim) % r) * n + t && u >= 0
  {
    var q, m, c := (t * nPrim) / r, (t * nPrim) % r, (n * nPrim + 1) / r;
    ReductionArith(t, n, r, nPrim, q, m, c);
    u := t * c - q * n;
    hide *;
    NonNegativeProduct(m, n);
    if u < 0 {
      MulMono(r, u, -1);
    }
  }

  lemma ReductionBound(u: int, r: int, n: int, m: int, t: int)
    requires r > 0 && n > 0 && u * r == m * n + t && 0 <= m < r && t < n * r
    ensures u < 2 * n
  {
    MulMono(n, m, r);
    if u >= 2 * n {
      MulMono(r, 2 * n, u);
      MulAssoc(2, n, r);
    }
  }

  lemma ReductionArith(t: int, n: int, r: int, nPrim: int, q: int, m: int, c: int)
    requires n * nPrim + 1 == r * c && t * nPrim == r * q + m
    ensures m * n + t == r * (t * c - q * n)
  {
    MulDist(t, n * nPrim, 1);
    MulAssoc(t, r, c);
    MulAssoc(r, t, c);
    MulAssoc(t, n, nPrim);
    MulAssoc(n, t, nPrim);
    MulDist(n, r * q, m);
    MulAssoc(n, r, q);
    MulAssoc(r, n, q);
    MulDist(r, t * c, q * n);
  }

  /** r can be cancelled, since it has an inverse. */
  lemma CancelR(x: int, y: int, r: int, rInv: int, n: nat)
    requires Cong(x * r, y * r, n) && Cong(r * rInv, 1, n)
    ensures Cong(x, y, n)
  {
    hide Cong;
    WithInverse(x, r, rInv, n);
    WithInverse(y, r, rInv, n);
    CongMulLeft(x * r, y * r, rInv, n);
    CongSym((x * r) * rInv, x, n);
    CongTrans(x, (x * r) * rInv, (y * r) * rInv, n);
    CongTrans(x, (y * r) * rInv, y, n);
  }

  lemma WithInverse(x: int, r: int, rInv: int, n: nat)
    requires Cong(r * rInv, 1, n)
    ensures Cong((x * r) * rInv, x, n)
  {
    hide Cong;
    CongMulLeft(r * rInv, 1, x, n);
    MulAssoc(x, r, rInv);
  }

  /** result * r = a * b mod n with result < n, from one conditional subtraction; result may be a or b. */
  method MontgomeryProduct(aHat: Word32s, bHat: Word32s, n: Word32s, nPrim: Word32s, r: Word32s,
                           result: Word32s, aux1: Word32s, aux2: Word32s, aux3: Word32s,
                           ghost k: nat, ghost rInv: int)
    requires Canonical(aHat.elems) && Canonical(bHat.elems) && Canonical(n.elems)
    requires Canonical(nPrim.elems) && Canonical(r.elems)
    requires {aHat, bHat, n, nPrim, r, result} !! {aux1, aux2, aux3} && result !in {n, nPrim, r}
    requires aux1 != aux2 && aux1 != aux3 && aux2 != aux3
    requires MontgomeryData(Val(n.elems), k, Val(r.elems), Val(nPrim.elems), rInv)
    requires Val(aHat.elems) * Val(bHat.elems) < Val(n.elems) * Val(r.elems)
    modifies result, aux1, aux2, aux3
    ensures Canonical(result.elems) && Val(result.elems) < Val(n.elems)
    ensures Cong(Val(result.elems) * Val(r.elems), Val(old(aHat.elems)) * Val(old(bHat.elems)), Val(n.elems))
  {
    hide Val, Canonical, Pow2, Weight, Cong, MontgomeryData, Redc;
    ghost var vn, vr, np := Val(n.elems), Val(r.elems), Val(nPrim.elems);
    MultiplyArrays(aHat, bHat, aux1, aux3);
    ghost var t := Val(aux1.elems);
    DataFacts(vn, k, vr, np, rInv);
    Reduction(t, vn, vr, np);
    ReduceInto(aux1, n, nPrim, r, result, aux2, aux3, k);
    var less := IsLess(result, n);
    if !less {
      var st := Subtract(result, n);
      assert st == Ok;
    }
  }

  /** The quotient by r of t + m * n, with m and the quotient cut by bits. */
  method ReduceInto(t: Word32s, n: Word32s, nPrim: Word32s, r: Word32s, u: Word32s,
                    m: Word32s, aux3: Word32s, ghost k: nat)
    requires Canonical(t.elems) && Canonical(n.elems) && Canonical(nPrim.elems) && Canonical(r.elems)
    requires {t, n, nPrim, r} !! {u, m, aux3} && u != m && u != aux3 && m != aux3
    requires Val(r.elems) == Pow2(k)
    modifies u, m, aux3
    ensures Canonical(u.elems)
    ensures Pow2(k) > 0 && Val(u.elems) == Redc(Val(t.elems), Val(n.elems), Val(r.elems), Val(nPrim.elems))
  {
    hide Val, Canonical, Pow2;
    ghost var vr := Val(r.elems);
    MultiplyArrays(t, nPrim, m, aux3);
    var bits := NumBits(r);
    CanonicalRange(r.elems);
    BitsOfPower(vr, k, bits);
    KeepOnly(m, bits - 1);
    MultiplyArrays(m, n, u, aux3);
    WeightZero(Val(t.elems));
    hide Weight;
    Add(u, t);
    bits := NumBits(r);
    BitsOfPower(vr, k, bits);
    ShiftRight(u, bits - 1);
  }

  lemma DataFacts(n: nat, k: nat, r: nat, nPrim: nat, rInv: int)
    requires MontgomeryData(n, k, r, nPrim, rInv)
    ensures 0 < n < r && r == Pow2(k) && k > 0 && (n * nPrim + 1) % r == 0 && Cong(r * rInv, 1, n)
  {
  }

  lemma BitsOfPower(v: nat, k: nat, bits: nat)
    requires v == Pow2(k) && v < Pow2(bits) && bits > 0 && Pow2(bits - 1) <= v
    ensures bits == k + 1
  {
    if bits <= k {
      Pow2Mono(bits, k);
    } else if bits > k + 1 {
      Pow2Mono(k, bits - 1);
    }
  }

  /** Taking off n once changes nothing modulo n. */
  lemma ReducedCong(u: nat, r: nat, n: nat, m: nat, t: nat)
    requires n > 0 && u * r == m * n + t
    ensures Cong(u * r, t, n) && Cong((u - n) * r, t, n)
  {
    CongShift(t, m, n);
    MulDist(r, u, n);
    CongShift(t, m - r, n);
    MulDist(n, m, r);
  }

  // ---------- exponentiation ----------

  lemma ProductBelow(a: nat, b: nat, n: nat, r: nat)
    requires a < n && b < r
    ensures a * b < n * r
  {
    MulMono(b, a, n);
    MulMono(n, b, r - 1);
    MulDist(n, r, 1);
  }

  /** Numbers carried in the form base^i * r multiply like their exponents add. */
  lemma HatProduct(x: nat, a: nat, b: nat, base: nat, i: nat, j: nat, n: nat, r: nat, rInv: int)
    requires Cong(x * r, a * b, n) && Cong(r * rInv, 1, n)
    requires Cong(a, Pow(base, i) * r, n) && Cong(b, Pow(base, j) * r, n)
    ensures Cong(x, Pow(base, i + j) * r, n)
  {
    hide Cong, Pow;
    var p, q := Pow(base, i), Pow(base, j);
    CongMul(a, p * r, b, q * r, n);
    CongTrans(x * r, a * b, (p * r) * (q * r), n);
    Regroup(p, q, r);
    PowAdd(base, i, j);
    CancelR(x, Pow(base, i + j) * r, r, rInv, n);
  }

  lemma Regroup(p: int, q: int, r: int)
    ensures (p * r) * (q * r) == ((p * q) * r) * r
  {
    MulAssoc(p * r, q, r);
    MulAssoc(p, r, q);
    MulAssoc(p, q, r);
  }

  /** A Montgomery product read on exponents. */
  method HatMultiply(aHat: Word32s, xHat: Word32s, n: Word32s, nPrim: Word32s, r: Word32s,
                     aux1: Word32s, aux2: Word32s, aux3: Word32s,
                     ghost k: nat, ghost rInv: int, ghost base: nat, ghost i: nat, ghost j: nat)
    requires Canonical(aHat.elems) && Canonical(xHat.elems) && Canonical(n.elems)
    requires Canonical(nPrim.elems) && Canonical(r.elems)
    requires {aHat, xHat, n, nPrim, r} !! {aux1, aux2, aux3} && xHat !in {n, nPrim, r}
    requires aux1 != aux2 && aux1 != aux3 && aux2 != aux3
    requires MontgomeryData(Val(n.elems), k, Val(r.elems), Val(nPrim.elems), rInv)
    requires Val(aHat.elems) < Val(n.elems) && Val(xHat.elems) < Val(n.elems)
    requires Cong(Val(aHat.elems), Pow(base, i) * Val(r.elems), Val(n.elems))
    requires Cong(Val(xHat.elems), Pow(base, j) * Val(r.elems), Val(n.elems))
    modifies xHat, aux1, aux2, aux3
    ensures Canonical(xHat.elems) && Val(xHat.elems) < Val(n.elems)
    ensures Cong(Val(xHat.elems), Pow(base, i + j) * Val(r.elems), Val(n.elems))
  {
    hide Val, Canonical, Cong, Pow, MontgomeryData;
    ghost var a, b, vn, vr := Val(aHat.elems), Val(xHat.elems), Val(n.elems), Val(r.elems);
    DataFacts(vn, k, vr, Val(nPrim.elems), rInv);
    ProductBelow(a, b, vn, vr);
    MontgomeryProduct(aHat, xHat, n, nPrim, r, xHat, aux1, aux2, aux3, k, rInv);
    HatProduct(Val(xHat.elems), a, b, base, i, j, vn, vr, rInv);
  }

  /** 32 exponent bits: base^d becomes base^(2^32 d + e), in the form carried. */
  method MontgomeryWord(e: u32, mHat: Word32s, xHat: Word32s, n: Word32s, nPrim: Word32s, r: Word32s,
                        aux1: Word32s, aux2: Word32s, aux3: Word32s,
                        ghost k: nat, ghost rInv: int, ghost base: nat, ghost d: nat)
    requires Canonical(mHat.elems) && Canonical(xHat.elems) && Canonical(n.elems)
    requires Canonical(nPrim.elems) && Canonical(r.elems)
    requires {mHat, xHat, n, nPrim, r} !! {aux1, aux2, aux3} && xHat !in {mHat, n, nPrim, r}
    requires aux1 != aux2 && aux1 != aux3 && aux2 != aux3
    requires MontgomeryData(Val(n.elems), k, Val(r.elems), Val(nPrim.elems), rInv)
    requires Val(mHat.elems) < Val(n.elems) && Val(xHat.elems) < Val(n.elems)
    requires Cong(Val(mHat.elems), Pow(base, 1) * Val(r.elems), Val(n.elems))
    requires Cong(Val(xHat.elems), Pow(base, d) * Val(r.elems), Val(n.elems))
    modifies xHat, aux1, aux2, aux3
    ensures Canonical(xHat.elems) && Val(xHat.elems) < Val(n.elems)
    ensures Cong(Val(xHat.elems), Pow(base, e + 0x1_0000_0000 * d) * Val(r.elems), Val(n.elems))
  {
    hide Val, Canonical, Cong, Pow, MontgomeryData, And, Shl, Shr, Pow2, Taken;
    var word: u32 := e;
    ghost var p: nat, hi: nat, x: nat := 1, 0, d;
    TakenStart(e, d);
    for j := 0 to 32
      invariant p == Pow2(j) && Taken(e, d, p, hi, word, x)
      invariant Canonical(xHat.elems) && Val(xHat.elems) < Val(n.elems)
      invariant Cong(Val(xHat.elems), Pow(base, x) * Val(r.elems), Val(n.elems))
    {
      TopBit(e, d, p, hi, word, x);
      Pow2Next(j);
      var bit := And(word, 0x8000_0000) > 0;
      p, hi := 2 * p, 2 * hi + word / 0x8000_0000;
      word := Shl(word, 1);
      HatMultiply(xHat, xHat, n, nPrim, r, aux1, aux2, aux3, k, rInv, base, x, x);
      x := 2 * x;
      if bit {
        HatMultiply(mHat, xHat, n, nPrim, r, aux1, aux2, aux3, k, rInv, base, 1, x);
        x := 1 + x;
      }
    }
    TakenEnd(e, d, hi, word, x);
  }

  /** The numbers the loop starts from: base * r and r itself, reduced. */
  lemma HatStart(base: nat, r: nat, n: nat)
    requires n > 0
    ensures Cong((base * r) % n, Pow(base, 1) * r, n)
    ensures Cong(r % n, Pow(base, 0) * r, n)
  {
    PowOne(base);
    CongMod(base * r, n);
    CongMod(r, n);
  }

  /** Leaving the form: a product with 1 takes r off again. */
  lemma HatEnd(x: nat, xHat: nat, base: nat, e: nat, n: nat, r: nat, rInv: int)
    requires Cong(x * r, xHat * 1, n) && Cong(r * rInv, 1, n) && x < n
    requires Cong(xHat, Pow(base, e) * r, n)
    ensures x == Pow(base, e) % n
  {
    CongTrans(x * r, xHat, Pow(base, e) * r, n);
    CancelR(x, Pow(base, e), r, rInv, n);
    CongMod(x, n);
  }

  /** base^e mod n for every odd n, any e; even moduli are refused. */
  method ModPowMontgomery(base: Word32s, e: Word32s, n: Word32s, result: Word32s) returns (st: Outcome)
    requires Canonical(e.elems) && Canonical(n.elems) && result !in {base, e, n}
    modifies result
    ensures st == if Val(n.elems) % 2 == 0 then InvalidArgument else Ok
    ensures st == Ok ==> Canonical(result.elems) && Val(n.elems) > 0
    ensures st == Ok ==> Val(result.elems) == Pow(Val(base.elems), Val(e.elems)) % Val(n.elems)
  {
    hide Val, Canonical, Cong, Pow, MontgomeryData, And;
    LowBit(n.elems);
    if |n.elems| == 0 || And(n.elems[0], 1) == 0 {
      return InvalidArgument;
    }
    var aux1 := new TArray<u32>();
    var aux2 := new TArray<u32>();
    var aux3 := new TArray<u32>();
    var nPrim := new TArray<u32>();
    var r := new TArray<u32>();
    ghost var k, rInv := CalculateNprim(n, nPrim, r);
    MontgomeryPower(base, e, n, nPrim, r, result, aux1, aux2, aux3, k, rInv);
    return Ok;
  }

  method MontgomeryPower(base: Word32s, e: Word32s, n: Word32s, nPrim: Word32s, r: Word32s, result: Word32s,
                         aux1: Word32s, aux2: Word32s, aux3: Word32s, ghost k: nat, ghost rInv: int)
    requires Canonical(n.elems) && Canonical(nPrim.elems) && Canonical(r.elems)
    requires {base, e, n, nPrim, r, result} !! {aux1, aux2, aux3} && result !in {base, e, n, nPrim, r}
    requires aux1 != aux2 && aux1 != aux3 && aux2 != aux3
    requires MontgomeryData(Val(n.elems), k, Val(r.elems), Val(nPrim.elems), rInv)
    modifies result, aux1, aux2, aux3
    ensures Canonical(result.elems) && Val(n.elems) > 0
    ensures Val(result.elems) == Pow(Val(base.elems), Val(e.elems)) % Val(n.elems)
  {
    hide Val, Canonical, Cong, Pow, MontgomeryData;
    ghost var vm, vn, vr := Val(base.elems), Val(n.elems), Val(r.elems);
    DataFacts(vn, k, vr, Val(nPrim.elems), rInv);
    HatStart(vm, vr, vn);
    var mHat := new TArray<u32>();
    var st := ModMultiply(base, r, n, mHat, aux1, aux2, aux3);
    assert st == Ok;
    var xHat := new TArray<u32>();
    st := DivideArrays(r, n, aux1, xHat, aux2);
    assert st == Ok;
    MontgomeryLoop(mHat, e, n, nPrim, r, xHat, result, aux1, aux2, aux3, k, rInv, vm);
  }

  lemma LowBit(s: seq<u32>)
    ensures Val(s) % 2 == if |s| == 0 then 0 else And(s[0], 1)
  {
    if |s| > 0 {
      AndLow(s[0], 1);
      Pow2One();
    }
  }

  method MontgomeryLoop(mHat: Word32s, e: Word32s, n: Word32s, nPrim: Word32s, r: Word32s,
                        xHat: Word32s, result: Word32s, aux1: Word32s, aux2: Word32s, aux3: Word32s,
                        ghost k: nat, ghost rInv: int, ghost base: nat)
    requires Canonical(mHat.elems) && Canonical(xHat.elems) && Canonical(n.elems)
    requires Canonical(nPrim.elems) && Canonical(r.elems)
    requires {mHat, xHat, e, n, nPrim, r, result} !! {aux1, aux2, aux3}
    requires {mHat, e, n, nPrim, r} !! {xHat, result}
    requires aux1 != aux2 && aux1 != aux3 && aux2 != aux3
    requires MontgomeryData(Val(n.elems), k, Val(r.elems), Val(nPrim.elems), rInv)
    requires Val(mHat.elems) < Val(n.elems) && Val(xHat.elems) < Val(n.elems)
    requires Cong(Val(mHat.elems), Pow(base, 1) * Val(r.elems), Val(n.elems))
    requires Cong(Val(xHat.elems), Pow(base, 0) * Val(r.elems), Val(n.elems))
    modifies xHat, result, aux1, aux2, aux3
    ensures Canonical(result.elems) && Val(n.elems) > 0
    ensures Val(result.elems) == Pow(base, Val(e.elems)) % Val(n.elems)
  {
    hide Val, Canonical, Cong, Pow, MontgomeryData;
    NothingLeft(e.elems);
    for i := |e.elems| downto 0
      invariant Canonical(xHat.elems) && Val(xHat.elems) < Val(n.elems)
      invariant Cong(Val(xHat.elems), Pow(base, Val(e.elems[i..])) * Val(r.elems), Val(n.elems))
    {
      ValHead(e.elems, i);
      MontgomeryWord(e.elems[i], mHat, xHat, n, nPrim, r, aux1, aux2, aux3, k, rInv, base, Val(e.elems[i + 1..]));
    }
    assert e.elems[0..] == e.elems;
    var one := new TArray<u32>();
    one.PushBack(1);
    assert one.elems == [1];
    One();
    ghost var vx, vn, vr := Val(xHat.elems), Val(n.elems), Val(r.elems);
    DataFacts(vn, k, vr, Val(nPrim.elems), rInv);
    ProductBelow(vx, 1, vn, vr);
    MontgomeryProduct(xHat, one, n, nPrim, r, result, aux1, aux2, aux3, k, rInv);
    HatEnd(Val(result.elems), vx, base, Val(e.elems), vn, vr, rInv);
  }

  // ---------- the dispatcher ----------

  /** The algorithm is chosen by the length of the exponent; every choice computes the same number. */
  method ModPowArrays(a: Word32s, e: Word32s, m: Word32s, result: Word32s) returns (st: Outcome)
    requires Canonical(e.elems) && Canonical(m.elems) && result !in {a, e, m}
    modifies result
    ensures st == if Val(m.elems) == 0 && Val(e.elems) > 0 then InvalidArgument else Ok
    ensures st == Ok ==> Canonical(result.elems)
    ensures st == Ok ==> Val(result.elems) == PowMod(Val(a.elems), Val(e.elems), Val(m.elems))
  {
    hide Val, Canonical, Pow, And;
    CanonicalRange(e.elems);
    LowBit(m.elems);
    if |e.elems| < 5 {
      st := ModPowNaive(a, e, m, result);
    } else if |e.elems| < 10 {
      st := ModPowMary(a, e, m, result);
    } else if |e.elems| < 15 {
      st := ModPowCLNW(a, e, m, result);
    } else if |m.elems| > 0 && And(m.elems[0], 1) == 1 {
      st := ModPowMontgomery(a, e, m, result);
    } else {
      st := ModPowCLNW(a, e, m, result);
    }
  }

  /** (base ^ e) mod m on magnitudes: only a negative base is refused, the other signs are ignored. */
  method ModPowBig(base: BigInteger, e: BigInteger, m: BigInteger) returns (st: Outcome, bi: BigInteger)
    requires base.Valid() && e.Valid() && m.Valid()
    ensures st == if base.Value() < 0 || (m.Value() == 0 && e.Value() != 0) then InvalidArgument else Ok
    ensures st == Ok ==> bi.Valid() && bi.Value() == PowMod(base.Value(), Abs(e.Value()), Abs(m.Value()))
    ensures st == Ok && m.Value() != 0 ==>
      (bi.Value() == Pow(base.Value(), Abs(e.Value())) % Abs(m.Value()) <==> e.Value() != 0 || Abs(m.Value()) != 1)
  {
    hide Val, Canonical, PowMod, Pow;
    base.SignIsSign();
    e.SignIsSign();
    m.SignIsSign();
    if base.Value() >= 0 && m.Value() != 0 {
      PowModExact(base.Value(), Abs(e.Value()), Abs(m.Value()));
    }
    bi := new BigInteger(0);
    if base.IsNegative() {
      return InvalidArgument, bi;
    }
    var result := new TArray<u32>();
    st := ModPowArrays(base.words, e.words, m.words, result);
    if st == Ok {
      bi.words.Assign(result);
    }
  }
}
