/** Schoolbook and Karatsuba multiplication. */
module Multiply {
  import opened Arith
  import opened Arrays
  import opened WordMath
  import opened Words
  import opened AddSub

  const KARATSUBA_CUTOFF: nat := 200

  /** One row of the schoolbook scheme: x * b, with `carry` still to come at word j. */
  ghost predicate Row(row: seq<u32>, carry: nat, x: nat, b: seq<u32>, j: nat) {
    j <= |row| && j <= |b| && Val(row[..j]) + carry * Weight(j) == x * Val(b[..j])
  }

  lemma RowStart(row: seq<u32>, x: nat, b: seq<u32>)
    ensures Row(row, 0, x, b, 0)
  {
    assert row[..0] == [] && b[..0] == [];
  }

  lemma RowStep(row: seq<u32>, carry: nat, x: nat, b: seq<u32>, j: nat, digit: u32, carryOut: nat)
    requires Row(row, carry, x, b, j) && j < |b| && j < |row|
    requires carry + x * b[j] == digit + 0x1_0000_0000 * carryOut
    ensures Row(row[j := digit], carryOut, x, b, j + 1)
  {
    hide Val, Weight;
    var next, w := row[j := digit], Weight(j);
    assert next[..j] == row[..j];
    ValPrefix(next, j);
    ValPrefix(b, j);
    BorrowIsBase(carryOut, j);
    MulDist(w, digit, 0x1_0000_0000 * carryOut);
    MulDist(w, carry, x * b[j]);
    MulDist(x, Val(b[..j]), w * b[j]);
    MulAssoc(x, w, b[j]);
    MulAssoc(w, x, b[j]);
  }

  lemma RowEnd(row: seq<u32>, carry: u32, x: nat, b: seq<u32>)
    requires Row(row, carry, x, b, |b|) && |row| == |b| + 1
    ensures Val(row[|b| := carry]) == x * Val(b)
  {
    hide Val, Weight;
    var full := row[|b| := carry];
    assert full == row[..|b|] + [carry] && b[..|b|] == b;
    ValSnoc(row[..|b|], carry);
  }

  /** A 64-bit accumulator has room for one product of words and a carried word. */
  lemma ProductFits(x: u32, y: u32, carry: u32)
    ensures 0 <= x * y && x * y + carry < 0x1_0000_0000 * 0x1_0000_0000
  {
    MulMono(x, y, 0xFFFF_FFFF);
  }

  /** row := x * b, over whatever the cells of row held before. */
  method MultiplyRow(x: u32, b: Word32s, row: Word32s)
    requires row != b && |row.elems| == |b.elems| + 1
    modifies row
    ensures |row.elems| == |b.elems| + 1 && Val(row.elems) == x * Val(b.elems)
  {
    hide Val, Weight, Row;
    var carry: u64 := 0;
    var lcount := |b.elems|;
    var j := 0;
    RowStart(row.elems, x, b.elems);
    while j < lcount
      invariant j <= lcount && carry < 0x1_0000_0000 && |row.elems| == lcount + 1
      invariant Row(row.elems, carry, x, b.elems, j)
    {
      var steps := Min(20, lcount - j);
      ghost var target := j + steps;
      while steps > 0
        invariant 0 <= steps && j + steps == target <= lcount && carry < 0x1_0000_0000 && |row.elems| == lcount + 1
        invariant Row(row.elems, carry, x, b.elems, j)
        decreases steps
      {
        ghost var now, carryIn := row.elems, carry;
        ProductFits(x, b.elems[j], carry);
        carry := carry + x * b.elems[j];
        var digit := carry % 0x1_0000_0000;
        row.elems := row.elems[j := digit];
        carry := carry / 0x1_0000_0000;
        RowStep(now, carryIn, x, b.elems, j, digit, carry);
        j, steps := j + 1, steps - 1;
      }
    }
    RowEnd(row.elems, carry, x, b.elems);
    row.elems := row.elems[lcount := carry];
  }

  method MultiplyNaive(a: Word32s, b: Word32s, result: Word32s, aux1: Word32s)
    requires {a, b} !! {result, aux1} && result != aux1
    modifies result, aux1
    ensures Val(result.elems) == Val(a.elems) * Val(b.elems)
    ensures Canonical(result.elems)
  {
    hide Val, Weight, Canonical;
    result.Clear();
    NothingToMultiply();
    if |a.elems| == 0 || |b.elems| == 0 {
      return;
    }
    aux1.SetSize(|b.elems| + 1);
    assert a.elems[..0] == [];
    for i := 0 to |a.elems|
      invariant |aux1.elems| == |b.elems| + 1 && Canonical(result.elems)
      invariant Val(result.elems) == Val(a.elems[..i]) * Val(b.elems)
    {
      MultiplyRow(a.elems[i], b, aux1);
      ValPrefix(a.elems, i);
      MulDist(Val(b.elems), Val(a.elems[..i]), Weight(i) * a.elems[i]);
      MulAssoc(Weight(i), a.elems[i], Val(b.elems));
      Add(result, aux1, i);
    }
    assert a.elems[..|a.elems|] == a.elems;
  }

  lemma NothingToMultiply()
    ensures Val([]) == 0 && Canonical([])
  {
  }

  function MultiplyAdd(x: u32, y: u32, carry: u32): (r: u64)
    ensures r == carry + y * x && r / 0x1_0000_0000 < 0x1_0000_0000
    ensures x > 0 && y > 0 ==> r > 0
  {
    ProductFits(x, y, carry);
    PositiveProduct(x, y);
    x * y + carry
  }

  /** The word kept and the word carried; they are not both zero unless the product is. */
  lemma TwoHalves(mult: u64)
    requires mult / 0x1_0000_0000 < 0x1_0000_0000
    ensures mult == mult % 0x1_0000_0000 + 0x1_0000_0000 * (mult / 0x1_0000_0000 % 0x1_0000_0000)
    ensures mult > 0 ==> mult % 0x1_0000_0000 > 0 || mult / 0x1_0000_0000 % 0x1_0000_0000 > 0
  {
  }

  /** a *= b for a single word; the top word of a canonical number stays nonzero. */
  method MultiplyWord(a: Word32s, b: u32)
    modifies a
    ensures Val(a.elems) == Val(old(a.elems)) * b
    ensures Canonical(old(a.elems)) ==> Canonical(a.elems)
  {
    hide Val, Weight, Row, MultiplyAdd;
    NothingToMultiply();
    if |a.elems| == 0 {
      return;
    }
    if b == 0 {
      a.Clear();
      return;
    }
    ghost var a0 := a.elems;
    var carry: u32 := 0;
    RowStart(a.elems, b, a0);
    for i := 0 to |a.elems|
      invariant |a.elems| == |a0| && a.elems[i..] == a0[i..]
      invariant Row(a.elems, carry, b, a0, i)
      invariant i == |a0| && a0[i - 1] != 0 ==> carry > 0 || a.elems[i - 1] != 0
    {
      assert a.elems[i] == a0[i];
      ghost var now, carryIn := a.elems, carry;
      var mult := MultiplyAdd(a.elems[i], b, carry);
      TwoHalves(mult);
      a.elems := a.elems[i := mult % 0x1_0000_0000];
      carry := (mult / 0x1_0000_0000) % 0x1_0000_0000;
      RowStep(now, carryIn, b, a0, i, mult % 0x1_0000_0000, carry);
    }
    WordEnd(a.elems, carry, b, a0);
    if carry > 0 {
      a.PushBack(carry);
    }
  }

  lemma PositiveProduct(x: nat, y: nat)
    ensures x > 0 && y > 0 ==> x * y > 0
  {
  }

  lemma WordEnd(row: seq<u32>, carry: u32, x: nat, b: seq<u32>)
    requires Row(row, carry, x, b, |b|) && |row| == |b|
    ensures Val(if carry > 0 then row + [carry] else row) == Val(b) * x
  {
    hide Val, Weight;
    assert row[..|b|] == row && b[..|b|] == b;
    ValSnoc(row, carry);
  }

  // ---------- Karatsuba ----------

  lemma KaratsubaIdentity(p: int, a: int, b: int, c: int, d: int)
    ensures (b * d * p + ((a + b) * (c + d) - a * c - b * d)) * p + a * c == (p * b + a) * (p * d + c)
  {
    MulDist(a + b, c, d);
    MulDist(c, a, b);
    MulDist(d, a, b);
    assert (a + b) * (c + d) - a * c - b * d == a * d + b * c;
    MulDist(p * b + a, p * d, c);
    MulDist(p * d, p * b, a);
    MulDist(c, p * b, a);
    MulDist(p, b * d * p, a * d + b * c);
    MulDist(p, a * d, b * c);
    assert (p * d) * (p * b) == b * d * p * p;
  }

  lemma Pow2One()
    ensures Pow2(1) == 2
  {
  }

  /** The operands need not be canonical: the recursion ends because their bit lengths shrink. */
  method MultiplyKaratsuba(x: Word32s, y: Word32s, result: Word32s, aux1: Word32s, cutoff: nat)
    requires cutoff > 0 && {x, y} !! {result, aux1} && result != aux1
    modifies result, aux1
    ensures Val(result.elems) == Val(x.elems) * Val(y.elems)
    ensures Canonical(result.elems)
    decreases Max(BitSize(x.elems), BitSize(y.elems)), 1
  {
    hide Val, Weight, Pow2, Canonical, BitSize;
    if |x.elems| <= cutoff || |y.elems| <= cutoff {
      MultiplyNaive(x, y, result, aux1);
      return;
    }
    var nx := NumBits(x);
    var ny := NumBits(y);
    var n := Max(nx, ny);
    ghost var bits := n;
    n := n / 2 + n % 2;
    BitSizeBounds(x.elems);
    var a, b := Halves(x, n, bits);
    var c, d := Halves(y, n, bits);
    MultiplyHalves(a, b, c, d, n, result, aux1, cutoff, bits);
  }

  /** The recursive step: (2^n b + a) * (2^n d + c) from three products of smaller numbers. */
  method MultiplyHalves(a: Word32s, b: Word32s, c: Word32s, d: Word32s, n: nat,
                        result: Word32s, aux1: Word32s, cutoff: nat, ghost bound: nat)
    requires cutoff > 0 && n + 1 < bound
    requires a != b && a != c && a != d && b != c && c != d && {a, b, c, d} !! {result, aux1} && result != aux1
    requires BitSize(a.elems) <= n && BitSize(b.elems) <= n && BitSize(c.elems) <= n && BitSize(d.elems) <= n
    modifies result, aux1, a, c
    ensures Val(result.elems) ==
      old((Pow2(n) * Val(b.elems) + Val(a.elems)) * (Pow2(n) * Val(d.elems) + Val(c.elems)))
    ensures Canonical(result.elems)
    decreases bound, 0
  {
    hide Val, Weight, Pow2, Canonical, BitSize;
    ghost var va, vb, vc, vd := Val(a.elems), Val(b.elems), Val(c.elems), Val(d.elems);
    var ac := new TArray<u32>();
    MultiplyKaratsuba(a, c, ac, aux1, cutoff);
    var bd := new TArray<u32>();
    MultiplyKaratsuba(b, d, bd, aux1, cutoff);
    SumBits(a.elems, b.elems, n);
    SumBits(c.elems, d.elems, n);
    Add(a, b);
    Add(c, d);
    WeightZero(vb);
    WeightZero(vd);
    FewBits(a.elems, n + 1);
    FewBits(c.elems, n + 1);
    var abcd := new TArray<u32>();
    MultiplyKaratsuba(a, c, abcd, aux1, cutoff);
    CrossTerms(va, vb, vc, vd);
    var k := MiddleTerm(abcd, ac, bd);
    Recombine(bd, k, ac, n, result);
    KaratsubaIdentity(Pow2(n), va, vb, vc, vd);
  }

  lemma SumBits(s: seq<u32>, t: seq<u32>, n: nat)
    requires BitSize(s) <= n && BitSize(t) <= n
    ensures Val(s) + Val(t) < Pow2(n + 1)
  {
    BitSizeRange(s);
    BitSizeRange(t);
    Pow2Mono(BitSize(s), n);
    Pow2Mono(BitSize(t), n);
  }

  /** x = 2^n * high + low, on copies of x; each half has at most n bits. */
  method Halves(x: Word32s, n: nat, ghost bits: nat) returns (low: Word32s, high: Word32s)
    requires BitSize(x.elems) <= bits <= 2 * n
    ensures fresh(low) && fresh(high) && low != high
    ensures Val(x.elems) == Pow2(n) * Val(high.elems) + Val(low.elems)
    ensures BitSize(low.elems) <= n && BitSize(high.elems) <= n
  {
    hide Val, Weight, Pow2, Canonical, BitSize;
    BitSizeRange(x.elems);
    BitSizeBounds(x.elems);
    HalfFits(Val(x.elems), n, BitSize(x.elems));
    low := new TArray<u32>.Copy(x);
    KeepOnly(low, n);
    if n / 32 < |x.elems| {
      FewBits(low.elems, n);
    }
    high := new TArray<u32>.Copy(x);
    ShiftRight(high, n);
    FewBits(high.elems, n);
    DivBound(Val(x.elems), Pow2(n));
  }

  lemma HalfFits(v: nat, n: nat, bits: nat)
    requires bits <= 2 * n && v < Pow2(bits)
    ensures v % Pow2(n) < Pow2(n) && v / Pow2(n) < Pow2(n)
  {
    hide Pow2;
    Pow2Add(n, n);
    Pow2Mono(bits, 2 * n);
    DivBelow(v, Pow2(n), Pow2(n));
  }

  /** Neither subtraction can throw: the product of the sums is at least both products. */
  method MiddleTerm(abcd: Word32s, ac: Word32s, bd: Word32s) returns (k: Word32s)
    requires Canonical(abcd.elems) && Canonical(ac.elems) && Canonical(bd.elems)
    requires Val(ac.elems) + Val(bd.elems) <= Val(abcd.elems)
    ensures fresh(k) && Val(k.elems) == Val(abcd.elems) - Val(ac.elems) - Val(bd.elems)
  {
    hide Val, Canonical;
    k := new TArray<u32>.Copy(abcd);
    var st := Subtract(k, ac);
    assert st == Ok;
    st := Subtract(k, bd);
    assert st == Ok;
  }

  method Recombine(bd: Word32s, k: Word32s, ac: Word32s, n: nat, result: Word32s)
    requires result !in {bd, k, ac}
    modifies result
    ensures Val(result.elems) == (Val(bd.elems) * Pow2(n) + Val(k.elems)) * Pow2(n) + Val(ac.elems)
    ensures Canonical(result.elems)
  {
    hide Val, Weight, Pow2, Canonical;
    result.Assign(bd);
    ShiftLeft(result, n);
    Add(result, k);
    ShiftLeft(result, n);
    Add(result, ac);
    WeightZero(Val(k.elems));
    WeightZero(Val(ac.elems));
  }

  lemma WeightZero(v: int)
    ensures Weight(0) * v == v
  {
  }

  lemma CrossTerms(a: nat, b: nat, c: nat, d: nat)
    ensures 0 <= a * c && 0 <= b * d && a * c + b * d <= (a + b) * (c + d)
  {
    MulDist(a + b, c, d);
    MulDist(c, a, b);
    MulDist(d, a, b);
  }

  method MultiplyArrays(a: Word32s, b: Word32s, result: Word32s, aux1: Word32s)
    requires {a, b} !! {result, aux1} && result != aux1
    modifies result, aux1
    ensures Val(result.elems) == Val(a.elems) * Val(b.elems)
    ensures Canonical(result.elems)
  {
    MultiplyKaratsuba(a, b, result, aux1, KARATSUBA_CUTOFF);
  }
}
