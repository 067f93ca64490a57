/** Modular multiplication and three exponentiation algorithms: binary, 4-ary, windowed. */
module ModPow {
  import opened Arith
  import opened Arrays
  import opened Bits
  import opened Divide
  import opened Multiply
  import opened NumberTheory
  import opened WordMath
  import opened Words

  /** result := a * b mod m; result may be a or b itself. */
  method ModMultiply(a: Word32s, b: Word32s, m: Word32s, result: Word32s,
                     aux1: Word32s, aux2: Word32s, aux3: Word32s) returns (st: Outcome)
    requires Canonical(m.elems) && {a, b, m, result} !! {aux1, aux2, aux3} && result != m
    requires aux1 != aux2 && aux1 != aux3 && aux2 != aux3
    modifies result, aux1, aux2, aux3
    ensures st == if Val(m.elems) == 0 then InvalidArgument else Ok
    ensures st == Ok ==> Val(result.elems) == (Val(old(a.elems)) * Val(old(b.elems))) % Val(m.elems)
    ensures Canonical(result.elems)
  {
    hide Val, Canonical;
    MultiplyArrays(a, b, aux1, aux2);
    st := DivideArrays(aux1, m, aux2, result, aux3);
  }

  /** Multiplying residues adds exponents. */
  lemma PowerStep(r: nat, x: nat, a: nat, i: nat, j: nat, m: nat)
    requires Cong(r, Pow(a, i), m) && Cong(x, Pow(a, j), m)
    ensures Cong((r * x) % m, Pow(a, i + j), m) && 0 <= (r * x) % m < m
  {
    assert m > 0;
    hide Cong, Pow;
    CongMul(r, Pow(a, i), x, Pow(a, j), m);
    PowAdd(a, i, j);
    CongMod(r * x, m);
    CongTrans((r * x) % m, r * x, Pow(a, i + j), m);
  }

  lemma PowOne(a: nat)
    ensures Pow(a, 0) == 1 && Pow(a, 1) == a
  {
  }

  lemma One()
    ensures Canonical([1]) && Val([1]) == 1
  {
  }

  // ---------- binary method, low bits first ----------

  /** The low bits `lo` of e are used up and have raised the exponent from d to now; the next bit counts kp. */
  ghost predicate LowTaken(e: nat, d: nat, k: nat, p: nat, lo: nat, word: nat, kp: nat, now: nat) {
    e == lo + p * word && kp == k * p && now == d + k * lo
  }

  lemma LowTakenStart(e: nat, d: nat, k: nat)
    ensures LowTaken(e, d, k, 1, 0, e, k, d) && Pow2(0) == 1
  {
  }

  lemma LowBitTaken(e: nat, d: nat, k: nat, p: nat, lo: nat, word: nat, kp: nat, now: nat)
    requires LowTaken(e, d, k, p, lo, word, kp, now)
    ensures LowTaken(e, d, k, 2 * p, lo + p * (word % 2), word / 2, 2 * kp,
                     if word % 2 == 1 then now + kp else now)
  {
    var bit, half := word % 2, word / 2;
    assert word == bit + 2 * half;
    MulDist(p, bit, 2 * half);
    MulDist(k, lo, p * bit);
    MulAssoc(k, p, 2);
  }

  lemma LowTakenEnd(e: u32, d: nat, k: nat, lo: nat, word: nat, kp: nat, now: nat)
    requires LowTaken(e, d, k, Pow2(32), lo, word, kp, now)
    ensures now == d + k * e && kp == k * 0x1_0000_0000
  {
    Pow2Word();
  }

  /** What a result has become once the exponent d has been worked in. */
  ghost predicate IsPower(r: nat, a: nat, d: nat, m: nat) {
    Cong(r, Pow(a, d), m) && (d == 0 ==> r == 1) && (d > 0 ==> r < m)
  }

  lemma BitWorkedIn(r: nat, x: nat, a: nat, d: nat, k: nat, m: nat)
    requires IsPower(r, a, d, m) && Cong(x, Pow(a, k), m) && k > 0
    ensures IsPower((r * x) % m, a, d + k, m)
  {
    PowerStep(r, x, a, d, k, m);
  }

  /** a^e mod m; the empty product is 1 even modulo 1. */
  function PowMod(a: nat, e: nat, m: nat): nat
    requires e > 0 ==> m > 0
  {
    if e == 0 then 1 else Pow(a, e) % m
  }

  /** The code's power is the power modulo m unless exponent 0 meets modulus 1. */
  lemma PowModExact(a: nat, e: nat, m: nat)
    requires m > 0
    ensures PowMod(a, e, m) == Pow(a, e) % m <==> e > 0 || m > 1
  {
    if e == 0 {
      assert Pow(a, 0) == 1;
      DivUnique(1, m, if m == 1 then 1 else 0, if m == 1 then 0 else 1);
    }
  }

  /** Modulo 1 every power is 0, but the code answers 1. */
  lemma PowModOfOne(a: nat)
    ensures PowMod(a, 0, 1) == 1 != 0 == Pow(a, 0) % 1
  {
  }

  lemma PowerIsPowMod(r: nat, a: nat, e: nat, m: nat)
    requires IsPower(r, a, e, m)
    ensures r == PowMod(a, e, m)
  {
    hide Pow;
    CongMod(r, m);
  }

  lemma OneIsPower(a: nat, m: nat)
    requires m > 0
    ensures IsPower(1, a, 0, m) && Cong(a, Pow(a, 1), m)
  {
  }

  /** The 32 bits of one exponent word; aa runs through the squarings of a^k. */
  method NaiveWord(e: u32, aa: Word32s, m: Word32s, result: Word32s,
                   aux1: Word32s, aux2: Word32s, aux3: Word32s, ghost a: nat, ghost d: nat, ghost k: nat)
      returns (st: Outcome)
    requires Canonical(m.elems) && Canonical(result.elems)
    requires {aa, m, result} !! {aux1, aux2, aux3} && m !in {aa, result} && aa != result
    requires aux1 != aux2 && aux1 != aux3 && aux2 != aux3 && k > 0
    requires Val(m.elems) > 0 ==> IsPower(Val(result.elems), a, d, Val(m.elems))
    requires Val(m.elems) > 0 ==> Cong(Val(aa.elems), Pow(a, k), Val(m.elems))
    modifies result, aa, aux1, aux2, aux3
    ensures st == if Val(m.elems) == 0 then InvalidArgument else Ok
    ensures Canonical(result.elems)
    ensures st == Ok ==> IsPower(Val(result.elems), a, d + k * e, Val(m.elems))
    ensures st == Ok ==> Cong(Val(aa.elems), Pow(a, k * 0x1_0000_0000), Val(m.elems))
  {
    hide Val, Weight, Pow2, Pow, Cong, Canonical, And, IsPower, PowMod, LowTaken;
    ghost var vm := Val(m.elems);
    ghost var lo: nat, p: nat, kp: nat, now: nat := 0, 1, k, d;
    var word: nat := e;
    LowTakenStart(e, d, k);
    for j := 0 to 32
      invariant Canonical(result.elems) && p == Pow2(j) && kp > 0 && LowTaken(e, d, k, p, lo, word, kp, now)
      invariant vm == 0 ==> j == 0
      invariant vm > 0 ==> IsPower(Val(result.elems), a, now, vm)
      invariant vm > 0 ==> Cong(Val(aa.elems), Pow(a, kp), vm)
    {
      LowBitTaken(e, d, k, p, lo, word, kp, now);
      AndLow(word, 1);
      Pow2One();
      if And(word, 1) != 0 {
        ghost var r := Val(result.elems);
        :- ModMultiply(result, aa, m, result, aux1, aux2, aux3);
        BitWorkedIn(r, Val(aa.elems), a, now, kp, vm);
        now := now + kp;
      }
      lo, word := lo + p * (word % 2), word / 2;
      ghost var x := Val(aa.elems);
      :- ModMultiply(aa, aa, m, aa, aux1, aux2, aux3);
      PowerStep(x, x, a, kp, kp, vm);
      Pow2Next(j);
      p, kp := 2 * p, 2 * kp;
    }
    LowTakenEnd(e, d, k, lo, word, kp, now);
    return Ok;
  }

  lemma Pow2Zero()
    ensures Pow2(0) == 1
  {
  }

  lemma Pow2Next(j: nat)
    ensures Pow2(j + 1) == 2 * Pow2(j)
  {
  }

  method ModPowNaive(a: Word32s, e: Word32s, m: Word32s, result: Word32s) returns (st: Outcome)
    requires Canonical(e.elems) && Canonical(m.elems) && result !in {a, e, m}
    modifies result
    ensures st == if Val(m.elems) == 0 && Val(e.elems) > 0 then InvalidArgument else Ok
    ensures st == Ok ==> Canonical(result.elems)
    ensures st == Ok ==> Val(result.elems) == PowMod(Val(a.elems), Val(e.elems), Val(m.elems))
  {
    hide Val, Weight, Pow, Cong, Canonical, IsPower, PowMod;
    result.Clear();
    result.PushBack(1);
    assert result.elems == [1];
    One();
    var aux1 := new TArray<u32>();
    var aux2 := new TArray<u32>();
    var aux3 := new TArray<u32>();
    var aa := new TArray<u32>.Copy(a);
    ghost var va, vm := Val(a.elems), Val(m.elems);
    CanonicalRange(e.elems);
    EmptyPrefix(e.elems);
    if vm > 0 {
      OneIsPower(va, vm);
    }
    for i := 0 to |e.elems|
      invariant Canonical(result.elems) && (vm == 0 ==> i == 0 && result.elems == [1])
      invariant vm > 0 ==> IsPower(Val(result.elems), va, Val(e.elems[..i]), vm)
      invariant vm > 0 ==> Cong(Val(aa.elems), Pow(va, Weight(i)), vm)
    {
      ValPrefix(e.elems, i);
      NextWeight(i);
      :- NaiveWord(e.elems[i], aa, m, result, aux1, aux2, aux3, va, Val(e.elems[..i]), Weight(i));
    }
    assert e.elems[..|e.elems|] == e.elems;
    if vm > 0 {
      PowerIsPowMod(Val(result.elems), va, Val(e.elems), vm);
    } else {
      PowModZero(va, vm);
    }
    return Ok;
  }

  lemma EmptyPrefix(s: seq<u32>)
    ensures Val(s[..0]) == 0 && Weight(0) == 1
  {
  }

  lemma NextWeight(i: nat)
    ensures Weight(i + 1) == Weight(i) * 0x1_0000_0000
  {
  }

  lemma PowModZero(a: nat, m: nat)
    ensures PowMod(a, 0, m) == 1
  {
  }

  // ---------- high bits first ----------

  /** The first 16 powers of a: the entries are residues of a^i. */
  ghost predicate IsTable(tab: seq<Word32s>, a: nat, m: nat)
    reads tab
  {
    |tab| == 16 && forall i :: 0 <= i < 16 ==> Canonical(tab[i].elems) && Cong(Val(tab[i].elems), Pow(a, i), m)
  }

  method PowerTable(a: Word32s, m: Word32s, aux1: Word32s, aux2: Word32s, aux3: Word32s)
      returns (st: Outcome, tab: seq<Word32s>)
    requires Canonical(m.elems) && {a, m} !! {aux1, aux2, aux3} && aux1 != aux2 && aux1 != aux3 && aux2 != aux3
    modifies aux1, aux2, aux3
    ensures st == if Val(m.elems) == 0 then InvalidArgument else Ok
    ensures st == Ok ==> IsTable(tab, Val(a.elems), Val(m.elems))
    ensures forall i :: 0 <= i < |tab| ==> fresh(tab[i])
  {
    hide Val, Pow, Cong, Canonical;
    ghost var va, vm := Val(a.elems), Val(m.elems);
    One();
    PowOne(va);
    var first := new TArray<u32>();
    first.PushBack(1);
    assert first.elems == [1];
    tab := [first];
    if vm > 0 {
      CongRefl(1, vm);
      CongRefl(va, vm);
    }
    for i := 1 to 16
      invariant |tab| == i && forall j :: 0 <= j < i ==> fresh(tab[j])
      invariant forall j :: 0 <= j < i ==> Canonical(tab[j].elems)
      invariant vm == 0 ==> i == 1
      invariant vm > 0 ==> forall j :: 0 <= j < i ==> Cong(Val(tab[j].elems), Pow(va, j), vm)
    {
      var next := new TArray<u32>();
      :- ModMultiply(tab[i - 1], a, m, next, aux1, aux2, aux3);
      PowerStep(Val(tab[i - 1].elems), va, va, i - 1, 1, vm);
      tab := tab + [next];
    }
    return Ok, tab;
  }

  /** result := result * x mod m, read as adding exponents: a^i times a^j. */
  method MultiplyIn(result: Word32s, x: Word32s, m: Word32s, aux1: Word32s, aux2: Word32s, aux3: Word32s,
                    ghost a: nat, ghost i: nat, ghost j: nat) returns (st: Outcome)
    requires Canonical(result.elems) && Canonical(x.elems) && Canonical(m.elems)
    requires {result, x, m} !! {aux1, aux2, aux3} && result != m
    requires aux1 != aux2 && aux1 != aux3 && aux2 != aux3
    requires Cong(Val(result.elems), Pow(a, i), Val(m.elems)) && Cong(Val(x.elems), Pow(a, j), Val(m.elems))
    modifies result, aux1, aux2, aux3
    ensures st == Ok && Canonical(result.elems)
    ensures Cong(Val(result.elems), Pow(a, i + j), Val(m.elems)) && Val(result.elems) < Val(m.elems)
  {
    hide Val, Pow, Canonical;
    PowerStep(Val(result.elems), Val(x.elems), a, i, j, Val(m.elems));
    st := ModMultiply(result, x, m, result, aux1, aux2, aux3);
  }

  /** The high bits of exponent word e have come off the top: x is d with those bits (hi) appended. */
  ghost predicate Taken(e: nat, d: nat, p: nat, hi: nat, word: nat, x: nat) {
    e * p == hi * 0x1_0000_0000 + word && x == d * p + hi
  }

  lemma TakenStart(e: u32, d: nat)
    ensures Taken(e, d, 1, 0, e, d) && Pow2(0) == 1
  {
  }

  lemma TakenEnd(e: u32, d: nat, hi: nat, word: u32, x: nat)
    requires Taken(e, d, Pow2(32), hi, word, x)
    ensures x == e + 0x1_0000_0000 * d
  {
    Pow2Word();
  }

  /** The top c bits are worth `bits`: everything to the left moves up by a factor f = 2^c. */
  lemma TakeBits(e: nat, d: nat, p: nat, hi: nat, word: nat, x: nat, f: nat, bits: nat, rest: nat)
    requires Taken(e, d, p, hi, word, x) && f * word == bits * 0x1_0000_0000 + rest
    ensures Taken(e, d, f * p, f * hi + bits, rest, f * x + bits)
  {
    MulAssoc(e, p, f);
    MulAssoc(d, p, f);
    MulDist(f, hi * 0x1_0000_0000, word);
    MulAssoc(f, hi, 0x1_0000_0000);
    MulDist(f, d * p, hi);
  }

  lemma TopNibble(e: nat, d: nat, p: nat, hi: nat, word: u32, x: nat)
    requires Taken(e, d, p, hi, word, x)
    ensures Shr(And(word, 0xF000_0000), 28) == word / 0x1000_0000 < 16
    ensures Taken(e, d, 16 * p, 16 * hi + word / 0x1000_0000, Shl(word, 4), 16 * x + word / 0x1000_0000)
  {
    hide And, Pow2, Taken;
    Pow2Word();
    Pow2Values();
    AndHigh(word, 28, 32, 0xF000_0000);
    WholeParts(word, 0x1000_0000);
    TakeBits(e, d, p, hi, word, x, 16, word / 0x1000_0000, Shl(word, 4));
  }

  lemma TopBit(e: nat, d: nat, p: nat, hi: nat, word: u32, x: nat)
    requires Taken(e, d, p, hi, word, x)
    ensures Shr(And(word, 0x8000_0000), 31) == word / 0x8000_0000 <= 1
    ensures And(word, 0x8000_0000) > 0 <==> word / 0x8000_0000 == 1
    ensures Taken(e, d, 2 * p, 2 * hi + word / 0x8000_0000, Shl(word, 1), 2 * x + word / 0x8000_0000)
  {
    hide And, Pow2, Taken;
    Pow2Word();
    Pow2Values();
    AndHigh(word, 31, 32, 0x8000_0000);
    WholeParts(word, 0x8000_0000);
    TakeBits(e, d, p, hi, word, x, 2, word / 0x8000_0000, Shl(word, 1));
  }

  lemma Pow2Values()
    ensures Pow2(1) == 2 && Pow2(4) == 16 && Pow2(28) == 0x1000_0000 && Pow2(31) == 0x8000_0000
  {
    MaskTables(31);
    MaskTables(28);
    MaskTables(4);
  }

  /** Eight nibbles of one exponent word: d becomes 2^32 * d + e. */
  method MaryWord(e: u32, tab: seq<Word32s>, m: Word32s, result: Word32s,
                  aux1: Word32s, aux2: Word32s, aux3: Word32s, ghost a: nat, ghost d: nat) returns (st: Outcome)
    requires Canonical(m.elems) && Canonical(result.elems) && IsTable(tab, a, Val(m.elems))
    requires result !in tab && aux1 !in tab && aux2 !in tab && aux3 !in tab
    requires {m, result} !! {aux1, aux2, aux3} && m != result
    requires aux1 != aux2 && aux1 != aux3 && aux2 != aux3
    requires Cong(Val(result.elems), Pow(a, d), Val(m.elems))
    modifies result, aux1, aux2, aux3
    ensures st == Ok && Canonical(result.elems) && Val(result.elems) < Val(m.elems)
    ensures Cong(Val(result.elems), Pow(a, e + 0x1_0000_0000 * d), Val(m.elems))
  {
    hide Val, Pow, Cong, Canonical, And, Shl, Shr, Pow2, Taken;
    var word: u32 := e;
    ghost var p: nat, hi: nat, x: nat := 1, 0, d;
    TakenStart(e, d);
    for j := 0 to 8
      invariant p == Pow2(4 * j) && Taken(e, d, p, hi, word, x)
      invariant Canonical(result.elems) && IsTable(tab, a, Val(m.elems))
      invariant Cong(Val(result.elems), Pow(a, x), Val(m.elems))
      invariant j > 0 ==> Val(result.elems) < Val(m.elems)
    {
      TopNibble(e, d, p, hi, word, x);
      var high := Shr(And(word, 0xF000_0000), 28);
      word := Shl(word, 4);
      :- MultiplyIn(result, result, m, aux1, aux2, aux3, a, x, x);
      :- MultiplyIn(result, result, m, aux1, aux2, aux3, a, 2 * x, 2 * x);
      :- MultiplyIn(result, result, m, aux1, aux2, aux3, a, 4 * x, 4 * x);
      :- MultiplyIn(result, result, m, aux1, aux2, aux3, a, 8 * x, 8 * x);
      :- MultiplyIn(result, tab[high], m, aux1, aux2, aux3, a, 16 * x, high);
      p, hi, x := 16 * p, 16 * hi + high, 16 * x + high;
      Pow2Nibble(j);
    }
    TakenEnd(e, d, hi, word, x);
    return Ok;
  }

  lemma Pow2Nibble(j: nat)
    ensures Pow2(4 * (j + 1)) == 16 * Pow2(4 * j)
  {
    Pow2Add(4, 4 * j);
    Pow2Values();
  }

  lemma ResidueIsPowMod(r: nat, a: nat, e: nat, m: nat)
    requires if e == 0 then r == 1 else Cong(r, Pow(a, e), m) && r < m
    ensures e > 0 ==> m > 0
    ensures r == PowMod(a, e, m)
  {
    hide Pow;
    if e > 0 {
      CongMod(r, m);
    }
  }

  method ModPowMary(a: Word32s, e: Word32s, m: Word32s, result: Word32s) returns (st: Outcome)
    requires Canonical(e.elems) && Canonical(m.elems) && result !in {a, e, m}
    modifies result
    ensures st == if Val(m.elems) == 0 then InvalidArgument else Ok
    ensures st == Ok ==> Canonical(result.elems)
    ensures st == Ok ==> Val(result.elems) == PowMod(Val(a.elems), Val(e.elems), Val(m.elems))
  {
    hide Val, Pow, Cong, Canonical, PowMod, IsTable;
    result.Clear();
    result.PushBack(1);
    assert result.elems == [1];
    One();
    var aux1 := new TArray<u32>();
    var aux2 := new TArray<u32>();
    var aux3 := new TArray<u32>();
    var tab :- PowerTable(a, m, aux1, aux2, aux3);
    ghost var va, vm := Val(a.elems), Val(m.elems);
    PowOne(va);
    CongRefl(1, vm);
    CanonicalRange(e.elems);
    NothingLeft(e.elems);
    for i := |e.elems| downto 0
      invariant Canonical(result.elems) && IsTable(tab, va, vm)
      invariant Cong(Val(result.elems), Pow(va, Val(e.elems[i..])), vm)
      invariant if i == |e.elems| then result.elems == [1] else Val(result.elems) < vm
    {
      ValHead(e.elems, i);
      :- MaryWord(e.elems[i], tab, m, result, aux1, aux2, aux3, va, Val(e.elems[i + 1..]));
    }
    assert e.elems[0..] == e.elems;
    ResidueIsPowMod(Val(result.elems), va, Val(e.elems), vm);
    return Ok;
  }

  lemma NothingLeft(e: seq<u32>)
    ensures Val(e[|e|..]) == 0
  {
  }

  // ---------- constant length nonzero windows ----------

  const WINDOW_SIZE: nat := 4

  /** The bits col collected in an open window of d bits have not been worked in yet. */
  ghost predicate IsWindow(zw: bool, d: nat, col: nat, prefix: nat) {
    (zw <==> d == 0) && d < WINDOW_SIZE && col < Pow2(d) && col <= prefix
  }

  lemma CollectBit(col: u32, bit: nat, d: nat)
    requires col < Pow2(d) && d < WINDOW_SIZE && bit <= 1
    ensures Or(Shl(col, 1), bit) == 2 * col + bit < Pow2(d + 1) <= 16
  {
    hide Or, Shl, Pow2;
    Pow2Values();
    Pow2Mono(d + 1, 4);
    Pow2Next(d);
    ShlOne(col);
    OrBit(2 * col, bit);
  }

  lemma ShlOne(col: u32)
    requires col < 0x8000_0000
    ensures Shl(col, 1) == 2 * col
  {
    Pow2One();
  }

  lemma OrBit(high: nat, bit: nat)
    requires high % 2 == 0 && bit <= 1
    ensures Or(high, bit) == high + bit
  {
    Pow2One();
    OrDisjoint(bit, high, 1);
  }

  /** One exponent bit: the prefix x becomes 2x + bit, and result = a^(prefix - col) still. */
  method WindowBit(bit: u32, tab: seq<Word32s>, m: Word32s, result: Word32s,
                    aux1: Word32s, aux2: Word32s, aux3: Word32s, zw0: bool, d0: u32, col0: u32,
                    ghost a: nat, ghost prefix: nat) returns (st: Outcome, zw: bool, d: u32, col: u32)
    requires Canonical(m.elems) && Canonical(result.elems) && IsTable(tab, a, Val(m.elems))
    requires result !in tab && aux1 !in tab && aux2 !in tab && aux3 !in tab
    requires {m, result} !! {aux1, aux2, aux3} && m != result
    requires aux1 != aux2 && aux1 != aux3 && aux2 != aux3
    requires IsWindow(zw0, d0, col0, prefix)
    requires Cong(Val(result.elems), Pow(a, prefix - col0), Val(m.elems))
    requires bit <= 1
    modifies result, aux1, aux2, aux3
    ensures st == Ok && Canonical(result.elems) && Val(result.elems) < Val(m.elems)
    ensures IsWindow(zw, d, col, 2 * prefix + bit)
    ensures Cong(Val(result.elems), Pow(a, 2 * prefix + bit - col), Val(m.elems))
  {
    hide Val, Pow, Cong, Canonical, And, Or, Shl, Shr, Pow2;
    zw, d, col := zw0, d0, col0;
    ghost var y: nat := prefix - col;
    Pow2Zero();
    :- MultiplyIn(result, result, m, aux1, aux2, aux3, a, y, y);
    if bit == 0 && zw {
      return Ok, zw, d, col;
    }
    CollectBit(col, bit, d);
    col := Or(Shl(col, 1), bit);
    d := d + 1;
    zw := false;
    if d == WINDOW_SIZE {
      :- MultiplyIn(result, tab[col], m, aux1, aux2, aux3, a, 2 * y, col);
      d, col, zw := 0, 0, true;
    }
    return Ok, zw, d, col;
  }

  /** 32 bits of one exponent word: the prefix becomes 2^32 * prefix + e. */
  method WindowWord(e: u32, tab: seq<Word32s>, m: Word32s, result: Word32s,
                    aux1: Word32s, aux2: Word32s, aux3: Word32s, zw0: bool, d0: u32, col0: u32,
                    ghost a: nat, ghost prefix: nat) returns (st: Outcome, zw: bool, d: u32, col: u32)
    requires Canonical(m.elems) && Canonical(result.elems) && IsTable(tab, a, Val(m.elems))
    requires result !in tab && aux1 !in tab && aux2 !in tab && aux3 !in tab
    requires {m, result} !! {aux1, aux2, aux3} && m != result
    requires aux1 != aux2 && aux1 != aux3 && aux2 != aux3
    requires IsWindow(zw0, d0, col0, prefix)
    requires Cong(Val(result.elems), Pow(a, prefix - col0), Val(m.elems))
    modifies result, aux1, aux2, aux3
    ensures st == Ok && Canonical(result.elems) && Val(result.elems) < Val(m.elems)
    ensures IsWindow(zw, d, col, e + 0x1_0000_0000 * prefix)
    ensures Cong(Val(result.elems), Pow(a, e + 0x1_0000_0000 * prefix - col), Val(m.elems))
  {
    hide Val, Pow, Cong, Canonical, And, Or, Shl, Shr, Pow2, IsTable, Taken;
    st, zw, d, col := Ok, zw0, d0, col0;
    var word: u32 := e;
    ghost var p: nat, hi: nat, x: nat := 1, 0, prefix;
    TakenStart(e, prefix);
    for j := 0 to 32
      invariant p == Pow2(j) && Taken(e, prefix, p, hi, word, x)
      invariant Canonical(result.elems) && IsTable(tab, a, Val(m.elems)) && IsWindow(zw, d, col, x)
      invariant Cong(Val(result.elems), Pow(a, x - col), Val(m.elems))
      invariant st == Ok && (j > 0 ==> Val(result.elems) < Val(m.elems))
    {
      TopBit(e, prefix, p, hi, word, x);
      Pow2Next(j);
      var bit := Shr(And(word, 0x8000_0000), 31);
      word := Shl(word, 1);
      st, zw, d, col := WindowBit(bit, tab, m, result, aux1, aux2, aux3, zw, d, col, a, x);
      p, hi, x := 2 * p, 2 * hi + bit, 2 * x + bit;
    }
    TakenEnd(e, prefix, hi, word, x);
  }

  lemma EmptyWindow()
    ensures IsWindow(true, 0, 0, 0)
  {
  }

  lemma WindowIsEntry(zw: bool, d: nat, col: nat, prefix: nat)
    requires IsWindow(zw, d, col, prefix)
    ensures zw ==> col == 0
    ensures col < 16 && col <= prefix
  {
    Pow2Values();
    Pow2Mono(d, 4);
    Pow2Zero();
  }

  method ModPowCLNW(a: Word32s, e: Word32s, m: Word32s, result: Word32s) returns (st: Outcome)
    requires Canonical(e.elems) && Canonical(m.elems) && result !in {a, e, m}
    modifies result
    ensures st == if Val(m.elems) == 0 then InvalidArgument else Ok
    ensures st == Ok ==> Canonical(result.elems)
    ensures st == Ok ==> Val(result.elems) == PowMod(Val(a.elems), Val(e.elems), Val(m.elems))
  {
    hide Val, Pow, Cong, Canonical, PowMod, IsTable, IsWindow;
    result.Clear();
    result.PushBack(1);
    assert result.elems == [1];
    One();
    var aux1 := new TArray<u32>();
    var aux2 := new TArray<u32>();
    var aux3 := new TArray<u32>();
    var tab :- PowerTable(a, m, aux1, aux2, aux3);
    ghost var va, vm := Val(a.elems), Val(m.elems);
    TableSize(tab, va, vm);
    PowOne(va);
    CongRefl(1, vm);
    CanonicalRange(e.elems);
    NothingLeft(e.elems);
    EmptyWindow();
    var zw: bool, d: u32, col: u32 := true, 0, 0;
    for i := |e.elems| downto 0
      invariant Canonical(result.elems) && IsTable(tab, va, vm)
      invariant IsWindow(zw, d, col, Val(e.elems[i..])) && col <= Val(e.elems[i..])
      invariant Cong(Val(result.elems), Pow(va, Val(e.elems[i..]) - col), vm)
      invariant if i == |e.elems| then result.elems == [1] && zw else Val(result.elems) < vm
    {
      ValHead(e.elems, i);
      var st0: Outcome;
      st0, zw, d, col := WindowWord(e.elems[i], tab, m, result, aux1, aux2, aux3, zw, d, col,
                                    va, Val(e.elems[i + 1..]));
      WindowIsEntry(zw, d, col, Val(e.elems[i..]));
    }
    assert e.elems[0..] == e.elems;
    WindowIsEntry(zw, d, col, Val(e.elems));
    if !zw {
      TableEntry(tab, va, vm, col);
      :- MultiplyIn(result, tab[col], m, aux1, aux2, aux3, va, Val(e.elems) - col, col);
      d, col, zw := 0, 0, true;
    }
    ResidueIsPowMod(Val(result.elems), va, Val(e.elems), vm);
    return Ok;
  }

  lemma TableSize(tab: seq<Word32s>, a: nat, m: nat)
    requires IsTable(tab, a, m)
    ensures |tab| == 16 && m > 0
  {
    assert Cong(Val(tab[0].elems), Pow(a, 0), m);
  }

  lemma TableEntry(tab: seq<Word32s>, a: nat, m: nat, i: nat)
    requires IsTable(tab, a, m) && i < 16
    ensures Canonical(tab[i].elems) && Cong(Val(tab[i].elems), Pow(a, i), m)
  {
  }
}
