/**
 Comparison, trimming, bit length and in-place shifts on word arrays.
 */
module Words {
  import opened Arith
  import opened Arrays
  import opened WordMath
  import opened Bits

  type Word32s = TArray<u32>

  /** The shorter array counts as less, which is right for canonical numbers; arrays of one length compare by value. */
  method IsLess(a: Word32s, b: Word32s) returns (less: bool)
    ensures Canonical(a.elems) && Canonical(b.elems) ==> (less <==> Val(a.elems) < Val(b.elems))
    ensures if |a.elems| == |b.elems| then less <==> Val(a.elems) < Val(b.elems) else less <==> |a.elems| < |b.elems|
  {
    if |a.elems| != |b.elems| {
      if Canonical(a.elems) && Canonical(b.elems) {
        if |a.elems| < |b.elems| {
          LongerIsLarger(a.elems, b.elems);
        } else {
          LongerIsLarger(b.elems, a.elems);
        }
      }
      return |a.elems| < |b.elems|;
    }
    for i := |a.elems| downto 0
      invariant a.elems[i..] == b.elems[i..]
    {
      if a.elems[i] != b.elems[i] {
        if a.elems[i] < b.elems[i] {
          FirstDifference(a.elems, b.elems, i);
        } else {
          FirstDifference(b.elems, a.elems, i);
        }
        return a.elems[i] < b.elems[i];
      }
      assert a.elems[i..] == [a.elems[i]] + a.elems[i + 1..];
      assert b.elems[i..] == [b.elems[i]] + b.elems[i + 1..];
    }
    return false;
  }

  method IsEqual(a: Word32s, b: Word32s) returns (eq: bool)
    ensures eq <==> a.elems == b.elems
    ensures Canonical(a.elems) && Canonical(b.elems) ==> (eq <==> Val(a.elems) == Val(b.elems))
  {
    if Canonical(a.elems) && Canonical(b.elems) && Val(a.elems) == Val(b.elems) {
      CanonicalUnique(a.elems, b.elems);
    }
    if |a.elems| != |b.elems| {
      return false;
    }
    for i := |a.elems| downto 0
      invariant a.elems[i..] == b.elems[i..]
    {
      if a.elems[i] != b.elems[i] {
        return false;
      }
      assert a.elems[i..] == [a.elems[i]] + a.elems[i + 1..];
      assert b.elems[i..] == [b.elems[i]] + b.elems[i + 1..];
    }
    return true;
  }

  /** Drops the zero words on top. */
  method Cleanup<T(0,==)>(v: TArray<T>, zero: T)
    modifies v
    ensures v.elems == Trim(old(v.elems), zero)
  {
    while |v.elems| > 0 && v.elems[|v.elems| - 1] == zero
      invariant Trim(v.elems, zero) == Trim(old(v.elems), zero)
      decreases |v.elems|
    {
      var st := v.PopBack();
    }
  }

  /** The bit length: v < 2^n, and for a canonical v also 2^(n-1) <= v. */
  method NumBits(v: Word32s) returns (n: nat)
    ensures n == BitSize(v.elems) && Val(v.elems) < Pow2(n)
    ensures Canonical(v.elems) ==> (n == 0 <==> v.elems == []) && (n > 0 ==> Pow2(n - 1) <= Val(v.elems))
  {
    BitSizeRange(v.elems);
    if v.elems == [] {
      return 0;
    }
    var b, i := v.elems[|v.elems| - 1], 0;
    while b != 0
      invariant i + BitLen(b) == BitLen(v.elems[|v.elems| - 1])
      decreases b
    {
      b, i := b / 2, i + 1;
    }
    n := (|v.elems| - 1) * 32 + i;
  }

  /** The bit length of the top word above 32 bits for every word beneath it. */
  function BitSize(s: seq<u32>): nat {
    if s == [] then 0 else (|s| - 1) * 32 + BitLen(s[|s| - 1])
  }

  function BitLen(b: nat): nat {
    if b == 0 then 0 else 1 + BitLen(b / 2)
  }

  lemma {:induction false} BitLenRange(b: nat)
    ensures b < Pow2(BitLen(b))
    ensures b > 0 ==> Pow2(BitLen(b) - 1) <= b
  {
    if b > 1 {
      BitLenRange(b / 2);
    }
  }

  lemma BitSizeRange(s: seq<u32>)
    ensures Val(s) < Pow2(BitSize(s))
    ensures Canonical(s) && s != [] ==> BitSize(s) > 0 && Pow2(BitSize(s) - 1) <= Val(s)
  {
    if s == [] {
      Pow2Word();
    } else {
      var k, top: int := |s| - 1, s[|s| - 1];
      BitLenRange(top);
      hide Val, Weight, Pow2, BitLen;
      ValTop(s);
      WeightIsPow2(k);
      ShiftedRange(k, BitLen(top), top, Val(s));
    }
  }

  lemma BitSizeBounds(s: seq<u32>)
    ensures BitSize(s) <= 32 * |s| && (s != [] ==> 32 * (|s| - 1) <= BitSize(s))
  {
    if s != [] {
      var top := s[|s| - 1];
      BitLenRange(top);
      Pow2Word();
      if BitLen(top) > 32 {
        hide BitLen;
        Pow2Mono(32, BitLen(top) - 1);
      }
    }
  }

  /** A canonical number below 2^n has no more than n bits. */
  lemma FewBits(s: seq<u32>, n: nat)
    requires Canonical(s) && Val(s) < Pow2(n)
    ensures BitSize(s) <= n
  {
    BitSizeRange(s);
    hide Pow2, Val;
    if BitSize(s) > n {
      Pow2Mono(n, BitSize(s) - 1);
    }
  }

  lemma ShiftedRange(k: nat, i: nat, top: int, v: int)
    requires 0 <= top < Pow2(i) && (i > 0 ==> Pow2(i - 1) <= top)
    requires Pow2(32 * k) * top <= v < Pow2(32 * k) * (top + 1)
    ensures v < Pow2(k * 32 + i) && (i > 0 ==> Pow2(k * 32 + i - 1) <= v)
  {
    hide Pow2;
    Pow2Add(32 * k, i);
    MulMono(Pow2(32 * k), top + 1, Pow2(i));
    if i > 0 {
      Pow2Add(32 * k, i - 1);
      MulMono(Pow2(32 * k), Pow2(i - 1), top);
    }
  }

  // ---------- shifts ----------

  /** 32-bit words split at a bit position: p = 2^k low values, q = 2^(32-k) high values. */
  ghost predicate WordSplit(k: nat, p: nat, q: nat) {
    k < 32 && p == Pow2(k) && q == Pow2(32 - k) && p * q == 0x1_0000_0000
  }

  lemma SplitWord(k: nat)
    requires k < 32
    ensures WordSplit(k, Pow2(k), Pow2(32 - k))
  {
    Pow2Word();
    Pow2Add(k, 32 - k);
  }

  /** Word x shifted right, with the low bits of the word above moved in on top. */
  function Joined(x: nat, above: nat, p: nat, q: nat): (r: nat)
    requires p > 0
  {
    x / p + (above % p) * q
  }

  /** Word j, or 0 above the top. */
  function At(s: seq<u32>, j: nat): u32 {
    if j < |s| then s[j] else 0
  }

  lemma JoinedFits(x: u32, above: u32, p: nat, q: nat)
    requires p > 0 && p * q == 0x1_0000_0000
    ensures x / p < q
    ensures 0 <= (above % p) * q <= 0x1_0000_0000 - q
  {
    MulMono(q, above % p, p - 1);
    MulDist(q, p, 1);
    DivBelow(x, p, q);
  }

  lemma JoinedByOr(x: u32, above: u32, k: nat, p: nat, q: nat)
    requires WordSplit(k, p, q)
    ensures p > 0 && Or(Shr(x, k), Shl(And(above, LowMask(k)), 32 - k)) == Joined(x, above, p, q) < 0x1_0000_0000
  {
    var low, high := JoinParts(x, above, k, p, q);
    hide *;
    OrDisjoint(low, high, 32 - k);
  }

  lemma JoinParts(x: u32, above: u32, k: nat, p: nat, q: nat) returns (low: nat, high: nat)
    requires WordSplit(k, p, q)
    ensures p > 0 && low + high == Joined(x, above, p, q) < 0x1_0000_0000
    ensures low == Shr(x, k) < Pow2(32 - k)
    ensures high == Shl(And(above, LowMask(k)), 32 - k) && high % Pow2(32 - k) == 0
  {
    hide LowMask, And, Pow2, Shl;
    MaskTables(k);
    AndLow(above, k);
    JoinedFits(x, above, p, q);
    ShlLow(above % p, 32 - k, q);
    low, high := x / p, (above % p) * q;
  }

  lemma ShlLow(low: u32, j: nat, q: nat)
    requires q == Pow2(j) && low * q < 0x1_0000_0000
    ensures Shl(low, j) == low * q && (low * q) % q == 0
  {
    DivUnique(low * q, 0x1_0000_0000, 0, low * q);
    DivUnique(low * q, q, low, 0);
  }

  lemma {:induction false} ShiftRightVal(t: seq<u32>, r: seq<u32>, p: nat, q: nat)
    requires p > 0 && p * q == 0x1_0000_0000 && |r| == |t|
    requires forall j :: 0 <= j < |t| ==> r[j] == Joined(t[j], At(t, j + 1), p, q)
    ensures Val(r) == Val(t) / p
    ensures Val(t) % p == At(t, 0) % p
  {
    hide Joined;
    if t != [] {
      var t', r' := t[1..], r[1..];
      forall j | 0 <= j < |t'|
        ensures r'[j] == Joined(t'[j], At(t', j + 1), p, q)
      {
        assert r'[j] == r[j + 1] && At(t', j + 1) == At(t, j + 1 + 1);
      }
      ShiftRightVal(t', r', p, q);
      assert At(t', 0) == At(t, 0 + 1);
      ShiftRightHead(t[0], At(t, 1), Val(t'), p, q);
    }
  }

  lemma ShiftRightHead(x: u32, above: u32, v: nat, p: nat, q: nat)
    requires p > 0 && p * q == 0x1_0000_0000 && v % p == above % p
    ensures (x + 0x1_0000_0000 * v) / p == Joined(x, above, p, q) + 0x1_0000_0000 * (v / p)
    ensures (x + 0x1_0000_0000 * v) % p == x % p
  {
    MulAssoc(p, q, v);
    MulAssoc(q, p, v / p);
    MulDist(q, p * (v / p), v % p);
    MulDist(p, x / p, q * v);
    DivUnique(x + 0x1_0000_0000 * v, p, x / p + q * v, x % p);
  }

  /** Dropping whole words divides by their weight. */
  lemma DropWords(s: seq<u32>, i: nat)
    ensures Val(s) / Weight(i) == if i <= |s| then Val(s[i..]) else 0
  {
    if i <= |s| {
      ValSplit(s, i);
      ValBound(s[..i]);
      DivUnique(Val(s), Weight(i), Val(s[i..]), Val(s[..i]));
    } else {
      ValBound(s);
      WeightMono(|s|, i);
      DivUnique(Val(s), Weight(i), 0, Val(s));
    }
  }

  lemma SplitShift(wo: nat, k: nat)
    ensures Pow2(32 * wo + k) == Weight(wo) * Pow2(k)
  {
    WeightIsPow2(wo);
    Pow2Add(32 * wo, k);
  }

  lemma DivByShift(x: nat, wo: nat, k: nat)
    ensures x / Pow2(32 * wo + k) == x / Weight(wo) / Pow2(k)
  {
    SplitShift(wo, k);
    DivDiv(x, Weight(wo), Pow2(k));
  }

  lemma {:induction false} ZerosVal(z: seq<u32>)
    requires forall j :: 0 <= j < |z| ==> z[j] == 0
    ensures Val(z) == 0
  {
    if z != [] {
      ZerosVal(z[1..]);
    }
  }

  lemma ShiftedRight(s: seq<u32>, v: seq<u32>, wo: nat, k: nat, p: nat, q: nat)
    requires WordSplit(k, p, q) && p > 0 && |v| == |s|
    requires forall j :: 0 <= j < |s| ==> v[j] == Joined(At(s, j + wo), At(s, j + wo + 1), p, q)
    ensures Val(v) == Val(s) / Pow2(32 * wo + k)
  {
    hide Joined, Val, Pow2, Weight;
    DivByShift(Val(s), wo, k);
    DropWords(s, wo);
    ShiftedWords(s, v, wo, p, q);
  }

  lemma ShiftedWords(s: seq<u32>, v: seq<u32>, wo: nat, p: nat, q: nat)
    requires p > 0 && p * q == 0x1_0000_0000 && |v| == |s|
    requires forall j :: 0 <= j < |s| ==> v[j] == Joined(At(s, j + wo), At(s, j + wo + 1), p, q)
    ensures Val(v) == (if wo <= |s| then Val(s[wo..]) else 0) / p
  {
    hide Joined, Val;
    JoinedZero(p, q);
    var keep := if wo <= |s| then |s| - wo else 0;
    SplitAtZeros(v, keep);
    if wo <= |s| {
      KeptWords(s, v[..keep], wo, p, q);
    } else {
      assert v[..0] == [];
      ZerosVal(v[..0]);
    }
  }

  lemma SplitAtZeros(v: seq<u32>, keep: nat)
    requires keep <= |v| && forall j :: keep <= j < |v| ==> v[j] == 0
    ensures Val(v) == Val(v[..keep])
  {
    ValSplit(v, keep);
    ZerosVal(v[keep..]);
  }

  lemma JoinedZero(p: nat, q: nat)
    requires p > 0
    ensures Joined(0, 0, p, q) == 0 == 0 / p
  {
    DivUnique(0, p, 0, 0);
  }

  lemma KeptWords(s: seq<u32>, r: seq<u32>, wo: nat, p: nat, q: nat)
    requires p > 0 && p * q == 0x1_0000_0000 && wo <= |s| && |r| == |s| - wo
    requires forall j :: 0 <= j < |r| ==> r[j] == Joined(At(s, j + wo), At(s, j + wo + 1), p, q)
    ensures Val(r) == Val(s[wo..]) / p
  {
    hide Joined, Val;
    var t := s[wo..];
    forall j | 0 <= j < |t|
      ensures r[j] == Joined(t[j], At(t, j + 1), p, q)
    {
      assert At(s, j + wo) == t[j] && At(s, j + wo + 1) == At(t, j + 1);
    }
    ShiftRightVal(t, r, p, q);
  }

  /** Word j when the first i words have been dealt with: the last of them still lacks the bits from above. */
  function Shifting(s: seq<u32>, j: nat, i: nat, wo: nat, k: nat, p: nat, q: nat): nat
    requires p > 0
  {
    if j >= i then At(s, j)
    else if j + 1 == i && i + wo < |s| then Shr(At(s, j + wo), k)
    else Joined(At(s, j + wo), At(s, j + wo + 1), p, q)
  }

  ghost predicate PartlyShifted(t: seq<u32>, s: seq<u32>, i: nat, wo: nat, k: nat, p: nat, q: nat) {
    p > 0 && |t| == |s| && forall j :: 0 <= j < |s| ==> t[j] == Shifting(s, j, i, wo, k, p, q)
  }

  lemma NothingAbove(t: seq<u32>, s: seq<u32>, i: nat, wo: nat, k: nat, p: nat, q: nat)
    requires PartlyShifted(t, s, i, wo, k, p, q) && i < |s| <= i + wo
    ensures PartlyShifted(t[i := 0], s, i + 1, wo, k, p, q)
  {
    hide Joined, Shr;
    JoinedZero(p, q);
  }

  lemma WordsAhead(t: seq<u32>, s: seq<u32>, i: nat, wo: nat, k: nat, p: nat, q: nat)
    requires PartlyShifted(t, s, i, wo, k, p, q) && i + wo < |s|
    ensures t[i + wo] == s[i + wo] && (i > 0 ==> t[i - 1] == Shr(s[i - 1 + wo], k))
  {
    hide Joined, Shr;
  }

  lemma OneMoreWord(t: seq<u32>, next: seq<u32>, s: seq<u32>, i: nat, wo: nat, k: nat, p: nat, q: nat)
    requires PartlyShifted(t, s, i, wo, k, p, q) && WordSplit(k, p, q) && i + wo < |s| == |next|
    requires next[i] == Shr(s[i + wo], k)
    requires i > 0 ==> next[i - 1] == Joined(s[i - 1 + wo], s[i + wo], p, q)
    requires forall j :: 0 <= j < |s| && j != i - 1 && j != i ==> next[j] == t[j]
    ensures PartlyShifted(next, s, i + 1, wo, k, p, q)
  {
    hide Joined, Shr, WordSplit;
    JoinedLast(s[i + wo], k, p, q);
  }

  method ShiftRight(v: Word32s, n: nat)
    modifies v
    ensures Val(v.elems) == Val(old(v.elems)) / Pow2(n)
    ensures Canonical(v.elems)
  {
    hide Joined, Shr, Shl, Or, And, LowMask, WordSplit, Pow2, Val, Trim, PartlyShifted;
    var wordOff, bitOff := n / 32, n % 32;
    var mask := LowMask(bitOff);
    ghost var s, p, q := v.elems, Pow2(bitOff), Pow2(32 - bitOff);
    StartShifting(s, wordOff, bitOff);
    for i := 0 to |v.elems|
      invariant |v.elems| == |s| && PartlyShifted(v.elems, s, i, wordOff, bitOff, p, q)
    {
      ghost var t := v.elems;
      if i + wordOff >= |v.elems| {
        NothingAbove(t, s, i, wordOff, bitOff, p, q);
        v.elems := v.elems[i := 0];
        continue;
      }
      WordsAhead(t, s, i, wordOff, bitOff, p, q);
      v.elems := v.elems[i := v.elems[i + wordOff]];
      if i > 0 {
        var r := Shl(And(v.elems[i], mask), 32 - bitOff);
        JoinedByOr(s[i - 1 + wordOff], s[i + wordOff], bitOff, p, q);
        v.elems := v.elems[i - 1 := Or(v.elems[i - 1], r)];
      }
      v.elems := v.elems[i := Shr(v.elems[i], bitOff)];
      OneMoreWord(t, v.elems, s, i, wordOff, bitOff, p, q);
    }
    EndShifting(s, v.elems, wordOff, bitOff, p, q);
    TrimVal(v.elems);
    Cleanup(v, 0);
  }

  lemma StartShifting(s: seq<u32>, wo: nat, k: nat)
    requires k < 32
    ensures WordSplit(k, Pow2(k), Pow2(32 - k)) && PartlyShifted(s, s, 0, wo, k, Pow2(k), Pow2(32 - k))
  {
    SplitWord(k);
    hide Pow2, Joined, Shr;
  }

  lemma EndShifting(s: seq<u32>, t: seq<u32>, wo: nat, k: nat, p: nat, q: nat)
    requires WordSplit(k, p, q) && PartlyShifted(t, s, |s|, wo, k, p, q)
    ensures Val(t) == Val(s) / Pow2(32 * wo + k)
  {
    hide Joined, Shr, WordSplit, Val, Pow2;
    forall j | 0 <= j < |s|
      ensures t[j] == Joined(At(s, j + wo), At(s, j + wo + 1), p, q)
    {
      if wo == 0 && j + 1 == |s| {
        JoinedLast(s[j], k, p, q);
      }
    }
    ShiftedRight(s, t, wo, k, p, q);
  }

  lemma JoinedLast(x: u32, k: nat, p: nat, q: nat)
    requires WordSplit(k, p, q) && p > 0
    ensures Shr(x, k) == Joined(x, 0, p, q)
  {
    DivUnique(0, p, 0, 0);
  }

  /** Word x shifted left, with the high bits of the word below carried in underneath. */
  function Carried(x: nat, below: nat, p: nat, q: nat): (r: nat)
    requires q > 0
  {
    (x * p) % 0x1_0000_0000 + below / q
  }

  /** The word beneath word j, or `first` beneath the lowest. */
  function Beneath(s: seq<u32>, j: nat, first: u32): u32 {
    if 0 < j <= |s| then s[j - 1] else first
  }

  lemma CarriedParts(x: u32, below: u32, p: nat, q: nat)
    requires p * q == 0x1_0000_0000 && q > 0
    ensures below / q < p
    ensures (x * p) % 0x1_0000_0000 == p * (x % q)
    ensures (x * p) % 0x1_0000_0000 + 0x1_0000_0000 * (x / q) == x * p
    ensures (x * p) % 0x1_0000_0000 <= 0x1_0000_0000 - p
  {
    DivBelow(below, q, p);
    MulDist(p, q * (x / q), x % q);
    MulAssoc(p, q, x / q);
    MulMono(p, x % q, q - 1);
    MulDist(p, q, 1);
    DivUnique(x * p, 0x1_0000_0000, x / q, p * (x % q));
  }

  lemma HighBits(y: u32, k: nat)
    requires k < 32
    ensures Shr(And(y, HighMask(k)), 32 - k) == y / Pow2(32 - k)
  {
    if k == 0 {
      Pow2Word();
      DivUnique(y, 0x1_0000_0000, 0, y);
    } else {
      hide And, HighMask, Pow2;
      Pow2Word();
      MaskTables(k);
      AndHigh(y, 32 - k, 32, HighMask(k));
      WholeParts(y, Pow2(32 - k));
    }
  }

  lemma WholeParts(y: nat, p: nat)
    requires p > 0
    ensures (y - y % p) / p == y / p
  {
    DivUnique(y - y % p, p, y / p, 0);
  }

  lemma CarriedByOr(x: u32, below: u32, k: nat, p: nat, q: nat)
    requires WordSplit(k, p, q)
    ensures q > 0 && Or(Shl(x, k), Shr(And(below, HighMask(k)), 32 - k)) == Carried(x, below, p, q) < 0x1_0000_0000
  {
    hide Or, And, HighMask, Pow2;
    HighBits(below, k);
    CarriedParts(x, below, p, q);
    DivUnique(p * (x % q), p, x % q, 0);
    OrDisjoint(below / q, Shl(x, k), k);
  }

  lemma CarriedFirst(x: u32, k: nat, p: nat, q: nat)
    requires WordSplit(k, p, q) && q > 0
    ensures Shl(x, k) == Carried(x, 0, p, q)
    ensures Carried(0, 0, p, q) == 0
  {
    DivUnique(0, q, 0, 0);
  }

  lemma {:induction false} ShiftLeftVal(t: seq<u32>, r: seq<u32>, below: u32, p: nat, q: nat)
    requires q > 0 && p * q == 0x1_0000_0000 && |r| == |t| > 0 && t[|t| - 1] == 0
    requires forall j :: 0 <= j < |t| ==> r[j] == Carried(t[j], Beneath(t, j, below), p, q)
    ensures Val(r) == p * Val(t) + below / q
  {
    hide Carried;
    var x, v := t[0], Val(t[1..]);
    CarriedHead(x, below, v, p, q);
    if |t| > 1 {
      var t', r' := t[1..], r[1..];
      forall j | 0 <= j < |t'|
        ensures r'[j] == Carried(t'[j], Beneath(t', j, x), p, q)
      {
        assert r'[j] == r[j + 1] && Beneath(t, j + 1, below) == Beneath(t', j, x);
      }
      ShiftLeftVal(t', r', x, p, q);
    } else {
      DivUnique(0, q, 0, 0);
    }
  }

  lemma CarriedHead(x: u32, below: u32, v: nat, p: nat, q: nat)
    requires q > 0 && p * q == 0x1_0000_0000
    ensures Carried(x, below, p, q) + 0x1_0000_0000 * (p * v + x / q) == p * (x + 0x1_0000_0000 * v) + below / q
  {
    CarriedParts(x, below, p, q);
    MulDist(p, x, 0x1_0000_0000 * v);
    MulAssoc(p, 0x1_0000_0000, v);
  }

  lemma ShiftedLeft(s: seq<u32>, v: seq<u32>, wo: nat, k: nat, p: nat, q: nat)
    requires WordSplit(k, p, q) && q > 0 && |v| == |s| + wo + 1
    requires forall j :: 0 <= j < wo ==> v[j] == 0
    requires forall j :: wo <= j < |v| ==>
      v[j] == Carried(At(s, j - wo), if j == wo then 0 else At(s, j - wo - 1), p, q)
    ensures Val(v) == Val(s) * Pow2(32 * wo + k)
  {
    hide Carried, Pow2, Weight, Val;
    var t, r := s + [0], v[wo..];
    forall j | 0 <= j < |t|
      ensures r[j] == Carried(t[j], Beneath(t, j, 0), p, q)
    {
      assert r[j] == v[j + wo] && t[j] == At(s, j + wo - wo);
      assert j > 0 ==> t[j - 1] == At(s, j + wo - wo - 1);
    }
    ShiftLeftVal(t, r, 0, p, q);
    DivUnique(0, q, 0, 0);
    ValSnoc(s, 0);
    ValSplit(v, wo);
    ZerosVal(v[..wo]);
    SplitShift(wo, k);
    MulAssoc(Weight(wo), p, Val(s));
  }

  method ShiftLeft(v: Word32s, n: nat)
    modifies v
    ensures Val(v.elems) == Val(old(v.elems)) * Pow2(n)
    ensures Canonical(v.elems)
  {
    hide Carried, Shr, Shl, Or, And, HighMask, WordSplit, Pow2, Val, Trim;
    var wordOff, bitOff := n / 32, n % 32;
    var mask := HighMask(bitOff);
    ghost var s, p, q := v.elems, Pow2(bitOff), Pow2(32 - bitOff);
    SplitWord(bitOff);
    for i := 0 to wordOff + 1
      invariant v.elems == s + seq(i, _ => 0)
    {
      v.PushBack(0);
    }
    for i := |v.elems| downto 0
      invariant |v.elems| == |s| + wordOff + 1
      invariant forall j :: 0 <= j < i ==> v.elems[j] == At(s, j)
      invariant forall j :: i <= j < |v.elems| && j < wordOff ==> v.elems[j] == 0
      invariant forall j :: i <= j < |v.elems| && j >= wordOff ==>
        v.elems[j] == if j == i || j == wordOff then Shl(At(s, j - wordOff), bitOff)
          else Carried(At(s, j - wordOff), At(s, j - wordOff - 1), p, q)
    {
      if i < wordOff {
        v.elems := v.elems[i := 0];
        continue;
      }
      v.elems := v.elems[i := v.elems[i - wordOff]];
      if i < |v.elems| - 1 {
        var r := Shr(And(v.elems[i], mask), 32 - bitOff);
        CarriedByOr(At(s, i + 1 - wordOff), At(s, i - wordOff), bitOff, p, q);
        v.elems := v.elems[i + 1 := Or(v.elems[i + 1], r)];
      }
      v.elems := v.elems[i := Shl(v.elems[i], bitOff)];
    }
    CarriedFirst(At(s, 0), bitOff, p, q);
    ShiftedLeft(s, v.elems, wordOff, bitOff, p, q);
    TrimVal(v.elems);
    Cleanup(v, 0);
  }

  /** Digits above a low part of weight w. */
  function Above(low: nat, w: nat, digits: nat): nat {
    low + w * digits
  }

  lemma KeptLow(s: seq<u32>, v: seq<u32>, wo: nat, k: nat, p: nat, q: nat)
    requires WordSplit(k, p, q) && wo < |s| == |v| && p > 0
    requires v[..wo] == s[..wo] && v[wo] == s[wo] % p
    requires forall j :: wo < j < |v| ==> v[j] == 0
    ensures Val(v) == Val(s) % Pow2(32 * wo + k)
  {
    hide Pow2, Weight, Val, Above;
    KeptPrefix(s, v, wo);
    WordOut(s, wo);
    ValBound(s[..wo]);
    SplitShift(wo, k);
    AboveMod(Val(s), Val(v), Val(s[..wo]), Weight(wo), s[wo], v[wo], Val(s[wo + 1..]), p, q, Pow2(32 * wo + k));
  }

  lemma KeptPrefix(s: seq<u32>, v: seq<u32>, wo: nat)
    requires wo < |s| == |v| && v[..wo] == s[..wo]
    requires forall j :: wo < j < |v| ==> v[j] == 0
    ensures Val(v) == Above(Val(s[..wo]), Weight(wo), v[wo])
  {
    hide Val, Weight;
    SplitAtZeros(v, wo + 1);
    ValPrefix(v, wo);
  }

  lemma WordOut(s: seq<u32>, i: nat)
    requires i < |s|
    ensures Val(s) == Above(Val(s[..i]), Weight(i), s[i] + 0x1_0000_0000 * Val(s[i + 1..]))
  {
    hide Val, Weight;
    ValSplit(s, i);
    ValHead(s, i);
  }

  lemma AboveMod(all: nat, kept: nat, low: nat, w: nat, x: nat, d: nat, rest: nat, p: nat, q: nat, modulus: nat)
    requires low < w && p > 0 && p * q == 0x1_0000_0000 && d == x % p && modulus == w * p > 0
    requires all == Above(low, w, x + 0x1_0000_0000 * rest) && kept == Above(low, w, d)
    ensures all % modulus == kept
  {
    var c := x / p + q * rest;
    MulAssoc(p, q, rest);
    MulDist(p, x / p, q * rest);
    MulDist(w, p * c, d);
    MulAssoc(w, p, c);
    MulMono(w, d, p - 1);
    MulDist(w, p, 1);
    DivUnique(all, w * p, c, kept);
  }

  /** Nothing is cleaned up when there are no words to cut. */
  method KeepOnly(v: Word32s, n: nat)
    modifies v
    ensures Val(v.elems) == Val(old(v.elems)) % Pow2(n)
    ensures Canonical(v.elems) <==> n / 32 < |old(v.elems)| || Canonical(old(v.elems))
    ensures n / 32 >= |old(v.elems)| ==> v.elems == old(v.elems)
  {
    hide Pow2, Val, Trim, And, LowMask, Weight;
    var wordOff, bitOff := n / 32, n % 32;
    if wordOff >= |v.elems| {
      AlreadySmall(v.elems, n);
      return;
    }
    ghost var s, p := v.elems, Pow2(bitOff);
    var mask := LowMask(bitOff);
    MaskTables(bitOff);
    AndLow(v.elems[wordOff], bitOff);
    v.elems := v.elems[wordOff := And(v.elems[wordOff], mask)];
    for i := wordOff + 1 to |v.elems|
      invariant |v.elems| == |s| && v.elems[..wordOff] == s[..wordOff] && v.elems[wordOff] == s[wordOff] % p
      invariant forall j :: wordOff < j < i ==> v.elems[j] == 0
    {
      v.elems := v.elems[i := 0];
    }
    SplitWord(bitOff);
    KeptLow(s, v.elems, wordOff, bitOff, p, Pow2(32 - bitOff));
    TrimVal(v.elems);
    Cleanup(v, 0);
  }

  lemma AlreadySmall(s: seq<u32>, n: nat)
    requires n / 32 >= |s|
    ensures Val(s) % Pow2(n) == Val(s)
  {
    ValBound(s);
    WeightIsPow2(|s|);
    Pow2Mono(32 * |s|, n);
    DivUnique(Val(s), Pow2(n), 0, Val(s));
  }
}
