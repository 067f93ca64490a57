/** In-place addition and subtraction of word arrays. */
module AddSub {
  import opened Arith
  import opened Arrays
  import opened WordMath
  import opened Words

  /** One word written, the excess carried into the next. */
  lemma CarryStep(s: seq<u32>, i: nat, x: u32, carryIn: int, carryOut: int)
    requires i < |s| && x == carryIn + s[i] - 0x1_0000_0000 * carryOut
    ensures Val(s[i := x]) + carryOut * Weight(i + 1) == Val(s) + carryIn * Weight(i)
  {
    hide Val;
    ValUpdate(s, i, x);
    var w, d: int := Weight(i), x - s[i];
    MulAssoc(carryOut, 0x1_0000_0000, w);
    MulDist(w, carryIn, 0x1_0000_0000 * carryOut);
  }

  lemma NextTerm(b: seq<u32>, p: nat, shift: nat)
    requires p < |b|
    ensures Weight(shift) * Val(b[..p + 1]) == Weight(shift) * Val(b[..p]) + b[p] * Weight(shift + p)
  {
    hide Val, Weight;
    ValPrefix(b, p);
    WeightAdd(shift, p);
    MulDist(Weight(shift), Val(b[..p]), Weight(p) * b[p]);
    MulAssoc(Weight(shift), Weight(p), b[p]);
  }

  /** The sum so far: `p` words of b have gone into a, `carry` is still to come. */
  ghost predicate Summed(now: seq<u32>, carry: nat, was: seq<u32>, b: seq<u32>, p: nat, shift: nat) {
    p <= |b| && Val(now) + carry * Weight(shift + p) == Val(was) + Weight(shift) * Val(b[..p])
  }

  lemma SumStep(now: seq<u32>, carry: nat, carryOut: nat, x: u32, was: seq<u32>, b: seq<u32>, p: nat, shift: nat)
    requires Summed(now, carry, was, b, p, shift) && p < |b| && shift + p < |now|
    requires x == carry + b[p] + now[shift + p] - 0x1_0000_0000 * carryOut
    ensures Summed(now[shift + p := x], carryOut, was, b, p + 1, shift)
  {
    hide Val, Weight;
    CarryStep(now, shift + p, x, carry + b[p], carryOut);
    NextTerm(b, p, shift);
    MulDist(Weight(shift + p), carry, b[p]);
  }

  /**
   a += b * 2^(32*bShift); a may be b itself when nothing is shifted.
   The inner loop is one pass of the 20-fold unrolled switch.
   */
  method Add(a: Word32s, b: Word32s, bShift: nat := 0)
    requires a != b || bShift == 0
    modifies a
    ensures Val(a.elems) == Val(old(a.elems)) + Weight(bShift) * Val(old(b.elems))
    ensures Canonical(a.elems)
  {
    hide Val, Weight, Trim, Canonical, Summed;
    ghost var a0, b0 := a.elems, b.elems;
    while |a.elems| < |b.elems| + bShift
      invariant Val(a.elems) == Val(a0) && b.elems == b0
    {
      ValSnoc(a.elems, 0);
      a.PushBack(0);
    }
    var carry: u64 := 0;
    var lcount := Min(|a.elems| - bShift, |b.elems|);
    assert lcount == |b0|;
    ghost var size := |a.elems|;
    var p, i := 0, 0;
    SumStart(a.elems, a0, b0, bShift);
    while i < lcount
      invariant |a.elems| == size && carry <= 1
      invariant p == if i <= lcount then i else lcount
      invariant Summed(a.elems, carry, a0, b0, p, bShift)
      invariant |b.elems| == |b0| && forall j :: p <= j < |b0| ==> b.elems[j] == b0[j]
    {
      var steps := Min(20, lcount - i);
      while steps > 0
        invariant 0 <= steps && carry <= 1 && |a.elems| == size
        invariant p + steps == if i + 20 <= lcount then i + 20 else lcount
        invariant Summed(a.elems, carry, a0, b0, p, bShift)
        invariant |b.elems| == |b0| && forall j :: p <= j < |b0| ==> b.elems[j] == b0[j]
      {
        ghost var now, c := a.elems, carry;
        carry := carry + b.elems[p];
        carry := carry + a.elems[bShift + p];
        var x := carry % 0x1_0000_0000;
        a.elems := a.elems[bShift + p := x];
        carry := carry / 0x1_0000_0000;
        SumStep(now, c, carry, x, a0, b0, p, bShift);
        p, steps := p + 1, steps - 1;
      }
      i := i + 20;
    }
    SumEnd(a.elems, carry, a0, b0, bShift);
    Propagate(a, lcount + bShift, carry);
    TrimVal(a.elems);
    Cleanup(a, 0);
  }

  lemma SumStart(now: seq<u32>, was: seq<u32>, b: seq<u32>, shift: nat)
    requires Val(now) == Val(was)
    ensures Summed(now, 0, was, b, 0, shift)
  {
    assert b[..0] == [];
  }

  lemma SumEnd(now: seq<u32>, carry: nat, was: seq<u32>, b: seq<u32>, shift: nat)
    requires Summed(now, carry, was, b, |b|, shift)
    ensures Val(now) + carry * Weight(|b| + shift) == Val(was) + Weight(shift) * Val(b)
  {
    assert b[..|b|] == b;
  }

  /** The last loop of add: the carry runs up from word `from`, past the end if need be. */
  method Propagate(a: Word32s, from: nat, c: u64)
    requires c <= 1 && from <= |a.elems|
    modifies a
    ensures Val(a.elems) == Val(old(a.elems)) + c * Weight(from)
  {
    hide Val, Weight;
    var carry: u64, i := c, from;
    while carry > 0
      invariant carry <= 1 && from <= i <= |a.elems|
      invariant Val(a.elems) + carry * Weight(i) == Val(old(a.elems)) + c * Weight(from)
      decreases carry, |a.elems| - i
    {
      if i == |a.elems| {
        ValSnoc(a.elems, carry);
        a.PushBack(carry);
        return;
      } else {
        ghost var now, carryIn := a.elems, carry;
        carry := carry + a.elems[i];
        var x := carry % 0x1_0000_0000;
        a.elems := a.elems[i := x];
        carry := carry / 0x1_0000_0000;
        CarryStep(now, i, x, carryIn, carry);
      }
      i := i + 1;
    }
  }

  // ---------- subtraction ----------

  /** What is left of a while b's low i words have been taken off. */
  ghost predicate Reduced(now: seq<u32>, was: seq<u32>, b: seq<u32>, i: nat) {
    |now| == |was| && i <= |b| && Val(now) + Val(b[..i]) == Val(was)
  }

  /** Where a borrow is needed, and b is not larger than a, some higher word is not zero. */
  lemma LenderExists(now: seq<u32>, was: seq<u32>, b: seq<u32>, i: nat)
    requires Reduced(now, was, b, i) && i < |now| && i < |b|
    requires Val(b) <= Val(was) && now[i] < b[i]
    ensures exists j :: i < j < |now| && now[j] != 0
  {
    hide Val, Weight;
    if forall j :: i < j < |now| ==> now[j] == 0 {
      var w := Weight(i);
      SplitAtZeros(now, i + 1);
      ValPrefix(now, i);
      ValBound(now[..i]);
      ValSplit(b, i);
      ValSplit(b[i..], 1);
      assert b[i..][..1] == [b[i]];
      ValOne(b[i]);
      MulMono(w, b[i], Val(b[i..]));
      MulMono(w, now[i] as int + 1, b[i]);
      MulDist(w, now[i], 1);
    }
  }

  /** A borrow that has run through the words i+1..j: they turned from 0 to all ones. */
  lemma BorrowStep(s: seq<u32>, j: nat)
    requires j < |s| && s[j] == 0
    ensures Val(s[j := 0xFFFF_FFFF]) + Weight(j) == Val(s) + Weight(j + 1)
  {
    ValUpdate(s, j, 0xFFFF_FFFF);
  }

  lemma LendStep(s: seq<u32>, j: nat)
    requires j < |s| && s[j] > 0
    ensures Val(s[j := s[j] - 1]) + Weight(j) == Val(s)
  {
    ValUpdate(s, j, s[j] - 1);
  }

  /** The digit is written after the borrow has been taken. */
  lemma DigitStep(now: seq<u32>, s: seq<u32>, was: seq<u32>, b: seq<u32>, i: nat, borrow: int)
    requires Reduced(now, was, b, i) && i < |now| == |s| && i < |b| && s[i] == now[i]
    requires Val(s) + borrow * Weight(i + 1) == Val(now)
    requires 0 <= s[i] + 0x1_0000_0000 * borrow - b[i] < 0x1_0000_0000
    ensures Reduced(s[i := s[i] + 0x1_0000_0000 * borrow - b[i]], was, b, i + 1)
  {
    hide Val, Weight;
    ValUpdate(s, i, s[i] + 0x1_0000_0000 * borrow - b[i]);
    ValPrefix(b, i);
    BorrowIsBase(borrow, i);
    MulDist(Weight(i), 0x1_0000_0000 * borrow, b[i]);
  }

  lemma BorrowIsBase(borrow: int, i: nat)
    ensures borrow * Weight(i + 1) == Weight(i) * (0x1_0000_0000 * borrow)
  {
    MulAssoc(borrow, 0x1_0000_0000, Weight(i));
  }

  /** a -= b, refused when b is larger; a may be b itself. */
  method Subtract(a: Word32s, b: Word32s) returns (st: Outcome)
    requires Canonical(a.elems) && Canonical(b.elems)
    modifies a
    ensures st == if Val(old(a.elems)) < Val(old(b.elems)) then LogicError else Ok
    ensures st == LogicError ==> a.elems == old(a.elems)
    ensures st == Ok ==> Canonical(a.elems) && Val(a.elems) == Val(old(a.elems)) - Val(old(b.elems))
  {
    hide Val, Weight, Trim, Canonical, Reduced;
    var less := IsLess(a, b);
    if less {
      return LogicError;
    }
    ghost var a0, b0 := a.elems, b.elems;
    var i := 0;
    ReducedStart(a0, b0);
    while i < |a.elems| && i < |b.elems|
      invariant |a.elems| == |a0| && |b.elems| == |b0| && i <= |a0| && i <= |b0|
      invariant Reduced(a.elems, a0, b0, i)
      invariant b.elems[i..] == b0[i..]
      decreases |a0| - i
    {
      assert b.elems[i] == b0[i];
      ghost var now, borrow := a.elems, 0;
      var top: u64 := a.elems[i];
      if a.elems[i] < b.elems[i] {
        LenderExists(now, a0, b0, i);
        Borrow(a, i);
        top, borrow := top + 0x1_0000_0000, 1;
      }
      DigitStep(now, a.elems, a0, b0, i, borrow);
      a.elems := a.elems[i := (top - b.elems[i]) % 0x1_0000_0000];
      i := i + 1;
    }
    ReducedEnd(a.elems, a0, b0, i);
    TrimVal(a.elems);
    Cleanup(a, 0);
    return Ok;
  }

  lemma ReducedStart(a: seq<u32>, b: seq<u32>)
    ensures Reduced(a, a, b, 0)
  {
    assert b[..0] == [];
  }

  lemma ReducedEnd(now: seq<u32>, was: seq<u32>, b: seq<u32>, i: nat)
    requires Reduced(now, was, b, i) && (i == |was| || i == |b|)
    requires Canonical(was) && Canonical(b) && Val(b) <= Val(was)
    ensures Val(now) == Val(was) - Val(b)
  {
    if i < |b| {
      LongerIsLarger(was, b);
    }
    assert b[..|b|] == b;
  }

  /** The borrow loop: a scan upwards to the first word that can lend. */
  method Borrow(a: Word32s, i: nat)
    requires exists j :: i < j < |a.elems| && a.elems[j] != 0
    modifies a
    ensures |a.elems| == |old(a.elems)| && a.elems[..i + 1] == old(a.elems)[..i + 1]
    ensures Val(a.elems) + Weight(i + 1) == Val(old(a.elems))
  {
    hide Val, Weight;
    ghost var lender :| i < lender < |a.elems| && a.elems[lender] != 0;
    ghost var a0 := a.elems;
    var j := i + 1;
    while a.elems[j] == 0
      invariant i < j <= lender < |a.elems| == |a0|
      invariant a.elems[..i + 1] == a0[..i + 1] && a.elems[j..] == a0[j..]
      invariant Val(a.elems) + Weight(i + 1) == Val(a0) + Weight(j)
      decreases lender - j
    {
      assert a.elems[j] == a0[j];
      assert a.elems[lender] == a0[j..][lender - j];
      BorrowStep(a.elems, j);
      a.elems := a.elems[j := 0xFFFF_FFFF];
      j := j + 1;
    }
    LendStep(a.elems, j);
    a.elems := a.elems[j := a.elems[j] - 1];
  }
}
