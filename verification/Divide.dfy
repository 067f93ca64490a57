/** Long division with an estimated digit, and the greatest common divisor by division. */
module Divide {
  import opened Arith
  import opened Arrays
  import opened WordMath
  import opened Words
  import opened AddSub
  import opened Multiply

  /** A digit estimated from leading words only is never too small. */
  lemma Overestimate(d: nat, b: nat, r: nat, w: nat, bTop: nat, rTop: nat)
    requires d * b <= r < w * (rTop + 1) && w * bTop <= b && bTop > 0 && w > 0
    ensures d <= rTop / bTop
  {
    MulMono(d, w * bTop, b);
    MulAssoc(d, w, bTop);
    MulAssoc(w, d, bTop);
    if d * bTop > rTop {
      MulMono(w, rTop + 1, d * bTop);
    }
    DivBound(rTop, bTop);
    if d > rTop / bTop {
      MulMono(bTop, rTop / bTop + 1, d);
      MulDist(bTop, rTop / bTop, 1);
    }
  }

  /** The remainder with one more word brought down has the divisor's size or one more. */
  lemma RemainderSize(r: seq<u32>, b: seq<u32>)
    requires Canonical(r) && Canonical(b) && b != []
    requires Val(b) <= Val(r) < 0x1_0000_0000 * Val(b)
    ensures |r| == |b| || |r| == |b| + 1
  {
    hide Val, Canonical;
    CanonicalRange(r);
    CanonicalRange(b);
    if |r| < |b| {
      LongerIsLarger(r, b);
    } else if |r| > |b| + 1 {
      WeightMono(|b| + 1, |r| - 1);
    }
  }

  lemma TwoTopWords(r: seq<u32>)
    requires |r| >= 2
    ensures Val(r) < Weight(|r| - 2) * (r[|r| - 1] as int * 0x1_0000_0000 + r[|r| - 2] as int + 1)
  {
    hide Val;
    var k := |r| - 2;
    assert r[..k + 1][k] == r[k] && r[..k + 2] == r;
    ValTop(r[..k + 1]);
    ValPrefix(r, k + 1);
    var w, t: int, s: int := Weight(k), r[k + 1], r[k] as int + 1;
    MulDist(w, t * 0x1_0000_0000, s);
    MulAssoc(w, t, 0x1_0000_0000);
  }

  lemma QuotientFits(r: nat, b: nat)
    requires b > 0 && b <= r < 0x1_0000_0000 * b
    ensures 1 <= r / b < 0x1_0000_0000 && (r / b) * b <= r
  {
    DivBelow(r, b, 0x1_0000_0000);
    DivBound(r, b);
  }

  /** The true digit against the guess from one top word each. */
  lemma OneWordGuess(r: seq<u32>, b: seq<u32>)
    requires Canonical(b) && b != [] && |r| == |b| && Val(b) > 0 && Val(b) <= Val(r)
    ensures Val(r) / Val(b) <= r[|r| - 1] / b[|b| - 1]
  {
    hide Val, Weight;
    ValTop(b);
    ValTop(r);
    DivBound(Val(r), Val(b));
    Overestimate(Val(r) / Val(b), Val(b), Val(r), Weight(|b| - 1), b[|b| - 1], r[|r| - 1]);
  }

  /** The true digit against the guess from two top words of the remainder. */
  lemma TwoWordGuess(r: seq<u32>, b: seq<u32>, top: nat)
    requires Canonical(b) && b != [] && |r| == |b| + 1 && Val(b) > 0 && Val(b) <= Val(r)
    requires top == r[|r| - 1] as int * 0x1_0000_0000 + r[|r| - 2]
    ensures Val(r) / Val(b) <= top / b[|b| - 1]
  {
    hide Val, Weight;
    ValTop(b);
    TwoTopWords(r);
    DivBound(Val(r), Val(b));
    Overestimate(Val(r) / Val(b), Val(b), Val(r), Weight(|b| - 1), b[|b| - 1], top);
  }

  /** The digit guessed from the top word of b and the top one or two of the remainder. */
  method EstimateDigit(remainder: Word32s, b: Word32s) returns (digit: u32)
    requires Canonical(remainder.elems) && Canonical(b.elems) && b.elems != []
    requires Val(b.elems) <= Val(remainder.elems) < 0x1_0000_0000 * Val(b.elems)
    ensures Val(b.elems) > 0 && 1 <= Val(remainder.elems) / Val(b.elems) <= digit
  {
    hide Val;
    QuotientFits(Val(remainder.elems), Val(b.elems));
    RemainderSize(remainder.elems, b.elems);
    var bBack, rBack := b.elems[|b.elems| - 1], remainder.elems[|remainder.elems| - 1];
    if |remainder.elems| == |b.elems| {
      OneWordGuess(remainder.elems, b.elems);
      DivBound(rBack, bBack);
      digit := rBack / bBack;
    } else {
      assert |remainder.elems| == |b.elems| + 1;
      var top: u64 := rBack as u64 * 0x1_0000_0000 + remainder.elems[|remainder.elems| - 2];
      TwoWordGuess(remainder.elems, b.elems, top);
      DivBound(top, bBack);
      var digit64: u64 := top / bBack;
      if digit64 > 0xFFFF_FFFF {
        digit := 0xFFFF_FFFF;
      } else {
        digit := digit64;
      }
    }
  }

  /** Counts the guess down to the true digit: mult = digit * b is then the multiple to take off. */
  method CorrectDigit(remainder: Word32s, b: Word32s, mult: Word32s, guess: u32) returns (digit: u32)
    requires Canonical(remainder.elems) && Canonical(b.elems) && b.elems != []
    requires mult !in {remainder, b}
    requires Val(b.elems) > 0 && 1 <= Val(remainder.elems) / Val(b.elems) <= guess
    modifies mult
    ensures digit == Val(remainder.elems) / Val(b.elems)
    ensures Canonical(mult.elems) && Val(mult.elems) == digit * Val(b.elems) <= Val(remainder.elems)
  {
    hide Val, Canonical;
    ghost var vb, vr := Val(b.elems), Val(remainder.elems);
    DivBound(vr, vb);
    digit := guess;
    mult.Assign(b);
    MultiplyWord(mult, digit);
    var less := IsLess(remainder, mult);
    while less
      invariant vr / vb <= digit
      invariant Canonical(mult.elems) && Val(mult.elems) == digit * vb
      invariant less <==> vr < Val(mult.elems)
      decreases digit
    {
      TooLarge(vr, vb, digit);
      digit := digit - 1;
      var st := Subtract(mult, b);
      assert st == Ok;
      less := IsLess(remainder, mult);
    }
    if digit > vr / vb {
      MulMono(vb, vr / vb + 1, digit);
      MulDist(vb, vr / vb, 1);
    }
  }

  lemma TooLarge(r: nat, b: nat, digit: nat)
    requires b > 0 && r < digit * b
    ensures r / b < digit && digit * b == (digit - 1) * b + b
    ensures digit >= 1 && digit * b >= b
  {
    DivBelow(r, b, digit);
    MulDist(b, digit, 1);
    if digit >= 1 {
      MulMono(b, 1, digit);
    }
  }

  /** Finds the quotient digit and takes its multiple of b off the remainder. */
  method TakeDigit(remainder: Word32s, b: Word32s, mult: Word32s) returns (digit: u32)
    requires Canonical(remainder.elems) && Canonical(b.elems) && b.elems != []
    requires Val(b.elems) <= Val(remainder.elems) < 0x1_0000_0000 * Val(b.elems)
    requires mult !in {remainder, b} && remainder != b
    modifies remainder, mult
    ensures Canonical(remainder.elems)
    ensures Val(remainder.elems) == Val(old(remainder.elems)) - digit * Val(b.elems) < Val(b.elems)
  {
    hide Val, Canonical;
    var guess := EstimateDigit(remainder, b);
    digit := CorrectDigit(remainder, b, mult, guess);
    DivBound(Val(remainder.elems), Val(b.elems));
    var st := Subtract(remainder, mult);
    assert st == Ok;
  }

  /** Brings one word down: the remainder moves up by a word, in place. */
  method BringDown(remainder: Word32s, word: u32)
    modifies remainder
    ensures remainder.elems == [word] + old(remainder.elems)
  {
    ghost var r0 := remainder.elems;
    remainder.PushBack(0);
    for k := |remainder.elems| - 1 downto 0
      invariant |remainder.elems| == |r0| + 1
      invariant forall j :: 0 <= j < k && j < |r0| ==> remainder.elems[j] == r0[j]
      invariant k < |r0| ==> remainder.elems[k] == r0[k]
      invariant forall j :: k < j < |remainder.elems| ==> remainder.elems[j] == r0[j - 1]
    {
      remainder.elems := remainder.elems[k + 1 := remainder.elems[k]];
    }
    remainder.elems := remainder.elems[0 := word];
  }

  /** So much of a has been divided: the words from i up give quotient digits (top first) and a remainder. */
  ghost predicate Divided(a: seq<u32>, i: nat, b: seq<u32>, quotient: seq<u32>, remainder: seq<u32>) {
    && i <= |a| && Canonical(remainder) && Val(remainder) < Val(b)
    && Val(a[i..]) == Val(Reversed(quotient)) * Val(b) + Val(remainder)
  }

  /** One more word has been brought down; its digit is not known yet. */
  ghost predicate Pending(a: seq<u32>, i: nat, b: seq<u32>, quotient: seq<u32>, now: nat) {
    i <= |a| && Val(a[i..]) == (0x1_0000_0000 * Val(Reversed(quotient))) * Val(b) + now
  }

  lemma BroughtDown(a: seq<u32>, i: nat, b: seq<u32>, q: seq<u32>, was: seq<u32>, now: seq<u32>)
    requires i < |a| && Divided(a, i + 1, b, q, was)
    requires now == if |was| > 0 || a[i] != 0 then [a[i]] + was else was
    ensures Canonical(now) && Val(now) < 0x1_0000_0000 * Val(b)
    ensures Pending(a, i, b, q, Val(now))
  {
    assert a[i..][1..] == a[i + 1..];
    assert |now| > 0 ==> now[1..] == was;
    MulAssoc(0x1_0000_0000, Val(Reversed(q)), Val(b));
  }

  lemma PushedValue(q: seq<u32>, digit: u32)
    ensures Val(Reversed(q + [digit])) == digit + 0x1_0000_0000 * Val(Reversed(q))
  {
    assert Reversed(q + [digit]) == [digit] + Reversed(q);
    assert ([digit] + Reversed(q))[1..] == Reversed(q);
  }

  lemma DigitPushed(a: seq<u32>, i: nat, b: seq<u32>, q: seq<u32>, mid: nat, digit: u32, after: seq<u32>)
    requires Pending(a, i, b, q, mid)
    requires Canonical(after) && Val(after) == mid - digit * Val(b) < Val(b)
    ensures Divided(a, i, b, q + [digit], after)
  {
    hide Val, Reversed, Canonical;
    PushedValue(q, digit);
    DigitArith(Val(a[i..]), Val(Reversed(q)), Val(b), digit, mid, Val(after));
  }

  lemma DigitArith(v: int, q: int, b: int, digit: int, mid: int, after: int)
    requires v == (0x1_0000_0000 * q) * b + mid && after == mid - digit * b
    ensures v == (digit + 0x1_0000_0000 * q) * b + after
  {
    MulDist(b, digit, 0x1_0000_0000 * q);
  }

  /** a = quotient * b + remainder with remainder < b; a zero divisor is refused. */
  method DivideNaive(a: Word32s, b: Word32s, quotient: Word32s, remainder: Word32s, aux1: Word32s)
      returns (st: Outcome)
    requires Canonical(b.elems)
    requires {a, b} !! {quotient, remainder, aux1} && quotient != remainder && aux1 !in {quotient, remainder}
    modifies quotient, remainder, aux1
    ensures st == if Val(b.elems) == 0 then InvalidArgument else Ok
    ensures st == Ok ==> Val(a.elems) == Val(quotient.elems) * Val(b.elems) + Val(remainder.elems)
    ensures st == Ok ==> Val(remainder.elems) < Val(b.elems)
    ensures Canonical(quotient.elems) && Canonical(remainder.elems)
  {
    hide Val, Weight, Reversed, Divided, Trim;
    quotient.Clear();
    remainder.Clear();
    CanonicalRange(b.elems);
    if |b.elems| == 0 {
      return InvalidArgument;
    }
    NothingDivided(a.elems, b.elems);
    for i := |a.elems| downto 0
      invariant Divided(a.elems, i, b.elems, quotient.elems, remainder.elems)
    {
      DivideStep(a, i, b, quotient, remainder, aux1);
    }
    DividedEnd(a.elems, b.elems, quotient.elems, remainder.elems);
    quotient.Reverse();
    TrimVal(quotient.elems);
    Cleanup(quotient, 0);
    return Ok;
  }

  lemma NothingDivided(a: seq<u32>, b: seq<u32>)
    requires Val(b) > 0
    ensures Divided(a, |a|, b, [], [])
  {
    assert Reversed<u32>([]) == [];
  }

  lemma DividedEnd(a: seq<u32>, b: seq<u32>, q: seq<u32>, r: seq<u32>)
    requires Divided(a, 0, b, q, r)
    ensures Val(a) == Val(Reversed(q)) * Val(b) + Val(r) && Val(r) < Val(b) && Canonical(r)
  {
    assert a[0..] == a;
  }

  /** The body of the long-division loop. */
  method DivideStep(a: Word32s, i: nat, b: Word32s, quotient: Word32s, remainder: Word32s, aux1: Word32s)
    requires i < |a.elems| && b.elems != [] && Canonical(b.elems)
    requires {a, b} !! {quotient, remainder, aux1} && quotient != remainder && aux1 !in {quotient, remainder}
    requires Divided(a.elems, i + 1, b.elems, quotient.elems, remainder.elems)
    modifies quotient, remainder, aux1
    ensures Divided(a.elems, i, b.elems, quotient.elems, remainder.elems)
  {
    hide Val, Weight, Reversed, Divided, Pending, Canonical;
    ghost var q0, r0 := quotient.elems, remainder.elems;
    if |remainder.elems| > 0 || a.elems[i] != 0 {
      BringDown(remainder, a.elems[i]);
    }
    BroughtDown(a.elems, i, b.elems, q0, r0, remainder.elems);
    ghost var mid := Val(remainder.elems);
    var less := IsLess(remainder, b);
    if less {
      DigitPushed(a.elems, i, b.elems, q0, mid, 0, remainder.elems);
      quotient.PushBack(0);
    } else {
      var digit := TakeDigit(remainder, b, aux1);
      quotient.PushBack(digit);
      DigitPushed(a.elems, i, b.elems, q0, mid, digit, remainder.elems);
    }
  }

  method DivideArrays(a: Word32s, b: Word32s, quotient: Word32s, remainder: Word32s, aux1: Word32s)
      returns (st: Outcome)
    requires Canonical(b.elems)
    requires {a, b} !! {quotient, remainder, aux1} && quotient != remainder && aux1 !in {quotient, remainder}
    modifies quotient, remainder, aux1
    ensures st == if Val(b.elems) == 0 then InvalidArgument else Ok
    ensures st == Ok ==> Val(quotient.elems) == Val(a.elems) / Val(b.elems)
    ensures st == Ok ==> Val(remainder.elems) == Val(a.elems) % Val(b.elems)
    ensures Canonical(quotient.elems) && Canonical(remainder.elems)
  {
    hide Val, Canonical;
    st := DivideNaive(a, b, quotient, remainder, aux1);
    if st == Ok {
      DivUnique(Val(a.elems), Val(b.elems), Val(quotient.elems), Val(remainder.elems));
    }
  }
}
