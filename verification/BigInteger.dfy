/** Signed integers of any size: a word array and a sign bit, which may be set on zero. */
module BigIntegers {
  import opened Arith
  import opened Arrays
  import opened AddSub
  import opened Bytes
  import opened Divide
  import opened Multiply
  import opened WordMath
  import opened Words

  function Abs(x: int): nat {
    if x < 0 then -x else x
  }

  /** Division of signed integers in C++: the quotient is cut off towards zero. */
  function TruncDiv(a: int, b: int): int
    requires b != 0
  {
    var q := Abs(a) / Abs(b);
    if (a < 0) != (b < 0) then -q else q
  }

  function TruncMod(a: int, b: int): int
    requires b != 0
  {
    var r := Abs(a) % Abs(b);
    if a < 0 then -r else r
  }

  /** The pair is a division with the remainder below the divisor, on the dividend's side of zero. */
  lemma TruncatedDivision(a: int, b: int)
    requires b != 0
    ensures a == TruncDiv(a, b) * b + TruncMod(a, b)
    ensures Abs(TruncMod(a, b)) < Abs(b)
    ensures TruncMod(a, b) != 0 ==> (TruncMod(a, b) < 0 <==> a < 0)
  {
    var q := Abs(a) / Abs(b);
    DivBound(Abs(a), Abs(b));
    MulNeg(q, b);
  }

  lemma MulNeg(q: int, b: int)
    ensures (-q) * b == q * (-b) == -(q * b)
  {
  }

  lemma SignedProduct(a: int, b: int)
    ensures Abs(a * b) == Abs(a) * Abs(b)
    ensures a * b < 0 <==> (a < 0 && b > 0) || (a > 0 && b < 0)
  {
    if a >= 0 && b >= 0 {
      MulMono(a, 0, b);
    } else if a >= 0 {
      MulMono(a, b, 0);
      if a > 0 {
        MulMono(a, b, -1);
      }
    } else if b >= 0 {
      MulMono(b, a, 0);
      if b > 0 {
        MulMono(b, a, -1);
      }
    } else {
      MulMono(-a, 0, -b);
    }
  }

  /** What div leaves as the remainder when the quotient is written over the dividend. */
  function OverwrittenRemainder(a: int, b: int): int
    requires b != 0
  {
    if (a < 0) != (b < 0) then -(Abs(a) % Abs(b)) else Abs(a) % Abs(b)
  }

  /** It is the remainder if and only if the divisor is positive or divides. */
  lemma OverwrittenRemainderExact(a: int, b: int)
    requires b != 0
    ensures OverwrittenRemainder(a, b) == TruncMod(a, b) <==> b > 0 || Abs(a) % Abs(b) == 0
    ensures OverwrittenRemainder(a, b) == TruncMod(a, b) || OverwrittenRemainder(a, b) == -TruncMod(a, b)
  {
    TruncatedParts(a, b);
    if a == 0 {
      DivUnique(0, Abs(b), 0, 0);
    }
  }

  /** -7 divided by -2 into itself: the remainder comes out as 1. */
  lemma OverwrittenSign()
    ensures OverwrittenRemainder(-7, -2) == 1 && TruncMod(-7, -2) == -1
  {
  }

  class BigInteger {
    const words: Word32s
    var neg: bool

    ghost function Value(): int
      reads this, words
    {
      var magnitude: int := Val(words.elems);
      if neg then -magnitude else magnitude
    }

    ghost predicate Valid()
      reads this, words
    {
      Canonical(words.elems)
    }

    /** Each object owns its array. */
    ghost predicate Apart(o: BigInteger) {
      this == o || words != o.words
    }

    /** The most negative 32-bit integer has no negation in 32 bits. */
    constructor (val: int)
      requires -0x8000_0000 < val < 0x8000_0000
      ensures Valid() && Value() == val && neg == (val < 0) && fresh(words)
    {
      neg := val < 0;
      words := new TArray<u32>();
      new;
      var uval: u32 := if neg then -val else val;
      ValOne(uval);
      if uval > 0 {
        words.PushBack(uval);
        assert words.elems == [uval];
      }
    }

    /** Always a nonnegative number; zero bytes on top are dropped. */
    constructor FromBytes(bytes: seq<u8>)
      ensures Valid() && !neg && fresh(words) && words.elems == Pack(Trim(bytes, 0))
      ensures Value() == ByteVal(bytes)
    {
      hide Val, Pack, ByteVal, Trim;
      neg := false;
      words := new TArray<u32>();
      new;
      var octets := new TArray<u8>();
      for i := 0 to |bytes|
        invariant octets.elems == bytes[..i] && words.elems == [] && !neg
      {
        octets.PushBack(bytes[i]);
      }
      assert bytes[..|bytes|] == bytes;
      TrimByteVal(bytes);
      PackVal(Trim(bytes, 0));
      PackCanonical(Trim(bytes, 0));
      Cleanup(octets, 0);
      U8to32(octets, words);
    }

    method GetBytes() returns (bytes: seq<u8>)
      requires Valid()
      ensures bytes == Trim(Unpack(words.elems), 0)
      ensures ByteVal(bytes) == Abs(Value()) && (bytes == [] || bytes[|bytes| - 1] != 0)
    {
      var octets := new TArray<u8>();
      U32to8(words, octets);
      bytes := octets.elems;
      UnpackVal(words.elems);
      TrimByteVal(Unpack(words.elems));
    }

    constructor Copy(o: BigInteger)
      requires o.Valid()
      ensures Valid() && Value() == o.Value() && neg == o.neg && fresh(words)
    {
      neg := o.neg;
      words := new TArray<u32>.Copy(o.words);
    }

    method Assign(o: BigInteger)
      requires o.Valid() && Apart(o)
      modifies this, words
      ensures Valid() && Value() == old(o.Value()) && neg == old(o.neg)
    {
      words.Assign(o.words);
      neg := o.neg;
    }

    method SetParts(sign: bool, magnitude: Word32s)
      requires Canonical(magnitude.elems) && magnitude != words
      modifies this, words
      ensures Valid() && neg == sign && words.elems == magnitude.elems
    {
      neg := sign;
      words.Assign(magnitude);
    }

    predicate IsZero()
      reads this, words
    {
      |words.elems| == 0
    }

    /** A set sign bit alone does not make a negative number. */
    predicate IsNegative()
      reads this, words
    {
      !IsZero() && neg
    }

    lemma SignIsSign()
      requires Valid()
      ensures IsZero() <==> Value() == 0
      ensures IsNegative() <==> Value() < 0
      ensures Val(words.elems) == Abs(Value())
    {
      CanonicalRange(words.elems);
    }

    method Negated() returns (o: BigInteger)
      requires Valid()
      ensures fresh(o) && fresh(o.words) && o.Valid() && o.Value() == -Value() && o.neg == !neg
    {
      o := new BigInteger.Copy(this);
      o.neg := !o.neg;
    }

    method Less(o: BigInteger) returns (less: bool)
      requires Valid() && o.Valid()
      ensures less <==> Value() < o.Value()
    {
      hide Val, Canonical;
      SignIsSign();
      o.SignIsSign();
      if IsNegative() && !o.IsNegative() {
        return true;
      }
      if !IsNegative() && o.IsNegative() {
        return false;
      }
      if |words.elems| != |o.words.elems| {
        var shorter := |words.elems| < |o.words.elems|;
        if shorter {
          LongerIsLarger(words.elems, o.words.elems);
        } else {
          LongerIsLarger(o.words.elems, words.elems);
        }
        return if IsNegative() then !shorter else shorter;
      }
      for i := |words.elems| downto 0
        invariant words.elems[i..] == o.words.elems[i..]
      {
        if words.elems[i] != o.words.elems[i] {
          if words.elems[i] < o.words.elems[i] {
            FirstDifference(words.elems, o.words.elems, i);
          } else {
            FirstDifference(o.words.elems, words.elems, i);
          }
          return if IsNegative() then o.words.elems[i] < words.elems[i] else words.elems[i] < o.words.elems[i];
        }
        assert words.elems[i..] == [words.elems[i]] + words.elems[i + 1..];
        assert o.words.elems[i..] == [o.words.elems[i]] + o.words.elems[i + 1..];
      }
      return false;
    }

    method Equals(o: BigInteger) returns (eq: bool)
      requires Valid() && o.Valid()
      ensures eq <==> Value() == o.Value()
    {
      SignIsSign();
      o.SignIsSign();
      eq := words.elems == o.words.elems && IsNegative() == o.IsNegative();
      if Value() == o.Value() {
        CanonicalUnique(words.elems, o.words.elems);
      }
    }

    // ---------- addition and subtraction, each by the other ----------

    /** How far a subtraction is from the case it ends in. */
    ghost function SubRank(o: BigInteger): nat
      reads this, words, o, o.words
    {
      if neg != o.neg then 1 else if neg then 2 else if Value() < o.Value() then 1 else 0
    }

    method AddAssign(o: BigInteger)
      requires Valid() && o.Valid() && Apart(o)
      modifies this, words
      ensures Valid() && Value() == old(Value()) + old(o.Value())
      decreases if neg != o.neg then 2 else 0, 0
    {
      hide Val, Canonical;
      if neg && !o.neg {
        var t := Negated();
        var d := o.Minus(t);
        Assign(d);
        return;
      }
      if !neg && o.neg {
        var t := o.Negated();
        SubAssign(t);
        return;
      }
      WeightZero(Val(o.words.elems));
      Add(words, o.words);
    }

    method SubAssign(o: BigInteger)
      requires Valid() && o.Valid() && Apart(o)
      modifies this, words
      ensures Valid() && Value() == old(Value()) - old(o.Value())
      decreases SubRank(o), 0
    {
      hide Val, Canonical;
      if neg && !o.neg {
        var t := o.Negated();
        AddAssign(t);
        return;
      }
      if !neg && o.neg {
        var t := o.Negated();
        AddAssign(t);
        return;
      }
      if neg && o.neg {
        var s := o.Negated();
        var t := Negated();
        var d := s.Minus(t);
        Assign(d);
        return;
      }
      var less := Less(o);
      if less {
        var d := o.Minus(this);
        var t := d.Negated();
        Assign(t);
        return;
      }
      var st := Subtract(words, o.words);
      assert st == Ok;
    }

    method Plus(o: BigInteger) returns (n: BigInteger)
      requires Valid() && o.Valid()
      ensures fresh(n) && fresh(n.words) && n.Valid() && n.Value() == Value() + o.Value()
    {
      n := new BigInteger.Copy(this);
      n.AddAssign(o);
    }

    method Minus(o: BigInteger) returns (n: BigInteger)
      requires Valid() && o.Valid()
      ensures fresh(n) && fresh(n.words) && n.Valid() && n.Value() == Value() - o.Value()
      decreases SubRank(o), 1
    {
      n := new BigInteger.Copy(this);
      n.SubAssign(o);
    }

    // ---------- multiplication and division ----------

    /** The sign is computed after the product is in place, so on zero it may come out set. */
    method MulAssign(o: BigInteger)
      requires Valid() && o.Valid() && Apart(o)
      modifies this, words
      ensures Valid() && Value() == old(Value()) * old(o.Value())
    {
      hide Val, Canonical;
      SignedProduct(Value(), o.Value());
      SignIsSign();
      o.SignIsSign();
      var result := new TArray<u32>();
      var aux1 := new TArray<u32>();
      MultiplyArrays(words, o.words, result, aux1);
      words.Assign(result);
      SignIsSign();
      neg := (IsNegative() && !o.IsNegative()) || (!IsNegative() && o.IsNegative());
      SignIsSign();
    }
  
    method DivAssign(o: BigInteger) returns (st: Outcome)
      requires Valid() && o.Valid() && Apart(o)
      modifies this, words
      ensures Valid() && st == if old(o.Value()) == 0 then InvalidArgument else Ok
      ensures Value() == if old(o.Value()) == 0 then old(Value()) else TruncDiv(old(Value()), old(o.Value()))
    {
      hide Val, Canonical;
      SignIsSign();
      o.SignIsSign();
      ghost var v, w := Value(), o.Value();
      var quotient := new TArray<u32>();
      var remainder := new TArray<u32>();
      var aux1 := new TArray<u32>();
      :- DivideArrays(words, o.words, quotient, remainder, aux1);
      words.Assign(quotient);
      SignIsSign();
      neg := (IsNegative() && !o.IsNegative()) || (!IsNegative() && o.IsNegative());
      SignIsSign();
      if o == this {
        SelfQuotient(v);
      }
      return Ok;
    }

    method ModAssign(o: BigInteger) returns (st: Outcome)
      requires Valid() && o.Valid() && Apart(o)
      modifies this, words
      ensures Valid() && st == if old(o.Value()) == 0 then InvalidArgument else Ok
      ensures Value() == if old(o.Value()) == 0 then old(Value()) else TruncMod(old(Value()), old(o.Value()))
    {
      hide Val, Canonical;
      SignIsSign();
      o.SignIsSign();
      var quotient := new TArray<u32>();
      var remainder := new TArray<u32>();
      var aux1 := new TArray<u32>();
      :- DivideArrays(words, o.words, quotient, remainder, aux1);
      words.Assign(remainder);
      return Ok;
    }

    /**
     Quotient and remainder at once. The results may be the operands, but the sign of the remainder is read
     after that of the quotient has been written. If both results go into one number it ends as the remainder.
     */
    method Div(o: BigInteger, quotient: BigInteger, remainder: BigInteger) returns (st: Outcome)
      requires Valid() && o.Valid() && Apart(quotient) && Apart(remainder) && quotient.Apart(remainder)
      requires o.Apart(quotient) && o.Apart(remainder)
      modifies quotient, quotient.words, remainder, remainder.words
      ensures st == if old(o.Value()) == 0 then InvalidArgument else Ok
      ensures st == Ok && quotient != remainder ==>
        quotient.Valid() && quotient.Value() == TruncDiv(old(Value()), old(o.Value()))
      ensures st == Ok ==> remainder.Valid()
      ensures st == Ok && quotient != this ==> remainder.Value() == TruncMod(old(Value()), old(o.Value()))
      ensures st == Ok && quotient == this ==>
        remainder.Value() == OverwrittenRemainder(old(Value()), old(o.Value()))
    {
      hide Val, Canonical, TruncDiv, TruncMod, Abs;
      SignIsSign();
      o.SignIsSign();
      AbsZero(o.Value());
      if o.Value() != 0 {
        TruncatedParts(Value(), o.Value());
      }
      var quotientArray := new TArray<u32>();
      var remainderArray := new TArray<u32>();
      var aux1 := new TArray<u32>();
      :- DivideArrays(words, o.words, quotientArray, remainderArray, aux1);
      quotient.SetParts((IsNegative() && !o.IsNegative()) || (!IsNegative() && o.IsNegative()), quotientArray);
      remainder.SetParts(neg, remainderArray);
      return Ok;
    }

    method Times(o: BigInteger) returns (n: BigInteger)
      requires Valid() && o.Valid()
      ensures fresh(n) && fresh(n.words) && n.Valid() && n.Value() == Value() * o.Value()
    {
      n := new BigInteger.Copy(this);
      n.MulAssign(o);
    }
  }

  lemma AbsZero(x: int)
    ensures Abs(x) == 0 <==> x == 0
  {
  }

  /** Signs and magnitudes of quotient and remainder. */
  lemma TruncatedParts(a: int, b: int)
    requires b != 0
    ensures TruncDiv(a, b) == Abs(a) / Abs(b) || TruncDiv(a, b) == -(Abs(a) / Abs(b))
    ensures (a < 0) == (b < 0) ==> TruncDiv(a, b) == Abs(a) / Abs(b)
    ensures (a < 0) != (b < 0) ==> TruncDiv(a, b) == -(Abs(a) / Abs(b))
    ensures TruncMod(a, b) == if a < 0 then -(Abs(a) % Abs(b)) else Abs(a) % Abs(b)
    ensures a == 0 ==> TruncMod(a, b) == 0
  {
    if a == 0 {
      DivUnique(0, Abs(b), 0, 0);
    }
  }

  lemma SelfQuotient(v: int)
    requires v != 0
    ensures TruncDiv(v, v) == 1
  {
    DivUnique(Abs(v), Abs(v), 1, 0);
  }
}
