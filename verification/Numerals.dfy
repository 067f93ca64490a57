/** Big integers as text in radix 2, 8, 10 and 16. */
module Numerals {
  import opened AddSub
  import opened Arith
  import opened Arrays
  import opened BigIntegers
  import opened Divide
  import opened Multiply
  import opened NumberTheory
  import opened WordMath
  import opened Words

  predicate Supported(radix: int) {
    radix == 2 || radix == 8 || radix == 10 || radix == 16
  }

  // ---------- reading ----------

  /** Which characters are accepted: letters only in radix 16, digits only below the radix otherwise. */
  predicate Accepted(c: char, radix: int) {
    if radix == 16 then '0' <= c <= '9' || 'a' <= c <= 'f' || 'A' <= c <= 'F'
    else '0' <= c && c as int <= radix - 1 + '0' as int
  }

  /** What an accepted character counts for. Letters count from zero, as the code has it. */
  function DigitOf(c: char): nat {
    if '0' <= c <= '9' then c as int - '0' as int
    else if 'a' <= c <= 'f' then c as int - 'a' as int
    else if 'A' <= c <= 'F' then c as int - 'A' as int
    else 0
  }

  function Signed(s: string): bool {
    s != "" && s[0] == '-'
  }

  function Body(s: string): string {
    if Signed(s) then s[1..] else s
  }

  predicate WellFormed(s: string, radix: int) {
    Supported(radix) && forall i :: 0 <= i < |Body(s)| ==> Accepted(Body(s)[i], radix)
  }

  /** The number written with the most significant digit first. */
  function Reading(ds: seq<nat>, radix: nat): nat {
    if ds == [] then 0 else Reading(ds[..|ds| - 1], radix) * radix + ds[|ds| - 1]
  }

  function Digits(s: string): (ds: seq<nat>)
    ensures |ds| == |s| && forall i :: 0 <= i < |s| ==> ds[i] == DigitOf(s[i])
  {
    seq(|s|, i requires 0 <= i < |s| => DigitOf(s[i]))
  }

  /** What parsing makes of a well-formed string. */
  function Parsed(s: string, radix: nat): int {
    var magnitude: int := Reading(Digits(Body(s)), radix);
    if Signed(s) then -magnitude else magnitude
  }

  /** The digit values of the characters after the sign, or a refusal. */
  method ScanDigits(val: string, radix: int) returns (st: Outcome, neg: bool, ints: seq<u32>)
    ensures st == if WellFormed(val, radix) then Ok else InvalidArgument
    ensures st == Ok ==> neg == Signed(val) && ints == Digits(Body(val))
  {
    neg, ints := false, [];
    if !Supported(radix) {
      return InvalidArgument, neg, ints;
    }
    for i := 0 to |val|
      invariant neg == (i > 0 && Signed(val))
      invariant |ints| == if neg then i - 1 else i
      invariant forall k :: 0 <= k < |ints| ==> Accepted(Body(val)[k], radix) && ints[k] == DigitOf(Body(val)[k])
    {
      if i == 0 && val[i] == '-' {
        neg := true;
        continue;
      }
      assert val[i] == Body(val)[|ints|];
      if !Accepted(val[i], radix) {
        return InvalidArgument, neg, ints;
      }
      ints := ints + [DigitOf(val[i])];
    }
    return Ok, neg, ints;
  }

  lemma {:induction false} ReadingFront(d: nat, rest: seq<nat>, radix: nat)
    ensures Reading([d] + rest, radix) == d * Pow(radix, |rest|) + Reading(rest, radix)
  {
    if rest == [] {
      assert [d] + rest == [d] && [d][..0] == [];
    } else {
      var front, last := rest[..|rest| - 1], rest[|rest| - 1];
      ReadingFront(d, front, radix);
      assert ([d] + rest)[..|rest|] == [d] + front;
      MulDist(radix, d * Pow(radix, |front|), Reading(front, radix));
      MulAssoc(d, Pow(radix, |front|), radix);
    }
  }

  /** Digits from the last to the first, each times its power of the radix. */
  method SumDigits(ints: seq<u32>, radix: u32, sum: Word32s)
    requires radix > 0 && sum.elems == []
    modifies sum
    ensures Canonical(sum.elems) && Val(sum.elems) == Reading(ints, radix)
  {
    hide Val, Pow, Reading, Canonical;
    var mult := new TArray<u32>.Filled(1, 1);
    assert mult.elems == [1];
    var toadd := new TArray<u32>();
    NothingRead(ints, radix);
    for i := |ints| downto 0
      invariant Canonical(sum.elems) && Val(sum.elems) == Reading(ints[i..], radix)
      invariant Canonical(mult.elems) && Val(mult.elems) == Pow(radix, |ints| - i)
    {
      assert ints[i..] == [ints[i]] + ints[i + 1..];
      ReadingFront(ints[i], ints[i + 1..], radix);
      PowNext(radix, |ints| - i - 1);
      if ints[i] != 0 {
        toadd.Assign(mult);
        MultiplyWord(toadd, ints[i]);
        WeightZero(Val(toadd.elems));
        Add(sum, toadd);
      }
      MultiplyWord(mult, radix);
    }
    assert ints[0..] == ints;
  }

  lemma NothingRead(ints: seq<u32>, radix: nat)
    ensures Reading(ints[|ints|..], radix) == 0 == Val([]) && Pow(radix, 0) == 1 == Val([1])
    ensures Canonical([]) && Canonical([1])
  {
  }

  lemma PowNext(b: nat, e: nat)
    ensures Pow(b, e + 1) == Pow(b, e) * b
  {
  }

  /** The constructor from a string. */
  method FromString(val: string, radix: int) returns (st: Outcome, b: BigInteger)
    ensures st == if WellFormed(val, radix) then Ok else InvalidArgument
    ensures fresh(b) && fresh(b.words) && b.Valid()
    ensures st == Ok ==> b.Value() == Parsed(val, radix)
  {
    b := new BigInteger(0);
    var neg, ints;
    st, neg, ints := ScanDigits(val, radix);
    if st != Ok {
      return;
    }
    b.words.Clear();
    SumDigits(ints, radix, b.words);
    b.neg := neg;
  }

  // ---------- writing ----------

  function ToChar(b: nat): char {
    if b <= 9 then ('0' as int + b) as char
    else if b <= 15 then ('A' as int + b) as char
    else '?'
  }

  /** The digits of n, most significant first; nothing for zero. */
  function Numeral(n: nat, radix: nat): string
    requires radix > 1
  {
    if n == 0 then [] else DivSmaller(n, radix); Numeral(n / radix, radix) + [ToChar(n % radix)]
  }

  lemma DivSmaller(n: nat, radix: nat)
    requires n > 0 && radix > 1
    ensures 0 <= n / radix < n
  {
    DivBelow(n, radix, n);
    DivBound(n, radix);
  }

  /** What printing makes of an integer. */
  function Printed(v: int, radix: nat): string
    requires radix > 1
  {
    (if v < 0 then "-" else "") + (if v == 0 then "0" else Numeral(Abs(v), radix))
  }

  lemma NumeralStep(n: nat, radix: nat)
    requires n > 0 && radix > 1
    ensures Numeral(n, radix) == Numeral(n / radix, radix) + [ToChar(n % radix)]
    ensures 0 <= n / radix < n
  {
    DivSmaller(n, radix);
  }

  method ToString(b: BigInteger, radix: int) returns (st: Outcome, str: string)
    requires b.Valid()
    ensures st == if Supported(radix) then Ok else InvalidArgument
    ensures st == Ok ==> str == Printed(b.Value(), radix)
  {
    str := "";
    if !Supported(radix) {
      return InvalidArgument, str;
    }
    str := DigitString(b, radix);
    b.SignIsSign();
    if str == "" {
      str := "0";
    }
    if b.IsNegative() {
      str := str + "-";
    }
    return Ok, Reversed(str);
  }

  /** The digits come out least significant first. */
  method DigitString(b: BigInteger, radix: u32) returns (str: string)
    requires b.Valid() && radix > 1
    ensures Reversed(str) == Numeral(Abs(b.Value()), radix)
    ensures str == "" <==> b.Value() == 0
  {
    hide Val, Canonical, Numeral, ToChar, Abs;
    str := "";
    var n := new TArray<u32>.Copy(b.words);
    var quo := new TArray<u32>();
    var rem := new TArray<u32>();
    var radixVect := new TArray<u32>.Filled(1, radix);
    assert radixVect.elems == [radix];
    var aux1 := new TArray<u32>();
    b.SignIsSign();
    CanonicalRange(n.elems);
    ghost var all := Numeral(Val(n.elems), radix);
    assert all == all + Reversed("");
    while |n.elems| > 0
      invariant Canonical(n.elems) && (n.elems == [] <==> Val(n.elems) == 0)
      invariant radixVect.elems == [radix]
      invariant all == Numeral(Val(n.elems), radix) + Reversed(str)
      invariant str == "" ==> Val(n.elems) == Abs(b.Value())
      invariant str != "" ==> b.Value() != 0
      decreases Val(n.elems)
    {
      NumeralStep(Val(n.elems), radix);
      var c := NextDigit(n, radixVect, quo, rem, aux1, radix);
      assert Reversed(str + [c]) == [c] + Reversed(str);
      str := str + [c];
      CanonicalRange(n.elems);
    }
    NumeralZero(radix);
  }

  /** Divides n by the radix in place and gives the character of the remainder. */
  method NextDigit(n: Word32s, radixVect: Word32s, quo: Word32s, rem: Word32s, aux1: Word32s, ghost radix: u32)
      returns (c: char)
    requires Canonical(n.elems) && radixVect.elems == [radix] && radix > 1
    requires {n, radixVect} !! {quo, rem, aux1} && quo != rem && aux1 !in {quo, rem} && n != radixVect
    modifies n, quo, rem, aux1
    ensures Canonical(n.elems) && Val(n.elems) == Val(old(n.elems)) / radix
    ensures c == ToChar(Val(old(n.elems)) % radix)
  {
    hide Val, Canonical, ToChar;
    ValOne(radix);
    OneWordCanonical(radix);
    var st := DivideArrays(n, radixVect, quo, rem, aux1);
    assert st == Ok;
    SmallRemainder(rem.elems, radix);
    n.Assign(quo);
    c := if |rem.elems| == 0 then '0' else ToChar(rem.elems[0]);
  }

  lemma NumeralZero(radix: nat)
    requires radix > 1
    ensures Numeral(0, radix) == [] && Abs(0) == 0
    ensures forall v: int :: Abs(v) == 0 <==> v == 0
  {
  }

  lemma OneWordCanonical(x: u32)
    requires x > 0
    ensures Canonical([x])
  {
  }

  lemma SmallRemainder(r: seq<u32>, radix: u32)
    requires Canonical(r) && Val(r) < radix
    ensures |r| <= 1 && Val(r) == (if |r| == 0 then 0 else r[0]) && ToChar(0) == '0'
  {
    if |r| > 1 {
      CanonicalRange(r);
      WeightMono(1, |r| - 1);
    }
  }

  // ---------- writing and reading back ----------

  /** No digit of n is above nine. */
  predicate SmallDigits(n: nat, radix: nat)
    requires radix > 1
  {
    n == 0 || (DivSmaller(n, radix); n % radix <= 9 && SmallDigits(n / radix, radix))
  }

  lemma {:induction false} RadixUpToTen(n: nat, radix: nat)
    requires 1 < radix <= 10
    ensures SmallDigits(n, radix)
  {
    if n > 0 {
      DivSmaller(n, radix);
      RadixUpToTen(n / radix, radix);
    }
  }

  /** Printed digits up to nine are accepted and read back; a larger one is not accepted. */
  lemma DigitRoundTrip(d: nat, radix: int)
    requires Supported(radix) && d < radix
    ensures ToChar(d) != '-' && (d <= 9 ==> DigitOf(ToChar(d)) == d)
    ensures Accepted(ToChar(d), radix) <==> d <= 9
  {
  }

  lemma {:induction false} NumeralReads(n: nat, radix: nat)
    requires Supported(radix) && SmallDigits(n, radix)
    ensures Reading(Digits(Numeral(n, radix)), radix) == n
  {
    if n > 0 {
      DivSmaller(n, radix);
      NumeralReads(n / radix, radix);
      DigitRoundTrip(n % radix, radix);
      ReadOneMore(Numeral(n / radix, radix), ToChar(n % radix), radix);
      assert Numeral(n, radix) == Numeral(n / radix, radix) + [ToChar(n % radix)];
      hide *;
      DivBound(n, radix);
    }
  }

  lemma ReadOneMore(front: string, c: char, radix: nat)
    ensures Reading(Digits(front + [c]), radix) == Reading(Digits(front), radix) * radix + DigitOf(c)
  {
    assert Digits(front + [c])[..|front|] == Digits(front);
  }

  lemma {:induction false} NumeralAccepted(n: nat, radix: nat)
    requires Supported(radix)
    ensures forall i :: 0 <= i < |Numeral(n, radix)| ==> Numeral(n, radix)[i] != '-'
    ensures (forall i :: 0 <= i < |Numeral(n, radix)| ==> Accepted(Numeral(n, radix)[i], radix))
       <==> SmallDigits(n, radix)
  {
    if n > 0 {
      DivSmaller(n, radix);
      NumeralAccepted(n / radix, radix);
      DigitRoundTrip(n % radix, radix);
      var front, c := Numeral(n / radix, radix), ToChar(n % radix);
      var whole := Numeral(n, radix);
      assert whole == front + [c] && whole[|front|] == c;
      assert forall i :: 0 <= i < |front| ==> whole[i] == front[i];
    }
  }

  /** Taking the sign off a printed number gives back its digits. */
  lemma PrintedBody(v: int, radix: nat)
    requires Supported(radix)
    ensures Signed(Printed(v, radix)) <==> v < 0
    ensures Body(Printed(v, radix)) == if v == 0 then "0" else Numeral(Abs(v), radix)
  {
    NumeralAccepted(Abs(v), radix);
    var digits := if v == 0 then "0" else Numeral(Abs(v), radix);
    if v < 0 {
      assert Printed(v, radix)[0] == '-' && Printed(v, radix)[1..] == digits;
    } else {
      assert Printed(v, radix) == digits;
    }
  }

  /**
   A printed number is accepted again exactly when none of its digits is above nine, and it is then
   read as itself. In radix 16 the letters for ten to fifteen are not accepted.
   */
  lemma PrintThenParse(v: int, radix: nat)
    requires Supported(radix)
    ensures WellFormed(Printed(v, radix), radix) <==> SmallDigits(Abs(v), radix)
    ensures SmallDigits(Abs(v), radix) ==> Parsed(Printed(v, radix), radix) == v
  {
    PrintedBody(v, radix);
    NumeralAccepted(Abs(v), radix);
    hide Printed, Numeral, SmallDigits;
    if v == 0 {
      assert Body(Printed(v, radix))[0] == '0';
      assert Digits("0") == [0] && [0][..0] == [];
      assert Reading([0], radix) == 0;
    } else if SmallDigits(Abs(v), radix) {
      NumeralReads(Abs(v), radix);
    }
  }

  /** In radix 2, 8 and 10 every integer survives. */
  lemma DecimalRoundTrip(v: int, radix: nat)
    requires radix == 2 || radix == 8 || radix == 10
    ensures WellFormed(Printed(v, radix), radix) && Parsed(Printed(v, radix), radix) == v
  {
    RadixUpToTen(Abs(v), radix);
    PrintThenParse(v, radix);
  }

  /** Ten in radix 16 is written with a letter that is then refused. */
  lemma HexRoundTripFails()
    ensures Printed(10, 16) == "K" && !WellFormed(Printed(10, 16), 16)
  {
    NumeralStep(10, 16);
    assert Numeral(0, 16) == "";
    PrintThenParse(10, 16);
    assert !SmallDigits(10, 16);
  }

  /** The usual value of a hexadecimal digit. */
  function HexDigit(c: char): nat {
    if 'a' <= c <= 'f' then c as int - 'a' as int + 10
    else if 'A' <= c <= 'F' then c as int - 'A' as int + 10
    else DigitOf(c)
  }

  function HexDigits(s: string): (ds: seq<nat>)
    ensures |ds| == |s| && forall i :: 0 <= i < |s| ==> ds[i] == HexDigit(s[i])
  {
    seq(|s|, i requires 0 <= i < |s| => HexDigit(s[i]))
  }

  /** A hexadecimal string is read as its usual value exactly when it contains no letter. */
  lemma {:induction false} HexReading(s: string)
    requires forall i :: 0 <= i < |s| ==> Accepted(s[i], 16)
    ensures Reading(Digits(s), 16) <= Reading(HexDigits(s), 16)
    ensures Reading(Digits(s), 16) == Reading(HexDigits(s), 16)
       <==> forall i :: 0 <= i < |s| ==> '0' <= s[i] <= '9'
  {
    if s != "" {
      var front, c := s[..|s| - 1], s[|s| - 1];
      HexReading(front);
      assert Digits(s)[..|s| - 1] == Digits(front) && HexDigits(s)[..|s| - 1] == HexDigits(front);
      assert forall i :: 0 <= i < |front| ==> front[i] == s[i];
    }
  }

  // ---------- numerals by the table ----------

  /** The characters each radix accepts. */
  lemma AcceptedCharacters(c: char)
    ensures Accepted(c, 2) <==> c in "01"
    ensures Accepted(c, 8) <==> c in "01234567"
    ensures Accepted(c, 10) <==> c in "0123456789"
    ensures Accepted(c, 16) <==> c in "0123456789abcdefABCDEF"
  {
    TableOrder(c);
  }

  lemma TableOrder(c: char)
    ensures c in "01" <==> c == '0' || c == '1'
    ensures c in "01234567" <==> '0' <= c <= '7'
    ensures c in "0123456789" <==> '0' <= c <= '9'
    ensures c in "0123456789abcdefABCDEF" <==> '0' <= c <= '9' || 'a' <= c <= 'f' || 'A' <= c <= 'F'
  {
  }

  lemma OneCharacter(c: char, radix: nat)
    requires c != '-'
    ensures WellFormed([c], radix) <==> Supported(radix) && Accepted(c, radix)
    ensures Parsed([c], radix) == DigitOf(c)
  {
    assert [c][0] == c && Body([c]) == [c] && Digits([c]) == [DigitOf(c)];
    ReadingOne(DigitOf(c), radix);
  }

  lemma ReadingOne(d: nat, radix: nat)
    ensures Reading([d], radix) == d && Reading([], radix) == 0
  {
    assert [d][..0] == [];
    assert Reading([], radix) * radix == 0;
  }

  /** A digit is read as itself wherever it is accepted. */
  lemma DigitIsRead(k: nat, radix: nat)
    requires k < 10 && Supported(radix)
    ensures WellFormed(["0123456789"[k]], radix) <==> k < radix
    ensures Parsed(["0123456789"[k]], radix) == k
  {
    var c := "0123456789"[k];
    assert c as int == '0' as int + k by { DecimalCharacter(k); }
    OneCharacter(c, radix);
  }

  lemma DecimalCharacter(k: nat)
    requires k < 10
    ensures "0123456789"[k] as int == '0' as int + k
  {
    assert k == 0 || k == 1 || k == 2 || k == 3 || k == 4 || k == 5 || k == 6 || k == 7 || k == 8 || k == 9;
  }

  /** A letter is read as its distance from the first: a hexadecimal a counts 0. */
  lemma LetterIsRead(k: nat)
    requires k < 6
    ensures WellFormed(["abcdef"[k]], 16) && Parsed(["abcdef"[k]], 16) == k
    ensures WellFormed(["ABCDEF"[k]], 16) && Parsed(["ABCDEF"[k]], 16) == k
  {
    assert k == 0 || k == 1 || k == 2 || k == 3 || k == 4 || k == 5;
    OneCharacter("abcdef"[k], 16);
    OneCharacter("ABCDEF"[k], 16);
  }

  /** One more character behind: the value so far counts radix times as much. */
  lemma ReadAppend(s: string, c: char, radix: nat)
    requires Supported(radix) && !Signed(s) && c != '-'
    ensures WellFormed(s + [c], radix) <==> WellFormed(s, radix) && WellFormed([c], radix)
    ensures Parsed(s + [c], radix) == radix * Parsed(s, radix) + Parsed([c], radix)
  {
    hide Reading, Accepted;
    OneCharacter(c, radix);
    Unsigned(s);
    Unsigned(s + [c]);
    ReadOneMore(s, c, radix);
    assert forall i :: 0 <= i < |s| ==> (s + [c])[i] == s[i];
    assert (s + [c])[|s|] == c;
  }

  lemma Unsigned(s: string)
    requires !Signed(s)
    ensures Body(s) == s
  {
  }

  /** A leading minus negates; nothing at all is read as zero, with or without it. */
  lemma ReadSign(s: string, radix: nat)
    requires Supported(radix) && !Signed(s)
    ensures WellFormed("-" + s, radix) <==> WellFormed(s, radix)
    ensures Parsed("-" + s, radix) == -Parsed(s, radix)
    ensures WellFormed("", radix) && Parsed("", radix) == 0
  {
    Unsigned(s);
    assert ("-" + s)[0] == '-' && Body("-" + s) == s;
    hide Accepted;
    assert Digits("") == [];
  }

  /** A digit is printed as itself, ten to fifteen as K to P. */
  lemma DigitIsPrinted(k: nat, radix: nat)
    requires k < radix <= 16
    ensures radix > 1 ==> Printed(k, radix) == ["0123456789KLMNOP"[k]]
  {
    PrintedCharacter(k);
    if radix > 1 && k > 0 {
      NumeralStep(k, radix);
      DivUnique(k, radix, 0, k);
      assert Numeral(0, radix) == "";
    }
  }

  lemma PrintedCharacter(k: nat)
    requires k < 16
    ensures "0123456789KLMNOP"[k] == ToChar(k)
  {
    assert k == 0 || k == 1 || k == 2 || k == 3 || k == 4 || k == 5 || k == 6 || k == 7 || k == 8 || k == 9
      || k == 10 || k == 11 || k == 12 || k == 13 || k == 14 || k == 15;
  }

  /** A longer number is printed as its quotient by the radix and then its remainder. */
  lemma PrintSteps(v: nat, radix: nat, q: nat, d: nat)
    requires 1 < radix <= 16 && v >= radix && q == v / radix && d == v % radix
    ensures Printed(v, radix) == Printed(q, radix) + Printed(d, radix)
  {
    NumeralStep(v, radix);
    QuotientPositive(v, radix);
    DigitIsPrinted(d, radix);
    PrintedCharacter(d);
  }

  /** A minus comes in front. */
  lemma PrintSign(v: int, radix: nat)
    requires radix > 1 && v > 0
    ensures Printed(-v, radix) == "-" + Printed(v, radix)
  {
  }

  lemma QuotientPositive(v: nat, radix: nat)
    requires 1 < radix <= v
    ensures v / radix > 0
  {
    if v / radix <= 0 {
      MulMono(radix, v / radix, 0);
    }
  }
}
