/** Words to bytes and back, least significant first. */
module Bytes {
  import opened Arith
  import opened Arrays
  import opened Bits
  import opened WordMath
  import opened Words

  function ByteVal(s: seq<u8>): nat {
    if s == [] then 0 else s[0] + 0x100 * ByteVal(s[1..])
  }

  function ByteAt(s: seq<u8>, i: nat): u8 {
    if i < |s| then s[i] else 0
  }

  /** The word made of the first four bytes, missing ones counting as zero. */
  function FirstWord(s: seq<u8>): u32 {
    ByteAt(s, 0) as int + 0x100 * ByteAt(s, 1) + 0x1_0000 * ByteAt(s, 2) + 0x100_0000 * ByteAt(s, 3)
  }

  function Pack(s: seq<u8>): seq<u32> {
    if |s| == 0 then [] else [FirstWord(s)] + if |s| <= 4 then [] else Pack(s[4..])
  }

  function Zeros(n: nat): seq<u8> {
    seq(n, _ => 0)
  }

  function BytesOf(x: u32): seq<u8> {
    [x % 0x100, x / 0x100 % 0x100, x / 0x1_0000 % 0x100, x / 0x100_0000]
  }

  function Unpack(s: seq<u32>): seq<u8> {
    if s == [] then [] else BytesOf(s[0]) + Unpack(s[1..])
  }

  lemma BytesOfWord(x: u32)
    ensures FirstWord(BytesOf(x)) == x && |BytesOf(x)| == 4
  {
    assert x / 0x100 / 0x100 == x / 0x1_0000 && x / 0x1_0000 / 0x100 == x / 0x100_0000;
    assert x == x % 0x100 + 0x100 * (x / 0x100 % 0x100) + 0x1_0000 * (x / 0x1_0000);
  }

  lemma FourBytes(s: seq<u8>)
    requires |s| >= 4
    ensures ByteVal(s) == FirstWord(s) + 0x1_0000_0000 * ByteVal(s[4..])
  {
    assert ByteVal(s[1..]) == s[1] + 0x100 * ByteVal(s[1..][1..]) && s[1..][1..] == s[2..];
    assert ByteVal(s[2..]) == s[2] + 0x100 * ByteVal(s[2..][1..]) && s[2..][1..] == s[3..];
    assert ByteVal(s[3..]) == s[3] + 0x100 * ByteVal(s[3..][1..]) && s[3..][1..] == s[4..];
  }

  lemma FewBytes(s: seq<u8>)
    requires |s| < 4
    ensures ByteVal(s) == FirstWord(s)
  {
    if |s| > 0 {
      assert ByteVal(s[1..]) == if |s| == 1 then 0 else s[1] + 0x100 * ByteVal(s[2..]) by {
        assert |s| > 1 ==> s[1..][1..] == s[2..];
      }
      assert |s| > 1 ==> ByteVal(s[2..]) == if |s| == 2 then 0 else s[2] by {
        assert |s| > 2 ==> s[2..][1..] == [];
      }
    }
  }

  lemma {:induction false} PackVal(s: seq<u8>)
    ensures Val(Pack(s)) == ByteVal(s)
  {
    if |s| > 4 {
      PackVal(s[4..]);
      FourBytes(s);
      assert Pack(s)[1..] == Pack(s[4..]);
    } else if |s| == 4 {
      FourBytes(s);
      ValOne(FirstWord(s));
    } else {
      FewBytes(s);
      ValOne(FirstWord(s));
    }
  }

  lemma {:induction false} UnpackVal(s: seq<u32>)
    ensures ByteVal(Unpack(s)) == Val(s)
  {
    if s != [] {
      UnpackVal(s[1..]);
      BytesOfWord(s[0]);
      hide BytesOf;
      var b, u := BytesOf(s[0]), Unpack(s);
      assert u[4..] == Unpack(s[1..]) && u[..4] == b;
      assert forall k: nat :: k < 4 ==> ByteAt(u, k) == ByteAt(b, k);
      FourBytes(u);
    }
  }

  lemma {:induction false} TrimByteVal(s: seq<u8>)
    ensures ByteVal(Trim(s, 0)) == ByteVal(s)
    ensures Trim(s, 0) == [] || Trim(s, 0)[|Trim(s, 0)| - 1] != 0
  {
    if s != [] && s[|s| - 1] == 0 {
      assert s == s[..|s| - 1] + [0];
      ZeroByteOnTop(s[..|s| - 1]);
      TrimByteVal(s[..|s| - 1]);
    }
  }

  lemma {:induction false} ZeroByteOnTop(s: seq<u8>)
    ensures ByteVal(s + [0]) == ByteVal(s)
  {
    if s != [] {
      ZeroByteOnTop(s[1..]);
      assert (s + [0])[1..] == s[1..] + [0];
    }
  }

  /** Words packed from bytes with a nonzero top byte are canonical. */
  lemma {:induction false} PackCanonical(s: seq<u8>)
    requires s == [] || s[|s| - 1] != 0
    ensures Canonical(Pack(s)) && (s != [] ==> Pack(s) != [])
  {
    if |s| > 4 {
      PackCanonical(s[4..]);
    } else if s != [] {
      assert ByteAt(s, |s| - 1) != 0;
    }
  }

  /** Words, to bytes without zero top bytes, to words again: nothing changes. */
  lemma BytesRoundTrip(s: seq<u32>)
    requires Canonical(s)
    ensures Pack(Trim(Unpack(s), 0)) == s
  {
    var b := Trim(Unpack(s), 0);
    UnpackVal(s);
    TrimByteVal(Unpack(s));
    PackVal(b);
    PackCanonical(b);
    CanonicalUnique(Pack(b), s);
  }

  /** Shifted bytes or'ed together are their sum. */
  lemma OrBytes(b0: u8, b1: u8, b2: u8, b3: u8)
    ensures Or(Shl(b1, 8), b0) == b0 as int + 0x100 * b1
    ensures Or(Or(Shl(b2, 16), Shl(b1, 8)), b0) == b0 as int + 0x100 * b1 + 0x1_0000 * b2
    ensures Or(Or(Or(Shl(b3, 24), Shl(b2, 16)), Shl(b1, 8)), b0)
         == b0 as int + 0x100 * b1 + 0x1_0000 * b2 + 0x100_0000 * b3
  {
    hide Or, Shl, Pow2;
    ByteShifts();
    OrAt(b0, 0x100 * b1, 8, 0x100);
    OrAt(0x100 * b1, 0x1_0000 * b2, 16, 0x1_0000);
    OrAt(b0, 0x1_0000 * b2 + 0x100 * b1, 8, 0x100);
    OrAt(0x1_0000 * b2, 0x100_0000 * b3, 24, 0x100_0000);
    OrAt(0x100 * b1, 0x100_0000 * b3 + 0x1_0000 * b2, 16, 0x1_0000);
    OrAt(b0, 0x100_0000 * b3 + 0x1_0000 * b2 + 0x100 * b1, 8, 0x100);
  }

  lemma OrAt(low: nat, high: nat, k: nat, p: nat)
    requires p > 0 && p == Pow2(k) && low < p && high % p == 0
    ensures Or(high, low) == high + low
  {
    OrDisjoint(low, high, k);
  }

  lemma ByteShifts()
    ensures Pow2(8) == 0x100 && Pow2(16) == 0x1_0000 && Pow2(24) == 0x100_0000
    ensures forall b: u8 :: Shl(b, 8) == 0x100 * b && Shl(b, 16) == 0x1_0000 * b && Shl(b, 24) == 0x100_0000 * b
  {
    MaskTables(8);
    MaskTables(16);
    MaskTables(24);
  }

  method U8to32(from: TArray<u8>, to: TArray<u32>)
    modifies to
    ensures to.elems == Pack(from.elems)
  {
    hide Shl, Or, Pow2;
    hide FirstWord, Pack;
    to.Clear();
    ghost var s, packed := from.elems, Pack(from.elems);
    var i := 0;
    assert s[0..] == s;
    while i < |from.elems|
      invariant 0 <= i && from.elems == s
      invariant packed == to.elems + Pack(if i < |s| then s[i..] else [])
    {
      PackStep(s, i);
      var val := ReadWord(from, i);
      to.PushBack(val);
      i := i + 4;
    }
    PackEnd();
  }

  lemma PackStep(s: seq<u8>, i: nat)
    requires i < |s|
    ensures Pack(s[i..]) == [FirstWord(s[i..])] + Pack(if i + 4 < |s| then s[i + 4..] else [])
  {
    assert i + 4 < |s| ==> s[i..][4..] == s[i + 4..];
  }

  lemma PackEnd()
    ensures Pack([]) == []
  {
  }

  /** The switch on how many bytes remain. */
  method ReadWord(from: TArray<u8>, i: nat) returns (val: u32)
    requires i < |from.elems|
    ensures val == FirstWord(from.elems[i..])
  {
    hide Shl, Or, Pow2;
    val := 0;
    var remaining := |from.elems| - i;
    assert forall k: nat :: ByteAt(from.elems[i..], k) == ByteAt(from.elems, i + k);
    match remaining {
      case 1 =>
        val := from.elems[i];
      case 2 =>
        OrBytes(from.elems[i], from.elems[i + 1], 0, 0);
        val := Or(Shl(from.elems[i + 1], 8), from.elems[i]);
      case 3 =>
        OrBytes(from.elems[i], from.elems[i + 1], from.elems[i + 2], 0);
        val := Or(Or(Shl(from.elems[i + 2], 16), Shl(from.elems[i + 1], 8)), from.elems[i]);
      case _ =>
        OrBytes(from.elems[i], from.elems[i + 1], from.elems[i + 2], from.elems[i + 3]);
        val := Or(Or(Or(Shl(from.elems[i + 3], 24), Shl(from.elems[i + 2], 16)), Shl(from.elems[i + 1], 8)),
                  from.elems[i]);
    }
  }

  method U32to8(from: TArray<u32>, to: TArray<u8>)
    modifies to
    ensures to.elems == Trim(Unpack(from.elems), 0)
  {
    hide BytesOf, Trim;
    to.Clear();
    ghost var s := from.elems;
    assert s[0..] == s;
    for i := 0 to |from.elems|
      invariant from.elems == s && to.elems + Unpack(s[i..]) == Unpack(s)
    {
      assert s[i..][1..] == s[i + 1..];
      PushWord(from.elems[i], to);
    }
    assert to.elems == Unpack(s);
    Cleanup(to, 0);
  }

  method PushWord(x: u32, to: TArray<u8>)
    modifies to
    ensures to.elems == old(to.elems) + BytesOf(x)
  {
    hide And, Shr, Trim;
    TakeBytes(x);
    var val := x;
    to.PushBack(And(val, 0xFF));
    val := Shr(val, 8);
    to.PushBack(And(val, 0xFF));
    val := Shr(val, 8);
    to.PushBack(And(val, 0xFF));
    val := Shr(val, 8);
    to.PushBack(And(val, 0xFF));
  }

  /** The low byte, four times, shifting down by eight bits in between. */
  lemma TakeBytes(x: u32)
    ensures Shr(x, 8) == x / 0x100 && Shr(x / 0x100, 8) == x / 0x1_0000 && Shr(x / 0x1_0000, 8) == x / 0x100_0000
    ensures And(x, 0xFF) == x % 0x100 && And(x / 0x100, 0xFF) == x / 0x100 % 0x100
    ensures And(x / 0x1_0000, 0xFF) == x / 0x1_0000 % 0x100 && And(x / 0x100_0000, 0xFF) == x / 0x100_0000
  {
    MaskTables(8);
    AndLow(x, 8);
    AndLow(x / 0x100, 8);
    AndLow(x / 0x1_0000, 8);
    AndLow(x / 0x100_0000, 8);
    hide And, Pow2, LowMask;
  }
}
