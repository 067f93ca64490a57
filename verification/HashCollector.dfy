/**
 The collector under the 64-byte hash functions: it gathers bytes into blocks for a
 compression function, counts bits in two 32-bit words, and pads the end of the message.
 */
module HashCollector {
  import opened Arith
  import opened Arrays
  import opened Bits
  import opened Bytes
  import opened WordMath

  const CBLOCK: nat := 64

  /** The compression function over the whole blocks of s. */
  function Fold<S>(compress: (S, seq<u8>) -> S, h: S, s: seq<u8>): S {
    if |s| < CBLOCK then h else Fold(compress, compress(h, s[..CBLOCK]), s[CBLOCK..])
  }

  lemma {:induction false} FoldAppend<S>(compress: (S, seq<u8>) -> S, h: S, a: seq<u8>, b: seq<u8>)
    requires |a| % CBLOCK == 0
    ensures Fold(compress, h, a + b) == Fold(compress, Fold(compress, h, a), b)
    decreases |a|
  {
    if a == [] {
      assert a + b == b;
    } else {
      assert (a + b)[..CBLOCK] == a[..CBLOCK] && (a + b)[CBLOCK..] == a[CBLOCK..] + b;
      FoldAppend(compress, compress(h, a[..CBLOCK]), a[CBLOCK..], b);
    }
  }

  /** A 64-bit length as eight bytes, in the byte order of the hash. */
  function LengthField(v: nat, bigEndian: bool): (field: seq<u8>)
    ensures |field| == 8
  {
    var low, high := BytesOf(v % 0x1_0000_0000), BytesOf(v / 0x1_0000_0000 % 0x1_0000_0000);
    if bigEndian then Reversed(high) + Reversed(low) else low + high
  }

  /** How many zero bytes bring the marked message to 8 bytes short of a block. */
  function PadZeros(n: nat): nat {
    (55 - n) % 64
  }

  /** The message, the bit 1, the fewest zero bits that fit, and the length in bits (section 5.1.1 of FIPS 180-4). */
  function Padded(m: seq<u8>, bigEndian: bool): seq<u8> {
    m + ([0x80] + Zeros(PadZeros(|m|))) + LengthField(8 * |m| % 0x1_0000_0000_0000_0000, bigEndian)
  }

  lemma PaddedLength(m: seq<u8>, bigEndian: bool)
    ensures |Padded(m, bigEndian)| % CBLOCK == 0
    ensures |m| + 9 <= |Padded(m, bigEndian)| < |m| + 9 + CBLOCK
  {
    hide LengthField, PadZeros;
    PadFits(|m|);
    assert |Padded(m, bigEndian)| == |m| + 9 + PadZeros(|m|);
  }

  /** The padded message, byte by byte: the message, the mark, zeros, and the bit length modulo 2^64. */
  lemma PaddedShape(m: seq<u8>, bigEndian: bool)
    ensures var p, n := Padded(m, bigEndian), |Padded(m, bigEndian)|;
      && n >= |m| + 9 && p[..|m|] == m && p[|m|] == 0x80
      && (forall i :: |m| < i < n - 8 ==> p[i] == 0)
      && 8 * |m| % 0x1_0000_0000_0000_0000
         == ByteVal(if bigEndian then Reversed(p[n - 8..]) else p[n - 8..])
  {
    var v := 8 * |m| % 0x1_0000_0000_0000_0000;
    LengthFieldVal(v, bigEndian);
    hide LengthField, PadZeros, ByteVal;
    TwoParts(m, [0x80] + Zeros(PadZeros(|m|)), LengthField(v, bigEndian), Padded(m, bigEndian));
  }

  lemma PadFits(n: nat)
    ensures PadZeros(n) < CBLOCK && (n + 9 + PadZeros(n)) % CBLOCK == 0
  {
  }

  lemma FieldIsLowHigh(v: nat, bigEndian: bool)
    ensures (if bigEndian then Reversed(LengthField(v, bigEndian)) else LengthField(v, bigEndian))
      == BytesOf(v % 0x1_0000_0000) + BytesOf(v / 0x1_0000_0000 % 0x1_0000_0000)
  {
    var low, high := v % 0x1_0000_0000, v / 0x1_0000_0000 % 0x1_0000_0000;
    BytesOfWord(low);
    BytesOfWord(high);
    hide BytesOf;
    assert Reversed(Reversed(BytesOf(high)) + Reversed(BytesOf(low))) == BytesOf(low) + BytesOf(high);
  }

  lemma EightBytes(low: u32, high: u32)
    ensures ByteVal(BytesOf(low) + BytesOf(high)) == low + 0x1_0000_0000 * high
  {
    BytesOfWord(low);
    BytesOfWord(high);
    hide BytesOf;
    var l, h := BytesOf(low), BytesOf(high);
    FourBytes(l + h);
    assert (l + h)[4..] == h && forall k: nat :: k < 4 ==> ByteAt(l + h, k) == ByteAt(l, k);
    FourBytes(h);
    assert h[4..] == [];
  }

  /** The length field is the length: eight bytes, most or least significant first. */
  lemma LengthFieldVal(v: nat, bigEndian: bool)
    requires v < 0x1_0000_0000_0000_0000
    ensures ByteVal(if bigEndian then Reversed(LengthField(v, bigEndian)) else LengthField(v, bigEndian)) == v
  {
    hide LengthField, Reversed, BytesOf, ByteVal;
    DivBelow(v, 0x1_0000_0000, 0x1_0000_0000);
    FieldIsLowHigh(v, bigEndian);
    EightBytes(v % 0x1_0000_0000, v / 0x1_0000_0000);
  }

  lemma LastEight(m: seq<u8>, bigEndian: bool)
    requires |m| < 0x2000_0000_0000_0000
    ensures var p := Padded(m, bigEndian);
      |p| >= |m| + 8 && p[..|m|] == m && p[|p| - 8..] == LengthField(8 * |m|, bigEndian)
  {
    LengthFieldVal(8 * |m|, bigEndian);
    SmallLength(|m|);
    hide LengthField, PadZeros;
    TwoParts(m, [0x80] + Zeros(PadZeros(|m|)), LengthField(8 * |m|, bigEndian), Padded(m, bigEndian));
  }

  lemma SmallLength(n: nat)
    requires n < 0x2000_0000_0000_0000
    ensures 8 * n % 0x1_0000_0000_0000_0000 == 8 * n
  {
  }

  lemma TwoParts(m: seq<u8>, pad: seq<u8>, field: seq<u8>, all: seq<u8>)
    requires |field| == 8 && all == m + pad + field
    ensures |all| >= |m| + 8 && all[..|m|] == m && all[|all| - 8..] == field
  {
  }

  /** Different messages below 2^61 bytes have different padded forms. */
  lemma PaddingInjective(m: seq<u8>, n: seq<u8>, bigEndian: bool)
    requires |m| < 0x2000_0000_0000_0000 && |n| < 0x2000_0000_0000_0000
    requires Padded(m, bigEndian) == Padded(n, bigEndian)
    ensures m == n
  {
    hide LengthField, Reversed;
    var p, q := Padded(m, bigEndian), Padded(n, bigEndian);
    LengthFieldVal(8 * |m|, bigEndian);
    LengthFieldVal(8 * |n|, bigEndian);
    LastEight(m, bigEndian);
    LastEight(n, bigEndian);
    hide Padded;
    assert m == p[..|m|] && n == q[..|n|];
  }

  /** The split bit counter: low word with carry, then the high part of the length. */
  lemma CountBits(nh: u32, nl: u32, total: nat, len: nat, l: u32, nh': u32)
    requires nh * 0x1_0000_0000 + nl == 8 * total % 0x1_0000_0000_0000_0000
    requires l == (nl as int + (len % 0x1_0000_0000) * 8 % 0x1_0000_0000) % 0x1_0000_0000
    requires nh' == ((if l < nl then (nh as int + 1) % 0x1_0000_0000 else nh) + len / 0x2000_0000 % 0x1_0000_0000)
                    % 0x1_0000_0000
    ensures nh' * 0x1_0000_0000 + l == 8 * (total + len) % 0x1_0000_0000_0000_0000
  {
    var high, low := len / 0x2000_0000, len % 0x2000_0000;
    LowLength(len);
    var carry := if l < nl then 1 else 0;
    CarryOut(nl, 8 * low, l);
    var k, j := WrapCount(nh, carry, high, nh');
    var t := 8 * total / 0x1_0000_0000_0000_0000;
    DivUnique(8 * (total + len), 0x1_0000_0000_0000_0000, t + k, nh' * 0x1_0000_0000 + l);
  }

  lemma LowLength(len: nat)
    ensures (len % 0x1_0000_0000) * 8 % 0x1_0000_0000 == 8 * (len % 0x2000_0000)
  {
    var a, b := len / 0x1_0000_0000, len % 0x1_0000_0000;
    var c, d := b / 0x2000_0000, b % 0x2000_0000;
    DivUnique(len, 0x2000_0000, 8 * a + c, d);
    DivUnique(b * 8, 0x1_0000_0000, c, 8 * d);
  }

  lemma CarryOut(nl: u32, add: u32, l: u32)
    requires l == (nl as int + add) % 0x1_0000_0000
    ensures nl as int + add == l as int + if l < nl then 0x1_0000_0000 else 0
  {
  }

  /** How often the high word has wrapped around. */
  lemma WrapCount(nh: u32, carry: nat, high: nat, nh': u32) returns (k: nat, j: nat)
    requires carry <= 1
    requires nh' == ((if carry == 1 then (nh as int + 1) % 0x1_0000_0000 else nh) + high % 0x1_0000_0000)
                    % 0x1_0000_0000
    ensures nh as int + carry + high == nh' as int + 0x1_0000_0000 * k
  {
    j := high / 0x1_0000_0000;
    var x: int := if carry == 1 then (nh as int + 1) % 0x1_0000_0000 else nh;
    k := j + (x + high % 0x1_0000_0000) / 0x1_0000_0000 + (nh as int + carry) / 0x1_0000_0000;
  }

  class HashCtx<S> {
    const compress: (S, seq<u8>) -> S
    const bigEndian: bool
    var h: S
    var nl: u32
    var nh: u32
    var num: nat
    const data: array<u8>
    /** The state the hash starts from, and the bytes hashed so far. */
    ghost const start: S
    ghost var message: seq<u8>

    /** The bytes not yet compressed are in the buffer, the rest of it is zero. */
    ghost predicate Collected()
      reads this, data
    {
      && data.Length == CBLOCK && num < CBLOCK && num <= |message| && (|message| - num) % CBLOCK == 0
      && data[..] == message[|message| - num..] + Zeros(CBLOCK - num)
      && h == Fold(compress, start, message[..|message| - num])
    }

    ghost predicate Counted(total: nat)
      reads this
    {
      nh * 0x1_0000_0000 + nl == 8 * total % 0x1_0000_0000_0000_0000
    }

    ghost predicate Valid()
      reads this, data
    {
      Collected() && Counted(|message|)
    }

    constructor (compress: (S, seq<u8>) -> S, start: S, bigEndian: bool)
      ensures Valid() && message == [] && fresh(data)
      ensures this.compress == compress && this.start == start && this.bigEndian == bigEndian
    {
      this.compress, this.start, this.bigEndian := compress, start, bigEndian;
      h, nl, nh, num, message := start, 0, 0, 0, [];
      data := new u8[CBLOCK](_ => 0);
    }

    /** The compression function over n blocks of s. */
    method Blocks(s: seq<u8>, n: nat)
      requires CBLOCK * n <= |s|
      modifies this`h
      ensures h == Fold(compress, old(h), s[..CBLOCK * n])
    {
      assert s[..0] == [];
      for i := 0 to n
        invariant h == Fold(compress, old(h), s[..CBLOCK * i])
      {
        var block := s[CBLOCK * i..CBLOCK * (i + 1)];
        assert s[..CBLOCK * (i + 1)] == s[..CBLOCK * i] + block;
        FoldAppend(compress, old(h), s[..CBLOCK * i], block);
        OneBlock(compress, h, block);
        h := compress(h, block);
      }
    }

    /** memcpy into the block buffer. */
    method Store(at: nat, bytes: seq<u8>)
      requires data.Length == CBLOCK && at + |bytes| <= CBLOCK
      modifies data
      ensures data[..] == old(data[..at]) + bytes + old(data[at + |bytes|..])
    {
      forall i | 0 <= i < |bytes| {
        data[at + i] := bytes[i];
      }
    }

    /** memset with zero on part of the block buffer. */
    method Zero(at: nat, n: nat)
      requires data.Length == CBLOCK && at + n <= CBLOCK
      modifies data
      ensures data[..] == old(data[..at]) + Zeros(n) + old(data[at + n..])
    {
      forall i | at <= i < at + n {
        data[i] := 0;
      }
    }

    method CountLength(len: nat)
      requires Counted(|message|)
      modifies this`nl, this`nh
      ensures Counted(|message| + len)
    {
      var l: u32 := (nl as int + (len % 0x1_0000_0000) * 8 % 0x1_0000_0000) % 0x1_0000_0000;
      ghost var highBefore, lowBefore := nh, nl;
      if l < nl {
        nh := (nh as int + 1) % 0x1_0000_0000;
      }
      nh := (nh as int + len / 0x2000_0000 % 0x1_0000_0000) % 0x1_0000_0000;
      nl := l;
      CountBits(highBefore, lowBefore, |message|, len, nl, nh);
    }

    /** Fewer bytes than the block still needs. */
    method Gather(bytes: seq<u8>)
      requires Collected() && num + |bytes| < CBLOCK
      modifies data, this`num, this`message
      ensures Collected() && message == old(message) + bytes
    {
      Store(num, bytes);
      num := num + |bytes|;
      ghost var m := message;
      message := message + bytes;
      assert message[..|message| - num] == m[..|m| - old(num)];
      assert data[..] == message[|message| - num..] + Zeros(CBLOCK - num);
    }

    /** Exactly the bytes the block still needs: it is compressed and the buffer zeroed. */
    method FillBlock(bytes: seq<u8>)
      requires Collected() && num + |bytes| == CBLOCK
      modifies data, this`num, this`h, this`message
      ensures Collected() && message == old(message) + bytes && num == 0
    {
      ghost var m, k := message, |message| - num;
      Store(num, bytes);
      assert data[..] == m[k..] + bytes;
      Blocks(data[..], 1);
      assert data[..][..CBLOCK] == data[..];
      message := message + bytes;
      assert message == m[..k] + (m[k..] + bytes);
      FoldAppend(compress, start, m[..k], m[k..] + bytes);
      num := 0;
      Zero(0, CBLOCK);
      assert message[..|message|] == message && message[|message|..] == [];
    }

    /** Whole blocks straight from the input, with nothing waiting in the buffer. */
    method WholeBlocks(s: seq<u8>, n: nat)
      requires Collected() && num == 0 && CBLOCK * n == |s|
      modifies this`h, this`message
      ensures Collected() && message == old(message) + s
    {
      Blocks(s, n);
      assert s[..CBLOCK * n] == s;
      assert message[..|message|] == message && (message + s)[..|message + s|] == message + s;
      FoldAppend(compress, start, message, s);
      message := message + s;
      assert message[|message|..] == old(message)[|old(message)|..];
    }

    /** Adds the bytes to the message; how they are cut into calls leaves no trace. */
    method Update(input: seq<u8>)
      requires Valid()
      modifies this, data
      ensures Valid() && message == old(message) + input
    {
      if |input| == 0 {
        assert message + input == message;
        return;
      }
      hide Collected;
      CountLength(|input|);
      AddBytes(input);
    }

    /** Fills up the buffer first if something is in it. */
    method AddBytes(input: seq<u8>)
      requires Collected()
      modifies data, this`num, this`h, this`message
      ensures Collected() && message == old(message) + input
    {
      hide Collected;
      if num != 0 {
        BufferBound();
        if |input| >= CBLOCK || |input| + num >= CBLOCK {
          var n := CBLOCK - num;
          ghost var m := message;
          FillBlock(input[..n]);
          TakeRest(input[n..]);
          assert m + input[..n] + input[n..] == m + input;
        } else {
          Gather(input);
        }
      } else {
        TakeRest(input);
      }
    }

    /** Whole blocks from the input, then what remains into the empty buffer. */
    method TakeRest(input: seq<u8>)
      requires Collected() && num == 0
      modifies data, this`num, this`h, this`message
      ensures Collected() && message == old(message) + input
    {
      hide Collected;
      var rest := input;
      var n := |rest| / CBLOCK;
      if n > 0 {
        var whole := rest[..CBLOCK * n];
        assert whole + rest[CBLOCK * n..] == rest;
        WholeBlocks(whole, n);
        rest := rest[CBLOCK * n..];
        assert message + rest == old(message) + input;
      }
      if |rest| != 0 {
        Gather(rest);
      } else {
        assert message + rest == message;
      }
    }

    lemma BufferBound()
      requires Collected()
      ensures num < CBLOCK
    {
    }

    /** One 32-bit word into the buffer, in the byte order of the hash. */
    method PutWord(at: nat, l: u32)
      requires data.Length == CBLOCK && at + 4 <= CBLOCK
      modifies data
      ensures data[..] ==
        old(data[..at]) + (if bigEndian then Reversed(BytesOf(l)) else BytesOf(l)) + old(data[at + 4..])
    {
      WordBytes(l);
      hide Shr, And;
      if bigEndian {
        data[at], data[at + 1] := And(Shr(l, 24), 0xFF), And(Shr(l, 16), 0xFF);
        data[at + 2], data[at + 3] := And(Shr(l, 8), 0xFF), And(l, 0xFF);
      } else {
        data[at], data[at + 1] := And(l, 0xFF), And(Shr(l, 8), 0xFF);
        data[at + 2], data[at + 3] := And(Shr(l, 16), 0xFF), And(Shr(l, 24), 0xFF);
      }
    }

    /** The bit length goes into the last eight bytes of the buffer. */
    method PutLength(ghost total: nat)
      requires data.Length == CBLOCK && Counted(total)
      modifies data
      ensures data[..] == old(data[..CBLOCK - 8]) + LengthField(8 * total % 0x1_0000_0000_0000_0000, bigEndian)
    {
      SplitCounter(nh, nl);
      hide BytesOf;
      ghost var front := data[..CBLOCK - 8];
      if bigEndian {
        PutWord(CBLOCK - 8, nh);
        PutWord(CBLOCK - 4, nl);
      } else {
        PutWord(CBLOCK - 8, nl);
        PutWord(CBLOCK - 4, nh);
      }
    }

    /** Compresses the block in the buffer. */
    method CompressBuffer(ghost done: seq<u8>)
      requires data.Length == CBLOCK && |done| % CBLOCK == 0 && h == Fold(compress, start, done)
      modifies this`h
      ensures h == Fold(compress, start, done + data[..])
    {
      Blocks(data[..], 1);
      assert data[..][..CBLOCK] == data[..];
      FoldAppend(compress, start, done, data[..]);
    }

    /** Compresses the first n bytes of the buffer, filled up with zeros. */
    method FillUp(n: nat, ghost done: seq<u8>, ghost part: seq<u8>)
      requires data.Length == CBLOCK && |done| % CBLOCK == 0 && h == Fold(compress, start, done)
      requires n <= CBLOCK && data[..n] == part
      modifies data, this`h
      ensures h == Fold(compress, start, done + (part + Zeros(CBLOCK - n)))
    {
      hide Fold;
      Zero(n, CBLOCK - n);
      assert data[..] == part + Zeros(CBLOCK - n);
      CompressBuffer(done);
    }

    /** The end mark, and a block compressed early when the length would not fit behind it. */
    method MarkEnd() returns (n: nat, ghost done: seq<u8>, ghost part: seq<u8>)
      requires Valid()
      modifies data, this`h
      ensures n == |part| <= CBLOCK - 8 && data[..n] == part
      ensures |done| % CBLOCK == 0 && h == Fold(compress, start, done)
      ensures Padded(message, bigEndian) == done + (part + Zeros(CBLOCK - 8 - n) +
        LengthField(8 * |message| % 0x1_0000_0000_0000_0000, bigEndian))
    {
      hide Fold, Padded, LengthField, Counted;
      PaddedBlocks(message, num, bigEndian);
      ghost var k := |message| - num;
      done, part := message[..k], message[k..] + [0x80];
      n := num;
      data[n] := 0x80;
      n := n + 1;
      assert data[..n] == part;
      if n > CBLOCK - 8 {
        FillUp(n, done, part);
        done, part := done + (part + Zeros(CBLOCK - n)), [];
        n := 0;
      }
    }

    /** The padding and the length complete the message; the state is then the hash of its padded form. */
    method Final()
      requires Valid()
      modifies this, data
      ensures h == Fold(compress, start, Padded(old(message), bigEndian))
      ensures num == 0 && data[..] == Zeros(CBLOCK)
    {
      hide Fold, Padded, LengthField;
      var n, done, part := MarkEnd();
      Zero(n, CBLOCK - 8 - n);
      assert data[..CBLOCK - 8] == part + Zeros(CBLOCK - 8 - n);
      PutLength(|message|);
      CompressBuffer(done);
      num := 0;
      Zero(0, CBLOCK);
    }
  }

  lemma WordBytes(l: u32)
    ensures And(l, 0xFF) == BytesOf(l)[0] && And(Shr(l, 8), 0xFF) == BytesOf(l)[1]
    ensures And(Shr(l, 16), 0xFF) == BytesOf(l)[2] && And(Shr(l, 24), 0xFF) == BytesOf(l)[3]
  {
    hide And, Pow2;
    ByteShifts();
    TakeBytes(l);
  }

  lemma SplitCounter(nh: u32, nl: u32)
    ensures (nh * 0x1_0000_0000 + nl) % 0x1_0000_0000 == nl
    ensures (nh * 0x1_0000_0000 + nl) / 0x1_0000_0000 % 0x1_0000_0000 == nh
  {
  }

  /** The padded message cut where the last buffer begins: one more block, or two. */
  lemma PaddedBlocks(m: seq<u8>, num: nat, bigEndian: bool)
    requires num < CBLOCK && num <= |m| && (|m| - num) % CBLOCK == 0
    ensures var k, field := |m| - num, LengthField(8 * |m| % 0x1_0000_0000_0000_0000, bigEndian);
      Padded(m, bigEndian) ==
        if num + 1 > CBLOCK - 8
        then m[..k] + (m[k..] + [0x80] + Zeros(CBLOCK - num - 1)) + ([] + Zeros(CBLOCK - 8 - 0) + field)
        else m[..k] + (m[k..] + [0x80] + Zeros(CBLOCK - 8 - num - 1) + field)
  {
    hide LengthField;
    var k, z := |m| - num, PadZeros(|m|);
    assert m == m[..k] + m[k..];
    if num + 1 > CBLOCK - 8 {
      assert z == (CBLOCK - num - 1) + (CBLOCK - 8);
      assert Zeros(z) == Zeros(CBLOCK - num - 1) + Zeros(CBLOCK - 8);
    } else {
      assert z == CBLOCK - 8 - num - 1;
    }
  }

  lemma OneBlock<S>(compress: (S, seq<u8>) -> S, h: S, block: seq<u8>)
    requires |block| == CBLOCK
    ensures Fold(compress, h, block) == compress(h, block)
  {
    assert block[..CBLOCK] == block && block[CBLOCK..] == [];
  }
}
