/** The two random generators of the library, and the bytes read from them. */
module Generators {
  import opened Arith
  import opened Arrays
  import opened Bits
  import opened Bytes
  import opened LcgTheory
  import opened NumberTheory
  import opened WordMath

  const SHIFT_BITS: nat := 9

  /** Byte j of a number, least significant first. */
  function NthByte(v: nat, j: nat): u8 {
    if j == 0 then v % 0x100 else NthByte(v / 0x100, j - 1)
  }

  /**
   Byte j to come out of a generator in state x that still holds `left` bytes in `curr`:
   first those, then `group` bytes of each following output.
   */
  function ByteToCome(a: nat, c: nat, m: nat, group: nat, x: nat, curr: nat, left: nat, j: nat): u8
    requires m > 0 && group > 0
    decreases left, j
  {
    if left > 0 then
      if j == 0 then curr % 0x100 else ByteToCome(a, c, m, group, x, curr / 0x100, left - 1, j - 1)
    else
      NthByte(Orbit(a, c, m, x, 1 + j / group) / Pow2(SHIFT_BITS), j % group)
  }

  lemma {:induction false} HeldByte(a: nat, c: nat, m: nat, group: nat, x: nat, curr: nat, left: nat, j: nat)
    requires m > 0 && group > 0 && j < left
    ensures ByteToCome(a, c, m, group, x, curr, left, j) == NthByte(curr, j)
  {
    if j > 0 {
      HeldByte(a, c, m, group, x, curr / 0x100, left - 1, j - 1);
    }
  }

  lemma {:induction false} LaterByte(a: nat, c: nat, m: nat, group: nat, x: nat, curr: nat, left: nat, j: nat)
    requires m > 0 && group > 0 && left <= j
    ensures ByteToCome(a, c, m, group, x, curr, left, j) == ByteToCome(a, c, m, group, x, 0, 0, j - left)
  {
    if left > 0 {
      LaterByte(a, c, m, group, x, curr / 0x100, left - 1, j - 1);
    }
  }

  /** Bytes taken from a number in this order are its low bytes, least significant first. */
  lemma {:induction false} NthBytes(v: nat, bytes: seq<u8>)
    requires forall j :: 0 <= j < |bytes| ==> bytes[j] == NthByte(v, j)
    ensures ByteVal(bytes) == v % Pow2(8 * |bytes|)
  {
    if bytes == [] {
      assert Pow2(0) == 1;
    } else {
      var rest, n := bytes[1..], |bytes|;
      forall j | 0 <= j < |rest|
        ensures rest[j] == NthByte(v / 0x100, j)
      {
        assert bytes[j + 1] == NthByte(v, j + 1);
      }
      NthBytes(v / 0x100, rest);
      Pow2Add(8, 8 * (n - 1));
      MaskTables(8);
      assert bytes[0] == NthByte(v, 0);
      hide Pow2, NthByte;
      LowByteAndRest(v, Pow2(8 * (n - 1)));
    }
  }

  lemma LowByteAndRest(v: nat, p: nat)
    requires p > 0
    ensures v % (0x100 * p) == v % 0x100 + 0x100 * (v / 0x100 % p)
  {
    var w := v / 0x100;
    assert w == p * (w / p) + w % p;
    MulAssoc(0x100, p, w / p);
    DivUnique(v, 0x100 * p, w / p, v % 0x100 + 0x100 * (w % p));
  }

  /** The bytes of output i are that output, least significant byte first. */
  lemma OutputBytes(a: nat, c: nat, m: nat, group: nat, x: nat, i: nat, bytes: seq<u8>)
    requires m > 0 && group > 0 && |bytes| == group
    requires forall j :: 0 <= j < group ==> bytes[j] == ByteToCome(a, c, m, group, x, 0, 0, group * i + j)
    ensures ByteVal(bytes) == Orbit(a, c, m, x, i + 1) / Pow2(SHIFT_BITS) % Pow2(8 * group)
  {
    var v := Orbit(a, c, m, x, i + 1) / Pow2(SHIFT_BITS);
    forall j | 0 <= j < group
      ensures bytes[j] == NthByte(v, j)
    {
      DivUnique(group * i + j, group, i, j);
    }
    NthBytes(v, bytes);
  }

  lemma {:induction false} OrbitShift(a: nat, c: nat, m: nat, x: nat, i: nat)
    requires m > 0
    ensures Orbit(a, c, m, (a * x + c) % m, i) == Orbit(a, c, m, x, i + 1)
  {
    if i > 0 {
      OrbitShift(a, c, m, x, i - 1);
    } else {
      assert Orbit(a, c, m, x, 0) == x;
    }
  }

  /** Refilling an empty buffer with the next output does not change what is to come. */
  lemma Refill(a: nat, c: nat, m: nat, group: nat, x: nat, j: nat)
    requires m > 0 && group > 0
    ensures var x' := (a * x + c) % m;
      ByteToCome(a, c, m, group, x', x' / Pow2(SHIFT_BITS), group, j) == ByteToCome(a, c, m, group, x, 0, 0, j)
  {
    var x' := (a * x + c) % m;
    hide Pow2, NthByte;
    if j < group {
      HeldByte(a, c, m, group, x', x' / Pow2(SHIFT_BITS), group, j);
      DivUnique(j, group, 0, j);
      OrbitShift(a, c, m, x, 0);
      OrbitStart(a, c, m, x');
    } else {
      LaterByte(a, c, m, group, x', x' / Pow2(SHIFT_BITS), group, j);
      var i := j - group;
      DivBound(i, group);
      DivUnique(j, group, i / group + 1, i % group);
      OrbitShift(a, c, m, x, 1 + i / group);
    }
  }

  lemma OrbitStart(a: nat, c: nat, m: nat, x: nat)
    requires m > 0
    ensures Orbit(a, c, m, x, 0) == x
  {
  }

  lemma OrbitNext(a: nat, c: nat, m: nat, x: nat, i: nat)
    requires m > 0
    ensures Orbit(a, c, m, x, 0) == x && Orbit(a, c, m, x, i + 1) == (a * Orbit(a, c, m, x, i) + c) % m
  {
  }

  lemma OrbitBelow(a: nat, c: nat, m: nat, x: nat, i: nat)
    requires m > 0
    ensures Orbit(a, c, m, x, i + 1) < m
  {
  }

  lemma ModOfMod(n: nat, width: nat, bits: nat)
    requires bits <= width
    ensures (n % Pow2(width)) % Pow2(bits) == n % Pow2(bits)
  {
    Pow2Add(bits, width - bits);
    var p, q, k := Pow2(bits), Pow2(width - bits), n / Pow2(width);
    hide Pow2;
    MulAssoc(p, q, k);
    DivBound(n, p * q);
    CongShift(n % (p * q), q * k, p);
  }

  lemma ShiftedBelow(v: nat, bits: nat, shift: nat)
    requires shift <= bits && v < Pow2(bits)
    ensures v / Pow2(shift) < Pow2(bits - shift)
  {
    Pow2Add(shift, bits - shift);
    DivBelow(v, Pow2(shift), Pow2(bits - shift));
  }

  lemma TopShifted(bits: nat, shift: nat)
    requires shift <= bits
    ensures (Pow2(bits) - 1) / Pow2(shift) == Pow2(bits - shift) - 1
  {
    Pow2Add(shift, bits - shift);
    var p, q := Pow2(shift), Pow2(bits - shift);
    hide Pow2;
    MulDist(p, q, 1);
    DivUnique(p * q - 1, p, q - 1, p - 1);
  }

  lemma LowByte(v: nat)
    ensures And(v, 0xFF) == v % 0x100 && v / Pow2(8) == v / 0x100
  {
    MaskTables(8);
    AndLow(v, 8);
  }

  class Lcg {
    const a: nat
    const c: nat
    const width: nat
    const bits: nat
    const group: nat
    var x: nat
    var curr: nat
    var currLeft: nat

    /** Unsigned arithmetic on `width` bits, of which the state keeps `bits`. */
    ghost predicate Valid()
      reads this
    {
      && a % 4 == 1 && c % 2 == 1 && SHIFT_BITS <= bits <= width && group > 0
      && x < Pow2(width) && currLeft <= group
    }

    /** The generator of glibc: 31 of 32 bits, three bytes of each output. */
    constructor Glibc(seed: u32)
      ensures Valid() && a == 1103515245 && c == 12345 && width == 32 && bits == 31 && group == 3
      ensures x == seed && currLeft == 0
    {
      a, c, width, bits, group := 1103515245, 12345, 32, 31, 3;
      x, curr, currLeft := seed, 0, 0;
      new;
      Pow2Word();
    }

    /** Knuth's generator: all of 64 bits, eight bytes of each output. */
    constructor Knuth(seed: u64)
      ensures Valid() && a == 6364136223846793005 && c == 1442695040888963407
      ensures width == 64 && bits == 64 && group == 8 && x == seed && currLeft == 0
    {
      a, c, width, bits, group := 6364136223846793005, 1442695040888963407, 64, 64, 8;
      x, curr, currLeft := seed, 0, 0;
      new;
      Pow2Word();
      Pow2Add(32, 32);
    }

    /** One step of the recurrence modulo 2^bits; the result leaves out the low nine bits. */
    method Next() returns (r: nat)
      requires Valid()
      modifies this`x
      ensures Valid() && x < Pow2(bits)
      ensures x == (a * old(x) + c) % Pow2(bits) == Orbit(a, c, Pow2(bits), old(x), 1)
      ensures r == x / Pow2(SHIFT_BITS) < Pow2(bits - SHIFT_BITS)
    {
      hide Pow2, Orbit, And;
      OrbitNext(a, c, Pow2(bits), x, 0);
      var wide := (a * x + c) % Pow2(width);
      AndLow(wide, bits);
      ModOfMod(a * x + c, width, bits);
      Pow2Mono(bits, width);
      OrbitStart(a, c, Pow2(bits), x);
      x := And(wide, Pow2(bits) - 1);
      r := x / Pow2(SHIFT_BITS);
      ShiftedBelow(x, bits, SHIFT_BITS);
    }

    method RandMax() returns (r: nat)
      requires Valid()
      ensures r == Pow2(bits - SHIFT_BITS) - 1
    {
      r := (Pow2(bits) - 1) / Pow2(SHIFT_BITS);
      TopShifted(bits, SHIFT_BITS);
    }

    method Reset(seed: nat)
      requires Valid() && seed < Pow2(width)
      modifies this
      ensures Valid() && x == seed && currLeft == 0
    {
      x, curr, currLeft := seed, 0, 0;
    }

    /** The byte that comes out after j more have. */
    ghost function Coming(j: nat): u8
      reads this
      requires Valid()
    {
      ByteToCome(a, c, Pow2(bits), group, x, curr, currLeft, j)
    }

    /** From an empty buffer on, each group of bytes is one output, least significant byte first. */
    lemma ReadsOutputs(i: nat, bytes: seq<u8>)
      requires Valid() && currLeft == 0 && bits - SHIFT_BITS <= 8 * group && |bytes| == group
      requires forall j :: 0 <= j < group ==> bytes[j] == Coming(group * i + j)
      ensures ByteVal(bytes) == Orbit(a, c, Pow2(bits), x, i + 1) / Pow2(SHIFT_BITS)
    {
      var m := Pow2(bits);
      hide Pow2, Orbit, NthByte;
      forall j | 0 <= j < group
        ensures bytes[j] == ByteToCome(a, c, m, group, x, 0, 0, group * i + j)
      {
        LaterByte(a, c, m, group, x, curr, 0, group * i + j);
      }
      OutputBytes(a, c, m, group, x, i, bytes);
      var v := Orbit(a, c, m, x, i + 1);
      OrbitBelow(a, c, m, x, i);
      ShiftedBelow(v, bits, SHIFT_BITS);
      Pow2Mono(bits - SHIFT_BITS, 8 * group);
      CongMod(v / Pow2(SHIFT_BITS), Pow2(8 * group));
    }

    /** A buffer half used up gives the bytes it still holds, least significant first. */
    lemma ReadsHeldBytes(j: nat)
      requires Valid() && j < currLeft
      ensures Coming(j) == NthByte(curr, j)
    {
      HeldByte(a, c, Pow2(bits), group, x, curr, currLeft, j);
    }

    /** Fills the front of the buffer with the bytes to come, however the reading is cut up. */
    method ReadAll(buffer: array<u8>, length: int) returns (st: Outcome)
      requires Valid() && length <= buffer.Length
      modifies this, buffer
      ensures Valid() && st == if length <= 0 then InvalidArgument else Ok
      ensures st == Ok ==> forall i: nat :: i < length ==> buffer[i] == old(Coming(i))
      ensures st == Ok ==> forall j: nat :: Coming(j) == old(Coming(length + j))
      ensures st == Ok ==> forall i :: length <= i < buffer.Length ==> buffer[i] == old(buffer[i])
      ensures st != Ok ==> buffer[..] == old(buffer[..]) && x == old(x) && curr == old(curr)
    {
      if length <= 0 {
        return InvalidArgument;
      }
      hide ByteToCome, Pow2;
      ghost var m, x0, curr0, left0 := Pow2(bits), x, curr, currLeft;
      for i := 0 to length
        invariant Valid()
        invariant forall k: nat :: k < i ==> buffer[k] == ByteToCome(a, c, m, group, x0, curr0, left0, k)
        invariant forall j: nat :: Coming(j) == ByteToCome(a, c, m, group, x0, curr0, left0, i + j)
        invariant forall k :: length <= k < buffer.Length ==> buffer[k] == old(buffer[k])
      {
        label before:
        assert Coming(0) == ByteToCome(a, c, m, group, x0, curr0, left0, i + 0);
        var byte := ReadByte();
        buffer[i] := byte;
        forall j: nat
          ensures Coming(j) == ByteToCome(a, c, m, group, x0, curr0, left0, i + 1 + j)
        {
          assert Coming(j) == old@before(Coming(j + 1));
          assert i + (j + 1) == i + 1 + j;
        }
      }
      return Ok;
    }

    /** The body of the reading loop. */
    method ReadByte() returns (byte: u8)
      requires Valid()
      modifies this
      ensures Valid() && byte == old(Coming(0))
      ensures forall j: nat :: Coming(j) == old(Coming(j + 1))
    {
      hide Pow2, NthByte, Orbit, And;
      if currLeft == 0 {
        forall j: nat
          ensures Coming(j) == ByteToCome(a, c, Pow2(bits), group, x, 0, 0, j)
        {
          LaterByte(a, c, Pow2(bits), group, x, curr, 0, j);
        }
        forall j: nat
          ensures var x' := Orbit(a, c, Pow2(bits), x, 1);
            ByteToCome(a, c, Pow2(bits), group, x', x' / Pow2(SHIFT_BITS), group, j) == Coming(j)
        {
          Refill(a, c, Pow2(bits), group, x, j);
          OrbitShift(a, c, Pow2(bits), x, 0);
          OrbitStart(a, c, Pow2(bits), (a * x + c) % Pow2(bits));
        }
        var r := Next();
        curr := r;
        currLeft := group;
        assert forall j: nat :: Coming(j) == old(Coming(j));
      }
      LowByte(curr);
      byte := And(curr, 0xFF);
      curr := Shr(curr, 8);
      currLeft := currLeft - 1;
    }
  }

  // ---------- what the two generators promise ----------

  /** From any state on, glibc's generator passes all 2^31 states in 2^31 calls, each output exactly 512 times. */
  lemma GlibcFullPeriod(x: nat, v: nat)
    requires x < 0x8000_0000 && v <= 0x7FFF_FFFF / 512
    ensures Orbit(1103515245, 12345, 0x8000_0000, x, 0x8000_0000) == x
    ensures forall z: nat :: z < 0x8000_0000 ==> Visits(1103515245, 12345, 0x8000_0000, x, 0x8000_0000, z)
    ensures Outputs(1103515245, 12345, 0x8000_0000, x, 0x8000_0000, SHIFT_BITS, v) == 512
  {
    hide Orbit, Visits, Outputs;
    MaskTables(31);
    MaskTables(22);
    MaskTables(9);
    FullPeriod(1103515245, 12345, 31, x);
    EquallyOften(1103515245, 12345, 31, x, SHIFT_BITS, v);
  }

  /** Knuth's passes all 2^64 states in 2^64 calls, each output exactly 512 times. */
  lemma KnuthFullPeriod(x: u64, v: nat)
    requires v <= 0xFFFF_FFFF_FFFF_FFFF / 512
    ensures var a, c, m := 6364136223846793005, 1442695040888963407, 0x1_0000_0000_0000_0000;
      && Orbit(a, c, m, x, m) == x && Outputs(a, c, m, x, m, SHIFT_BITS, v) == 512
      && forall z: nat :: z < m ==> Visits(a, c, m, x, m, z)
  {
    hide Orbit, Visits, Outputs;
    Pow2Word();
    Pow2Add(32, 32);
    MaskTables(23);
    MaskTables(9);
    Pow2Add(32, 23);
    FullPeriod(6364136223846793005, 1442695040888963407, 64, x);
    EquallyOften(6364136223846793005, 1442695040888963407, 64, x, SHIFT_BITS, v);
  }
}
