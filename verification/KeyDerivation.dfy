/** Keyed hashes (section 2 of RFC 2104) and password-based keys (section 5.2 of RFC 2898), over any hash. */
module KeyDerivation {
  import opened Arith
  import opened Arrays
  import opened Bits
  import opened Bytes
  import opened WordMath

  function XorByte(x: u8, y: u8): u8 {
    assert Pow2(8) == 0x100 by {
      Pow2Add(4, 4);
      assert Pow2(4) == 16;
    }
    XorBelow(x, y, 8);
    Xor(x, y)
  }

  function XorAll(a: seq<u8>, b: seq<u8>): (r: seq<u8>)
    requires |a| == |b|
    ensures |r| == |a|
  {
    seq(|a|, i requires 0 <= i < |a| => XorByte(a[i], b[i]))
  }

  // ---------- hmac ----------

  /** A hasher: what it was given so far, and the hash of that. */
  class Hasher {
    const hash: seq<u8> -> seq<u8>
    var written: seq<u8>

    constructor (hash: seq<u8> -> seq<u8>)
      ensures this.hash == hash && written == []
    {
      this.hash, written := hash, [];
    }

    method Write(bytes: seq<u8>)
      modifies this
      ensures written == old(written) + bytes
    {
      written := written + bytes;
    }

    method GetHash() returns (r: seq<u8>)
      ensures r == hash(written)
    {
      r := hash(written);
    }
  }

  /** The key hashed if it is longer than a block, then filled up to a block with zeros. */
  function BlockKey(hash: seq<u8> -> seq<u8>, blocksize: nat, key: seq<u8>): seq<u8> {
    var k := if |key| > blocksize then hash(key) else key;
    k + Zeros(Max(0, blocksize - |k|))
  }

  function Masked(mask: u8, key: seq<u8>): (r: seq<u8>)
    ensures |r| == |key|
  {
    seq(|key|, i requires 0 <= i < |key| => XorByte(mask, key[i]))
  }

  function HmacOf(hash: seq<u8> -> seq<u8>, blocksize: nat, key: seq<u8>, message: seq<u8>): seq<u8> {
    var k := BlockKey(hash, blocksize, key);
    hash(Masked(0x5c, k) + hash(Masked(0x36, k) + message))
  }

  method MaskKey(mask: u8, key: seq<u8>) returns (pad: seq<u8>)
    ensures pad == Masked(mask, key)
  {
    pad := seq(|key|, _ => mask);
    for i := 0 to |key|
      invariant |pad| == |key| && pad[..i] == Masked(mask, key)[..i]
      invariant forall j :: i <= j < |key| ==> pad[j] == mask
    {
      pad := pad[i := XorByte(pad[i], key[i])];
    }
  }

  /** Which bits of a masked byte are those of the key and which are turned over. */
  lemma MaskedBits(mask: u8, key: seq<u8>, i: nat, b: nat)
    requires i < |key|
    ensures Masked(mask, key)[i] / Pow2(b) % 2 != key[i] / Pow2(b) % 2 <==> mask / Pow2(b) % 2 == 1
  {
    hide Pow2, Xor;
    XorBits(mask, key[i], b);
  }

  /**
   hash(outer + hash(inner + message)): k is the key, or its hash if it is longer than a block, followed by
   zeros; inner is k with the bits of 0x36 turned over, outer k with those of 0x5c.
   */
  method Hmac(hash: seq<u8> -> seq<u8>, blocksize: nat, key: seq<u8>, message: seq<u8>)
      returns (mac: seq<u8>, ghost k: seq<u8>, ghost inner: seq<u8>, ghost outer: seq<u8>)
    requires |key| > blocksize ==> |hash(key)| <= blocksize
    ensures mac == HmacOf(hash, blocksize, key, message)
    ensures mac == hash(outer + hash(inner + message)) && |k| == |inner| == |outer| == blocksize
    ensures if |key| > blocksize then hash(key) <= k else key <= k
    ensures forall i :: (if |key| > blocksize then |hash(key)| else |key|) <= i < blocksize ==> k[i] == 0
    ensures forall i, b: nat :: 0 <= i < blocksize ==>
      (inner[i] / Pow2(b) % 2 != k[i] / Pow2(b) % 2 <==> 0x36 / Pow2(b) % 2 == 1)
    ensures forall i, b: nat :: 0 <= i < blocksize ==>
      (outer[i] / Pow2(b) % 2 != k[i] / Pow2(b) % 2 <==> 0x5c / Pow2(b) % 2 == 1)
  {
    var padded := key;
    if |padded| > blocksize {
      var h := new Hasher(hash);
      h.Write(padded);
      assert h.written == key;
      padded := h.GetHash();
    }
    padded := PadKey(padded, blocksize);
    var oKeyPad := MaskKey(0x5c, padded);
    var iKeyPad := MaskKey(0x36, padded);
    k, inner, outer := padded, iKeyPad, oKeyPad;
    forall i, b: nat | 0 <= i < blocksize
      ensures inner[i] / Pow2(b) % 2 != k[i] / Pow2(b) % 2 <==> 0x36 / Pow2(b) % 2 == 1
      ensures outer[i] / Pow2(b) % 2 != k[i] / Pow2(b) % 2 <==> 0x5c / Pow2(b) % 2 == 1
    {
      MaskedBits(0x36, k, i, b);
      MaskedBits(0x5c, k, i, b);
    }
    mac := TwoHashes(hash, oKeyPad, iKeyPad, message);
  }

  /** The key filled up with zeros, byte by byte. */
  method PadKey(key: seq<u8>, blocksize: nat) returns (k: seq<u8>)
    requires |key| <= blocksize
    ensures k == key + Zeros(blocksize - |key|)
  {
    k := key;
    while |k| < blocksize
      invariant key <= k && |k| <= blocksize && k[|key|..] == Zeros(|k| - |key|)
    {
      k := k + [0x00];
    }
    assert k == key + k[|key|..];
  }

  method TwoHashes(hash: seq<u8> -> seq<u8>, outer: seq<u8>, inner: seq<u8>, message: seq<u8>)
      returns (mac: seq<u8>)
    ensures mac == hash(outer + hash(inner + message))
  {
    var h1 := new Hasher(hash);
    h1.Write(inner);
    if |message| > 0 {
      h1.Write(message);
    }
    assert h1.written == inner + message;
    var res1 := h1.GetHash();
    var h2 := new Hasher(hash);
    h2.Write(outer);
    h2.Write(res1);
    assert h2.written == outer + res1;
    mac := h2.GetHash();
  }

  lemma {:induction false} TrimZeros(s: seq<u8>)
    ensures |Trim(s, 0)| <= |s| && s == Trim(s, 0) + Zeros(|s| - |Trim(s, 0)|)
  {
    if s != [] && s[|s| - 1] == 0 {
      TrimZeros(s[..|s| - 1]);
      assert s == s[..|s| - 1] + [0];
    }
  }

  lemma {:induction false} TrimPadded(s: seq<u8>, n: nat)
    ensures Trim(s + Zeros(n), 0) == Trim(s, 0)
  {
    if n > 0 {
      var t := s + Zeros(n);
      assert t[..|t| - 1] == s + Zeros(n - 1) && t[|t| - 1] == 0;
      TrimPadded(s, n - 1);
    } else {
      assert s + Zeros(0) == s;
    }
  }

  lemma {:induction false} MaskIsInjective(mask: u8, a: seq<u8>, b: seq<u8>)
    requires |a| == |b|
    ensures Masked(mask, a) == Masked(mask, b) <==> a == b
  {
    hide Xor;
    if Masked(mask, a) == Masked(mask, b) {
      forall i | 0 <= i < |a|
        ensures a[i] == b[i]
      {
        assert Masked(mask, a)[i] == Masked(mask, b)[i];
        XorCancels(mask, a[i], b[i]);
      }
    }
  }

  lemma ShortKey(hash: seq<u8> -> seq<u8>, blocksize: nat, key: seq<u8>)
    requires |key| <= blocksize
    ensures BlockKey(hash, blocksize, key) == key + Zeros(blocksize - |key|)
    ensures |BlockKey(hash, blocksize, key)| == blocksize
  {
  }

  /** Keys of at most a block feed the same bytes to the hash exactly when they differ in trailing zeros only. */
  lemma SameKeys(hash: seq<u8> -> seq<u8>, blocksize: nat, k1: seq<u8>, k2: seq<u8>, mask: u8)
    requires |k1| <= blocksize && |k2| <= blocksize
    ensures Masked(mask, BlockKey(hash, blocksize, k1)) == Masked(mask, BlockKey(hash, blocksize, k2))
       <==> Trim(k1, 0) == Trim(k2, 0)
  {
    ShortKey(hash, blocksize, k1);
    ShortKey(hash, blocksize, k2);
    hide Masked, Trim, BlockKey, Zeros;
    var b1, b2 := BlockKey(hash, blocksize, k1), BlockKey(hash, blocksize, k2);
    MaskIsInjective(mask, b1, b2);
    TrimPadded(k1, blocksize - |k1|);
    TrimPadded(k2, blocksize - |k2|);
    TrimZeros(b1);
    TrimZeros(b2);
  }

  // ---------- pbkdf2 ----------

  type Prf = (seq<u8>, seq<u8>) -> seq<u8>

  datatype PrfPointer = Null | Function(call: Prf)

  /** All hashes have the same number of bytes. */
  ghost predicate HashLength(prf: Prf, n: nat) {
    n > 0 && forall password, text :: |prf(password, text)| == n
  }

  /** U_(j+1) of block i. */
  function Iterate(prf: Prf, password: seq<u8>, salt: seq<u8>, i: u32, j: nat): seq<u8> {
    if j == 0 then prf(password, salt + Reversed(BytesOf(i)))
    else prf(password, Iterate(prf, password, salt, i, j - 1))
  }

  /** T_i, the exclusive or of c iterates. */
  ghost function BlockOf(prf: Prf, password: seq<u8>, salt: seq<u8>, i: u32, c: nat, n: nat): (r: seq<u8>)
    requires HashLength(prf, n) && c > 0
    ensures |r| == n
  {
    var u := Iterate(prf, password, salt, i, c - 1);
    assert |u| == n;
    if c == 1 then u else XorAll(BlockOf(prf, password, salt, i, c - 1, n), u)
  }

  /** U_1 hashes the salt and the number of the block as four bytes, most significant first. */
  lemma FirstIterate(prf: Prf, password: seq<u8>, salt: seq<u8>, i: u32) returns (four: seq<u8>)
    ensures |four| == 4
    ensures 0x100_0000 * four[0] as int + 0x1_0000 * four[1] as int + 0x100 * four[2] as int + four[3] == i
    ensures Iterate(prf, password, salt, i, 0) == prf(password, salt + four)
  {
    four := Reversed(BytesOf(i));
    BytesOfWord(i);
  }

  lemma NextIterate(prf: Prf, password: seq<u8>, salt: seq<u8>, i: u32, j: nat)
    ensures Iterate(prf, password, salt, i, j + 1) == prf(password, Iterate(prf, password, salt, i, j))
  {
  }

  ghost function IterateByte(prf: Prf, password: seq<u8>, salt: seq<u8>, i: u32, j: nat, n: nat, q: nat): u8
    requires HashLength(prf, n) && q < n
  {
    var u := Iterate(prf, password, salt, i, j);
    assert |u| == n;
    u[q]
  }

  /** The iterates among the first c whose byte q has bit b set. */
  ghost function OddIterates(prf: Prf, password: seq<u8>, salt: seq<u8>, i: u32, c: nat, n: nat, q: nat, b: nat)
    : set<nat>
    requires HashLength(prf, n) && q < n
  {
    set j: nat | j < c && IterateByte(prf, password, salt, i, j, n, q) / Pow2(b) % 2 == 1
  }

  lemma OddIteratesAre(prf: Prf, password: seq<u8>, salt: seq<u8>, i: u32, c: nat, n: nat, q: nat, b: nat, j: nat)
    requires HashLength(prf, n) && q < n
    ensures var u := Iterate(prf, password, salt, i, j);
      |u| == n && (j in OddIterates(prf, password, salt, i, c, n, q, b) <==> j < c && u[q] / Pow2(b) % 2 == 1)
  {
    assert |Iterate(prf, password, salt, i, j)| == n;
  }

  lemma OneMoreIterate(prf: Prf, password: seq<u8>, salt: seq<u8>, i: u32, c: nat, n: nat, q: nat, b: nat)
    requires HashLength(prf, n) && q < n
    ensures |OddIterates(prf, password, salt, i, 0, n, q, b)| == 0
    ensures |OddIterates(prf, password, salt, i, c + 1, n, q, b)| == |OddIterates(prf, password, salt, i, c, n, q, b)|
      + (if IterateByte(prf, password, salt, i, c, n, q) / Pow2(b) % 2 == 1 then 1 else 0)
  {
    hide IterateByte, HashLength, Pow2;
    var before := OddIterates(prf, password, salt, i, c, n, q, b);
    var now := OddIterates(prf, password, salt, i, c + 1, n, q, b);
    assert now == before + (if IterateByte(prf, password, salt, i, c, n, q) / Pow2(b) % 2 == 1 then {c} else {});
    assert OddIterates(prf, password, salt, i, 0, n, q, b) == {};
  }

  lemma BlockByte(prf: Prf, password: seq<u8>, salt: seq<u8>, i: u32, c: nat, n: nat, q: nat)
    requires HashLength(prf, n) && c > 0 && q < n
    ensures BlockOf(prf, password, salt, i, c, n)[q] ==
      if c == 1 then IterateByte(prf, password, salt, i, 0, n, q)
      else XorByte(BlockOf(prf, password, salt, i, c - 1, n)[q], IterateByte(prf, password, salt, i, c - 1, n, q))
  {
    hide XorByte;
  }

  /** Bit b of byte q of T_i is the parity of the iterates that have it. */
  lemma {:induction false} BlockBits(prf: Prf, password: seq<u8>, salt: seq<u8>, i: u32, c: nat, n: nat, q: nat, b: nat)
    requires HashLength(prf, n) && c > 0 && q < n
    ensures BlockOf(prf, password, salt, i, c, n)[q] / Pow2(b) % 2
      == |OddIterates(prf, password, salt, i, c, n, q, b)| % 2
  {
    hide HashLength, BlockOf, IterateByte, OddIterates, Pow2, Xor;
    OneMoreIterate(prf, password, salt, i, c - 1, n, q, b);
    BlockByte(prf, password, salt, i, c, n, q);
    if c > 1 {
      BlockBits(prf, password, salt, i, c - 1, n, q, b);
      XorBits(BlockOf(prf, password, salt, i, c - 1, n)[q], IterateByte(prf, password, salt, i, c - 1, n, q), b);
    }
  }

  lemma MoreBytes(done: nat, n: int)
    ensures (done + 1) * n == done * n + n
  {
  }

  /** T_1 to T_l, one behind the other. */
  ghost function Blocks(prf: Prf, password: seq<u8>, salt: seq<u8>, c: nat, l: u32, n: nat): seq<u8>
    requires HashLength(prf, n) && c > 0
  {
    if l == 0 then []
    else Blocks(prf, password, salt, c, l - 1, n) + BlockOf(prf, password, salt, l, c, n)
  }

  lemma {:induction false} BlocksLength(prf: Prf, password: seq<u8>, salt: seq<u8>, c: nat, l: u32, n: nat)
    requires HashLength(prf, n) && c > 0
    ensures |Blocks(prf, password, salt, c, l, n)| == l * n
  {
    if l > 0 {
      BlocksLength(prf, password, salt, c, l - 1, n);
      MoreBytes(l - 1, n);
    }
  }

  lemma {:induction false} MoreBlocks(prf: Prf, password: seq<u8>, salt: seq<u8>, c: nat, l1: u32, l2: u32, n: nat)
    requires HashLength(prf, n) && c > 0 && l1 <= l2
    ensures Blocks(prf, password, salt, c, l1, n) <= Blocks(prf, password, salt, c, l2, n)
    decreases l2 - l1
  {
    if l1 < l2 {
      MoreBlocks(prf, password, salt, c, l1, l2 - 1, n);
    }
  }

  /** How many blocks are enough, and not one more. */
  ghost function Needed(dklen: u32, n: nat): (l: u32)
    requires n > 0
    ensures dklen <= l * n < dklen + n
  {
    DivBound(dklen + n - 1, n);
    var l := (dklen + n - 1) / n;
    assert l * n == n * l;
    assert l > dklen ==> l * n >= (dklen + 1) * n by {
      if l > dklen {
        MulMono(n, dklen + 1, l);
      }
    }
    assert (dklen + 1) * n >= dklen + n by {
      MulMono(dklen, 1, n);
    }
    l
  }

  /** DK = T_1 || T_2 || ... || T_l<0..r-1>: the first dklen bytes of the blocks needed. */
  ghost function Derived(prf: Prf, password: seq<u8>, salt: seq<u8>, c: nat, dklen: u32, n: nat): (r: seq<u8>)
    requires HashLength(prf, n) && c > 0
    ensures |r| == dklen
  {
    BlocksLength(prf, password, salt, c, Needed(dklen, n), n);
    Blocks(prf, password, salt, c, Needed(dklen, n), n)[..dklen]
  }

  lemma DerivedIsPrefix(prf: Prf, password: seq<u8>, salt: seq<u8>, c: nat, dklen: u32, n: nat, l: u32, res: seq<u8>)
    requires HashLength(prf, n) && c > 0
    requires |res| == dklen && res <= Blocks(prf, password, salt, c, l, n)
    ensures res == Derived(prf, password, salt, c, dklen, n)
  {
    var m := Needed(dklen, n);
    BlocksLength(prf, password, salt, c, m, n);
    hide Blocks, HashLength, Needed;
    if l <= m {
      MoreBlocks(prf, password, salt, c, l, m, n);
    } else {
      MoreBlocks(prf, password, salt, c, m, l, n);
    }
  }

  /** A shorter key is a prefix of a longer one. */
  lemma ShorterIsPrefix(prf: Prf, password: seq<u8>, salt: seq<u8>, c: nat, d1: u32, d2: u32, n: nat)
    requires HashLength(prf, n) && c > 0 && d1 <= d2
    ensures Derived(prf, password, salt, c, d1, n) == Derived(prf, password, salt, c, d2, n)[..d1]
  {
    var m := Needed(d2, n);
    BlocksLength(prf, password, salt, c, m, n);
    DerivedIsPrefix(prf, password, salt, c, d1, n, m, Blocks(prf, password, salt, c, m, n)[..d1]);
  }

  /** Byte k of every key is byte k mod n of T_(k/n + 1). */
  lemma {:induction false} ByteOfBlocks(prf: Prf, password: seq<u8>, salt: seq<u8>, c: nat, l: u32, n: nat, k: nat)
    requires HashLength(prf, n) && c > 0 && k < l * n
    ensures k / n < l && k < |Blocks(prf, password, salt, c, l, n)|
    ensures Blocks(prf, password, salt, c, l, n)[k] == BlockOf(prf, password, salt, k / n + 1, c, n)[k % n]
  {
    var before := (l - 1) * n;
    InBlock(k, l, n);
    BlocksLength(prf, password, salt, c, l, n);
    BlocksLength(prf, password, salt, c, l - 1, n);
    hide BlockOf, HashLength;
    if k < before {
      ByteOfBlocks(prf, password, salt, c, l - 1, n, k);
    }
  }

  lemma InBlock(k: nat, l: int, n: int)
    requires n > 0 && k < l * n
    ensures l > 0 && k / n < l && (l - 1) * n <= l * n
    ensures k >= (l - 1) * n ==> k / n == l - 1 && k % n == k - (l - 1) * n
  {
    if l <= 0 {
      MulMono(n, l, 0);
    }
    DivBelow(k, n, l);
    if k >= (l - 1) * n {
      DivUnique(k, n, l - 1, k - (l - 1) * n);
    }
  }

  method BlockT(prf: Prf, password: seq<u8>, salt: seq<u8>, c: u32, i: u32, ghost n: nat) returns (res: seq<u8>)
    requires HashLength(prf, n) && c > 0
    ensures res == BlockOf(prf, password, salt, i, c, n)
  {
    var u := salt;
    u := u + [i / 0x100_0000 % 0x100];
    u := u + [i / 0x1_0000 % 0x100];
    u := u + [i / 0x100 % 0x100];
    u := u + [i % 0x100];
    assert u == salt + Reversed(BytesOf(i));
    hide BytesOf, Reversed, XorByte;
    u := prf(password, u);
    res := u;
    var left: nat := c - 1;
    while left > 0
      invariant left < c && |res| == |u| == n
      invariant u == Iterate(prf, password, salt, i, c - left - 1)
      invariant res == BlockOf(prf, password, salt, i, c - left, n)
    {
      u := prf(password, u);
      left := left - 1;
      ghost var before := res;
      for j := 0 to |res|
        invariant |res| == |before| && res[..j] == XorAll(before, u)[..j] && res[j..] == before[j..]
      {
        assert res[j] == before[j];
        res := res[j := XorByte(res[j], u[j])];
      }
    }
  }

  lemma NextBlock(prf: Prf, password: seq<u8>, salt: seq<u8>, c: nat, done: u32, n: nat, res: seq<u8>, more: nat)
    requires HashLength(prf, n) && c > 0 && done + 1 < 0x1_0000_0000 && more <= n
    requires res == Blocks(prf, password, salt, c, done, n)
    ensures |Blocks(prf, password, salt, c, done + 1, n)| == |res| + n
    ensures res + BlockOf(prf, password, salt, done + 1, c, n)[..more] <= Blocks(prf, password, salt, c, done + 1, n)
  {
    hide BlockOf, HashLength;
    assert Blocks(prf, password, salt, c, done + 1, n) == res + BlockOf(prf, password, salt, done + 1, c, n);
  }

  /** Bit b of byte k is the parity of the iterates of block k/n + 1 that have it in their byte k mod n. */
  ghost predicate BitIsParity(prf: Prf, password: seq<u8>, salt: seq<u8>, c: nat, n: nat, res: seq<u8>, k: nat, b: nat)
    requires HashLength(prf, n) && k < |res|
  {
    && k / n + 1 < 0x1_0000_0000
    && res[k] / Pow2(b) % 2 == |OddIterates(prf, password, salt, k / n + 1, c, n, k % n, b)| % 2
  }

  lemma DerivedIsTaken(prf: Prf, password: seq<u8>, salt: seq<u8>, c: nat, dklen: u32, n: nat)
    requires HashLength(prf, n) && c > 0
    ensures n > 0 && Derived(prf, password, salt, c, dklen, n) <= Blocks(prf, password, salt, c, Needed(dklen, n), n)
  {
    BlocksLength(prf, password, salt, c, Needed(dklen, n), n);
  }

  /** Byte k lies in block i at position q. */
  lemma Position(k: nat, dklen: u32, n: nat) returns (i: u32, q: nat)
    requires n > 0 && k < dklen
    ensures i == k / n + 1 && q == k % n < n
  {
    DivBound(k, n);
    i, q := k / n + 1, k % n;
  }

  lemma DerivedByte(prf: Prf, password: seq<u8>, salt: seq<u8>, c: nat, dklen: u32, n: nat, k: nat, i: u32, q: nat)
    requires HashLength(prf, n) && c > 0 && k < dklen && i == k / n + 1 && q == k % n < n
    ensures Derived(prf, password, salt, c, dklen, n)[k] == BlockOf(prf, password, salt, i, c, n)[q]
  {
    hide HashLength, Blocks, BlockOf, Derived, Needed;
    DerivedIsTaken(prf, password, salt, c, dklen, n);
    ByteOfBlocks(prf, password, salt, c, Needed(dklen, n), n, k);
  }

  lemma DerivedBits(prf: Prf, password: seq<u8>, salt: seq<u8>, c: nat, dklen: u32, n: nat, k: nat, b: nat)
    requires HashLength(prf, n) && c > 0 && k < dklen
    ensures BitIsParity(prf, password, salt, c, n, Derived(prf, password, salt, c, dklen, n), k, b)
  {
    assert n > 0;
    hide Derived, BlockOf, Pow2, OddIterates, HashLength;
    var i, q := Position(k, dklen, n);
    DerivedByte(prf, password, salt, c, dklen, n, k, i, q);
    BlockBits(prf, password, salt, i, c, n, q, b);
  }

  ghost predicate EveryBit(prf: Prf, password: seq<u8>, salt: seq<u8>, c: nat, n: nat, res: seq<u8>)
    requires HashLength(prf, n)
  {
    forall k: nat, b: nat :: k < |res| ==> BitIsParity(prf, password, salt, c, n, res, k, b)
  }

  lemma DerivedIsKey(prf: Prf, password: seq<u8>, salt: seq<u8>, c: nat, dklen: u32, n: nat)
    requires HashLength(prf, n) && c > 0
    ensures EveryBit(prf, password, salt, c, n, Derived(prf, password, salt, c, dklen, n))
  {
    hide Derived, HashLength, BitIsParity;
    forall k: nat, b: nat | k < |Derived(prf, password, salt, c, dklen, n)|
      ensures BitIsParity(prf, password, salt, c, n, Derived(prf, password, salt, c, dklen, n), k, b)
    {
      DerivedBits(prf, password, salt, c, dklen, n, k, b);
    }
  }

  /** dklen bytes of T_1 || T_2 || ..., from no more blocks than needed, or an error. */
  method Pbkdf2(prf: PrfPointer, password: seq<u8>, salt: seq<u8>, c: u32, dklen: u32, ghost n: nat)
    returns (st: Outcome, res: seq<u8>)
    requires prf.Function? ==> HashLength(prf.call, n)
    ensures st == if prf.Null? || c == 0 || dklen == 0 then InvalidArgument else Ok
    ensures st == Ok ==> res == Derived(prf.call, password, salt, c, dklen, n) && |res| == dklen
    ensures st == Ok ==> EveryBit(prf.call, password, salt, c, n, res)
  {
    hide EveryBit;
    if prf.Null? || c == 0 || dklen == 0 {
      return InvalidArgument, [];
    }
    res := [];
    var len: u32 := 0;
    var i: u32 := 1;
    ghost var done: u32 := 0;
    while len < dklen
      invariant len == |res| == Min(dklen, |Blocks(prf.call, password, salt, c, done, n)|) && done <= len
      invariant i == (done + 1) % 0x1_0000_0000
      invariant res <= Blocks(prf.call, password, salt, c, done, n)
    {
      hide *;
      var t := BlockT(prf.call, password, salt, c, i, n);
      var lenHere := Min(|t|, dklen - len);
      NextBlock(prf.call, password, salt, c, done, n, res, lenHere);
      res := res + t[..lenHere];
      len := len + lenHere;
      i := (i + 1) % 0x1_0000_0000;
      done := done + 1;
    }
    DerivedIsPrefix(prf.call, password, salt, c, dklen, n, done, res);
    DerivedIsKey(prf.call, password, salt, c, dklen, n);
    st := Ok;
  }
}
