/**
 Bitwise and / or on naturals, bit by bit, and the arithmetic meaning they have at the
 masks the shifting functions use.
 */
module Bits {
  import opened Arith
  import opened WordMath

  function And(x: nat, y: nat): (r: nat)
    ensures r <= x
  {
    if x == 0 || y == 0 then 0 else (if x % 2 == 1 && y % 2 == 1 then 1 else 0) + 2 * And(x / 2, y / 2)
  }

  function Or(x: nat, y: nat): nat
    decreases x + y
  {
    if x == 0 || y == 0 then x + y else (if x % 2 == 1 || y % 2 == 1 then 1 else 0) + 2 * Or(x / 2, y / 2)
  }

  function Xor(x: nat, y: nat): nat
    decreases x + y
  {
    if x == 0 || y == 0 then x + y else (if x % 2 != y % 2 then 1 else 0) + 2 * Xor(x / 2, y / 2)
  }

  lemma XorStep(x: nat, y: nat)
    ensures Xor(x, y) / 2 == Xor(x / 2, y / 2)
    ensures Xor(x, y) % 2 == 1 <==> x % 2 != y % 2
  {
  }

  /** x can be recovered from its exclusive or with m. */
  lemma {:induction false} XorCancels(m: nat, x: nat, y: nat)
    ensures Xor(m, x) == Xor(m, y) <==> x == y
    decreases m + x + y
  {
    if m > 0 || x > 0 || y > 0 {
      XorStep(m, x);
      XorStep(m, y);
      XorCancels(m / 2, x / 2, y / 2);
    }
  }

  lemma {:induction false} XorBelow(x: nat, y: nat, k: nat)
    requires x < Pow2(k) && y < Pow2(k)
    ensures Xor(x, y) < Pow2(k)
  {
    if x > 0 && y > 0 {
      XorBelow(x / 2, y / 2, k - 1);
    }
  }

  /** Bit b of the exclusive or is set when bit b of one operand is and of the other is not. */
  lemma {:induction false} XorBits(x: nat, y: nat, b: nat)
    ensures Xor(x, y) / Pow2(b) % 2 == 1 <==> x / Pow2(b) % 2 != y / Pow2(b) % 2
  {
    XorStep(x, y);
    if b == 0 {
      assert Pow2(0) == 1;
    } else {
      hide Xor;
      HalfMod(x, b);
      HalfMod(y, b);
      HalfMod(Xor(x, y), b);
      XorBits(x / 2, y / 2, b - 1);
    }
  }

  /** A u32 shifted left keeps its low 32 bits. */
  function Shl(x: u32, k: nat): u32 {
    (x * Pow2(k)) % 0x1_0000_0000
  }

  function Shr(x: nat, k: nat): (r: nat)
    ensures r <= x
  {
    DivBound(x, Pow2(k));
    x / Pow2(k)
  }

  /** The switch of shiftRight and keepOnly: the low bits. */
  function LowMask(bitOff: nat): u32 {
    match bitOff
    case 1 => 0x1
    case 2 => 0x3
    case 3 => 0x7
    case 4 => 0xF
    case 5 => 0x1F
    case 6 => 0x3F
    case 7 => 0x7F
    case 8 => 0xFF
    case 9 => 0x1FF
    case 10 => 0x3FF
    case 11 => 0x7FF
    case 12 => 0xFFF
    case 13 => 0x1FFF
    case 14 => 0x3FFF
    case 15 => 0x7FFF
    case 16 => 0xFFFF
    case 17 => 0x1FFFF
    case 18 => 0x3FFFF
    case 19 => 0x7FFFF
    case 20 => 0xFFFFF
    case 21 => 0x1FFFFF
    case 22 => 0x3FFFFF
    case 23 => 0x7FFFFF
    case 24 => 0xFFFFFF
    case 25 => 0x1FFFFFF
    case 26 => 0x3FFFFFF
    case 27 => 0x7FFFFFF
    case 28 => 0xFFFFFFF
    case 29 => 0x1FFFFFFF
    case 30 => 0x3FFFFFFF
    case 31 => 0x7FFFFFFF
    case _ => 0
  }

  /** The switch of shiftLeft: the high bits. */
  function HighMask(bitOff: nat): u32 {
    match bitOff
    case 1 => 0x80000000
    case 2 => 0xC0000000
    case 3 => 0xE0000000
    case 4 => 0xF0000000
    case 5 => 0xF8000000
    case 6 => 0xFC000000
    case 7 => 0xFE000000
    case 8 => 0xFF000000
    case 9 => 0xFF800000
    case 10 => 0xFFC00000
    case 11 => 0xFFE00000
    case 12 => 0xFFF00000
    case 13 => 0xFFF80000
    case 14 => 0xFFFC0000
    case 15 => 0xFFFE0000
    case 16 => 0xFFFF0000
    case 17 => 0xFFFF8000
    case 18 => 0xFFFFC000
    case 19 => 0xFFFFE000
    case 20 => 0xFFFFF000
    case 21 => 0xFFFFF800
    case 22 => 0xFFFFFC00
    case 23 => 0xFFFFFE00
    case 24 => 0xFFFFFF00
    case 25 => 0xFFFFFF80
    case 26 => 0xFFFFFFC0
    case 27 => 0xFFFFFFE0
    case 28 => 0xFFFFFFF0
    case 29 => 0xFFFFFFF8
    case 30 => 0xFFFFFFFC
    case 31 => 0xFFFFFFFE
    case _ => 0
  }

  lemma {:induction false} MaskTables(k: nat)
    requires k < 32
    ensures LowMask(k) == Pow2(k) - 1
    ensures k > 0 ==> HighMask(k) == 0x1_0000_0000 - Pow2(32 - k)
  {
    if k == 1 {
      Pow2Word();
    } else if k > 1 {
      MaskTables(k - 1);
      assert Pow2(33 - k) == 2 * Pow2(32 - k);
      assert LowMask(k) == 2 * LowMask(k - 1) + 1;
      assert 2 * (0x1_0000_0000 - HighMask(k)) == 0x1_0000_0000 - HighMask(k - 1);
    }
  }

  /** Halving x mod 2^k and x div 2^k. */
  lemma HalfMod(x: nat, k: nat)
    requires k > 0
    ensures x % Pow2(k) == x % 2 + 2 * ((x / 2) % Pow2(k - 1))
    ensures x / Pow2(k) == (x / 2) / Pow2(k - 1)
  {
    var p := Pow2(k - 1);
    var h := x / 2;
    assert h == p * (h / p) + h % p;
    DivUnique(x, 2 * p, h / p, x % 2 + 2 * (h % p));
  }

  lemma OddMask(k: nat)
    requires k > 0
    ensures (Pow2(k) - 1) / 2 == Pow2(k - 1) - 1 && (Pow2(k) - 1) % 2 == 1
  {
  }

  lemma {:induction false} AndLow(x: nat, k: nat)
    ensures And(x, Pow2(k) - 1) == x % Pow2(k)
  {
    if k == 0 {
    } else if x == 0 {
      DivUnique(0, Pow2(k), 0, 0);
    } else {
      HalfMod(x, k);
      OddMask(k);
      hide Pow2;
      AndLow(x / 2, k - 1);
    }
  }

  /** Masking with the bits from position k up to position n clears the k low bits. */
  lemma {:induction false} AndHigh(x: nat, k: nat, n: nat, mask: nat)
    requires k <= n && x < Pow2(n) && mask == Pow2(n) - Pow2(k)
    ensures And(x, mask) == x - x % Pow2(k)
  {
    if k == 0 {
      AndLow(x, n);
      DivUnique(x, Pow2(n), 0, x);
    } else if x == 0 {
      DivUnique(0, Pow2(k), 0, 0);
    } else if mask == 0 {
      DivUnique(x, Pow2(k), 0, x);
    } else {
      HalfMod(x, k);
      AndHigh(x / 2, k - 1, n - 1, mask / 2);
      AndStep(x, mask);
      hide *;
    }
  }

  lemma AndStep(x: nat, y: nat)
    requires x > 0 && y > 0 && y % 2 == 0
    ensures And(x, y) == 2 * And(x / 2, y / 2)
  {
  }

  /** Or on disjoint bit ranges is addition. */
  lemma {:induction false} OrDisjoint(x: nat, y: nat, k: nat)
    requires x < Pow2(k) && y % Pow2(k) == 0
    ensures Or(x, y) == x + y == Or(y, x)
  {
    if x == 0 || y == 0 {
    } else {
      HalfMod(y, k);
      OrDisjoint(x / 2, y / 2, k - 1);
    }
  }

  /** m = 2^t * u with u odd: the number of twos, and what is left. */
  function Twos(m: nat): nat
    requires m > 0
  {
    if m % 2 == 1 then 0 else 1 + Twos(m / 2)
  }

  function OddPart(m: nat): nat
    requires m > 0
  {
    if m % 2 == 1 then m else OddPart(m / 2)
  }

  lemma {:induction false} Decomposition(m: nat)
    requires m > 0
    ensures m == Pow2(Twos(m)) * OddPart(m) && OddPart(m) % 2 == 1
  {
    if m % 2 == 0 {
      Decomposition(m / 2);
      MulAssoc(2, Pow2(Twos(m / 2)), OddPart(m / 2));
    }
  }

  lemma {:induction false} DecompositionUnique(m: nat, t: nat, u: nat)
    requires m > 0 && m == Pow2(t) * u && u % 2 == 1
    ensures Twos(m) == t && OddPart(m) == u
  {
    if t > 0 {
      MulAssoc(2, Pow2(t - 1), u);
      DecompositionUnique(m / 2, t - 1, u);
    }
  }
}
