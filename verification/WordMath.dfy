/**
 What a little-endian sequence of 32-bit words means, and the laws of that meaning
 the word-level loops rely on.
 */
module WordMath {
  import opened Arith

  type u8 = x: int | 0 <= x < 0x100
  type u32 = x: int | 0 <= x < 0x1_0000_0000
  type u64 = x: int | 0 <= x < 0x1_0000_0000_0000_0000

  /** 2^(32*i), the weight of word i. */
  function Weight(i: nat): (w: nat)
    ensures w > 0
  {
    if i == 0 then 1 else 0x1_0000_0000 * Weight(i - 1)
  }

  function Pow2(k: nat): (p: nat)
    ensures p > 0
  {
    if k == 0 then 1 else 2 * Pow2(k - 1)
  }

  /** The number the words stand for, least significant word first. */
  function Val(s: seq<u32>): nat {
    if s == [] then 0 else s[0] + 0x1_0000_0000 * Val(s[1..])
  }

  /** No zero word on top: every comparison and every length test relies on it. */
  predicate Canonical(s: seq<u32>) {
    s == [] || s[|s| - 1] != 0
  }

  /** The seq without its zero top words. */
  function Trim<T(==)>(s: seq<T>, zero: T): seq<T> {
    if s != [] && s[|s| - 1] == zero then Trim(s[..|s| - 1], zero) else s
  }

  lemma {:induction false} WeightAdd(i: nat, j: nat)
    ensures Weight(i + j) == Weight(i) * Weight(j)
  {
    if i == 0 {
    } else {
      WeightAdd(i - 1, j);
      assert Weight(i + j) == 0x1_0000_0000 * Weight(i - 1 + j);
      assert 0x1_0000_0000 * (Weight(i - 1) * Weight(j)) == Weight(i) * Weight(j);
    }
  }

  lemma {:induction false} WeightMono(i: nat, j: nat)
    requires i <= j
    ensures Weight(i) <= Weight(j)
  {
    if i < j {
      WeightMono(i, j - 1);
    }
  }

  lemma {:induction false} Pow2Add(i: nat, j: nat)
    ensures Pow2(i + j) == Pow2(i) * Pow2(j)
  {
    if i == 0 {
    } else {
      Pow2Add(i - 1, j);
      assert 2 * (Pow2(i - 1) * Pow2(j)) == Pow2(i) * Pow2(j);
    }
  }

  lemma {:induction false} Pow2Mono(i: nat, j: nat)
    requires i <= j
    ensures Pow2(i) <= Pow2(j)
    ensures i < j ==> Pow2(i) < Pow2(j)
  {
    if i < j {
      Pow2Mono(i, j - 1);
    }
  }

  lemma Pow2Word()
    ensures Pow2(32) == 0x1_0000_0000
  {
    assert Pow2(8) == 256;
    Pow2Add(8, 8);
    Pow2Add(16, 16);
  }

  lemma {:induction false} WeightIsPow2(i: nat)
    ensures Weight(i) == Pow2(32 * i)
  {
    if i > 0 {
      WeightIsPow2(i - 1);
      Pow2Word();
      Pow2Add(32, 32 * (i - 1));
    }
  }

  lemma {:induction false} ValAppend(a: seq<u32>, b: seq<u32>)
    ensures Val(a + b) == Val(a) + Weight(|a|) * Val(b)
  {
    if a == [] {
      assert a + b == b;
    } else {
      ValAppend(a[1..], b);
      assert (a + b)[1..] == a[1..] + b;
      assert 0x1_0000_0000 * (Weight(|a| - 1) * Val(b)) == Weight(|a|) * Val(b);
    }
  }

  lemma ValHead(s: seq<u32>, i: nat)
    requires i < |s|
    ensures Val(s[i..]) == s[i] + 0x1_0000_0000 * Val(s[i + 1..])
  {
    assert s[i..][1..] == s[i + 1..];
  }

  lemma ValSplit(s: seq<u32>, i: nat)
    requires i <= |s|
    ensures Val(s) == Val(s[..i]) + Weight(i) * Val(s[i..])
  {
    assert s == s[..i] + s[i..];
    ValAppend(s[..i], s[i..]);
  }

  lemma ValSnoc(s: seq<u32>, x: u32)
    ensures Val(s + [x]) == Val(s) + Weight(|s|) * x
  {
    ValOne(x);
    ValAppend(s, [x]);
    hide *;
  }

  lemma ValOne(x: u32)
    ensures Val([x]) == x && Weight(1) == 0x1_0000_0000
  {
  }

  lemma ValPrefix(s: seq<u32>, i: nat)
    requires i < |s|
    ensures Val(s[..i + 1]) == Val(s[..i]) + Weight(i) * s[i]
  {
    assert s[..i + 1] == s[..i] + [s[i]];
    ValSnoc(s[..i], s[i]);
  }

  lemma {:induction false} ValUpdate(s: seq<u32>, i: nat, x: u32)
    requires i < |s|
    ensures Val(s[i := x]) == Val(s) + Weight(i) * (x as int - s[i])
    decreases i
  {
    var t, d: int := s[i := x], x as int - s[i];
    if i == 0 {
      assert t[1..] == s[1..];
    } else {
      ValUpdate(s[1..], i - 1, x);
      assert t[1..] == s[1..][i - 1 := x];
      MulAssoc(0x1_0000_0000, Weight(i - 1), d);
    }
  }

  lemma {:induction false} ValBound(s: seq<u32>)
    ensures Val(s) < Weight(|s|)
  {
    if s != [] {
      ValBound(s[1..]);
    }
  }

  lemma ValTop(s: seq<u32>)
    requires s != []
    ensures Val(s) >= Weight(|s| - 1) * s[|s| - 1]
    ensures Val(s) < Weight(|s| - 1) * (s[|s| - 1] as int + 1)
  {
    var i := |s| - 1;
    assert s[..i + 1] == s;
    ValPrefix(s, i);
    ValBound(s[..i]);
    assert Weight(i) * (s[i] as int + 1) == Weight(i) * s[i] + Weight(i);
  }

  /** A canonical number of k words lies in [2^(32(k-1)), 2^(32k)). */
  lemma CanonicalRange(s: seq<u32>)
    requires Canonical(s)
    ensures Val(s) < Weight(|s|)
    ensures s != [] ==> Weight(|s| - 1) <= Val(s)
    ensures s == [] <==> Val(s) == 0
  {
    ValBound(s);
    if s != [] {
      ValTop(s);
      MulMono(Weight(|s| - 1), 1, s[|s| - 1]);
    }
  }

  /** Longer canonical numbers are larger. */
  lemma LongerIsLarger(a: seq<u32>, b: seq<u32>)
    requires Canonical(a) && Canonical(b) && |a| < |b|
    ensures Val(a) < Val(b)
  {
    CanonicalRange(a);
    CanonicalRange(b);
    WeightMono(|a|, |b| - 1);
  }

  /** The first difference from the top decides. */
  lemma {:induction false} FirstDifference(a: seq<u32>, b: seq<u32>, i: nat)
    requires i < |a| == |b|
    requires a[i + 1..] == b[i + 1..] && a[i] < b[i]
    ensures Val(a) < Val(b)
    decreases i
  {
    if i > 0 {
      assert a[1..][i..] == a[i + 1..] && b[1..][i..] == b[i + 1..];
      FirstDifference(a[1..], b[1..], i - 1);
    }
  }

  lemma {:induction false} TrimVal(s: seq<u32>)
    ensures Val(Trim(s, 0)) == Val(s) && Canonical(Trim(s, 0)) && Trim(s, 0) <= s
  {
    if s != [] && s[|s| - 1] == 0 {
      assert s == s[..|s| - 1] + [0];
      ValSnoc(s[..|s| - 1], 0);
      TrimVal(s[..|s| - 1]);
    }
  }

  /** The canonical form is unique. */
  lemma {:induction false} CanonicalUnique(a: seq<u32>, b: seq<u32>)
    requires Canonical(a) && Canonical(b) && Val(a) == Val(b)
    ensures a == b
  {
    if |a| < |b| {
      LongerIsLarger(a, b);
    } else if |b| < |a| {
      LongerIsLarger(b, a);
    } else if a != [] {
      assert a[0] == b[0] && Val(a[1..]) == Val(b[1..]);
      CanonicalUnique(a[1..], b[1..]);
      assert a == [a[0]] + a[1..] && b == [b[0]] + b[1..];
    }
  }
}
