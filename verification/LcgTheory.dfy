/** Linear congruential generators modulo a power of two: every state once per period. */
module LcgTheory {
  import opened Arith
  import opened Bits
  import opened NumberTheory
  import opened WordMath

  /** i steps of x := a*x + c, without reduction. */
  function Walk(a: nat, c: nat, x: nat, i: nat): nat {
    if i == 0 then x else a * Walk(a, c, x, i - 1) + c
  }

  lemma {:induction false} WalkAdd(a: nat, c: nat, x: nat, i: nat, j: nat)
    ensures Walk(a, c, x, i + j) == Walk(a, c, Walk(a, c, x, i), j)
  {
    if j > 0 {
      WalkAdd(a, c, x, i, j - 1);
    }
  }

  /** What p = 2^s steps do. */
  function Affine(p: int, m: int, o: int, x: int): int {
    (1 + 4 * p * m) * x + p * o
  }

  /** A jump of 2^s steps is x -> (1 + 2^(s+2) m) x + 2^s o with o odd. */
  lemma {:induction false} Jump(a: nat, c: nat, s: nat) returns (m: nat, o: nat)
    requires a % 4 == 1 && c % 2 == 1
    ensures o % 2 == 1
    ensures forall x: nat :: Walk(a, c, x, Pow2(s)) == Affine(Pow2(s), m, o, x)
  {
    if s == 0 {
      m, o := a / 4, c;
      forall x: nat
        ensures Walk(a, c, x, Pow2(0)) == Affine(Pow2(0), m, o, x)
      {
        assert Walk(a, c, x, 1) == a * Walk(a, c, x, 0) + c;
      }
    } else {
      var m0, o0 := Jump(a, c, s - 1);
      var p := Pow2(s - 1);
      var t := p * m0;
      m, o := m0 + 2 * (t * m0), o0 * (1 + 2 * t);
      OddProduct(o0, t);
      assert Pow2(s) == p + p;
      hide Affine;
      forall x: nat
        ensures Walk(a, c, x, Pow2(s)) == Affine(Pow2(s), m, o, x)
      {
        hide Pow2, Walk;
        WalkAdd(a, c, x, p, p);
        DoubleJump(p, m0, o0, x, t, Walk(a, c, x, p), Walk(a, c, x, p + p));
      }
    }
  }

  lemma DoubleJump(p: int, m: int, o: int, x: int, t: int, once: int, twice: int)
    requires t == p * m && once == Affine(p, m, o, x) && twice == Affine(p, m, o, once)
    ensures twice == Affine(p + p, m + 2 * (t * m), o * (1 + 2 * t), x)
  {
    var f, q := 1 + 4 * t, p * o;
    SquaredFactor(p, m, t);
    DoubledOffset(p, o, t);
    assert 4 * p * m == 4 * t;
    hide *;
    TwiceAffine(f, q, x);
  }

  lemma TwiceAffine(f: int, q: int, x: int)
    ensures f * (f * x + q) + q == (f * f) * x + q * (f + 1)
  {
    MulDist(f, f * x, q);
    MulAssoc(f, f, x);
    MulDist(q, f, 1);
  }

  lemma SquaredFactor(p: int, m: int, t: int)
    requires t == p * m
    ensures (1 + 4 * t) * (1 + 4 * t) == 1 + 4 * (p + p) * (m + 2 * (t * m))
  {
    MulAssoc(p, t, m);
    MulAssoc(t, p, m);
    MulDist(p, m, 2 * (t * m));
    assert p * (2 * (t * m)) == 2 * (t * t);
    assert 4 * (p + p) * (m + 2 * (t * m)) == 8 * (p * (m + 2 * (t * m)));
  }

  lemma DoubledOffset(p: int, o: int, t: int)
    ensures (p * o) * (1 + 4 * t + 1) == (p + p) * (o * (1 + 2 * t))
  {
    MulAssoc(p, o, 1 + 2 * t);
  }

  lemma OddProduct(o: nat, y: nat)
    requires o % 2 == 1
    ensures (o * (1 + 2 * y)) % 2 == 1
  {
    assert o * (1 + 2 * y) == o + 2 * (o * y);
  }

  /** 2^s steps move any x by an odd multiple of 2^s. */
  lemma JumpFrom(a: nat, c: nat, s: nat, x: nat) returns (w: nat)
    requires a % 4 == 1 && c % 2 == 1
    ensures Walk(a, c, x, Pow2(s)) == x + Pow2(s) * w && w % 2 == 1
  {
    var m, o := Jump(a, c, s);
    w := 4 * (m * x) + o;
    hide Pow2, Walk;
    OneJump(Pow2(s), m, o, x);
  }

  lemma OneJump(p: int, m: int, o: int, x: int)
    ensures Affine(p, m, o, x) == x + p * (4 * (m * x) + o)
  {
    MulDist(x, 1, 4 * p * m);
    MulAssoc(4 * p, m, x);
    MulDist(p, 4 * (m * x), o);
  }

  /** q jumps of 2^s steps, d steps in all, move x by a multiple of 2^s that is odd exactly when q is. */
  lemma {:induction false} Jumps(a: nat, c: nat, x: nat, s: nat, q: nat, d: nat) returns (w: nat)
    requires a % 4 == 1 && c % 2 == 1 && d == Pow2(s) * q
    ensures Walk(a, c, x, d) == x + Pow2(s) * w && w % 2 == q % 2
    decreases q
  {
    hide Pow2, Walk;
    if q == 0 {
      w := 0;
      NoSteps(a, c, x);
    } else {
      var p := Pow2(s);
      OneLess(p, q);
      var w0 := Jumps(a, c, x, s, q - 1, d - p);
      WalkAdd(a, c, x, d - p, p);
      var w1 := JumpFrom(a, c, s, Walk(a, c, x, d - p));
      MulDist(p, w0, w1);
      w := w0 + w1;
      ParityStep(w0, w1, q);
    }
  }

  lemma ParityStep(w0: nat, w1: nat, q: nat)
    requires q > 0 && w0 % 2 == (q - 1) % 2 && w1 % 2 == 1
    ensures (w0 + w1) % 2 == q % 2
  {
  }

  lemma NoSteps(a: nat, c: nat, x: nat)
    ensures Walk(a, c, x, 0) == x
  {
  }

  lemma OneLess(p: nat, q: nat)
    requires q > 0
    ensures p * q - p == p * (q - 1) >= 0
  {
    MulDist(p, q, 1);
    NonNegativeProduct(p, q - 1);
  }

  /** Fewer than 2^k steps never lead back. */
  lemma NoReturn(a: nat, c: nat, x: nat, d: nat, k: nat)
    requires a % 4 == 1 && c % 2 == 1 && 0 < d < Pow2(k)
    ensures !Cong(Walk(a, c, x, d), x, Pow2(k))
  {
    hide Pow2, Walk, Cong;
    Decomposition(d);
    var s := Twos(d);
    var w := Jumps(a, c, x, s, OddPart(d), d);
    TwosBelow(d, k);
    if Cong(Walk(a, c, x, d), x, Pow2(k)) {
      var j := CongDiff(Walk(a, c, x, d), x, Pow2(k));
      Pow2Add(s + 1, k - s - 1);
      EvenFactor(s, Pow2(k - s - 1), j, w);
    }
  }

  lemma TwosBelow(d: nat, k: nat)
    requires 0 < d < Pow2(k)
    ensures Twos(d) < k
  {
    Decomposition(d);
    MulMono(Pow2(Twos(d)), 1, OddPart(d));
    if Twos(d) >= k {
      Pow2Mono(k, Twos(d));
    }
  }

  lemma EvenFactor(s: nat, r: nat, j: int, w: int)
    requires Pow2(s) * w == (Pow2(s + 1) * r) * j
    ensures w % 2 == 0
  {
    var p, i := Pow2(s), r * j;
    MulAssoc(Pow2(s + 1), r, j);
    assert Pow2(s + 1) == 2 * p;
    hide Pow2;
    assert p * w == p * (2 * i) by {
      MulAssoc(p, 2, i);
    }
    Cancel(p, w, 2 * i);
  }

  lemma Cancel(p: int, x: int, y: int)
    requires p > 0 && p * x == p * y
    ensures x == y
  {
    if x < y {
      MulMono(p, x + 1, y);
      MulDist(p, x, 1);
    } else if y < x {
      MulMono(p, y + 1, x);
      MulDist(p, y, 1);
    }
  }

  // ---------- the reduced sequence ----------

  /** i steps of the generator x := (a*x + c) mod m. */
  function Orbit(a: nat, c: nat, m: nat, x: nat, i: nat): nat
    requires m > 0
  {
    if i == 0 then x else (a * Orbit(a, c, m, x, i - 1) + c) % m
  }

  lemma {:induction false} OrbitIsWalk(a: nat, c: nat, m: nat, x: nat, i: nat)
    requires x < m
    ensures Orbit(a, c, m, x, i) < m && Cong(Orbit(a, c, m, x, i), Walk(a, c, x, i), m)
  {
    if i == 0 {
      CongMod(x, m);
    } else {
      OrbitIsWalk(a, c, m, x, i - 1);
      var o, w := Orbit(a, c, m, x, i - 1), Walk(a, c, x, i - 1);
      hide Cong;
      CongMulLeft(o, w, a, m);
      CongAddLeft(a * o, a * w, c, m);
      CongMod(a * o + c, m);
      CongTrans((a * o + c) % m, a * o + c, a * w + c, m);
    }
  }

  lemma OrbitDistinct(a: nat, c: nat, k: nat, x: nat, i: nat, j: nat)
    requires a % 4 == 1 && c % 2 == 1 && x < Pow2(k) && i < j < Pow2(k)
    ensures Orbit(a, c, Pow2(k), x, i) != Orbit(a, c, Pow2(k), x, j)
  {
    hide Pow2, Walk, Orbit;
    var m := Pow2(k);
    OrbitIsWalk(a, c, m, x, i);
    OrbitIsWalk(a, c, m, x, j);
    WalkAdd(a, c, x, i, j - i);
    NoReturn(a, c, Walk(a, c, x, i), j - i, k);
  }

  /** After 2^k steps the generator is back where it started. */
  lemma OrbitReturns(a: nat, c: nat, k: nat, x: nat)
    requires a % 4 == 1 && c % 2 == 1 && x < Pow2(k)
    ensures Orbit(a, c, Pow2(k), x, Pow2(k)) == x
  {
    hide Pow2, Walk, Orbit;
    var m := Pow2(k);
    var w := Jumps(a, c, x, k, 1, m);
    OrbitIsWalk(a, c, m, x, m);
    CongShift(x, w, m);
    CongMod(x, m);
    CongMod(Orbit(a, c, m, x, m), m);
  }

  function Interval(lo: nat, n: nat): set<nat> {
    if n == 0 then {} else Interval(lo, n - 1) + {lo + n - 1}
  }

  lemma {:induction false} IntervalSize(lo: nat, n: nat)
    ensures |Interval(lo, n)| == n
    ensures forall z: nat :: z in Interval(lo, n) <==> lo <= z < lo + n
  {
    if n > 0 {
      IntervalSize(lo, n - 1);
    }
  }

  /** The states passed in the first n steps. */
  function Seen(a: nat, c: nat, m: nat, x: nat, n: nat): set<nat>
    requires m > 0
  {
    if n == 0 then {} else Seen(a, c, m, x, n - 1) + {Orbit(a, c, m, x, n - 1)}
  }

  ghost predicate Visits(a: nat, c: nat, m: nat, x: nat, n: nat, v: nat)
    requires m > 0
  {
    exists i: nat :: i < n && Orbit(a, c, m, x, i) == v
  }

  lemma {:induction false} SeenVisited(a: nat, c: nat, m: nat, x: nat, n: nat, v: nat)
    requires x < m
    ensures v in Seen(a, c, m, x, n) <==> Visits(a, c, m, x, n, v)
    ensures v in Seen(a, c, m, x, n) ==> v < m
  {
    hide Orbit;
    if n > 0 {
      SeenVisited(a, c, m, x, n - 1, v);
      OrbitIsWalk(a, c, m, x, n - 1);
    }
  }

  lemma {:induction false} SeenSize(a: nat, c: nat, k: nat, x: nat, n: nat)
    requires a % 4 == 1 && c % 2 == 1 && x < Pow2(k) && n <= Pow2(k)
    ensures |Seen(a, c, Pow2(k), x, n)| == n
  {
    hide Pow2, Orbit;
    if n > 0 {
      SeenSize(a, c, k, x, n - 1);
      var v := Orbit(a, c, Pow2(k), x, n - 1);
      SeenVisited(a, c, Pow2(k), x, n - 1, v);
      if i: nat :| i < n - 1 && Orbit(a, c, Pow2(k), x, i) == v {
        OrbitDistinct(a, c, k, x, i, n - 1);
      }
    }
  }

  lemma SeenAll(a: nat, c: nat, k: nat, x: nat)
    requires a % 4 == 1 && c % 2 == 1 && x < Pow2(k)
    ensures Seen(a, c, Pow2(k), x, Pow2(k)) == Interval(0, Pow2(k))
  {
    hide Pow2, Seen, Interval;
    SeenSize(a, c, k, x, Pow2(k));
    IntervalSize(0, Pow2(k));
    forall v: nat
      ensures v in Seen(a, c, Pow2(k), x, Pow2(k)) ==> v in Interval(0, Pow2(k))
    {
      SeenVisited(a, c, Pow2(k), x, Pow2(k), v);
    }
    SameSize(Seen(a, c, Pow2(k), x, Pow2(k)), Interval(0, Pow2(k)));
  }

  lemma SameSize(s: set<nat>, t: set<nat>)
    requires s <= t && |s| == |t|
    ensures s == t
  {
    assert |t - s| == |t| - |s|;
  }

  /** Full period: from any state, 2^k steps visit every state exactly once and end at the start. */
  lemma FullPeriod(a: nat, c: nat, k: nat, x: nat)
    requires a % 4 == 1 && c % 2 == 1 && x < Pow2(k)
    ensures Orbit(a, c, Pow2(k), x, Pow2(k)) == x
    ensures forall i: nat, j: nat :: i < j < Pow2(k) ==> Orbit(a, c, Pow2(k), x, i) != Orbit(a, c, Pow2(k), x, j)
    ensures forall v: nat :: v < Pow2(k) ==> Visits(a, c, Pow2(k), x, Pow2(k), v)
  {
    hide Pow2, Orbit, Seen, Interval, Visits;
    OrbitReturns(a, c, k, x);
    forall i: nat, j: nat | i < j < Pow2(k)
      ensures Orbit(a, c, Pow2(k), x, i) != Orbit(a, c, Pow2(k), x, j)
    {
      OrbitDistinct(a, c, k, x, i, j);
    }
    SeenAll(a, c, k, x);
    IntervalSize(0, Pow2(k));
    forall v: nat | v < Pow2(k)
      ensures Visits(a, c, Pow2(k), x, Pow2(k), v)
    {
      SeenVisited(a, c, Pow2(k), x, Pow2(k), v);
    }
  }

  // ---------- how often each output appears ----------

  /** How many of the first n states give the output v when shifted down by h bits. */
  function Outputs(a: nat, c: nat, m: nat, x: nat, n: nat, h: nat, v: nat): nat
    requires m > 0
  {
    if n == 0 then 0
    else Outputs(a, c, m, x, n - 1, h, v) + if Orbit(a, c, m, x, n - 1) / Pow2(h) == v then 1 else 0
  }

  /** Step i gives v once the low h bits are dropped. */
  ghost predicate Gives(a: nat, c: nat, m: nat, x: nat, h: nat, v: nat, i: nat)
    requires m > 0
  {
    Orbit(a, c, m, x, i) / Pow2(h) == v
  }

  lemma OneMoreOutput(a: nat, c: nat, m: nat, x: nat, n: nat, h: nat, v: nat)
    requires m > 0
    ensures Outputs(a, c, m, x, 0, h, v) == 0
    ensures Outputs(a, c, m, x, n + 1, h, v)
      == Outputs(a, c, m, x, n, h, v) + if Gives(a, c, m, x, h, v, n) then 1 else 0
  {
  }

  /** Outputs counts the steps among the first n that give v. */
  lemma {:induction false} OutputsAreCounted(a: nat, c: nat, m: nat, x: nat, n: nat, h: nat, v: nat)
    requires m > 0
    ensures Outputs(a, c, m, x, n, h, v) == |set i: nat | i < n && Gives(a, c, m, x, h, v, i)|
  {
    hide Orbit, Pow2, Outputs, Gives;
    var now := set i: nat | i < n && Gives(a, c, m, x, h, v, i);
    if n == 0 {
      OneMoreOutput(a, c, m, x, 0, h, v);
      assert now == {};
    } else {
      OneMoreOutput(a, c, m, x, n - 1, h, v);
      OutputsAreCounted(a, c, m, x, n - 1, h, v);
      var before := set i: nat | i < n - 1 && Gives(a, c, m, x, h, v, i);
      assert now == before + if Gives(a, c, m, x, h, v, n - 1) then {n - 1} else {};
    }
  }

  function Giving(s: set<nat>, h: nat, v: nat): set<nat> {
    set z | z in s && z / Pow2(h) == v
  }

  lemma {:induction false} OutputsAreStates(a: nat, c: nat, k: nat, x: nat, n: nat, h: nat, v: nat)
    requires a % 4 == 1 && c % 2 == 1 && x < Pow2(k) && n <= Pow2(k)
    ensures Outputs(a, c, Pow2(k), x, n, h, v) == |Giving(Seen(a, c, Pow2(k), x, n), h, v)|
  {
    hide Pow2, Orbit;
    var m := Pow2(k);
    if n > 0 {
      OutputsAreStates(a, c, k, x, n - 1, h, v);
      SeenSize(a, c, k, x, n);
      SeenSize(a, c, k, x, n - 1);
      var s, z := Seen(a, c, m, x, n - 1), Orbit(a, c, m, x, n - 1);
      OneMoreState(s, z, h, v);
    } else {
      assert Giving({}, h, v) == {};
    }
  }

  lemma OneMoreState(s: set<nat>, z: nat, h: nat, v: nat)
    requires |s + {z}| == |s| + 1
    ensures |Giving(s + {z}, h, v)| == |Giving(s, h, v)| + if z / Pow2(h) == v then 1 else 0
  {
    hide Pow2;
    if z / Pow2(h) == v {
      assert Giving(s + {z}, h, v) == Giving(s, h, v) + {z};
    } else {
      assert Giving(s + {z}, h, v) == Giving(s, h, v);
    }
  }

  lemma InBucket(z: nat, p: nat, v: nat)
    requires p > 0
    ensures z / p == v <==> p * v <= z < p * v + p
  {
    DivBound(z, p);
    if p * v <= z < p * v + p {
      DivUnique(z, p, v, z - p * v);
    }
  }

  /** Shifted down by h bits, a full period gives each of the 2^(k-h) outputs exactly 2^h times. */
  lemma EquallyOften(a: nat, c: nat, k: nat, x: nat, h: nat, v: nat)
    requires a % 4 == 1 && c % 2 == 1 && x < Pow2(k) && h <= k && v < Pow2(k - h)
    ensures Outputs(a, c, Pow2(k), x, Pow2(k), h, v) == Pow2(h)
  {
    hide Pow2, Orbit, Seen, Outputs, Interval;
    var p := Pow2(h);
    OutputsAreStates(a, c, k, x, Pow2(k), h, v);
    SeenAll(a, c, k, x);
    Pow2Add(h, k - h);
    MulMono(p, v + 1, Pow2(k - h));
    MulDist(p, v, 1);
    IntervalSize(0, Pow2(k));
    IntervalSize(p * v, p);
    forall z: nat
      ensures z in Giving(Interval(0, Pow2(k)), h, v) <==> z in Interval(p * v, p)
    {
      InBucket(z, p, v);
    }
    assert Giving(Interval(0, Pow2(k)), h, v) == Interval(p * v, p);
  }
}
