/**
 The growable array under the big integers.

 The buffer of `capacity` cells is kept as two pieces: `elems`, the first `size` cells,
 and `spare`, the allocated cells behind them, which hold whatever was last written there.
 Cutting the buffer at `size` makes every state of the two fields a legal one.
 */
module Arrays {

  /** How a call ended: normally, or with one of the exceptions the code throws. */
  datatype Outcome = Ok | LogicError | InvalidArgument | RuntimeError | BufferOverflow {

    predicate IsFailure() {
      this != Ok
    }

    function PropagateFailure(): Outcome {
      this
    }
  }

  class TArray<T(0)> {
    var elems: seq<T>
    var spare: seq<T>

    function Capacity(): nat
      reads this
    {
      |elems| + |spare|
    }

    static function Doubled(capacity: nat): nat {
      2 * (if capacity == 0 then 1 else capacity)
    }

    /** What a new buffer holds: nothing is known but its length. */
    static method Allocate(n: nat) returns (cells: seq<T>)
      ensures |cells| == n
    {
      var buf := new T[n];
      cells := buf[..];
    }

    constructor ()
      ensures elems == [] && Capacity() == 8
    {
      var buf := Allocate(8);
      elems, spare := [], buf;
    }

    constructor Filled(size: nat, initval: T)
      ensures elems == seq(size, _ => initval) && Capacity() == 2 * size
    {
      var buf := Allocate(2 * size);
      elems, spare := seq(size, _ => initval), buf[size..];
    }

    constructor Copy(o: TArray<T>)
      ensures elems == o.elems && Capacity() == o.Capacity()
    {
      var buf := Allocate(|o.elems| + |o.spare|);
      elems, spare := o.elems, buf[|o.elems|..];
    }

    /** Assignment keeps the buffer when it is large enough, and is harmless on itself. */
    method Assign(o: TArray<T>)
      modifies this
      ensures elems == old(o.elems)
      ensures Capacity() == old(if Capacity() < |o.elems| then o.Capacity() else Capacity())
    {
      if o == this {
        return;
      }
      var buf := elems + spare;
      if Capacity() < |o.elems| {
        buf := Allocate(o.Capacity());
      }
      elems, spare := buf[..|o.elems|], buf[|o.elems|..];
      for i := 0 to |elems|
        invariant |elems| == |o.elems| && o.elems == old(o.elems)
        invariant elems[..i] == o.elems[..i]
        invariant Capacity() == |buf|
      {
        elems := elems[i := o.elems[i]];
      }
    }

    method Grow()
      modifies this
      ensures elems == old(elems)
      ensures Capacity() == Doubled(old(Capacity()))
    {
      var capacity := if Capacity() == 0 then 1 else Capacity();
      capacity := capacity * 2;
      var buf := Allocate(capacity);
      for i := 0 to |elems|
        invariant |buf| == capacity && elems == old(elems)
        invariant buf[..i] == elems[..i]
      {
        buf := buf[i := elems[i]];
      }
      spare := buf[|elems|..];
    }

    method PushBack(val: T)
      modifies this
      ensures elems == old(elems) + [val]
      ensures Capacity() == old(if |elems| < Capacity() then Capacity() else Doubled(Capacity()))
    {
      if spare == [] {
        Grow();
      }
      elems, spare := elems + [val], spare[1..];
    }

    method PopBack() returns (st: Outcome)
      modifies this
      ensures st == if old(elems) == [] then LogicError else Ok
      ensures elems == if old(elems) == [] then [] else old(elems)[..|old(elems)| - 1]
      ensures Capacity() == old(Capacity())
    {
      if elems == [] {
        return LogicError;
      }
      var last := |elems| - 1;
      elems, spare := elems[..last], [elems[last]] + spare;
      return Ok;
    }

    /** Growing exposes cells whose contents are unspecified; note the strict bound. */
    method SetSize(size: nat)
      modifies this
      ensures |elems| == size < Capacity()
      ensures size < old(Capacity()) ==> Capacity() == old(Capacity())
      ensures forall i :: 0 <= i < size && i < |old(elems)| ==> elems[i] == old(elems)[i]
    {
      while size >= Capacity()
        invariant elems == old(elems) && (size < old(Capacity()) ==> Capacity() == old(Capacity()))
        decreases size - Capacity()
      {
        Grow();
      }
      var buf := elems + spare;
      elems, spare := buf[..size], buf[size..];
    }

    method Clear()
      modifies this
      ensures elems == [] && Capacity() == old(Capacity())
    {
      elems, spare := [], elems + spare;
    }

    method Reverse()
      modifies this
      ensures elems == Reversed(old(elems))
    {
      if |elems| < 2 {
        return;
      }
      var a, b := 0, |elems| - 1;
      while a < b
        invariant 0 <= a <= b + 1 <= |elems| == |old(elems)|
        invariant a + b == |elems| - 1
        invariant forall i :: a <= i <= b ==> elems[i] == old(elems)[i]
        invariant forall i :: 0 <= i < a || b < i < |elems| ==> elems[i] == old(elems)[b + a - i]
      {
        var low, high := elems[a], elems[b];
        elems := elems[a := high][b := low];
        a, b := a + 1, b - 1;
      }
    }
  }

  function Reversed<T>(s: seq<T>): (r: seq<T>)
    ensures |r| == |s|
    ensures forall i :: 0 <= i < |s| ==> r[i] == s[|s| - 1 - i]
  {
    seq(|s|, i requires 0 <= i < |s| => s[|s| - 1 - i])
  }
}
