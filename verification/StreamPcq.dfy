/**
 A byte stream over a producer-consumer queue of byte blocks, an empty block marking the end:
 the two ends as objects over the queue. StreamRuns has the stream over whole runs of threads.
 */
module StreamPcq {
  import opened Arith
  import opened Arrays
  import opened Pcq
  import opened WordMath

  datatype Role = ReadableEnd | WritableEnd

  // ---------- what a sequence of blocks stands for ----------

  /** The blocks before the first end mark, joined. */
  function Payload(blocks: seq<seq<u8>>): seq<u8> {
    if blocks == [] || blocks[0] == [] then [] else blocks[0] + Payload(blocks[1..])
  }

  predicate HasEnd(blocks: seq<seq<u8>>) {
    [] in blocks
  }

  lemma {:induction false} PayloadAppend(a: seq<seq<u8>>, b: seq<seq<u8>>)
    ensures Payload(a + b) == if HasEnd(a) then Payload(a) else Payload(a) + Payload(b)
  {
    if a == [] {
      assert a + b == b;
    } else if a[0] != [] {
      assert (a + b)[1..] == a[1..] + b;
      assert a == [a[0]] + a[1..];
      PayloadAppend(a[1..], b);
    }
  }

  lemma EndAppend(a: seq<seq<u8>>, b: seq<seq<u8>>)
    ensures HasEnd(a + b) <==> HasEnd(a) || HasEnd(b)
  {
  }

  function Joined(blocks: seq<seq<u8>>): seq<u8> {
    if blocks == [] then [] else blocks[0] + Joined(blocks[1..])
  }

  lemma {:induction false} PayloadIsJoined(blocks: seq<seq<u8>>)
    requires !HasEnd(blocks)
    ensures Payload(blocks) == Joined(blocks)
  {
    if blocks != [] {
      PayloadIsJoined(blocks[1..]);
    }
  }

  /** Blocks and then the end mark: the stream is exactly those blocks joined. */
  lemma ClosedStream(blocks: seq<seq<u8>>, after: seq<seq<u8>>)
    requires !HasEnd(blocks)
    ensures Payload(blocks + [[]] + after) == Payload(blocks) == Joined(blocks)
  {
    var ended: seq<seq<u8>> := [[]];
    assert blocks + [[]] + after == blocks + (ended + after);
    PayloadAppend(blocks, ended + after);
    PayloadIsJoined(blocks);
  }

  // ---------- the reading end as a value ----------

  /** The block being read, how far, whether the end has been met, and the bytes handed over so far. */
  datatype Reader = Reader(curr: seq<u8>, off: nat, eof: bool, bytes: seq<u8>)

  function TakeBlock(r: Reader, block: seq<u8>): Reader {
    Reader(block, 0, block == [], r.bytes)
  }

  function Amount(r: Reader, length: nat): (n: nat)
    requires r.off <= |r.curr|
    ensures n == Min(length, |r.curr| - r.off)
    ensures length > 0 ==> (n == 0 <==> r.off == |r.curr|)
  {
    if |r.curr| - r.off > length then length else |r.curr| - r.off
  }

  function CopyBytes(r: Reader, length: nat): Reader
    requires r.off <= |r.curr|
  {
    var n := Amount(r, length);
    r.(off := r.off + n, bytes := r.bytes + r.curr[r.off..r.off + n])
  }

  /** Of the blocks taken so far, all bytes have been handed over but the rest of the last block. */
  ghost predicate Follows(r: Reader, taken: seq<seq<u8>>) {
    && r.off <= |r.curr| && r.bytes + r.curr[r.off..] == Payload(taken)
    && (r.eof <==> HasEnd(taken)) && (r.eof ==> r.curr == [])
  }

  lemma TakeFollows(r: Reader, taken: seq<seq<u8>>, block: seq<u8>)
    requires Follows(r, taken) && !r.eof && r.off == |r.curr|
    ensures Follows(TakeBlock(r, block), taken + [block])
  {
    PayloadAppend(taken, [block]);
    EndAppend(taken, [block]);
    assert Payload([block]) == block;
    hide Payload, HasEnd;
    assert r.curr[r.off..] == [] && block[0..] == block;
    assert HasEnd([block]) <==> block == [] by { EndOfOne(block); }
  }

  lemma EndOfOne(block: seq<u8>)
    ensures HasEnd([block]) <==> block == []
  {
  }

  lemma CopyFollows(r: Reader, taken: seq<seq<u8>>, length: nat)
    requires Follows(r, taken)
    ensures Follows(CopyBytes(r, length), taken)
  {
    hide Payload, HasEnd;
    var m := r.off + Amount(r, length);
    assert r.curr[r.off..] == r.curr[r.off..m] + r.curr[m..];
    assert r.bytes + (r.curr[r.off..m] + r.curr[m..]) == r.bytes + r.curr[r.off..m] + r.curr[m..];
  }

  /** What was read begins what was sent, and is all of it once the end has been met. */
  lemma FollowsPrefix(r: Reader, taken: seq<seq<u8>>, queue: seq<seq<u8>>)
    requires Follows(r, taken)
    ensures Payload(taken + queue) == if r.eof then r.bytes else r.bytes + (r.curr[r.off..] + Payload(queue))
    ensures r.eof ==> HasEnd(taken + queue)
    ensures !r.eof && HasEnd(taken + queue) ==> HasEnd(queue)
  {
    PayloadAppend(taken, queue);
    EndAppend(taken, queue);
    hide Payload, HasEnd;
    var rest := r.curr[r.off..];
    if r.eof {
      assert r.bytes + rest == r.bytes;
    } else {
      assert r.bytes + rest + Payload(queue) == r.bytes + (rest + Payload(queue));
    }
  }

  // ---------- the two ends as objects ----------

  /** The writers at work while a reader waits: the blocks the queue will yet take from them, in order. */
  class Writers {
    var incoming: seq<seq<u8>>

    constructor (incoming: seq<seq<u8>>)
      ensures this.incoming == incoming
    {
      this.incoming := incoming;
    }

    /** Any number of pushes into whatever room there is; at least one if the queue is empty. */
    method Run(pcq: Queue<seq<u8>>, t: Tid)
      requires Holds(pcq.View()) && Countable(pcq.View(), incoming)
      modifies this, pcq
      ensures Holds(pcq.View()) && Countable(pcq.View(), incoming)
      ensures pcq.queue + incoming == old(pcq.queue + incoming)
      ensures |incoming| <= old(|incoming|)
      ensures old(pcq.queue == [] && incoming != []) ==> pcq.queue != [] && |incoming| < old(|incoming|)
    {
      hide PushSection;
      var turns: nat := *;
      var first := |pcq.queue| == 0;
      ghost var all := pcq.queue + incoming;
      while incoming != [] && (first || turns > 0) && (pcq.size < pcq.capacity || pcq.behavior == Grow)
        invariant Holds(pcq.View()) && Countable(pcq.View(), incoming)
        invariant pcq.queue + incoming == all && |incoming| <= old(|incoming|)
        invariant first <==> pcq.queue == []
        invariant !first && old(pcq.queue) == [] ==> |incoming| < old(|incoming|)
        invariant first ==> incoming == old(incoming)
        decreases |incoming|
      {
        if turns > 0 {
          turns := turns - 1;
        }
        var block := incoming[0];
        assert pcq.queue + incoming == pcq.queue + [block] + incoming[1..];
        var r := pcq.Push(t, block);
        incoming := incoming[1..];
        first := false;
      }
    }
  }

  /** The size of the queue is its length, and without growing it fits the capacity. */
  ghost predicate Holds<T>(c: Core<T>) {
    c.size == |c.queue| && (c.behavior != Grow ==> |c.queue| <= c.capacity && c.capacity > 0)
  }

  /** A growing queue is not fed more blocks than it can count. */
  ghost predicate Countable<T>(c: Core<T>, incoming: seq<T>) {
    c.behavior == Grow ==> |c.queue| + |incoming| < 0x1_0000_0000
  }

  class StreamEnd {
    const pcq: Queue<seq<u8>>
    const role: Role
    const tid: Tid
    var curr: seq<u8>
    var off: nat
    var eof: bool
    /** The bytes handed to the reader, and the blocks taken from the queue. */
    ghost var bytes: seq<u8>
    ghost var taken: seq<seq<u8>>

    constructor (pcq: Queue<seq<u8>>, role: Role, tid: Tid)
      ensures this.pcq == pcq && this.role == role && View() == Reader([], 0, false, []) && taken == []
    {
      this.pcq, this.role, this.tid := pcq, role, tid;
      curr, off, eof, bytes, taken := [], 0, false, [], [];
    }

    ghost function View(): Reader
      reads this
    {
      Reader(curr, off, eof, bytes)
    }

    ghost predicate Valid(others: Writers)
      reads this, pcq, others
    {
      Follows(View(), taken) && Holds(pcq.View()) && Countable(pcq.View(), others.incoming)
    }

    /** Everything that was, is and will be in the queue. */
    ghost function Sent(others: Writers): seq<seq<u8>>
      reads this, pcq, others
    {
      taken + (pcq.queue + others.incoming)
    }

    /** The bytes still to be read. */
    ghost function Remaining(others: Writers): int
      reads this, pcq, others
    {
      |Payload(Sent(others))| - |bytes|
    }

    /** pop: asleep on an empty queue until a writer has put something in. */
    method PopBlock(others: Writers) returns (block: seq<u8>)
      requires Holds(pcq.View()) && Countable(pcq.View(), others.incoming)
      requires pcq.queue + others.incoming != []
      modifies pcq, others
      ensures Holds(pcq.View()) && Countable(pcq.View(), others.incoming)
      ensures [block] + (pcq.queue + others.incoming) == old(pcq.queue + others.incoming)
    {
      hide PopSection, PushSection;
      ghost var all := pcq.queue + others.incoming;
      var r := pcq.Pop(tid);
      while r.Empty?
        invariant Holds(pcq.View()) && Countable(pcq.View(), others.incoming)
        invariant all == (if r.Popped? then [r.item] else []) + (pcq.queue + others.incoming)
        invariant r.Empty? ==> pcq.queue == []
        decreases r.Empty?, |others.incoming|
      {
        others.Run(pcq, tid + 1);
        r := pcq.Pop(tid);
      }
      return r.item;
    }

    /** At most `length` bytes into the buffer from position `at`; 0 at the end mark, -1 ever after. */
    method Read(buffer: array<u8>, at: nat, length: int, others: Writers) returns (st: Outcome, n: int)
      requires Valid(others) && at + length <= buffer.Length
      requires length > 0 && role == ReadableEnd && !eof && off >= |curr| ==> pcq.queue + others.incoming != []
      modifies this, pcq, others, buffer
      ensures st == if length <= 0 then InvalidArgument else if role != ReadableEnd then RuntimeError else Ok
      ensures Valid(others) && Sent(others) == old(Sent(others))
      ensures st != Ok || old(eof) ==> View() == old(View()) && taken == old(taken) && buffer[..] == old(buffer[..])
      ensures st == Ok && old(eof) ==> n == -1
      ensures st == Ok && !old(eof) && old(off) < |old(curr)| ==> View() == CopyBytes(old(View()), length)
      ensures st == Ok && !old(eof) && old(off) >= |old(curr)| ==>
        |taken| > 0 && View() == CopyBytes(TakeBlock(old(View()), taken[|taken| - 1]), length)
      ensures st == Ok && !old(eof) && old(off) < |old(curr)| ==> n == Min(length, |old(curr)| - old(off))
      ensures st == Ok && !old(eof) && old(off) >= |old(curr)| ==> n == Min(length, |taken[|taken| - 1]|)
      ensures st == Ok && !old(eof) ==> 0 <= n <= length && (n == 0 <==> eof)
      ensures st == Ok && !old(eof) ==> bytes == old(bytes) + buffer[at..at + n]
      ensures forall i :: 0 <= i < at && i < buffer.Length ==> buffer[i] == old(buffer[i])
    {
      hide Payload, HasEnd, Follows;
      n := -1;
      if length <= 0 {
        return InvalidArgument, n;
      }
      if role != ReadableEnd {
        return RuntimeError, n;
      }
      if eof {
        return Ok, -1;
      }
      OffsetInBlock(View(), taken);
      if off >= |curr| {
        NextBlock(others);
      }
      OffsetInBlock(View(), taken);
      ghost var r := View();
      var rem := |curr| - off;
      if rem > length {
        rem := length;
      }
      CopyOut(buffer, at, rem);
      CopyFollows(r, taken, length);
      return Ok, rem;
    }

    /** The current block is used up: the next one is taken, an empty one being the end mark. */
    method NextBlock(others: Writers)
      requires Valid(others) && !eof && off >= |curr| && pcq.queue + others.incoming != []
      modifies this`curr, this`off, this`eof, this`taken, pcq, others
      ensures Valid(others) && Sent(others) == old(Sent(others))
      ensures |taken| > 0 && View() == TakeBlock(old(View()), taken[|taken| - 1])
    {
      hide Payload, HasEnd, Follows;
      OffsetInBlock(View(), taken);
      ghost var r, before, queued := View(), taken, pcq.queue + others.incoming;
      curr := PopBlock(others);
      off := 0;
      if |curr| <= 0 {
        eof := true;
      }
      taken := taken + [curr];
      TakeFollows(r, before, curr);
      assert before + queued == before + [curr] + (pcq.queue + others.incoming);
    }

    method CopyOut(buffer: array<u8>, at: nat, rem: nat)
      requires off + rem <= |curr| && at + rem <= buffer.Length
      modifies this`off, this`bytes, buffer
      ensures off == old(off) + rem && bytes == old(bytes) + curr[old(off)..old(off) + rem]
      ensures buffer[at..at + rem] == curr[old(off)..old(off) + rem]
      ensures forall i :: 0 <= i < buffer.Length && (i < at || at + rem <= i) ==> buffer[i] == old(buffer[i])
    {
      forall i | 0 <= i < rem {
        buffer[at + i] := curr[off + i];
      }
      bytes := bytes + curr[off..off + rem];
      off := off + rem;
    }

    /** One read of the loop below: what it leaves to be read. */
    method ReadOn(buffer: array<u8>, at: nat, length: int, others: Writers) returns (st: Outcome, n: int)
      requires Valid(others) && at + length <= buffer.Length && length > 0
      requires eof || HasEnd(Sent(others)) || Remaining(others) >= length
      modifies this, pcq, others, buffer
      ensures st == if role != ReadableEnd then RuntimeError else Ok
      ensures Valid(others) && Sent(others) == old(Sent(others))
      ensures st != Ok || old(eof) ==> eof == old(eof) && bytes == old(bytes) && buffer[..] == old(buffer[..])
      ensures st == Ok && old(eof) ==> n == -1
      ensures st == Ok && !old(eof) ==> 0 <= n <= length && (n == 0 <==> eof) && Remaining(others) >= 0
      ensures st == Ok && !old(eof) ==> bytes == old(bytes) + buffer[at..at + n] && (eof ==> Remaining(others) == 0)
      ensures forall i :: 0 <= i < at && i < buffer.Length ==> buffer[i] == old(buffer[i])
    {
      hide Payload, HasEnd, Follows, CopyBytes, TakeBlock, Holds;
      SomethingComes(others);
      st, n := Read(buffer, at, length, others);
      FollowsPrefix(View(), taken, pcq.queue + others.incoming);
    }

    /** Reads until the buffer is full or the end mark is met, sleeping as often as the writers make it wait. */
    method ReadAll(buffer: array<u8>, length: int, others: Writers) returns (st: Outcome, n: int)
      requires Valid(others) && length <= buffer.Length
      requires eof || HasEnd(Sent(others)) || Remaining(others) >= length
      modifies this, pcq, others, buffer
      ensures st == if length <= 0 then InvalidArgument else if role != ReadableEnd then RuntimeError else Ok
      ensures Valid(others) && Sent(others) == old(Sent(others))
      ensures st == Ok && old(eof) ==> n == -1 && eof && bytes == old(bytes)
      ensures st == Ok && !old(eof) ==> 0 <= n <= length && (n < length ==> eof)
      ensures st == Ok && !old(eof) ==> n == Min(old(Remaining(others)), length)
      ensures st == Ok && !old(eof) ==> bytes == old(bytes) + buffer[..n]
    {
      hide Payload, HasEnd, Valid, Sent;
      n := 0;
      if length <= 0 {
        return InvalidArgument, n;
      }
      var amountRead := 0;
      while amountRead < length
        invariant 0 <= amountRead <= length && Valid(others) && Sent(others) == old(Sent(others))
        invariant amountRead > 0 ==> role == ReadableEnd && !old(eof) && !eof
        invariant amountRead == 0 ==> eof == old(eof)
        invariant bytes == old(bytes) + buffer[..amountRead]
        invariant eof || HasEnd(Sent(others)) || Remaining(others) >= length - amountRead
        invariant amountRead > 0 ==> Remaining(others) >= 0
        decreases length - amountRead
      {
        ghost var front := buffer[..amountRead];
        st, n := ReadOn(buffer, amountRead, length - amountRead, others);
        if st != Ok {
          return;
        }
        assert n >= 0 ==> buffer[..amountRead + n] == front + buffer[amountRead..amountRead + n];
        if n <= 0 {
          return Ok, if amountRead > 0 then amountRead else n;
        }
        amountRead := amountRead + n;
      }
      return Ok, amountRead;
    }

    /** A reader with bytes or the end mark still to come does not wait for ever. */
    lemma SomethingComes(others: Writers)
      requires Valid(others) && (eof || HasEnd(Sent(others)) || Remaining(others) > 0)
      ensures !eof && off >= |curr| ==> pcq.queue + others.incoming != []
    {
      hide Payload, HasEnd;
      FollowsPrefix(View(), taken, pcq.queue + others.incoming);
      NothingQueued();
    }

    lemma NothingQueued()
      ensures Payload([]) == [] && !HasEnd([])
    {
    }

    /**
     One block per call. The call returns its length when the queue has taken the block, but also when
     the queue has dropped it; it throws on overflow, and is asleep (Waiting) on a full blocking queue.
     */
    method Write(buffer: array<u8>, at: nat, length: int) returns (st: Outcome, r: PushResult, n: int)
      requires at + length <= buffer.Length && Counted(pcq.View())
      modifies pcq
      ensures st == if length <= 0 then InvalidArgument else if role != WritableEnd then RuntimeError
        else if pcq.behavior == Throw && old(pcq.size >= pcq.capacity) then BufferOverflow else Ok
      ensures length <= 0 || role != WritableEnd ==> pcq.View() == old(pcq.View())
      ensures length > 0 && role == WritableEnd ==>
        && (r == Pushed <==> old(pcq.size < pcq.capacity) || pcq.behavior == Grow)
        && (r == Waiting <==> old(pcq.size == pcq.capacity) && pcq.behavior == Block)
        && pcq.queue == old(pcq.queue) + (if r == Pushed then [buffer[at..at + length]] else [])
      ensures st == Ok ==> n == length
    {
      n, r := 0, Overflow;
      if length <= 0 {
        return InvalidArgument, r, n;
      }
      if role != WritableEnd {
        return RuntimeError, r, n;
      }
      r := pcq.Push(tid, buffer[at..at + length]);
      if r == Overflow {
        return BufferOverflow, r, n;
      }
      return Ok, r, length;
    }

    /** The end mark goes the way of every block: a queue that overflows may drop it. */
    method Close() returns (st: Outcome, r: PushResult)
      requires Counted(pcq.View())
      modifies pcq
      ensures st == if pcq.behavior == Throw && old(pcq.size >= pcq.capacity) then BufferOverflow else Ok
      ensures r == Pushed <==> old(pcq.size < pcq.capacity) || pcq.behavior == Grow
      ensures r == Waiting <==> old(pcq.size == pcq.capacity) && pcq.behavior == Block
      ensures pcq.queue == old(pcq.queue) + if r == Pushed then [[]] else []
    {
      r := pcq.Push(tid, []);
      return if r == Overflow then BufferOverflow else Ok, r;
    }
  }

  lemma OffsetInBlock(r: Reader, taken: seq<seq<u8>>)
    requires Follows(r, taken)
    ensures r.off <= |r.curr| && (r.eof ==> r.curr == [])
  {
  }
}
