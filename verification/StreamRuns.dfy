/**
 The byte stream over whole runs: one thread reads, any number of others write and close, and the
 queue between them is the step system of Pcq with blocks of bytes as its items.
 */
module StreamRuns {
  import opened Pcq
  import opened StreamPcq
  import opened WordMath

  const READER: Tid := 0

  /** The threads on the queue, the reading end, the length asked for while a read waits for a block
      (0 if none does), the blocks of the calls to write and close that have returned, and the
      results of the calls to read. */
  datatype Stream = Stream(sys: Sys<seq<u8>>, reader: Reader, want: nat, written: seq<seq<u8>>, counts: seq<int>)

  /** The reader calls read, or some thread takes its next step; a write is a push, a close one of the end mark. */
  datatype Move = Read(length: nat) | Thread(step: Step<seq<u8>>)

  predicate Can(s: Stream, move: Move) {
    match move
    case Read(length) => length > 0 && READER in s.sys.pc && s.sys.pc[READER].Idle?
    case Thread(step) => Enabled(s.sys, step) && (step.Call? ==> step.t != READER && step.op.Push?)
  }

  /** What a move reads must be there: a front item, the rest of the block. MoveKeepsInv shows that it always is. */
  predicate Defined(s: Stream) {
    (s.sys.core.size > 0 ==> s.sys.core.queue != []) && s.reader.off <= |s.reader.curr|
  }

  function Copied(s: Stream, length: nat): Stream
    requires s.reader.off <= |s.reader.curr|
  {
    s.(reader := CopyBytes(s.reader, length), want := 0, counts := s.counts + [Amount(s.reader, length)])
  }

  /** What comes of a push in the section thread t is about to run. */
  function PushOutcome(sys: Sys<seq<u8>>, t: Tid): PushResult
    requires t in sys.pc && (sys.pc[t].Ready? || sys.pc[t].Woken?) && sys.pc[t].op.Push?
  {
    if sys.pc[t].Ready? then PushSection(sys.core, t, sys.pc[t].op.item).1
    else PushLoop(sys.core, t, sys.pc[t].op.item).1
  }

  /** The block of a write or close that returns with this step; one that is discarded returns all the same. */
  function Returned(sys: Sys<seq<u8>>, step: Step<seq<u8>>): seq<seq<u8>>
    requires Enabled(sys, step)
  {
    if step.Section? && sys.pc[step.t].op.Push? && PushOutcome(sys, step.t) in {Pushed, Dropped}
    then [sys.pc[step.t].op.item] else []
  }

  function Do(s: Stream, move: Move): Stream
    requires Can(s, move) && Defined(s)
  {
    match move
    case Read(length) =>
      if s.reader.eof then s.(counts := s.counts + [-1])
      else if s.reader.off == |s.reader.curr| then
        s.(sys := Apply(s.sys, Call(READER, Pop(false))), want := length)
      else Copied(s, length)
    case Thread(step) =>
      var sys := Apply(s.sys, step);
      var now := s.(sys := sys, written := s.written + Returned(s.sys, step));
      if |sys.delivered| > |s.sys.delivered| then
        Copied(now.(reader := TakeBlock(s.reader, sys.delivered[|sys.delivered| - 1])), s.want)
      else now
  }

  ghost predicate Fresh(s: Stream) {
    && Init(s.sys) && READER in s.sys.pc && s.reader == Reader([], 0, false, [])
    && s.want == 0 && s.written == [] && s.counts == []
  }

  ghost predicate Moves(s: Stream, moves: seq<Move>, s': Stream)
    decreases |moves|
  {
    if moves == [] then s == s'
    else Can(s, moves[0]) && Defined(s) && Moves(Do(s, moves[0]), moves[1..], s')
  }

  // ---------- the results of read ----------

  /** Positive counts; once the end is met, one 0 and then -1 for ever. */
  ghost predicate Answers(counts: seq<int>, eof: bool) {
    if eof then
      exists k :: 0 <= k < |counts| && counts[k] == 0
        && (forall i :: 0 <= i < k ==> counts[i] > 0) && (forall i :: k < i < |counts| ==> counts[i] == -1)
    else forall i :: 0 <= i < |counts| ==> counts[i] > 0
  }

  function Total(counts: seq<int>): nat {
    if counts == [] then 0
    else Total(counts[..|counts| - 1]) + if counts[|counts| - 1] > 0 then counts[|counts| - 1] else 0
  }

  lemma OneMoreAnswer(counts: seq<int>, eof: bool, n: int)
    requires Answers(counts, eof) && (if eof then n == -1 else n >= 0)
    ensures Answers(counts + [n], eof || n == 0)
    ensures Total(counts + [n]) == Total(counts) + if n > 0 then n else 0
  {
    var more := counts + [n];
    assert more[..|more| - 1] == counts;
    if eof {
      var k :| 0 <= k < |counts| && counts[k] == 0
        && (forall i :: 0 <= i < k ==> counts[i] > 0) && (forall i :: k < i < |counts| ==> counts[i] == -1);
      assert more[k] == 0;
    } else if n == 0 {
      assert more[|counts|] == 0;
    }
  }

  // ---------- what every move keeps ----------

  /** Only the reader pops, and it pops without a timeout. */
  ghost predicate OnlyReaderPops(pc: map<Tid, Pc<seq<u8>>>) {
    && READER in pc && (pc[READER].Idle? || pc[READER].op == Pop(false))
    && (pc[READER].Woken? ==> !pc[READER].expired)
    && forall t :: t in pc && t != READER && !pc[t].Idle? ==> pc[t].op.Push?
  }

  ghost predicate Reading(s: Stream) {
    && Follows(s.reader, s.sys.delivered) && Answers(s.counts, s.reader.eof) && Total(s.counts) == |s.reader.bytes|
    && READER in s.sys.pc && (s.want > 0 <==> !s.sys.pc[READER].Idle?)
    && (s.want > 0 ==> !s.reader.eof && s.reader.off == |s.reader.curr|)
  }

  ghost predicate StreamInv(s: Stream) {
    && Inv(s.sys) && OnlyReaderPops(s.sys.pc) && Reading(s)
    && (s.sys.core.behavior != Discard ==> s.written == s.sys.accepted)
  }

  /** What a section does to the threads and to the record of items. */
  lemma SectionFacts(s: Sys<seq<u8>>, t: Tid)
    requires Inv(s) && OnlyReaderPops(s.pc) && Enabled(s, Section(t)) && (s.core.size > 0 ==> s.core.queue != [])
    ensures var now := RunSection(s, t);
      && now.core.behavior == s.core.behavior && OnlyReaderPops(now.pc)
      && (t != READER ==> now.pc[READER].Idle? == s.pc[READER].Idle? && now.delivered == s.delivered)
      && (t == READER ==> now.accepted == s.accepted)
      && (t == READER ==>
           if now.pc[READER].Idle? then |s.core.queue| > 0 && now.delivered == s.delivered + [s.core.queue[0]]
           else now.delivered == s.delivered)
  {
    hide Counted, NoLostWakeup, Registered, PushSection, PushLoop;
    var pc := s.pc[t];
    if pc.op.Push? {
      PushKeepsBehavior(s.core, t, pc.op.item);
    }
  }

  lemma PushKeepsBehavior(c: Core<seq<u8>>, t: Tid, item: seq<u8>)
    ensures PushSection(c, t, item).0.behavior == c.behavior && PushLoop(c, t, item).0.behavior == c.behavior
  {
  }

  /** A push that does not discard returns exactly when its block is accepted. */
  lemma ReturnedIsAccepted(s: Sys<seq<u8>>, step: Step<seq<u8>>)
    requires Inv(s) && OnlyReaderPops(s.pc) && Enabled(s, step) && (s.core.size > 0 ==> s.core.queue != [])
    requires s.core.behavior != Discard
    ensures Apply(s, step).accepted == s.accepted + Returned(s, step)
  {
    hide Counted, NoLostWakeup, Registered, Awakened;
  }

  lemma ThreadKeepsReading(s: Stream, step: Step<seq<u8>>)
    requires StreamInv(s) && Can(s, Thread(step)) && Defined(s)
    ensures Reading(Do(s, Thread(step))) && OnlyReaderPops(Do(s, Thread(step)).sys.pc)
    ensures Do(s, Thread(step)).sys.core.behavior == s.sys.core.behavior
  {
    hide Inv, Follows, Answers, Total, RunSection, PushOutcome;
    var sys := Apply(s.sys, step);
    if step.Section? {
      SectionFacts(s.sys, step.t);
      if |sys.delivered| > |s.sys.delivered| {
        TakeAndCopy(s, s.sys.core.queue[0]);
      }
    }
  }

  /** A block arrives for a read that waits. */
  lemma TakeAndCopy(s: Stream, block: seq<u8>)
    requires Follows(s.reader, s.sys.delivered) && Answers(s.counts, s.reader.eof)
    requires Total(s.counts) == |s.reader.bytes|
    requires s.want > 0 && !s.reader.eof && s.reader.off == |s.reader.curr|
    ensures var r := TakeBlock(s.reader, block);
      var counts := s.counts + [Amount(r, s.want)];
      && Follows(CopyBytes(r, s.want), s.sys.delivered + [block])
      && Answers(counts, block == []) && Total(counts) == |CopyBytes(r, s.want).bytes|
  {
    hide Follows, Answers, Total;
    var r := TakeBlock(s.reader, block);
    TakeFollows(s.reader, s.sys.delivered, block);
    CopyFollows(r, s.sys.delivered + [block], s.want);
    OneMoreAnswer(s.counts, false, Amount(r, s.want));
  }

  lemma ReadKeepsInv(s: Stream, length: nat)
    requires StreamInv(s) && Can(s, Read(length)) && Defined(s)
    ensures StreamInv(Do(s, Read(length)))
    ensures Do(s, Read(length)).sys.core.behavior == s.sys.core.behavior
  {
    hide Inv, Follows, Answers, Total;
    if s.reader.eof {
      OneMoreAnswer(s.counts, true, -1);
    } else if s.reader.off == |s.reader.curr| {
      StepKeepsInv(s.sys, Call(READER, Pop(false)));
    } else {
      CopyFollows(s.reader, s.sys.delivered, length);
      OneMoreAnswer(s.counts, false, Amount(s.reader, length));
    }
  }

  lemma IsDefined(s: Stream)
    requires StreamInv(s)
    ensures Defined(s)
  {
    NonEmpty(s.sys.core);
    OffsetInBlock(s.reader, s.sys.delivered);
  }

  lemma MoveKeepsInv(s: Stream, move: Move)
    requires StreamInv(s) && Can(s, move)
    ensures Defined(s)
    ensures StreamInv(Do(s, move)) && Do(s, move).sys.core.behavior == s.sys.core.behavior
  {
    IsDefined(s);
    hide Inv, Reading, OnlyReaderPops;
    match move
    case Read(length) => ReadKeepsInv(s, length);
    case Thread(step) =>
      StepKeepsInv(s.sys, step);
      ThreadKeepsReading(s, step);
      if s.sys.core.behavior != Discard {
        ReturnedIsAccepted(s.sys, step);
      }
  }

  lemma {:induction false} MovesKeepInv(s: Stream, moves: seq<Move>, s': Stream)
    requires StreamInv(s) && Moves(s, moves, s')
    ensures StreamInv(s') && s'.sys.core.behavior == s.sys.core.behavior
    decreases |moves|
  {
    hide StreamInv, Do, Can;
    if moves != [] {
      MoveKeepsInv(s, moves[0]);
      MovesKeepInv(Do(s, moves[0]), moves[1..], s');
    }
  }

  lemma FreshInv(s: Stream)
    requires Fresh(s)
    ensures StreamInv(s)
  {
    InitInv(s.sys);
    hide Inv;
    assert s.reader.curr[0..] == [];
  }

  // ---------- the stream ----------

  /**
   However reads are sized and threads interleave: what was read begins what the queue accepted, and is all
   of it once the end is met; the counts add up, then comes 0 once and -1 ever after. Unless the queue
   discards, the accepted blocks are exactly those of the writes that returned.
   */
  lemma StreamDelivers(s: Stream, moves: seq<Move>, s': Stream)
    requires Fresh(s) && Moves(s, moves, s')
    ensures s'.reader.bytes <= Payload(s'.sys.accepted) && Total(s'.counts) == |s'.reader.bytes|
    ensures s'.reader.eof ==> s'.reader.bytes == Payload(s'.sys.accepted) && HasEnd(s'.sys.accepted)
    ensures Answers(s'.counts, s'.reader.eof)
    ensures s'.sys.core.behavior != Discard ==> s'.written == s'.sys.accepted
  {
    FreshInv(s);
    MovesKeepInv(s, moves, s');
    hide Payload, HasEnd, Answers;
    FollowsPrefix(s'.reader, s'.sys.delivered, s'.sys.core.queue);
  }

  /** Blocks written, then closed: read to the end, the bytes are exactly those of the blocks before the close. */
  lemma WrittenIsRead(s: Stream, moves: seq<Move>, s': Stream, blocks: seq<seq<u8>>, after: seq<seq<u8>>)
    requires Fresh(s) && Moves(s, moves, s') && s'.sys.core.behavior != Discard
    requires s'.written == blocks + [[]] + after && !HasEnd(blocks)
    ensures s'.reader.bytes <= Joined(blocks) && (s'.reader.eof ==> s'.reader.bytes == Joined(blocks))
  {
    StreamDelivers(s, moves, s');
    ClosedStream(blocks, after);
  }

  /** A reader asleep has read every byte accepted, and no end mark is on its way. */
  lemma SleeperHasReadAll(s: Stream, moves: seq<Move>, s': Stream)
    requires Fresh(s) && Moves(s, moves, s') && READER in s'.sys.pc && s'.sys.pc[READER].Sleeping?
    requires |s'.sys.core.queue| < 0x1_0000_0000
    ensures s'.reader.bytes == Payload(s'.sys.accepted) && !HasEnd(s'.sys.accepted)
  {
    FreshInv(s);
    MovesKeepInv(s, moves, s');
    AsleepOnEmpty(s'.sys);
    hide HasEnd;
    FollowsPrefix(s'.reader, s'.sys.delivered, []);
    assert s'.sys.delivered + [] == s'.sys.delivered == s'.sys.accepted;
    assert s'.reader.curr[s'.reader.off..] == [];
    assert s'.reader.bytes + [] == s'.reader.bytes;
  }

  lemma AsleepOnEmpty(sys: Sys<seq<u8>>)
    requires Inv(sys) && OnlyReaderPops(sys.pc) && sys.pc[READER].Sleeping? && |sys.core.queue| < 0x1_0000_0000
    ensures sys.core.queue == []
  {
    assert READER in sys.core.needItem;
  }

  // ---------- when a block is queued ----------

  /** The section of a write or close puts its block into the queue if and only if there is room or the queue grows. */
  lemma WriteIsQueued(s: Stream, t: Tid)
    requires StreamInv(s) && Enabled(s.sys, Section(t)) && s.sys.pc[t].op.Push? && Defined(s)
    ensures RunSection(s.sys, t).accepted == s.sys.accepted +
      if s.sys.core.size < s.sys.core.capacity || s.sys.core.behavior == Grow then [s.sys.pc[t].op.item] else []
  {
    PushKeeps(s.sys.core, t, s.sys.pc[t].op.item, s.sys.pc[t].Ready?);
    hide PushSection, PushLoop, Registered, NoLostWakeup, Awakened;
  }

  /** Nobody inside, the mutex free. */
  ghost predicate Quiet(s: Stream) {
    s.sys.pc == map[READER := Idle, 1 := Idle] && s.sys.holder == Free && s.sys.core.behavior == Discard
  }

  lemma ThreeMoves(s: Stream, a: Move, b: Move, c: Move)
    requires Can(s, a) && Defined(s)
    requires Can(Do(s, a), b) && Defined(Do(s, a))
    requires Can(Do(Do(s, a), b), c) && Defined(Do(Do(s, a), b))
    ensures Moves(s, [a, b, c], Do(Do(Do(s, a), b), c))
  {
    var s1, s2 := Do(s, a), Do(Do(s, a), b);
    var s3 := Do(s2, c);
    hide Do, Can, Defined;
    assert [a, b, c][1..] == [b, c] && [b, c][1..] == [c] && [c][1..] == [];
    assert Moves(s3, [], s3);
    assert Moves(s2, [c], s3);
    assert Moves(s1, [b, c], s3);
  }

  /** Thread 1 writes one block into a discarding queue. */
  lemma WriterTurn(s: Stream, block: seq<u8>) returns (moves: seq<Move>, s': Stream)
    requires Quiet(s) && Defined(s)
    ensures Moves(s, moves, s') && Quiet(s') && s'.reader == s.reader && s'.want == s.want
    ensures s'.written == s.written + [block] && s'.counts == s.counts && s'.sys.delivered == s.sys.delivered
    ensures var full := s.sys.core.size >= s.sys.core.capacity;
      s'.sys.core == (if full then s.sys.core else MPush(s.sys.core, block))
      && s'.sys.accepted == s.sys.accepted + if full then [] else [block]
  {
    var a, b, c := Thread(Call(1, Push(block))), Thread(Lock(1)), Thread(Section(1));
    var s1 := Do(s, a);
    var s2 := Do(s1, b);
    s' := Do(s2, c);
    moves := [a, b, c];
    ThreeMoves(s, a, b, c);
    assert s'.sys.pc == map[READER := Idle, 1 := Idle];
  }

  /** Thread 0 reads: the next block, or it goes to sleep. */
  lemma ReaderTurn(s: Stream, length: nat) returns (moves: seq<Move>, s': Stream)
    requires Quiet(s) && Defined(s) && length > 0 && !s.reader.eof && s.reader.off == |s.reader.curr|
    ensures Moves(s, moves, s') && s'.written == s.written && s'.sys.accepted == s.sys.accepted
    ensures s.sys.core.size > 0 ==>
      && Quiet(s') && s'.sys.core == PopSection(s.sys.core, READER).0
      && s'.reader == CopyBytes(TakeBlock(s.reader, s.sys.core.queue[0]), length)
    ensures s.sys.core.size == 0 ==>
      && s'.sys.pc == map[READER := Sleeping(Pop(false)), 1 := Idle] && s'.reader == s.reader
  {
    var a, b, c := Read(length), Thread(Lock(READER)), Thread(Section(READER));
    var s1 := Do(s, a);
    var s2 := Do(s1, b);
    s' := Do(s2, c);
    moves := [a, b, c];
    ThreeMoves(s, a, b, c);
    if s.sys.core.size > 0 {
      assert s'.sys.pc == map[READER := Idle, 1 := Idle];
    } else {
      assert s'.sys.pc == map[READER := Sleeping(Pop(false)), 1 := Idle];
    }
  }

  lemma {:induction false} MovesAppend(s: Stream, a: seq<Move>, m: Stream, b: seq<Move>, e: Stream)
    requires Moves(s, a, m) && Moves(m, b, e)
    ensures Moves(s, a + b, e)
    decreases |a|
  {
    hide Do, Can, Defined;
    if a == [] {
      assert a + b == b;
    } else {
      assert (a + b)[1..] == a[1..] + b && (a + b)[0] == a[0];
      MovesAppend(Do(s, a[0]), a[1..], m, b, e);
    }
  }

  /**
   A full discarding queue loses the end mark: write and close both return, and the reader, having
   read everything there is, sleeps with nobody left to wake it.
   */
  lemma DiscardLosesTheEnd(block: seq<u8>) returns (s: Stream, moves: seq<Move>, s': Stream)
    requires block != []
    ensures Fresh(s) && Moves(s, moves, s')
    ensures s'.written == [block, []] && s'.sys.accepted == [block] && s'.reader.bytes == block
    ensures s'.sys.pc == map[READER := Sleeping(Pop(false)), 1 := Idle]
  {
    hide Moves, Do, Can;
    s := Stream(Sys(Core(0, 1, Discard, [], {}, {}), Free, map[READER := Idle, 1 := Idle], [], []),
                Reader([], 0, false, []), 0, [], []);
    var m1, s1 := WriterTurn(s, block);
    var m2, s2 := WriterTurn(s1, []);
    var m3, s3 := ReaderTurn(s2, |block|);
    assert s3.reader.bytes == block;
    var m4, s4 := ReaderTurn(s3, 1);
    s' := s4;
    MovesAppend(s, m1, s1, m2, s2);
    MovesAppend(s, m1 + m2, s2, m3, s3);
    MovesAppend(s, m1 + m2 + m3, s3, m4, s4);
    moves := m1 + m2 + m3 + m4;
  }
}
