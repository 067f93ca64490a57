/**
 The producer-consumer queue, as threads see it: a mutex, two condition variables, and
 broadcasts sent only when the size passes exactly 1 or exactly capacity - 1.

 What a thread does between taking and giving up the mutex is one section; a wait on a
 condition variable ends a section and being woken starts a new one.
 */
module Pcq {
  import opened Arrays
  import opened WordMath

  type Tid = nat

  datatype Behavior = Discard | Block | Grow | Throw
  datatype PushResult = Pushed | Dropped | Waiting | Overflow
  datatype PopResult<T> = Popped(item: T) | Empty

  /** The fields of the queue, and who is asleep on which condition variable. */
  datatype Core<T> = Core(size: u32, capacity: u32, behavior: Behavior, queue: seq<T>,
                          needItem: set<Tid>, needRoom: set<Tid>)

  // ---------- sections ----------

  function MPush<T>(c: Core<T>, item: T): Core<T> {
    var size := (c.size + 1) % 0x1_0000_0000;
    c.(queue := c.queue + [item], size := size, needItem := if size == 1 then {} else c.needItem)
  }

  /** The wait loop of a blocking push, entered from the start or after a wake-up. */
  function PushLoop<T>(c: Core<T>, t: Tid, item: T): (Core<T>, PushResult) {
    if c.size == c.capacity then (c.(needRoom := c.needRoom + {t}), Waiting) else (MPush(c, item), Pushed)
  }

  function PushSection<T>(c: Core<T>, t: Tid, item: T): (Core<T>, PushResult) {
    if c.size < c.capacity then (MPush(c, item), Pushed)
    else match c.behavior
      case Discard => (c, Dropped)
      case Block => PushLoop(c, t, item)
      case Grow =>
        var d := MPush(c, item);
        (d.(capacity := (d.capacity * 2) % 0x1_0000_0000), Pushed)
      case Throw => (c, Overflow)
  }

  function PopSection<T>(c: Core<T>, t: Tid): (Core<T>, PopResult<T>)
    requires c.size > 0 ==> c.queue != []
  {
    if c.size == 0 then (c.(needItem := c.needItem + {t}), Empty)
    else
      var size := c.size - 1;
      var full := size == (c.capacity - 1) % 0x1_0000_0000;
      (c.(queue := c.queue[1..], size := size, needRoom := if full then {} else c.needRoom), Popped(c.queue[0]))
  }

  class Queue<T> {
    var size: u32
    var capacity: u32
    const behavior: Behavior
    var queue: seq<T>
    var needItem: set<Tid>
    var needRoom: set<Tid>

    function View(): Core<T>
      reads this
    {
      Core(size, capacity, behavior, queue, needItem, needRoom)
    }

    constructor (capacity: u32, behavior: Behavior)
      requires capacity > 0
      ensures View() == Core(0, capacity, behavior, [], {}, {})
    {
      this.size, this.capacity, this.behavior := 0, capacity, behavior;
      queue, needItem, needRoom := [], {}, {};
    }

    method PushItem(item: T)
      modifies this
      ensures View() == MPush(old(View()), item)
    {
      queue := queue + [item];
      size := (size + 1) % 0x1_0000_0000;
      if size == 1 {
        needItem := {};
      }
    }

    /** The waiting loop up to its next wait or its end. */
    method WaitForRoom(t: Tid, item: T) returns (r: PushResult)
      modifies this
      ensures r == if old(size == capacity) then Waiting else Pushed
      ensures queue == old(queue) + (if r == Pushed then [item] else []) && capacity == old(capacity)
      ensures size == if r == Pushed then (old(size) + 1) % 0x1_0000_0000 else old(size)
      ensures (View(), r) == PushLoop(old(View()), t, item)
    {
      if size == capacity {
        needRoom := needRoom + {t};
        return Waiting;
      }
      PushItem(item);
      return Pushed;
    }

    /** With room the item enters; on overflow the behaviour decides. Consumers are woken at size 1 only. */
    method Push(t: Tid, item: T) returns (r: PushResult)
      modifies this
      ensures r == Dropped <==> behavior == Discard && old(size >= capacity)
      ensures r == Overflow <==> behavior == Throw && old(size >= capacity)
      ensures r == Waiting <==> behavior == Block && old(size == capacity)
      ensures queue == old(queue) + if r == Pushed then [item] else []
      ensures size == if r == Pushed then (old(size) + 1) % 0x1_0000_0000 else old(size)
      ensures needItem == if r == Pushed && size == 1 then {} else old(needItem)
      ensures needRoom == old(needRoom) + if r == Waiting then {t} else {}
      ensures capacity == if behavior == Grow && old(size >= capacity)
        then (2 * old(capacity)) % 0x1_0000_0000 else old(capacity)
      ensures (View(), r) == PushSection(old(View()), t, item)
    {
      if size < capacity {
        PushItem(item);
        return Pushed;
      }
      match behavior {
        case Discard =>
          return Dropped;
        case Block =>
          r := WaitForRoom(t, item);
        case Grow =>
          PushItem(item);
          capacity := (capacity * 2) % 0x1_0000_0000;
          return Pushed;
        case Throw =>
          return Overflow;
      }
    }

    /** The front item leaves, or the thread lies down to wait. Producers are woken at capacity - 1 only. */
    method Pop(t: Tid) returns (r: PopResult<T>)
      requires size > 0 ==> queue != []
      modifies this
      ensures r.Empty? <==> old(size) == 0
      ensures old(queue) == (if r.Popped? then [r.item] else []) + queue
      ensures size == old(size) - (if r.Popped? then 1 else 0) && capacity == old(capacity)
      ensures needItem == old(needItem) + if r.Empty? then {t} else {}
      ensures needRoom == if r.Popped? && size == (capacity - 1) % 0x1_0000_0000 then {} else old(needRoom)
      ensures (View(), r) == PopSection(old(View()), t)
    {
      if size == 0 {
        needItem := needItem + {t};
        return Empty;
      }
      var f := queue[0];
      queue := queue[1..];
      size := size - 1;
      if size == (capacity - 1) % 0x1_0000_0000 {
        needRoom := {};
      }
      return Popped(f);
    }
  }

  method NewQueue<T>(capacity: u32, behavior: Behavior) returns (st: Outcome, q: Queue?<T>)
    ensures st == if capacity == 0 then InvalidArgument else Ok
    ensures st == Ok ==> q != null && fresh(q) && q.View() == Core(0, capacity, behavior, [], {}, {})
  {
    if capacity == 0 {
      return InvalidArgument, null;
    }
    q := new Queue(capacity, behavior);
    return Ok, q;
  }

  // ---------- threads ----------

  datatype Op<T> = Push(item: T) | Pop(timed: bool)

  /** Outside; called and wanting the mutex; asleep; woken (perhaps by a timeout) and wanting the mutex. */
  datatype Pc<T> = Idle | Ready(op: Op<T>) | Sleeping(op: Op<T>) | Woken(op: Op<T>, expired: bool)

  datatype Holder = Free | Held(tid: Tid)

  /** The whole system, with the items taken in and handed out so far. */
  datatype Sys<T> = Sys(core: Core<T>, holder: Holder, pc: map<Tid, Pc<T>>, accepted: seq<T>, delivered: seq<T>)

  datatype Step<T> = Call(t: Tid, op: Op<T>) | Lock(t: Tid) | Section(t: Tid) | Wake(t: Tid) | Expire(t: Tid)

  predicate Enabled<T(==)>(s: Sys<T>, step: Step<T>) {
    step.t in s.pc && match step
      case Call(t, _) => s.pc[t].Idle?
      case Lock(t) => s.holder.Free? && (s.pc[t].Ready? || s.pc[t].Woken?)
      case Section(t) => s.holder == Held(t) && (s.pc[t].Ready? || s.pc[t].Woken?)
      case Wake(t) => s.pc[t].Sleeping?
      case Expire(t) => s.pc[t].Sleeping? && s.pc[t].op.Pop? && s.pc[t].op.timed
  }

  /** Sleepers whose condition variable has been broadcast are awake. */
  function Awakened<T>(pc: map<Tid, Pc<T>>, core: Core<T>): map<Tid, Pc<T>> {
    map t | t in pc ::
      if pc[t].Sleeping? && t !in (if pc[t].op.Push? then core.needRoom else core.needItem)
      then Woken(pc[t].op, false) else pc[t]
  }

  function Asleep<T>(core: Core<T>, t: Tid): Core<T> {
    core.(needItem := core.needItem - {t}, needRoom := core.needRoom - {t})
  }

  /** One section: a timed pop that has expired gives up without looking at the queue. */
  function RunSection<T>(s: Sys<T>, t: Tid): Sys<T>
    requires t in s.pc && (s.pc[t].Ready? || s.pc[t].Woken?)
    requires s.core.size > 0 ==> s.core.queue != []
  {
    var pc := s.pc[t];
    match pc.op
    case Push(item) =>
      var (core, r) := if pc.Ready? then PushSection(s.core, t, item) else PushLoop(s.core, t, item);
      Sys(core, Free, Awakened(s.pc[t := if r == Waiting then Sleeping(pc.op) else Idle], core),
          if r == Pushed then s.accepted + [item] else s.accepted, s.delivered)
    case Pop(_) =>
      if pc.Woken? && pc.expired then s.(holder := Free, pc := s.pc[t := Idle])
      else
        var (core, r) := PopSection(s.core, t);
        Sys(core, Free, Awakened(s.pc[t := if r.Empty? then Sleeping(pc.op) else Idle], core),
            s.accepted, if r.Popped? then s.delivered + [r.item] else s.delivered)
  }

  function Apply<T(==)>(s: Sys<T>, step: Step<T>): Sys<T>
    requires Enabled(s, step) && (s.core.size > 0 ==> s.core.queue != [])
  {
    match step
    case Call(t, op) => s.(pc := s.pc[t := Ready(op)])
    case Lock(t) => s.(holder := Held(t))
    case Section(t) => RunSection(s, t)
    case Wake(t) => s.(pc := s.pc[t := Woken(s.pc[t].op, false)], core := Asleep(s.core, t))
    case Expire(t) => s.(pc := s.pc[t := Woken(s.pc[t].op, true)], core := Asleep(s.core, t))
  }

  ghost predicate Init<T>(s: Sys<T>) {
    && s.core == Core(0, s.core.capacity, s.core.behavior, [], {}, {}) && s.core.capacity > 0
    && s.holder == Free && s.accepted == [] && s.delivered == []
    && forall t :: t in s.pc ==> s.pc[t] == Idle
  }

  // ---------- what every step keeps ----------

  /** The size is the length of the queue, as far as 32 bits can tell, and never too large without growing. */
  ghost predicate Counted<T>(c: Core<T>) {
    && c.size == |c.queue| % 0x1_0000_0000
    && (c.behavior != Grow ==> |c.queue| <= c.capacity && c.capacity > 0)
  }

  /** Nobody sleeps without reason. */
  ghost predicate NoLostWakeup<T>(c: Core<T>) {
    && (c.needItem != {} ==> c.size == 0)
    && (c.needRoom != {} ==> c.behavior == Block && c.size == c.capacity)
  }

  /** The threads asleep are exactly those on a condition variable, each on its own. */
  ghost predicate Registered<T>(c: Core<T>, pc: map<Tid, Pc<T>>) {
    && c.needItem <= pc.Keys && c.needRoom <= pc.Keys
    && (forall t :: t in pc ==> (t in c.needItem <==> pc[t].Sleeping? && pc[t].op.Pop?))
    && (forall t :: t in pc ==> (t in c.needRoom <==> pc[t].Sleeping? && pc[t].op.Push?))
  }

  /** Only the blocking behaviour lets a producer wait. */
  ghost predicate OnlyBlockWaits<T>(s: Sys<T>) {
    forall t :: t in s.pc && (s.pc[t].Sleeping? || s.pc[t].Woken?) && s.pc[t].op.Push? ==> s.core.behavior == Block
  }

  ghost predicate Inv<T>(s: Sys<T>) {
    && Counted(s.core) && NoLostWakeup(s.core) && Registered(s.core, s.pc)
    && s.accepted == s.delivered + s.core.queue && OnlyBlockWaits(s)
    && (s.holder.Held? ==> s.holder.tid in s.pc && (s.pc[s.holder.tid].Ready? || s.pc[s.holder.tid].Woken?))
  }

  lemma NonEmpty<T>(c: Core<T>)
    requires Counted(c)
    ensures c.size > 0 ==> c.queue != []
  {
  }

  lemma PushKeeps<T>(c: Core<T>, t: Tid, item: T, first: bool)
    requires Counted(c) && NoLostWakeup(c) && (first || c.behavior == Block)
    ensures var (d, r) := if first then PushSection(c, t, item) else PushLoop(c, t, item);
      && Counted(d) && NoLostWakeup(d)
      && d.queue == (if r == Pushed then c.queue + [item] else c.queue)
      && d.needRoom == (if r == Waiting then c.needRoom + {t} else c.needRoom)
      && (d.needItem == c.needItem || d.needItem == {}) && d.behavior == c.behavior
      && (r == Pushed <==> c.size < c.capacity || c.behavior == Grow)
      && (r == Dropped ==> c.behavior == Discard) && (r == Overflow ==> c.behavior == Throw)
      && (r == Waiting ==> c.behavior == Block)
  {
  }

  lemma PopKeeps<T>(c: Core<T>, t: Tid)
    requires Counted(c) && NoLostWakeup(c) && (c.size > 0 ==> c.queue != [])
    ensures var (d, r) := PopSection(c, t);
      && Counted(d) && NoLostWakeup(d)
      && (r.Empty? <==> c.size == 0) && c.queue == (if r.Popped? then [r.item] + d.queue else d.queue)
      && d.needItem == (if r.Empty? then c.needItem + {t} else c.needItem)
      && (d.needRoom == c.needRoom || d.needRoom == {}) && d.behavior == c.behavior
  {
  }

  /** After a section the awake have been told so, and thread t sleeps where it said it would. */
  lemma StillRegistered<T>(c: Core<T>, pc: map<Tid, Pc<T>>, d: Core<T>, t: Tid, now: Pc<T>)
    requires Registered(c, pc) && t in pc && !pc[t].Sleeping? && !now.Woken?
    requires if now.Sleeping? && now.op.Pop? then d.needItem == c.needItem + {t} else d.needItem in {c.needItem, {}}
    requires if now.Sleeping? && now.op.Push? then d.needRoom == c.needRoom + {t} else d.needRoom in {c.needRoom, {}}
    ensures Registered(d, Awakened(pc[t := now], d))
    ensures var after := Awakened(pc[t := now], d);
      after.Keys == pc.Keys && forall u :: u in pc && (after[u].Sleeping? || after[u].Woken?) ==>
        (u == t && after[u] == now) || ((pc[u].Sleeping? || pc[u].Woken?) && after[u].op == pc[u].op)
  {
    var after := Awakened(pc[t := now], d);
    assert after.Keys == pc.Keys;
  }

  /** Every section of every thread keeps the invariant. */
  lemma SectionKeepsInv<T>(s: Sys<T>, t: Tid)
    requires Inv(s) && t in s.pc && (s.pc[t].Ready? || s.pc[t].Woken?) && s.holder == Held(t)
    ensures s.core.size > 0 ==> s.core.queue != []
    ensures Inv(RunSection(s, t))
  {
    hide Registered, Counted, NoLostWakeup, Awakened, PushSection, PushLoop, PopSection;
    NonEmpty(s.core);
    var pc := s.pc[t];
    match pc.op
    case Push(item) =>
      PushKeeps(s.core, t, item, pc.Ready?);
      var (d, r) := if pc.Ready? then PushSection(s.core, t, item) else PushLoop(s.core, t, item);
      StillRegistered(s.core, s.pc, d, t, if r == Waiting then Sleeping(pc.op) else Idle);
    case Pop(_) =>
      if pc.Woken? && pc.expired {
        StillIdle(s.core, s.pc, t, Idle);
      } else {
        PopKeeps(s.core, t);
        var (d, r) := PopSection(s.core, t);
        StillRegistered(s.core, s.pc, d, t, if r.Empty? then Sleeping(pc.op) else Idle);
      }
  }

  /** A pop whose timeout has expired gives up, even if an item has come meanwhile: it only leaves. */
  lemma TimeoutTakesNothing<T>(s: Sys<T>, t: Tid)
    requires t in s.pc && s.pc[t].Woken? && s.pc[t].expired && s.pc[t].op.Pop?
    requires s.core.size > 0 ==> s.core.queue != []
    ensures RunSection(s, t) == Sys(s.core, Free, s.pc[t := Idle], s.accepted, s.delivered)
  {
  }

  /** What the section of a push does: the item is taken, or the thread leaves without, or it lies down. */
  lemma PushTakesOrWaits<T>(s: Sys<T>, t: Tid)
    requires Inv(s) && Enabled(s, Section(t)) && s.pc[t].op.Push? && (s.core.size > 0 ==> s.core.queue != [])
    ensures var n := RunSection(s, t);
      && n.holder == Free && n.delivered == s.delivered
      && n.accepted == s.accepted +
           (if s.core.size < s.core.capacity || s.core.behavior == Grow then [s.pc[t].op.item] else [])
      && t in n.pc && n.pc[t] ==
           if s.core.behavior == Block && s.core.size == s.core.capacity then Sleeping(s.pc[t].op) else Idle
  {
    PushKeeps(s.core, t, s.pc[t].op.item, s.pc[t].Ready?);
    hide Registered, NoLostWakeup;
  }

  /** What the section of a pop that has not timed out does: the front item goes out, or the thread lies down. */
  lemma PopTakesOrWaits<T>(s: Sys<T>, t: Tid)
    requires Inv(s) && Enabled(s, Section(t)) && s.pc[t].op.Pop? && (s.core.size > 0 ==> s.core.queue != [])
    requires s.pc[t].Woken? ==> !s.pc[t].expired
    ensures var n := RunSection(s, t);
      && n.holder == Free && n.accepted == s.accepted
      && n.delivered == s.delivered + (if s.core.size > 0 then [s.core.queue[0]] else [])
      && t in n.pc && n.pc[t] == if s.core.size > 0 then Idle else Sleeping(s.pc[t].op)
  {
    PopKeeps(s.core, t);
    hide Registered, NoLostWakeup;
  }

  /** A push that is taken leaves no consumer asleep, a pop that gets its item no producer, and no one else is moved. */
  lemma SectionWakesAll<T>(s: Sys<T>, t: Tid)
    requires Inv(s) && Enabled(s, Section(t)) && (s.core.size > 0 ==> s.core.queue != [])
    ensures var n := RunSection(s, t);
      && n.pc.Keys == s.pc.Keys
      && (forall u :: u in s.pc && u != t ==>
            n.pc[u] == s.pc[u] || (s.pc[u].Sleeping? && n.pc[u] == Woken(s.pc[u].op, false)))
      && (n.accepted != s.accepted ==> forall u :: u in n.pc && n.pc[u].Sleeping? ==> !n.pc[u].op.Pop?)
      && (n.delivered != s.delivered ==> forall u :: u in n.pc && n.pc[u].Sleeping? ==> !n.pc[u].op.Push?)
  {
  }

  lemma StillIdle<T>(c: Core<T>, pc: map<Tid, Pc<T>>, t: Tid, now: Pc<T>)
    requires Registered(c, pc) && t in pc && !pc[t].Sleeping? && !now.Sleeping?
    ensures Registered(c, pc[t := now])
  {
    assert pc[t := now].Keys == pc.Keys;
  }

  lemma CallKeepsInv<T>(s: Sys<T>, t: Tid, op: Op<T>)
    requires Inv(s) && t in s.pc && s.pc[t].Idle?
    ensures Inv(s.(pc := s.pc[t := Ready(op)]))
  {
    hide Registered;
    StillIdle(s.core, s.pc, t, Ready(op));
  }

  /** A spurious wake-up or an expired timeout takes one thread off its condition variable. */
  lemma WakeKeepsInv<T>(s: Sys<T>, t: Tid, expired: bool)
    requires Inv(s) && t in s.pc && s.pc[t].Sleeping?
    ensures Inv(s.(pc := s.pc[t := Woken(s.pc[t].op, expired)], core := Asleep(s.core, t)))
  {
    var pc := s.pc[t := Woken(s.pc[t].op, expired)];
    assert pc.Keys == s.pc.Keys;
    assert Registered(Asleep(s.core, t), pc);
    hide Registered;
  }

  lemma StepKeepsInv<T>(s: Sys<T>, step: Step<T>)
    requires Inv(s) && Enabled(s, step)
    ensures s.core.size > 0 ==> s.core.queue != []
    ensures Inv(Apply(s, step))
  {
    NonEmpty(s.core);
    hide Registered, Counted, NoLostWakeup, RunSection, Asleep, OnlyBlockWaits;
    match step
    case Call(t, op) => CallKeepsInv(s, t, op);
    case Lock(t) =>
    case Section(t) => SectionKeepsInv(s, t);
    case Wake(t) => WakeKeepsInv(s, t, false);
    case Expire(t) => WakeKeepsInv(s, t, true);
  }

  // ---------- whole runs ----------

  /**
   s can reach s' by these steps, in any interleaving of the threads. That a positive size comes with a
   front item is what a pop needs; StepKeepsInv shows that it never keeps a step from being taken.
   */
  ghost predicate Run<T(!new)>(s: Sys<T>, steps: seq<Step<T>>, s': Sys<T>)
    decreases |steps|
  {
    if steps == [] then s == s'
    else
      && Enabled(s, steps[0]) && (s.core.size > 0 ==> s.core.queue != [])
      && Run(Apply(s, steps[0]), steps[1..], s')
  }

  lemma {:induction false} RunKeepsInv<T(!new)>(s: Sys<T>, steps: seq<Step<T>>, s': Sys<T>)
    requires Inv(s) && Run(s, steps, s')
    ensures Inv(s')
    decreases |steps|
  {
    hide Inv, Apply, Enabled;
    if steps != [] {
      StepKeepsInv(s, steps[0]);
      RunKeepsInv(Apply(s, steps[0]), steps[1..], s');
    }
  }

  lemma InitInv<T>(s: Sys<T>)
    requires Init(s)
    ensures Inv(s)
  {
  }

  /**
   In every run a thread asleep on m_queueHasSomething sees size 0, one asleep on m_queueHasRoom
   a full blocking queue, and so a sleeping consumer and a sleeping producer never coexist.
   */
  lemma NoLostWakeups<T(!new)>(s: Sys<T>, steps: seq<Step<T>>, s': Sys<T>)
    requires Init(s) && Run(s, steps, s')
    ensures forall t :: t in s'.pc && s'.pc[t].Sleeping? && s'.pc[t].op.Pop? ==> s'.core.size == 0
    ensures forall t :: t in s'.pc && s'.pc[t].Sleeping? && s'.pc[t].op.Push? ==>
      s'.core.behavior == Block && s'.core.size == s'.core.capacity > 0
    ensures forall t, u :: t in s'.pc && u in s'.pc && s'.pc[t].Sleeping? && s'.pc[u].Sleeping? ==>
      (s'.pc[t].op.Pop? <==> s'.pc[u].op.Pop?)
  {
    InitInv(s);
    RunKeepsInv(s, steps, s');
  }

  /** In every run what has been handed out is a prefix of what was taken in; the rest is still queued. */
  lemma FirstInFirstOut<T(!new)>(s: Sys<T>, steps: seq<Step<T>>, s': Sys<T>)
    requires Init(s) && Run(s, steps, s')
    ensures s'.accepted == s'.delivered + s'.core.queue && s'.delivered <= s'.accepted
    ensures s'.core.behavior != Grow ==> s'.core.size == |s'.core.queue| <= s'.core.capacity
    ensures s'.core.size == |s'.core.queue| % 0x1_0000_0000
  {
    InitInv(s);
    RunKeepsInv(s, steps, s');
    if s'.core.behavior != Grow {
      assert |s'.core.queue| % 0x1_0000_0000 == |s'.core.queue|;
    }
  }

  /** Only when everybody inside waits for the other side is there no thread that can go on by itself. */
  lemma StuckOnlyForGoodReason<T(!new)>(s: Sys<T>, steps: seq<Step<T>>, s': Sys<T>)
    requires Init(s) && Run(s, steps, s')
    requires forall t :: t in s'.pc ==> !Enabled(s', Lock(t)) && !Enabled(s', Section(t))
    ensures s'.holder == Free && forall t :: t in s'.pc ==> s'.pc[t].Idle? || s'.pc[t].Sleeping?
    ensures s'.core.size > 0 ==> forall t :: t in s'.pc && !s'.pc[t].Idle? ==> s'.pc[t].op.Push?
    ensures s'.core.size < s'.core.capacity ==> forall t :: t in s'.pc && !s'.pc[t].Idle? ==> s'.pc[t].op.Pop?
  {
    InitInv(s);
    RunKeepsInv(s, steps, s');
    assert s'.holder.Held? ==> Enabled(s', Section(s'.holder.tid));
    forall t | t in s'.pc
      ensures s'.pc[t].Idle? || s'.pc[t].Sleeping?
    {
      assert !Enabled(s', Lock(t));
    }
  }

  // ---------- the growing queue ----------

  /** Along the whole run the queue holds no more than `limit` items. */
  ghost predicate Within<T(!new)>(s: Sys<T>, steps: seq<Step<T>>, limit: nat)
    decreases |steps|
  {
    && |s.core.queue| <= limit
    && (steps != [] && Enabled(s, steps[0]) && (s.core.size > 0 ==> s.core.queue != []) ==>
          Within(Apply(s, steps[0]), steps[1..], limit))
  }

  /** A growing queue has room for what is in it. */
  ghost predicate Roomy<T>(c: Core<T>) {
    c.behavior == Grow && c.capacity > 0 && |c.queue| <= c.capacity
  }

  lemma GrownStaysRoomy<T>(c: Core<T>, t: Tid, item: T)
    requires Counted(c) && Roomy(c)
    ensures var (d, r) := PushSection(c, t, item);
      r == Pushed && (|d.queue| <= 0x8000_0000 ==> Roomy(d))
  {
  }

  lemma PoppedStaysRoomy<T>(c: Core<T>, t: Tid)
    requires Counted(c) && Roomy(c) && (c.size > 0 ==> c.queue != [])
    ensures Roomy(PopSection(c, t).0)
  {
  }

  lemma StepStaysRoomy<T>(s: Sys<T>, step: Step<T>)
    requires Inv(s) && Roomy(s.core) && Enabled(s, step) && (s.core.size > 0 ==> s.core.queue != [])
    requires |Apply(s, step).core.queue| <= 0x8000_0000
    ensures Roomy(Apply(s, step).core)
  {
    hide Registered, NoLostWakeup, Awakened, PushSection, PushLoop, PopSection, Counted;
    if step.Section? {
      var pc := s.pc[step.t];
      match pc.op
      case Push(item) => GrownStaysRoomy(s.core, step.t, item);
      case Pop(_) => PoppedStaysRoomy(s.core, step.t);
    }
  }

  lemma {:induction false} RunStaysRoomy<T(!new)>(s: Sys<T>, steps: seq<Step<T>>, s': Sys<T>)
    requires Inv(s) && Roomy(s.core) && Run(s, steps, s') && Within(s, steps, 0x8000_0000)
    ensures Inv(s') && Roomy(s'.core) && |s'.core.queue| <= 0x8000_0000
    decreases |steps|
  {
    hide Inv, Apply, Enabled, Roomy;
    if steps != [] {
      StepKeepsInv(s, steps[0]);
      StepStaysRoomy(s, steps[0]);
      RunStaysRoomy(Apply(s, steps[0]), steps[1..], s');
    }
  }

  /**
   A growing queue that never held more than 2^31 items keeps count of them, always has the capacity,
   and lets a consumer sleep only when it is really empty.
   */
  lemma GrowingQueue<T(!new)>(s: Sys<T>, steps: seq<Step<T>>, s': Sys<T>)
    requires Init(s) && s.core.behavior == Grow && Run(s, steps, s') && Within(s, steps, 0x8000_0000)
    ensures s'.core.size == |s'.core.queue| <= s'.core.capacity
    ensures forall t :: t in s'.pc && s'.pc[t].Sleeping? ==> s'.pc[t].op.Pop? && s'.core.queue == []
  {
    InitInv(s);
    RunStaysRoomy(s, steps, s');
    assert |s'.core.queue| % 0x1_0000_0000 == |s'.core.queue|;
  }

  /**
   One growing push covers the new size if and only if doubling neither wraps around nor falls
   short (or the size itself wraps to zero).
   */
  lemma GrowMakesRoom<T>(c: Core<T>, t: Tid, item: T)
    requires c.behavior == Grow && c.size >= c.capacity
    ensures var (d, r) := PushSection(c, t, item);
      && r == Pushed
      && (d.size <= d.capacity <==>
           c.size == 0xFFFF_FFFF || (c.capacity < 0x8000_0000 && c.size < 2 * c.capacity))
  {
  }

  /** One thread having pushed n items into a queue of capacity 2^31. */
  function Filled<T>(n: nat, item: T): Sys<T>
    requires n <= 0x8000_0000
  {
    var items := seq(n, _ => item);
    Sys(Core(n, 0x8000_0000, Grow, items, {}, {}), Free, map[0 := Idle], items, [])
  }

  function PushSteps<T>(item: T): seq<Step<T>> {
    [Call(0, Push(item)), Lock(0), Section(0)]
  }

  lemma OnePush<T(!new)>(s: Sys<T>, item: T, s': Sys<T>)
    requires s.pc == map[0 := Idle] && s.holder == Free && (s.core.size > 0 ==> s.core.queue != [])
    requires s.core.behavior == Grow
    requires s' == Sys(PushSection(s.core, 0, item).0, Free, map[0 := Idle], s.accepted + [item], s.delivered)
    ensures Run(s, PushSteps(item), s')
  {
    var steps := PushSteps(item);
    hide PushSection;
    var s1, s2 := Apply(s, steps[0]), Apply(Apply(s, steps[0]), steps[1]);
    assert PushSection(s.core, 0, item).1 == Pushed by { PushGrows(s.core, item); }
    assert Awakened(s2.pc[0 := Idle], PushSection(s.core, 0, item).0) == map[0 := Idle];
    assert steps[1..][1..] == steps[2..] && steps[2..][1..] == [] && steps[1..][0] == steps[1];
    assert Apply(s2, steps[2]) == s';
    assert Run(s2, steps[2..], s');
    assert Run(s1, steps[1..], s');
  }

  lemma PushGrows<T>(c: Core<T>, item: T)
    requires c.behavior == Grow
    ensures PushSection(c, 0, item).1 == Pushed
  {
  }

  lemma {:induction false} RunAppend<T(!new)>(s: Sys<T>, a: seq<Step<T>>, m: Sys<T>, b: seq<Step<T>>, e: Sys<T>)
    requires Run(s, a, m) && Run(m, b, e)
    ensures Run(s, a + b, e)
    decreases |a|
  {
    hide Apply, Enabled;
    if a == [] {
      assert a + b == b;
    } else {
      assert (a + b)[1..] == a[1..] + b && (a + b)[0] == a[0];
      RunAppend(Apply(s, a[0]), a[1..], m, b, e);
    }
  }

  lemma {:induction false} FillUp<T(!new)>(n: nat, item: T) returns (steps: seq<Step<T>>)
    requires n <= 0x8000_0000
    ensures Run(Filled(0, item), steps, Filled(n, item))
  {
    if n == 0 {
      steps := [];
    } else {
      var front := FillUp(n - 1, item);
      assert Filled(n, item).accepted == Filled(n - 1, item).accepted + [item];
      OnePush(Filled(n - 1, item), item, Filled(n, item));
      RunAppend(Filled(0, item), front, Filled(n - 1, item), PushSteps(item), Filled(n, item));
      steps := front + PushSteps(item);
    }
  }

  /** With 2^31 items the bound is exact: one more push is a run that ends with capacity 0. */
  lemma CapacityWraps<T(!new)>(item: T) returns (s: Sys<T>, steps: seq<Step<T>>, s': Sys<T>)
    ensures Init(s) && s.core.behavior == Grow && Run(s, steps, s')
    ensures |s'.core.queue| == 0x8000_0001 == s'.core.size && s'.core.capacity == 0
  {
    var n := 0x8000_0000;
    var full := Filled(n, item);
    var front := FillUp(n, item);
    s := Filled(0, item);
    s' := Sys(PushSection(full.core, 0, item).0, Free, map[0 := Idle], full.accepted + [item], []);
    OnePush(full, item, s');
    RunAppend(s, front, full, PushSteps(item), s');
    steps := front + PushSteps(item);
  }
}
