/**
 Reference counting over all interleavings of threads. Letting go of an object is a decrement and then,
 for the last handle, three more steps: erase the registry entry under the lock, delete the object, delete
 the counter. Other threads may take steps in between, and a deleted object's address may be allocated again.
 */
module RefcRuns {
  import opened Refc

  type Tid = nat
  /** Objects are numbered in the order of their allocation; an address may be used by several in turn. */
  type Id = nat

  datatype Ref = Ref(addr: Addr, counter: Counter)

  /** What a thread has left to do for the last handle it let go. */
  datatype Job = Nothing | Erase(ref: Ref) | Delete(ref: Ref) | Free(ref: Ref)

  /** The code erases before it deletes; the other order is there to show why. */
  datatype Order = EraseFirst | DeleteFirst

  /** The handles that are not NULL, the registry, the counters and for which object each was made, the objects
      alive and those of them not wrapped yet, the threads, and the objects allocated and deleted so far. */
  datatype State = State(handles: map<Handle, Ref>, known: map<Addr, Counter>, count: map<Counter, nat>,
                         owner: map<Counter, Id>, alive: map<Addr, Id>, raw: set<Addr>,
                         jobs: map<Tid, Job>, born: Id, deleted: seq<Id>)

  /** Allocate an object; wrap a raw pointer (c being where a new counter would go); copy a handle;
      decrement for a handle; go on with what is left to do. Assignment is LetGo, Work and then Copy or Wrap. */
  datatype Step = Allocate(t: Tid, a: Addr) | Wrap(t: Tid, h: Handle, a: Addr, c: Counter)
    | Copy(t: Tid, h: Handle, from: Handle) | LetGo(t: Tid, h: Handle) | Work(t: Tid)

  function On(handles: map<Handle, Ref>, a: Addr): set<Handle> {
    set h | h in handles && handles[h].addr == a
  }

  /** A raw pointer is wrapped only when fresh or while another handle stays live. */
  predicate Enabled(s: State, step: Step) {
    step.t in s.jobs && (step.Work? <==> s.jobs[step.t] != Nothing) && match step
      case Allocate(_, a) => a != 0 && a !in s.alive
      case Wrap(_, h, a, c) =>
        h !in s.handles && c !in s.count && a in s.alive && (a in s.raw || On(s.handles, a) != {})
      case Copy(_, h, from) => h !in s.handles && from in s.handles
      case LetGo(_, h) => h in s.handles
      case Work(_) => true
  }

  /** The step touches no counter and no object that has been deleted. */
  predicate Safe(s: State, step: Step)
    requires Enabled(s, step)
  {
    match step
    case Allocate(_, _) => true
    case Wrap(_, _, a, _) => a in s.known ==> s.known[a] in s.count
    case Copy(_, _, from) => s.handles[from].counter in s.count
    case LetGo(_, h) => s.handles[h].counter in s.count && s.count[s.handles[h].counter] > 0
    case Work(t) =>
      match s.jobs[t]
      case Delete(r) => r.addr in s.alive
      case Free(r) => r.counter in s.count
      case _ => true
  }

  function Allocated(s: State, a: Addr): State {
    s.(alive := s.alive[a := s.born], raw := s.raw + {a}, born := s.born + 1)
  }

  function Wrapped(s: State, h: Handle, a: Addr, c: Counter): State
    requires a in s.alive && (a in s.known ==> s.known[a] in s.count)
  {
    if a in s.known then
      s.(handles := s.handles[h := Ref(a, s.known[a])], count := s.count[s.known[a] := s.count[s.known[a]] + 1],
         raw := s.raw - {a})
    else
      s.(handles := s.handles[h := Ref(a, c)], known := s.known[a := c], count := s.count[c := 1],
         owner := s.owner[c := s.alive[a]], raw := s.raw - {a})
  }

  function Copied(s: State, h: Handle, r: Ref): State
    requires r.counter in s.count
  {
    s.(handles := s.handles[h := r], count := s.count[r.counter := s.count[r.counter] + 1])
  }

  function Dropped(order: Order, s: State, t: Tid, h: Handle): State
    requires h in s.handles && s.handles[h].counter in s.count && s.count[s.handles[h].counter] > 0
  {
    var r := s.handles[h];
    var left := s.count[r.counter] - 1;
    var job := if left > 0 then Nothing else if order == EraseFirst then Erase(r) else Delete(r);
    s.(handles := s.handles - {h}, count := s.count[r.counter := left], jobs := s.jobs[t := job])
  }

  function Worked(order: Order, s: State, t: Tid): State
    requires t in s.jobs && (s.jobs[t].Delete? ==> s.jobs[t].ref.addr in s.alive)
  {
    match s.jobs[t]
    case Nothing => s
    case Erase(r) =>
      s.(known := s.known - {r.addr}, jobs := s.jobs[t := if order == EraseFirst then Delete(r) else Free(r)])
    case Delete(r) =>
      s.(alive := s.alive - {r.addr}, raw := s.raw - {r.addr}, deleted := s.deleted + [s.alive[r.addr]],
         jobs := s.jobs[t := if order == EraseFirst then Free(r) else Erase(r)])
    case Free(r) =>
      s.(count := s.count - {r.counter}, owner := s.owner - {r.counter}, jobs := s.jobs[t := Nothing])
  }

  function Apply(order: Order, s: State, step: Step): State
    requires Enabled(s, step) && Safe(s, step)
  {
    match step
    case Allocate(_, a) => Allocated(s, a)
    case Wrap(_, h, a, c) => Wrapped(s, h, a, c)
    case Copy(_, h, from) => Copied(s, h, s.handles[from])
    case LetGo(t, h) => Dropped(order, s, t, h)
    case Work(t) => Worked(order, s, t)
  }

  ghost predicate Init(s: State) {
    && s == State(map[], map[], map[], map[], map[], {}, s.jobs, 0, [])
    && forall t :: t in s.jobs ==> s.jobs[t] == Nothing
  }

  // ---------- what every step keeps ----------

  ghost predicate Registered(handles: map<Handle, Ref>, known: map<Addr, Counter>) {
    forall h :: h in handles ==> handles[h].addr in known && known[handles[h].addr] == handles[h].counter
  }

  /** An entry belongs to the object that is at its address now, and counts the handles on it. */
  ghost predicate UpToDate(s: State, a: Addr)
    requires a in s.known
  {
    && a in s.alive && a !in s.raw && s.known[a] in s.count && s.known[a] in s.owner
    && s.owner[s.known[a]] == s.alive[a] && s.count[s.known[a]] == |On(s.handles, a)|
  }

  ghost predicate Registry(s: State) {
    && Registered(s.handles, s.known) && Injective(s.known) && s.raw <= s.alive.Keys
    && forall a :: a in s.known ==> UpToDate(s, a)
  }

  /** What is left to do still makes sense. */
  ghost predicate Pending(s: State, job: Job) {
    match job
    case Nothing => true
    case Erase(r) => r.addr in s.known && s.known[r.addr] == r.counter && On(s.handles, r.addr) == {}
    case Delete(r) => r.addr in s.alive && r.addr !in s.known && r.addr !in s.raw && Retired(s, r.counter)
    case Free(r) => Retired(s, r.counter)
  }

  /** A counter still allocated that the registry no longer mentions. */
  ghost predicate Retired(s: State, c: Counter) {
    c in s.count && forall a :: a in s.known ==> s.known[a] != c
  }

  /** No two threads have the same counter or the same object to get rid of. */
  ghost predicate Apart(x: Job, y: Job) {
    x == Nothing || y == Nothing ||
    (x.ref.counter != y.ref.counter && (x.Free? || y.Free? || x.ref.addr != y.ref.addr))
  }

  ghost predicate Jobs(s: State) {
    && (forall t :: t in s.jobs ==> Pending(s, s.jobs[t]))
    && forall t, u :: t in s.jobs && u in s.jobs && t != u ==> Apart(s.jobs[t], s.jobs[u])
  }

  ghost predicate Erases(job: Job, a: Addr) {
    job.Erase? && job.ref.addr == a
  }

  ghost predicate Deletes(job: Job, a: Addr) {
    job.Delete? && job.ref.addr == a
  }

  ghost predicate Frees(job: Job, c: Counter) {
    (job.Delete? || job.Free?) && job.ref.counter == c
  }

  ghost predicate Erasing(jobs: map<Tid, Job>, a: Addr) {
    exists t :: t in jobs && Erases(jobs[t], a)
  }

  ghost predicate Deleting(jobs: map<Tid, Job>, a: Addr) {
    exists t :: t in jobs && Deletes(jobs[t], a)
  }

  ghost predicate Freeing(jobs: map<Tid, Job>, c: Counter) {
    exists t :: t in jobs && Frees(jobs[t], c)
  }

  /** Nothing is forgotten: an object is unwrapped, registered or being deleted, a counter registered or being freed. */
  ghost predicate Covered(s: State) {
    && (forall a :: a in s.alive.Keys ==> a in s.raw || a in s.known || Deleting(s.jobs, a))
    && (forall a :: a in s.known.Keys ==> On(s.handles, a) != {} || Erasing(s.jobs, a))
    && (forall c :: c in s.count.Keys ==> Freeing(s.jobs, c) || !Retired(s, c))
  }

  /** Every object allocated is either alive at one address or has been deleted exactly once. */
  ghost predicate Numbered(alive: map<Addr, Id>, born: Id, deleted: seq<Id>) {
    && (forall a, b :: a in alive && b in alive && a != b ==> alive[a] != alive[b])
    && (forall i, j :: 0 <= i < j < |deleted| ==> deleted[i] != deleted[j])
    && (forall a :: a in alive ==> alive[a] < born && alive[a] !in deleted)
    && (forall i :: 0 <= i < |deleted| ==> deleted[i] < born)
    && forall x: Id :: x < born ==> x in deleted || x in alive.Values
  }

  ghost predicate Inv(s: State) {
    Registry(s) && Jobs(s) && Covered(s) && Numbered(s.alive, s.born, s.deleted)
  }

  /** What each step does to the handles, and which step deletes. */
  lemma HandlesAfter(order: Order, s: State, step: Step)
    requires Enabled(s, step) && Safe(s, step)
    ensures var n := Apply(order, s, step);
      match step
      case Wrap(_, h, a, _) => h in n.handles && n.handles[h].addr == a && n.handles - {h} == s.handles
      case Copy(_, h, from) => n.handles == s.handles[h := s.handles[from]]
      case LetGo(_, h) => n.handles == s.handles - {h}
      case _ => n.handles == s.handles
    ensures var n := Apply(order, s, step);
      n.deleted == s.deleted + if step.Work? && s.jobs[step.t].Delete? then [s.alive[s.jobs[step.t].ref.addr]] else []
  {
  }

  lemma OnWith(handles: map<Handle, Ref>, h: Handle, r: Ref, a: Addr)
    requires h !in handles
    ensures On(handles[h := r], a) == On(handles, a) + (if r.addr == a then {h} else {})
    ensures |On(handles[h := r], a)| == |On(handles, a)| + (if r.addr == a then 1 else 0)
  {
    assert On(handles[h := r], a) == On(handles, a) + (if r.addr == a then {h} else {});
  }

  lemma OnWithout(handles: map<Handle, Ref>, h: Handle, a: Addr)
    requires h in handles
    ensures On(handles - {h}, a) == On(handles, a) - {h}
    ensures |On(handles - {h}, a)| == |On(handles, a)| - (if handles[h].addr == a then 1 else 0)
  {
    assert On(handles - {h}, a) == On(handles, a) - {h};
    if handles[h].addr == a {
      assert h in On(handles, a);
    } else {
      assert On(handles, a) - {h} == On(handles, a);
    }
  }

  /** A handle's counter counts it. */
  lemma HandleCounted(s: State, h: Handle)
    requires Registry(s) && h in s.handles
    ensures var r := s.handles[h];
      && r.addr in s.known && s.known[r.addr] == r.counter && r.counter in s.count
      && s.count[r.counter] == |On(s.handles, r.addr)| > 0
  {
    var r := s.handles[h];
    assert UpToDate(s, r.addr);
    assert h in On(s.handles, r.addr);
  }

  lemma IsSafe(s: State, step: Step)
    requires Inv(s) && Enabled(s, step)
    ensures Safe(s, step)
  {
    hide Covered, Numbered;
    match step
    case Allocate(_, _) =>
    case Wrap(_, _, a, _) =>
      assert a in s.known ==> UpToDate(s, a);
    case Copy(_, _, from) =>
      HandleCounted(s, from);
    case LetGo(_, h) =>
      HandleCounted(s, h);
    case Work(t) =>
      assert Pending(s, s.jobs[t]);
  }

  // ---------- allocation ----------

  lemma AllocateKeepsInv(s: State, a: Addr)
    requires Inv(s) && a !in s.alive
    ensures Inv(Allocated(s, a))
  {
    AllocateKeepsRegistry(s, a);
    AllocateKeepsJobs(s, a);
    AllocateKeepsCovered(s, a);
    hide Registry, Jobs, Covered, Numbered;
    BornNumbered(s.alive, s.born, s.deleted, a);
  }

  lemma AllocateKeepsRegistry(s: State, a: Addr)
    requires Registry(s) && a !in s.alive
    ensures Registry(Allocated(s, a))
  {
    hide On;
    var n := Allocated(s, a);
    forall b | b in n.known
      ensures UpToDate(n, b)
    {
      assert UpToDate(s, b);
    }
  }

  lemma AllocateKeepsJobs(s: State, a: Addr)
    requires Jobs(s) && a !in s.alive
    ensures Jobs(Allocated(s, a))
  {
    hide On;
    var n := Allocated(s, a);
    forall t | t in n.jobs
      ensures Pending(n, n.jobs[t])
    {
      assert Pending(s, s.jobs[t]);
    }
  }

  lemma AllocateKeepsCovered(s: State, a: Addr)
    requires Covered(s) && a !in s.alive
    ensures Covered(Allocated(s, a))
  {
    hide On, Deleting, Erasing, Freeing;
    var n := Allocated(s, a);
    forall c | c in n.count.Keys && Retired(n, c)
      ensures Freeing(n.jobs, c)
    {
      assert Retired(s, c);
    }
  }

  lemma BornNumbered(alive: map<Addr, Id>, born: Id, deleted: seq<Id>, a: Addr)
    requires Numbered(alive, born, deleted) && a !in alive
    ensures Numbered(alive[a := born], born + 1, deleted)
  {
    var more := alive[a := born];
    assert born !in deleted;
    forall x: Id | x < born + 1
      ensures x in deleted || x in more.Values
    {
      if x == born {
        assert more[a] == x;
      } else if x !in deleted {
        var b :| b in alive && alive[b] == x;
        assert more[b] == x;
      }
    }
  }

  // ---------- one more handle ----------

  /** One more handle on an object that is registered and held. */
  function Joined(s: State, h: Handle, a: Addr): State
    requires a in s.known && s.known[a] in s.count
  {
    var c := s.known[a];
    s.(handles := s.handles[h := Ref(a, c)], count := s.count[c := s.count[c] + 1])
  }

  lemma JoinKeepsRegistry(s: State, h: Handle, a: Addr)
    requires Registry(s) && h !in s.handles && a in s.known && s.known[a] in s.count
    ensures Registry(Joined(s, h, a))
  {
    hide On;
    var n := Joined(s, h, a);
    forall b | b in n.known
      ensures UpToDate(n, b)
    {
      assert UpToDate(s, b);
      OnWith(s.handles, h, Ref(a, s.known[a]), b);
    }
  }

  lemma JoinKeepsJobs(s: State, h: Handle, a: Addr)
    requires Jobs(s) && h !in s.handles && a in s.known && s.known[a] in s.count && On(s.handles, a) != {}
    ensures Jobs(Joined(s, h, a))
  {
    var n := Joined(s, h, a);
    forall t | t in n.jobs
      ensures Pending(n, n.jobs[t])
    {
      assert Pending(s, s.jobs[t]);
      if s.jobs[t].Erase? {
        OnWith(s.handles, h, Ref(a, s.known[a]), s.jobs[t].ref.addr);
      }
    }
  }

  lemma JoinKeepsCovered(s: State, h: Handle, a: Addr)
    requires Covered(s) && h !in s.handles && a in s.known && s.known[a] in s.count
    ensures Covered(Joined(s, h, a))
  {
    var n := Joined(s, h, a);
    forall b | b in n.known.Keys
      ensures On(n.handles, b) != {} || Erasing(n.jobs, b)
    {
      OnWith(s.handles, h, Ref(a, s.known[a]), b);
    }
    forall c | c in n.count.Keys && !Freeing(n.jobs, c)
      ensures !Retired(n, c)
    {
      assert c in s.count.Keys && !Retired(s, c);
    }
  }

  lemma CopyKeepsInv(s: State, h: Handle, from: Handle)
    requires Inv(s) && h !in s.handles && from in s.handles
    ensures s.handles[from].counter in s.count && Inv(Copied(s, h, s.handles[from]))
  {
    hide Registry, Jobs, Covered, Numbered;
    HandleCounted(s, from);
    var a := s.handles[from].addr;
    assert from in On(s.handles, a);
    assert Copied(s, h, s.handles[from]) == Joined(s, h, a);
    JoinKeepsRegistry(s, h, a);
    JoinKeepsJobs(s, h, a);
    JoinKeepsCovered(s, h, a);
  }

  /** The first handle on an object, with a new counter. */
  function Started(s: State, h: Handle, a: Addr, c: Counter): State
    requires a in s.alive
  {
    s.(handles := s.handles[h := Ref(a, c)], known := s.known[a := c], count := s.count[c := 1],
       owner := s.owner[c := s.alive[a]], raw := s.raw - {a})
  }

  lemma StartKeepsRegistry(s: State, h: Handle, a: Addr, c: Counter)
    requires Registry(s) && h !in s.handles && a in s.alive && a !in s.known && c !in s.count
    ensures Registry(Started(s, h, a, c))
  {
    var n := Started(s, h, a, c);
    assert On(s.handles, a) == {};
    forall b | b in n.known
      ensures UpToDate(n, b) && (b != a ==> n.known[b] != c)
    {
      assert b != a ==> UpToDate(s, b);
      OnWith(s.handles, h, Ref(a, c), b);
    }
  }

  lemma StartKeepsJobs(s: State, h: Handle, a: Addr, c: Counter)
    requires Jobs(s) && h !in s.handles && a in s.alive && a !in s.known && c !in s.count && a in s.raw
    ensures Jobs(Started(s, h, a, c))
  {
    var n := Started(s, h, a, c);
    forall t | t in n.jobs
      ensures Pending(n, n.jobs[t])
    {
      assert Pending(s, s.jobs[t]);
      if s.jobs[t].Erase? {
        OnWith(s.handles, h, Ref(a, c), s.jobs[t].ref.addr);
      }
    }
  }

  lemma StartKeepsCovered(s: State, h: Handle, a: Addr, c: Counter)
    requires Covered(s) && h !in s.handles && a in s.alive && a !in s.known && c !in s.count
    ensures Covered(Started(s, h, a, c))
  {
    var n := Started(s, h, a, c);
    forall b | b in n.known.Keys
      ensures On(n.handles, b) != {} || Erasing(n.jobs, b)
    {
      OnWith(s.handles, h, Ref(a, c), b);
    }
    forall d | d in n.count.Keys && !Freeing(n.jobs, d)
      ensures !Retired(n, d)
    {
      if d == c {
        assert n.known[a] == d;
      } else {
        assert !Retired(s, d);
        var b :| b in s.known && s.known[b] == d;
        assert n.known[b] == d;
      }
    }
  }

  /** A wrap finds an entry only if it was made for this very object. */
  lemma WrapKeepsInv(s: State, h: Handle, a: Addr, c: Counter)
    requires Inv(s) && h !in s.handles && c !in s.count && a in s.alive && (a in s.raw || On(s.handles, a) != {})
    ensures a in s.known ==> s.known[a] in s.count
    ensures Inv(Wrapped(s, h, a, c))
  {
    RawOrHeld(s, a);
    hide Registry, Jobs, Covered, Numbered;
    if a in s.known {
      assert s.raw - {a} == s.raw;
      assert Wrapped(s, h, a, c) == Joined(s, h, a);
      JoinKeepsRegistry(s, h, a);
      JoinKeepsJobs(s, h, a);
      JoinKeepsCovered(s, h, a);
    } else {
      StartKeepsRegistry(s, h, a, c);
      StartKeepsJobs(s, h, a, c);
      StartKeepsCovered(s, h, a, c);
    }
  }

  lemma RawOrHeld(s: State, a: Addr)
    requires Registry(s) && (a in s.raw || On(s.handles, a) != {})
    ensures a in s.known <==> a !in s.raw
    ensures a in s.known ==> s.known[a] in s.count && On(s.handles, a) != {}
  {
    assert a in s.known ==> UpToDate(s, a);
    if h :| h in On(s.handles, a) {
      assert s.handles[h].addr in s.known;
    }
  }

  // ---------- letting go ----------

  /** Nothing is forgotten when thread t goes on to another job, if it takes over what it leaves uncovered. */
  lemma StillCovered(s: State, n: State, t: Tid, job: Job)
    requires Covered(s) && t in s.jobs && n.jobs == s.jobs[t := job]
    requires forall a :: a in n.alive.Keys && a !in n.raw && a !in n.known ==>
      Deletes(job, a) || (a in s.alive && a !in s.raw && a !in s.known && !Deletes(s.jobs[t], a))
    requires forall a :: a in n.known.Keys && On(n.handles, a) == {} ==>
      Erases(job, a) || (a in s.known && On(s.handles, a) == {} && !Erases(s.jobs[t], a))
    requires forall c :: c in n.count.Keys && Retired(n, c) ==>
      Frees(job, c) || (c in s.count && Retired(s, c) && !Frees(s.jobs[t], c))
    ensures Covered(n)
  {
    hide Erases, Deletes, Frees, On, Retired;
    assert n.jobs[t] == job;
    forall a | a in n.alive.Keys && a !in n.raw && a !in n.known
      ensures Deleting(n.jobs, a)
    {
      if !Deletes(job, a) {
        var u :| u in s.jobs && Deletes(s.jobs[u], a);
        assert n.jobs[u] == s.jobs[u];
      }
    }
    forall a | a in n.known.Keys && On(n.handles, a) == {}
      ensures Erasing(n.jobs, a)
    {
      if !Erases(job, a) {
        var u :| u in s.jobs && Erases(s.jobs[u], a);
        assert n.jobs[u] == s.jobs[u];
      }
    }
    forall c | c in n.count.Keys && Retired(n, c)
      ensures Freeing(n.jobs, c)
    {
      if !Frees(job, c) {
        var u :| u in s.jobs && Frees(s.jobs[u], c);
        assert n.jobs[u] == s.jobs[u];
      }
    }
  }

  /** One handle fewer, and `job` for the thread. */
  function Left(s: State, t: Tid, h: Handle, job: Job): State
    requires h in s.handles && s.handles[h].counter in s.count && s.count[s.handles[h].counter] > 0
  {
    var c := s.handles[h].counter;
    s.(handles := s.handles - {h}, count := s.count[c := s.count[c] - 1], jobs := s.jobs[t := job])
  }

  lemma LeaveKeepsRegistry(s: State, t: Tid, h: Handle, job: Job)
    requires Registry(s) && h in s.handles && s.handles[h].counter in s.count && s.count[s.handles[h].counter] > 0
    ensures Registry(Left(s, t, h, job))
  {
    var n := Left(s, t, h, job);
    forall b | b in n.known
      ensures UpToDate(n, b)
    {
      assert UpToDate(s, b);
      OnWithout(s.handles, h, b);
    }
  }

  lemma LeaveKeepsJobs(s: State, t: Tid, h: Handle, job: Job)
    requires Registry(s) && Jobs(s) && t in s.jobs && h in s.handles
    requires s.handles[h].counter in s.count && s.count[s.handles[h].counter] > 0
    requires job == Nothing || (job == Erase(s.handles[h]) && s.count[s.handles[h].counter] == 1)
    ensures Jobs(Left(s, t, h, job))
  {
    var n := Left(s, t, h, job);
    HandleCounted(s, h);
    var a := s.handles[h].addr;
    assert h in On(s.handles, a);
    OnWithout(s.handles, h, a);
    forall u | u in n.jobs
      ensures Pending(n, n.jobs[u]) && (u != t ==> Apart(n.jobs[u], job))
    {
      if u != t {
        assert Pending(s, s.jobs[u]);
        if s.jobs[u].Erase? {
          OnWithout(s.handles, h, s.jobs[u].ref.addr);
        }
      }
    }
  }

  lemma LeaveKeepsCovered(s: State, t: Tid, h: Handle, job: Job)
    requires Covered(s) && t in s.jobs && s.jobs[t] == Nothing && h in s.handles
    requires s.handles[h].counter in s.count && s.count[s.handles[h].counter] > 0
    requires On(s.handles, s.handles[h].addr) == {h} ==> job == Erase(s.handles[h])
    ensures Covered(Left(s, t, h, job))
  {
    var n := Left(s, t, h, job);
    forall a | a in n.known.Keys && On(n.handles, a) == {}
      ensures Erases(job, a) || On(s.handles, a) == {}
    {
      OnWithout(s.handles, h, a);
      assert On(s.handles, a) <= {h};
    }
    assert forall c :: c in n.count.Keys && Retired(n, c) ==> Retired(s, c);
    StillCovered(s, n, t, job);
  }

  lemma LastHandle(s: State, h: Handle)
    requires Registry(s) && h in s.handles
    ensures s.handles[h].counter in s.count
    ensures On(s.handles, s.handles[h].addr) == {h} <==> s.count[s.handles[h].counter] == 1
  {
    HandleCounted(s, h);
    var on := On(s.handles, s.handles[h].addr);
    assert h in on;
    if |on| == 1 {
      assert |on - {h}| == 0;
      assert on == {h};
    }
  }

  lemma LetGoKeepsInv(s: State, t: Tid, h: Handle)
    requires Inv(s) && t in s.jobs && s.jobs[t] == Nothing && h in s.handles
    ensures s.handles[h].counter in s.count && s.count[s.handles[h].counter] > 0
    ensures Inv(Dropped(EraseFirst, s, t, h))
  {
    HandleCounted(s, h);
    LastHandle(s, h);
    hide Registry, Jobs, Covered, Numbered;
    var r := s.handles[h];
    var job := if s.count[r.counter] - 1 > 0 then Nothing else Erase(r);
    assert Dropped(EraseFirst, s, t, h) == Left(s, t, h, job);
    LeaveKeepsRegistry(s, t, h, job);
    LeaveKeepsJobs(s, t, h, job);
    LeaveKeepsCovered(s, t, h, job);
  }

  // ---------- erase, delete, free ----------

  lemma EraseKeepsInv(s: State, t: Tid)
    requires Inv(s) && t in s.jobs && s.jobs[t].Erase?
    ensures Inv(Worked(EraseFirst, s, t))
  {
    hide Numbered;
    EraseKeepsRegistry(s, t);
    EraseKeepsJobs(s, t);
    EraseKeepsCovered(s, t);
  }

  lemma EraseKeepsRegistry(s: State, t: Tid)
    requires Registry(s) && Jobs(s) && t in s.jobs && s.jobs[t].Erase?
    ensures Registry(Worked(EraseFirst, s, t))
  {
    var n := Worked(EraseFirst, s, t);
    assert Pending(s, s.jobs[t]);
    forall h | h in n.handles
      ensures n.handles[h].addr in n.known
    {
      assert h in On(s.handles, s.handles[h].addr);
    }
    forall b | b in n.known
      ensures UpToDate(n, b)
    {
      assert UpToDate(s, b);
    }
  }

  lemma EraseKeepsJobs(s: State, t: Tid)
    requires Registry(s) && Jobs(s) && t in s.jobs && s.jobs[t].Erase?
    ensures Jobs(Worked(EraseFirst, s, t))
  {
    var n := Worked(EraseFirst, s, t);
    var r := s.jobs[t].ref;
    assert Pending(s, s.jobs[t]) && UpToDate(s, r.addr);
    forall u | u in n.jobs
      ensures Pending(n, n.jobs[u]) && (u != t ==> Apart(n.jobs[u], n.jobs[t]))
    {
      if u != t {
        assert Pending(s, s.jobs[u]) && Apart(s.jobs[u], s.jobs[t]);
      }
    }
  }

  lemma EraseKeepsCovered(s: State, t: Tid)
    requires Registry(s) && Jobs(s) && Covered(s) && t in s.jobs && s.jobs[t].Erase?
    ensures Covered(Worked(EraseFirst, s, t))
  {
    var n := Worked(EraseFirst, s, t);
    var r := s.jobs[t].ref;
    assert Pending(s, s.jobs[t]);
    forall c | c in n.count.Keys && Retired(n, c) && c != r.counter
      ensures Retired(s, c)
    {
      RetiredBefore(s, r.addr, c);
    }
    StillCovered(s, n, t, Delete(r));
  }

  lemma RetiredBefore(s: State, a: Addr, c: Counter)
    requires a in s.known && s.known[a] != c && Retired(s.(known := s.known - {a}), c)
    ensures Retired(s, c)
  {
    forall b | b in s.known
      ensures s.known[b] != c
    {
      assert b != a ==> b in s.known - {a};
    }
  }

  lemma DeleteKeepsInv(s: State, t: Tid)
    requires Inv(s) && t in s.jobs && s.jobs[t].Delete?
    ensures s.jobs[t].ref.addr in s.alive && Inv(Worked(EraseFirst, s, t))
  {
    var r := s.jobs[t].ref;
    assert Pending(s, s.jobs[t]);
    DeleteNumbered(s.alive, s.born, s.deleted, r.addr);
    hide Numbered;
    DeleteKeepsRegistry(s, t);
    hide Registry, Jobs, Covered;
    DeleteKeepsJobs(s, t);
    DeleteKeepsCovered(s, t);
  }

  lemma DeleteKeepsRegistry(s: State, t: Tid)
    requires Registry(s) && t in s.jobs && s.jobs[t].Delete? && Pending(s, s.jobs[t])
    ensures Registry(Worked(EraseFirst, s, t))
  {
    hide On;
    var n := Worked(EraseFirst, s, t);
    forall b | b in n.known
      ensures UpToDate(n, b)
    {
      assert UpToDate(s, b);
    }
  }

  lemma DeleteNumbered(alive: map<Addr, Id>, born: Id, deleted: seq<Id>, a: Addr)
    requires Numbered(alive, born, deleted) && a in alive
    ensures Numbered(alive - {a}, born, deleted + [alive[a]])
  {
    var fewer, more := alive - {a}, deleted + [alive[a]];
    forall x: Id | x < born
      ensures x in more || x in fewer.Values
    {
      if x in deleted {
        var i :| 0 <= i < |deleted| && deleted[i] == x;
        assert more[i] == x;
      } else {
        var b :| b in alive && alive[b] == x;
        if b == a {
          assert more[|deleted|] == x;
        } else {
          assert fewer[b] == x;
        }
      }
    }
  }

  lemma DeleteKeepsJobs(s: State, t: Tid)
    requires Jobs(s) && t in s.jobs && s.jobs[t].Delete? && s.jobs[t].ref.addr in s.alive
    ensures Jobs(Worked(EraseFirst, s, t))
  {
    var n := Worked(EraseFirst, s, t);
    assert Pending(s, s.jobs[t]);
    forall u | u in n.jobs
      ensures Pending(n, n.jobs[u]) && (u != t ==> Apart(n.jobs[u], n.jobs[t]))
    {
      assert Pending(s, s.jobs[u]) && (u != t ==> Apart(s.jobs[u], s.jobs[t]));
    }
  }

  lemma DeleteKeepsCovered(s: State, t: Tid)
    requires Covered(s) && t in s.jobs && s.jobs[t].Delete? && s.jobs[t].ref.addr in s.alive
    ensures Covered(Worked(EraseFirst, s, t))
  {
    var n := Worked(EraseFirst, s, t);
    assert forall c :: c in n.count.Keys && Retired(n, c) ==> Retired(s, c);
    StillCovered(s, n, t, Free(s.jobs[t].ref));
  }

  lemma FreeKeepsInv(s: State, t: Tid)
    requires Inv(s) && t in s.jobs && s.jobs[t].Free?
    ensures s.jobs[t].ref.counter in s.count && Inv(Worked(EraseFirst, s, t))
  {
    hide Numbered;
    assert Pending(s, s.jobs[t]);
    FreeKeepsRegistry(s, t);
    hide Registry, Jobs, Covered;
    FreeKeepsJobs(s, t);
    FreeKeepsCovered(s, t);
  }

  lemma FreeKeepsRegistry(s: State, t: Tid)
    requires Registry(s) && t in s.jobs && s.jobs[t].Free? && Pending(s, s.jobs[t])
    ensures Registry(Worked(EraseFirst, s, t))
  {
    hide On;
    var n := Worked(EraseFirst, s, t);
    forall b | b in n.known
      ensures UpToDate(n, b)
    {
      assert UpToDate(s, b);
    }
  }

  lemma FreeKeepsJobs(s: State, t: Tid)
    requires Jobs(s) && t in s.jobs && s.jobs[t].Free?
    ensures Jobs(Worked(EraseFirst, s, t))
  {
    var n := Worked(EraseFirst, s, t);
    forall u | u in n.jobs
      ensures Pending(n, n.jobs[u])
    {
      assert Pending(s, s.jobs[u]) && (u != t ==> Apart(s.jobs[u], s.jobs[t]));
    }
  }

  lemma FreeKeepsCovered(s: State, t: Tid)
    requires Covered(s) && t in s.jobs && s.jobs[t].Free?
    ensures Covered(Worked(EraseFirst, s, t))
  {
    var n := Worked(EraseFirst, s, t);
    assert forall c :: c in n.count.Keys && Retired(n, c) ==> Retired(s, c);
    StillCovered(s, n, t, Nothing);
  }

  // ---------- whole runs ----------

  lemma StepKeepsInv(s: State, step: Step)
    requires Inv(s) && Enabled(s, step)
    ensures Safe(s, step) && Inv(Apply(EraseFirst, s, step))
  {
    IsSafe(s, step);
    hide Inv, Allocated, Worked, Dropped, Wrapped, Copied, On;
    match step
    case Allocate(_, a) => AllocateKeepsInv(s, a);
    case Wrap(_, h, a, c) => WrapKeepsInv(s, h, a, c);
    case Copy(_, h, from) => CopyKeepsInv(s, h, from);
    case LetGo(t, h) => LetGoKeepsInv(s, t, h);
    case Work(t) => WorkKeepsInv(s, t);
  }

  lemma WorkKeepsInv(s: State, t: Tid)
    requires Inv(s) && t in s.jobs
    ensures s.jobs[t].Delete? ==> s.jobs[t].ref.addr in s.alive
    ensures Inv(Worked(EraseFirst, s, t))
  {
    hide Inv;
    match s.jobs[t]
    case Nothing =>
    case Erase(_) => EraseKeepsInv(s, t);
    case Delete(_) => DeleteKeepsInv(s, t);
    case Free(_) => FreeKeepsInv(s, t);
  }

  /** s can reach s' by these steps, all of them safe; StepKeepsInv shows that the code's order takes no others. */
  ghost predicate Run(order: Order, s: State, steps: seq<Step>, s': State)
    decreases |steps|
  {
    if steps == [] then s == s'
    else Enabled(s, steps[0]) && Safe(s, steps[0]) && Run(order, Apply(order, s, steps[0]), steps[1..], s')
  }

  lemma {:induction false} RunKeepsInv(s: State, steps: seq<Step>, s': State)
    requires Inv(s) && Run(EraseFirst, s, steps, s')
    ensures Inv(s')
    decreases |steps|
  {
    hide Inv, Apply, Enabled, Safe;
    if steps != [] {
      StepKeepsInv(s, steps[0]);
      RunKeepsInv(Apply(EraseFirst, s, steps[0]), steps[1..], s');
    }
  }

  lemma InitInv(s: State)
    requires Init(s)
    ensures Inv(s)
  {
  }

  /** In every run no thread ever touches a deleted counter or object: whatever is enabled is safe. */
  lemma NoUseAfterFree(s: State, steps: seq<Step>, s': State, step: Step)
    requires Init(s) && Run(EraseFirst, s, steps, s') && Enabled(s', step)
    ensures Safe(s', step)
  {
    InitInv(s);
    RunKeepsInv(s, steps, s');
    IsSafe(s', step);
  }

  /**
   In every run a registry entry was made for the object now at its address, and so a wrap of a fresh
   object, at whatever address it was allocated, finds no entry.
   */
  lemma NoStaleEntry(s: State, steps: seq<Step>, s': State, a: Addr)
    requires Init(s) && Run(EraseFirst, s, steps, s')
    ensures a in s'.raw ==> a in s'.alive && a !in s'.known
    ensures a in s'.known ==> a in s'.alive && s'.known[a] in s'.owner && s'.owner[s'.known[a]] == s'.alive[a]
  {
    InitInv(s);
    RunKeepsInv(s, steps, s');
    assert a in s'.known ==> UpToDate(s', a);
  }

  /** In every run a handle's object is alive and its counter is the number of handles on it. */
  lemma CountsMatch(s: State, steps: seq<Step>, s': State, h: Handle)
    requires Init(s) && Run(EraseFirst, s, steps, s') && h in s'.handles
    ensures var r := s'.handles[h];
      r.addr in s'.alive && r.counter in s'.count && s'.count[r.counter] == |On(s'.handles, r.addr)| > 0
  {
    InitInv(s);
    RunKeepsInv(s, steps, s');
    HandleCounted(s', h);
    assert UpToDate(s', s'.handles[h].addr);
  }

  /** In every run each object allocated is alive, or has been deleted and that once. */
  lemma DeletedOnce(s: State, steps: seq<Step>, s': State, x: Id)
    requires Init(s) && Run(EraseFirst, s, steps, s') && x < s'.born
    ensures x in s'.deleted <==> x !in s'.alive.Values
    ensures forall i, j :: 0 <= i < j < |s'.deleted| ==> s'.deleted[i] != x || s'.deleted[j] != x
  {
    InitInv(s);
    RunKeepsInv(s, steps, s');
    if x in s'.alive.Values {
      var a :| a in s'.alive && s'.alive[a] == x;
    }
  }

  /** When no thread has anything left to do, only objects held or not wrapped are alive, and nothing leaks. */
  lemma NothingLeaks(s: State, steps: seq<Step>, s': State)
    requires Init(s) && Run(EraseFirst, s, steps, s') && forall t :: t in s'.jobs ==> s'.jobs[t] == Nothing
    ensures forall a :: a in s'.alive.Keys <==> a in s'.raw || On(s'.handles, a) != {}
    ensures forall c :: c in s'.count.Keys ==> exists h :: h in s'.handles && s'.handles[h].counter == c
  {
    InitInv(s);
    RunKeepsInv(s, steps, s');
    forall a
      ensures a in s'.alive.Keys <==> a in s'.raw || On(s'.handles, a) != {}
    {
      HeldIsAlive(s', a);
    }
    forall c | c in s'.count.Keys
      ensures exists h :: h in s'.handles && s'.handles[h].counter == c
    {
      assert !Freeing(s'.jobs, c) && !Retired(s', c);
      var a :| a in s'.known && s'.known[a] == c;
      assert On(s'.handles, a) != {};
      var h :| h in On(s'.handles, a);
    }
  }

  lemma HeldIsAlive(s: State, a: Addr)
    requires Registry(s) && Covered(s) && forall t :: t in s.jobs ==> s.jobs[t] == Nothing
    ensures a in s.alive.Keys <==> a in s.raw || On(s.handles, a) != {}
  {
    if h :| h in On(s.handles, a) {
      HandleCounted(s, h);
      assert UpToDate(s, a);
    }
  }

  // ---------- the other order ----------

  function BadStep(k: nat): Step {
    match k
    case 0 => Allocate(1, 1)
    case 1 => Wrap(1, 1, 1, 7)
    case 2 => LetGo(1, 1)
    case 3 => Work(1)
    case 4 => Allocate(2, 1)
    case 5 => Wrap(2, 2, 1, 8)
    case _ => Work(1)
  }

  function BadState(k: nat): State {
    var r := Ref(1, 7);
    var idle := map[1 := Nothing, 2 := Nothing];
    match k
    case 0 => State(map[], map[], map[], map[], map[], {}, idle, 0, [])
    case 1 => State(map[], map[], map[], map[], map[1 := 0], {1}, idle, 1, [])
    case 2 => State(map[1 := r], map[1 := 7], map[7 := 1], map[7 := 0], map[1 := 0], {}, idle, 1, [])
    case 3 => State(map[], map[1 := 7], map[7 := 0], map[7 := 0], map[1 := 0], {}, idle[1 := Delete(r)], 1, [])
    case 4 => State(map[], map[1 := 7], map[7 := 0], map[7 := 0], map[], {}, idle[1 := Erase(r)], 1, [0])
    case 5 => State(map[], map[1 := 7], map[7 := 0], map[7 := 0], map[1 := 1], {1}, idle[1 := Erase(r)], 2, [0])
    case 6 => State(map[2 := r], map[1 := 7], map[7 := 1], map[7 := 0], map[1 := 1], {}, idle[1 := Erase(r)], 2, [0])
    case 7 => State(map[2 := r], map[], map[7 := 1], map[7 := 0], map[1 := 1], {}, idle[1 := Free(r)], 2, [0])
    case _ => State(map[2 := r], map[], map[], map[], map[1 := 1], {}, idle, 2, [0])
  }

  lemma SameState(s: State, n: State)
    requires s.handles == n.handles && s.known == n.known && s.count == n.count && s.owner == n.owner
    requires s.alive == n.alive && s.raw == n.raw && s.jobs == n.jobs && s.born == n.born && s.deleted == n.deleted
    ensures s == n
  {
  }

  lemma BadStepTaken(k: nat)
    requires k < 8
    ensures Enabled(BadState(k), BadStep(k)) && Safe(BadState(k), BadStep(k))
    ensures Apply(DeleteFirst, BadState(k), BadStep(k)) == BadState(k + 1)
  {
    match k
    case 0 => SameState(Apply(DeleteFirst, BadState(0), BadStep(0)), BadState(1));
    case 1 => SameState(Apply(DeleteFirst, BadState(1), BadStep(1)), BadState(2));
    case 2 => SameState(Apply(DeleteFirst, BadState(2), BadStep(2)), BadState(3));
    case 3 => SameState(Apply(DeleteFirst, BadState(3), BadStep(3)), BadState(4));
    case _ => LateBadStepTaken(k);
  }

  lemma LateBadStepTaken(k: nat)
    requires 4 <= k < 8
    ensures Enabled(BadState(k), BadStep(k)) && Safe(BadState(k), BadStep(k))
    ensures Apply(DeleteFirst, BadState(k), BadStep(k)) == BadState(k + 1)
  {
    match k
    case 4 => SameState(Apply(DeleteFirst, BadState(4), BadStep(4)), BadState(5));
    case 5 => SameState(Apply(DeleteFirst, BadState(5), BadStep(5)), BadState(6));
    case 6 => SameState(Apply(DeleteFirst, BadState(6), BadStep(6)), BadState(7));
    case _ => SameState(Apply(DeleteFirst, BadState(7), BadStep(7)), BadState(8));
  }

  lemma {:induction false} BadRun(k: nat) returns (steps: seq<Step>)
    requires k <= 8
    ensures Run(DeleteFirst, BadState(8 - k), steps, BadState(8))
    decreases k
  {
    hide BadStep, BadState, Apply, Enabled, Safe;
    if k == 0 {
      steps := [];
    } else {
      BadStepTaken(8 - k);
      var rest := BadRun(k - 1);
      steps := [BadStep(8 - k)] + rest;
      assert steps[1..] == rest;
    }
  }

  /**
   Were the object deleted before its entry is erased: thread 1 lets go of the last handle on an object and
   deletes it, thread 2 gets the same address, wraps it, and finds the entry of the deleted object. When
   thread 1 is done the registry has forgotten the live object and its counter is gone, and letting
   go of the handle would touch a deleted counter.
   */
  lemma DeleteFirstGoesWrong() returns (early: seq<Step>, late: seq<Step>)
    ensures Init(BadState(0)) && Run(DeleteFirst, BadState(5), early, BadState(8))
    ensures Run(DeleteFirst, BadState(0), late, BadState(8))
    ensures var found := BadState(5);
      1 in found.raw && 1 in found.known && found.owner[found.known[1]] in found.deleted
    ensures var end := BadState(8);
      && 2 in end.handles && end.handles[2].addr in end.alive && end.handles[2].addr !in end.known
      && Enabled(end, LetGo(2, 2)) && !Safe(end, LetGo(2, 2))
  {
    early := BadRun(3);
    late := BadRun(8);
  }
}
