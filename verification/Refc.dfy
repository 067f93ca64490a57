/**
 Reference-counted handles over one global registry that maps a wrapped address to its counter.

 Addresses, counters and handles are numbers, 0 standing for NULL. Memory is the set of live
 objects; an address may be handed out again once its object has been deleted.
 */
module Refc {

  type Addr = nat
  type Counter = nat
  type Handle = nat

  /** The live handles that point at a. */
  ghost function Holders(target: map<Handle, Addr>, a: Addr): set<Handle> {
    set h | h in target && target[h] == a
  }

  ghost predicate Injective(known: map<Addr, Counter>) {
    forall a, b :: a in known && b in known && a != b ==> known[a] != known[b]
  }

  /** Every handle carries the registered counter of its object, or nothing at all. */
  ghost predicate Attached(target: map<Handle, Addr>, counter: map<Handle, Counter>, known: map<Addr, Counter>) {
    && target.Keys == counter.Keys
    && forall h :: h in target ==>
      if target[h] == 0 then counter[h] == 0 else target[h] in known && counter[h] == known[target[h]] != 0
  }

  ghost predicate Owned(known: map<Addr, Counter>, c: Counter) {
    exists a :: a in known && known[a] == c
  }

  /** No counter outlives its object. */
  ghost predicate NoStray(known: map<Addr, Counter>, count: map<Counter, nat>) {
    forall c :: c in count.Keys ==> c != 0 && Owned(known, c)
  }

  /** Every registered object is alive and its counter is the number of its handles, at least one. */
  ghost predicate Counting(target: map<Handle, Addr>, known: map<Addr, Counter>, count: map<Counter, nat>,
                           alive: set<Addr>) {
    && 0 !in known && known.Keys <= alive && Injective(known)
    && (forall a :: a in known ==> known[a] in count && count[known[a]] == |Holders(target, a)| > 0)
    && NoStray(known, count)
  }

  ghost predicate Consistent(target: map<Handle, Addr>, counter: map<Handle, Counter>, known: map<Addr, Counter>,
                             count: map<Counter, nat>, alive: set<Addr>) {
    Attached(target, counter, known) && Counting(target, known, count, alive)
  }

  lemma HoldersWithout(target: map<Handle, Addr>, h: Handle, a: Addr)
    requires h in target
    ensures Holders(target - {h}, a) == Holders(target, a) - {h}
    ensures |Holders(target - {h}, a)| == if target[h] == a then |Holders(target, a)| - 1 else |Holders(target, a)|
  {
    assert Holders(target - {h}, a) == Holders(target, a) - {h};
    if target[h] == a {
      assert h in Holders(target, a);
    } else {
      assert Holders(target, a) - {h} == Holders(target, a);
    }
  }

  lemma HoldersWith(target: map<Handle, Addr>, h: Handle, b: Addr, a: Addr)
    requires h !in target
    ensures |Holders(target[h := b], a)| == if b == a then |Holders(target, a)| + 1 else |Holders(target, a)|
  {
    if b == a {
      assert Holders(target[h := b], a) == Holders(target, a) + {h};
    } else {
      assert Holders(target[h := b], a) == Holders(target, a);
    }
  }

  /** A handle's counter is the number of handles on its object. */
  lemma HandleFacts(target: map<Handle, Addr>, counter: map<Handle, Counter>, known: map<Addr, Counter>,
                    count: map<Counter, nat>, alive: set<Addr>, h: Handle)
    requires Consistent(target, counter, known, count, alive) && h in target
    ensures h in counter && (counter[h] == 0 <==> target[h] == 0)
    ensures counter[h] != 0 ==> target[h] in known && known[target[h]] == counter[h] && target[h] in alive
    ensures counter[h] != 0 ==> counter[h] in count && count[counter[h]] == |Holders(target, target[h])| > 0
    ensures counter[h] != 0 ==> (count[counter[h]] == 1 <==> Holders(target, target[h]) == {h})
  {
    if counter[h] != 0 {
      var s := Holders(target, target[h]);
      assert h in s;
      if |s| == 1 {
        assert |s - {h}| == 0;
        assert s == {h};
      }
    }
  }

  lemma DetachNull(target: map<Handle, Addr>, counter: map<Handle, Counter>, known: map<Addr, Counter>,
                   count: map<Counter, nat>, alive: set<Addr>, h: Handle)
    requires Consistent(target, counter, known, count, alive) && h in target && target[h] == 0
    ensures Consistent(target - {h}, counter - {h}, known, count, alive)
  {
    forall a | a in known
      ensures |Holders(target - {h}, a)| == |Holders(target, a)|
    {
      HoldersWithout(target, h, a);
    }
  }

  lemma DetachOne(target: map<Handle, Addr>, counter: map<Handle, Counter>, known: map<Addr, Counter>,
                  count: map<Counter, nat>, alive: set<Addr>, h: Handle)
    requires Consistent(target, counter, known, count, alive) && h in target && target[h] != 0
    requires count[counter[h]] > 1
    ensures Consistent(target - {h}, counter - {h}, known, count[counter[h] := count[counter[h]] - 1], alive)
  {
    forall a | a in known
      ensures |Holders(target - {h}, a)| == |Holders(target, a)| - if a == target[h] then 1 else 0
    {
      HoldersWithout(target, h, a);
    }
  }

  lemma DetachLast(target: map<Handle, Addr>, counter: map<Handle, Counter>, known: map<Addr, Counter>,
                   count: map<Counter, nat>, alive: set<Addr>, h: Handle)
    requires Consistent(target, counter, known, count, alive) && h in target && target[h] != 0
    requires count[counter[h]] == 1
    ensures Consistent(target - {h}, counter - {h}, known - {target[h]}, count - {counter[h]}, alive - {target[h]})
  {
    var b := target[h];
    HandleFacts(target, counter, known, count, alive, h);
    forall k | k in target && k != h
      ensures target[k] != b
    {
      assert target[k] == b ==> k in Holders(target, b);
    }
    forall a | a in known && a != b
      ensures |Holders(target - {h}, a)| == |Holders(target, a)|
    {
      HoldersWithout(target, h, a);
    }
  }

  /** One more handle on a, sharing the counter if a is registered and starting one otherwise. */
  lemma JoinKnown(target: map<Handle, Addr>, counter: map<Handle, Counter>, known: map<Addr, Counter>,
                  count: map<Counter, nat>, alive: set<Addr>, h: Handle, a: Addr)
    requires Consistent(target, counter, known, count, alive) && h !in target && a in known
    ensures known[a] in count
    ensures Consistent(target[h := a], counter[h := known[a]], known, count[known[a] := count[known[a]] + 1], alive)
  {
    forall b | b in known
      ensures |Holders(target[h := a], b)| == |Holders(target, b)| + if a == b then 1 else 0
    {
      HoldersWith(target, h, a, b);
    }
  }

  lemma JoinNew(target: map<Handle, Addr>, counter: map<Handle, Counter>, known: map<Addr, Counter>,
                count: map<Counter, nat>, alive: set<Addr>, h: Handle, a: Addr, c: Counter)
    requires Consistent(target, counter, known, count, alive) && h !in target && a !in known
    requires a != 0 && a in alive && c != 0 && c !in count
    ensures Consistent(target[h := a], counter[h := c], known[a := c], count[c := 1], alive)
  {
    var more, counts := known[a := c], count[c := 1];
    assert Counting(target[h := a], more, counts, alive) by {
      assert Holders(target, a) == {} by {
        assert forall k :: k in target ==> target[k] != a || a == 0;
      }
      forall b | b in more
        ensures more[b] in counts && counts[more[b]] == |Holders(target[h := a], b)| > 0
      {
        HoldersWith(target, h, a, b);
      }
      NewCounter(known, count, a, c);
    }
    assert Attached(target[h := a], counter[h := c], more);
  }

  lemma NewCounter(known: map<Addr, Counter>, count: map<Counter, nat>, a: Addr, c: Counter)
    requires NoStray(known, count) && a !in known && c != 0
    ensures NoStray(known[a := c], count[c := 1])
  {
    var counts := count[c := 1];
    forall x | x in counts.Keys
      ensures x != 0 && Owned(known[a := c], x)
    {
      if x == c {
        assert known[a := c][a] == x;
      } else {
        assert Owned(known, x);
        var b :| b in known && known[b] == x;
        assert known[a := c][b] == x;
      }
    }
  }

  lemma JoinNull(target: map<Handle, Addr>, counter: map<Handle, Counter>, known: map<Addr, Counter>,
                 count: map<Counter, nat>, alive: set<Addr>, h: Handle)
    requires Consistent(target, counter, known, count, alive) && h !in target
    ensures Consistent(target[h := 0], counter[h := 0], known, count, alive)
  {
    forall b | b in known
      ensures |Holders(target[h := 0], b)| == |Holders(target, b)|
    {
      HoldersWith(target, h, 0, b);
    }
  }

  class World {
    /** m_object and m_ref_count of every live handle. */
    var target: map<Handle, Addr>
    var counter: map<Handle, Counter>
    /** gAllKnownRefcObjectsMap, and the counters allocated. */
    var known: map<Addr, Counter>
    var count: map<Counter, nat>
    /** The objects allocated and not deleted. */
    ghost var alive: set<Addr>

    ghost predicate Valid()
      reads this
    {
      Consistent(target, counter, known, count, alive)
    }

    constructor ()
      ensures Valid() && target == map[] && known == map[] && alive == {}
    {
      target, counter, known, count, alive := map[], map[], map[], map[], {};
    }

    /** The allocator may reuse any address that is not alive. */
    ghost method Allocate(a: Addr)
      requires Valid() && a != 0 && a !in alive
      modifies this`alive
      ensures Valid() && alive == old(alive) + {a} && a !in known
    {
      alive := alive + {a};
    }

    /** Deleting asks for a live object, never twice, and one that the registry has already forgotten. */
    ghost method Delete(a: Addr)
      requires a in alive && a !in known
      modifies this`alive
      ensures alive == old(alive) - {a}
    {
      alive := alive - {a};
    }

    /** if ((m_ref_count) && --(*m_ref_count) == 0) erase, delete, delete; the handle's own fields are left alone. */
    method Release(h: Handle)
      requires Valid() && h in target
      modifies this`known, this`count, this`alive
      ensures Consistent(target - {h}, counter - {h}, known, count, alive)
      ensures alive == old(alive) - (old(known).Keys - known.Keys)
      ensures forall a :: a in known ==> a in old(known) && known[a] == old(known)[a]
      ensures count.Keys <= old(count).Keys
      ensures old(known).Keys - known.Keys ==
        if target[h] != 0 && Holders(target, target[h]) == {h} then {target[h]} else {}
    {
      ghost var was, counts, objects := known, count, alive;
      hide Consistent;
      HandleFacts(target, counter, known, count, alive, h);
      if counter[h] != 0 {
        var a, c := target[h], counter[h];
        count := count[c := count[c] - 1];
        if count[c] == 0 {
          known := known - {a};
          Delete(a);
          count := count - {c};
          assert count == counts - {c};
          DetachLast(target, counter, was, counts, objects, h);
        } else {
          DetachOne(target, counter, was, counts, objects, h);
        }
      } else {
        DetachNull(target, counter, was, counts, objects, h);
      }
    }

    /** The registry lookup: a known object shares its counter, another one gets the new counter c. */
    method Attach(h: Handle, a: Addr, c: Counter)
      requires Consistent(target - {h}, counter - {h}, known, count, alive)
      requires a != 0 && a in alive && c != 0 && c !in count
      modifies this`target, this`counter, this`known, this`count
      ensures Valid() && target == old(target)[h := a] && known.Keys == old(known).Keys + {a}
    {
      hide Consistent;
      if a in known {
        JoinKnown(target - {h}, counter - {h}, known, count, alive, h, a);
        SetEntry(target, h, a);
        SetEntry(counter, h, known[a]);
        target := target[h := a];
        counter := counter[h := known[a]];
        count := count[known[a] := count[known[a]] + 1];
      } else {
        JoinNew(target - {h}, counter - {h}, known, count, alive, h, a, c);
        SetEntry(target, h, a);
        SetEntry(counter, h, c);
        target := target[h := a];
        counter := counter[h := c];
        count := count[c := 1];
        known := known[a := c];
      }
    }

    /** refc(T*): NULL registers nothing. */
    method FromRaw(h: Handle, a: Addr, c: Counter)
      requires Valid() && h !in target && (a == 0 || a in alive) && c != 0 && c !in count
      modifies this`target, this`counter, this`known, this`count
      ensures Valid() && target == old(target)[h := a]
    {
      Absent(target, counter, known, count, alive, h);
      if a == 0 {
        JoinNull(target, counter, known, count, alive, h);
        target, counter := target[h := 0], counter[h := 0];
        return;
      }
      Attach(h, a, c);
    }

    /** The second half of copying: take over object and counter, and count one more. */
    method Share(h: Handle, from: Handle)
      requires Consistent(target - {h}, counter - {h}, known, count, alive) && from in target && from != h
      modifies this`target, this`counter, this`count
      ensures Valid() && target == old(target)[h := old(target)[from]] && known == old(known)
    {
      hide Consistent;
      assert from in target - {h} && (target - {h})[from] == target[from];
      HandleFacts(target - {h}, counter - {h}, known, count, alive, from);
      var a, c := target[from], counter[from];
      assert (counter - {h})[from] == c;
      SetEntry(target, h, a);
      SetEntry(counter, h, c);
      if c != 0 {
        JoinKnown(target - {h}, counter - {h}, known, count, alive, h, a);
      } else {
        JoinNull(target - {h}, counter - {h}, known, count, alive, h);
      }
      target, counter := target[h := a], counter[h := c];
      if counter[h] != 0 {
        count := count[c := count[c] + 1];
      }
    }

    /** refc(const refc&) */
    method CopyOf(h: Handle, other: Handle)
      requires Valid() && h !in target && other in target
      modifies this`target, this`counter, this`count
      ensures Valid() && target == old(target)[h := old(target)[other]] && known == old(known)
    {
      Absent(target, counter, known, count, alive, h);
      Share(h, other);
    }

    /** operator=(const refc&): nothing happens when both point at the same object. */
    method AssignFrom(h: Handle, other: Handle)
      requires Valid() && h in target && other in target
      modifies this
      ensures Valid() && target == old(target)[h := old(target)[other]]
      ensures alive == old(alive) - (old(known).Keys - known.Keys)
    {
      hide Consistent;
      if target[h] == target[other] {
        return;
      }
      Release(h);
      Share(h, other);
    }

    /** operator=(T*): the raw pointer must stay good while the old object is let go. */
    method AssignRaw(h: Handle, a: Addr, c: Counter)
      requires Valid() && h in target && (a == 0 || a in alive) && c != 0 && c !in count
      modifies this
      ensures Valid() && target == old(target)[h := a]
      ensures alive == old(alive) - (old(known).Keys - known.Keys)
    {
      hide Consistent;
      if target[h] == a {
        return;
      }
      Release(h);
      if a == 0 {
        JoinNull(target - {h}, counter - {h}, known, count, alive, h);
        SetEntry(target, h, 0);
        SetEntry(counter, h, 0);
        target, counter := target[h := 0], counter[h := 0];
        return;
      }
      Attach(h, a, c);
    }

    /** ~refc() */
    method Destroy(h: Handle)
      requires Valid() && h in target
      modifies this
      ensures Valid() && target == old(target) - {h}
      ensures alive == old(alive) - (old(known).Keys - known.Keys)
    {
      hide Consistent;
      Release(h);
      target, counter := target - {h}, counter - {h};
    }
  }

  lemma SetEntry<V>(m: map<Handle, V>, h: Handle, v: V)
    ensures (m - {h})[h := v] == m[h := v]
  {
  }

  lemma Absent(target: map<Handle, Addr>, counter: map<Handle, Counter>, known: map<Addr, Counter>,
               count: map<Counter, nat>, alive: set<Addr>, h: Handle)
    requires Consistent(target, counter, known, count, alive) && h !in target
    ensures target - {h} == target && counter - {h} == counter && h !in counter
  {
  }

  /** In a consistent world the registered objects are exactly those some handle points at, and they are alive. */
  lemma ManagedIffHeld(target: map<Handle, Addr>, counter: map<Handle, Counter>, known: map<Addr, Counter>,
                       count: map<Counter, nat>, alive: set<Addr>, a: Addr)
    requires Consistent(target, counter, known, count, alive) && a != 0
    ensures a in known <==> exists h :: h in target && target[h] == a
    ensures a in known ==> a in alive && count[known[a]] == |Holders(target, a)|
    ensures a !in alive ==> a !in known && forall h :: h in target ==> target[h] != a
  {
    if a in known {
      assert |Holders(target, a)| > 0;
      var h :| h in Holders(target, a);
    }
  }
}
