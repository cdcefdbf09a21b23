/**
 * The non-intrusive reference-counted pointer of
 * h/util/UtilRefCountedPtrInlines.h: every handle of a program and every
 * counter they share, through any sequence of constructions, copies,
 * assignments and destructions.
 */
module RefCounting {

  datatype Pointer = Null | To(address: nat)

  class Counter {
    const ptr: Pointer
    var count: int
    ghost var holders: set<Handle>

    constructor (p: Pointer, ghost h: Handle)
      ensures ptr == p && count == 1 && holders == {h}
    {
      ptr, count, holders := p, 1, {h};
    }
  }

  /** All handles that exist, all counters not yet freed, and what happened to each pointee. */
  class World {
    ghost var handles: set<Handle>
    ghost var counters: set<Counter>
    ghost var adopted: set<nat>
    ghost var deleted: multiset<nat>

    /** Some counter not yet freed points to `p`. */
    ghost predicate Alive(p: nat)
      reads this, counters
    {
      exists c :: c in counters && c.ptr == To(p)
    }

    /** No handle refers to a freed counter, and each counter counts exactly the handles on it. */
    ghost predicate Counted()
      reads this, handles, counters
    {
      && (forall h | h in handles && h.counter != null :: h.counter in counters && h in h.counter.holders)
      && (forall c, h | c in counters && h in c.holders :: h in handles && h.counter == c)
      && (forall c | c in counters :: c.count == |c.holders| && c.count > 0)
    }

    /** No two counters share a pointee, and pointees come from adoption. */
    ghost predicate Owned()
      reads this, counters
    {
      && (forall c, d | c in counters && d in counters && c.ptr == d.ptr && c.ptr != Null :: c == d)
      && (forall c | c in counters && c.ptr != Null :: c.ptr.address in adopted)
    }

    /** Each adopted pointee was deleted once if its counter is gone, and not at all otherwise. */
    ghost predicate DeletedOnce()
      reads this, counters
    {
      forall p :: deleted[p] == if p in adopted && !Alive(p) then 1 else 0
    }

    ghost predicate Valid()
      reads this, handles, counters
    {
      Counted() && Owned() && DeletedOnce()
    }

    constructor ()
      ensures Valid() && handles == {} && adopted == {}
    {
      handles, counters, adopted, deleted := {}, {}, {}, multiset{};
    }

    /** A new counter enters the books, and so does its pointee. */
    ghost method Register(c: Counter)
      requires Owned() && DeletedOnce() && c !in counters && (c.ptr.To? ==> c.ptr.address !in adopted)
      modifies `counters, `adopted
      ensures counters == old(counters) + {c} && Owned() && DeletedOnce()
      ensures adopted == old(adopted) + if c.ptr.To? then {c.ptr.address} else {}
    {
      counters := counters + {c};
      if c.ptr.To? {
        adopted := adopted + {c.ptr.address};
        assert c in counters;
      }
      assert forall q | To(q) != c.ptr :: Alive(q) == old(Alive(q));
    }

    /** A counter nobody holds is freed, and its pointee with it. */
    ghost method Retire(c: Counter)
      requires Owned() && DeletedOnce() && c in counters
      modifies `counters, `deleted
      ensures counters == old(counters) - {c} && Owned() && DeletedOnce()
      ensures deleted == old(deleted) + if c.ptr.To? then multiset{c.ptr.address} else multiset{}
    {
      counters := counters - {c};
      if c.ptr.To? {
        deleted := deleted + multiset{c.ptr.address};
        assert !Alive(c.ptr.address);
      }
      assert forall q | To(q) != c.ptr :: Alive(q) == old(Alive(q));
    }
  }

  class Handle {
    var counter: Counter?

    function Get(): Pointer
      reads this, counter
    {
      if counter == null then Null else counter.ptr
    }

    /** Count one handle less; the last one takes the pointee and the counter with it. */
    method Release(w: World)
      requires w.Valid() && this in w.handles
      modifies this, w`counters, w`deleted, w.counters
      ensures w.Valid() && counter == null
      ensures w.counters <= old(w.counters)
      ensures forall c | c in old(w.counters) && c != old(counter) :: c in w.counters
    {
      if counter != null {
        var c := counter;
        ghost var others := c.holders - {this};
        assert c.holders == others + {this};
        c.count := c.count - 1;
        c.holders := others;
        if c.count == 0 {
          assert |others| == 0;
          w.Retire(c);
        } else {
          ghost var h :| h in others;
        }
        counter := null;
      }
    }

    method Acquire(c: Counter?, w: World)
      requires w.Valid() && this in w.handles && counter == null && (c != null ==> c in w.counters)
      modifies this, w.counters
      ensures w.Valid() && counter == c
    {
      counter := c;
      if c != null {
        c.count := c.count + 1;
        c.holders := c.holders + {this};
      }
    }

    /** Adopt a raw pointer. */
    constructor FromPointer(p: Pointer, w: World)
      requires w.Valid() && (p.To? ==> p.address !in w.adopted)
      modifies w
      ensures w.Valid() && fresh(this) && w.handles == old(w.handles) + {this} && Get() == p
      ensures counter == null <==> p == Null
      ensures w.adopted == old(w.adopted) + if p.To? then {p.address} else {}
      ensures w.deleted == old(w.deleted)
    {
      counter := null;
      new;
      w.handles := w.handles + {this};
      if p != Null {
        Adopt(p, w);
      }
    }

    /** Set up a counter of one for `p`, which nothing owns yet. */
    method Adopt(p: Pointer, w: World)
      requires w.Valid() && this in w.handles && counter == null && (p.To? ==> p.address !in w.adopted)
      modifies this, w`counters, w`adopted
      ensures w.Valid() && Get() == p && counter != null && fresh(counter)
      ensures w.adopted == old(w.adopted) + if p.To? then {p.address} else {}
    {
      hide World.Owned, World.DeletedOnce;
      var c := new Counter(p, this);
      counter := c;
      w.Register(c);
    }

    constructor Copy(r: Handle, w: World)
      requires w.Valid() && r in w.handles
      modifies w`handles, w.counters
      ensures w.Valid() && fresh(this) && w.handles == old(w.handles) + {this} && Get() == old(r.Get())
    {
      counter := null;
      new;
      w.handles := w.handles + {this};
      Acquire(r.counter, w);
    }

    method Assign(r: Handle, w: World)
      requires w.Valid() && this in w.handles && r in w.handles
      modifies this, w`counters, w`deleted, w.counters
      ensures w.Valid() && Get() == old(r.Get())
    {
      if this != r {
        Release(w);
        Acquire(r.counter, w);
      }
    }

    method AssignPointer(p: Pointer, w: World)
      requires w.Valid() && this in w.handles && (p.To? && p != Get() ==> p.address !in w.adopted)
      modifies this, w, w.counters
      ensures w.Valid() && w.handles == old(w.handles) && Get() == p
      ensures if p == old(Get()) then counter == old(counter) else counter != null && fresh(counter)
      ensures w.adopted == old(w.adopted) + if p.To? then {p.address} else {}
    {
      if p != Get() {
        Release(w);
        Adopt(p, w);
      }
    }

    /** The destructor: release, and the handle is gone. */
    method Destroy(w: World)
      requires w.Valid() && this in w.handles
      modifies this, w, w.counters
      ensures w.Valid() && w.handles == old(w.handles) - {this} && w.adopted == old(w.adopted)
    {
      Release(w);
      w.handles := w.handles - {this};
    }
  }

  /** The count of a counter is the number of handles that refer to it. */
  lemma CountsHandles(w: World, c: Counter)
    requires w.Valid() && c in w.counters
    ensures c.count == |set h | h in w.handles && h.counter == c|
  {
    assert c.holders == set h | h in w.handles && h.counter == c;
  }

  /** A pointee is alive exactly while some handle refers to it, and is deleted exactly once, when none does. */
  lemma DeletedWhenUnreferenced(w: World, p: nat)
    requires w.Valid() && p in w.adopted
    ensures (exists h :: h in w.handles && h.Get() == To(p)) <==> w.deleted[p] == 0
    ensures w.deleted[p] <= 1
  {
    if w.Alive(p) {
      var c :| c in w.counters && c.ptr == To(p);
      assert c.holders != {};
      var h :| h in c.holders;
      assert h.Get() == To(p);
    }
  }
}
