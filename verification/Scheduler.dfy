/**
 * The scheduler's earliest-deadline queue: the indexed heap under the
 * comparator of h/thd/ThdScheduler.h, and the operations of
 * src/thd/ThdScheduler.cpp that keep the sleeping schedule thread informed.
 */
module Scheduler {
  import opened Collections
  import opened HeapOrder
  import opened HeapRuns
  import opened IndexedHeap

  datatype Item = Item(id: nat, priority: int)
  datatype HeapEntry = HeapEntry(item: Item, time: int)

  /** PriorityQueueFunc: later times rank lower; at equal times lower priorities do. */
  predicate RanksBelow(item1: HeapEntry, item2: HeapEntry) {
    if item1.time > item2.time then true
    else if item1.time < item2.time then false
    else item1.item.priority < item2.item.priority
  }

  lemma ComparatorIsStrictWeakOrder()
    ensures StrictWeakOrder(RanksBelow)
  {
  }

  /** Draining the queue goes by time ascending, then priority descending. */
  lemma DrainsByDeadline(h: seq<Entry<Item, HeapEntry>>)
    requires Ordered(RanksBelow, h)
    ensures var out := Drain(RanksBelow, h);
      && multiset(out) == multiset(h)
      && forall a: nat, b: nat | a < b < |out| ::
        || out[a].value.time < out[b].value.time
        || (out[a].value.time == out[b].value.time && out[a].value.item.priority >= out[b].value.item.priority)
  {
    ComparatorIsStrictWeakOrder();
    DrainSorts(RanksBelow, h);
    DrainKeepsEntries(RanksBelow, h);
  }

  /** The earliest deadline in the queue. */
  function Earliest(h: seq<Entry<Item, HeapEntry>>): Option<int> {
    if h == [] then None else Some(h[0].value.time)
  }

  lemma HeadIsMinimal(h: seq<Entry<Item, HeapEntry>>, e: Entry<Item, HeapEntry>)
    requires Ordered(RanksBelow, h) && e in h
    ensures h[0].value.time <= e.value.time
  {
    ComparatorIsStrictWeakOrder();
    var j: nat :| j < |h| && h[j] == e;
    HeadOutranksAll(RanksBelow, h, j);
  }

  /** It is the time of some item queued, and no item's time is less; without items there is none. */
  lemma EarliestIsMinimal(h: seq<Entry<Item, HeapEntry>>)
    requires Ordered(RanksBelow, h)
    ensures match Earliest(h)
      case None => h == []
      case Some(time) => (exists e :: e in h && e.value.time == time) && forall e | e in h :: time <= e.value.time
  {
    if h != [] {
      assert h[0] in h;
      forall e | e in h
        ensures h[0].value.time <= e.value.time
      {
        HeadIsMinimal(h, e);
      }
    }
  }

  /** The queue keeps heap order and files every entry under its own item. */
  ghost predicate Ready(h: seq<Entry<Item, HeapEntry>>) {
    Ordered(RanksBelow, h) && forall e | e in h :: e.key == e.value.item
  }

  lemma StepKeepsReady(h: seq<Entry<Item, HeapEntry>>, op: Op<Item, HeapEntry>)
    requires Ready(h) && Step(RanksBelow, h, op).Some?
    requires op.Add? || op.Push? || op.Assign? ==> op.value.item == op.key
    ensures Ready(Step(RanksBelow, h, op).value)
  {
    ComparatorIsStrictWeakOrder();
    StepKeepsOrder(RanksBelow, h, op);
    var g := Step(RanksBelow, h, op).value;
    forall e | e in g
      ensures e.key == e.value.item
    {
      StepDraws(RanksBelow, h, op, e);
    }
  }

  /** Removing an item that is not at the head leaves the earliest deadline alone. */
  lemma RemoveKeepsEarliest(h: seq<Entry<Item, HeapEntry>>, item: Item)
    requires Ready(h) && (h == [] || h[0].value.item != item)
    ensures Earliest(Step(RanksBelow, h, Op.Remove(item)).value) == Earliest(h)
  {
    var g := Step(RanksBelow, h, Op.Remove(item)).value;
    var i := Slot(h, item);
    if i >= 0 {
      StepKeepsReady(h, Op.Remove(item));
      RemoveLoses(RanksBelow, h, i);
      assert h[0] in multiset(g);
      HeadIsMinimal(g, h[0]);
      assert g[0] in multiset(g);
      assert g[0] in multiset(h);
      HeadIsMinimal(h, g[0]);
    }
  }

  /** Adding moves the earliest deadline only if the new one is earlier, or nothing was queued. */
  lemma AddMovesEarliest(h: seq<Entry<Item, HeapEntry>>, item: Item, delay: int)
    requires Ready(h)
    ensures var g := Step(RanksBelow, h, Op.Add(item, HeapEntry(item, delay))).value;
      Earliest(g) == Earliest(h) || (g != [] && g[0].value.time == delay && (h == [] || delay < h[0].value.time))
  {
    var e := Entry(item, HeapEntry(item, delay));
    var g := Step(RanksBelow, h, Op.Add(item, e.value)).value;
    if Slot(h, item) < 0 {
      StepKeepsReady(h, Op.Add(item, e.value));
      AddGains(RanksBelow, h, e);
      assert e in multiset(g);
      HeadIsMinimal(g, e);
      assert g[0] in multiset(g);
      if h != [] {
        assert h[0] in multiset(g);
        HeadIsMinimal(g, h[0]);
        if g[0] != e {
          assert g[0] in multiset(h);
          HeadIsMinimal(h, g[0]);
        }
      }
    }
  }

  /** An item added to an empty queue, or due before all others, is at the head. */
  lemma AddedIsHead(h: seq<Entry<Item, HeapEntry>>, item: Item, delay: int)
    requires Ready(h) && Slot(h, item) < 0 && (h == [] || delay < h[0].value.time)
    ensures var g := Step(RanksBelow, h, Op.Add(item, HeapEntry(item, delay))).value;
      g != [] && g[0].value.item == item
  {
    var e := Entry(item, HeapEntry(item, delay));
    var g := Step(RanksBelow, h, Op.Add(item, e.value)).value;
    StepKeepsReady(h, Op.Add(item, e.value));
    AddGains(RanksBelow, h, e);
    assert e in multiset(g);
    HeadIsMinimal(g, e);
    assert g[0] in multiset(g);
    if g[0] != e {
      assert g[0] in multiset(h);
      HeadIsMinimal(h, g[0]);
    }
  }

  /** When the head is not due, nothing is. */
  lemma NothingDue(h: seq<Entry<Item, HeapEntry>>, now: int)
    requires Ready(h) && (h == [] || h[0].value.time > now)
    ensures forall e | e in h :: e.value.time > now
  {
    forall e | e in h
      ensures e.value.time > now
    {
      HeadIsMinimal(h, e);
    }
  }

  /** `due` are the first entries of `before` in drained order, all due; `after` holds the others. */
  ghost predicate Dispatched(before: seq<Entry<Item, HeapEntry>>, due: seq<Entry<Item, HeapEntry>>,
    after: seq<Entry<Item, HeapEntry>>, now: int)
  {
    && due + Drain(RanksBelow, after) == Drain(RanksBelow, before)
    && forall e | e in due :: e.value.time <= now
  }

  lemma DispatchOne(before: seq<Entry<Item, HeapEntry>>, due: seq<Entry<Item, HeapEntry>>,
    h: seq<Entry<Item, HeapEntry>>, now: int)
    requires Dispatched(before, due, h, now) && h != [] && h[0].value.time <= now
    ensures Dispatched(before, due + [h[0]], RemoveSlot(RanksBelow, h, 0), now)
  {
    Associative(due, [h[0]], Drain(RanksBelow, RemoveSlot(RanksBelow, h, 0)));
  }

  class ThdScheduler {
    const queue: Heap<Item, HeapEntry>
    var requests: seq<Item>
    var signalled: bool
    var down: bool
    /** The schedule thread is waiting, with its timer set for `armed`. */
    ghost var sleeping: bool
    ghost var armed: Option<int>

    /** The thread never sleeps on a stale deadline without a wake-up signal. */
    ghost predicate Valid()
      reads this, queue
    {
      && queue.less == RanksBelow && queue.Synced() && Ready(queue.heap)
      && (sleeping ==> signalled || armed == Earliest(queue.heap))
    }

    constructor ()
      ensures Valid() && fresh(queue) && queue.heap == [] && requests == [] && !signalled && !down && !sleeping
    {
      queue := new Heap(RanksBelow);
      requests, signalled, down, sleeping, armed := [], false, false, false, None;
    }

    method Add(item: Item, delay: int)
      requires Valid()
      modifies this`signalled, queue
      ensures Valid()
      ensures Some(queue.heap) ==
        if down then Some(old(queue.heap)) else Step(RanksBelow, old(queue.heap), Op.Add(item, HeapEntry(item, delay)))
      ensures signalled == (old(signalled)
        || (!down && item !in old(queue.lookup) && queue.heap != [] && queue.heap[0].value.item == item))
    {
      if !down {
        queue.LookupFindsSlot(item);
        ghost var h := queue.heap;
        var size := |queue.heap|;
        var nextTime := if size > 0 then queue.heap[0].value.time else 0;
        StepKeepsReady(h, Op.Add(item, HeapEntry(item, delay)));
        AddMovesEarliest(h, item, delay);
        if Slot(h, item) < 0 && (h == [] || delay < h[0].value.time) {
          AddedIsHead(h, item, delay);
        }
        var added := queue.Add(item, HeapEntry(item, delay));
        if added && (size == 0 || delay < nextTime || queue.heap[0].value.item == item) {
          signalled := true;
        }
      }
    }

    method Remove(item: Item) returns (removed: bool)
      requires Valid()
      modifies this`signalled, queue
      ensures Valid()
      ensures removed == (!down && item in old(queue.lookup))
      ensures Some(queue.heap) ==
        if down then Some(old(queue.heap)) else Step(RanksBelow, old(queue.heap), Op.Remove(item))
      ensures signalled == (old(signalled)
        || (!down && old(queue.heap) != [] && old(queue.heap)[0].value.item == item))
    {
      removed := false;
      if !down {
        ghost var h := queue.heap;
        var wasTop := |queue.heap| >= 1 && queue.heap[0].value.item == item;
        StepKeepsReady(h, Op.Remove(item));
        if !wasTop {
          RemoveKeepsEarliest(h, item);
        }
        removed := queue.Remove(item);
        if wasTop {
          signalled := true;
        }
      }
    }

    /** Make `item` due now: overwrite its time through the pointer `find` returned, then heapify. */
    method Signal(item: Item, now: int) returns (found: bool)
      requires Valid()
      modifies this`signalled, queue
      ensures Valid()
      ensures found == (!down && item in old(queue.lookup))
      ensures Some(queue.heap) ==
        if down then Some(old(queue.heap)) else Step(RanksBelow, old(queue.heap), Op.Assign(item, HeapEntry(item, now)))
      ensures signalled == (old(signalled) || found)
    {
      found := false;
      if !down {
        ghost var h := queue.heap;
        StepKeepsReady(h, Op.Assign(item, HeapEntry(item, now)));
        queue.LookupFindsSlot(item);
        var p := queue.Find(item);
        if p.Some? {
          queue.Store(p.value, HeapEntry(item, now));
          queue.HeapifyAt(item);
          signalled, found := true, true;
        }
      }
    }

    /** The schedule thread's wait returns, by signal (the event is auto-reset) or by timeout. */
    method Wake(bySignal: bool)
      requires Valid() && (bySignal ==> signalled)
      modifies this`signalled, this`sleeping
      ensures Valid() && !sleeping && signalled == (old(signalled) && !bySignal)
    {
      if bySignal {
        signalled := false;
      }
      sleeping := false;
    }

    /** Pop the head and queue its item for execution. */
    method Hand()
      requires queue.Synced() && Ready(queue.heap) && queue.less == RanksBelow && queue.heap != []
      modifies this`requests, queue
      ensures queue.Synced() && Ready(queue.heap)
      ensures queue.heap == RemoveSlot(RanksBelow, old(queue.heap), 0)
      ensures requests == old(requests) + [old(queue.heap)[0].value.item]
    {
      StepKeepsReady(queue.heap, Op.Pop);
      var entry := queue.Pop();
      requests := requests + [entry.item];
    }

    /** Pop items while the head is due, handing each to the request queue. */
    method MoveDue(now: int) returns (ghost due: seq<Entry<Item, HeapEntry>>)
      requires Valid() && !sleeping
      modifies this`requests, queue
      ensures Valid()
      ensures queue.heap == [] || queue.heap[0].value.time > now
      ensures requests == old(requests) + Items(due)
      ensures Dispatched(old(queue.heap), due, queue.heap, now)
    {
      hide RemoveSlot, RanksBelow, Ordered, Drain;
      due := [];
      while |queue.heap| > 0 && queue.heap[0].value.time <= now
        invariant queue.Synced() && Ready(queue.heap)
        invariant requests == old(requests) + Items(due)
        invariant Dispatched(old(queue.heap), due, queue.heap, now)
        decreases |queue.heap|
      {
        hide Dispatched, Items;
        ghost var h := queue.heap;
        DispatchOne(old(queue.heap), due, h, now);
        ItemsAppend(due, h[0]);
        Hand();
        due := due + [h[0]];
      }
    }

    /** Nothing is scheduled or handed over from here on; the thread is woken to see it. */
    method Shutdown()
      requires Valid()
      modifies this`down, this`signalled
      ensures Valid() && down && signalled
    {
      down := true;
      signalled := true;
    }

    /**
     * One round of the schedule thread: leave when the scheduler is down, else
     * dispatch what is due and sleep until the earliest deadline.  The timer
     * is -1 for no timeout.
     */
    method Schedule(now: int) returns (running: bool, nextWake: int)
      requires Valid() && !sleeping
      modifies this`requests, this`sleeping, this`armed, queue
      ensures Valid() && running == !down && sleeping == running
      ensures !running ==> queue.heap == old(queue.heap) && requests == old(requests)
      ensures running ==>
        && armed == Earliest(queue.heap)
        && nextWake == (if queue.heap == [] then -1 else queue.heap[0].value.time - now)
        && (forall e | e in queue.heap :: e.value.time > now)
        && exists due: seq<Entry<Item, HeapEntry>> ::
             requests == old(requests) + Items(due) && Dispatched(old(queue.heap), due, queue.heap, now)
    {
      if down {
        return false, -1;
      }
      running := true;
      ghost var due := MoveDue(now);
      NothingDue(queue.heap, now);
      nextWake := if |queue.heap| == 0 then -1 else queue.heap[0].value.time - now;
      sleeping, armed := true, Earliest(queue.heap);
    }
  }

  function Items(es: seq<Entry<Item, HeapEntry>>): seq<Item> {
    if es == [] then [] else [es[0].value.item] + Items(es[1..])
  }

  lemma {:induction false} ItemsAppend(es: seq<Entry<Item, HeapEntry>>, e: Entry<Item, HeapEntry>)
    ensures Items(es + [e]) == Items(es) + [e.value.item]
  {
    if es != [] {
      ItemsAppend(es[1..], e);
      assert (es + [e])[1..] == es[1..] + [e];
    }
  }
}
