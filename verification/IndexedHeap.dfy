/**
 * The indexed heap object: a vector of entries and a lookup map from each key
 * to a vector iterator, changed in place (h/util/UtilHeap.h,
 * h/util/UtilHeapInlines.h).
 *
 * An iterator is a buffer generation and an index.  When the vector outgrows
 * its capacity the buffer is replaced and every iterator of the old generation
 * is dead; dereferencing needs a live one.
 */
module IndexedHeap {
  import opened Collections
  import opened HeapOrder
  import opened HeapRuns

  const GROW_SIZE: nat := 3

  datatype Iterator = Iterator(generation: nat, index: nat)

  class Heap<K(==, !new), T(!new)> {
    const less: (T, T) -> bool
    var heap: seq<Entry<K, T>>
    var generation: nat
    var capacity: nat
    var lookup: map<K, Iterator>

    predicate Live(it: Iterator)
      reads this
    {
      it.generation == generation && it.index < |heap|
    }

    /** The lookup is an exact inverse of the vector, through live iterators only. */
    ghost predicate Synced()
      reads this
    {
      && |heap| <= capacity
      && (forall i | 0 <= i < |heap| :: heap[i].key in lookup && lookup[heap[i].key] == Iterator(generation, i))
      && (forall k | k in lookup :: Live(lookup[k]) && heap[lookup[k].index].key == k)
    }

    ghost predicate Valid()
      reads this
    {
      Synced() && Ordered(less, heap)
    }

    constructor (less: (T, T) -> bool)
      ensures Valid() && heap == [] && this.less == less
    {
      this.less := less;
      heap, lookup, generation, capacity := [], map[], 0, GROW_SIZE;
    }

    /** Under `Synced` a lookup agrees with searching the vector for the key. */
    lemma LookupFindsSlot(k: K)
      requires Synced()
      ensures Slot(heap, k) == if k in lookup then lookup[k].index else -1
    {
      if k in lookup {
        assert heap[lookup[k].index] in heap;
      }
    }

    lemma KeepOrder(h: seq<Entry<K, T>>, op: Op<K, T>)
      requires Step(less, h, op).Some?
      ensures StrictWeakOrder(less) && Ordered(less, h) ==> Ordered(less, Step(less, h, op).value)
    {
      if StrictWeakOrder(less) && Ordered(less, h) {
        StepKeepsOrder(less, h, op);
      }
    }

    method Exchange(a: Iterator, b: Iterator)
      requires Synced() && Live(a) && Live(b)
      modifies this`heap, this`lookup
      ensures Synced() && heap == Swap(old(heap), a.index, b.index)
    {
      var keyA, keyB := heap[a.index].key, heap[b.index].key;
      lookup := lookup[keyA := lookup[keyB]][keyB := lookup[keyA]];
      heap := heap[a.index := heap[b.index]][b.index := heap[a.index]];
    }

    /** The largest of an entry and its children, the later on ties. */
    method LargestFrom(it: Iterator) returns (largest: nat)
      requires Live(it)
      ensures largest == Largest(less, heap, it.index)
    {
      var left := 2 * it.index + 1;
      var right := left + 1;
      if left >= |heap| {
        return it.index;
      }
      largest := it.index;
      if !less(heap[left].value, heap[it.index].value) {
        largest := left;
      }
      if right < |heap| && !less(heap[right].value, heap[largest].value) {
        largest := right;
      }
    }

    method DownFrom(it: Iterator)
      requires Synced() && Live(it)
      modifies this`heap, this`lookup
      ensures Synced() && heap == Down(less, old(heap), it.index).0
      ensures heap[it.index].key in lookup
    {
      hide Swap, Largest;
      var cur := it;
      while true
        invariant Synced() && Live(cur)
        invariant Down(less, heap, cur.index) == Down(less, old(heap), it.index)
        decreases |heap| - cur.index
      {
        var largest := LargestFrom(cur);
        if largest == cur.index {
          break;
        }
        Exchange(cur, Iterator(generation, largest));
        cur := Iterator(generation, largest);
      }
    }

    method UpFrom(it: Iterator)
      requires Synced() && Live(it)
      modifies this`heap, this`lookup
      ensures Synced() && heap == Up(less, old(heap), it.index).0
    {
      var cur := it;
      while cur.index > 0
        invariant Synced() && Live(cur)
        invariant Up(less, heap, cur.index) == Up(less, old(heap), it.index)
        decreases cur.index
      {
        var parent := (cur.index + 1) / 2 - 1;
        if !less(heap[parent].value, heap[cur.index].value) {
          break;
        }
        assert Up(less, heap, cur.index) == Up(less, Swap(heap, cur.index, parent), parent);
        Exchange(cur, Iterator(generation, parent));
        cur := Iterator(generation, parent);
      }
    }

    method HeapifyAt(key: K)
      requires Synced()
      modifies this`heap, this`lookup
      ensures Synced()
      ensures heap == if key in old(lookup) then Fix(less, old(heap), old(lookup[key].index)) else old(heap)
    {
      if key in lookup {
        var it := lookup[key];
        DownFrom(it);
        ghost var landed := Down(less, old(heap), it.index).1;
        assert heap[landed].key == key;
        UpFrom(lookup[key]);
      }
    }

    method Insert(item: Entry<K, T>)
      requires Synced() && item.key !in lookup
      modifies this
      ensures Synced() && heap == AddEntry(less, old(heap), item)
    {
      var oldCapacity, size := capacity, |heap|;
      if size == capacity {
        // the vector moves to a larger buffer, killing every iterator
        generation := generation + 1;
        var grown: nat :| grown > size;
        capacity := grown;
      }
      heap := heap + [item];
      lookup := lookup[item.key := Iterator(generation, size)];
      if oldCapacity == size {
        var i := 0;
        while i < |heap|
          invariant 0 <= i <= |heap|
          invariant heap == old(heap) + [item] && generation == old(generation) + 1 && capacity > size
          invariant lookup.Keys == old(lookup.Keys) + {item.key}
          invariant forall j | 0 <= j < i :: lookup[heap[j].key] == Iterator(generation, j)
          invariant lookup[item.key] == Iterator(generation, size)
        {
          lookup := lookup[heap[i].key := Iterator(generation, i)];
          i := i + 1;
        }
      }
      forall k | k in lookup
        ensures Live(lookup[k]) && heap[lookup[k].index].key == k
      {
        if k != item.key {
          assert heap[old(lookup)[k].index].key == k;
        }
      }
      UpFrom(lookup[item.key]);
    }

    /** Drop slot `it` from vector and lookup, the last entry taking its place. */
    method Vacate(it: Iterator) returns (moved: bool)
      requires Synced() && Live(it)
      modifies this`heap, this`lookup
      ensures moved == (it.index != old(|heap|) - 1)
      ensures Synced()
      ensures var last := |old(heap)| - 1;
        heap == if moved then old(heap)[..last][it.index := old(heap)[last]] else old(heap)[..last]
    {
      var last := |heap| - 1;
      var erased := heap[it.index];
      moved := it.index != last;
      if moved {
        lookup := lookup[heap[last].key := lookup[erased.key]];
        heap := heap[it.index := heap[last]];
      }
      heap := heap[..last];
      lookup := lookup - {erased.key};
      forall k | k in lookup
        ensures Live(lookup[k]) && heap[lookup[k].index].key == k
      {
        assert k in old(lookup) && old(heap)[old(lookup)[k].index].key == k;
      }
    }

    method Erase(it: Iterator)
      requires Synced() && Live(it)
      modifies this`heap, this`lookup
      ensures Synced() && heap == RemoveSlot(less, old(heap), it.index)
    {
      var moved := Vacate(it);
      if moved {
        HeapifyAt(heap[it.index].key);
      }
    }

    method Add(key: K, value: T) returns (added: bool)
      requires Synced()
      modifies this
      ensures Synced() && added == (key !in old(lookup))
      ensures Some(heap) == Step(less, old(heap), Op.Add(key, value))
      ensures StrictWeakOrder(less) && Ordered(less, old(heap)) ==> Ordered(less, heap)
    {
      LookupFindsSlot(key);
      if key !in lookup {
        Insert(Entry(key, value));
        KeepOrder(old(heap), Op.Add(key, value));
        return true;
      }
      return false;
    }

    /** Heapify as callers see it: in an absent key's case nothing happens. */
    method Heapify(key: K)
      requires Synced()
      modifies this`heap, this`lookup
      ensures Synced() && Some(heap) == Step(less, old(heap), Op.Heapify(key))
      ensures StrictWeakOrder(less) && Ordered(less, old(heap)) ==> Ordered(less, heap)
    {
      LookupFindsSlot(key);
      HeapifyAt(key);
      KeepOrder(old(heap), Op.Heapify(key));
    }

    method Push(key: K, value: T)
      requires Synced()
      modifies this
      ensures Synced() && Some(heap) == Step(less, old(heap), Op.Push(key, value))
      ensures StrictWeakOrder(less) && Ordered(less, old(heap)) ==> Ordered(less, heap)
    {
      var _ := Add(key, value);
    }

    method Remove(key: K) returns (removed: bool)
      requires Synced()
      modifies this`heap, this`lookup
      ensures Synced() && removed == (key in old(lookup))
      ensures Some(heap) == Step(less, old(heap), Op.Remove(key))
      ensures StrictWeakOrder(less) && Ordered(less, old(heap)) ==> Ordered(less, heap)
    {
      LookupFindsSlot(key);
      if key in lookup {
        Erase(lookup[key]);
        KeepOrder(old(heap), Op.Remove(key));
        return true;
      }
      return false;
    }

    method Pop() returns (value: T)
      requires Synced() && heap != []
      modifies this`heap, this`lookup
      ensures Synced() && value == old(heap)[0].value
      ensures Some(heap) == Step(less, old(heap), Op.Pop)
      ensures StrictWeakOrder(less) && Ordered(less, old(heap)) ==> Ordered(less, heap)
    {
      var front := heap[0];
      LookupFindsSlot(front.key);
      var _ := Remove(front.key);
      return front.value;
    }

    /** A live pointer to the entry of `key`, or nothing when no entry has that key. */
    method Find(key: K) returns (p: Option<Iterator>)
      requires Synced()
      ensures p.Some? ==> Live(p.value) && heap[p.value.index].key == key
      ensures p.None? ==> forall e | e in heap :: e.key != key
    {
      if key in lookup {
        return Some(lookup[key]);
      }
      return None;
    }

    /** The caller writes through a pointer obtained from `Find`: one slot changes, order may break. */
    method Store(p: Iterator, value: T)
      requires Synced() && Live(p)
      modifies this`heap
      ensures Synced() && heap == old(heap)[p.index := Entry(old(heap)[p.index].key, value)]
    {
      heap := heap[p.index := Entry(heap[p.index].key, value)];
    }
  }
}
