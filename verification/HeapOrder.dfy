/**
 * The pure part of the indexed heap: what the sift loops of
 * h/util/UtilHeapInlines.h do to the vector of (key, value) entries, and why
 * they restore heap order for every strict weak order.
 */
module HeapOrder {

  datatype Entry<K, T> = Entry(key: K, value: T)

  /** `less` is a strict weak order: asymmetric, and "not less" is transitive. */
  ghost predicate StrictWeakOrder<T(!new)>(less: (T, T) -> bool) {
    && (forall a, b :: less(a, b) ==> !less(b, a))
    && (forall a, b, c :: !less(a, b) && !less(b, c) ==> !less(a, c))
  }

  function Parent(i: nat): (p: nat)
    requires i > 0
    ensures p < i && (i == 2 * p + 1 || i == 2 * p + 2)
  {
    (i + 1) / 2 - 1
  }

  /** The entry at `i` is not outranked by the entry at `j`. */
  predicate AtLeast<K, T>(less: (T, T) -> bool, h: seq<Entry<K, T>>, i: nat, j: nat)
    requires i < |h| && j < |h|
  {
    !less(h[i].value, h[j].value)
  }

  /** No child outranks its parent. */
  ghost predicate Ordered<K, T>(less: (T, T) -> bool, h: seq<Entry<K, T>>) {
    forall j: nat | 0 < j < |h| :: AtLeast(less, h, Parent(j), j)
  }

  /** Children of `i` do not outrank the parent of `i`. */
  ghost predicate Bridged<K, T>(less: (T, T) -> bool, h: seq<Entry<K, T>>, i: nat) {
    0 < i < |h| ==>
      forall j: nat | 0 < j < |h| && Parent(j) == i :: AtLeast(less, h, Parent(i), j)
  }

  /** Heap order everywhere except possibly between `i` and its neighbours. */
  ghost predicate OrderedAround<K, T>(less: (T, T) -> bool, h: seq<Entry<K, T>>, i: nat) {
    && Bridged(less, h, i)
    && forall j: nat | 0 < j < |h| && j != i && Parent(j) != i :: AtLeast(less, h, Parent(j), j)
  }

  /** Heap order everywhere except possibly between `i` and its parent. */
  ghost predicate OrderedBelow<K, T>(less: (T, T) -> bool, h: seq<Entry<K, T>>, i: nat) {
    && Bridged(less, h, i)
    && forall j: nat | 0 < j < |h| && j != i :: AtLeast(less, h, Parent(j), j)
  }

  function Swap<K, T>(h: seq<Entry<K, T>>, i: nat, j: nat): (r: seq<Entry<K, T>>)
    requires i < |h| && j < |h|
    ensures |r| == |h|
  {
    h[i := h[j]][j := h[i]]
  }

  /** The slot `down` exchanges with slot `i`; `i` itself when it stops there. Ties go to the child. */
  function Largest<K, T>(less: (T, T) -> bool, h: seq<Entry<K, T>>, i: nat): (c: nat)
    requires i < |h|
    ensures c < |h| && (c == i || c == 2 * i + 1 || c == 2 * i + 2)
  {
    var l, r := 2 * i + 1, 2 * i + 2;
    var a := if l < |h| && AtLeast(less, h, l, i) then l else i;
    if r < |h| && AtLeast(less, h, r, a) then r else a
  }

  /** Sift slot `i` down: the new vector and the slot where the entry ends. */
  function Down<K, T>(less: (T, T) -> bool, h: seq<Entry<K, T>>, i: nat): (r: (seq<Entry<K, T>>, nat))
    requires i < |h|
    ensures |r.0| == |h| && r.1 < |h| && r.0[r.1] == h[i]
    decreases |h| - i
  {
    var c := Largest(less, h, i);
    if c == i then (h, i) else Down(less, Swap(h, i, c), c)
  }

  /** Sift slot `i` up: the new vector and the slot where the entry ends. */
  function Up<K, T>(less: (T, T) -> bool, h: seq<Entry<K, T>>, i: nat): (r: (seq<Entry<K, T>>, nat))
    requires i < |h|
    ensures |r.0| == |h| && r.1 < |h| && r.0[r.1] == h[i]
    decreases i
  {
    if i > 0 && less(h[Parent(i)].value, h[i].value) then
      Up(less, Swap(h, i, Parent(i)), Parent(i))
    else
      (h, i)
  }

  /** What `heapify` does at slot `i`: down, then up from wherever the entry went. */
  function Fix<K, T>(less: (T, T) -> bool, h: seq<Entry<K, T>>, i: nat): (r: seq<Entry<K, T>>)
    requires i < |h|
    ensures |r| == |h|
  {
    var (h', i') := Down(less, h, i);
    Up(less, h', i').0
  }

  lemma {:induction false} DownPermutes<K, T>(less: (T, T) -> bool, h: seq<Entry<K, T>>, i: nat)
    requires i < |h|
    ensures multiset(Down(less, h, i).0) == multiset(h)
    decreases |h| - i
  {
    var c := Largest(less, h, i);
    if c != i {
      DownPermutes(less, Swap(h, i, c), c);
    }
  }

  lemma {:induction false} UpPermutes<K, T>(less: (T, T) -> bool, h: seq<Entry<K, T>>, i: nat)
    requires i < |h|
    ensures multiset(Up(less, h, i).0) == multiset(h)
    decreases i
  {
    if i > 0 && less(h[Parent(i)].value, h[i].value) {
      UpPermutes(less, Swap(h, i, Parent(i)), Parent(i));
    }
  }

  /** Heapify only rearranges entries. */
  lemma FixPermutes<K, T>(less: (T, T) -> bool, h: seq<Entry<K, T>>, i: nat)
    requires i < |h|
    ensures multiset(Fix(less, h, i)) == multiset(h)
  {
    DownPermutes(less, h, i);
    var (h', i') := Down(less, h, i);
    UpPermutes(less, h', i');
  }

  /** One exchange of `down` moves the exempted slot to the child, ties included. */
  lemma DownStep<K, T(!new)>(less: (T, T) -> bool, h: seq<Entry<K, T>>, i: nat)
    requires StrictWeakOrder(less) && i < |h| && OrderedAround(less, h, i)
    requires Largest(less, h, i) != i
    ensures var c := Largest(less, h, i); OrderedAround(less, Swap(h, i, c), c)
  {
    var c := Largest(less, h, i);
    var h' := Swap(h, i, c);
    forall j: nat | 0 < j < |h| && j != c && Parent(j) != c
      ensures AtLeast(less, h', Parent(j), j)
    {
      if j == i {
        assert AtLeast(less, h, Parent(i), c);
      } else if Parent(j) != i {
        assert AtLeast(less, h, Parent(j), j);
      }
    }
    forall j: nat | 0 < j < |h| && Parent(j) == c
      ensures AtLeast(less, h', Parent(c), j)
    {
      assert AtLeast(less, h, Parent(j), j);
    }
  }

  lemma {:induction false} DownSinks<K, T(!new)>(less: (T, T) -> bool, h: seq<Entry<K, T>>, i: nat)
    requires StrictWeakOrder(less) && i < |h| && OrderedAround(less, h, i)
    ensures var (h', i') := Down(less, h, i); OrderedBelow(less, h', i')
    decreases |h| - i
  {
    var c := Largest(less, h, i);
    if c != i {
      DownStep(less, h, i);
      DownSinks(less, Swap(h, i, c), c);
    } else {
      forall j: nat | 0 < j < |h| && j != i
        ensures AtLeast(less, h, Parent(j), j)
      {
      }
    }
  }

  lemma UpStep<K, T(!new)>(less: (T, T) -> bool, h: seq<Entry<K, T>>, i: nat)
    requires StrictWeakOrder(less) && 0 < i < |h| && OrderedBelow(less, h, i)
    requires less(h[Parent(i)].value, h[i].value)
    ensures OrderedBelow(less, Swap(h, i, Parent(i)), Parent(i))
  {
    var p := Parent(i);
    var h' := Swap(h, i, p);
    forall j: nat | 0 < j < |h| && j != p
      ensures AtLeast(less, h', Parent(j), j)
    {
      if j != i {
        assert AtLeast(less, h, Parent(j), j);
      }
    }
    if p > 0 {
      forall j: nat | 0 < j < |h| && Parent(j) == p
        ensures AtLeast(less, h', Parent(p), j)
      {
        assert AtLeast(less, h, Parent(p), p);
        if j != i {
          assert AtLeast(less, h, p, j);
        }
      }
    }
  }

  lemma {:induction false} UpRises<K, T(!new)>(less: (T, T) -> bool, h: seq<Entry<K, T>>, i: nat)
    requires StrictWeakOrder(less) && i < |h| && OrderedBelow(less, h, i)
    ensures Ordered(less, Up(less, h, i).0)
    decreases i
  {
    if i > 0 && less(h[Parent(i)].value, h[i].value) {
      UpStep(less, h, i);
      UpRises(less, Swap(h, i, Parent(i)), Parent(i));
    } else {
      forall j: nat | 0 < j < |h|
        ensures AtLeast(less, h, Parent(j), j)
      {
      }
    }
  }

  /**
   * Overwriting any one slot of an ordered heap, by any value, is repaired by
   * `heapify` at that slot.
   */
  lemma FixRestoresOrder<K, T(!new)>(less: (T, T) -> bool, h: seq<Entry<K, T>>, i: nat, e: Entry<K, T>)
    requires StrictWeakOrder(less) && i < |h| && Ordered(less, h)
    ensures Ordered(less, Fix(less, h[i := e], i))
  {
    var g := h[i := e];
    forall j: nat | 0 < j < |g| && j != i && Parent(j) != i
      ensures AtLeast(less, g, Parent(j), j)
    {
      assert AtLeast(less, h, Parent(j), j);
    }
    if i > 0 {
      forall j: nat | 0 < j < |g| && Parent(j) == i
        ensures AtLeast(less, g, Parent(i), j)
      {
        assert AtLeast(less, h, Parent(i), i) && AtLeast(less, h, i, j);
      }
    }
    DownSinks(less, g, i);
    var (h', i') := Down(less, g, i);
    UpRises(less, h', i');
  }

  /** The head of an ordered heap is outranked by no entry. */
  lemma {:induction false} HeadOutranksAll<K, T(!new)>(less: (T, T) -> bool, h: seq<Entry<K, T>>, j: nat)
    requires StrictWeakOrder(less) && Ordered(less, h) && j < |h|
    ensures AtLeast(less, h, 0, j)
  {
    if j > 0 {
      HeadOutranksAll(less, h, Parent(j));
      assert AtLeast(less, h, Parent(j), j);
    }
  }
}
