/**
 * Runs of the indexed heap: every sequence of operations keeps heap order and
 * refines a plain map from keys to values, and draining sorts.
 */
module HeapRuns {
  import opened Collections
  import opened HeapOrder

  datatype Op<K, T> =
    | Add(key: K, value: T)
    | Push(key: K, value: T)
    | Remove(key: K)
    | Pop
    | Assign(key: K, value: T)  // write through the pointer `find` returns, then heapify
    | Heapify(key: K)

  function AddEntry<K, T>(less: (T, T) -> bool, h: seq<Entry<K, T>>, e: Entry<K, T>): (r: seq<Entry<K, T>>)
    ensures |r| == |h| + 1
  {
    Up(less, h + [e], |h|).0
  }

  lemma AddGains<K, T>(less: (T, T) -> bool, h: seq<Entry<K, T>>, e: Entry<K, T>)
    ensures multiset(AddEntry(less, h, e)) == multiset(h) + multiset{e}
  {
    UpPermutes(less, h + [e], |h|);
  }

  /** The last entry replaces slot `i`, and `heapify` runs there unless slot `i` was the last. */
  function RemoveSlot<K, T>(less: (T, T) -> bool, h: seq<Entry<K, T>>, i: nat): (r: seq<Entry<K, T>>)
    requires i < |h|
    ensures |r| == |h| - 1
  {
    var n := |h| - 1;
    if i == n then h[..n] else Fix(less, h[..n][i := h[n]], i)
  }

  lemma RemoveLoses<K, T>(less: (T, T) -> bool, h: seq<Entry<K, T>>, i: nat)
    requires i < |h|
    ensures multiset(RemoveSlot(less, h, i)) == multiset(h) - multiset{h[i]}
  {
    var n := |h| - 1;
    assert h == h[..n] + [h[n]];
    if i < n {
      assert multiset(h[..n][i := h[n]]) == multiset(h) - multiset{h[i]};
      FixPermutes(less, h[..n][i := h[n]], i);
    }
  }

  /** The slot holding `k`, or -1. */
  function Slot<K(==), T>(h: seq<Entry<K, T>>, k: K): (i: int)
    ensures -1 <= i < |h|
    ensures i >= 0 ==> h[i].key == k
    ensures i < 0 ==> forall e | e in h :: e.key != k
  {
    if h == [] then -1 else
      var n := |h| - 1;
      assert h == h[..n] + [h[n]];
      if h[n].key == k then n else Slot(h[..n], k)
  }

  /** The vector after one operation; None is `front()` of an empty vector, which is undefined. */
  function Step<K(==), T>(less: (T, T) -> bool, h: seq<Entry<K, T>>, op: Op<K, T>): Option<seq<Entry<K, T>>> {
    match op
    case Add(k, v) => Some(if Slot(h, k) >= 0 then h else AddEntry(less, h, Entry(k, v)))
    case Push(k, v) => Some(if Slot(h, k) >= 0 then h else AddEntry(less, h, Entry(k, v)))
    case Remove(k) => Some(if Slot(h, k) < 0 then h else RemoveSlot(less, h, Slot(h, k)))
    case Pop => if h == [] then None else Some(RemoveSlot(less, h, 0))
    case Assign(k, v) =>
      Some(if Slot(h, k) < 0 then h else Fix(less, h[Slot(h, k) := Entry(k, v)], Slot(h, k)))
    case Heapify(k) => Some(if Slot(h, k) < 0 then h else Fix(less, h, Slot(h, k)))
  }

  function Run<K(==), T>(less: (T, T) -> bool, h: seq<Entry<K, T>>, ops: seq<Op<K, T>>): Option<seq<Entry<K, T>>>
    decreases |ops|
  {
    if ops == [] then Some(h) else
      match Step(less, h, ops[0])
      case None => None
      case Some(h') => Run(less, h', ops[1..])
  }

  /** Only taking the head of an empty heap is undefined. */
  lemma StepDefined<K, T>(less: (T, T) -> bool, h: seq<Entry<K, T>>, op: Op<K, T>)
    ensures Step(less, h, op) == None <==> op == Op.Pop && h == []
  {
  }

  lemma {:induction false} SlotStays<K, T>(h: seq<Entry<K, T>>, k: K, v: T)
    requires Slot(h, k) >= 0
    ensures Slot(h[Slot(h, k) := Entry(k, v)], k) == Slot(h, k)
  {
    var n := |h| - 1;
    if h[n].key != k {
      SlotStays(h[..n], k, v);
      assert h[Slot(h, k) := Entry(k, v)][..n] == h[..n][Slot(h, k) := Entry(k, v)];
    }
  }

  /** After a write through the pointer of `find`, heapify restores order and keeps all entries. */
  lemma HeapifyRepairs<K, T(!new)>(less: (T, T) -> bool, h: seq<Entry<K, T>>, k: K, v: T)
    requires StrictWeakOrder(less) && Ordered(less, h) && Slot(h, k) >= 0
    ensures var written := h[Slot(h, k) := Entry(k, v)];
      var g := Step(less, written, Op.Heapify(k)).value;
      Ordered(less, g) && multiset(g) == multiset(written)
  {
    var i: nat := Slot(h, k);
    var written := h[i := Entry(k, v)];
    SlotStays(h, k, v);
    FixRestoresOrder(less, h, i, Entry(k, v));
    FixPermutes(less, written, i);
  }

  /** The entries of the vector are exactly the key-value pairs of `m`, each occurring once. */
  ghost predicate Represents<K(!new), T(!new)>(h: seq<Entry<K, T>>, m: map<K, T>) {
    forall e :: multiset(h)[e] == if e.key in m && m[e.key] == e.value then 1 else 0
  }

  /** The abstract heap: a map, whose pop removes some key of a value no other value outranks. */
  ghost predicate AbstractStep<K(!new), T>(less: (T, T) -> bool, m: map<K, T>, op: Op<K, T>, m': map<K, T>) {
    match op
    case Add(k, v) => m' == if k in m then m else m[k := v]
    case Push(k, v) => m' == if k in m then m else m[k := v]
    case Remove(k) => m' == m - {k}
    case Pop => exists k | k in m :: m' == m - {k} && forall k' | k' in m :: !less(m[k], m[k'])
    case Assign(k, v) => m' == if k in m then m[k := v] else m
    case Heapify(_) => m' == m
  }

  ghost predicate AbstractRun<K(!new), T(!new)>(less: (T, T) -> bool, m: map<K, T>, ops: seq<Op<K, T>>, m': map<K, T>)
    decreases |ops|
  {
    if ops == [] then m' == m else
      exists mid: map<K, T> :: AbstractStep(less, m, ops[0], mid) && AbstractRun(less, mid, ops[1..], m')
  }

  lemma AddKeepsOrder<K, T(!new)>(less: (T, T) -> bool, h: seq<Entry<K, T>>, e: Entry<K, T>)
    requires StrictWeakOrder(less) && Ordered(less, h)
    ensures Ordered(less, AddEntry(less, h, e))
  {
    var g := h + [e];
    forall j: nat | 0 < j < |g| && j != |h|
      ensures AtLeast(less, g, Parent(j), j)
    {
      assert AtLeast(less, h, Parent(j), j);
    }
    UpRises(less, g, |h|);
  }

  lemma RemoveKeepsOrder<K, T(!new)>(less: (T, T) -> bool, h: seq<Entry<K, T>>, i: nat)
    requires StrictWeakOrder(less) && Ordered(less, h) && i < |h|
    ensures Ordered(less, RemoveSlot(less, h, i))
  {
    if i < |h| - 1 {
      FixRestoresOrder(less, h[..|h| - 1], i, h[|h| - 1]);
    }
  }

  lemma FindsSlot<K(!new), T(!new)>(h: seq<Entry<K, T>>, m: map<K, T>, k: K)
    requires Represents(h, m)
    ensures Slot(h, k) >= 0 <==> k in m
    ensures k in m ==> h[Slot(h, k)] == Entry(k, m[k])
  {
    if k in m {
      assert multiset(h)[Entry(k, m[k])] == 1;
      assert Entry(k, m[k]) in h;
    }
    if Slot(h, k) >= 0 {
      assert multiset(h)[h[Slot(h, k)]] > 0;
    }
  }

  /** What one operation does to the represented map; `head` is the key at the front of the vector. */
  function Next<K, T>(m: map<K, T>, head: Option<K>, op: Op<K, T>): map<K, T> {
    match op
    case Add(k, v) => if k in m then m else m[k := v]
    case Push(k, v) => if k in m then m else m[k := v]
    case Remove(k) => m - {k}
    case Pop => if head.Some? then m - {head.value} else m
    case Assign(k, v) => if k in m then m[k := v] else m
    case Heapify(_) => m
  }

  function Head<K, T>(h: seq<Entry<K, T>>): Option<K> {
    if h == [] then None else Some(h[0].key)
  }

  lemma OneMore<K(!new), T(!new)>(h: seq<Entry<K, T>>, m: map<K, T>, e: Entry<K, T>, g: seq<Entry<K, T>>)
    requires Represents(h, m) && e.key !in m && multiset(g) == multiset(h) + multiset{e}
    ensures Represents(g, m[e.key := e.value])
  {
    var m' := m[e.key := e.value];
    forall x: Entry<K, T>
      ensures multiset(g)[x] == if x.key in m' && m'[x.key] == x.value then 1 else 0
    {
      assert multiset(g)[x] == multiset(h)[x] + if x == e then 1 else 0;
    }
  }

  lemma OneLess<K(!new), T(!new)>(h: seq<Entry<K, T>>, m: map<K, T>, e: Entry<K, T>, g: seq<Entry<K, T>>)
    requires Represents(h, m) && e in h && multiset(g) == multiset(h) - multiset{e}
    ensures Represents(g, m - {e.key})
  {
    assert multiset(h)[e] > 0;
    forall x: Entry<K, T>
      ensures multiset(g)[x] == if x.key in m - {e.key} && m[x.key] == x.value then 1 else 0
    {
      assert multiset(g)[x] == multiset(h)[x] - if x == e then 1 else 0;
    }
  }

  lemma AssignRepresents<K(!new), T(!new)>(less: (T, T) -> bool, h: seq<Entry<K, T>>, m: map<K, T>, k: K, v: T)
    requires Represents(h, m) && Slot(h, k) >= 0
    ensures Represents(Fix(less, h[Slot(h, k) := Entry(k, v)], Slot(h, k)), m[k := v])
  {
    var s := Slot(h, k);
    FixPermutes(less, h[s := Entry(k, v)], s);
  }

  lemma SameEntries<K(!new), T(!new)>(h: seq<Entry<K, T>>, m: map<K, T>, g: seq<Entry<K, T>>)
    requires Represents(h, m) && multiset(g) == multiset(h)
    ensures Represents(g, m)
  {
  }

  lemma StepRepresents<K(!new), T(!new)>(less: (T, T) -> bool, h: seq<Entry<K, T>>, m: map<K, T>, op: Op<K, T>)
    requires Represents(h, m) && Step(less, h, op).Some?
    ensures Represents(Step(less, h, op).value, Next(m, Head(h), op))
  {
    hide Represents, AddEntry, RemoveSlot, Fix;
    var h' := Step(less, h, op).value;
    match op
    case Pop => {
      RemoveLoses(less, h, 0);
      OneLess(h, m, h[0], h');
    }
    case Add(k, v) => {
      FindsSlot(h, m, k);
      AddGains(less, h, Entry(k, v));
      if k !in m { OneMore(h, m, Entry(k, v), h'); }
    }
    case Push(k, v) => {
      FindsSlot(h, m, k);
      AddGains(less, h, Entry(k, v));
      if k !in m { OneMore(h, m, Entry(k, v), h'); }
    }
    case Remove(k) => {
      FindsSlot(h, m, k);
      if k in m {
        RemoveLoses(less, h, Slot(h, k));
        OneLess(h, m, h[Slot(h, k)], h');
      } else {
        assert m - {k} == m;
      }
    }
    case Assign(k, v) => {
      FindsSlot(h, m, k);
      if k in m { AssignRepresents(less, h, m, k, v); }
    }
    case Heapify(k) => {
      if Slot(h, k) >= 0 {
        FixPermutes(less, h, Slot(h, k));
        SameEntries(h, m, h');
      }
    }
  }

  /** An entry present after an operation was there before, or is the one being written. */
  lemma StepDraws<K, T>(less: (T, T) -> bool, h: seq<Entry<K, T>>, op: Op<K, T>, e: Entry<K, T>)
    requires Step(less, h, op).Some? && e in Step(less, h, op).value
    ensures e in h || ((op.Add? || op.Push? || op.Assign?) && e == Entry(op.key, op.value))
  {
    hide AddEntry, RemoveSlot, Fix;
    var g := Step(less, h, op).value;
    assert e in multiset(g);
    match op
    case Pop => { RemoveLoses(less, h, 0); assert e in multiset(h); }
    case Add(k, v) => { AddGains(less, h, Entry(k, v)); assert e in multiset(h) + multiset{Entry(k, v)}; }
    case Push(k, v) => { AddGains(less, h, Entry(k, v)); assert e in multiset(h) + multiset{Entry(k, v)}; }
    case Remove(k) => {
      if Slot(h, k) >= 0 { RemoveLoses(less, h, Slot(h, k)); }
      assert e in multiset(h);
    }
    case Assign(k, v) => {
      if Slot(h, k) >= 0 {
        FixPermutes(less, h[Slot(h, k) := Entry(k, v)], Slot(h, k));
        assert e in h[Slot(h, k) := Entry(k, v)];
      }
    }
    case Heapify(k) => {
      if Slot(h, k) >= 0 { FixPermutes(less, h, Slot(h, k)); }
      assert e in multiset(h);
    }
  }

  lemma StepKeepsOrder<K, T(!new)>(less: (T, T) -> bool, h: seq<Entry<K, T>>, op: Op<K, T>)
    requires StrictWeakOrder(less) && Ordered(less, h) && Step(less, h, op).Some?
    ensures Ordered(less, Step(less, h, op).value)
  {
    match op
    case Add(k, v) => { AddKeepsOrder(less, h, Entry(k, v)); }
    case Push(k, v) => { AddKeepsOrder(less, h, Entry(k, v)); }
    case Remove(k) => { if Slot(h, k) >= 0 { RemoveKeepsOrder(less, h, Slot(h, k)); } }
    case Pop => { RemoveKeepsOrder(less, h, 0); }
    case Assign(k, v) => { if Slot(h, k) >= 0 { FixRestoresOrder(less, h, Slot(h, k), Entry(k, v)); } }
    case Heapify(k) => {
      var s := Slot(h, k);
      if s >= 0 {
        FixRestoresOrder(less, h, s, h[s]);
        assert h[s := h[s]] == h;
      }
    }
  }

  /** The value at the head is outranked by no value of the represented map. */
  lemma HeadIsBest<K(!new), T(!new)>(less: (T, T) -> bool, h: seq<Entry<K, T>>, m: map<K, T>, k: K)
    requires StrictWeakOrder(less) && Ordered(less, h) && Represents(h, m) && h != [] && k in m
    ensures h[0].key in m && m[h[0].key] == h[0].value && !less(h[0].value, m[k])
  {
    FindsSlot(h, m, k);
    HeadOutranksAll(less, h, Slot(h, k));
    assert multiset(h)[h[0]] > 0;
  }

  lemma StepRefines<K(!new), T(!new)>(less: (T, T) -> bool, h: seq<Entry<K, T>>, m: map<K, T>, op: Op<K, T>)
    requires StrictWeakOrder(less) && Ordered(less, h) && Represents(h, m) && Step(less, h, op).Some?
    ensures AbstractStep(less, m, op, Next(m, Head(h), op))
  {
    if op.Pop? {
      assert multiset(h)[h[0]] > 0;
      forall k | k in m
        ensures !less(m[h[0].key], m[k])
      {
        HeadIsBest(less, h, m, k);
      }
    }
  }

  /**
   * Every run that does not pop an empty heap keeps heap order and represents
   * a map that the abstract heap reaches by the same operations.
   */
  lemma {:induction false} RunRefines<K(!new), T(!new)>(
    less: (T, T) -> bool, h: seq<Entry<K, T>>, m: map<K, T>, ops: seq<Op<K, T>>)
    requires StrictWeakOrder(less) && Ordered(less, h) && Represents(h, m) && Run(less, h, ops).Some?
    ensures Ordered(less, Run(less, h, ops).value)
    ensures exists m' :: Represents(Run(less, h, ops).value, m') && AbstractRun(less, m, ops, m')
    decreases |ops|
  {
    if ops != [] {
      var mid := Next(m, Head(h), ops[0]);
      StepKeepsOrder(less, h, ops[0]);
      StepRepresents(less, h, m, ops[0]);
      StepRefines(less, h, m, ops[0]);
      RunRefines(less, Step(less, h, ops[0]).value, mid, ops[1..]);
    }
  }

  /** Popping until the heap is empty. */
  function Drain<K, T>(less: (T, T) -> bool, h: seq<Entry<K, T>>): seq<Entry<K, T>>
    decreases |h|
  {
    if h == [] then [] else
      [h[0]] + Drain(less, RemoveSlot(less, h, 0))
  }

  /** Draining loses no entry and invents none. */
  lemma {:induction false} DrainKeepsEntries<K, T>(less: (T, T) -> bool, h: seq<Entry<K, T>>)
    ensures multiset(Drain(less, h)) == multiset(h)
    decreases |h|
  {
    if h != [] {
      RemoveLoses(less, h, 0);
      DrainKeepsEntries(less, RemoveSlot(less, h, 0));
    }
  }

  lemma DrainStartsBest<K, T(!new)>(less: (T, T) -> bool, h: seq<Entry<K, T>>, e: Entry<K, T>)
    requires StrictWeakOrder(less) && Ordered(less, h) && e in Drain(less, h)
    ensures !less(h[0].value, e.value)
  {
    DrainKeepsEntries(less, h);
    assert e in multiset(Drain(less, h));
    assert e in multiset(h);
    var j: nat :| j < |h| && h[j] == e;
    HeadOutranksAll(less, h, j);
  }

  /** No entry outranks an earlier one. */
  ghost predicate BestFirst<K, T>(less: (T, T) -> bool, s: seq<Entry<K, T>>) {
    forall a: nat, b: nat | a < b < |s| :: !less(s[a].value, s[b].value)
  }

  /** Draining never yields an entry that outranks an earlier one. */
  lemma {:induction false} DrainSorts<K, T(!new)>(less: (T, T) -> bool, h: seq<Entry<K, T>>)
    requires StrictWeakOrder(less) && Ordered(less, h)
    ensures BestFirst(less, Drain(less, h))
    decreases |h|
  {
    if h != [] {
      var rest := RemoveSlot(less, h, 0);
      RemoveKeepsOrder(less, h, 0);
      DrainSorts(less, rest);
      forall e | e in Drain(less, rest)
        ensures !less(h[0].value, e.value)
      {
        DrainStartsBest(less, h, e);
      }
    }
  }
}
