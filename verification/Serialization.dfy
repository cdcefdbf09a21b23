/**
 * Vectors and maps on byte streams (h/ser/SerUtils.h) and the size counters
 * that must agree with them (h/ser/SerCounters.h).
 */
module Serialization {
  import opened ByteCodecs
  import opened Collections

  const VECTOR_SENTINEL: nat := 0xBEBE0100
  const MAP_SENTINEL: nat := 0xBEBE0200
  const INT: nat := 4

  /** A container prologue: the sentinel, then the element count. */
  function Header(sentinel: nat, n: nat): (bs: seq<byte>)
    ensures |bs| == INT + SIZE_T
  {
    Bytes(sentinel, INT) + Bytes(n, SIZE_T)
  }

  /** Reading a prologue: the count and the rest, or why the stream failed. */
  datatype Prologue = Count(n: nat, rest: seq<byte>) | BadSentinel(rest: seq<byte>) | Truncated

  function ReadHeader(sentinel: nat, bs: seq<byte>): Prologue {
    if |bs| < INT then Truncated
    else if Value(bs[..INT]) != sentinel then BadSentinel(bs[INT..])
    else if |bs| < INT + SIZE_T then Truncated
    else Count(Value(bs[INT..INT + SIZE_T]), bs[INT + SIZE_T..])
  }

  lemma HeaderReads(sentinel: nat, n: nat, tail: seq<byte>)
    requires sentinel < Pow256(INT) && n < Pow256(SIZE_T)
    ensures ReadHeader(sentinel, Header(sentinel, n) + tail) == Count(n, tail)
  {
    var bs := Header(sentinel, n) + tail;
    BytesRoundTrip(sentinel, INT);
    BytesRoundTrip(n, SIZE_T);
    assert bs[..INT] == Bytes(sentinel, INT);
    assert bs[INT..INT + SIZE_T] == Bytes(n, SIZE_T);
    assert bs[INT + SIZE_T..] == tail;
  }

  lemma HeaderNeedsAll(sentinel: nat, n: nat, k: nat)
    requires sentinel < Pow256(INT) && k < INT + SIZE_T
    ensures ReadHeader(sentinel, Header(sentinel, n)[..k]) == Truncated
  {
    BytesRoundTrip(sentinel, INT);
    if k >= INT {
      assert Header(sentinel, n)[..k][..INT] == Bytes(sentinel, INT);
    }
  }

  lemma SentinelsFit()
    ensures VECTOR_SENTINEL < Pow256(INT) && MAP_SENTINEL < Pow256(INT)
  {
    assert Pow256(2) == 65536 && Pow256(4) == 65536 * 65536;
  }

  // ---------------------------------------------------------------- vectors

  /** The elements written one after the other. */
  function WriteItems<T>(c: Codec<T>, xs: seq<T>): seq<byte> {
    if xs == [] then [] else c.write(xs[0]) + WriteItems(c, xs[1..])
  }

  datatype Items<T> = Items(values: seq<T>, rest: seq<byte>, good: bool)

  /** Reading into each target in turn, stopping when the stream fails. */
  function ReadItems<T>(c: Codec<T>, bs: seq<byte>, targets: seq<T>): (r: Items<T>)
    ensures |r.values| == |targets|
    decreases |targets|
  {
    if targets == [] then Items([], bs, true) else
      match c.read(bs, targets[0])
      case Short(v) => Items([v] + targets[1..], [], false)
      case Done(v, rest) =>
        var r := ReadItems(c, rest, targets[1..]);
        Items([v] + r.values, r.rest, r.good)
  }

  function Merged<T>(merge: (T, T) -> T, targets: seq<T>, xs: seq<T>): seq<T>
    requires |targets| == |xs|
  {
    if xs == [] then [] else [merge(targets[0], xs[0])] + Merged(merge, targets[1..], xs[1..])
  }

  ghost predicate AllValid<T>(c: Codec<T>, xs: seq<T>) {
    forall x | x in xs :: c.valid(x)
  }

  lemma {:induction false} ItemsRoundTrip<T(!new)>(
    c: Codec<T>, merge: (T, T) -> T, xs: seq<T>, targets: seq<T>, tail: seq<byte>)
    requires Undoes(c, merge) && AllValid(c, xs) && |targets| == |xs|
    ensures ReadItems(c, WriteItems(c, xs) + tail, targets) == Items(Merged(merge, targets, xs), tail, true)
  {
    if xs == [] {
      assert WriteItems(c, xs) + tail == tail;
    } else {
      var later := WriteItems(c, xs[1..]) + tail;
      assert WriteItems(c, xs) + tail == c.write(xs[0]) + later;
      assert c.read(c.write(xs[0]) + later, targets[0]) == Done(merge(targets[0], xs[0]), later);
      ItemsRoundTrip(c, merge, xs[1..], targets[1..], tail);
    }
  }

  lemma {:induction false} ItemsNeedAll<T(!new)>(c: Codec<T>, merge: (T, T) -> T, xs: seq<T>, targets: seq<T>, k: nat)
    requires Undoes(c, merge) && NeedsAll(c) && AllValid(c, xs) && |targets| == |xs|
    requires k < |WriteItems(c, xs)|
    ensures !ReadItems(c, WriteItems(c, xs)[..k], targets).good
  {
    var first, bs := c.write(xs[0]), WriteItems(c, xs);
    if k < |first| {
      assert bs[..k] == first[..k];
    } else {
      var later := WriteItems(c, xs[1..])[..k - |first|];
      assert bs[..k] == first + later;
      assert c.read(first + later, targets[0]) == Done(merge(targets[0], xs[0]), later);
      ItemsNeedAll(c, merge, xs[1..], targets[1..], k - |first|);
    }
  }

  function WriteVectorOf<T>(c: Codec<T>, xs: seq<T>): seq<byte> {
    Header(VECTOR_SENTINEL, |xs|) + WriteItems(c, xs)
  }

  /** readVector: the vector, the unread bytes and the state of the stream it leaves. */
  function ReadVectorOf<T>(c: Codec<T>, bs: seq<byte>, data: seq<T>, erase: bool, default: T): Items<T> {
    match ReadHeader(VECTOR_SENTINEL, bs)
    case Truncated => Items(data, [], false)
    case BadSentinel(rest) => Items(data, rest, false)
    case Count(n, rest) =>
      var keep := if erase then 0 else |data|;
      var resized := Resize(data, keep + n, default);
      var r := ReadItems(c, rest, resized[keep..]);
      Items(resized[..keep] + r.values, r.rest, r.good)
  }

  /** The slots readVector reads into: old elements when erasing, fresh ones when appending. */
  function Targets<T>(data: seq<T>, erase: bool, n: nat, default: T): (r: seq<T>)
    ensures |r| == n
  {
    if erase then Resize(data, n, default) else seq(n, _ => default)
  }

  /**
   * Reading a written vector merges each element into its slot, after the old
   * contents when appending, and leaves exactly the trailing bytes.
   */
  lemma VectorRoundTrip<T(!new)>(
    c: Codec<T>, merge: (T, T) -> T, xs: seq<T>, data: seq<T>, erase: bool, default: T, tail: seq<byte>)
    requires Undoes(c, merge) && AllValid(c, xs) && |xs| < Pow256(SIZE_T)
    ensures ReadVectorOf(c, WriteVectorOf(c, xs) + tail, data, erase, default)
      == Items((if erase then [] else data) + Merged(merge, Targets(data, erase, |xs|, default), xs), tail, true)
  {
    SentinelsFit();
    Associative(Header(VECTOR_SENTINEL, |xs|), WriteItems(c, xs), tail);
    HeaderReads(VECTOR_SENTINEL, |xs|, WriteItems(c, xs) + tail);
    ResizedSplits(data, erase, |xs|, default);
    ItemsRoundTrip(c, merge, xs, Targets(data, erase, |xs|, default), tail);
  }

  lemma ResizedSplits<T>(data: seq<T>, erase: bool, n: nat, default: T)
    ensures var keep := if erase then 0 else |data|; var resized := Resize(data, keep + n, default);
      resized[..keep] == (if erase then [] else data) && resized[keep..] == Targets(data, erase, n, default)
  {
  }

  lemma {:induction false} OverwriteMerges<T>(targets: seq<T>, xs: seq<T>)
    requires |targets| == |xs|
    ensures Merged(Overwrite, targets, xs) == xs
  {
    if xs != [] {
      OverwriteMerges(targets[1..], xs[1..]);
    }
  }

  /** An element type that overwrites its target gives back the vector, or appends it. */
  lemma VectorRestores<T(!new)>(c: Codec<T>, xs: seq<T>, data: seq<T>, erase: bool, default: T, tail: seq<byte>)
    requires Undoes(c, Overwrite) && AllValid(c, xs) && |xs| < Pow256(SIZE_T)
    ensures ReadVectorOf(c, WriteVectorOf(c, xs) + tail, data, erase, default)
      == Items(if erase then xs else data + xs, tail, true)
  {
    VectorRoundTrip(c, Overwrite, xs, data, erase, default, tail);
    OverwriteMerges(Targets(data, erase, |xs|, default), xs);
  }

  /** Every strict prefix of a written vector leaves the stream failed. */
  lemma VectorNeedsAll<T(!new)>(
    c: Codec<T>, merge: (T, T) -> T, xs: seq<T>, data: seq<T>, erase: bool, default: T, k: nat)
    requires Undoes(c, merge) && NeedsAll(c) && AllValid(c, xs) && |xs| < Pow256(SIZE_T)
    requires k < |WriteVectorOf(c, xs)|
    ensures !ReadVectorOf(c, WriteVectorOf(c, xs)[..k], data, erase, default).good
  {
    var h := Header(VECTOR_SENTINEL, |xs|);
    SentinelsFit();
    if k < |h| {
      assert WriteVectorOf(c, xs)[..k] == h[..k];
      HeaderNeedsAll(VECTOR_SENTINEL, |xs|, k);
    } else {
      var part := WriteItems(c, xs)[..k - |h|];
      assert WriteVectorOf(c, xs)[..k] == h + part;
      HeaderReads(VECTOR_SENTINEL, |xs|, part);
      var keep := if erase then 0 else |data|;
      ItemsNeedAll(c, merge, xs, Resize(data, keep + |xs|, default)[keep..], k - |h|);
    }
  }

  lemma {:induction false} MergedAt<T>(merge: (T, T) -> T, targets: seq<T>, xs: seq<T>, i: nat)
    requires |targets| == |xs| && i < |xs|
    ensures |Merged(merge, targets, xs)| == |xs| && Merged(merge, targets, xs)[i] == merge(targets[i], xs[i])
  {
    if i > 0 {
      MergedAt(merge, targets[1..], xs[1..], i - 1);
    } else if |xs| > 1 {
      MergedAt(merge, targets[1..], xs[1..], 0);
    }
  }

  lemma StringsMerged(xs: seq<seq<byte>>, data: seq<seq<byte>>)
    ensures var values := Merged(MergeString, Targets(data, true, |xs|, []), xs);
      && |values| == |xs|
      && (forall i | 0 <= i < |xs| :: values[i] ==
           if xs[i] != [] then xs[i] + [0] else if i < |data| then data[i] else [])
      && (values == xs <==> forall i | 0 <= i < |xs| :: xs[i] == [] && (i < |data| ==> data[i] == []))
  {
    var targets := Targets(data, true, |xs|, []);
    var values := Merged(MergeString, targets, xs);
    forall i | 0 <= i < |xs|
      ensures |values| == |xs| && values[i] == MergeString(targets[i], xs[i])
    {
      MergedAt(MergeString, targets, xs, i);
    }
    assert values == xs <==> forall i | 0 <= i < |xs| :: values[i] == xs[i];
  }

  /**
   * Vectors of strings come back as written exactly when every string is empty
   * and is read over an empty one: a nonempty string gains a NUL, an empty one
   * leaves what its slot held.
   */
  lemma StringVectorRestores(xs: seq<seq<byte>>, data: seq<seq<byte>>, tail: seq<byte>)
    requires AllValid(String(), xs) && |xs| < Pow256(SIZE_T)
    ensures var r := ReadVectorOf(String(), WriteVectorOf(String(), xs) + tail, data, true, []);
      && r.good && r.rest == tail && |r.values| == |xs|
      && (forall i | 0 <= i < |xs| :: r.values[i] ==
           if xs[i] != [] then xs[i] + [0] else if i < |data| then data[i] else [])
      && (r.values == xs <==> forall i | 0 <= i < |xs| :: xs[i] == [] && (i < |data| ==> data[i] == []))
  {
    hide ReadVectorOf, WriteVectorOf, Merged, Targets;
    StringUndoes();
    VectorRoundTrip(String(), MergeString, xs, data, true, [], tail);
    StringsMerged(xs, data);
    var values := Merged(MergeString, Targets(data, true, |xs|, []), xs);
    assert [] + values == values;
  }

  // ---------------------------------------------------------------- maps

  /** The entries in the iteration order of the map, key then value. */
  function WriteEntries<K, V>(kc: Codec<K>, vc: Codec<V>, m: map<K, V>, keys: seq<K>): seq<byte>
    requires forall k | k in keys :: k in m
  {
    if keys == [] then [] else
      kc.write(keys[0]) + (vc.write(m[keys[0]]) + WriteEntries(kc, vc, m, keys[1..]))
  }

  datatype Entries<K, V> = Entries(data: map<K, V>, rest: seq<byte>, good: bool)

  /** `n` times: a fresh key, then a value read into the slot of that key, which springs into being. */
  function ReadEntries<K(==), V>(
    kc: Codec<K>, vc: Codec<V>, bs: seq<byte>, n: nat, data: map<K, V>, newK: K, newV: V): Entries<K, V>
    decreases n
  {
    if n == 0 then Entries(data, bs, true) else
      match kc.read(bs, newK)
      case Short(_) => Entries(data, [], false)
      case Done(k, rest) =>
        match vc.read(rest, SlotOf(data, k, newV))
        case Short(v) => Entries(data[k := v], [], false)
        case Done(v, rest') => ReadEntries(kc, vc, rest', n - 1, data[k := v], newK, newV)
  }

  /** `keys` enumerates the map, each key once: what iterating a std::map yields. */
  ghost predicate Enumerates<K, V>(m: map<K, V>, keys: seq<K>) {
    && (forall k | k in keys :: k in m) && (forall k | k in m :: k in keys)
    && (forall i, j | 0 <= i < j < |keys| :: keys[i] != keys[j])
  }

  function WriteMapOf<K, V>(kc: Codec<K>, vc: Codec<V>, m: map<K, V>, keys: seq<K>): seq<byte>
    requires forall k | k in keys :: k in m
  {
    Header(MAP_SENTINEL, |keys|) + WriteEntries(kc, vc, m, keys)
  }

  function ReadMapOf<K(==), V>(
    kc: Codec<K>, vc: Codec<V>, bs: seq<byte>, data: map<K, V>, erase: bool, newK: K, newV: V): Entries<K, V>
  {
    match ReadHeader(MAP_SENTINEL, bs)
    case Truncated => Entries(data, [], false)
    case BadSentinel(rest) => Entries(data, rest, false)
    case Count(n, rest) => ReadEntries(kc, vc, rest, n, if erase then map[] else data, newK, newV)
  }

  ghost predicate ValidEntries<K, V>(kc: Codec<K>, vc: Codec<V>, m: map<K, V>, keys: seq<K>) {
    forall k | k in keys :: k in m && kc.valid(k) && vc.valid(m[k])
  }

  /**
   * What reading the entries of `m` leaves: each key merged into a fresh one,
   * and its value merged into the slot of the key that results.
   */
  function Laid<K(==), V>(
    mk: (K, K) -> K, mv: (V, V) -> V, newK: K, newV: V, data: map<K, V>, m: map<K, V>, keys: seq<K>): map<K, V>
    requires forall k | k in keys :: k in m
    decreases |keys|
  {
    if keys == [] then data else
      var k := mk(newK, keys[0]);
      Laid(mk, mv, newK, newV, data[k := mv(SlotOf(data, k, newV), m[keys[0]])], m, keys[1..])
  }

  /** What the slot of `k` holds when it is read into: a new one holds the default value. */
  function SlotOf<K(==), V>(data: map<K, V>, k: K, newV: V): V {
    if k in data then data[k] else newV
  }

  lemma {:induction false} EntriesRoundTrip<K(!new), V(!new)>(
    kc: Codec<K>, vc: Codec<V>, mk: (K, K) -> K, mv: (V, V) -> V,
    m: map<K, V>, keys: seq<K>, data: map<K, V>, newK: K, newV: V, tail: seq<byte>)
    requires Undoes(kc, mk) && Undoes(vc, mv) && ValidEntries(kc, vc, m, keys)
    ensures ReadEntries(kc, vc, WriteEntries(kc, vc, m, keys) + tail, |keys|, data, newK, newV)
      == Entries(Laid(mk, mv, newK, newV, data, m, keys), tail, true)
  {
    if keys == [] {
      assert WriteEntries(kc, vc, m, keys) + tail == tail;
    } else {
      var k, v, later := keys[0], m[keys[0]], WriteEntries(kc, vc, m, keys[1..]);
      var k' := mk(newK, k);
      Associative(kc.write(k), vc.write(v) + later, tail);
      Associative(vc.write(v), later, tail);
      assert kc.read(kc.write(k) + (vc.write(v) + (later + tail)), newK) == Done(k', vc.write(v) + (later + tail));
      var slot := SlotOf(data, k', newV);
      assert vc.read(vc.write(v) + (later + tail), slot) == Done(mv(slot, v), later + tail);
      EntriesRoundTrip(kc, vc, mk, mv, m, keys[1..], data[k' := mv(slot, v)], newK, newV, tail);
    }
  }

  /** Reading a written map merges its entries in, and leaves exactly the trailing bytes. */
  lemma MapRoundTrip<K(!new), V(!new)>(
    kc: Codec<K>, vc: Codec<V>, mk: (K, K) -> K, mv: (V, V) -> V,
    m: map<K, V>, keys: seq<K>, data: map<K, V>, erase: bool, newK: K, newV: V, tail: seq<byte>)
    requires Undoes(kc, mk) && Undoes(vc, mv) && ValidEntries(kc, vc, m, keys) && |keys| < Pow256(SIZE_T)
    ensures ReadMapOf(kc, vc, WriteMapOf(kc, vc, m, keys) + tail, data, erase, newK, newV)
      == Entries(Laid(mk, mv, newK, newV, if erase then map[] else data, m, keys), tail, true)
  {
    SentinelsFit();
    Associative(Header(MAP_SENTINEL, |keys|), WriteEntries(kc, vc, m, keys), tail);
    HeaderReads(MAP_SENTINEL, |keys|, WriteEntries(kc, vc, m, keys) + tail);
    EntriesRoundTrip(kc, vc, mk, mv, m, keys, if erase then map[] else data, newK, newV, tail);
  }

  /** No two keys of `keys` are read as the same key. */
  ghost predicate Apart<K>(mk: (K, K) -> K, newK: K, keys: seq<K>) {
    forall i, j | 0 <= i < j < |keys| :: mk(newK, keys[i]) != mk(newK, keys[j])
  }

  /** `r` is `data` with every entry of `m` merged into the slot its key is read as. */
  ghost predicate LaidOver<K, V>(r: map<K, V>, mk: (K, K) -> K, mv: (V, V) -> V, newK: K, newV: V,
    data: map<K, V>, m: map<K, V>, keys: seq<K>)
    requires forall k | k in keys :: k in m
  {
    && (forall k | k in keys :: mk(newK, k) in r &&
          r[mk(newK, k)] == mv(if mk(newK, k) in data then data[mk(newK, k)] else newV, m[k]))
    && (forall x | x in r :: x in data || exists k :: k in keys && x == mk(newK, k))
    && (forall x | x in data && forall k | k in keys :: x != mk(newK, k) :: x in r && r[x] == data[x])
  }

  lemma {:induction false} LaidApart<K, V>(mk: (K, K) -> K, mv: (V, V) -> V, newK: K, newV: V,
    data: map<K, V>, m: map<K, V>, keys: seq<K>)
    requires (forall k | k in keys :: k in m) && Apart(mk, newK, keys)
    ensures LaidOver(Laid(mk, mv, newK, newV, data, m, keys), mk, mv, newK, newV, data, m, keys)
    decreases |keys|
  {
    if keys != [] {
      var k := mk(newK, keys[0]);
      var data' := data[k := mv(SlotOf(data, k, newV), m[keys[0]])];
      var r := Laid(mk, mv, newK, newV, data', m, keys[1..]);
      LaidApart(mk, mv, newK, newV, data', m, keys[1..]);
      assert forall j | 0 < j < |keys| :: mk(newK, keys[j]) != k;
      assert forall x | x in keys[1..] :: mk(newK, x) != k;
      assert forall x :: x in keys <==> x == keys[0] || x in keys[1..];
    }
  }

  lemma OverwrittenIs<K, V>(r: map<K, V>, newK: K, newV: V, data: map<K, V>, m: map<K, V>, keys: seq<K>)
    requires Enumerates(m, keys) && LaidOver(r, Overwrite, Overwrite, newK, newV, data, m, keys)
    ensures r == data + m
  {
    assert forall k | k in keys :: Overwrite(newK, k) == k;
  }

  lemma LaidOverwrites<K, V>(m: map<K, V>, keys: seq<K>, data: map<K, V>, newK: K, newV: V)
    requires Enumerates(m, keys)
    ensures (forall k | k in keys :: k in m) && Laid(Overwrite, Overwrite, newK, newV, data, m, keys) == data + m
  {
    LaidApart(Overwrite, Overwrite, newK, newV, data, m, keys);
    OverwrittenIs(Laid(Overwrite, Overwrite, newK, newV, data, m, keys), newK, newV, data, m, keys);
  }

  /** Keys and values that overwrite: the map itself, or laid over what was there. */
  lemma MapRestores<K(!new), V(!new)>(
    kc: Codec<K>, vc: Codec<V>, m: map<K, V>, keys: seq<K>, data: map<K, V>, erase: bool, newK: K, newV: V,
    tail: seq<byte>)
    requires Undoes(kc, Overwrite) && Undoes(vc, Overwrite)
    requires Enumerates(m, keys) && ValidEntries(kc, vc, m, keys) && |keys| < Pow256(SIZE_T)
    ensures ReadMapOf(kc, vc, WriteMapOf(kc, vc, m, keys) + tail, data, erase, newK, newV)
      == Entries(if erase then m else data + m, tail, true)
  {
    hide ReadMapOf, WriteMapOf, Laid, Enumerates, ValidEntries, Undoes, NeedsAll;
    var start := if erase then map[] else data;
    LaidOverwrites(m, keys, start, newK, newV);
    MapRoundTrip(kc, vc, Overwrite, Overwrite, m, keys, data, erase, newK, newV, tail);
    assert map[] + m == m;
  }

  // ---------------------------------------------------------------- maps with string keys

  /** A key read into a fresh string: the empty one stays empty, any other gains a NUL. */
  function KeyRead(k: seq<byte>): seq<byte> {
    MergeString([], k)
  }

  lemma KeysReadApart(a: seq<byte>, b: seq<byte>)
    requires a != b
    ensures KeyRead(a) != KeyRead(b)
  {
    assert forall k: seq<byte> | k != [] :: KeyRead(k)[..|k|] == k;
  }

  lemma KeysApart(keys: seq<seq<byte>>)
    requires forall i, j | 0 <= i < j < |keys| :: keys[i] != keys[j]
    ensures Apart(MergeString, [], keys)
  {
    forall i, j | 0 <= i < j < |keys|
      ensures KeyRead(keys[i]) != KeyRead(keys[j])
    {
      KeysReadApart(keys[i], keys[j]);
    }
  }

  lemma {:induction false} LongestKey(keys: seq<seq<byte>>) returns (longest: nat)
    requires keys != []
    ensures longest < |keys| && forall k | k in keys :: |k| <= |keys[longest]|
  {
    longest := 0;
    if |keys| > 1 {
      var rest := LongestKey(keys[1..]);
      if |keys[rest + 1]| > |keys[0]| {
        longest := rest + 1;
      }
      assert forall k | k in keys :: k == keys[0] || k in keys[1..];
    }
  }

  /** A longest key cannot be some key with a NUL added. */
  lemma NonEmptyKeyMoves<V>(r: map<seq<byte>, V>, m: map<seq<byte>, V>, keys: seq<seq<byte>>, k: seq<byte>)
    requires Enumerates(m, keys) && (forall k | k in m :: KeyRead(k) in r)
    requires k in m && k != []
    ensures r != m
  {
    var at := LongestKey(keys);
    var longest := keys[at];
    assert KeyRead(longest) in r && |KeyRead(longest)| > |longest|;
  }

  /**
   * Every map with string keys, whatever its values: what it comes back as,
   * and that it comes back as written exactly when it is empty or has the
   * empty key alone, with a value that survives being read into a new slot.
   */
  lemma StringMapRestores<V(!new)>(
    vc: Codec<V>, mv: (V, V) -> V, m: map<seq<byte>, V>, keys: seq<seq<byte>>, data: map<seq<byte>, V>, erase: bool,
    newV: V, tail: seq<byte>)
    requires Undoes(vc, mv) && Enumerates(m, keys) && ValidEntries(String(), vc, m, keys) && |keys| < Pow256(SIZE_T)
    ensures var r := ReadMapOf(String(), vc, WriteMapOf(String(), vc, m, keys) + tail, data, erase, [], newV);
      && r.good && r.rest == tail
      && LaidOver(r.data, MergeString, mv, [], newV, if erase then map[] else data, m, keys)
      && (erase ==> (r.data == m <==> forall k | k in m :: k == [] && mv(newV, m[k]) == m[k]))
  {
    hide ReadMapOf, WriteMapOf, Laid;
    var start := if erase then map[] else data;
    StringUndoes();
    MapRoundTrip(String(), vc, MergeString, mv, m, keys, data, erase, [], newV, tail);
    KeysApart(keys);
    LaidApart(MergeString, mv, [], newV, start, m, keys);
    if erase {
      StringMapSame(Laid(MergeString, mv, [], newV, map[], m, keys), mv, newV, m, keys);
    }
  }

  lemma StringMapSame<V>(r: map<seq<byte>, V>, mv: (V, V) -> V, newV: V, m: map<seq<byte>, V>, keys: seq<seq<byte>>)
    requires Enumerates(m, keys) && LaidOver(r, MergeString, mv, [], newV, map[], m, keys)
    ensures r == m <==> forall k | k in m :: k == [] && mv(newV, m[k]) == m[k]
  {
    StringKeysLaid(r, mv, newV, m, keys);
    hide LaidOver, Enumerates, KeyRead;
    if k :| k in m && k != [] {
      NonEmptyKeyMoves(r, m, keys, k);
    } else {
      EmptyKeyStays(r, mv, newV, m);
    }
  }

  lemma StringKeysLaid<V>(r: map<seq<byte>, V>, mv: (V, V) -> V, newV: V, m: map<seq<byte>, V>, keys: seq<seq<byte>>)
    requires Enumerates(m, keys) && LaidOver(r, MergeString, mv, [], newV, map[], m, keys)
    ensures forall k | k in m :: KeyRead(k) in r && r[KeyRead(k)] == mv(newV, m[k])
    ensures forall x | x in r :: exists k :: k in m && x == KeyRead(k)
  {
    forall x | x in r
      ensures exists k :: k in m && x == KeyRead(k)
    {
      var k :| k in keys && x == MergeString([], k);
      assert k in m && x == KeyRead(k);
    }
  }

  lemma EmptyKeyStays<V>(r: map<seq<byte>, V>, mv: (V, V) -> V, newV: V, m: map<seq<byte>, V>)
    requires forall k | k in m :: k == []
    requires forall k | k in m :: KeyRead(k) in r && r[KeyRead(k)] == mv(newV, m[k])
    requires forall x | x in r :: exists k :: k in m && x == KeyRead(k)
    ensures r == m <==> forall k | k in m :: mv(newV, m[k]) == m[k]
  {
    assert forall k | k in m :: KeyRead(k) == k;
    assert r.Keys == m.Keys;
  }

  // ---------------------------------------------------------------- truncated maps

  lemma {:induction false} EntriesNeedAll<K(!new), V(!new)>(
    kc: Codec<K>, vc: Codec<V>, mk: (K, K) -> K, mv: (V, V) -> V,
    m: map<K, V>, keys: seq<K>, data: map<K, V>, newK: K, newV: V, n: nat)
    requires Undoes(kc, mk) && Undoes(vc, mv) && NeedsAll(kc) && NeedsAll(vc)
    requires ValidEntries(kc, vc, m, keys) && n < |WriteEntries(kc, vc, m, keys)|
    ensures !ReadEntries(kc, vc, WriteEntries(kc, vc, m, keys)[..n], |keys|, data, newK, newV).good
  {
    var k := keys[0];
    var k' := mk(newK, k);
    var kb, vb, later := kc.write(k), vc.write(m[k]), WriteEntries(kc, vc, m, keys[1..]);
    var bs := kb + (vb + later);
    var slot := SlotOf(data, k', newV);
    if n < |kb| {
      assert bs[..n] == kb[..n];
    } else if n < |kb| + |vb| {
      assert bs[..n] == kb + vb[..n - |kb|];
      assert kc.read(kb + vb[..n - |kb|], newK) == Done(k', vb[..n - |kb|]);
    } else {
      var part := later[..n - |kb| - |vb|];
      assert bs[..n] == kb + (vb + part);
      assert kc.read(kb + (vb + part), newK) == Done(k', vb + part);
      assert vc.read(vb + part, slot) == Done(mv(slot, m[k]), part);
      EntriesNeedAll(kc, vc, mk, mv, m, keys[1..], data[k' := mv(slot, m[k])], newK, newV, n - |kb| - |vb|);
    }
  }

  /** Every strict prefix of a written map leaves the stream failed. */
  lemma MapNeedsAll<K(!new), V(!new)>(
    kc: Codec<K>, vc: Codec<V>, mk: (K, K) -> K, mv: (V, V) -> V,
    m: map<K, V>, keys: seq<K>, data: map<K, V>, erase: bool, newK: K, newV: V, n: nat)
    requires Undoes(kc, mk) && Undoes(vc, mv) && NeedsAll(kc) && NeedsAll(vc)
    requires ValidEntries(kc, vc, m, keys) && |keys| < Pow256(SIZE_T)
    requires n < |WriteMapOf(kc, vc, m, keys)|
    ensures !ReadMapOf(kc, vc, WriteMapOf(kc, vc, m, keys)[..n], data, erase, newK, newV).good
  {
    var h := Header(MAP_SENTINEL, |keys|);
    SentinelsFit();
    if n < |h| {
      assert WriteMapOf(kc, vc, m, keys)[..n] == h[..n];
      HeaderNeedsAll(MAP_SENTINEL, |keys|, n);
    } else {
      var part := WriteEntries(kc, vc, m, keys)[..n - |h|];
      assert WriteMapOf(kc, vc, m, keys)[..n] == h + part;
      HeaderReads(MAP_SENTINEL, |keys|, part);
      EntriesNeedAll(kc, vc, mk, mv, m, keys, if erase then map[] else data, newK, newV, n - |h|);
    }
  }
}
