/**
 * The stream functions of h/ser/SerUtils.h as they run: byte streams, vectors
 * and maps changed in place, and the size counters.
 */
module SerialStreams {
  import opened ByteCodecs
  import opened Collections
  import opened Serialization

  datatype Written = Written(bytes: seq<byte>, room: nat, good: bool)

  /**
   * Putting `encoding` on a stream: all of it if it fits, else a failed stream
   * and a part of it; nothing on a stream that had failed.
   */
  ghost predicate Puts(s: Written, encoding: seq<byte>, s': Written) {
    && s'.good == (s.good && |encoding| <= s.room)
    && (s'.good ==> s'.bytes == s.bytes + encoding && s'.room == s.room - |encoding|)
    && (!s.good ==> s'.bytes == s.bytes)
    && exists n: nat :: n <= |encoding| && s'.bytes == s.bytes + encoding[..n]
  }

  lemma PutsFailed(s: Written, encoding: seq<byte>)
    requires !s.good
    ensures Puts(s, encoding, s)
  {
    assert s.bytes == s.bytes + encoding[..0];
  }

  lemma PutsMore(s: Written, a: seq<byte>, s1: Written, b: seq<byte>, s2: Written)
    requires Puts(s, a, s1) && s1.good && Puts(s1, b, s2)
    ensures Puts(s, a + b, s2)
  {
    var n: nat :| n <= |b| && s2.bytes == s1.bytes + b[..n];
    assert s2.bytes == s.bytes + (a + b)[..|a| + n];
    assert s2.good ==> s2.bytes == s.bytes + (a + b);
  }

  lemma PutsStopped(s: Written, a: seq<byte>, s1: Written, b: seq<byte>)
    requires Puts(s, a, s1) && !s1.good
    ensures Puts(s, a + b, s1)
  {
    var n: nat :| n <= |a| && s1.bytes == s.bytes + a[..n];
    assert s1.bytes == s.bytes + (a + b)[..n];
  }

  /** An output stream with room for so many more bytes; a write that does not fit fails it. */
  class OutStream {
    var bytes: seq<byte>
    var room: nat
    var good: bool

    constructor (room: nat)
      ensures State() == Written([], room, true)
    {
      bytes, this.room, good := [], room, true;
    }

    function State(): Written
      reads this
    {
      Written(bytes, room, good)
    }

    method Write(bs: seq<byte>)
      modifies this
      ensures Puts(old(State()), bs, State())
    {
      assert bytes == bytes + bs[..0];
      assert bytes + bs == bytes + bs[..|bs|];
      if good && |bs| <= room {
        bytes := bytes + bs;
        room := room - |bs|;
      } else {
        good := false;
      }
    }
  }

  class InStream {
    var rest: seq<byte>
    var good: bool

    constructor (bs: seq<byte>)
      ensures rest == bs && good
    {
      rest, good := bs, true;
    }

    /** `n` bytes, or a failed and exhausted stream. */
    method Read(n: nat) returns (bs: seq<byte>)
      requires good
      modifies this
      ensures good == (n <= |old(rest)|)
      ensures good ==> bs == old(rest)[..n] && rest == old(rest)[n..]
      ensures !good ==> rest == []
    {
      if n <= |rest| {
        bs := rest[..n];
        rest := rest[n..];
      } else {
        bs := rest;
        rest, good := [], false;
      }
    }

    /** An inputter: read one element over `target`. */
    method Element<T>(c: Codec<T>, target: T) returns (value: T)
      requires good
      modifies this
      ensures match c.read(old(rest), target)
        case Done(v, r) => value == v && rest == r && good
        case Short(v) => value == v && rest == [] && !good
    {
      match c.read(rest, target)
      case Done(v, r) => { value, rest := v, r; }
      case Short(v) => { value, rest, good := v, [], false; }
    }
  }

  class Vector<T> {
    var items: seq<T>

    constructor (items: seq<T>)
      ensures this.items == items
    {
      this.items := items;
    }
  }

  class Map<K(==), V> {
    var items: map<K, V>

    constructor (items: map<K, V>)
      ensures this.items == items
    {
      this.items := items;
    }
  }

  lemma ItemsSnoc<T>(c: Codec<T>, xs: seq<T>, i: nat)
    requires i < |xs|
    ensures WriteItems(c, xs[..i + 1]) == WriteItems(c, xs[..i]) + c.write(xs[i])
    ensures WriteItems(c, xs) == WriteItems(c, xs[..i]) + WriteItems(c, xs[i..])
    decreases i
  {
    if i == 0 {
      assert xs[..1] == [xs[0]] && xs[0..] == xs;
    } else {
      ItemsSnoc(c, xs[1..], i - 1);
      assert xs[1..][..i] == xs[1..i + 1] == xs[..i + 1][1..];
      assert xs[1..][..i - 1] == xs[..i][1..];
      assert xs[1..][i - 1..] == xs[i..];
      assert xs[1..][i - 1] == xs[i];
    }
  }

  /** The sentinel and the count, the second only if the first went well. */
  method WriteHeader(out: OutStream, sentinel: nat, n: nat)
    requires out.good
    modifies out
    ensures Puts(old(out.State()), Header(sentinel, n), out.State())
  {
    WritePair(out, Bytes(sentinel, INT), Bytes(n, SIZE_T));
  }

  /** Two writes, the second only if the first went well. */
  method WritePair(out: OutStream, a: seq<byte>, b: seq<byte>)
    requires out.good
    modifies out
    ensures Puts(old(out.State()), a + b, out.State())
  {
    out.Write(a);
    ghost var middle := out.State();
    if !out.good {
      PutsStopped(old(out.State()), a, middle, b);
      return;
    }
    out.Write(b);
    PutsMore(old(out.State()), a, middle, b, out.State());
  }

  method WriteVector<T>(out: OutStream, data: seq<T>, c: Codec<T>)
    modifies out
    ensures Puts(old(out.State()), WriteVectorOf(c, data), out.State())
  {
    if !out.good {
      PutsFailed(out.State(), WriteVectorOf(c, data));
      return;
    }
    ghost var h := Header(VECTOR_SENTINEL, |data|);
    WriteHeader(out, VECTOR_SENTINEL, |data|);
    if !out.good {
      PutsStopped(old(out.State()), h, out.State(), WriteItems(c, data));
      return;
    }
    var i := 0;
    assert h + [] == h;
    while i < |data|
      invariant 0 <= i <= |data| && out.good
      invariant Puts(old(out.State()), h + WriteItems(c, data[..i]), out.State())
    {
      ghost var before := out.State();
      ghost var sofar, bs := WriteItems(c, data[..i]), c.write(data[i]);
      ItemsSnoc(c, data, i);
      out.Write(c.write(data[i]));
      PutsMore(old(out.State()), h + sofar, before, bs, out.State());
      Associative(h, sofar, bs);
      if !out.good {
        ghost var later := WriteItems(c, data[i + 1..]);
        PutsStopped(old(out.State()), h + (sofar + bs), out.State(), later);
        ItemsSplit(c, data, i, h);
        return;
      }
      i := i + 1;
    }
    assert data[..|data|] == data;
  }

  lemma ItemsSplit<T>(c: Codec<T>, xs: seq<T>, i: nat, h: seq<byte>)
    requires i < |xs|
    ensures (h + (WriteItems(c, xs[..i]) + c.write(xs[i]))) + WriteItems(c, xs[i + 1..]) == h + WriteItems(c, xs)
  {
    ItemsSnoc(c, xs, i);
    assert xs[i..][1..] == xs[i + 1..];
    Associative(h, WriteItems(c, xs[..i]) + c.write(xs[i]), WriteItems(c, xs[i + 1..]));
    Associative(WriteItems(c, xs[..i]), c.write(xs[i]), WriteItems(c, xs[i + 1..]));
  }

  /** Reading the last `|targets| - i` items continues reading the first `i`. */
  lemma ReadContinues<T>(c: Codec<T>, bs: seq<byte>, targets: seq<T>)
    requires targets != []
    ensures var r := ReadItems(c, bs, targets);
      match c.read(bs, targets[0])
      case Short(v) => r == Items([v] + targets[1..], [], false)
      case Done(v, rest) => var t := ReadItems(c, rest, targets[1..]); r == Items([v] + t.values, t.rest, t.good)
  {
  }

  /** readVector's loop: fill `data` from slot `keep` on, stopping when the stream fails. */
  method ReadInto<T>(input: InStream, data: Vector<T>, keep: nat, c: Codec<T>)
    requires input.good && keep <= |data.items|
    modifies input, data
    ensures var r := ReadItems(c, old(input.rest), old(data.items)[keep..]);
      data.items == old(data.items)[..keep] + r.values && input.rest == r.rest && input.good == r.good
  {
    var i := keep;
    ghost var final := ReadItems(c, input.rest, data.items[keep..]);
    while i < |data.items|
      invariant keep <= i <= |data.items| == |old(data.items)| && input.good
      invariant var t := ReadItems(c, input.rest, data.items[i..]);
        && data.items[..i] + t.values == old(data.items)[..keep] + final.values
        && t.rest == final.rest && t.good == final.good
      decreases |data.items| - i
    {
      ghost var before := data.items;
      ReadContinues(c, input.rest, before[i..]);
      var value := input.Element(c, data.items[i]);
      data.items := data.items[i := value];
      SlotRead(before, i, value);
      i := i + 1;
      if !input.good {
        return;
      }
    }
  }

  /** Storing into slot `i` moves one element from the unread part to the read part. */
  lemma SlotRead<T>(before: seq<T>, i: nat, value: T)
    requires i < |before|
    ensures var after := before[i := value];
      && after[i + 1..] == before[i..][1..] && after[..i + 1] == before[..i] + [value]
      && (forall later: seq<T> :: after[..i + 1] + later == before[..i] + ([value] + later))
      && after == before[..i] + ([value] + before[i..][1..])
  {
  }

  method ReadVector<T>(input: InStream, data: Vector<T>, c: Codec<T>, erase: bool, default: T)
    modifies input, data
    ensures if old(input.good)
      then Items(data.items, input.rest, input.good)
        == ReadVectorOf(c, old(input.rest), old(data.items), erase, default)
      else data.items == old(data.items) && input.rest == old(input.rest) && !input.good
  {
    if !input.good { return; }
    ghost var bs := input.rest;
    var sentinel := input.Read(INT);
    if !input.good { return; }
    if Value(sentinel) != VECTOR_SENTINEL {
      input.good := false;
      return;
    }
    var count := input.Read(SIZE_T);
    if !input.good { return; }
    assert count == bs[INT..INT + SIZE_T] && input.rest == bs[INT + SIZE_T..];
    var n := Value(count);
    var keep := if erase then 0 else |data.items|;
    data.items := Resize(data.items, keep + n, default);
    ReadInto(input, data, keep, c);
  }

  lemma EntriesSnoc<K, V>(kc: Codec<K>, vc: Codec<V>, m: map<K, V>, keys: seq<K>, i: nat)
    requires (forall k | k in keys :: k in m) && i < |keys|
    ensures WriteEntries(kc, vc, m, keys[..i + 1])
      == WriteEntries(kc, vc, m, keys[..i]) + (kc.write(keys[i]) + vc.write(m[keys[i]]))
    ensures WriteEntries(kc, vc, m, keys) == WriteEntries(kc, vc, m, keys[..i]) + WriteEntries(kc, vc, m, keys[i..])
    decreases i
  {
    if i == 0 {
      assert keys[..1] == [keys[0]] && keys[0..] == keys;
    } else {
      EntriesSnoc(kc, vc, m, keys[1..], i - 1);
      assert keys[1..][..i] == keys[..i + 1][1..];
      assert keys[1..][..i - 1] == keys[..i][1..];
      assert keys[1..][i - 1..] == keys[i..];
    }
  }

  method WriteMap<K, V>(out: OutStream, data: map<K, V>, keys: seq<K>, kc: Codec<K>, vc: Codec<V>)
    requires forall k | k in keys :: k in data
    modifies out
    ensures Puts(old(out.State()), WriteMapOf(kc, vc, data, keys), out.State())
  {
    if !out.good {
      PutsFailed(out.State(), WriteMapOf(kc, vc, data, keys));
      return;
    }
    ghost var h := Header(MAP_SENTINEL, |keys|);
    WriteHeader(out, MAP_SENTINEL, |keys|);
    if !out.good {
      PutsStopped(old(out.State()), h, out.State(), WriteEntries(kc, vc, data, keys));
      return;
    }
    var i := 0;
    assert h + [] == h;
    while i < |keys|
      invariant 0 <= i <= |keys| && out.good
      invariant Puts(old(out.State()), h + WriteEntries(kc, vc, data, keys[..i]), out.State())
    {
      ghost var before := out.State();
      ghost var sofar, bs := WriteEntries(kc, vc, data, keys[..i]), kc.write(keys[i]) + vc.write(data[keys[i]]);
      EntriesSnoc(kc, vc, data, keys, i);
      WritePair(out, kc.write(keys[i]), vc.write(data[keys[i]]));
      PutsMore(old(out.State()), h + sofar, before, bs, out.State());
      Associative(h, sofar, bs);
      if !out.good {
        PutsStopped(old(out.State()), h + (sofar + bs), out.State(), WriteEntries(kc, vc, data, keys[i + 1..]));
        EntriesSplit(kc, vc, data, keys, i, h);
        return;
      }
      i := i + 1;
    }
    assert keys[..|keys|] == keys;
  }

  lemma EntriesSplit<K, V>(kc: Codec<K>, vc: Codec<V>, m: map<K, V>, keys: seq<K>, i: nat, h: seq<byte>)
    requires (forall k | k in keys :: k in m) && i < |keys|
    ensures (h + (WriteEntries(kc, vc, m, keys[..i]) + (kc.write(keys[i]) + vc.write(m[keys[i]]))))
      + WriteEntries(kc, vc, m, keys[i + 1..]) == h + WriteEntries(kc, vc, m, keys)
  {
    var a, k, v := WriteEntries(kc, vc, m, keys[..i]), kc.write(keys[i]), vc.write(m[keys[i]]);
    var later := WriteEntries(kc, vc, m, keys[i + 1..]);
    EntriesSnoc(kc, vc, m, keys, i);
    assert keys[i..][1..] == keys[i + 1..];
    Associative(h, a + (k + v), later);
    Associative(a, k + v, later);
    Associative(k, v, later);
  }

  method ReadMap<K(==), V>(input: InStream, data: Map<K, V>, kc: Codec<K>, vc: Codec<V>, erase: bool, newK: K, newV: V)
    modifies input, data
    ensures if old(input.good)
      then Entries(data.items, input.rest, input.good)
        == ReadMapOf(kc, vc, old(input.rest), old(data.items), erase, newK, newV)
      else data.items == old(data.items) && input.rest == old(input.rest) && !input.good
  {
    if !input.good { return; }
    ghost var bs := input.rest;
    var sentinel := input.Read(INT);
    if !input.good { return; }
    if Value(sentinel) != MAP_SENTINEL {
      input.good := false;
      return;
    }
    var count := input.Read(SIZE_T);
    if !input.good { return; }
    assert count == bs[INT..INT + SIZE_T] && input.rest == bs[INT + SIZE_T..];
    var n := Value(count);
    if erase {
      data.items := map[];
    }
    ReadPairs(input, data, n, kc, vc, newK, newV);
  }

  /** readMap's loop: `n` keys, each with a value read into its slot, stopping when the stream fails. */
  method ReadPairs<K(==), V>(input: InStream, data: Map<K, V>, n: nat, kc: Codec<K>, vc: Codec<V>, newK: K, newV: V)
    requires input.good
    modifies input, data
    ensures Entries(data.items, input.rest, input.good)
      == ReadEntries(kc, vc, old(input.rest), n, old(data.items), newK, newV)
  {
    ghost var all := ReadEntries(kc, vc, input.rest, n, data.items, newK, newV);
    var i := 0;
    while i < n
      invariant 0 <= i <= n && input.good
      invariant ReadEntries(kc, vc, input.rest, n - i, data.items, newK, newV) == all
      decreases n - i
    {
      hide SlotOf;
      var key := input.Element(kc, newK);
      if !input.good { return; }
      var value := input.Element(vc, SlotOf(data.items, key, newV));
      data.items := data.items[key := value];
      if !input.good { return; }
      i := i + 1;
    }
  }

  // ---------------------------------------------------------------- counters

  /** `counter` gives the bytes written for any valid element. */
  ghost predicate Counts<T(!new)>(counter: T -> nat, c: Codec<T>) {
    forall x | c.valid(x) :: counter(x) == |c.write(x)|
  }

  lemma {:induction false} NativeItemsSize(width: nat, xs: seq<nat>)
    ensures |WriteItems(Native(width), xs)| == |xs| * width
  {
    if xs != [] {
      NativeItemsSize(width, xs[1..]);
    }
  }

  /** getVectorSize for native elements, which are counted at once. */
  method NativeVectorSize(data: seq<nat>, width: nat) returns (size: nat)
    ensures size == |WriteVectorOf(Native(width), data)|
  {
    var total := 0;
    if |data| > 0 {
      total := total + |data| * width;
    }
    NativeItemsSize(width, data);
    size := INT + SIZE_T + total;
  }

  /** The counter of string vectors, one element at a time. */
  method StringsSize(data: seq<seq<byte>>) returns (total: nat)
    ensures total == |WriteItems(String(), data)|
  {
    total := 0;
    var i := 0;
    while i < |data|
      invariant 0 <= i <= |data| && total == |WriteItems(String(), data[..i])|
    {
      ItemsSnoc(String(), data, i);
      total := total + CountString(data[i]);
      i := i + 1;
    }
    assert data[..|data|] == data;
  }

  method StringVectorSize(data: seq<seq<byte>>) returns (size: nat)
    ensures size == |WriteVectorOf(String(), data)|
  {
    var total := 0;
    if |data| > 0 {
      total := StringsSize(data);
    }
    size := INT + SIZE_T + total;
  }

  method GetMapSize<K(!new), V(!new)>(data: map<K, V>, keys: seq<K>, keyCounter: K -> nat, valueCounter: V -> nat,
    ghost kc: Codec<K>, ghost vc: Codec<V>) returns (size: nat)
    requires ValidEntries(kc, vc, data, keys) && Counts(keyCounter, kc) && Counts(valueCounter, vc)
    ensures size == |WriteMapOf(kc, vc, data, keys)|
  {
    var total := 0;
    var i := 0;
    while i < |keys|
      invariant 0 <= i <= |keys| && total == |WriteEntries(kc, vc, data, keys[..i])|
    {
      EntriesSnoc(kc, vc, data, keys, i);
      total := total + keyCounter(keys[i]);
      total := total + valueCounter(data[keys[i]]);
      i := i + 1;
    }
    assert keys[..|keys|] == keys;
    size := INT + SIZE_T + total;
  }

  function CountString(s: seq<byte>): nat {
    SIZE_T + |s|
  }

  /** The size of a map from strings to native values. */
  method NativeMapSize(data: map<seq<byte>, nat>, keys: seq<seq<byte>>, width: nat) returns (size: nat)
    requires ValidEntries(String(), Native(width), data, keys)
    ensures size == |WriteMapOf(String(), Native(width), data, keys)|
  {
    size := GetMapSize(data, keys, CountString, (_: nat) => width, String(), Native(width));
  }

  /** The size of a map from strings to strings. */
  method StringMapSize(data: map<seq<byte>, seq<byte>>, keys: seq<seq<byte>>) returns (size: nat)
    requires ValidEntries(String(), String(), data, keys)
    ensures size == |WriteMapOf(String(), String(), data, keys)|
  {
    size := GetMapSize(data, keys, CountString, CountString, String(), String());
  }
}
