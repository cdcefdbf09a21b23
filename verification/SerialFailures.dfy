/**
 * Streams that do not hold what is asked of them (h/ser/SerUtils.h): which
 * bytes are refused, and what is left behind when a written vector or map
 * breaks off.
 */
module SerialFailures {
  import opened ByteCodecs
  import opened Collections
  import opened Serialization

  // ---------------------------------------------------------------- bytes

  /** Bytes further on weigh 256 times as much each: the image is little-endian. */
  lemma {:induction false} ValueJoins(a: seq<byte>, b: seq<byte>)
    ensures Value(a + b) == Value(a) + Pow256(|a|) * Value(b)
  {
    if a == [] {
      assert a + b == b;
    } else {
      ValueJoins(a[1..], b);
      assert (a + b)[1..] == a[1..] + b;
      Distributes(Value(a[1..]), Pow256(|a| - 1), Value(b));
    }
  }

  lemma Distributes(x: nat, p: nat, y: nat)
    ensures 256 * (x + p * y) == 256 * x + 256 * p * y
  {
  }

  lemma {:induction false} ValueRoundTrip(bs: seq<byte>)
    ensures Bytes(Value(bs), |bs|) == bs
  {
    if bs != [] {
      ValueRoundTrip(bs[1..]);
      assert Value(bs) % 256 == bs[0] && Value(bs) / 256 == Value(bs[1..]);
    }
  }

  // ---------------------------------------------------------------- sentinels

  const VECTOR_START: seq<byte> := [0x00, 0x01, 0xBE, 0xBE]
  const MAP_START: seq<byte> := [0x00, 0x02, 0xBE, 0xBE]

  /** Four bytes spell a sentinel only if they are those it is written as. */
  lemma SpellsSentinel(bs: seq<byte>, sentinel: nat)
    requires |bs| == INT && sentinel < Pow256(INT)
    ensures Value(bs) == sentinel <==> bs == Bytes(sentinel, INT)
  {
    ValueRoundTrip(bs);
    BytesRoundTrip(sentinel, INT);
  }

  /** Bytes that do not start as a vector does fail the stream and leave the vector read into as it was. */
  lemma VectorRefused<T>(c: Codec<T>, bs: seq<byte>, data: seq<T>, erase: bool, default: T)
    requires !(VECTOR_START <= bs)
    ensures ReadVectorOf(c, bs, data, erase, default) == Items(data, if |bs| < 4 then [] else bs[4..], false)
  {
    if |bs| >= INT {
      SentinelsFit();
      SpellsSentinel(bs[..INT], VECTOR_SENTINEL);
    }
  }

  lemma MapRefused<K, V>(
    kc: Codec<K>, vc: Codec<V>, bs: seq<byte>, data: map<K, V>, erase: bool, newK: K, newV: V)
    requires !(MAP_START <= bs)
    ensures ReadMapOf(kc, vc, bs, data, erase, newK, newV) == Entries(data, if |bs| < 4 then [] else bs[4..], false)
  {
    if |bs| >= INT {
      SentinelsFit();
      SpellsSentinel(bs[..INT], MAP_SENTINEL);
    }
  }

  /** No written map is read as a vector, whatever its entries and whatever follows. */
  lemma MapIsNoVector<K, V, T>(kc: Codec<K>, vc: Codec<V>, m: map<K, V>, keys: seq<K>, tail: seq<byte>,
    c: Codec<T>, data: seq<T>, erase: bool, default: T)
    requires forall k | k in keys :: k in m
    ensures var r := ReadVectorOf(c, WriteMapOf(kc, vc, m, keys) + tail, data, erase, default);
      !r.good && r.values == data
  {
    var bs := WriteMapOf(kc, vc, m, keys) + tail;
    assert bs[1] == MAP_START[1];
    VectorRefused(c, bs, data, erase, default);
  }

  /** No written vector is read as a map. */
  lemma VectorIsNoMap<T, K, V>(c: Codec<T>, xs: seq<T>, tail: seq<byte>,
    kc: Codec<K>, vc: Codec<V>, data: map<K, V>, erase: bool, newK: K, newV: V)
    ensures var r := ReadMapOf(kc, vc, WriteVectorOf(c, xs) + tail, data, erase, newK, newV);
      !r.good && r.data == data
  {
    var bs := WriteVectorOf(c, xs) + tail;
    assert bs[1] == VECTOR_START[1];
    MapRefused(kc, vc, bs, data, erase, newK, newV);
  }

  // ---------------------------------------------------------------- broken off

  /** The bytes of a written vector up to part of its element `i`. */
  function VectorUpTo<T>(c: Codec<T>, xs: seq<T>, i: nat, k: nat): seq<byte>
    requires i < |xs| && k < |c.write(xs[i])|
  {
    Header(VECTOR_SENTINEL, |xs|) + (WriteItems(c, xs[..i]) + c.write(xs[i])[..k])
  }

  lemma {:induction false} ItemsBreakOff<T(!new)>(
    c: Codec<T>, merge: (T, T) -> T, xs: seq<T>, targets: seq<T>, i: nat, k: nat)
    requires Undoes(c, merge) && NeedsAll(c) && AllValid(c, xs) && |targets| == |xs|
    requires i < |xs| && k < |c.write(xs[i])|
    ensures var r := ReadItems(c, WriteItems(c, xs[..i]) + c.write(xs[i])[..k], targets);
      && !r.good && r.rest == []
      && r.values[..i] == Merged(merge, targets[..i], xs[..i]) && r.values[i + 1..] == targets[i + 1..]
  {
    var part := c.write(xs[i])[..k];
    if i == 0 {
      assert WriteItems(c, xs[..0]) + part == part;
      assert c.read(part, targets[0]).Short?;
    } else {
      var first, later := c.write(xs[0]), WriteItems(c, xs[1..][..i - 1]);
      assert xs[..i][1..] == xs[1..][..i - 1] && targets[..i][1..] == targets[1..][..i - 1];
      assert WriteItems(c, xs[..i]) + part == first + (later + part);
      assert c.read(first + (later + part), targets[0]) == Done(merge(targets[0], xs[0]), later + part);
      ItemsBreakOff(c, merge, xs[1..], targets[1..], i - 1, k);
      var r := ReadItems(c, later + part, targets[1..]);
      assert ([merge(targets[0], xs[0])] + r.values)[..i] == [merge(targets[0], xs[0])] + r.values[..i - 1];
      assert ([merge(targets[0], xs[0])] + r.values)[i + 1..] == r.values[i..];
    }
  }

  /**
   * A written vector that breaks off inside its element `i` fails the stream;
   * the elements before it have been read, and the slots behind it keep what
   * they held.
   */
  lemma VectorBreaksOff<T(!new)>(
    c: Codec<T>, merge: (T, T) -> T, xs: seq<T>, data: seq<T>, erase: bool, default: T, i: nat, k: nat)
    requires Undoes(c, merge) && NeedsAll(c) && AllValid(c, xs) && |xs| < Pow256(SIZE_T)
    requires i < |xs| && k < |c.write(xs[i])|
    ensures var r, targets := ReadVectorOf(c, VectorUpTo(c, xs, i, k), data, erase, default),
                              Targets(data, erase, |xs|, default);
      var old_ := if erase then [] else data;
      && !r.good && r.rest == [] && |r.values| == |old_| + |xs|
      && r.values[..|old_| + i] == old_ + Merged(merge, targets[..i], xs[..i])
      && r.values[|old_| + i + 1..] == targets[i + 1..]
  {
    hide Merged, Header;
    SentinelsFit();
    HeaderReads(VECTOR_SENTINEL, |xs|, WriteItems(c, xs[..i]) + c.write(xs[i])[..k]);
    ResizedSplits(data, erase, |xs|, default);
    ItemsBreakOff(c, merge, xs, Targets(data, erase, |xs|, default), i, k);
  }

  /** The bytes of a written map up to part of its entry `i`. */
  function MapUpTo<K, V>(kc: Codec<K>, vc: Codec<V>, m: map<K, V>, keys: seq<K>, i: nat, part: seq<byte>): seq<byte>
    requires (forall k | k in keys :: k in m) && i < |keys|
  {
    Header(MAP_SENTINEL, |keys|) + (WriteEntries(kc, vc, m, keys[..i]) + part)
  }

  lemma {:induction false} EntriesGoOn<K(!new), V(!new)>(
    kc: Codec<K>, vc: Codec<V>, mk: (K, K) -> K, mv: (V, V) -> V,
    m: map<K, V>, keys: seq<K>, data: map<K, V>, newK: K, newV: V, i: nat, part: seq<byte>)
    requires Undoes(kc, mk) && Undoes(vc, mv) && ValidEntries(kc, vc, m, keys) && i <= |keys|
    ensures ReadEntries(kc, vc, WriteEntries(kc, vc, m, keys[..i]) + part, |keys|, data, newK, newV)
      == ReadEntries(kc, vc, part, |keys| - i, Laid(mk, mv, newK, newV, data, m, keys[..i]), newK, newV)
  {
    if i == 0 {
      assert WriteEntries(kc, vc, m, keys[..0]) + part == part;
    } else {
      var k, v, later := keys[0], m[keys[0]], WriteEntries(kc, vc, m, keys[1..][..i - 1]);
      var k' := mk(newK, k);
      var slot := SlotOf(data, k', newV);
      assert keys[..i][1..] == keys[1..][..i - 1];
      Associative(kc.write(k), vc.write(v) + later, part);
      Associative(vc.write(v), later, part);
      assert kc.read(kc.write(k) + (vc.write(v) + (later + part)), newK) == Done(k', vc.write(v) + (later + part));
      assert vc.read(vc.write(v) + (later + part), slot) == Done(mv(slot, v), later + part);
      EntriesGoOn(kc, vc, mk, mv, m, keys[1..], data[k' := mv(slot, v)], newK, newV, i - 1, part);
    }
  }

  /**
   * A written map that breaks off inside its entry `i` fails the stream, with
   * the entries before it read.  Inside the key nothing else has happened;
   * inside the value its slot has sprung into being or been written over, and
   * no other slot has changed.
   */
  lemma MapBreaksOff<K(!new), V(!new)>(
    kc: Codec<K>, vc: Codec<V>, mk: (K, K) -> K, mv: (V, V) -> V,
    m: map<K, V>, keys: seq<K>, data: map<K, V>, erase: bool, newK: K, newV: V, i: nat, n: nat)
    requires Undoes(kc, mk) && Undoes(vc, mv) && NeedsAll(kc) && NeedsAll(vc)
    requires ValidEntries(kc, vc, m, keys) && |keys| < Pow256(SIZE_T) && i < |keys|
    requires n < |kc.write(keys[i]) + vc.write(m[keys[i]])|
    ensures var part := (kc.write(keys[i]) + vc.write(m[keys[i]]))[..n];
      var r := ReadMapOf(kc, vc, MapUpTo(kc, vc, m, keys, i, part), data, erase, newK, newV);
      var laid := Laid(mk, mv, newK, newV, if erase then map[] else data, m, keys[..i]);
      && !r.good && r.rest == []
      && if n < |kc.write(keys[i])| then r.data == laid
         else mk(newK, keys[i]) in r.data && r.data == laid[mk(newK, keys[i]) := r.data[mk(newK, keys[i])]]
  {
    hide Laid, Header, SlotOf;
    var kb, vb := kc.write(keys[i]), vc.write(m[keys[i]]);
    var part := (kb + vb)[..n];
    SentinelsFit();
    HeaderReads(MAP_SENTINEL, |keys|, WriteEntries(kc, vc, m, keys[..i]) + part);
    var start := if erase then map[] else data;
    EntriesGoOn(kc, vc, mk, mv, m, keys, start, newK, newV, i, part);
    if n < |kb| {
      assert part == kb[..n] && kc.read(part, newK).Short?;
    } else {
      var k' := mk(newK, keys[i]);
      assert part == kb + vb[..n - |kb|] && kc.read(part, newK) == Done(k', vb[..n - |kb|]);
      var slot := SlotOf(Laid(mk, mv, newK, newV, start, m, keys[..i]), k', newV);
      assert vc.read(vb[..n - |kb|], slot).Short?;
    }
  }

  // ---------------------------------------------------------------- partial elements

  /** A native value cut short takes the place of the first bytes of its target. */
  lemma NativeCut(width: nat, bs: seq<byte>, target: nat)
    requires |bs| < width && target < Pow256(width)
    ensures var r := ReadNative(width, bs, target);
      r.Short? && Bytes(r.value, width)[..|bs|] == bs && Bytes(r.value, width)[|bs|..] == Bytes(target, width)[|bs|..]
  {
    var mixed := bs + Bytes(target, width)[|bs|..];
    ValueRoundTrip(mixed);
  }

  /**
   * A string cut short has its full length and a NUL already; what has come is
   * in place, behind it the old contents, and NULs where there were none.
   */
  lemma StringCut(s: seq<byte>, target: seq<byte>, n: nat)
    requires |s| < Pow256(SIZE_T) && n < |s|
    ensures var r := ReadString(WriteString(s)[..SIZE_T + n], target);
      && r.Short? && |r.value| == |s| + 1 && r.value[..n] == s[..n]
      && forall i | n <= i <= |s| :: r.value[i] == if i < |target| then target[i] else 0
  {
    BytesRoundTrip(|s|, SIZE_T);
    hide Bytes, Value, Pow256;
    var head, all := Bytes(|s|, SIZE_T), WriteString(s);
    Cut(head, s, []);
    assert all[..SIZE_T + n] == head + s[..n];
    Cut(head, s[..n], []);
  }
}
