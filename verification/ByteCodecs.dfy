/**
 * The byte images of h/ser: fixed-width little-endian integers, and the
 * element codecs built from the outputters and inputters of
 * h/ser/SerOutputters.h and h/ser/SerInputters.h.
 */
module ByteCodecs {

  type byte = x: int | 0 <= x < 256

  function Pow256(w: nat): nat {
    if w == 0 then 1 else 256 * Pow256(w - 1)
  }

  function Bytes(n: nat, width: nat): (bs: seq<byte>)
    ensures |bs| == width
  {
    if width == 0 then [] else [n % 256] + Bytes(n / 256, width - 1)
  }

  function Value(bs: seq<byte>): nat {
    if bs == [] then 0 else bs[0] + 256 * Value(bs[1..])
  }

  lemma {:induction false} BytesRoundTrip(n: nat, width: nat)
    requires n < Pow256(width)
    ensures Value(Bytes(n, width)) == n
  {
    if width > 0 {
      BytesRoundTrip(n / 256, width - 1);
      assert Bytes(n, width)[1..] == Bytes(n / 256, width - 1);
    }
  }

  lemma Cut<T>(a: seq<T>, b: seq<T>, c: seq<T>)
    ensures (a + b + c)[..|a|] == a && (a + b + c)[|a|..] == b + c
    ensures (a + b)[..|a|] == a && (a + b)[|a|..] == b
  {
  }

  /** What reading one element leaves: its target, and the bytes after it unless the stream failed. */
  datatype Read<T> = Done(value: T, rest: seq<byte>) | Short(value: T)

  /**
   * An element type as the stream functions see it: the values it can write,
   * the bytes written for one, and reading over a target that holds something.
   */
  datatype Codec<!T> = Codec(valid: T -> bool, write: T -> seq<byte>, read: (seq<byte>, T) -> Read<T>)

  /** Reading what was written over `old` leaves `merge(old, x)` and exactly the bytes that followed. */
  ghost predicate Undoes<T(!new)>(c: Codec<T>, merge: (T, T) -> T) {
    forall x, old_, tail | c.valid(x) :: c.read(c.write(x) + tail, old_) == Done(merge(old_, x), tail)
  }

  /** Part of an element fails the stream. */
  ghost predicate NeedsAll<T(!new)>(c: Codec<T>) {
    forall x, old_, n: nat | c.valid(x) && n < |c.write(x)| :: c.read(c.write(x)[..n], old_).Short?
  }

  function Overwrite<T>(old_: T, x: T): T { x }

  // ---------------------------------------------------------------- native types

  /** A native type of `width` bytes, its values taken as the integers their bytes spell. */
  function Native(width: nat): Codec<nat> {
    Codec(
      (x: nat) => x < Pow256(width),
      (x: nat) => Bytes(x, width),
      (bs: seq<byte>, old_: nat) => ReadNative(width, bs, old_))
  }

  /** Too few bytes overwrite the first ones of the target. */
  function ReadNative(width: nat, bs: seq<byte>, old_: nat): Read<nat> {
    if |bs| < width then Short(Value(bs + Bytes(old_, width)[|bs|..])) else Done(Value(bs[..width]), bs[width..])
  }

  lemma NativeUndoes(width: nat)
    ensures Undoes(Native(width), Overwrite)
    ensures NeedsAll(Native(width))
  {
    forall x: nat, tail: seq<byte> | x < Pow256(width)
      ensures (Bytes(x, width) + tail)[..width] == Bytes(x, width)
      ensures (Bytes(x, width) + tail)[width..] == tail && Value(Bytes(x, width)) == x
    {
      BytesRoundTrip(x, width);
    }
  }

  // ---------------------------------------------------------------- strings

  const SIZE_T: nat := 8

  /** The resize of a string or vector. */
  function Resize<T>(xs: seq<T>, n: nat, default: T): (r: seq<T>)
    ensures |r| == n
  {
    if n <= |xs| then xs[..n] else xs + seq(n - |xs|, _ => default)
  }

  function WriteString(s: seq<byte>): seq<byte> {
    Bytes(|s|, SIZE_T) + s
  }

  /** An empty string leaves the target alone; a nonempty one replaces it and gains a NUL. */
  function ReadString(bs: seq<byte>, old_: seq<byte>): Read<seq<byte>> {
    if |bs| < SIZE_T then Short(old_) else
      var n, body := Value(bs[..SIZE_T]), bs[SIZE_T..];
      if n == 0 then Done(old_, body)
      else if |body| < n then Short(body + Resize(old_, n + 1, 0)[|body|..])
      else Done(body[..n] + [0], body[n..])
  }

  function MergeString(old_: seq<byte>, s: seq<byte>): seq<byte> {
    if s == [] then old_ else s + [0]
  }

  function String(): Codec<seq<byte>> {
    Codec((s: seq<byte>) => |s| < Pow256(SIZE_T), WriteString, ReadString)
  }

  lemma StringUndoesOne(s: seq<byte>, old_: seq<byte>, tail: seq<byte>)
    requires |s| < Pow256(SIZE_T)
    ensures ReadString(WriteString(s) + tail, old_) == Done(MergeString(old_, s), tail)
  {
    BytesRoundTrip(|s|, SIZE_T);
    Cut(Bytes(|s|, SIZE_T), s, tail);
    Cut(s, tail, []);
  }

  lemma StringNeedsAll(s: seq<byte>, old_: seq<byte>, n: nat)
    requires |s| < Pow256(SIZE_T) && n < |WriteString(s)|
    ensures ReadString(WriteString(s)[..n], old_).Short?
  {
    BytesRoundTrip(|s|, SIZE_T);
    if n >= SIZE_T {
      assert WriteString(s)[..n][..SIZE_T] == Bytes(|s|, SIZE_T);
    }
  }

  lemma StringUndoes()
    ensures Undoes(String(), MergeString)
    ensures NeedsAll(String())
  {
    forall s: seq<byte>, old_, tail | |s| < Pow256(SIZE_T)
      ensures ReadString(WriteString(s) + tail, old_) == Done(MergeString(old_, s), tail)
    {
      StringUndoesOne(s, old_, tail);
    }
    forall s: seq<byte>, old_, n: nat | |s| < Pow256(SIZE_T) && n < |WriteString(s)|
      ensures ReadString(WriteString(s)[..n], old_).Short?
    {
      StringNeedsAll(s, old_, n);
    }
  }
}
