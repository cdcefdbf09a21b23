/**
 * The rotating file log of src/log/LogStdFileImpl.cpp: a ring of files that
 * are filled and truncated in turn, and the file a new run starts with.
 */
module RotatingLog {
  import opened Collections

  datatype Attributes = Missing | Found(age: int, size: nat)

  /** The characters of a message that an output stream takes from its c_str(). */
  function Printed(msg: string): (r: string)
    ensures r <= msg && (forall c | c in r :: c != '\0') && (|r| < |msg| ==> msg[|r|] == '\0')
  {
    if msg == [] || msg[0] == '\0' then [] else [msg[0]] + Printed(msg[1..])
  }

  /** Characters in a file; each line ends with a newline. */
  function Size(lines: seq<string>): nat {
    if lines == [] then 0 else Size(lines[..|lines| - 1]) + |lines[|lines| - 1]| + 1
  }

  /** The files of the ring, oldest first; the one being written comes last. */
  function Rotated(files: seq<seq<string>>, index: nat): (r: seq<seq<string>>)
    requires index < |files|
    ensures |r| == |files| && r[|r| - 1] == files[index]
  {
    files[index + 1..] + files[..index + 1]
  }

  function Flatten(files: seq<seq<string>>): seq<string> {
    if files == [] then [] else files[0] + Flatten(files[1..])
  }

  /** All lines the ring still holds, oldest first. */
  function Kept(files: seq<seq<string>>, index: nat): seq<string>
    requires index < |files|
  {
    Flatten(Rotated(files, index))
  }

  predicate Suffix(s: seq<string>, t: seq<string>) {
    |s| <= |t| && s == t[|t| - |s|..]
  }

  lemma {:induction false} FlattenJoins(a: seq<seq<string>>, b: seq<seq<string>>)
    ensures Flatten(a + b) == Flatten(a) + Flatten(b)
  {
    if a == [] {
      assert a + b == b;
    } else {
      FlattenJoins(a[1..], b);
      assert a + b == [a[0]] + (a[1..] + b);
      Associative(a[0], Flatten(a[1..]), Flatten(b));
    }
  }

  /** A line written to the current file becomes the last line kept. */
  lemma WriteExtendsKept(files: seq<seq<string>>, index: nat, line: string)
    requires index < |files|
    ensures Kept(files[index := files[index] + [line]], index) == Kept(files, index) + [line]
  {
    var written := files[index := files[index] + [line]];
    var older := files[index + 1..] + files[..index];
    assert Rotated(files, index) == older + [files[index]];
    assert Rotated(written, index) == older + [written[index]];
    FlattenJoins(older, [files[index]]);
    FlattenJoins(older, [written[index]]);
    assert Flatten([files[index]]) == files[index];
    assert Flatten([written[index]]) == written[index];
  }

  function Next(index: nat, n: nat): nat {
    if index + 1 >= n then 0 else index + 1
  }

  /** Moving on to the next file loses exactly the lines of the oldest one. */
  lemma RotateDropsOldest(files: seq<seq<string>>, index: nat)
    requires index < |files|
    ensures var next := Next(index, |files|);
            && Rotated(files[next := []], next) == Rotated(files, index)[1..] + [[]]
            && Kept(files, index) == files[next] + Kept(files[next := []], next)
  {
    var next := Next(index, |files|);
    var ring := Rotated(files, index);
    assert ring[0] == files[next];
    assert Rotated(files[next := []], next) == ring[1..] + [[]];
    FlattenJoins(ring[1..], [[]]);
  }

  /** A file left for the next one: filled beyond the limit, or found at the limit by a new run. */
  ghost predicate Full(lines: seq<string>, limit: int, reopened: bool) {
    Size(lines) > limit || (reopened && Size(lines) == limit)
  }

  /**
   * The ring file by file, oldest first, after `turns` moves to a next file:
   * those left behind are full, those not reached yet are empty, and no file
   * had passed the limit before its last line.
   */
  ghost predicate Stacked(ring: seq<seq<string>>, limit: int, turns: nat, reopened: bool) {
    && ring != []
    && (forall i | 0 <= i < |ring| && ring[i] != [] :: Size(ring[i][..|ring[i]| - 1]) <= limit)
    && (forall i | 0 <= i < |ring| - 1 ::
          if i + turns < |ring| - 1 then ring[i] == [] else Full(ring[i], limit, reopened))
  }

  /** Between two writes the current file is within the limit. */
  ghost predicate Settled(ring: seq<seq<string>>, limit: int, turns: nat, reopened: bool) {
    Stacked(ring, limit, turns, reopened) && Size(ring[|ring| - 1]) <= limit
  }

  lemma WriteStacks(files: seq<seq<string>>, index: nat, line: string, limit: int, turns: nat, reopened: bool)
    requires index < |files| && Settled(Rotated(files, index), limit, turns, reopened)
    ensures Stacked(Rotated(files[index := files[index] + [line]], index), limit, turns, reopened)
  {
    var ring, n := Rotated(files, index), |files|;
    var last := files[index] + [line];
    WriteRotates(files, index, last);
    assert last[..|last| - 1] == files[index];
    var written := ring[n - 1 := last];
    assert forall i | 0 <= i < n :: written[i] == if i == n - 1 then last else ring[i];
  }

  lemma WriteRotates(files: seq<seq<string>>, index: nat, last: seq<string>)
    requires index < |files|
    ensures Rotated(files[index := last], index) == Rotated(files, index)[|files| - 1 := last]
  {
  }

  lemma TurnSettles(ring: seq<seq<string>>, limit: int, turns: nat, reopened: bool)
    requires limit >= 0 && Stacked(ring, limit, turns, reopened) && Full(ring[|ring| - 1], limit, reopened)
    ensures Settled(ring[1..] + [[]], limit, turns + 1, reopened)
    ensures turns + 1 < |ring| ==> ring[0] == []
  {
  }

  /** The lines kept are the most recent ones and, until the first wrap, all of them. */
  ghost predicate Recent(kept: seq<string>, accepted: seq<string>, turns: nat, n: nat) {
    Suffix(kept, accepted) && (turns < n ==> kept == accepted)
  }

  lemma WriteKeepsRecent(files: seq<seq<string>>, index: nat, line: string, accepted: seq<string>, turns: nat)
    requires index < |files| && Recent(Kept(files, index), accepted, turns, |files|)
    ensures Recent(Kept(files[index := files[index] + [line]], index), accepted + [line], turns, |files|)
  {
    WriteExtendsKept(files, index, line);
    var kept := Kept(files, index);
    assert (accepted + [line])[|accepted| - |kept|..] == accepted[|accepted| - |kept|..] + [line];
  }

  lemma RotateKeepsRecent(files: seq<seq<string>>, index: nat, accepted: seq<string>, turns: nat)
    requires index < |files| && Recent(Kept(files, index), accepted, turns, |files|)
    requires turns + 1 < |files| ==> Rotated(files, index)[0] == []
    ensures var next := Next(index, |files|); Recent(Kept(files[next := []], next), accepted, turns + 1, |files|)
  {
    RotateDropsOldest(files, index);
    assert Rotated(files, index)[0] == files[Next(index, |files|)];
  }

  class FileLog {
    const limit: int
    const logAll: bool
    const levels: set<int>
    var files: seq<seq<string>>
    var index: nat
    ghost var accepted: seq<string>
    ghost var turns: nat
    ghost var reopened: bool

    ghost predicate Valid()
      reads this
    {
      && index < |files|
      && Recent(Kept(files, index), accepted, turns, |files|)
      && if limit > 0 then Settled(Rotated(files, index), limit, turns, reopened) else turns == 0
    }

    constructor (n: nat, limit: int, logAll: bool, levels: set<int>)
      requires n > 0
      ensures Valid() && accepted == [] && turns == 0 && !reopened && |files| == n
      ensures this.limit == limit && this.logAll == logAll && this.levels == levels
    {
      this.limit, this.logAll, this.levels := limit, logAll, levels;
      files, index := seq(n, _ => []), 0;
      accepted, turns, reopened := [], 0, false;
      new;
      assert Rotated(files, index) == seq(n, _ => []);
      EmptyFlatten(n);
    }

    /** Close the current file, which is full, and start the next one from nothing. */
    method Rotate()
      requires index < |files| && limit > 0 && Recent(Kept(files, index), accepted, turns, |files|)
      requires Stacked(Rotated(files, index), limit, turns, reopened)
      requires Full(Rotated(files, index)[|files| - 1], limit, reopened)
      modifies `files, `index, `turns
      ensures Valid() && |files| == |old(files)| && turns == old(turns) + 1
      ensures index == Next(old(index), |files|) && files == old(files)[index := []]
    {
      hide Recent, Stacked, Settled, Full, Kept, Rotated;
      RotateDropsOldest(files, index);
      TurnSettles(Rotated(files, index), limit, turns, reopened);
      RotateKeepsRecent(files, index, accepted, turns);
      index := if index + 1 >= |files| then 0 else index + 1;
      files := files[index := []];
      turns := turns + 1;
    }

    method WriteLogEntry(msg: string, level: int) returns (written: nat)
      requires Valid()
      modifies `files, `index, `turns, `accepted
      ensures Valid() && |files| == |old(files)|
      ensures accepted == if logAll || level in levels then old(accepted) + [Printed(msg)] else old(accepted)
      ensures written == |msg|
    {
      hide Recent, Stacked, Kept, Rotated, Printed;
      if logAll || level in levels {
        WriteKeepsRecent(files, index, Printed(msg), accepted, turns);
        if limit > 0 {
          WriteStacks(files, index, Printed(msg), limit, turns, reopened);
        }
        files := files[index := files[index] + [Printed(msg)]];
        accepted := accepted + [Printed(msg)];
      }
      if limit > 0 && Size(files[index]) > limit {
        Rotate();
      }
      written := |msg|;
    }

    /**
     * A new run over the files, whatever they hold by then: it starts a missing
     * first file, or opens the one modified last, as long as there is room, or
     * else empties the one after that.  When nobody touched the files and this
     * continues the ring, the invariant lives on.
     */
    method Reopen(found: seq<Attributes>)
      requires limit > 0 && files != [] && Describes(found, files)
      modifies `files, `index, `turns, `reopened
      ensures reopened && |files| == |old(files)| && index < |files|
      ensures found[0].Missing? ==> index == 0 && files == old(files)
      ensures found[0].Found? ==> exists best: nat ::
        Newest(found, best) && (files, index) == Restart(old(files), limit, best)
      ensures old(Valid()) && Untouched(found, old(files), old(index), limit) ==>
        (exists best: nat :: Newest(found, best) && Continues(old(files), old(index), best)) ==> Valid()
    {
      hide Recent, Settled, Stacked, Rotated, Kept, Continues, Size;
      var chosen, append := ChooseFile(found, limit);
      if found[0].Found? {
        ghost var best: nat :| Newest(found, best) && append == (found[best].size < limit)
          && chosen == if append then best else Next(best, |found|);
        NewestIsOne(found, best);
        if Valid() && Untouched(found, files, index, limit) && Continues(files, index, best) {
          RestartSettles(files, index, limit, turns, reopened, accepted, found, best);
        }
        turns := turns + if best == index && !append then 1 else 0;
      }
      reopened, index := true, chosen;
      if !append {
        files := files[index := []];
      }
    }
  }

  lemma RestartSettles(files: seq<seq<string>>, index: nat, limit: int, turns: nat, reopened: bool,
    accepted: seq<string>, found: seq<Attributes>, best: nat)
    requires index < |files| && Recent(Kept(files, index), accepted, turns, |files|)
    requires limit > 0 && Settled(Rotated(files, index), limit, turns, reopened)
    requires Untouched(found, files, index, limit) && Newest(found, best) && Continues(files, index, best)
    ensures var (files', index') := Restart(files, limit, best);
      var turns' := turns + if best == index && Size(files[best]) >= limit then 1 else 0;
      && index' < |files'| == |files|
      && Recent(Kept(files', index'), accepted, turns', |files|)
      && Settled(Rotated(files', index'), limit, turns', true)
  {
    hide Recent, Stacked, Rotated, Kept;
    ReopenSettles(Rotated(files, index), limit, turns, reopened);
    if best != index {
      assert files[index := []] == files;
    } else if Size(files[best]) >= limit {
      RotateDropsOldest(files, index);
      TurnSettles(Rotated(files, index), limit, turns, true);
      RotateKeepsRecent(files, index, accepted, turns);
    }
  }

  /** What the file system says of the files at the start of a run. */
  predicate Describes(found: seq<Attributes>, files: seq<seq<string>>) {
    && |found| == |files|
    && forall i | 0 <= i < |files| :: if found[i].Found? then found[i].size == Size(files[i]) else files[i] == []
  }

  /** What a new run finds when nobody else touched the files: those besides the current one were left full. */
  predicate Untouched(found: seq<Attributes>, files: seq<seq<string>>, index: nat, limit: int) {
    && |found| == |files| && index < |files| && found[0].Found? && found[index].Found?
    && (forall i | 0 <= i < |files| && found[i].Found? :: found[i].size == Size(files[i]))
    && (forall i | 0 <= i < |files| && found[i].Found? && i != index :: Size(files[i]) >= limit)
  }

  /** The first of the files modified last. */
  predicate Newest(found: seq<Attributes>, best: nat) {
    && best < |found| && found[best].Found?
    && (forall j | 0 <= j < |found| && found[j].Found? :: found[best].age <= found[j].age)
    && (forall j | 0 <= j < best && found[j].Found? :: found[best].age < found[j].age)
  }

  lemma NewestIsOne(found: seq<Attributes>, best: nat)
    requires Newest(found, best)
    ensures forall b: nat | Newest(found, b) :: b == best
  {
  }

  /** Where a new run goes on, and with which files, when it takes `best` for the newest. */
  function Restart(files: seq<seq<string>>, limit: int, best: nat): (seq<seq<string>>, nat)
    requires best < |files|
  {
    if Size(files[best]) < limit then (files, best)
    else (files[Next(best, |files|) := []], Next(best, |files|))
  }

  /** The newest file is the current one, or that one was just emptied after the newest. */
  predicate Continues(files: seq<seq<string>>, index: nat, best: nat) {
    index < |files| && (best == index || (Next(best, |files|) == index && files[index] == []))
  }

  lemma ReopenSettles(ring: seq<seq<string>>, limit: int, turns: nat, reopened: bool)
    requires Settled(ring, limit, turns, reopened)
    ensures Settled(ring, limit, turns, true)
    ensures Size(ring[|ring| - 1]) >= limit ==> Full(ring[|ring| - 1], limit, true)
  {
  }

  predicate Distinct(lines: seq<string>) {
    forall i, j | 0 <= i < j < |lines| :: lines[i] != lines[j]
  }

  lemma NotBothSuffixes(a: seq<string>, b: seq<string>, c: seq<string>, lines: seq<string>)
    requires a != [] && b != [] && Distinct(lines) && Suffix(a + b, lines)
    ensures !Suffix(c + a, lines)
  {
    var n := |lines|;
    assert (c + a)[|c + a| - 1] == a[|a| - 1] == (a + b)[|a| - 1] == lines[n - |a + b|..][|a| - 1];
    assert lines[n - 1 - |b|] != lines[n - 1];
  }

  /** The ring as it turns when the file at position `m` is emptied and becomes the current one. */
  lemma TurnedRing(files: seq<seq<string>>, index: nat, best: nat, m: nat)
    requires index < |files| && best < |files| && best != index
    requires m == (if best > index then best - index else best + |files| - index)
    ensures 0 < m < |files| && Rotated(files, index)[m - 1] == files[best]
    ensures (m == |files| - 1 <==> Next(best, |files|) == index)
    ensures var ring, next := Rotated(files, index), Next(best, |files|);
      Rotated(files[next := []], next) == ring[m + 1..] + ring[..m] + [[]]
  {
    RingParts(files, index, best, m);
    EmptiedRing(files, Next(best, |files|));
    RestOfRing(files, index, best, m);
    hide Rotated;
  }

  /** The files but for the one after `best`, as they follow it, are the ring but for position `m`, turned. */
  lemma RestOfRing(files: seq<seq<string>>, index: nat, best: nat, m: nat)
    requires index < |files| && best < |files| && best != index
    requires m == (if best > index then best - index else best + |files| - index)
    ensures 0 < m < |files|
    ensures var ring, next := Rotated(files, index), Next(best, |files|);
      files[next + 1..] + files[..next] == ring[m + 1..] + ring[..m]
  {
    RingParts(files, index, best, m);
    hide Rotated;
    if best < index {
      BehindSlices(files, index, best);
    } else if best + 1 < |files| {
      AheadSlices(files, index, best);
    } else {
      EndSlices(files, index);
    }
  }

  lemma EndSlices<T>(s: seq<T>, index: nat)
    requires index + 1 < |s|
    ensures s[1..] + s[..0] == s[1..index + 1] + s[index + 1..|s|]
  {
    Span(s, 1, index + 1, |s|);
  }

  lemma BehindSlices<T>(s: seq<T>, index: nat, best: nat)
    requires best < index < |s|
    ensures s[best + 2..] + s[..best + 1] == s[best + 2..index + 1] + (s[index + 1..] + s[..best + 1])
  {
    Span(s, best + 2, index + 1, |s|);
    Associative(s[best + 2..index + 1], s[index + 1..], s[..best + 1]);
  }

  lemma AheadSlices<T>(s: seq<T>, index: nat, best: nat)
    requires index < best && best + 1 < |s|
    ensures s[best + 2..] + s[..best + 1] == (s[best + 2..] + s[..index + 1]) + s[index + 1..best + 1]
  {
    Span(s, 0, index + 1, best + 1);
    Associative(s[best + 2..], s[..index + 1], s[index + 1..best + 1]);
  }

  lemma Span<T>(s: seq<T>, i: nat, j: nat, k: nat)
    requires i <= j <= k <= |s|
    ensures s[i..j] + s[j..k] == s[i..k]
  {
  }

  lemma EmptiedRing(files: seq<seq<string>>, next: nat)
    requires next < |files|
    ensures Rotated(files[next := []], next) == files[next + 1..] + files[..next] + [[]]
  {
  }

  /** What lies after and before position `m` of the ring. */
  lemma RingParts(files: seq<seq<string>>, index: nat, best: nat, m: nat)
    requires index < |files| && best < |files| && best != index
    requires m == (if best > index then best - index else best + |files| - index)
    ensures 0 < m < |files| && Rotated(files, index)[m - 1] == files[best]
    ensures var ring := Rotated(files, index);
      if best < index
      then ring[..m] == files[index + 1..] + files[..best + 1] && ring[m + 1..] == files[best + 2..index + 1]
      else
        && ring[..m] == files[index + 1..best + 1]
        && ring[m + 1..] ==
           if best + 1 < |files| then files[best + 2..] + files[..index + 1] else files[1..index + 1]
  {
    if best < index {
      RingBehind(files, index, best);
    } else {
      RingAhead(files, index, best);
    }
  }

  lemma RingBehind<T>(s: seq<T>, index: nat, best: nat)
    requires best < index < |s|
    ensures var ring, m := s[index + 1..] + s[..index + 1], best + |s| - index;
      && m < |s| && ring[m - 1] == s[best]
      && ring[..m] == s[index + 1..] + s[..best + 1]
      && ring[m + 1..] == s[best + 2..index + 1]
  {
    var after, before := s[index + 1..], s[..index + 1];
    Halves(after, before, best + 1);
    Halves(after, before, best + 2);
    SpanOfSpan(s, 0, index + 1, 0, best + 1);
    SpanOfSpan(s, 0, index + 1, best + 2, index + 1);
  }

  lemma RingAhead<T>(s: seq<T>, index: nat, best: nat)
    requires index < best < |s|
    ensures var ring, m := s[index + 1..] + s[..index + 1], best - index;
      && m < |s| && ring[m - 1] == s[best]
      && ring[..m] == s[index + 1..best + 1]
      && ring[m + 1..] == if best + 1 < |s| then s[best + 2..] + s[..index + 1] else s[1..index + 1]
  {
    var after, before := s[index + 1..], s[..index + 1];
    Heads(after, before, best - index);
    SpanOfSpan(s, index + 1, |s|, 0, best - index);
    if best + 1 < |s| {
      Heads(after, before, best - index + 1);
      SpanOfSpan(s, index + 1, |s|, best - index + 1, |s| - index - 1);
    } else {
      Halves(after, before, 1);
      SpanOfSpan(s, 0, index + 1, 1, index + 1);
    }
  }

  lemma SpanOfSpan<T>(s: seq<T>, i: nat, j: nat, p: nat, q: nat)
    requires i <= j <= |s| && p <= q <= j - i
    ensures s[i..j][p..q] == s[i + p..i + q]
  {
    var t := s[i..j];
    assert forall k | p <= k < q :: t[k] == s[i + k];
    assert t[p..q] == s[i + p..i + q];
  }

  lemma Heads<T>(a: seq<T>, b: seq<T>, m: nat)
    requires m <= |a|
    ensures (a + b)[..m] == a[..m] && (a + b)[m..] == a[m..] + b
  {
  }

  lemma Halves<T>(a: seq<T>, b: seq<T>, m: nat)
    requires m <= |b|
    ensures (a + b)[..|a| + m] == a + b[..m] && (a + b)[|a| + m..] == b[m..]
  {
  }

  lemma NonEmptyFlatten(files: seq<seq<string>>, i: nat)
    requires i < |files| && files[i] != []
    ensures Flatten(files) != []
    decreases i
  {
    if i > 0 {
      NonEmptyFlatten(files[1..], i - 1);
    }
  }

  /**
   * A new run goes on keeping the most recent lines exactly when it continues
   * the ring.  (Lines are told apart by their text here; when some are equal
   * the wrong lines may happen to look right.)
   */
  lemma RestartKeepsExactly(files: seq<seq<string>>, index: nat, limit: int, turns: nat, reopened: bool,
    accepted: seq<string>, found: seq<Attributes>, best: nat)
    requires index < |files| && limit > 0 && Settled(Rotated(files, index), limit, turns, reopened)
    requires Suffix(Kept(files, index), accepted) && Distinct(accepted)
    requires Untouched(found, files, index, limit) && Newest(found, best)
    ensures var (files', index') := Restart(files, limit, best);
      Suffix(Kept(files', index'), accepted) <==> Continues(files, index, best)
  {
    if best == index {
      if Size(files[best]) >= limit {
        RotateDropsOldest(files, index);
      }
    } else if Continues(files, index, best) {
      assert files[index := []] == files;
    } else {
      RestartLoses(files, index, limit, turns, reopened, accepted, best);
    }
  }

  lemma FlattenOne(file: seq<string>)
    ensures Flatten([file]) == file
  {
  }

  /** A log in order, untouched since, whose new run does not keep the most recent lines. */
  ghost predicate LosesLines(files: seq<seq<string>>, index: nat, limit: int, turns: nat, accepted: seq<string>,
    found: seq<Attributes>, best: nat)
  {
    && index < |files| && limit > 0 && Settled(Rotated(files, index), limit, turns, false)
    && Recent(Kept(files, index), accepted, turns, |files|) && Distinct(accepted)
    && Untouched(found, files, index, limit) && Newest(found, best)
    && var (files', index') := Restart(files, limit, best); !Suffix(Kept(files', index'), accepted)
  }

  const TIED := [["aa"], ["b"]]

  lemma TiedSizes()
    ensures Size(TIED[0]) == 3 && Size(TIED[1]) == 2
  {
    assert TIED[0][..0] == [] && TIED[1][..0] == [];
  }

  lemma TiedKept()
    ensures Rotated(TIED, 1) == TIED && Kept(TIED, 1) == ["aa", "b"]
  {
    assert TIED[2..] + TIED[..2] == TIED;
    assert TIED[1..] == [["b"]];
    FlattenOne(["b"]);
    assert ["aa"] + ["b"] == ["aa", "b"];
  }

  lemma TiedSettled()
    ensures Settled(TIED, 2, 1, false)
  {
    TiedSizes();
    assert TIED[0][..0] == [] && TIED[1][..0] == [];
  }

  /** The losing case arises: two files changed in the same second, the current one not yet full. */
  lemma TieLosesLines()
    ensures exists files, index, limit, turns, accepted, found, best ::
      LosesLines(files, index, limit, turns, accepted, found, best)
  {
    hide Size, Flatten, Settled, Rotated, Kept;
    var found := [Found(0, 3), Found(0, 2)];
    TiedSizes();
    TiedKept();
    TiedSettled();
    RestartKeepsExactly(TIED, 1, 2, 1, false, ["aa", "b"], found, 0);
    assert LosesLines(TIED, 1, 2, 1, ["aa", "b"], found, 0);
  }

  lemma RestartLoses(files: seq<seq<string>>, index: nat, limit: int, turns: nat, reopened: bool,
    accepted: seq<string>, best: nat)
    requires index < |files| && limit > 0 && Settled(Rotated(files, index), limit, turns, reopened)
    requires Suffix(Kept(files, index), accepted) && Distinct(accepted)
    requires best < |files| && Size(files[best]) >= limit && !Continues(files, index, best)
    ensures var next := Next(best, |files|); !Suffix(Kept(files[next := []], next), accepted)
  {
    hide Distinct, Suffix, Flatten;
    var ring, n := Rotated(files, index), |files|;
    var m := if best > index then best - index else best + n - index;
    TurnedRing(files, index, best, m);
    assert ring[m - 1] != [] && ring[m] != [] by {
      assert ring[n - 1] == files[index];
    }
    hide Rotated, Settled;
    var a, b, c := Flatten(ring[..m]), Flatten(ring[m..]), Flatten(ring[m + 1..]);
    NonEmptyFlatten(ring[..m], m - 1);
    NonEmptyFlatten(ring[m..], 0);
    FlattenJoins(ring[..m], ring[m..]);
    assert ring[..m] + ring[m..] == ring;
    FlattenJoins(ring[m + 1..] + ring[..m], [[]]);
    FlattenJoins(ring[m + 1..], ring[..m]);
    FlattenOne([]);
    NotBothSuffixes(a, b, c, accepted);
    assert c + a + [] == c + a;
  }

  /**
   * The file a new run opens, and whether it keeps what is there: the file
   * modified last (of several, the first) while it has room, and else the one
   * after it, emptied.
   */
  method ChooseFile(found: seq<Attributes>, limit: int) returns (index: nat, append: bool)
    requires found != []
    ensures index < |found|
    ensures found[0].Missing? ==> index == 0 && append
    ensures found[0].Found? ==> exists best: nat ::
      && Newest(found, best) && append == (found[best].size < limit)
      && index == if append then best else Next(best, |found|)
  {
    if found[0].Missing? {
      return 0, true;
    }
    var useIndex: nat, bestAge := 0, found[0].age;
    for i := 1 to |found|
      invariant useIndex < i && found[useIndex].Found? && found[useIndex].age == bestAge
      invariant forall j | 0 <= j < i && found[j].Found? :: bestAge <= found[j].age
      invariant forall j | 0 <= j < useIndex && found[j].Found? :: bestAge < found[j].age
    {
      if found[i].Found? && found[i].age < bestAge {
        useIndex, bestAge := i, found[i].age;
      }
    }
    append := found[useIndex].size < limit;
    index := if append then useIndex else if useIndex + 1 >= |found| then 0 else useIndex + 1;
  }

  lemma {:induction false} EmptyFlatten(n: nat)
    ensures Flatten(seq(n, _ => [])) == []
  {
    if n > 0 {
      EmptyFlatten(n - 1);
      var files: seq<seq<string>> := seq(n, _ => []);
      assert files[1..] == seq(n - 1, _ => []);
    }
  }

  /** A file that had not passed the limit before its last line exceeds it by that line at most. */
  lemma AtMostOneLineOver(ring: seq<seq<string>>, limit: int, turns: nat, reopened: bool, i: nat)
    requires Settled(ring, limit, turns, reopened) && limit > 0 && i < |ring| && ring[i] != []
    ensures Size(ring[i]) <= limit + |ring[i][|ring[i]| - 1]| + 1
  {
  }

  function Total(files: seq<seq<string>>): nat {
    if files == [] then 0 else Size(files[0]) + Total(files[1..])
  }

  lemma OneMoreFile(n: nat, limit: int)
    ensures n * limit == (n - 1) * limit + limit
  {
  }

  lemma {:induction false} FullFilesHold(ring: seq<seq<string>>, limit: int)
    requires forall i | 0 <= i < |ring| :: Size(ring[i]) >= limit
    ensures Total(ring) >= |ring| * limit
  {
    if ring == [] {
      assert Total(ring) == 0;
    } else {
      FullFilesHold(ring[1..], limit);
      OneMoreFile(|ring|, limit);
    }
  }

  lemma {:induction false} TotalIsKept(files: seq<seq<string>>)
    ensures Total(files) == Size(Flatten(files))
  {
    if files != [] {
      TotalIsKept(files[1..]);
      SizeJoins(files[0], Flatten(files[1..]));
    }
  }

  lemma {:induction false} SizeJoins(a: seq<string>, b: seq<string>)
    ensures Size(a + b) == Size(a) + Size(b)
  {
    if b == [] {
      assert a + b == a;
    } else {
      SizeJoins(a, b[..|b| - 1]);
      assert (a + b)[..|a + b| - 1] == a + b[..|b| - 1];
    }
  }

  /** How much history survives: everything before the first wrap, at least n - 1 full files of it after. */
  lemma KeepsEnough(log: FileLog)
    requires log.Valid() && log.limit > 0
    ensures var kept := Kept(log.files, log.index);
            && Suffix(kept, log.accepted)
            && (kept == log.accepted || Size(kept) >= (|log.files| - 1) * log.limit)
  {
    var ring, n := Rotated(log.files, log.index), |log.files|;
    if log.turns >= n {
      FullFilesHold(ring[..n - 1], log.limit);
      FlattenJoins(ring[..n - 1], [ring[n - 1]]);
      assert ring[..n - 1] + [ring[n - 1]] == ring;
      TotalIsKept(ring[..n - 1]);
      SizeJoins(Flatten(ring[..n - 1]), Flatten([ring[n - 1]]));
    }
  }
}
