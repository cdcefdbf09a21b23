/**
 * The blocking queues of h/thd/ThdQueue.h and h/thd/ThdDeque.h as a state
 * machine over all interleavings of any set of threads.  A semaphore
 * (src/thd/ThdSemaphore.cpp, step by step) is taken outside the lock; the
 * queue changes inside it.
 */
module BlockingQueue {

  datatype Item = Item(priority: int, id: nat)
  type Tid = nat

  datatype Kind = Fifo | Priority | Deque

  datatype PC =
    | Idle
    | Pushed      // insert: inside the lock, pushed, not yet posted
    | Checking    // remove: about to call decrement
    | Entering    // decrement: saw the semaphore not abandoned, not yet counted as a waiter
    | Waiting     // decrement: counted, in sem_wait
    | Leaving     // decrement: sem_wait granted, still counted
    | Rechecking  // decrement: no longer counted, about to look at abandoned again
    | Granted     // decrement returned success, about to take the lock
    | Downing     // down: inside the lock, flag set, abandon not yet marked
    | Abandoning  // down: inside the lock, in the loop of abandon

  datatype State = State(
    kind: Kind,
    queue: seq<Item>,
    permits: nat,
    waiters: int,
    abandoned: bool,
    down: bool,
    locked: bool,
    fault: bool,            // front, top or pop was called on an empty container
    pc: map<Tid, PC>,
    inserted: seq<Item>,    // history: everything pushed,
    delivered: seq<Item>,   //   everything handed out by remove,
    erased: nat,            //   successful removeItem calls,
    probes: nat)            //   times remove found the queue empty

  datatype Action =
    | Insert(t: Tid, x: Item)
    | Post(t: Tid)
    | RemoveItem(t: Tid, x: Item)
    | Call(t: Tid)
    | Check(t: Tid)
    | Enter(t: Tid)
    | Acquire(t: Tid)
    | Interrupt(t: Tid)
    | Leave(t: Tid)
    | Recheck(t: Tid)
    | Take(t: Tid, i: nat)
    | Down(t: Tid)
    | MarkAbandoned(t: Tid)
    | Wake(t: Tid)
    | EndDown(t: Tid)

  predicate Init(s: State) {
    && s.queue == [] && s.permits == 0 && s.waiters == 0
    && !s.abandoned && !s.down && !s.locked && !s.fault
    && (forall t | t in s.pc :: s.pc[t] == Idle)
    && s.inserted == [] && s.delivered == [] && s.erased == 0 && s.probes == 0
  }

  predicate At(s: State, t: Tid, p: PC) {
    t in s.pc && s.pc[t] == p
  }

  function Goto(s: State, t: Tid, p: PC): State {
    s.(pc := s.pc[t := p])
  }

  function Without(q: seq<Item>, i: nat): seq<Item>
    requires i < |q|
  {
    q[..i] + q[i + 1..]
  }

  /** std::find: the first occurrence. */
  function Find(q: seq<Item>, x: Item): (i: nat)
    requires x in q
    ensures i < |q| && q[i] == x && x !in q[..i]
  {
    if q[0] == x then 0 else 1 + Find(q[1..], x)
  }

  /** The entry handed out: the front, or in priority mode some entry of greatest priority. */
  predicate Chosen(s: State, i: nat) {
    && i < |s.queue|
    && if s.kind == Priority then forall x | x in s.queue :: x.priority <= s.queue[i].priority else i == 0
  }

  ghost predicate Step(s: State, a: Action, s': State) {
    !s.fault &&
    match a
    case Insert(t, x) =>
      && At(s, t, Idle) && !s.locked
      && s' == if s.down then s else
        Goto(s, t, Pushed).(locked := true, queue := s.queue + [x], inserted := s.inserted + [x])
    case Post(t) =>
      At(s, t, Pushed) && s' == Goto(s, t, Idle).(locked := false, permits := s.permits + 1)
    case RemoveItem(t, x) =>
      && s.kind == Deque && At(s, t, Idle) && !s.locked
      && s' == if s.down || x !in s.queue then s else
        s.(queue := Without(s.queue, Find(s.queue, x)), erased := s.erased + 1)
    case Call(t) =>
      At(s, t, Idle) && s' == Goto(s, t, Checking)
    case Check(t) =>
      At(s, t, Checking) && s' == Goto(s, t, if s.abandoned then Idle else Entering)
    case Enter(t) =>
      At(s, t, Entering) && s' == Goto(s, t, Waiting).(waiters := s.waiters + 1)
    case Acquire(t) =>
      At(s, t, Waiting) && s.permits > 0 && s' == Goto(s, t, Leaving).(permits := s.permits - 1)
    case Interrupt(t) =>
      At(s, t, Waiting) && s' == Goto(s, t, Idle).(waiters := s.waiters - 1)
    case Leave(t) =>
      At(s, t, Leaving) && s' == Goto(s, t, Rechecking).(waiters := s.waiters - 1)
    case Recheck(t) =>
      At(s, t, Rechecking) && s' == Goto(s, t, if s.abandoned then Idle else Granted)
    case Take(t, i) =>
      && At(s, t, Granted) && !s.locked
      && if s.down then s' == Goto(s, t, Idle)
         else if s.queue == [] then
           s' == if s.kind == Deque then Goto(s, t, Checking).(probes := s.probes + 1) else s.(fault := true)
         else
           && Chosen(s, i)
           && s' == Goto(s, t, Idle).(queue := Without(s.queue, i), delivered := s.delivered + [s.queue[i]])
    case Down(t) =>
      && At(s, t, Idle) && !s.locked
      && s' == if s.down then s else Goto(s, t, Downing).(locked := true, down := true)
    case MarkAbandoned(t) =>
      At(s, t, Downing) && s' == Goto(s, t, Abandoning).(abandoned := true)
    case Wake(t) =>
      At(s, t, Abandoning) && s.waiters > 0 && s' == s.(permits := s.permits + 1)
    case EndDown(t) =>
      At(s, t, Abandoning) && s.waiters <= 0 && s' == Goto(s, t, Idle).(locked := false)
  }

  ghost predicate StepAt(states: seq<State>, actions: seq<Action>, i: nat)
    requires i < |actions| < |states|
  {
    Step(states[i], actions[i], states[i + 1])
  }

  /** A run: any interleaving of any number of steps from an initial state. */
  ghost predicate Run(states: seq<State>, actions: seq<Action>) {
    && |states| == |actions| + 1
    && Init(states[0])
    && forall i | 0 <= i < |actions| :: StepAt(states, actions, i)
  }

  // ---------------------------------------------------------------- counting threads

  function Threads(s: State, f: PC -> bool): set<Tid> {
    set t | t in s.pc && f(s.pc[t])
  }

  function Count(s: State, f: PC -> bool): nat {
    |Threads(s, f)|
  }

  /** Removers past the decrement: each has consumed a permit it has not yet spent. */
  predicate HoldsPermit(p: PC) { p == Leaving || p == Rechecking || p == Granted }
  predicate MidInsert(p: PC) { p == Pushed }
  predicate CountedWaiter(p: PC) { p == Waiting || p == Leaving }
  predicate Blocked(p: PC) { p == Entering || p == Waiting }
  predicate InDown(p: PC) { p == Downing || p == Abandoning }
  predicate InAbandon(p: PC) { p == Abandoning }
  predicate Unlisted(p: PC) { p == Entering }
  predicate LetIn(p: PC) { p == Granted }

  lemma CountMoves(s: State, s': State, t: Tid, p: PC, f: PC -> bool)
    requires t in s.pc && s'.pc == s.pc[t := p]
    ensures Count(s', f) == Count(s, f) - (if f(s.pc[t]) then 1 else 0) + (if f(p) then 1 else 0)
  {
    var others := Threads(s, f) - {t};
    assert Threads(s, f) == if f(s.pc[t]) then others + {t} else others;
    assert Threads(s', f) == if f(p) then others + {t} else others;
  }

  lemma CountAtLeastOne(s: State, t: Tid, f: PC -> bool)
    requires t in s.pc && f(s.pc[t])
    ensures Count(s, f) >= 1
  {
    assert t in Threads(s, f);
  }

  /** The actions of insert, removeItem and down. */
  predicate OutsideRemove(a: Action) {
    a.Insert? || a.Post? || a.RemoveItem? || a.Down? || a.MarkAbandoned? || a.Wake? || a.EndDown?
  }

  lemma OutsideMovesActor(s: State, a: Action, s': State)
    requires Step(s, a, s') && OutsideRemove(a)
    ensures a.t in s.pc && a.t in s'.pc && s'.pc == s.pc[a.t := s'.pc[a.t]] && s'.kind == s.kind
  {
    hide Find, Without;
  }

  lemma InsideMovesActor(s: State, a: Action, s': State)
    requires Step(s, a, s') && !OutsideRemove(a)
    ensures a.t in s.pc && a.t in s'.pc && s'.pc == s.pc[a.t := s'.pc[a.t]] && s'.kind == s.kind
  {
    hide Chosen, Without;
  }

  lemma StepMovesActor(s: State, a: Action, s': State)
    requires Step(s, a, s')
    ensures a.t in s.pc && s'.pc.Keys == s.pc.Keys && s'.pc == s.pc[a.t := s'.pc[a.t]]
    ensures s'.kind == s.kind
  {
    hide Step, OutsideRemove;
    if OutsideRemove(a) {
      OutsideMovesActor(s, a, s');
    } else {
      InsideMovesActor(s, a, s');
    }
  }

  // ---------------------------------------------------------------- permits

  /**
   * Permits in the semaphore, held by removers, or about to be posted, against
   * queued items.  The surplus is the permits of items `removeItem` took away
   * and no `remove` has burnt yet.
   */
  ghost predicate PermitsBalance(s: State) {
    s.permits + Count(s, HoldsPermit) + Count(s, MidInsert) == |s.queue| + s.erased - s.probes
  }

  /** The lock excludes, down precedes abandon, and the waiter counter counts the waiters. */
  ghost predicate Orderly(s: State) {
    && (s.abandoned ==> s.down)
    && (Count(s, InDown) > 0 ==> s.down)
    && (Count(s, InAbandon) > 0 ==> s.abandoned)
    && Count(s, MidInsert) + Count(s, InDown) <= (if s.locked then 1 else 0)
    && (s.down ==> Count(s, MidInsert) == 0)
    && s.waiters == Count(s, CountedWaiter)
  }

  ghost predicate Inv(s: State) {
    && Orderly(s)
    && (s.kind != Deque ==> s.erased == 0 && s.probes == 0)
    && s.probes <= s.erased
    && (!s.down ==> PermitsBalance(s))
    && !s.fault
  }

  lemma StepOrderly(s: State, a: Action, s': State)
    requires Orderly(s) && Step(s, a, s')
    ensures Orderly(s')
  {
    hide Count, Threads;
    StepMovesActor(s, a, s');
    var p := s'.pc[a.t];
    CountMoves(s, s', a.t, p, MidInsert);
    CountMoves(s, s', a.t, p, InDown);
    CountMoves(s, s', a.t, p, InAbandon);
    CountMoves(s, s', a.t, p, CountedWaiter);
    if InDown(s.pc[a.t]) { CountAtLeastOne(s, a.t, InDown); }
    if MidInsert(s.pc[a.t]) { CountAtLeastOne(s, a.t, MidInsert); }
  }

  lemma StepInv(s: State, a: Action, s': State)
    requires Inv(s) && Step(s, a, s')
    ensures Inv(s')
  {
    hide Count, Threads;
    StepOrderly(s, a, s');
    StepMovesActor(s, a, s');
    var p := s'.pc[a.t];
    CountMoves(s, s', a.t, p, HoldsPermit);
    CountMoves(s, s', a.t, p, MidInsert);
    if InDown(s.pc[a.t]) { CountAtLeastOne(s, a.t, InDown); }
    if HoldsPermit(s.pc[a.t]) { CountAtLeastOne(s, a.t, HoldsPermit); }
  }

  lemma {:induction false} RunInv(states: seq<State>, actions: seq<Action>, i: nat)
    requires Run(states, actions) && i < |states|
    ensures Inv(states[i])
  {
    if i > 0 {
      RunInv(states, actions, i - 1);
      assert StepAt(states, actions, i - 1);
      StepInv(states[i - 1], actions[i - 1], states[i]);
    }
  }

  /**
   * ThdQueue, before down: permits are exact, so front, top and pop never meet
   * an empty container, in any run.
   */
  lemma QueuePermitsExact(states: seq<State>, actions: seq<Action>, i: nat)
    requires Run(states, actions) && i < |states| && states[i].kind != Deque
    ensures !states[i].fault
    ensures var s := states[i];
      !s.down ==> |s.queue| == s.permits + Count(s, HoldsPermit) + Count(s, MidInsert)
    ensures var s := states[i]; !s.down && (exists t :: At(s, t, Granted)) ==> s.queue != []
  {
    RunInv(states, actions, i);
    if t :| At(states[i], t, Granted) {
      CountAtLeastOne(states[i], t, HoldsPermit);
    }
  }

  /**
   * ThdDeque, before down: the surplus of permits is the number of removed
   * items not yet burnt by an empty probe.  So every queued item has a permit,
   * a remover or its inserter coming for it; and over the whole run remove
   * retries at most once per removed item.
   */
  lemma DequePermitsCover(states: seq<State>, actions: seq<Action>, i: nat)
    requires Run(states, actions) && i < |states|
    ensures var s := states[i];
      && s.probes <= s.erased
      && (!s.down ==>
        && s.permits + Count(s, HoldsPermit) + Count(s, MidInsert) - |s.queue| == s.erased - s.probes
        && |s.queue| <= s.permits + Count(s, HoldsPermit) + Count(s, MidInsert))
  {
    RunInv(states, actions, i);
  }

  // ---------------------------------------------------------------- what is delivered

  /** `a` is `b` with some elements left out. */
  predicate Subsequence(a: seq<Item>, b: seq<Item>) {
    if a == [] then true
    else if b == [] then false
    else (a[0] == b[0] && Subsequence(a[1..], b[1..])) || Subsequence(a, b[1..])
  }

  lemma {:induction false} SubsequenceExtends(a: seq<Item>, b: seq<Item>, x: Item)
    requires Subsequence(a, b)
    ensures Subsequence(a + [x], b + [x])
  {
    if b != [] {
      assert (b + [x])[1..] == b[1..] + [x];
      if a == [] || (a[0] == b[0] && Subsequence(a[1..], b[1..])) {
        if a == [] {
          SubsequenceExtends(a, b[1..], x);
        } else {
          SubsequenceExtends(a[1..], b[1..], x);
          assert (a + [x])[1..] == a[1..] + [x];
        }
      } else {
        SubsequenceExtends(a, b[1..], x);
      }
    }
  }

  lemma {:induction false} SubsequenceDrops(a: seq<Item>, b: seq<Item>, i: nat)
    requires Subsequence(a, b) && i < |a|
    ensures Subsequence(Without(a, i), b)
  {
    if a[0] == b[0] && Subsequence(a[1..], b[1..]) {
      if i == 0 {
        assert Without(a, i) == a[1..];
      } else {
        SubsequenceDrops(a[1..], b[1..], i - 1);
        assert Without(a, i)[1..] == Without(a[1..], i - 1);
      }
    } else {
      SubsequenceDrops(a, b[1..], i);
    }
  }

  /** What was handed out, then what is queued, against what was inserted. */
  ghost predicate Conserved(s: State) {
    match s.kind
    case Fifo => s.delivered + s.queue == s.inserted
    case Priority => multiset(s.delivered) + multiset(s.queue) == multiset(s.inserted)
    case Deque =>
      && Subsequence(s.delivered + s.queue, s.inserted)
      && |s.delivered| + |s.queue| + s.erased == |s.inserted|
  }

  lemma TakeConserves(s: State, i: nat)
    requires Chosen(s, i)
    ensures var d, q := s.delivered + [s.queue[i]], Without(s.queue, i);
      && multiset(d) + multiset(q) == multiset(s.delivered) + multiset(s.queue)
      && (s.kind != Priority ==> d + q == s.delivered + s.queue)
  {
    assert s.queue == s.queue[..i] + [s.queue[i]] + s.queue[i + 1..];
  }

  lemma RemoveConserves(s: State, i: nat)
    requires i < |s.queue| && Subsequence(s.delivered + s.queue, s.inserted)
    ensures Subsequence(s.delivered + Without(s.queue, i), s.inserted)
  {
    var all := s.delivered + s.queue;
    assert s.delivered + Without(s.queue, i) == Without(all, |s.delivered| + i);
    SubsequenceDrops(all, s.inserted, |s.delivered| + i);
  }

  lemma InsertConserves(s: State, x: Item, s': State)
    requires Conserved(s)
    requires s'.kind == s.kind && s'.queue == s.queue + [x] && s'.inserted == s.inserted + [x]
    requires s'.delivered == s.delivered && s'.erased == s.erased
    ensures Conserved(s')
  {
    assert s'.delivered + s'.queue == (s.delivered + s.queue) + [x];
    if s.kind == Deque { SubsequenceExtends(s.delivered + s.queue, s.inserted, x); }
  }

  lemma StepConserves(s: State, a: Action, s': State)
    requires Inv(s) && Conserved(s) && Step(s, a, s')
    ensures Conserved(s')
  {
    hide Inv, Subsequence;
    if a.Insert? && !s.down {
      hide Conserved;
      InsertConserves(s, a.x, s');
    } else if a.RemoveItem? && !s.down && a.x in s.queue {
      RemoveConserves(s, Find(s.queue, a.x));
    } else if a.Take? && !s.down && s.queue != [] {
      TakeConserves(s, a.i);
    } else {
      hide Conserved;
    }
  }

  /**
   * In every run: FIFO mode hands items out in insertion order; priority mode
   * loses and duplicates nothing; the deque hands out, in insertion order, the
   * items not removed.
   */
  lemma {:induction false} RunConserves(states: seq<State>, actions: seq<Action>, i: nat)
    requires Run(states, actions) && i < |states|
    ensures Conserved(states[i])
  {
    if i > 0 {
      RunConserves(states, actions, i - 1);
      RunInv(states, actions, i - 1);
      assert StepAt(states, actions, i - 1);
      StepConserves(states[i - 1], actions[i - 1], states[i]);
    }
  }

  lemma {:induction false} FindsFirst(before: seq<Item>, x: Item, after: seq<Item>)
    requires x !in before
    ensures Find(before + [x] + after, x) == |before|
  {
    if before != [] {
      FindsFirst(before[1..], x, after);
      assert (before + [x] + after)[1..] == before[1..] + [x] + after;
    }
  }

  /** removeItem takes out the first of the items equal to the one named, and changes nothing without any. */
  lemma RemovesFirst(s: State, t: Tid, x: Item, s': State, before: seq<Item>, after: seq<Item>)
    requires Step(s, RemoveItem(t, x), s') && !s.down
    ensures x !in s.queue ==> s' == s
    ensures s.queue == before + [x] + after && x !in before ==>
      s' == s.(queue := before + after, erased := s.erased + 1)
  {
    if s.queue == before + [x] + after && x !in before {
      FindsFirst(before, x, after);
      assert Without(s.queue, |before|) == before + after;
    }
  }

  // ---------------------------------------------------------------- priorities

  lemma {:induction false} RunKeepsKind(states: seq<State>, actions: seq<Action>, i: nat, j: nat)
    requires Run(states, actions) && i <= j < |states|
    ensures states[j].kind == states[i].kind
  {
    if i < j {
      RunKeepsKind(states, actions, i, j - 1);
      assert StepAt(states, actions, j - 1);
      StepMovesActor(states[j - 1], actions[j - 1], states[j]);
    }
  }

  predicate Below(q: seq<Item>, p: int) {
    forall x | x in q :: x.priority <= p
  }

  /** A step hands out at most one item; in priority mode one that no item left behind outranks. */
  lemma DeliversBest(s: State, a: Action, s': State)
    requires Step(s, a, s')
    ensures s'.delivered == s.delivered
      || (s'.delivered == s.delivered + [s'.delivered[|s.delivered|]] && s'.inserted == s.inserted)
    ensures s.kind == Priority && |s'.delivered| > |s.delivered| ==>
      var x := s'.delivered[|s.delivered|];
      x in s.queue && Below(s.queue, x.priority) && Below(s'.queue, x.priority)
  {
    if a.Take? && s'.delivered != s.delivered {
      assert s.queue == s.queue[..a.i] + [s.queue[a.i]] + s.queue[a.i + 1..];
    }
  }

  /** A remover that reaches the queue can be handed its front, or in priority mode any of its greatest, no other. */
  lemma TakeExactly(s: State, t: Tid, x: Item)
    requires At(s, t, Granted) && !s.locked && !s.down && !s.fault && s.queue != []
    ensures (exists i: nat, s' :: Step(s, Take(t, i), s') && s'.delivered == s.delivered + [x])
      <==> if s.kind == Priority then x in s.queue && Below(s.queue, x.priority) else x == s.queue[0]
  {
    if if s.kind == Priority then x in s.queue && Below(s.queue, x.priority) else x == s.queue[0] {
      var i := if s.kind == Priority then Find(s.queue, x) else 0;
      var s' := Goto(s, t, Idle).(queue := Without(s.queue, i), delivered := s.delivered + [x]);
      assert Step(s, Take(t, i), s');
    }
    forall i: nat, s' | Step(s, Take(t, i), s') && s'.delivered == s.delivered + [x]
      ensures s.queue[i] == x
    {
      assert s'.delivered[|s.delivered|] == x;
    }
  }

  /** What priority mode hands out between two insertions never rises in priority, nor does the rest outrank it. */
  lemma {:induction false} PriorityFalls(states: seq<State>, actions: seq<Action>, i: nat, j: nat)
    requires Run(states, actions) && i <= j < |states| && states[i].kind == Priority
    requires states[j].inserted == states[i].inserted
    ensures var first, d := |states[i].delivered|, states[j].delivered;
      && first <= |d| && d[..first] == states[i].delivered
      && (forall p, q | first <= p < q < |d| :: d[q].priority <= d[p].priority)
      && (forall p | first <= p < |d| :: Below(states[j].queue, d[p].priority))
  {
    if i < j {
      InsertedGrows(states, actions, i, j - 1);
      InsertedGrows(states, actions, j - 1, j);
      assert |states[j - 1].inserted| == |states[i].inserted|;
      PriorityFalls(states, actions, i, j - 1);
      RunKeepsKind(states, actions, i, j - 1);
      assert StepAt(states, actions, j - 1);
      DeliversBest(states[j - 1], actions[j - 1], states[j]);
      QueueShrinks(states[j - 1], actions[j - 1], states[j]);
    }
  }

  lemma {:induction false} InsertedGrows(states: seq<State>, actions: seq<Action>, i: nat, j: nat)
    requires Run(states, actions) && i <= j < |states|
    ensures states[i].inserted <= states[j].inserted
  {
    if i < j {
      InsertedGrows(states, actions, i, j - 1);
      assert StepAt(states, actions, j - 1);
    }
  }

  lemma QueueShrinks(s: State, a: Action, s': State)
    requires Step(s, a, s') && s'.inserted == s.inserted
    ensures forall x | x in s'.queue :: x in s.queue
  {
  }

  /** Whatever touches the queue does so with the lock free. */
  lemma QueueGuarded(s: State, a: Action, s': State)
    requires Step(s, a, s') && s'.queue != s.queue
    ensures !s.locked
  {
  }

  /** With the lock free, removeItem and the taking part of remove can go on, whether there is an item or not. */
  lemma LockFreeGoesOn(s: State, t: Tid, x: Item)
    requires !s.fault && !s.locked
    ensures At(s, t, Idle) && s.kind == Deque ==> exists s' :: Step(s, RemoveItem(t, x), s')
    ensures At(s, t, Granted) ==> exists i: nat, s' :: Step(s, Take(t, i), s')
  {
    if At(s, t, Idle) && s.kind == Deque {
      var s' := if s.down || x !in s.queue then s else
        s.(queue := Without(s.queue, Find(s.queue, x)), erased := s.erased + 1);
      assert Step(s, RemoveItem(t, x), s');
    }
    if At(s, t, Granted) {
      if s.down {
        assert Step(s, Take(t, 0), Goto(s, t, Idle));
      } else if s.queue != [] {
        TakeExactly(s, t, s.queue[if s.kind == Priority then Best(s.queue) else 0]);
      } else {
        var s' := if s.kind == Deque then Goto(s, t, Checking).(probes := s.probes + 1) else s.(fault := true);
        assert Step(s, Take(t, 0), s');
      }
    }
  }

  /** Where the first item of greatest priority is. */
  function Best(q: seq<Item>): (i: nat)
    requires q != []
    ensures i < |q| && Below(q, q[i].priority)
  {
    if |q| == 1 then 0
    else
      var i := Best(q[1..]);
      assert forall x | x in q :: x == q[0] || x in q[1..];
      if q[1..][i].priority > q[0].priority then i + 1 else 0
  }

  predicate InRemove(p: PC) {
    p != Idle && p != Pushed && !InDown(p)
  }

  /** remove comes back with an item, unless an interrupt or down ended it. */
  lemma RemoveReturns(s: State, a: Action, s': State)
    requires Orderly(s) && Step(s, a, s') && InRemove(s.pc[a.t]) && At(s', a.t, Idle)
    ensures s.down || a.Interrupt? || exists x :: x in s.queue && s'.delivered == s.delivered + [x]
  {
    if a.Take? && !s.down {
      assert s.queue[a.i] in s.queue;
    }
  }

  ghost predicate Frozen(s: State, s': State) {
    s'.down && s'.delivered == s.delivered && s'.inserted == s.inserted
  }

  /** Once down is set no remove succeeds and no insert takes effect, in the rest of the run. */
  lemma {:induction false} DownFreezes(states: seq<State>, actions: seq<Action>, i: nat, j: nat)
    requires Run(states, actions) && i <= j < |states| && states[i].down
    ensures Frozen(states[i], states[j])
  {
    if i < j {
      DownFreezes(states, actions, i, j - 1);
      assert StepAt(states, actions, j - 1);
    }
  }

  // ---------------------------------------------------------------- who wakes up at shutdown

  /** The queue is down and the loop of abandon has finished. */
  ghost predicate Closed(s: State) {
    s.down && s.abandoned && Count(s, InDown) == 0
  }

  /** Removers inside decrement that still need a permit, less the permits there are. */
  ghost function Debt(s: State): int {
    Count(s, Blocked) - s.permits
  }

  lemma ClosedStep(s: State, a: Action, s': State)
    requires Orderly(s) && Closed(s) && Step(s, a, s')
    ensures Closed(s')
    ensures Debt(s') == Debt(s) - if a.Interrupt? then 1 else 0
  {
    StepMovesActor(s, a, s');
    CountMoves(s, s', a.t, s'.pc[a.t], InDown);
    CountMoves(s, s', a.t, s'.pc[a.t], Blocked);
    if InDown(s.pc[a.t]) { CountAtLeastOne(s, a.t, InDown); }
    if MidInsert(s.pc[a.t]) { CountAtLeastOne(s, a.t, MidInsert); }
  }

  lemma {:induction false} ClosedRun(states: seq<State>, actions: seq<Action>, i: nat, j: nat)
    requires Run(states, actions) && i <= j < |states| && Closed(states[i])
    ensures Closed(states[j]) && Debt(states[j]) <= Debt(states[i])
    ensures (forall k | i <= k < j :: !actions[k].Interrupt?) ==> Debt(states[j]) == Debt(states[i])
  {
    if i < j {
      ClosedRun(states, actions, i, j - 1);
      RunInv(states, actions, j - 1);
      assert StepAt(states, actions, j - 1);
      ClosedStep(states[j - 1], actions[j - 1], states[j]);
    }
  }

  /**
   * When abandon returns, the debt is the removers past their first check but
   * not yet counted, less the permits left.
   */
  lemma DebtAtShutdown(s: State, t: Tid, s': State)
    requires Orderly(s) && Step(s, EndDown(t), s')
    ensures Closed(s') && Debt(s') == Count(s', Unlisted) - s'.permits
  {
    StepOrderly(s, EndDown(t), s');
    StepMovesActor(s, EndDown(t), s');
    CountMoves(s, s', t, Idle, InDown);
    CountAtLeastOne(s, t, InDown);
    CountAtLeastOne(s, t, InAbandon);
    NobodyCounted(s');
  }

  lemma NobodyCounted(s: State)
    requires Count(s, CountedWaiter) == 0
    ensures Count(s, Blocked) == Count(s, Unlisted)
  {
    assert Threads(s, CountedWaiter) == {};
    assert forall r | r in s.pc && CountedWaiter(s.pc[r]) :: r in Threads(s, CountedWaiter);
    assert Threads(s, Blocked) == Threads(s, Unlisted);
  }

  /**
   * Ever after abandon returns, and while nothing interrupts them, the removers
   * that need a permit outnumber the permits by those that abandon did not see.
   */
  lemma ShutdownStrands(states: seq<State>, actions: seq<Action>, i: nat, j: nat, t: Tid)
    requires Run(states, actions) && i < j < |states| && actions[i] == EndDown(t)
    requires forall k | i < k < j :: !actions[k].Interrupt?
    ensures Closed(states[j])
    ensures Count(states[j], Blocked) - states[j].permits == Count(states[i], Unlisted) - states[i].permits
  {
    RunInv(states, actions, i);
    assert StepAt(states, actions, i);
    DebtAtShutdown(states[i], t, states[i + 1]);
    CountMoves(states[i], states[i + 1], t, Idle, Unlisted);
    ClosedRun(states, actions, i + 1, j);
  }

  /** `t` waits in a closed queue for a permit that only an interrupt could spare it. */
  ghost predicate Stranded(s: State, t: Tid) {
    Closed(s) && At(s, t, Waiting) && s.permits == 0 && Debt(s) > 0
  }

  /** A stranded remover can do nothing but be interrupted, and nobody else can help it. */
  lemma StrandedStays(s: State, t: Tid, a: Action, s': State)
    requires Orderly(s) && Stranded(s, t) && Step(s, a, s') && a != Interrupt(t)
    ensures At(s', t, Waiting) && s'.permits == 0 && Closed(s')
  {
    ClosedStep(s, a, s');
    if MidInsert(s.pc[a.t]) { CountAtLeastOne(s, a.t, MidInsert); }
    if InDown(s.pc[a.t]) { CountAtLeastOne(s, a.t, InDown); }
  }

  // ---------------------------------------------------------------- what decides it when abandon begins

  /** The steps `actions` lead from `s` to `s'`. */
  ghost predicate Leads(s: State, actions: seq<Action>, s': State)
    decreases |actions|
  {
    if actions == [] then s' == s
    else exists mid :: Step(s, actions[0], mid) && Leads(mid, actions[1..], s')
  }

  /** No remover is between its first check and being counted, or there are permits for all of those and the waiters. */
  ghost predicate Covered(s: State) {
    Count(s, Unlisted) == 0 || Debt(s) <= 0
  }

  /** While abandon runs and after: down and abandoned, and once abandon is done without a debt. */
  ghost predicate Safe(s: State) {
    Orderly(s) && s.abandoned && Covered(s) && (Closed(s) ==> Debt(s) <= 0)
  }

  /** The loop of abandon goes on exactly while some remover is counted as waiting, and else ends. */
  lemma AbandonLoops(s: State, t: Tid)
    requires Orderly(s) && At(s, t, Abandoning) && !s.fault
    ensures (exists s' :: Step(s, Wake(t), s')) <==> Count(s, CountedWaiter) > 0
    ensures (exists s' :: Step(s, EndDown(t), s')) <==> Count(s, CountedWaiter) == 0
  {
    assert s.waiters > 0 ==> Step(s, Wake(t), s.(permits := s.permits + 1));
    assert s.waiters <= 0 ==> Step(s, EndDown(t), Goto(s, t, Idle).(locked := false));
  }

  /** With the flag up neither the removers that slipped through, nor those let into the queue, nor the debt grow. */
  lemma AbandonedStep(s: State, a: Action, s': State)
    requires Orderly(s) && s.abandoned && Step(s, a, s')
    ensures s'.abandoned && Orderly(s')
    ensures Count(s', Unlisted) <= Count(s, Unlisted) && Debt(s') <= Debt(s)
    ensures Count(s', LetIn) <= Count(s, LetIn)
  {
    StepOrderly(s, a, s');
    StepMovesActor(s, a, s');
    CountMoves(s, s', a.t, s'.pc[a.t], Unlisted);
    CountMoves(s, s', a.t, s'.pc[a.t], Blocked);
    CountMoves(s, s', a.t, s'.pc[a.t], LetIn);
    if MidInsert(s.pc[a.t]) { CountAtLeastOne(s, a.t, MidInsert); }
  }

  lemma ClosedBefore(s: State, a: Action, s': State)
    requires Orderly(s) && s.abandoned && Step(s, a, s') && Closed(s') && !a.EndDown?
    ensures Closed(s)
  {
    StepMovesActor(s, a, s');
    CountMoves(s, s', a.t, s'.pc[a.t], InDown);
  }

  lemma SafeStep(s: State, a: Action, s': State)
    requires Safe(s) && Step(s, a, s')
    ensures Safe(s')
  {
    hide Orderly, Closed, Debt;
    AbandonedStep(s, a, s');
    if Closed(s') {
      if a.EndDown? {
        DebtAtShutdown(s, a.t, s');
      } else {
        ClosedBefore(s, a, s');
      }
    }
  }

  lemma {:induction false} SafeLeads(s: State, actions: seq<Action>, s': State)
    requires Safe(s) && Leads(s, actions, s')
    ensures Safe(s')
    decreases |actions|
  {
    hide Safe, Step;
    if actions != [] {
      var mid :| Step(s, actions[0], mid) && Leads(mid, actions[1..], s');
      SafeStep(s, actions[0], mid);
      SafeLeads(mid, actions[1..], s');
    }
  }

  lemma LeadsFirst(s: State, a: Action, mid: State, actions: seq<Action>, s': State)
    requires Step(s, a, mid) && Leads(mid, actions, s')
    ensures Leads(s, [a] + actions, s')
  {
    assert ([a] + actions)[1..] == actions;
  }

  predicate Uninterrupted(actions: seq<Action>) {
    forall a | a in actions :: !a.Interrupt?
  }

  /** From `s` some continuation, without interrupts, strands a remover. */
  ghost predicate MayStrand(s: State) {
    exists actions, s', r :: Leads(s, actions, s') && Stranded(s', r) && Uninterrupted(actions)
  }

  /** From `s` some continuation, with or without interrupts, strands a remover. */
  ghost predicate CanStrand(s: State) {
    exists actions, s', r :: Leads(s, actions, s') && Stranded(s', r)
  }

  lemma MayStrandFirst(s: State, a: Action, mid: State)
    requires Step(s, a, mid) && MayStrand(mid) && !a.Interrupt?
    ensures MayStrand(s)
  {
    var actions, s', r :| Leads(mid, actions, s') && Stranded(s', r) && Uninterrupted(actions);
    LeadsFirst(s, a, mid, actions, s');
    assert Stranded(s', r) && Uninterrupted([a] + actions);
  }

  lemma Someone(s: State, f: PC -> bool) returns (r: Tid)
    requires Count(s, f) > 0
    ensures r in s.pc && f(s.pc[r])
  {
    assert Threads(s, f) != {};
    r :| r in Threads(s, f);
  }

  predicate IsWaiting(p: PC) { p == Waiting }
  predicate IsLeaving(p: PC) { p == Leaving }

  lemma WaitersSplit(s: State)
    ensures Count(s, CountedWaiter) == Count(s, IsWaiting) + Count(s, IsLeaving)
    ensures Count(s, Blocked) == Count(s, Unlisted) + Count(s, IsWaiting)
  {
    assert Threads(s, CountedWaiter) == Threads(s, IsWaiting) + Threads(s, IsLeaving);
    assert Threads(s, IsWaiting) !! Threads(s, IsLeaving);
    assert Threads(s, Blocked) == Threads(s, Unlisted) + Threads(s, IsWaiting);
    assert Threads(s, Unlisted) !! Threads(s, IsWaiting);
  }

  function Bit(b: bool): int { if b then 1 else 0 }

  /** What one move of thread `r` does to all counts the construction watches. */
  lemma Moves(s: State, s': State, r: Tid, p: PC)
    requires r in s.pc && s'.pc == s.pc[r := p]
    ensures Count(s', Unlisted) == Count(s, Unlisted) - Bit(Unlisted(s.pc[r])) + Bit(Unlisted(p))
    ensures Count(s', IsWaiting) == Count(s, IsWaiting) - Bit(IsWaiting(s.pc[r])) + Bit(IsWaiting(p))
    ensures Count(s', IsLeaving) == Count(s, IsLeaving) - Bit(IsLeaving(s.pc[r])) + Bit(IsLeaving(p))
    ensures Count(s', InDown) == Count(s, InDown) - Bit(InDown(s.pc[r])) + Bit(InDown(p))
  {
    CountMoves(s, s', r, p, Unlisted);
    CountMoves(s, s', r, p, IsWaiting);
    CountMoves(s, s', r, p, IsLeaving);
    CountMoves(s, s', r, p, InDown);
  }

  /** A closed queue with a debt: let the waiters take what permits there are, then one more remover waits. */
  lemma {:induction false} ClosedStrands(s: State)
    requires Orderly(s) && Closed(s) && Debt(s) > 0 && !s.fault
    ensures MayStrand(s)
    decreases 2 * Count(s, Unlisted) + Count(s, IsWaiting), 1
  {
    WaitersSplit(s);
    if Count(s, IsWaiting) > 0 && s.permits == 0 {
      var r := Someone(s, IsWaiting);
      assert Leads(s, [], s) && Stranded(s, r) && Uninterrupted([]);
    } else if Count(s, IsWaiting) > 0 {
      var r := Someone(s, IsWaiting);
      var s' := Goto(s, r, Leaving).(permits := s.permits - 1);
      ClosedContinues(s, Acquire(r), s');
    } else {
      var r := Someone(s, Unlisted);
      var s' := Goto(s, r, Waiting).(waiters := s.waiters + 1);
      ClosedContinues(s, Enter(r), s');
    }
  }

  lemma ClosedContinues(s: State, a: Action, s': State)
    requires Orderly(s) && Closed(s) && Debt(s) > 0 && !s.fault && Step(s, a, s') && (a.Acquire? || a.Enter?)
    ensures MayStrand(s)
    decreases 2 * Count(s, Unlisted) + Count(s, IsWaiting), 0
  {
    StepOrderly(s, a, s');
    ClosedStep(s, a, s');
    Moves(s, s', a.t, s'.pc[a.t]);
    ClosedStrands(s');
    MayStrandFirst(s, a, s');
  }

  /** In the loop of abandon, on its way to strand a remover. */
  ghost predicate Looping(s: State, t: Tid) {
    Orderly(s) && !s.fault && At(s, t, Abandoning) && Count(s, Unlisted) > 0 && Debt(s) > 0
  }

  /** Bounds the steps until the loop of abandon finds nobody counted. */
  ghost function LoopRank(s: State): nat {
    3 * Count(s, IsWaiting) + Count(s, IsLeaving) + if s.permits == 0 then 1 else 0
  }

  lemma LoopContinues(s: State, t: Tid, a: Action, s': State)
    requires Looping(s, t) && Step(s, a, s') && a.t in s.pc
    requires (a == Wake(t) && s.permits == 0 && Count(s, IsWaiting) > 0) || ((a.Acquire? || a.Leave?) && a.t != t)
    ensures Looping(s', t) && LoopRank(s') < LoopRank(s)
  {
    hide Count, Threads, Orderly, Find, Chosen, Without;
    StepOrderly(s, a, s');
    StepMovesActor(s, a, s');
    Moves(s, s', a.t, s'.pc[a.t]);
    WaitersSplit(s);
    WaitersSplit(s');
  }

  /** Others leave or take permits, woken only when none is left, until abandon returns; the debt stays. */
  lemma {:induction false} LoopStrands(s: State, t: Tid)
    requires Looping(s, t)
    ensures MayStrand(s)
    decreases LoopRank(s), 1
  {
    WaitersSplit(s);
    if Count(s, IsLeaving) > 0 {
      var r := Someone(s, IsLeaving);
      LoopStep(s, t, Leave(r), Goto(s, r, Rechecking).(waiters := s.waiters - 1));
    } else if Count(s, IsWaiting) > 0 && s.permits > 0 {
      var r := Someone(s, IsWaiting);
      LoopStep(s, t, Acquire(r), Goto(s, r, Leaving).(permits := s.permits - 1));
    } else if Count(s, IsWaiting) > 0 {
      LoopStep(s, t, Wake(t), s.(permits := s.permits + 1));
    } else {
      LoopEnds(s, t);
    }
  }

  lemma LoopStep(s: State, t: Tid, a: Action, s': State)
    requires Looping(s, t) && Step(s, a, s') && a.t in s.pc
    requires (a == Wake(t) && s.permits == 0 && Count(s, IsWaiting) > 0) || ((a.Acquire? || a.Leave?) && a.t != t)
    ensures MayStrand(s)
    decreases LoopRank(s), 0
  {
    LoopContinues(s, t, a, s');
    LoopStrands(s', t);
    MayStrandFirst(s, a, s');
  }

  lemma LoopEnds(s: State, t: Tid)
    requires Looping(s, t) && Count(s, CountedWaiter) == 0
    ensures MayStrand(s)
  {
    var s' := Goto(s, t, Idle).(locked := false);
    StepOrderly(s, EndDown(t), s');
    DebtAtShutdown(s, t, s');
    CountMoves(s, s', t, Idle, Unlisted);
    NobodyCounted(s);
    ClosedStrands(s');
    MayStrandFirst(s, EndDown(t), s');
  }

  lemma NeverStrands(s: State)
    requires Safe(s)
    ensures !CanStrand(s)
  {
    forall actions, s', r | Leads(s, actions, s')
      ensures !Stranded(s', r)
    {
      SafeLeads(s, actions, s');
    }
  }

  lemma StrandedAnyhow(s: State)
    requires MayStrand(s)
    ensures CanStrand(s)
  {
    hide Leads, Stranded;
  }

  lemma FlagIsSafe(s: State, t: Tid, s': State)
    requires Orderly(s) && Step(s, MarkAbandoned(t), s') && Covered(s)
    ensures Safe(s')
  {
    hide Orderly;
    StepOrderly(s, MarkAbandoned(t), s');
    CountMoves(s, s', t, Abandoning, Unlisted);
    CountMoves(s, s', t, Abandoning, Blocked);
    CountAtLeastOne(s', t, InDown);
  }

  lemma FlagLoops(s: State, t: Tid, s': State)
    requires Inv(s) && Step(s, MarkAbandoned(t), s') && !Covered(s)
    ensures Looping(s', t)
  {
    hide Orderly;
    StepOrderly(s, MarkAbandoned(t), s');
    CountMoves(s, s', t, Abandoning, Unlisted);
    CountMoves(s, s', t, Abandoning, Blocked);
  }

  /**
   * abandon releases all waiting threads exactly when, as it sets its flag, no
   * remover is between its first check and being counted, or there are permits
   * for all of those and the waiters: then no continuation strands a remover,
   * and otherwise some continuation does.
   */
  lemma AbandonReleasesExactly(s: State, t: Tid, s': State)
    requires Inv(s) && Step(s, MarkAbandoned(t), s')
    ensures Covered(s) <==> !CanStrand(s')
    ensures !Covered(s) ==> MayStrand(s')
  {
    hide Leads, Stranded, CanStrand, MayStrand;
    if Covered(s) {
      FlagIsSafe(s, t, s');
      NeverStrands(s');
    } else {
      FlagLoops(s, t, s');
      LoopStrands(s', t);
      StrandedAnyhow(s');
    }
  }

  /** In every run: a remover can be left stranded after abandon exactly when it was not covered. */
  lemma RunReleasesExactly(states: seq<State>, actions: seq<Action>, i: nat, t: Tid)
    requires Run(states, actions) && i < |actions| && actions[i] == MarkAbandoned(t)
    ensures Covered(states[i]) <==> !CanStrand(states[i + 1])
  {
    RunInv(states, actions, i);
    assert StepAt(states, actions, i);
    AbandonReleasesExactly(states[i], t, states[i + 1]);
  }

  lemma {:induction false} SafeRun(states: seq<State>, actions: seq<Action>, i: nat, j: nat)
    requires Run(states, actions) && i <= j < |states| && Safe(states[i])
    ensures Safe(states[j])
  {
    hide Safe, Step;
    if i < j {
      SafeRun(states, actions, i, j - 1);
      assert StepAt(states, actions, j - 1);
      SafeStep(states[j - 1], actions[j - 1], states[j]);
    }
  }

  /** When every remover was covered as the flag was set, then once abandon is done each waiter finds a permit. */
  lemma ShutdownReleases(states: seq<State>, actions: seq<Action>, i: nat, j: nat, t: Tid, r: Tid)
    requires Run(states, actions) && i < j < |states| && actions[i] == MarkAbandoned(t) && Covered(states[i])
    requires Closed(states[j]) && At(states[j], r, Waiting)
    ensures states[j].permits > 0
  {
    RunInv(states, actions, i);
    assert StepAt(states, actions, i);
    FlagIsSafe(states[i], t, states[i + 1]);
    SafeRun(states, actions, i + 1, j);
    CountAtLeastOne(states[j], r, Blocked);
  }

  /** Thread `t` inserts `x` into an empty queue, and removes it again. */
  function HandOver(s: State, t: Tid, x: Item, k: nat): State
    requires k <= 9
  {
    var pushed := s.(queue := [x], inserted := s.inserted + [x]);
    var posted := pushed.(permits := s.permits + 1);
    if k == 0 then s
    else if k == 1 then Goto(pushed, t, Pushed).(locked := true)
    else if k == 2 then Goto(posted, t, Idle)
    else if k == 3 then Goto(posted, t, Checking)
    else if k == 4 then Goto(posted, t, Entering)
    else if k == 5 then Goto(posted, t, Waiting).(waiters := s.waiters + 1)
    else if k == 6 then Goto(pushed, t, Leaving).(waiters := s.waiters + 1)
    else if k == 7 then Goto(pushed, t, Rechecking)
    else if k == 8 then Goto(pushed, t, Granted)
    else s.(inserted := s.inserted + [x], delivered := s.delivered + [x])
  }

  function HandOverAction(t: Tid, x: Item, k: nat): Action {
    if k == 0 then Insert(t, x) else if k == 1 then Post(t) else if k == 2 then Call(t)
    else if k == 3 then Check(t) else if k == 4 then Enter(t) else if k == 5 then Acquire(t)
    else if k == 6 then Leave(t) else if k == 7 then Recheck(t) else Take(t, 0)
  }

  /**
   * On any open queue found empty and unlocked, an idle thread's insert and
   * remove, step by step, hand it its own item and leave all but the history
   * as it was.
   */
  lemma HandsOver(s: State, t: Tid, x: Item, k: nat)
    requires !s.fault && !s.abandoned && !s.down && !s.locked && s.queue == [] && At(s, t, Idle) && k < 9
    ensures Step(HandOver(s, t, x, k), HandOverAction(t, x, k), HandOver(s, t, x, k + 1))
    ensures HandOver(s, t, x, 9) == s.(inserted := s.inserted + [x], delivered := s.delivered + [x])
  {
    if k < 2 {
    } else if k < 5 {
    } else if k < 8 {
    } else {
      assert s.pc[t := Idle] == s.pc;
      assert Without([x], 0) == [];
    }
  }

  /** A run in which thread 0 checks the semaphore just before thread 1 takes the queue down. */
  function LateCheck(k: nat): State
    requires k <= 6
  {
    var s0 := State(Fifo, [], 0, 0, false, false, false, false, map[0 := Idle, 1 := Idle], [], [], 0, 0);
    if k == 0 then s0
    else if k == 1 then Goto(s0, 0, Checking)
    else if k == 2 then Goto(s0, 0, Entering)
    else
      var s3 := s0.(pc := map[0 := Entering, 1 := Downing], locked := true, down := true);
      if k == 3 then s3
      else if k == 4 then Goto(s3, 1, Abandoning).(abandoned := true)
      else
        var s5 := Goto(s3, 1, Idle).(abandoned := true, locked := false);
        if k == 5 then s5 else Goto(s5, 0, Waiting).(waiters := 1)
  }

  function LateCheckAction(k: nat): Action {
    if k == 0 then Call(0) else if k == 1 then Check(0) else if k == 2 then Down(1)
    else if k == 3 then MarkAbandoned(1) else if k == 4 then EndDown(1) else Enter(0)
  }

  lemma LateCheckStep(k: nat)
    requires k < 6
    ensures Step(LateCheck(k), LateCheckAction(k), LateCheck(k + 1))
  {
  }

  lemma LateCheckStrands()
    ensures Stranded(LateCheck(6), 0)
  {
    var s := LateCheck(6);
    assert Threads(s, InDown) == {};
    assert Threads(s, Blocked) == {0};
  }

  function LateCheckStates(n: nat): (r: seq<State>)
    requires n <= 6
    ensures |r| == n + 1 && forall k | 0 <= k <= n :: r[k] == LateCheck(k)
  {
    if n == 0 then [LateCheck(0)] else LateCheckStates(n - 1) + [LateCheck(n)]
  }

  function LateCheckActions(n: nat): (r: seq<Action>)
    ensures |r| == n && forall k | 0 <= k < n :: r[k] == LateCheckAction(k)
  {
    if n == 0 then [] else LateCheckActions(n - 1) + [LateCheckAction(n - 1)]
  }

  lemma RunExtends(states: seq<State>, actions: seq<Action>, a: Action, s: State)
    requires Run(states, actions) && Step(states[|actions|], a, s)
    ensures Run(states + [s], actions + [a])
  {
    forall i | 0 <= i < |actions| + 1
      ensures StepAt(states + [s], actions + [a], i)
    {
      if i < |actions| {
        assert StepAt(states, actions, i);
      }
    }
  }

  lemma {:induction false} LateCheckRun(n: nat)
    requires n <= 6
    ensures Run(LateCheckStates(n), LateCheckActions(n))
  {
    hide Step;
    if n > 0 {
      LateCheckRun(n - 1);
      LateCheckStep(n - 1);
      RunExtends(LateCheckStates(n - 1), LateCheckActions(n - 1), LateCheckAction(n - 1), LateCheck(n));
    }
  }

  /** The debt is real: that remover ends up stranded. */
  lemma LostWakeup()
    ensures exists states, actions :: Run(states, actions) && Stranded(states[|actions|], 0)
  {
    LateCheckRun(6);
    LateCheckStrands();
    var states, actions := LateCheckStates(6), LateCheckActions(6);
    assert Run(states, actions) && Stranded(states[|actions|], 0);
  }
}
