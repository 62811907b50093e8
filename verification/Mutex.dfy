/** The recursive mutex of ipc.c with priority inheritance, for any number of threads that share
    one mutex. Smaller numbers are more urgent. */
module Mutexes {
  import opened Rings
  import opened WaitLists

  /** The nesting count is an unsigned 8-bit field, counted without a check. */
  const LIMIT: nat := 256

  /** original_priority while nobody owns the mutex. */
  const NONE: int := 0xff

  datatype Owner = Nobody | Owner(t: Thread)

  /** The fields of the mutex and the current priorities of the threads; `held` counts, for each
      thread, the takes that succeeded and have not been released. */
  datatype Mutex = Mutex(
    value: nat, owner: Owner, hold: nat, original: int, queue: seq<Thread>,
    prio: map<Thread, int>, held: map<Thread, int>)

  function Prios(prio: map<Thread, int>): Thread -> int {
    t => if t in prio then prio[t] else NONE
  }

  datatype Op = Take(t: Thread, wait: bool) | Release(t: Thread) | Timeout(t: Thread)

  ghost predicate Enabled(m: Mutex, op: Op) {
    match op
    case Take(t, _) => t in m.prio && t !in m.queue
    case Release(t) => t in m.prio && t !in m.queue
    case Timeout(t) => t in m.queue
  }

  /** What holds however the counts wrap: the mutex is owned exactly while its value is 0, by a
      thread that is not waiting for it, and nobody waits for a free mutex. */
  ghost predicate Shape(m: Mutex) {
    && m.held.Keys == m.prio.Keys
    && m.value == (if m.owner.Nobody? then 1 else 0)
    && m.hold < LIMIT
    && (m.owner.Owner? ==> m.owner.t in m.prio && m.owner.t !in m.queue)
    && (m.owner.Nobody? ==> m.queue == [])
    && Distinct(m.queue)
    && forall t :: t in m.queue ==> t in m.prio
  }

  /** The hold count is the number of unmatched takes of the owner; nobody else has any. */
  ghost predicate Counted(m: Mutex)
    requires Shape(m)
  {
    && (m.hold == 0 <==> m.owner.Nobody?)
    && forall t :: t in m.held ==> m.held[t] == if m.owner == Owner(t) then m.hold else 0
  }

  /** `base` are the threads' own priorities: only the owner may run with a borrowed one, never
      a less urgent one, and the mutex remembers the owner's own. */
  ghost predicate Restorable(m: Mutex, base: map<Thread, int>)
    requires Shape(m)
  {
    && base.Keys == m.prio.Keys
    && (forall t :: t in base && m.owner != Owner(t) ==> m.prio[t] == base[t])
    && (m.owner.Owner? ==> m.original == base[m.owner.t] && m.prio[m.owner.t] <= base[m.owner.t])
  }

  /** The owner is at least as urgent as everyone it keeps waiting. */
  ghost predicate Inherits(m: Mutex)
    requires Shape(m)
  {
    m.owner.Owner? ==> forall t :: t in m.queue ==> m.prio[m.owner.t] <= m.prio[t]
  }

  ghost predicate Sorted(m: Mutex, order: Order) {
    order.Prio? ==> Urgency(m.queue, Prios(m.prio))
  }

  ghost predicate Good(m: Mutex, base: map<Thread, int>, order: Order) {
    Shape(m) && Counted(m) && Restorable(m, base) && Sorted(m, order)
  }

  // ----- the steps

  /** hold ++ and hold -- on eight bits. */
  function More(hold: nat): (r: nat)
    requires hold < LIMIT
    ensures r < LIMIT && (r == 0 <==> hold == LIMIT - 1) && (r != 0 ==> r == hold + 1)
  {
    (hold + 1) % LIMIT
  }

  function Less(hold: nat): (r: nat)
    requires hold < LIMIT
    ensures r < LIMIT && (r == 0 <==> hold == 1) && (hold != 0 ==> r == hold - 1)
  {
    (hold + LIMIT - 1) % LIMIT
  }

  ghost function Acquired(m: Mutex, t: Thread): Mutex
    requires t in m.prio && t in m.held && m.hold < LIMIT
  {
    m.(owner := Owner(t), original := m.prio[t], hold := More(m.hold), held := m.held[t := m.held[t] + 1])
  }

  /** `t` is made to wait; the owner borrows its priority if that is more urgent. */
  ghost function Queued(m: Mutex, t: Thread, order: Order): Mutex
    requires Shape(m) && m.owner.Owner? && t in m.prio
  {
    var o := m.owner.t;
    var prio := if m.prio[t] < m.prio[o] then m.prio[o := m.prio[t]] else m.prio;
    m.(prio := prio, queue := Joined(m.queue, t, Prios(prio), order))
  }

  /** The owner has given back its last hold: to the first waiter, or to nobody. */
  ghost function HandedOn(m: Mutex): Mutex
    requires Shape(m)
  {
    if m.queue != [] then Acquired(m.(queue := m.queue[1..]), m.queue[0])
    else m.(value := m.value + 1, owner := Nobody, original := NONE)
  }

  ghost function Step(m: Mutex, op: Op, order: Order): Mutex
    requires Shape(m) && Enabled(m, op)
  {
    match op
    case Take(t, wait) =>
      if m.owner == Owner(t) then m.(hold := More(m.hold), held := m.held[t := m.held[t] + 1])
      else if m.value > 0 then Acquired(m.(value := m.value - 1), t)
      else if wait then Queued(m, t, order)
      else m
    case Release(t) =>
      if m.owner != Owner(t) then m else
        var less := m.(hold := Less(m.hold), held := m.held[t := m.held[t] - 1]);
        if less.hold == 0 then HandedOn(less.(prio := less.prio[t := less.original])) else less
    case Timeout(t) => m.(queue := Without(m.queue, t))
  }

  /** The owner nests once more than the count can hold. */
  ghost predicate Wraps(m: Mutex, op: Op) {
    op.Take? && m.owner == Owner(op.t) && m.hold + 1 == LIMIT
  }

  /** The last hold is given up while the first waiter is less urgent than another one. */
  ghost predicate Misorders(m: Mutex, op: Op) {
    && op.Release? && m.owner == Owner(op.t) && m.hold == 1 && m.queue != []
    && exists t :: t in m.queue && Prios(m.prio)(t) < Prios(m.prio)(m.queue[0])
  }

  lemma StepShape(m: Mutex, op: Op, order: Order)
    requires Shape(m) && Enabled(m, op)
    ensures Shape(Step(m, op, order))
  {
    match op
    case Take(t, wait) =>
      if m.owner != Owner(t) && m.value == 0 && wait {
        var q := Queued(m, t, order);
        PlacedMembers(m.queue, Place(m.queue, t, Prios(q.prio), order), t);
      }
    case Release(t) =>
      if m.queue != [] {
        FirstLeaves(m.queue);
      }
    case Timeout(t) => MembersWithout(m.queue, t);
  }

  lemma FirstLeaves(q: seq<Thread>)
    requires q != [] && Distinct(q)
    ensures Distinct(q[1..]) && q[0] in q && q[0] !in q[1..] && forall t :: t in q[1..] ==> t in q
  {
    assert forall i :: 0 <= i < |q[1..]| ==> q[1..][i] == q[i + 1];
  }

  lemma TakeCounted(m: Mutex, t: Thread, wait: bool, order: Order)
    requires Shape(m) && Counted(m) && Enabled(m, Take(t, wait))
    ensures Shape(Step(m, Take(t, wait), order))
    ensures Counted(Step(m, Take(t, wait), order)) <==> !Wraps(m, Take(t, wait))
  {
    StepShape(m, Take(t, wait), order);
    hide Distinct, Joined, More, Less;
    var r := Step(m, Take(t, wait), order);
    if m.owner == Owner(t) { assert r.hold == More(m.hold) && r.held[t] == m.hold + 1; }
  }

  lemma ReleaseCounted(m: Mutex, t: Thread, order: Order)
    requires Shape(m) && Counted(m) && Enabled(m, Release(t))
    ensures Shape(Step(m, Release(t), order)) && Counted(Step(m, Release(t), order))
  {
    StepShape(m, Release(t), order);
    if m.queue != [] { FirstLeaves(m.queue); }
    hide Distinct, More, Less;
    var r := Step(m, Release(t), order);
    if m.owner == Owner(t) { assert r.held[t] == m.hold - 1; }
  }

  /** Counts: kept by every step except a nested take at the top of the range. */
  lemma StepCounted(m: Mutex, op: Op, order: Order)
    requires Shape(m) && Counted(m) && Enabled(m, op)
    ensures Shape(Step(m, op, order))
    ensures Counted(Step(m, op, order)) <==> !Wraps(m, op)
  {
    match op
    case Take(t, wait) => hide Shape, Counted, Step, Enabled; TakeCounted(m, t, wait, order);
    case Release(t) => hide Shape, Counted, Step, Enabled; ReleaseCounted(m, t, order);
    case Timeout(t) => hide Distinct, Without; StepShape(m, op, order);
  }

  /** Priorities: borrowed ones are always given back. */
  lemma StepRestorable(m: Mutex, op: Op, order: Order, base: map<Thread, int>)
    requires Shape(m) && Restorable(m, base) && Enabled(m, op)
    ensures Shape(Step(m, op, order)) && Restorable(Step(m, op, order), base)
  {
    StepShape(m, op, order);
    hide Distinct, Joined, Without;
  }

  lemma QueuedMembers(m: Mutex, t: Thread, order: Order)
    requires Shape(m) && m.owner.Owner? && t in m.prio && t !in m.queue
    ensures forall x :: x in Queued(m, t, order).queue <==> x in m.queue || x == t
  {
    var q := Queued(m, t, order);
    PlacedMembers(m.queue, Place(m.queue, t, Prios(q.prio), order), t);
  }

  lemma TakeInherits(m: Mutex, t: Thread, wait: bool, order: Order)
    requires Shape(m) && Inherits(m) && Enabled(m, Take(t, wait))
    ensures Shape(Step(m, Take(t, wait), order)) && Inherits(Step(m, Take(t, wait), order))
  {
    StepShape(m, Take(t, wait), order);
    hide Distinct, Joined, More, Less;
    if m.owner.Owner? { QueuedMembers(m, t, order); }
  }

  lemma ReleaseInherits(m: Mutex, t: Thread, order: Order)
    requires Shape(m) && Inherits(m) && Enabled(m, Release(t))
    ensures Shape(Step(m, Release(t), order))
    ensures Inherits(Step(m, Release(t), order)) <==> !Misorders(m, Release(t))
  {
    StepShape(m, Release(t), order);
    if m.queue != [] { FirstLeaves(m.queue); }
    hide Distinct, More, Less;
    if m.queue != [] { assert m.queue == [m.queue[0]] + m.queue[1..]; }
  }

  /** Inheritance: lost exactly by a last release that picks the wrong waiter. */
  lemma StepInherits(m: Mutex, op: Op, order: Order)
    requires Shape(m) && Inherits(m) && Enabled(m, op)
    ensures Shape(Step(m, op, order))
    ensures Inherits(Step(m, op, order)) <==> !Misorders(m, op)
  {
    match op
    case Take(t, wait) => hide Shape, Inherits, Step, Enabled; TakeInherits(m, t, wait, order);
    case Release(t) => hide Shape, Inherits, Step, Enabled; ReleaseInherits(m, t, order);
    case Timeout(t) =>
      StepShape(m, op, order);
      MembersWithout(m.queue, t);
      hide Distinct, Without;
  }

  // ----- order of the queue

  lemma SamePrios(q: seq<Thread>, prio: map<Thread, int>, prio': map<Thread, int>)
    requires Urgency(q, Prios(prio)) && forall t :: t in q ==> t in prio && t in prio' && prio[t] == prio'[t]
    ensures Urgency(q, Prios(prio'))
  {
    forall i, j | 0 <= i < j < |q| ensures Prios(prio')(q[i]) <= Prios(prio')(q[j]) {
      assert q[i] in q && q[j] in q;
      assert Prios(prio)(q[i]) <= Prios(prio)(q[j]);
      PriosAt(prio, q[i]);
      PriosAt(prio, q[j]);
      PriosAt(prio', q[i]);
      PriosAt(prio', q[j]);
    }
  }

  lemma PriosAt(prio: map<Thread, int>, t: Thread)
    requires t in prio
    ensures Prios(prio)(t) == prio[t]
  {
  }

  lemma StepSorted(m: Mutex, op: Op)
    requires Shape(m) && Sorted(m, Prio) && Enabled(m, op)
    ensures Shape(Step(m, op, Prio)) && Sorted(Step(m, op, Prio), Prio)
  {
    StepShape(m, op, Prio);
    var r := Step(m, op, Prio);
    hide Distinct, Joined, Without, Urgency;
    match op
    case Take(t, wait) =>
      if m.owner != Owner(t) && m.value == 0 && wait {
        SamePrios(m.queue, m.prio, r.prio);
        JoinedIsStable(m.queue, t, Prios(r.prio), Prio);
      }
    case Release(t) =>
      if r.queue != m.queue {
        UrgencyDropped(m.queue, Prios(m.prio), 0);
        assert Dropped(m.queue, 0) == m.queue[1..];
        SamePrios(r.queue, m.prio, r.prio);
      } else {
        SamePrios(m.queue, m.prio, r.prio);
      }
    case Timeout(t) => TimeoutSorted(m, t);
  }

  lemma TimeoutSorted(m: Mutex, t: Thread)
    requires t in m.queue && Urgency(m.queue, Prios(m.prio))
    ensures Urgency(Without(m.queue, t), Prios(m.prio))
  {
    UrgencyDropped(m.queue, Prios(m.prio), Position(m.queue, t));
  }

  /** In priority order the first waiter is the most urgent, so inheritance is never lost. */
  lemma SortedNeverMisorders(m: Mutex, op: Op)
    requires Shape(m) && Sorted(m, Prio)
    ensures !Misorders(m, op)
  {
    forall t | t in m.queue ensures Prios(m.prio)(m.queue[0]) <= Prios(m.prio)(t) {
      var i :| 0 <= i < |m.queue| && m.queue[i] == t;
    }
  }

  // ----- runs

  /** One step of a priority-ordered mutex keeps everything, exactly unless the count wraps. */
  lemma StepKeeps(m: Mutex, op: Op, base: map<Thread, int>)
    requires Good(m, base, Prio) && Inherits(m) && Enabled(m, op)
    ensures var r := Step(m, op, Prio);
      && Shape(r) && Restorable(r, base) && Sorted(r, Prio) && Inherits(r)
      && (Good(r, base, Prio) <==> !Wraps(m, op))
  {
    hide Shape, Counted, Restorable, Sorted, Inherits, Step, Wraps, Misorders;
    StepCounted(m, op, Prio);
    StepRestorable(m, op, Prio, base);
    StepSorted(m, op);
    SortedNeverMisorders(m, op);
    StepInherits(m, op, Prio);
  }

  ghost predicate IsRun(ops: seq<Op>, trace: seq<Mutex>, order: Order) {
    && |trace| == |ops| + 1
    && forall i :: 0 <= i < |ops| ==>
         Shape(trace[i]) && Enabled(trace[i], ops[i]) && trace[i + 1] == Step(trace[i], ops[i], order)
  }

  /** Over every run without a 256-fold nesting: the owner is never less urgent than a waiter,
      the hold count is its number of unmatched takes, and everyone else has its own priority. */
  lemma {:induction false} EveryRun(ops: seq<Op>, trace: seq<Mutex>, base: map<Thread, int>)
    requires IsRun(ops, trace, Prio) && Good(trace[0], base, Prio) && Inherits(trace[0])
    requires forall i :: 0 <= i < |ops| ==> !Wraps(trace[i], ops[i])
    ensures forall i :: 0 <= i < |trace| ==> Good(trace[i], base, Prio) && Inherits(trace[i])
  {
    hide Good, Inherits, Step, Wraps;
    if ops != [] {
      StepKeeps(trace[0], ops[0], base);
      var ops', trace' := ops[1..], trace[1..];
      assert forall i :: 0 <= i < |ops'| ==> ops'[i] == ops[i + 1];
      assert forall i :: 0 <= i < |trace'| ==> trace'[i] == trace[i + 1];
      EveryRun(ops', trace', base);
      assert forall i :: 1 <= i < |trace| ==> trace[i] == trace'[i - 1];
    }
  }

  /** The last release gives the owner its own priority back and the mutex to the head of the
      queue, who holds it once; with an empty queue the mutex becomes free. */
  lemma LastRelease(m: Mutex, t: Thread, base: map<Thread, int>, order: Order)
    requires Good(m, base, order) && m.owner == Owner(t) && m.held[t] == 1
    ensures var r := Step(m, Release(t), order);
      && r.prio[t] == base[t] && r.held[t] == 0
      && (m.queue == [] ==> r.owner == Nobody && r.value == 1)
      && (m.queue != [] ==> r.owner == Owner(m.queue[0]) && r.held[m.queue[0]] == 1 && r.queue == m.queue[1..])
  {
    hide Distinct, Sorted;
    if m.queue != [] { FirstLeaves(m.queue); }
  }

  // ----- who gets what

  /** A take of a free mutex makes the thread its owner; a take by the owner counts once more; a
      take of a busy one either changes nothing or queues the thread and lends its priority. */
  lemma TakeOutcome(m: Mutex, t: Thread, wait: bool, order: Order)
    requires Shape(m) && Counted(m) && Enabled(m, Take(t, wait))
    ensures var r := Step(m, Take(t, wait), order);
      && (m.owner == Nobody ==>
            r.owner == Owner(t) && r.value == 0 && r.hold == 1 && r.original == m.prio[t] && r.prio == m.prio
            && r.queue == m.queue)
      && (m.owner == Owner(t) ==>
            r.owner == m.owner && r.value == m.value && r.original == m.original && r.prio == m.prio
            && r.queue == m.queue && r.held == m.held[t := m.held[t] + 1])
      && (m.owner != Nobody && m.owner != Owner(t) && !wait ==> r == m)
  {
    hide Distinct, Joined;
  }

  /** A thread that waits for a busy mutex. */
  lemma WaitOutcome(m: Mutex, t: Thread, order: Order)
    requires Shape(m) && Enabled(m, Take(t, true)) && m.owner != Nobody && m.owner != Owner(t)
    ensures var r, o := Step(m, Take(t, true), order), m.owner.t;
      && r.owner == m.owner && r.value == m.value && r.hold == m.hold && r.original == m.original && r.held == m.held
      && (forall x :: x in m.prio && x != o ==> x in r.prio && r.prio[x] == m.prio[x])
      && o in r.prio && r.prio[o] == (if m.prio[t] < m.prio[o] then m.prio[t] else m.prio[o])
      && (exists k :: 0 <= k < |r.queue| && r.queue[k] == t && Dropped(r.queue, k) == m.queue
            && (order == Fifo ==> k == |m.queue|))
  {
    hide Distinct, Joined, Dropped;
    InsertedOnce(m.queue, t, Prios(Step(m, Take(t, true), order).prio), order);
  }

  lemma InsertedOnce(q: seq<Thread>, t: Thread, prio: Thread -> int, order: Order)
    ensures var r := Joined(q, t, prio, order);
      exists k :: 0 <= k < |r| && r[k] == t && Dropped(r, k) == q && (order == Fifo ==> k == |q|)
  {
    hide Joined, Urgency, Dropped;
    JoinedIsStable(q, t, prio, order);
  }

  /** Only the owner can release; while it holds the mutex more than once, a release only counts. */
  lemma ReleaseOutcome(m: Mutex, t: Thread, order: Order)
    requires Shape(m) && Counted(m) && Enabled(m, Release(t))
    ensures var r := Step(m, Release(t), order);
      && (m.owner != Owner(t) ==> r == m)
      && (m.owner == Owner(t) && m.hold > 1 ==>
            r == m.(hold := m.hold - 1, held := m.held[t := m.held[t] - 1]))
  {
    hide Distinct;
  }

  /** A timeout takes the thread out of the queue; the owner keeps what it has borrowed. */
  lemma TimeoutOutcome(m: Mutex, t: Thread, order: Order)
    requires Shape(m) && t in m.queue
    ensures var r := Step(m, Timeout(t), order);
      && r == m.(queue := r.queue) && t !in r.queue
      && forall x :: x != t ==> (x in r.queue <==> x in m.queue)
  {
    MembersWithout(m.queue, t);
  }

  // ----- where it breaks

  /** An owner that nests 257 times loses the mutex at its next release, with 256 takes
      still unmatched. */
  lemma NestingTooDeep(m: Mutex, t: Thread, base: map<Thread, int>, order: Order)
    requires Good(m, base, order) && m.owner == Owner(t) && m.hold == LIMIT - 1
    ensures var m1 := Step(m, Take(t, true), order);
      Shape(m1) && var m2 := Step(m1, Take(t, true), order);
      Shape(m2) && var m3 := Step(m2, Release(t), order);
      t in m3.held && m3.held[t] == LIMIT && m3.owner != Owner(t)
  {
    hide Sorted;
    StepShape(m, Take(t, true), order);
    var m1 := Step(m, Take(t, true), order);
    StepShape(m1, Take(t, true), order);
    var m2 := Step(m1, Take(t, true), order);
    if m.queue != [] { FirstLeaves(m.queue); }
  }

  /** Thread 1 owns, 2 (less urgent) and then 3 (more urgent) wait, and 1 releases. */
  ghost function FifoOp(k: nat): Op {
    if k == 0 then Take(1, true) else if k == 1 then Take(2, true) else if k == 2 then Take(3, true) else Release(1)
  }

  ghost function FifoState(k: nat): Mutex {
    var base := map[1 := 5, 2 := 6, 3 := 4];
    if k == 0 then Mutex(1, Nobody, 0, NONE, [], base, map[1 := 0, 2 := 0, 3 := 0])
    else if k == 1 then Mutex(0, Owner(1), 1, 5, [], base, map[1 := 1, 2 := 0, 3 := 0])
    else if k == 2 then Mutex(0, Owner(1), 1, 5, [2], base, map[1 := 1, 2 := 0, 3 := 0])
    else if k == 3 then Mutex(0, Owner(1), 1, 5, [2, 3], base[1 := 4], map[1 := 1, 2 := 0, 3 := 0])
    else Mutex(0, Owner(2), 1, 6, [3], base, map[1 := 0, 2 := 1, 3 := 0])
  }

  lemma FifoShape(k: nat)
    ensures Shape(FifoState(k)) && Enabled(FifoState(k), FifoOp(k))
  {
  }

  lemma FifoTakes(k: nat)
    requires k < 3
    ensures Shape(FifoState(k)) && Enabled(FifoState(k), FifoOp(k))
    ensures Step(FifoState(k), FifoOp(k), Fifo) == FifoState(k + 1)
  {
    FifoShape(k);
    hide Shape, Enabled;
  }

  lemma FifoRelease()
    ensures Shape(FifoState(3)) && Enabled(FifoState(3), FifoOp(3))
    ensures Step(FifoState(3), FifoOp(3), Fifo) == FifoState(4)
  {
    FifoShape(3);
    hide Shape, Enabled;
    var m := FifoState(3);
    assert m.prio[1 := 5] == FifoState(4).prio;
    assert m.held[1 := 0][2 := 1] == FifoState(4).held;
  }

  /** With a FIFO queue a run from a fresh mutex reaches a state whose owner is less urgent than
      a waiter. */
  lemma FifoLosesInheritance()
    ensures var m := FifoState(0); Good(m, m.prio, Fifo) && Inherits(m)
    ensures forall k: nat {:trigger FifoOp(k)} :: k < 4 ==>
      && Shape(FifoState(k)) && Enabled(FifoState(k), FifoOp(k))
      && Step(FifoState(k), FifoOp(k), Fifo) == FifoState(k + 1)
    ensures Shape(FifoState(4)) && !Inherits(FifoState(4))
  {
    FifoEnds();
    hide Step, Shape, Inherits, Good, FifoState, FifoOp, Enabled;
    forall k: nat | k < 4
      ensures Shape(FifoState(k)) && Enabled(FifoState(k), FifoOp(k))
    ensures Step(FifoState(k), FifoOp(k), Fifo) == FifoState(k + 1)
    {
      if k < 3 { FifoTakes(k); } else { FifoRelease(); }
    }
  }

  lemma FifoEnds()
    ensures var m := FifoState(0); Good(m, m.prio, Fifo) && Inherits(m)
    ensures Shape(FifoState(4)) && !Inherits(FifoState(4))
  {
    hide Step;
    assert 3 in FifoState(4).queue;
  }

  /** The fields after a release, case by case. */
  lemma ReleaseFields(m: Mutex, t: Thread, order: Order)
    requires Shape(m) && Enabled(m, Release(t))
    ensures var r := Step(m, Release(t), order);
      && (m.owner != Owner(t) ==> r == m)
      && (m.owner == Owner(t) ==>
            && t in m.held
            && (m.hold != 1 ==> r == m.(hold := Less(m.hold), held := r.held))
            && (m.hold == 1 && m.queue == [] ==>
                  r == m.(value := m.value + 1, owner := Nobody, original := NONE, hold := 0,
                          prio := m.prio[t := m.original], held := r.held))
            && (m.hold == 1 && m.queue != [] ==>
                  && m.queue[0] in m.prio && m.queue[0] != t
                  && r == m.(owner := Owner(m.queue[0]), original := m.prio[m.queue[0]], queue := m.queue[1..],
                             prio := m.prio[t := m.original], held := r.held)))
  {
    hide Distinct;
    if m.owner == Owner(t) && m.hold == 1 && m.queue != [] {
      var first, less := m.queue[0], m.(hold := 0, held := m.held[t := m.held[t] - 1], prio := m.prio[t := m.original]);
      assert first in m.queue && first != t;
      assert Step(m, Release(t), order) == HandedOn(less);
      assert less.prio[first] == m.prio[first] && More(0) == 1;
    }
  }

  lemma ShapeParts(m: Mutex)
    requires Shape(m)
    ensures m.hold < LIMIT && (m.owner.Owner? ==> m.owner.t in m.prio) && m.value == (if m.owner.Nobody? then 1 else 0)
  {
  }

  class MutexLock {
    const order: Order
    var value: nat
    var owner: Owner
    var hold: nat
    var original: int
    var queue: seq<Thread>
    /** The current_priority fields of the threads. */
    var prio: map<Thread, int>
    ghost var m: Mutex

    ghost predicate Valid()
      reads this
    {
      Shape(m) && m == Mutex(value, owner, hold, original, queue, prio, m.held)
    }

    constructor (order: Order, prio: map<Thread, int>)
      ensures Valid() && m == Mutex(1, Nobody, 0, NONE, [], prio, map t | t in prio :: 0)
      ensures Good(m, prio, order) && Inherits(m) && this.order == order
    {
      this.order, this.prio := order, prio;
      value, owner, hold, original, queue := 1, Nobody, 0, NONE, [];
      m := Mutex(1, Nobody, 0, NONE, [], prio, map t | t in prio :: 0);
    }

    /** rt_mutex_take up to the point where it returns or suspends. */
    method Take(t: Thread, time: int) returns (granted: bool, suspended: bool)
      requires Valid() && t in prio && t !in queue
      modifies this
      ensures Valid() && m == Step(old(m), Op.Take(t, time != 0), order)
      ensures granted == (owner == Owner(t)) && suspended == (!granted && time != 0)
    {
      hide Shape, Joined, More;
      StepShape(m, Op.Take(t, time != 0), order);
      ShapeParts(m);
      m := Step(m, Op.Take(t, time != 0), order);
      if owner == Owner(t) {
        hold := More(hold);
        return true, false;
      }
      if value > 0 {
        value := value - 1;
        owner, original := Owner(t), prio[t];
        hold := More(hold);
        return true, false;
      }
      if time == 0 {
        return false, false;
      }
      if prio[t] < prio[owner.t] {
        prio := prio[owner.t := prio[t]];
      }
      queue := Joined(queue, t, Prios(prio), order);
      return false, true;
    }

    /** rt_mutex_release. */
    method Release(t: Thread) returns (ok: bool, resumed: bool)
      requires Valid() && t in prio && t !in queue
      modifies this
      ensures Valid() && m == Step(old(m), Op.Release(t), order)
      ensures ok == (old(owner) == Owner(t))
      ensures resumed == (queue != old(queue))
    {
      hide Shape, Step, More, Less;
      StepShape(m, Op.Release(t), order);
      ReleaseFields(m, t, order);
      ShapeParts(m);
      m := Step(m, Op.Release(t), order);
      if owner != Owner(t) {
        return false, false;
      }
      hold := Less(hold);
      if hold != 0 {
        return true, false;
      }
      if original != prio[t] {
        prio := prio[t := original];
      }
      if queue != [] {
        var thread := queue[0];
        owner, original, hold, queue := Owner(thread), prio[thread], More(hold), queue[1..];
        return true, true;
      }
      value, owner, original := value + 1, Nobody, NONE;
      return true, false;
    }
  }
}
