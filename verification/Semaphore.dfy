/** The counting semaphore of ipc.c. A release hands its unit straight to the first waiter, so
    a woken thread returns without looking again. */
module Semaphores {
  import opened Rings
  import opened WaitLists

  /** The counter is an unsigned 16-bit field, incremented without a check. */
  const LIMIT: nat := 0x1_0000

  /** `initial` units at the start, `releases` calls since, `grants` units handed to takers,
      and `overflows` times the counter went back to zero. */
  datatype Sem = Sem(value: nat, queue: seq<Thread>, initial: nat, releases: nat, grants: nat, overflows: nat)

  ghost predicate Good(s: Sem) {
    && s.value < LIMIT
    && Distinct(s.queue)
    && (s.queue != [] ==> s.value == 0)
    && s.initial + s.releases == s.value + s.grants + LIMIT * s.overflows
  }

  datatype Op = Take(t: Thread, wait: bool, k: nat) | Release | Timeout(t: Thread)

  ghost predicate Enabled(s: Sem, op: Op) {
    match op
    case Take(t, _, k) => t !in s.queue && k <= |s.queue|
    case Release => true
    case Timeout(t) => t in s.queue
  }

  ghost function Step(s: Sem, op: Op): Sem
    requires Enabled(s, op)
  {
    match op
    case Take(t, wait, k) =>
      if s.value > 0 then s.(value := s.value - 1, grants := s.grants + 1)
      else if wait then s.(queue := Placed(s.queue, k, t))
      else s
    case Release =>
      var r := s.(releases := s.releases + 1);
      if s.queue != [] then r.(queue := s.queue[1..], grants := s.grants + 1)
      else if s.value + 1 == LIMIT then r.(value := 0, overflows := s.overflows + 1)
      else r.(value := s.value + 1)
    case Timeout(t) => s.(queue := Without(s.queue, t))
  }

  lemma StepKeeps(s: Sem, op: Op)
    requires Good(s) && Enabled(s, op)
    ensures Good(Step(s, op))
  {
    match op
    case Take(t, _, k) => PlacedMembers(s.queue, k, t);
    case Release =>
      if s.queue != [] { assert forall i :: 0 <= i < |s.queue[1..]| ==> s.queue[1..][i] == s.queue[i + 1]; }
    case Timeout(t) => MembersWithout(s.queue, t);
  }

  /** Over every run: units are conserved up to counter overflows, a timeout neither creates nor
      loses one, and threads wait only while the counter is zero. */
  lemma {:induction false} EveryRun(ops: seq<Op>, trace: seq<Sem>)
    requires |trace| == |ops| + 1 && Good(trace[0])
    requires forall i :: 0 <= i < |ops| ==> Enabled(trace[i], ops[i]) && trace[i + 1] == Step(trace[i], ops[i])
    ensures forall i :: 0 <= i < |trace| ==> Good(trace[i])
    ensures trace[|ops|].overflows >= trace[0].overflows
    ensures trace[|ops|].overflows == trace[0].overflows <==>
      forall i :: 0 <= i < |ops| ==> !Overflowing(trace[i], ops[i])
  {
    if ops != [] {
      StepKeeps(trace[0], ops[0]);
      var ops', trace' := ops[1..], trace[1..];
      EveryRun(ops', trace');
      assert forall i :: 1 <= i < |trace| ==> trace[i] == trace'[i - 1];
      assert forall i :: 1 <= i < |ops| ==> ops[i] == ops'[i - 1];
      assert trace'[|ops'|] == trace[|ops|];
      if forall i :: 0 <= i < |ops| ==> !Overflowing(trace[i], ops[i]) {
        forall i | 0 <= i < |ops'| ensures !Overflowing(trace'[i], ops'[i]) {
          assert !Overflowing(trace[i + 1], ops[i + 1]);
        }
      }
    }
  }

  /** A release at the top of the counter's range with nobody waiting. */
  ghost predicate Overflowing(s: Sem, op: Op) {
    op.Release? && s.queue == [] && s.value + 1 == LIMIT
  }

  /** Conservation in the plain sense, initial + releases == value + grants, survives a step
      exactly if the step is not an overflowing release. */
  lemma ConservedIff(s: Sem, op: Op)
    requires Good(s) && Enabled(s, op) && s.overflows == 0
    ensures var r := Step(s, op); r.initial + r.releases == r.value + r.grants <==> !Overflowing(s, op)
  {
  }

  // ----- who gets what

  /** A take is granted exactly while there are units; otherwise a thread that waits stands in the
      queue, with everyone else as before, and one that does not changes nothing. */
  lemma TakeOutcome(s: Sem, t: Thread, wait: bool, k: nat)
    requires Good(s) && Enabled(s, Take(t, wait, k))
    ensures var r := Step(s, Take(t, wait, k));
      && (s.value > 0 ==> r.value == s.value - 1 && r.grants == s.grants + 1 && r.queue == s.queue)
      && (s.value == 0 ==> r.value == 0 && r.grants == s.grants)
      && (s.value == 0 && wait ==> r.queue[k] == t && Dropped(r.queue, k) == s.queue)
      && (s.value == 0 && !wait ==> r == s)
  {
    if s.value == 0 && wait { assert Dropped(Placed(s.queue, k, t), k) == s.queue; }
  }

  /** A release hands its unit to the first thread of the queue, a most urgent one in priority
      order; with nobody waiting it is counted. */
  lemma ReleaseOutcome(s: Sem, prio: Thread -> int)
    requires Good(s)
    ensures var r := Step(s, Release);
      && (s.queue != [] ==> s.queue == [s.queue[0]] + r.queue && r.value == 0 && r.grants == s.grants + 1)
      && (s.queue != [] && Urgency(s.queue, prio) ==> forall x :: x in r.queue ==> prio(s.queue[0]) <= prio(x))
      && (s.queue == [] ==> r.queue == [] && r.grants == s.grants && r.value == (s.value + 1) % LIMIT)
  {
    var r := Step(s, Release);
    if s.queue != [] && Urgency(s.queue, prio) {
      forall x | x in r.queue ensures prio(s.queue[0]) <= prio(x) {
        var i :| 0 <= i < |r.queue| && r.queue[i] == x;
        assert prio(s.queue[0]) <= prio(s.queue[i + 1]);
      }
    }
  }

  /** A timeout takes one thread out of the queue. */
  lemma TimeoutOutcome(s: Sem, t: Thread)
    requires Good(s) && t in s.queue
    ensures var r := Step(s, Timeout(t));
      && r == s.(queue := r.queue) && t !in r.queue && |r.queue| == |s.queue| - 1
      && forall x :: x != t ==> (x in r.queue <==> x in s.queue)
  {
    MembersWithout(s.queue, t);
  }

  // ----- priority order

  /** A thread that has to wait joins in priority order. */
  ghost predicate InOrder(s: Sem, op: Op, prio: Thread -> int) {
    op.Take? ==> op.k == Place(s.queue, op.t, prio, Prio)
  }

  lemma StepSorted(s: Sem, op: Op, prio: Thread -> int)
    requires Enabled(s, op) && InOrder(s, op, prio) && Urgency(s.queue, prio)
    ensures Urgency(Step(s, op).queue, prio)
  {
    hide Urgency;
    match op
    case Take(t, _, _) => JoinedIsStable(s.queue, t, prio, Prio);
    case Release => if s.queue != [] { UrgencyTail(s.queue, prio); }
    case Timeout(t) => UrgencyWithout(s.queue, t, prio);
  }

  /** Over every run of a priority-ordered semaphore the queue is sorted by urgency. */
  lemma {:induction false} EveryRunSorted(ops: seq<Op>, trace: seq<Sem>, prio: Thread -> int)
    requires |trace| == |ops| + 1 && Urgency(trace[0].queue, prio)
    requires forall i :: 0 <= i < |ops| ==>
      Enabled(trace[i], ops[i]) && InOrder(trace[i], ops[i], prio) && trace[i + 1] == Step(trace[i], ops[i])
    ensures forall i :: 0 <= i < |trace| ==> Urgency(trace[i].queue, prio)
  {
    hide Urgency, InOrder, Step;
    if ops != [] {
      StepSorted(trace[0], ops[0], prio);
      EveryRunSorted(ops[1..], trace[1..], prio);
      assert forall i :: 1 <= i < |trace| ==> trace[i] == trace[1..][i - 1];
    }
  }

  class Semaphore {
    const order: Order
    const prio: Thread -> int
    var value: nat
    var queue: seq<Thread>
    ghost var s: Sem

    ghost predicate Valid()
      reads this
    {
      Good(s) && value == s.value && queue == s.queue
    }

    constructor (value: nat, order: Order, prio: Thread -> int)
      requires value < LIMIT
      ensures Valid() && s == Sem(value, [], value, 0, 0, 0)
    {
      this.order, this.prio := order, prio;
      this.value, queue := value, [];
      s := Sem(value, [], value, 0, 0, 0);
    }

    /** rt_sem_take up to the point where it returns or suspends. */
    method Take(t: Thread, time: int) returns (granted: bool, suspended: bool)
      requires Valid() && t !in queue
      modifies this
      ensures Valid()
      ensures var op := Op.Take(t, time != 0, Place(old(queue), t, prio, order));
        Enabled(old(s), op) && s == Step(old(s), op)
      ensures granted == (old(value) > 0) && suspended == (old(value) == 0 && time != 0)
    {
      ghost var op := Op.Take(t, time != 0, Place(queue, t, prio, order));
      StepKeeps(s, op);
      s := Step(s, op);
      if value > 0 {
        value := value - 1;
        return true, false;
      }
      if time == 0 {
        return false, false;
      }
      queue := Joined(queue, t, prio, order);
      return false, true;
    }

    /** rt_sem_release. */
    method Release() returns (resumed: bool)
      requires Valid()
      modifies this
      ensures Valid() && s == Step(old(s), Op.Release)
      ensures resumed == (old(queue) != [])
    {
      StepKeeps(s, Op.Release);
      s := Step(s, Op.Release);
      if queue != [] {
        queue := queue[1..];
        return true;
      }
      value := (value + 1) % LIMIT;
      return false;
    }
  }
}
