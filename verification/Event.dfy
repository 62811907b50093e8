/** The event groups of ipc.c: a word of flag bits, and threads that wait for all or for any of
    the bits they name. A send wakes every waiter whose condition holds and may clear bits on
    the way. */
module Events {
  import opened Rings
  import opened WaitLists
  import opened Words

  // ----- conditions

  /** A suspended receiver: its event_set and the three flags of its event_info. */
  datatype Waiter = Waiter(t: Thread, want: Bits, all: bool, any: bool, clear: bool)

  predicate Satisfied(flags: Bits, w: Waiter) {
    if w.all then And(w.want, flags) == w.want else w.any && And(w.want, flags) != 0
  }

  /** What rt_event_recv reports when the condition holds on entry. */
  function Reported(flags: Bits, w: Waiter): Bits {
    And(flags, w.want)
  }

  /** The flags it leaves behind. */
  function Remaining(flags: Bits, w: Waiter): Bits {
    if w.clear then AndNot(flags, w.want) else flags
  }

  /** Nobody is left waiting for something that has happened. */
  ghost predicate Quiet(flags: Bits, queue: seq<Waiter>) {
    forall i :: 0 <= i < |queue| ==> !Satisfied(flags, queue[i])
  }

  /** The condition of a receiver, bit by bit: AND needs every bit it names, OR some bit. */
  ghost predicate Meets(flags: Bits, w: Waiter) {
    if w.all then Within(w.want, flags) else w.any && Share(w.want, flags)
  }

  lemma SatisfiedIff(flags: Bits, w: Waiter)
    ensures Satisfied(flags, w) <==> Meets(flags, w)
  {
    hide And, Within, Share;
    AllBits(w.want, flags);
    CommonBit(w.want, flags);
  }

  /** A receiver reports the bits it asked for that are set; they stay set unless it clears. */
  lemma ReceivedBits(flags: Bits, w: Waiter, i: nat)
    ensures Bit(Reported(flags, w), i) <==> Bit(flags, i) && Bit(w.want, i)
    ensures Bit(Remaining(flags, w), i) <==> Bit(flags, i) && !(w.clear && Bit(w.want, i))
  {
    hide And, AndNot, Bit;
    AndBit(flags, w.want, i);
    AndNotBit(flags, w.want, i);
  }

  lemma FewerBits(flags: Bits, less: Bits, w: Waiter)
    requires Subset(less, flags) && !Satisfied(flags, w)
    ensures !Satisfied(less, w)
  {
    hide And;
    if w.all {
      if Subset(w.want, less) { SubsetTrans(w.want, less, flags); }
    } else if w.any {
      Disjoint(less, flags, w.want);
    }
  }

  lemma RemainingLess(flags: Bits, w: Waiter)
    ensures Subset(flags, flags) && Subset(Remaining(flags, w), flags)
  {
    hide And, AndNot;
    Meet(flags, flags);
    Cutting(flags, w.want);
  }

  /** How rt_event_send serves a waiter: for OR it narrows event_set to the bits present, then
      reports event_set and clears it. This is what an immediate receive would have done. */
  lemma WakeLikeReceive(flags: Bits, w: Waiter)
    requires Satisfied(flags, w)
    ensures var saved := if w.all then w.want else And(w.want, flags);
      saved == Reported(flags, w) && (if w.clear then AndNot(flags, saved) else flags) == Remaining(flags, w)
  {
    hide And, AndNot;
    Meet(flags, w.want);
    Cutting(flags, w.want);
  }

  /** What a satisfied receiver reports meets its condition by itself, and is part of what it
      asked for: all of it for AND, some of it for OR. */
  lemma ReportedEnough(flags: Bits, w: Waiter)
    requires Satisfied(flags, w) && w.want != 0
    ensures var got := Reported(flags, w);
      got != 0 && Subset(got, w.want) && Satisfied(got, w) && (w.all ==> got == w.want)
  {
    hide And;
    Meet(flags, w.want);
    Meet(And(flags, w.want), w.want);
    Meet(w.want, w.want);
  }

  // ----- the scan

  /** What a send leaves: the flags, the threads still waiting, and the threads woken, in list
      order, each with the bits it reports. Each woken thread counts as an immediate receive at
      its point of the scan. */
  datatype Scanned = Scanned(flags: Bits, queue: seq<Waiter>, woken: seq<Waiter>, got: seq<Bits>)

  function Scan(flags: Bits, queue: seq<Waiter>): Scanned
    decreases |queue|
  {
    if queue == [] then Scanned(flags, [], [], []) else
      var w := queue[0];
      if Satisfied(flags, w) then
        var r := Scan(Remaining(flags, w), queue[1..]);
        r.(woken := [w] + r.woken, got := [Reported(flags, w)] + r.got)
      else
        var r := Scan(flags, queue[1..]);
        r.(queue := [w] + r.queue)
  }

  /** A scan only clears bits, and no thread it leaves waiting is satisfied by what is left,
      although bits disappear while it runs. */
  lemma {:induction false} ScanQuiets(flags: Bits, queue: seq<Waiter>)
    ensures Subset(Scan(flags, queue).flags, flags) && Quiet(Scan(flags, queue).flags, Scan(flags, queue).queue)
    decreases |queue|
  {
    hide Satisfied, Subset, Remaining, Reported;
    if queue == [] {
      RemainingLess(flags, Waiter(0, 0, false, false, false));
    } else {
      var w := queue[0];
      if Satisfied(flags, w) {
        var left := Remaining(flags, w);
        ScanQuiets(left, queue[1..]);
        RemainingLess(flags, w);
        SubsetTrans(Scan(left, queue[1..]).flags, left, flags);
      } else {
        ScanQuiets(flags, queue[1..]);
        FewerBits(flags, Scan(flags, queue[1..]).flags, w);
      }
    }
  }

  /** Every waiter is either woken or still waiting. */
  lemma {:induction false} ScanSplits(flags: Bits, queue: seq<Waiter>)
    ensures var r := Scan(flags, queue); multiset(r.queue) + multiset(r.woken) == multiset(queue)
    decreases |queue|
  {
    hide Satisfied, Remaining, Reported;
    if queue != [] {
      var w := queue[0];
      assert queue == [w] + queue[1..];
      ScanSplits(if Satisfied(flags, w) then Remaining(flags, w) else flags, queue[1..]);
    }
  }

  /** Whoever is woken goes home with bits that meet its condition. */
  lemma {:induction false} ScanServes(flags: Bits, queue: seq<Waiter>)
    requires forall w :: w in queue ==> w.want != 0
    ensures var r := Scan(flags, queue);
      && |r.got| == |r.woken|
      && forall i :: 0 <= i < |r.got| ==>
           Satisfied(r.got[i], r.woken[i]) && Subset(r.got[i], r.woken[i].want) && r.got[i] != 0
    decreases |queue|
  {
    hide Satisfied, Subset, Remaining, Reported;
    if queue != [] {
      var w := queue[0];
      if Satisfied(flags, w) {
        ScanServes(Remaining(flags, w), queue[1..]);
        ReportedEnough(flags, w);
      } else {
        ScanServes(flags, queue[1..]);
      }
    }
  }

  /** A scan is quiet in advance exactly if it wakes nobody. */
  lemma {:induction false} QuietScan(flags: Bits, queue: seq<Waiter>)
    ensures Quiet(flags, queue) <==> Scan(flags, queue).woken == []
    decreases |queue|
  {
    hide Satisfied, Remaining, Reported;
    if queue != [] {
      QuietScan(flags, queue[1..]);
      assert queue == [queue[0]] + queue[1..];
    }
  }

  // ----- who is woken

  /** The flags when the scan reaches position `k`: every thread before it whose condition was met
      has received. */
  ghost function FlagsAt(flags: Bits, queue: seq<Waiter>, k: nat): Bits
    requires k <= |queue|
    decreases k
  {
    if k == 0 then flags
    else FlagsAt(if Meets(flags, queue[0]) then Remaining(flags, queue[0]) else flags, queue[1..], k - 1)
  }

  ghost predicate Different(queue: seq<Waiter>) {
    forall i, j :: 0 <= i < j < |queue| ==> queue[i] != queue[j]
  }

  lemma {:induction false} ScanMembers(flags: Bits, queue: seq<Waiter>)
    ensures var r := Scan(flags, queue); |r.woken| == |r.got|
    ensures forall w :: w in Scan(flags, queue).woken ==> w in queue
    ensures forall w :: w in Scan(flags, queue).queue ==> w in queue
    decreases |queue|
  {
    hide Satisfied, Remaining, Reported;
    if queue != [] {
      var w := queue[0];
      assert queue == [w] + queue[1..];
      ScanMembers(if Satisfied(flags, w) then Remaining(flags, w) else flags, queue[1..]);
    }
  }

  /** `w` is woken with `bits` and waits no longer. */
  ghost predicate WokenWith(r: Scanned, w: Waiter, bits: Bits) {
    && w !in r.queue && |r.woken| == |r.got|
    && exists m :: 0 <= m < |r.woken| && r.woken[m] == w && r.got[m] == bits
  }

  /** A thread is woken, with the bits it then reports, exactly if its condition is met at its
      point of the scan, and goes on waiting otherwise. */
  lemma {:induction false} WokenIff(flags: Bits, queue: seq<Waiter>, k: nat)
    requires Different(queue) && k < |queue|
    ensures var r, f := Scan(flags, queue), FlagsAt(flags, queue, k);
      && (Meets(f, queue[k]) ==> WokenWith(r, queue[k], Reported(f, queue[k])))
      && (!Meets(f, queue[k]) ==> queue[k] in r.queue && queue[k] !in r.woken)
    decreases k
  {
    hide Satisfied, Remaining, Reported, Meets, WokenWith;
    var w, rest := queue[0], queue[1..];
    SatisfiedIff(flags, w);
    var left := if Satisfied(flags, w) then Remaining(flags, w) else flags;
    ScanMembers(left, rest);
    assert forall i :: 0 <= i < |rest| ==> rest[i] == queue[i + 1];
    if k == 0 {
      assert w !in rest;
      if Satisfied(flags, w) { WokenFirst(flags, queue); }
    } else {
      assert queue[k] == rest[k - 1] && queue[k] != w;
      WokenIff(left, rest, k - 1);
      var f := FlagsAt(left, rest, k - 1);
      if Meets(f, queue[k]) { WokenLater(flags, queue, left, queue[k], Reported(f, queue[k])); }
    }
  }

  lemma WokenFirst(flags: Bits, queue: seq<Waiter>)
    requires queue != [] && queue[0] !in queue[1..] && Satisfied(flags, queue[0])
    ensures WokenWith(Scan(flags, queue), queue[0], Reported(flags, queue[0]))
  {
    hide Satisfied, Remaining, Reported;
    var r := Scan(flags, queue);
    ScanMembers(flags, queue);
    ScanMembers(Remaining(flags, queue[0]), queue[1..]);
    assert r.woken[0] == queue[0] && r.got[0] == Reported(flags, queue[0]);
  }

  lemma WokenLater(flags: Bits, queue: seq<Waiter>, left: Bits, w: Waiter, bits: Bits)
    requires queue != [] && left == (if Satisfied(flags, queue[0]) then Remaining(flags, queue[0]) else flags)
    requires w != queue[0] && WokenWith(Scan(left, queue[1..]), w, bits)
    ensures WokenWith(Scan(flags, queue), w, bits)
  {
    hide Satisfied, Remaining, Reported;
    var r, t := Scan(flags, queue), Scan(left, queue[1..]);
    var m :| 0 <= m < |t.woken| && t.woken[m] == w && t.got[m] == bits;
    var n := if Satisfied(flags, queue[0]) then m + 1 else m;
    assert r.woken[n] == w && r.got[n] == bits;
  }

  /** Walking a list whose first `n` threads stay is the same as putting them in front. */
  function Behind(kept: seq<Waiter>, woken: seq<Waiter>, got: seq<Bits>, r: Scanned): Scanned {
    Scanned(r.flags, kept + r.queue, woken + r.woken, got + r.got)
  }

  /** One turn of the walk. */
  lemma WalkOn(flags: Bits, queue: seq<Waiter>, n: nat, woken: seq<Waiter>, got: seq<Bits>)
    requires n < |queue|
    ensures var w, r := queue[n], Dropped(queue, n);
      Behind(queue[..n], woken, got, Scan(flags, queue[n..])) ==
        if Satisfied(flags, w) then
          Behind(r[..n], woken + [w], got + [Reported(flags, w)], Scan(Remaining(flags, w), r[n..]))
        else
          Behind(queue[..n + 1], woken, got, Scan(flags, queue[n + 1..]))
  {
    hide Satisfied, Remaining, Reported;
    var w, r := queue[n], Dropped(queue, n);
    assert queue[n..][1..] == queue[n + 1..];
    assert r[n..] == queue[n + 1..];
    assert r[..n] == queue[..n];
    assert queue[..n + 1] == queue[..n] + [w];
  }

  // ----- the event object over runs

  datatype Event = Event(flags: Bits, queue: seq<Waiter>)

  datatype Op =
    | Send(bits: Bits)
    | Recv(w: Waiter, wait: bool, k: nat)
    | Timeout(i: nat)
    | Reset

  ghost predicate Enabled(e: Event, op: Op) {
    match op
    case Send(bits) => true
    case Recv(w, _, k) => k <= |e.queue|
    case Timeout(i) => i < |e.queue|
    case Reset => true
  }

  /** A send of no bits and a receive of no bits are refused and change nothing. */
  ghost function Step(e: Event, op: Op): Event
    requires Enabled(e, op)
  {
    match op
    case Send(bits) => if bits == 0 then e else var r := Scan(Or(e.flags, bits), e.queue); Event(r.flags, r.queue)
    case Recv(w, wait, k) =>
      if w.want == 0 then e
      else if Satisfied(e.flags, w) then e.(flags := Remaining(e.flags, w))
      else if wait then e.(queue := e.queue[..k] + [w] + e.queue[k..])
      else e
    case Timeout(i) => e.(queue := Dropped(e.queue, i))
    case Reset => Event(0, [])
  }

  // ----- what a call leaves behind

  /** A scan takes away exactly the bits that some thread it wakes has asked to clear. */
  lemma {:induction false} ScanFlags(flags: Bits, queue: seq<Waiter>, i: nat)
    ensures Bit(Scan(flags, queue).flags, i) <==>
      Bit(flags, i) && forall w :: w in Scan(flags, queue).woken ==> !(w.clear && Bit(w.want, i))
    decreases |queue|
  {
    hide Satisfied, Remaining, Reported, Bit;
    if queue != [] {
      var w, rest := queue[0], queue[1..];
      if Satisfied(flags, w) {
        ScanFlags(Remaining(flags, w), rest, i);
        ReceivedBits(flags, w, i);
        var r := Scan(flags, queue);
        assert r.woken == [w] + Scan(Remaining(flags, w), rest).woken;
        assert r.woken[0] == w;
      } else {
        ScanFlags(flags, rest, i);
      }
    }
  }

  /** A send adds its bits to those set; after it exactly those are missing that a woken thread has
      asked to clear. */
  lemma SendOutcome(e: Event, bits: Bits, i: nat)
    ensures bits == 0 ==> Step(e, Send(bits)) == e
    ensures bits != 0 ==>
      var r := Scan(Or(e.flags, bits), e.queue);
      && Step(e, Send(bits)) == Event(r.flags, r.queue)
      && (Bit(r.flags, i) <==>
            (Bit(e.flags, i) || Bit(bits, i)) && forall w :: w in r.woken ==> !(w.clear && Bit(w.want, i)))
  {
    hide Scan, Or, Bit;
    ScanFlags(Or(e.flags, bits), e.queue, i);
    OrBit(e.flags, bits, i);
  }

  /** A receiver whose condition is not met leaves the flags alone; it is queued exactly if it
      waits, with everyone else as before. */
  lemma WaitOutcome(e: Event, w: Waiter, wait: bool, k: nat)
    requires Enabled(e, Recv(w, wait, k)) && w.want != 0 && !Meets(e.flags, w)
    ensures var r := Step(e, Recv(w, wait, k));
      && r.flags == e.flags
      && (if wait then k < |r.queue| && r.queue[k] == w && Dropped(r.queue, k) == e.queue else r.queue == e.queue)
  {
    hide Satisfied, Meets;
    SatisfiedIff(e.flags, w);
    if wait { assert Dropped(e.queue[..k] + [w] + e.queue[k..], k) == e.queue; }
  }

  /** Fewer bits satisfy nobody new. */
  lemma StaysQuiet(flags: Bits, less: Bits, queue: seq<Waiter>)
    requires Quiet(flags, queue) && Subset(less, flags)
    ensures Quiet(less, queue)
  {
    hide Satisfied, Subset;
    forall i | 0 <= i < |queue| ensures !Satisfied(less, queue[i]) {
      FewerBits(flags, less, queue[i]);
    }
  }

  lemma JoinsQuietly(flags: Bits, queue: seq<Waiter>, w: Waiter, k: nat)
    requires Quiet(flags, queue) && k <= |queue| && !Satisfied(flags, w)
    ensures Quiet(flags, queue[..k] + [w] + queue[k..])
  {
    hide Satisfied;
  }

  lemma RecvKeeps(e: Event, w: Waiter, wait: bool, k: nat)
    requires Quiet(e.flags, e.queue) && k <= |e.queue|
    ensures var r := Step(e, Recv(w, wait, k)); Quiet(r.flags, r.queue)
  {
    hide Satisfied, Remaining, Quiet, Subset;
    RemainingLess(e.flags, w);
    if Satisfied(e.flags, w) {
      StaysQuiet(e.flags, Remaining(e.flags, w), e.queue);
    } else {
      JoinsQuietly(e.flags, e.queue, w, k);
    }
  }

  lemma StepKeeps(e: Event, op: Op)
    requires Quiet(e.flags, e.queue) && Enabled(e, op)
    ensures Quiet(Step(e, op).flags, Step(e, op).queue)
  {
    hide Satisfied, Scan, Remaining, Or, Subset;
    match op
    case Send(bits) => hide Quiet; ScanQuiets(Or(e.flags, bits), e.queue);
    case Recv(w, wait, k) => hide Quiet, Step; RecvKeeps(e, w, wait, k);
    case Timeout(i) =>
    case Reset =>
  }

  /** In every reachable state no queued thread's condition is met by the bits that are set. */
  lemma {:induction false} EveryRun(ops: seq<Op>, trace: seq<Event>)
    requires |trace| == |ops| + 1 && Quiet(trace[0].flags, trace[0].queue)
    requires forall i :: 0 <= i < |ops| ==> Enabled(trace[i], ops[i]) && trace[i + 1] == Step(trace[i], ops[i])
    ensures forall i :: 0 <= i < |trace| ==> Quiet(trace[i].flags, trace[i].queue)
  {
    if ops != [] {
      StepKeeps(trace[0], ops[0]);
      EveryRun(ops[1..], trace[1..]);
      assert forall i :: 1 <= i < |trace| ==> trace[i] == trace[1..][i - 1];
    }
  }

  /** Bit by bit: in every reachable state a thread that waits for all of its bits misses one, and
      a thread that waits for any of them has none. */
  lemma NobodyMissed(ops: seq<Op>, trace: seq<Event>)
    requires |trace| == |ops| + 1 && Quiet(trace[0].flags, trace[0].queue)
    requires forall i :: 0 <= i < |ops| ==> Enabled(trace[i], ops[i]) && trace[i + 1] == Step(trace[i], ops[i])
    ensures forall i, j :: 0 <= i < |trace| && 0 <= j < |trace[i].queue| ==> !Meets(trace[i].flags, trace[i].queue[j])
  {
    hide Satisfied, Meets, Step;
    EveryRun(ops, trace);
    forall i, j | 0 <= i < |trace| && 0 <= j < |trace[i].queue|
      ensures !Meets(trace[i].flags, trace[i].queue[j])
    {
      SatisfiedIff(trace[i].flags, trace[i].queue[j]);
    }
  }

  // ----- priority order

  /** A thread that has to wait joins in priority order. */
  ghost predicate InOrder(e: Event, op: Op, prio: Thread -> int) {
    op.Recv? ==> op.k == Place(Threads(e.queue), op.w.t, prio, Prio)
  }

  ghost predicate Sorted(queue: seq<Waiter>, prio: Thread -> int) {
    Urgency(Threads(queue), prio)
  }

  /** What a scan leaves waiting was waiting before. */
  lemma {:induction false} ScanLeaves(flags: Bits, queue: seq<Waiter>)
    ensures forall w :: w in Scan(flags, queue).queue ==> w in queue
    decreases |queue|
  {
    hide Satisfied, Remaining, Reported;
    if queue != [] {
      var w := queue[0];
      assert queue == [w] + queue[1..];
      ScanLeaves(if Satisfied(flags, w) then Remaining(flags, w) else flags, queue[1..]);
    }
  }

  /** A most urgent thread in front of a sorted list. */
  lemma SortedCons(w: Waiter, rest: seq<Waiter>, prio: Thread -> int)
    requires Sorted(rest, prio) && forall x :: x in rest ==> prio(w.t) <= prio(x.t)
    ensures Sorted([w] + rest, prio)
  {
    var q, r := [w] + rest, Threads(rest);
    var u := Threads(q);
    forall i, j | 0 <= i < j < |u| ensures prio(u[i]) <= prio(u[j]) {
      assert u[j] == r[j - 1] == rest[j - 1].t && rest[j - 1] in rest;
      if i > 0 { assert u[i] == r[i - 1] && prio(r[i - 1]) <= prio(r[j - 1]); }
    }
  }

  lemma SortedTail(queue: seq<Waiter>, prio: Thread -> int)
    requires Sorted(queue, prio) && queue != []
    ensures Sorted(queue[1..], prio) && forall x :: x in queue[1..] ==> prio(queue[0].t) <= prio(x.t)
  {
    var u := Threads(queue);
    UrgencyTail(u, prio);
    assert Threads(queue[1..]) == u[1..];
    forall x | x in queue[1..] ensures prio(queue[0].t) <= prio(x.t) {
      var i :| 0 <= i < |queue| - 1 && queue[1..][i] == x;
      assert prio(u[0]) <= prio(u[i + 1]);
    }
  }

  lemma {:induction false} ScanSorted(flags: Bits, queue: seq<Waiter>, prio: Thread -> int)
    requires Sorted(queue, prio)
    ensures Sorted(Scan(flags, queue).queue, prio)
    decreases |queue|
  {
    hide Satisfied, Remaining, Reported, Sorted;
    if queue != [] {
      var w, rest := queue[0], queue[1..];
      SortedTail(queue, prio);
      var left := if Satisfied(flags, w) then Remaining(flags, w) else flags;
      ScanSorted(left, rest, prio);
      ScanLeaves(left, rest);
      if !Satisfied(flags, w) { SortedCons(w, Scan(flags, rest).queue, prio); }
    }
  }

  lemma RecvSorted(e: Event, w: Waiter, k: nat, prio: Thread -> int)
    requires Sorted(e.queue, prio) && k == Place(Threads(e.queue), w.t, prio, Prio)
    ensures Sorted(e.queue[..k] + [w] + e.queue[k..], prio)
  {
    var u := Threads(e.queue);
    assert Threads(e.queue[..k] + [w] + e.queue[k..]) == Placed(u, k, w.t);
    PlacedSorted(u, k, w.t, prio);
  }

  lemma TimeoutSorted(queue: seq<Waiter>, i: nat, prio: Thread -> int)
    requires Sorted(queue, prio) && i < |queue|
    ensures Sorted(Dropped(queue, i), prio)
  {
    UrgencyDropped(Threads(queue), prio, i);
    assert Threads(Dropped(queue, i)) == Dropped(Threads(queue), i);
  }

  lemma StepSorted(e: Event, op: Op, prio: Thread -> int)
    requires Enabled(e, op) && InOrder(e, op, prio) && Sorted(e.queue, prio)
    ensures Sorted(Step(e, op).queue, prio)
  {
    match op
    case Send(bits) => hide Sorted, Scan, Or; ScanSorted(Or(e.flags, bits), e.queue, prio);
    case Recv(w, _, k) => hide Sorted, Satisfied, Remaining; RecvSorted(e, w, k, prio);
    case Timeout(i) => hide Sorted; TimeoutSorted(e.queue, i, prio);
    case Reset =>
  }

  /** Over every run of a priority-ordered event the list is sorted by urgency, although a send may
      wake threads anywhere in it. */
  lemma {:induction false} EveryRunSorted(ops: seq<Op>, trace: seq<Event>, prio: Thread -> int)
    requires |trace| == |ops| + 1 && Sorted(trace[0].queue, prio)
    requires forall i :: 0 <= i < |ops| ==>
      Enabled(trace[i], ops[i]) && InOrder(trace[i], ops[i], prio) && trace[i + 1] == Step(trace[i], ops[i])
    ensures forall i :: 0 <= i < |trace| ==> Sorted(trace[i].queue, prio)
  {
    hide Sorted, InOrder, Step;
    if ops != [] {
      StepSorted(trace[0], ops[0], prio);
      EveryRunSorted(ops[1..], trace[1..], prio);
      assert forall i :: 1 <= i < |trace| ==> trace[i] == trace[1..][i - 1];
    }
  }

  class EventGroup {
    const order: Order
    const prio: Thread -> int
    var flags: Bits
    var queue: seq<Waiter>
    /** thread->error of the threads concerned. */
    var error: map<Thread, int>

    ghost function Abs(): Event
      reads this
    {
      Event(flags, queue)
    }

    ghost predicate Valid()
      reads this
    {
      Quiet(flags, queue)
    }

    constructor (order: Order, prio: Thread -> int)
      ensures Valid() && Abs() == Event(0, []) && this.order == order && this.prio == prio
    {
      this.order, this.prio := order, prio;
      flags, queue, error := 0, [], map[];
    }

    /** rt_event_send. The walk takes the node behind a thread before the thread is resumed. */
    method Send(bits: Bits) returns (ok: bool, woken: seq<Waiter>, got: seq<Bits>)
      requires Valid()
      modifies this
      ensures Valid() && Abs() == Step(old(Abs()), Op.Send(bits)) && ok == (bits != 0)
      ensures ok ==> var r := Scan(Or(old(flags), bits), old(queue)); woken == r.woken && got == r.got
      ensures !ok ==> woken == []
    {
      woken, got := [], [];
      if bits == 0 {
        return false, woken, got;
      }
      ScanQuiets(Or(flags, bits), queue);
      flags := Or(flags, bits);
      ghost var r := Scan(flags, queue);
      assert Step(old(Abs()), Op.Send(bits)) == Event(r.flags, r.queue);
      ScanAll(flags, queue);
      hide Satisfied, Reported, Remaining, Scan, And, Or, AndNot, Quiet, Behind, Step, Dropped;
      var n := 0;
      while n < |queue|
        invariant 0 <= n <= |queue|
        invariant r == Behind(queue[..n], woken, got, Scan(flags, queue[n..]))
        decreases |queue| - n
      {
        var thread := queue[n];
        WalkOn(flags, queue, n, woken, got);
        if Satisfied(flags, thread) {
          WakeLikeReceive(flags, thread);
          var saved := if thread.all then thread.want else And(thread.want, flags);
          if thread.clear {
            flags := AndNot(flags, saved);
          }
          queue := Dropped(queue, n);
          woken, got := woken + [thread], got + [saved];
        } else {
          n := n + 1;
        }
      }
      ScanNone(flags, queue, woken, got);
      return true, woken, got;
    }

    /** rt_event_recv up to the point where it returns or suspends. */
    method Recv(w: Waiter, timeout: int) returns (ok: bool, recved: Bits)
      requires Valid() && (w.all || w.any)
      modifies this
      ensures Valid()
      ensures var op := Op.Recv(w, timeout != 0, Place(Threads(old(queue)), w.t, prio, order));
        Enabled(old(Abs()), op) && Abs() == Step(old(Abs()), op)
      ensures ok <==> w.want != 0 && Meets(old(flags), w)
      ensures ok ==> forall i: nat :: i < WIDTH ==>
        && (Bit(recved, i) <==> Bit(old(flags), i) && Bit(w.want, i))
        && (Bit(flags, i) <==> Bit(old(flags), i) && !(w.clear && Bit(w.want, i)))
      ensures !ok ==> flags == old(flags)
    {
      ghost var op := Op.Recv(w, timeout != 0, Place(Threads(queue), w.t, prio, order));
      StepKeeps(Abs(), op);
      SatisfiedIff(flags, w);
      forall i: nat | i < WIDTH { ReceivedBits(flags, w, i); }
      hide Quiet, Place, And, Or, AndNot, Bit, Meets;
      recved := 0;
      if w.want == 0 {
        return false, recved;
      }
      ok := if w.all then And(flags, w.want) == w.want else And(flags, w.want) != 0;
      Meet(flags, w.want);
      if ok {
        recved := And(flags, w.want);
        if w.clear {
          flags := AndNot(flags, w.want);
        }
      } else if timeout != 0 {
        var k := Place(Threads(queue), w.t, prio, order);
        queue := queue[..k] + [w] + queue[k..];
      }
    }

    /** rt_event_control with RT_IPC_CMD_RESET: every waiter is sent home with -RT_ERROR. */
    method Reset() returns (woken: seq<Thread>)
      modifies this
      ensures Valid() && Abs() == Step(old(Abs()), Op.Reset)
      ensures woken == Threads(old(queue)) && error == Refused(old(error), woken)
    {
      woken := Threads(queue);
      error := Refused(error, woken);
      flags, queue := 0, [];
    }
  }

  function Threads(queue: seq<Waiter>): (r: seq<Thread>)
    ensures |r| == |queue|
  {
    seq(|queue|, i requires 0 <= i < |queue| => queue[i].t)
  }

  lemma ScanAll(flags: Bits, queue: seq<Waiter>)
    ensures Behind(queue[..0], [], [], Scan(flags, queue[0..])) == Scan(flags, queue)
  {
    assert queue[0..] == queue;
  }

  lemma ScanNone(flags: Bits, queue: seq<Waiter>, woken: seq<Waiter>, got: seq<Bits>)
    ensures Behind(queue[..|queue|], woken, got, Scan(flags, queue[|queue|..])) == Scanned(flags, queue, woken, got)
  {
  }
}
