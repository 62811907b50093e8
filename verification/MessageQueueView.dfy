/** The message queue of ipc.c as a protocol. A send takes a free node, fills it with interrupts
    enabled and links it; a receive unlinks a node, copies it out with interrupts enabled and
    frees it. Any other thread's step may fall between two of these. */
module MessageQueueViews {
  import opened Basics
  import opened Rings
  import opened WaitLists
  import opened Waiting
  import opened MemCopy

  type Message = seq<byte>

  /** What a thread holds between two regions: its local variable `msg` and how far it got. */
  datatype Hand =
    | Filling(node: int, text: Message, urgent: bool, filled: bool)
    | Draining(node: int, text: Message, size: nat, copied: bool)

  datatype Spot = InFree | InQueue | InHand(t: Thread)

  datatype Mq = Mq(msgSize: nat, maxMsgs: nat,
                   free: seq<int>, queue: seq<int>, texts: seq<Message>,
                   hands: map<Thread, Hand>, place: map<int, Spot>,
                   recv: Waiters, send: Waiters)

  /** Every node has one place, and the free list, the message list and the hands agree. */
  ghost predicate Placement(q: Mq) {
    && (forall n :: n in q.place <==> 0 <= n < q.maxMsgs)
    && Distinct(q.free) && Distinct(q.queue)
    && (forall n :: n in q.free <==> n in q.place && q.place[n] == InFree)
    && (forall n :: n in q.queue <==> n in q.place && q.place[n] == InQueue)
    && (forall t :: t in q.hands ==> q.hands[t].node in q.place && q.place[q.hands[t].node] == InHand(t))
    && (forall n :: n in q.place && q.place[n].InHand? ==> q.place[n].t in q.hands && q.hands[q.place[n].t].node == n)
  }

  ghost predicate Texts(q: Mq) {
    && |q.texts| == |q.queue|
    && (forall i :: 0 <= i < |q.texts| ==> |q.texts[i]| <= q.msgSize)
    && (forall t :: t in q.hands ==> |q.hands[t].text| <= q.msgSize)
  }

  /** A thread is in one call at a time. */
  ghost predicate OneCallEach(q: Mq) {
    && (forall t :: q.recv.Knows(t) ==> !q.send.Knows(t))
    && (forall t :: t in q.hands ==> !q.recv.Knows(t) && !q.send.Knows(t))
  }

  ghost predicate Good(q: Mq) {
    && Placement(q)
    && Texts(q)
    && OneCallEach(q)
    && q.recv.Served(|q.queue|)
    && q.send.Served(|q.free|)
  }

  /** In a good state each node is in exactly one of free list, message list and one hand. */
  lemma ExactlyOnePlace(q: Mq, n: int)
    requires Good(q) && 0 <= n < q.maxMsgs
    ensures n in q.free ==> n !in q.queue && forall t :: t in q.hands ==> q.hands[t].node != n
    ensures n in q.queue ==> n !in q.free && forall t :: t in q.hands ==> q.hands[t].node != n
    ensures forall t, u :: t in q.hands && u in q.hands && q.hands[t].node == n == q.hands[u].node ==> t == u
    ensures n in q.free || n in q.queue || exists t :: t in q.hands && q.hands[t].node == n
  {
  }

  datatype Op =
    | SendTake(t: Thread, text: Message, wait: bool, k: nat)
    | UrgentTake(t: Thread, text: Message)
    | Fill(t: Thread)
    | Link(t: Thread)
    | RecvTake(t: Thread, size: nat, wait: bool, k: nat)
    | Drain(t: Thread)
    | Put(t: Thread)
    | SendTimeout(t: Thread)
    | RecvTimeout(t: Thread)
    | Reset

  ghost predicate Enabled(q: Mq, op: Op) {
    match op
    case SendTake(t, text, _, k) =>
      t !in q.hands && t !in q.send.queue && !q.recv.Knows(t) && k <= |q.send.queue|
    case UrgentTake(t, text) => t !in q.hands && !q.send.Knows(t) && !q.recv.Knows(t)
    case Fill(t) => t in q.hands && q.hands[t].Filling? && !q.hands[t].filled
    case Link(t) => t in q.hands && q.hands[t].Filling? && q.hands[t].filled
    case RecvTake(t, _, _, k) => t !in q.hands && t !in q.recv.queue && !q.send.Knows(t) && k <= |q.recv.queue|
    case Drain(t) => t in q.hands && q.hands[t].Draining? && !q.hands[t].copied
    case Put(t) => t in q.hands && q.hands[t].Draining? && q.hands[t].copied
    case SendTimeout(t) => t in q.send.queue
    case RecvTimeout(t) => t in q.recv.queue
    case Reset => true
  }

  /** The first free node goes into the hand of `t`. */
  function Grabbed(q: Mq, t: Thread, text: Message, urgent: bool): Mq
    requires q.free != []
  {
    q.(free := q.free[1..],
       hands := q.hands[t := Filling(q.free[0], text, urgent, false)],
       place := q.place[q.free[0] := InHand(t)])
  }

  /** A text longer than a node holds is refused at once. */
  ghost function Step(q: Mq, op: Op): Mq
    requires Enabled(q, op) && |q.texts| == |q.queue|
  {
    match op
    case SendTake(t, text, wait, k) =>
      if |text| > q.msgSize then q
      else if q.free == [] then q.(send := if wait then q.send.Blocked(t, k) else q.send.Left(t))
      else Grabbed(q, t, text, false).(send := q.send.Left(t))
    case UrgentTake(t, text) => if |text| > q.msgSize || q.free == [] then q else Grabbed(q, t, text, true)
    case Fill(t) => q.(hands := q.hands[t := q.hands[t].(filled := true)])
    case Link(t) =>
      var h := q.hands[t];
      q.(queue := if h.urgent then [h.node] + q.queue else q.queue + [h.node],
         texts := if h.urgent then [h.text] + q.texts else q.texts + [h.text],
         hands := q.hands - {t}, place := q.place[h.node := InQueue], recv := q.recv.WakeFirst())
    case RecvTake(t, size, wait, k) =>
      if q.queue == [] then q.(recv := if wait then q.recv.Blocked(t, k) else q.recv.Left(t))
      else q.(queue := q.queue[1..], texts := q.texts[1..],
              hands := q.hands[t := Draining(q.queue[0], q.texts[0], size, false)],
              place := q.place[q.queue[0] := InHand(t)], recv := q.recv.Left(t))
    case Drain(t) => q.(hands := q.hands[t := q.hands[t].(copied := true)])
    case Put(t) =>
      var n := q.hands[t].node;
      q.(free := [n] + q.free, hands := q.hands - {t}, place := q.place[n := InFree], send := q.send.WakeFirst())
    case SendTimeout(t) => q.(send := q.send.Expired(t))
    case RecvTimeout(t) => q.(recv := q.recv.Expired(t))
    case Reset =>
      q.(free := Reversed(q.queue) + q.free, queue := [], texts := [],
         place := map n | n in q.place :: if q.place[n] == InQueue then InFree else q.place[n],
         recv := q.recv.Flushed(), send := q.send.Flushed())
  }

  // ----- placement

  lemma GrabKeeps(q: Mq, t: Thread, text: Message, urgent: bool)
    requires Placement(q) && Texts(q) && q.free != [] && t !in q.hands && |text| <= q.msgSize
    ensures Placement(Grabbed(q, t, text, urgent)) && Texts(Grabbed(q, t, text, urgent))
  {
    var n, r := q.free[0], Grabbed(q, t, text, urgent);
    assert n in q.free && q.free == [n] + r.free;
    forall x ensures x in r.free <==> x in q.free && x != n { TailMembers(q.free, x); }
    TailDistinct(q.free);
  }

  lemma TailMembers(s: seq<int>, x: int)
    requires Distinct(s) && s != []
    ensures x in s[1..] <==> x in s && x != s[0]
  {
    if x in s[1..] { var i :| 0 <= i < |s[1..]| && s[1..][i] == x; assert s[i + 1] == x; }
    assert s == [s[0]] + s[1..];
  }

  lemma TailDistinct(s: seq<int>)
    requires Distinct(s) && s != []
    ensures Distinct(s[1..])
  {
    var r := s[1..];
    assert forall i :: 0 <= i < |r| ==> r[i] == s[i + 1];
  }

  lemma PopKeeps(q: Mq, t: Thread, size: nat, wait: bool, k: nat)
    requires Placement(q) && Texts(q) && q.queue != [] && Enabled(q, RecvTake(t, size, wait, k))
    ensures Placement(Step(q, RecvTake(t, size, wait, k))) && Texts(Step(q, RecvTake(t, size, wait, k)))
  {
    var n, r := q.queue[0], Step(q, RecvTake(t, size, wait, k));
    assert n in q.queue && q.queue == [n] + r.queue;
    forall x ensures x in r.queue <==> x in q.queue && x != n { TailMembers(q.queue, x); }
    TailDistinct(q.queue);
  }

  lemma LinkKeeps(q: Mq, t: Thread)
    requires Placement(q) && Texts(q) && Enabled(q, Link(t))
    ensures Placement(Step(q, Link(t))) && Texts(Step(q, Link(t)))
  {
    var n, r := q.hands[t].node, Step(q, Link(t));
    assert n !in q.queue;
    forall x ensures x in r.queue <==> x in q.queue || x == n { }
  }

  lemma PutKeeps(q: Mq, t: Thread)
    requires Placement(q) && Texts(q) && Enabled(q, Put(t))
    ensures Placement(Step(q, Put(t))) && Texts(Step(q, Put(t)))
  {
    var n, r := q.hands[t].node, Step(q, Put(t));
    assert n !in q.free;
    forall x ensures x in r.free <==> x in q.free || x == n { }
  }

  lemma ReversedMembers(s: seq<int>)
    ensures forall x :: x in Reversed(s) <==> x in s
    ensures Distinct(s) ==> Distinct(Reversed(s))
  {
    var r := Reversed(s);
    forall x | x in s ensures x in r {
      var i :| 0 <= i < |s| && s[i] == x;
      assert r[|s| - 1 - i] == x;
    }
  }

  lemma ResetPlaces(q: Mq)
    requires Placement(q) && Texts(q)
    ensures Placement(Step(q, Reset)) && Texts(Step(q, Reset))
  {
    var r := Step(q, Reset);
    ReversedMembers(q.queue);
    forall i, j | 0 <= i < j < |r.free| ensures r.free[i] != r.free[j] {
      if i < |q.queue| <= j {
        assert r.free[i] == Reversed(q.queue)[i] && r.free[i] in Reversed(q.queue);
        assert r.free[j] in q.free;
      }
    }
    forall x ensures x in r.free <==> x in q.queue || x in q.free { }
  }

  // ----- every step

  lemma SendTakeKeeps(q: Mq, op: Op)
    requires Good(q) && Enabled(q, op) && op.SendTake?
    ensures Good(Step(q, op))
  {
    hide Placement, Texts;
    PartsOf(q);
    var t, text := op.t, op.text;
    if |text| > q.msgSize {
    } else if q.free == [] {
      if op.wait { BlockedServes(q.send, t, op.k); } else { RefusedServes(q.send, t); }
      SamePlaces(q, Step(q, op));
    } else {
      TakenServes(q.send, t, |q.free|);
      GrabKeeps(q, t, text, false);
      SamePlaces(Grabbed(q, t, text, false), Step(q, op));
    }
  }

  lemma SendSideKeeps(q: Mq, op: Op)
    requires Good(q) && Enabled(q, op) && (op.UrgentTake? || op.Fill? || op.Link?)
    ensures Good(Step(q, op))
  {
    hide Placement, Texts;
    PartsOf(q);
    match op
    case UrgentTake(t, text) =>
      if |text| <= q.msgSize && q.free != [] { GrabKeeps(q, t, text, true); FewerServes(q.send, |q.free|); }
    case Fill(t) => HandKeeps(q, Step(q, op), t);
    case Link(t) => LinkKeeps(q, t); WakeServes(q.recv, |q.queue|);
  }

  lemma RecvSideKeeps(q: Mq, op: Op)
    requires Good(q) && Enabled(q, op) && (op.RecvTake? || op.Drain? || op.Put?)
    ensures Good(Step(q, op))
  {
    hide Placement, Texts;
    PartsOf(q);
    match op
    case RecvTake(t, size, wait, k) =>
      if q.queue == [] {
        if wait { BlockedServes(q.recv, t, k); } else { RefusedServes(q.recv, t); }
        SamePlaces(q, Step(q, op));
      } else {
        TakenServes(q.recv, t, |q.queue|);
        PopKeeps(q, t, size, wait, k);
      }
    case Drain(t) => HandKeeps(q, Step(q, op), t);
    case Put(t) => PutKeeps(q, t); WakeServes(q.send, |q.free|);
  }

  lemma StepKeeps(q: Mq, op: Op)
    requires Good(q) && Enabled(q, op)
    ensures Good(Step(q, op))
  {
    if op.SendTake? {
      hide Good, Step;
      SendTakeKeeps(q, op);
    } else if op.UrgentTake? || op.Fill? || op.Link? {
      hide Good, Step;
      SendSideKeeps(q, op);
    } else if op.RecvTake? || op.Drain? || op.Put? {
      hide Good, Step;
      RecvSideKeeps(q, op);
    } else {
      hide Placement, Texts;
      PartsOf(q);
      match op
      case SendTimeout(t) => ExpiredServes(q.send, t, |q.free|); SamePlaces(q, Step(q, op));
      case RecvTimeout(t) => ExpiredServes(q.recv, t, |q.queue|); SamePlaces(q, Step(q, op));
      case Reset => ResetPlaces(q); FlushedServes(q.recv, 0); FlushedServes(q.send, |q.queue| + |q.free|);
    }
  }

  lemma PartsOf(q: Mq)
    requires Texts(q)
    ensures |q.texts| == |q.queue|
  {
  }

  lemma FewerServes(w: Waiters, avail: int)
    requires w.Served(avail)
    ensures w.Served(avail - 1)
  {
  }

  lemma SamePlaces(q: Mq, r: Mq)
    requires Placement(q) && Texts(q) && r == q.(recv := r.recv, send := r.send)
    ensures Placement(r) && Texts(r)
  {
  }

  lemma HandKeeps(q: Mq, r: Mq, t: Thread)
    requires Placement(q) && Texts(q) && t in q.hands && t in r.hands
    requires r == q.(hands := q.hands[t := r.hands[t]])
    requires r.hands[t].node == q.hands[t].node && r.hands[t].text == q.hands[t].text
    ensures Placement(r) && Texts(r)
  {
  }

  /** In every interleaving of sends, urgent sends, receives, timeouts and resets each node is
      in one place, and no wake-up is lost on either side. */
  lemma {:induction false} EveryRun(ops: seq<Op>, trace: seq<Mq>)
    requires |trace| == |ops| + 1 && Good(trace[0])
    requires forall i :: 0 <= i < |ops| ==>
      Enabled(trace[i], ops[i]) && (Good(trace[i]) ==> trace[i + 1] == Step(trace[i], ops[i]))
    ensures forall i :: 0 <= i < |trace| ==> Good(trace[i])
  {
    hide Good, Enabled, Step;
    if ops != [] {
      StepKeeps(trace[0], ops[0]);
      EveryRun(ops[1..], trace[1..]);
      assert forall i :: 1 <= i < |trace| ==> trace[i] == trace[1..][i - 1];
    }
  }

  // ----- who has to wait

  /** A send without a free node and a receive without a message move no node; the thread is then
      queued exactly if it waits, with everyone else as before. */
  lemma WaitOutcome(q: Mq, op: Op)
    requires Good(q) && Enabled(q, op)
    ensures |q.texts| == |q.queue|
    ensures op.SendTake? && |op.text| <= q.msgSize && q.free == [] ==>
      var r := Step(q, op);
      && r == q.(send := r.send)
      && (if op.wait then r.send.queue[op.k] == op.t && Dropped(r.send.queue, op.k) == q.send.queue
          else r.send.queue == q.send.queue)
    ensures op.RecvTake? && q.queue == [] ==>
      var r := Step(q, op);
      && r == q.(recv := r.recv)
      && (if op.wait then r.recv.queue[op.k] == op.t && Dropped(r.recv.queue, op.k) == q.recv.queue
          else r.recv.queue == q.recv.queue)
    ensures (op.SendTake? || op.UrgentTake?) && |op.text| > q.msgSize ==> Step(q, op) == q
    ensures op.UrgentTake? && q.free == [] ==> Step(q, op) == q
  {
    hide Good;
    GoodTexts(q);
    if op.SendTake? { assert Dropped(Placed(q.send.queue, op.k, op.t), op.k) == q.send.queue; }
    if op.RecvTake? { assert Dropped(Placed(q.recv.queue, op.k, op.t), op.k) == q.recv.queue; }
  }

  /** A message that is linked wakes the first receiver and moves no sender; a node that is put back
      is free, wakes the first sender and moves no receiver. */
  lemma PassOutcome(q: Mq, op: Op)
    requires Good(q) && Enabled(q, op)
    ensures |q.texts| == |q.queue|
    ensures op.Link? ==> var r := Step(q, op); FirstWoken(q.recv, r.recv) && r.send == q.send && r.free == q.free
    ensures op.Put? ==>
      var r := Step(q, op);
      && FirstWoken(q.send, r.send) && r.recv == q.recv && r.queue == q.queue
      && forall n :: n in r.free <==> n in q.free || n == q.hands[op.t].node
  {
    GoodTexts(q);
    hide Good;
    if q.recv.queue != [] { assert q.recv.queue == [q.recv.queue[0]] + q.recv.queue[1..]; }
    if q.send.queue != [] { assert q.send.queue == [q.send.queue[0]] + q.send.queue[1..]; }
  }

  /** A reset frees every message, keeps what threads hold, and sends all waiters home. */
  lemma ResetOutcome(q: Mq)
    requires Good(q)
    ensures |q.texts| == |q.queue|
    ensures var r := Step(q, Reset);
      && r.queue == [] && r.texts == [] && r.hands == q.hands && r.recv.queue == [] && r.send.queue == []
      && (forall n :: n in r.free <==> n in q.free || n in q.queue)
  {
    GoodTexts(q);
    ReversedMembers(q.queue);
    hide Good, Reversed;
  }

  // ----- priority order

  /** A thread that has to wait joins in priority order. */
  ghost predicate InOrder(q: Mq, op: Op, prio: Thread -> int) {
    && (op.SendTake? ==> op.k == Place(q.send.queue, op.t, prio, Prio))
    && (op.RecvTake? ==> op.k == Place(q.recv.queue, op.t, prio, Prio))
  }

  ghost predicate Sorted(q: Mq, prio: Thread -> int) {
    Urgency(q.recv.queue, prio) && Urgency(q.send.queue, prio)
  }

  lemma StepSorted(q: Mq, op: Op, prio: Thread -> int)
    requires Good(q) && Enabled(q, op) && InOrder(q, op, prio) && Sorted(q, prio)
    ensures Sorted(Step(q, op), prio)
  {
    hide Good, Urgency;
    GoodTexts(q);
    match op
    case SendTake(t, _, _, _) => TurnKeepsOrder(q.send, Block(t), prio);
    case UrgentTake(_, _) =>
    case Fill(_) =>
    case Link(_) => TurnKeepsOrder(q.recv, Wake, prio);
    case RecvTake(t, _, _, _) => TurnKeepsOrder(q.recv, Block(t), prio);
    case Drain(_) =>
    case Put(_) => TurnKeepsOrder(q.send, Wake, prio);
    case SendTimeout(t) => TurnKeepsOrder(q.send, Expire(t), prio);
    case RecvTimeout(t) => TurnKeepsOrder(q.recv, Expire(t), prio);
    case Reset => TurnKeepsOrder(q.send, Flush, prio); TurnKeepsOrder(q.recv, Flush, prio);
  }

  /** Over every run of a priority-ordered queue both wait lists are sorted by urgency. */
  lemma {:induction false} EveryRunSorted(ops: seq<Op>, trace: seq<Mq>, prio: Thread -> int)
    requires |trace| == |ops| + 1 && Good(trace[0]) && Sorted(trace[0], prio)
    requires forall i :: 0 <= i < |ops| ==>
      && Enabled(trace[i], ops[i]) && InOrder(trace[i], ops[i], prio)
      && (Good(trace[i]) ==> trace[i + 1] == Step(trace[i], ops[i]))
    ensures forall i :: 0 <= i < |trace| ==> Sorted(trace[i], prio)
  {
    hide Good, Enabled, Step, Sorted, InOrder;
    if ops != [] {
      StepKeeps(trace[0], ops[0]);
      StepSorted(trace[0], ops[0], prio);
      EveryRunSorted(ops[1..], trace[1..], prio);
      assert forall i :: 1 <= i < |trace| ==> trace[i] == trace[1..][i - 1];
    }
  }

  // ----- messages

  /** What a thread is doing, judged by the calls it has made: the text and the urgency it passed
      to its send, or the message that was first in the list when its receive got one. */
  datatype Doing = Nothing | Sending(text: Message, urgent: bool) | Getting(text: Message, size: nat)

  /** A send is accepted if its text is not too long and there is a free node. */
  ghost predicate Accepts(q: Mq, text: Message) {
    |text| <= q.msgSize && q.free != []
  }

  ghost function DoingAfter(q: Mq, op: Op, t: Thread, d: Doing): Doing {
    match op
    case SendTake(u, text, _, _) => if u == t && Accepts(q, text) then Sending(text, false) else d
    case UrgentTake(u, text) => if u == t && Accepts(q, text) then Sending(text, true) else d
    case RecvTake(u, size, _, _) => if u == t && q.texts != [] then Getting(q.texts[0], size) else d
    case Link(u) => if u == t then Nothing else d
    case Put(u) => if u == t then Nothing else d
    case Fill(_) => d
    case Drain(_) => d
    case SendTimeout(_) => d
    case RecvTimeout(_) => d
    case Reset => d
  }

  /** The hand of `t` is what its calls say. */
  ghost predicate Matches(q: Mq, t: Thread, d: Doing) {
    match d
    case Nothing => t !in q.hands
    case Sending(text, urgent) =>
      t in q.hands && q.hands[t].Filling? && q.hands[t].text == text && q.hands[t].urgent == urgent
    case Getting(text, size) =>
      t in q.hands && q.hands[t].Draining? && q.hands[t].text == text && q.hands[t].size == size
  }

  lemma StepMatches(q: Mq, op: Op, t: Thread, d: Doing)
    requires Good(q) && Enabled(q, op) && Matches(q, t, d)
    ensures Matches(Step(q, op), t, DoingAfter(q, op, t, d))
  {
    hide Good;
    GoodTexts(q);
  }

  /** A run without a reset, from a queue that nobody is using. */
  ghost predicate IsRun(ops: seq<Op>, trace: seq<Mq>) {
    && |trace| == |ops| + 1 && Good(trace[0]) && trace[0].hands == map[]
    && forall i :: 0 <= i < |ops| ==>
         && Enabled(trace[i], ops[i]) && !ops[i].Reset?
         && (Good(trace[i]) ==> trace[i + 1] == Step(trace[i], ops[i]))
  }

  lemma {:induction false} RunGood(ops: seq<Op>, trace: seq<Mq>, i: nat)
    requires IsRun(ops, trace) && i <= |ops|
    ensures Good(trace[i])
  {
    hide Good, Enabled, Step;
    if i > 0 {
      RunGood(ops, trace, i - 1);
      StepKeeps(trace[i - 1], ops[i - 1]);
    }
  }

  /** What `t` is doing after the first `i` operations. */
  ghost function DoingAt(ops: seq<Op>, trace: seq<Mq>, i: nat, t: Thread): Doing
    requires |trace| == |ops| + 1 && i <= |ops|
  {
    if i == 0 then Nothing else DoingAfter(trace[i - 1], ops[i - 1], t, DoingAt(ops, trace, i - 1, t))
  }

  /** Throughout a run a thread holds exactly the text and urgency it passed to its send, or the
      message its receive took. */
  lemma {:induction false} HandsFollowCalls(ops: seq<Op>, trace: seq<Mq>, i: nat, t: Thread)
    requires IsRun(ops, trace) && i <= |ops|
    ensures Good(trace[i]) && Matches(trace[i], t, DoingAt(ops, trace, i, t))
  {
    hide Good, Enabled, Step, Matches, DoingAfter;
    RunGood(ops, trace, i);
    if i > 0 {
      RunGood(ops, trace, i - 1);
      HandsFollowCalls(ops, trace, i - 1, t);
      StepMatches(trace[i - 1], ops[i - 1], t, DoingAt(ops, trace, i - 1, t));
    } else {
      NobodyHolds(trace[0], t);
    }
  }

  lemma NobodyHolds(q: Mq, t: Thread)
    requires q.hands == map[]
    ensures Matches(q, t, Nothing)
  {
  }

  /** The texts of the first `i` operations that were linked: each as it was passed to the send
      of the thread that links it. */
  ghost function Sent(ops: seq<Op>, trace: seq<Mq>, i: nat): seq<Message>
    requires |trace| == |ops| + 1 && i <= |ops|
  {
    if i == 0 then []
    else
      var d := if ops[i - 1].Link? then DoingAt(ops, trace, i - 1, ops[i - 1].t) else Nothing;
      Sent(ops, trace, i - 1) + if d.Sending? then [d.text] else []
  }

  /** The messages that the receives among the first `i` operations have taken. */
  ghost function Received(ops: seq<Op>, trace: seq<Mq>, i: nat): seq<Message>
    requires |trace| == |ops| + 1 && i <= |ops|
  {
    if i == 0 then []
    else
      var op, q := ops[i - 1], trace[i - 1];
      Received(ops, trace, i - 1) + if op.RecvTake? && q.texts != [] then [q.texts[0]] else []
  }

  /** One step of the message list, with the text the linking thread passed to its send. */
  lemma StepTexts(q: Mq, op: Op, d: Doing)
    requires Good(q) && Enabled(q, op) && !op.Reset? && (op.Link? ==> Matches(q, op.t, d))
    ensures op.Link? ==> d.Sending?
    ensures Step(q, op).texts ==
      if op.Link? then (if d.urgent then [d.text] + q.texts else q.texts + [d.text])
      else if op.RecvTake? && q.texts != [] then q.texts[1..]
      else q.texts
  {
    hide Good;
    GoodTexts(q);
  }

  lemma GoodTexts(q: Mq)
    requires Good(q)
    ensures |q.texts| == |q.queue|
  {
  }

  /** What one operation adds to `Sent` and to `Received`. */
  ghost function SentBy(op: Op, d: Doing): seq<Message> {
    if op.Link? && d.Sending? then [d.text] else []
  }

  ghost function TakenBy(q: Mq, op: Op): seq<Message> {
    if op.RecvTake? && q.texts != [] then [q.texts[0]] else []
  }

  lemma StepConserves(q: Mq, op: Op, d: Doing)
    requires Good(q) && Enabled(q, op) && !op.Reset? && (op.Link? ==> Matches(q, op.t, d))
    ensures multiset(q.texts) + multiset(SentBy(op, d)) == multiset(TakenBy(q, op)) + multiset(Step(q, op).texts)
    ensures !(op.Link? && d.Sending? && d.urgent) ==> q.texts + SentBy(op, d) == TakenBy(q, op) + Step(q, op).texts
  {
    hide Good, Step, Matches, Enabled;
    GoodTexts(q);
    StepTexts(q, op, d);
    OneMove(q.texts, Step(q, op).texts, SentBy(op, d), TakenBy(q, op));
  }

  lemma OneMove(a: seq<Message>, r: seq<Message>, sent: seq<Message>, taken: seq<Message>)
    requires (taken == [] && (r == a + sent || r == sent + a)) || (sent == [] && a == taken + r)
    ensures multiset(a) + multiset(sent) == multiset(taken) + multiset(r)
    ensures r == a + sent || a == taken + r ==> a + sent == taken + r
  {
    assert [] + r == r && a + [] == a;
  }

  /** Over every run without a reset what has been passed to accepted sends and linked is what has
      been received and what is still in the list: nothing lost, doubled or altered. */
  lemma {:induction false} Conserved(ops: seq<Op>, trace: seq<Mq>, i: nat)
    requires IsRun(ops, trace) && i <= |ops|
    ensures multiset(trace[0].texts) + multiset(Sent(ops, trace, i))
      == multiset(Received(ops, trace, i)) + multiset(trace[i].texts)
  {
    hide Good, Enabled, Step, Matches, DoingAfter, DoingAt;
    if i > 0 {
      hide IsRun, Sent, Received, SentBy, TakenBy;
      var d := RunStep(ops, trace, i - 1);
      Conserved(ops, trace, i - 1);
      StepConserves(trace[i - 1], ops[i - 1], d);
      ShiftAny(trace[0].texts, Sent(ops, trace, i - 1), SentBy(ops[i - 1], d),
               Received(ops, trace, i - 1), trace[i - 1].texts, TakenBy(trace[i - 1], ops[i - 1]), trace[i].texts);
    }
  }

  /** The facts about operation `i` of a run, and what its thread is doing. */
  lemma RunStep(ops: seq<Op>, trace: seq<Mq>, i: nat) returns (d: Doing)
    requires IsRun(ops, trace) && i < |ops|
    ensures |trace| == |ops| + 1
    ensures Good(trace[i]) && Enabled(trace[i], ops[i]) && !ops[i].Reset? && trace[i + 1] == Step(trace[i], ops[i])
    ensures ops[i].Link? ==> d == DoingAt(ops, trace, i, ops[i].t) && Matches(trace[i], ops[i].t, d)
    ensures Sent(ops, trace, i + 1) == Sent(ops, trace, i) + SentBy(ops[i], d)
    ensures Received(ops, trace, i + 1) == Received(ops, trace, i) + TakenBy(trace[i], ops[i])
  {
    hide Good, Enabled, Step, Matches, DoingAfter;
    RunGood(ops, trace, i);
    d := Nothing;
    if ops[i].Link? {
      d := DoingAt(ops, trace, i, ops[i].t);
      HandsFollowCalls(ops, trace, i, ops[i].t);
    }
  }

  /** Without urgent messages they also arrive in the order in which they were linked. */
  lemma {:induction false} FirstInFirstOut(ops: seq<Op>, trace: seq<Mq>, i: nat)
    requires IsRun(ops, trace) && i <= |ops|
    requires forall j :: 0 <= j < |ops| ==> !ops[j].UrgentTake?
    ensures trace[0].texts + Sent(ops, trace, i) == Received(ops, trace, i) + trace[i].texts
  {
    hide Good, Enabled, Step, Matches, DoingAfter, DoingAt;
    if i > 0 {
      hide IsRun, Sent, Received, SentBy, TakenBy;
      var d := RunStep(ops, trace, i - 1);
      FirstInFirstOut(ops, trace, i - 1);
      if ops[i - 1].Link? { NeverUrgent(ops, trace, i - 1, ops[i - 1].t); }
      StepConserves(trace[i - 1], ops[i - 1], d);
      Shift(trace[0].texts, Sent(ops, trace, i - 1), SentBy(ops[i - 1], d),
            Received(ops, trace, i - 1), trace[i - 1].texts, TakenBy(trace[i - 1], ops[i - 1]), trace[i].texts);
    } else {
      assert trace[0].texts + [] == [] + trace[0].texts;
    }
  }

  lemma ShiftAny(a: seq<Message>, b: seq<Message>, c: seq<Message>, d: seq<Message>, e: seq<Message>,
                 f: seq<Message>, g: seq<Message>)
    requires multiset(a) + multiset(b) == multiset(d) + multiset(e)
    requires multiset(e) + multiset(c) == multiset(f) + multiset(g)
    ensures multiset(a) + multiset(b + c) == multiset(d + f) + multiset(g)
  {
    forall x: Message ensures (multiset(a) + multiset(b + c))[x] == (multiset(d + f) + multiset(g))[x] {
      assert (multiset(a) + multiset(b))[x] == (multiset(d) + multiset(e))[x];
      assert (multiset(e) + multiset(c))[x] == (multiset(f) + multiset(g))[x];
    }
  }

  lemma {:induction false} NeverUrgent(ops: seq<Op>, trace: seq<Mq>, i: nat, t: Thread)
    requires |trace| == |ops| + 1 && i <= |ops| && forall j :: 0 <= j < |ops| ==> !ops[j].UrgentTake?
    ensures var d := DoingAt(ops, trace, i, t); d.Sending? ==> !d.urgent
  {
    if i > 0 { NeverUrgent(ops, trace, i - 1, t); }
  }

  /** An urgent message is the next one to be received. */
  lemma UrgentIsNext(q: Mq, t: Thread, d: Doing, u: Thread, size: nat, wait: bool, k: nat)
    requires Good(q) && Enabled(q, Link(t)) && Matches(q, t, d) && d.Sending? && d.urgent
    ensures Good(Step(q, Link(t)))
    ensures var r := Step(q, Link(t));
      Enabled(r, RecvTake(u, size, wait, k)) ==>
        Matches(Step(r, RecvTake(u, size, wait, k)), u, Getting(d.text, size))
  {
    hide Good;
    GoodTexts(q);
    StepKeeps(q, Link(t));
    StepTexts(q, Link(t), d);
    GoodTexts(Step(q, Link(t)));
  }
}
