/** rt_mb_send_wait, rt_mb_recv and the reset of ipc.c. Each interrupts-disabled region is one
    step; a thread that has to wait comes back later and takes the same step again. */
module Mailboxes {
  import opened Basics
  import opened Rings
  import opened WaitLists
  import opened Waiting

  datatype Outcome = Done | Full | Empty | Suspended

  /** A bounded first-in first-out buffer with its waiting senders and receivers. `sent` and
      `received` are all mails ever accepted and delivered, less those a reset threw away. */
  datatype Mail = Mail(size: nat, mails: seq<int>, recv: Waiters, send: Waiters, sent: seq<int>, received: seq<int>)

  ghost predicate Good(m: Mail) {
    && |m.mails| <= m.size
    && m.recv.Served(|m.mails|)
    && m.send.Served(m.size - |m.mails|)
    && (forall t :: m.recv.Knows(t) ==> !m.send.Knows(t))
    && m.sent == m.received + m.mails
  }

  /** One interrupts-disabled region. `k` is where a suspended thread is put in its queue. */
  datatype Op =
    | Send(t: Thread, mail: int, wait: bool, k: nat)
    | Recv(t: Thread, wait: bool, k: nat)
    | SendTimeout(t: Thread)
    | RecvTimeout(t: Thread)
    | Reset

  /** A thread takes a step of a call only if it is not suspended and not inside the other
      call; a timeout strikes a suspended thread. */
  ghost predicate Enabled(m: Mail, op: Op) {
    match op
    case Send(t, _, _, k) => t !in m.send.queue && !m.recv.Knows(t) && k <= |m.send.queue|
    case Recv(t, _, k) => t !in m.recv.queue && !m.send.Knows(t) && k <= |m.recv.queue|
    case SendTimeout(t) => t in m.send.queue
    case RecvTimeout(t) => t in m.recv.queue
    case Reset => true
  }

  ghost function Step(m: Mail, op: Op): Mail
    requires Enabled(m, op)
  {
    match op
    case Send(t, mail, wait, k) =>
      if |m.mails| == m.size then
        m.(send := if wait then m.send.Blocked(t, k) else m.send.Left(t))
      else
        m.(mails := m.mails + [mail], sent := m.sent + [mail], send := m.send.Left(t), recv := m.recv.WakeFirst())
    case Recv(t, wait, k) =>
      if m.mails == [] then
        m.(recv := if wait then m.recv.Blocked(t, k) else m.recv.Left(t))
      else
        m.(mails := m.mails[1..], received := m.received + [m.mails[0]],
           recv := m.recv.Left(t), send := m.send.WakeFirst())
    case SendTimeout(t) => m.(send := m.send.Expired(t))
    case RecvTimeout(t) => m.(recv := m.recv.Expired(t))
    case Reset => m.(mails := [], sent := m.received, recv := m.recv.Flushed(), send := m.send.Flushed())
  }

  lemma SendKeeps(m: Mail, op: Op)
    requires Good(m) && Enabled(m, op) && op.Send?
    ensures Good(Step(m, op))
  {
    if |m.mails| == m.size {
      if op.wait { BlockedServes(m.send, op.t, op.k); } else { RefusedServes(m.send, op.t); }
    } else {
      TakenServes(m.send, op.t, m.size - |m.mails|);
      WakeServes(m.recv, |m.mails|);
    }
  }

  lemma RecvKeeps(m: Mail, op: Op)
    requires Good(m) && Enabled(m, op) && op.Recv?
    ensures Good(Step(m, op))
  {
    if m.mails == [] {
      if op.wait { BlockedServes(m.recv, op.t, op.k); } else { RefusedServes(m.recv, op.t); }
    } else {
      TakenServes(m.recv, op.t, |m.mails|);
      WakeServes(m.send, m.size - |m.mails|);
      assert m.mails == [m.mails[0]] + m.mails[1..];
    }
  }

  lemma StepKeeps(m: Mail, op: Op)
    requires Good(m) && Enabled(m, op)
    ensures Good(Step(m, op))
  {
    match op
    case Send(_, _, _, _) => SendKeeps(m, op);
    case Recv(_, _, _) => RecvKeeps(m, op);
    case SendTimeout(t) => ExpiredServes(m.send, t, m.size - |m.mails|);
    case RecvTimeout(t) => ExpiredServes(m.recv, t, |m.mails|);
    case Reset =>
      FlushedServes(m.recv, 0);
      FlushedServes(m.send, m.size);
      assert m.received + [] == m.received;
  }

  /** In every interleaving: mails come out in the order they went in, none lost or doubled,
      never more than the mailbox holds, and no wake-up is lost on either side. */
  lemma {:induction false} EveryRun(ops: seq<Op>, trace: seq<Mail>)
    requires |trace| == |ops| + 1 && Good(trace[0])
    requires forall i :: 0 <= i < |ops| ==> Enabled(trace[i], ops[i]) && trace[i + 1] == Step(trace[i], ops[i])
    ensures forall i :: 0 <= i < |trace| ==> Good(trace[i])
  {
    if ops != [] {
      StepKeeps(trace[0], ops[0]);
      EveryRun(ops[1..], trace[1..]);
      assert forall i :: 1 <= i < |trace| ==> trace[i] == trace[1..][i - 1];
    }
  }

  // ----- mails

  /** The mails passed to those of the first `i` operations that are sends into a mailbox with
      room. */
  ghost function Accepted(ops: seq<Op>, trace: seq<Mail>, i: nat): seq<int>
    requires |trace| == |ops| + 1 && i <= |ops|
  {
    if i == 0 then []
    else
      var op, m := ops[i - 1], trace[i - 1];
      Accepted(ops, trace, i - 1) + if op.Send? && |m.mails| < m.size then [op.mail] else []
  }

  /** The mails that were first in the mailbox when the receives among them came. */
  ghost function Delivered(ops: seq<Op>, trace: seq<Mail>, i: nat): seq<int>
    requires |trace| == |ops| + 1 && i <= |ops|
  {
    if i == 0 then []
    else
      var op, m := ops[i - 1], trace[i - 1];
      Delivered(ops, trace, i - 1) + if op.Recv? && m.mails != [] then [m.mails[0]] else []
  }

  lemma StepMails(m: Mail, op: Op)
    requires Good(m) && Enabled(m, op) && !op.Reset?
    ensures m.mails + (if op.Send? && |m.mails| < m.size then [op.mail] else []) ==
      (if op.Recv? && m.mails != [] then [m.mails[0]] else []) + Step(m, op).mails
  {
    if m.mails != [] { assert m.mails == [m.mails[0]] + m.mails[1..]; }
  }

  /** Over every run without a reset: the mails that were passed to accepted sends come out in
      that order, and those that have not are still in the mailbox. */
  lemma {:induction false} MailsInOrder(ops: seq<Op>, trace: seq<Mail>, i: nat)
    requires |trace| == |ops| + 1 && Good(trace[0]) && i <= |ops|
    requires forall j :: 0 <= j < |ops| ==>
      Enabled(trace[j], ops[j]) && !ops[j].Reset? && trace[j + 1] == Step(trace[j], ops[j])
    ensures trace[0].mails + Accepted(ops, trace, i) == Delivered(ops, trace, i) + trace[i].mails
  {
    hide Good, Step, Enabled;
    if i > 0 {
      MailsInOrder(ops, trace, i - 1);
      EveryRun(ops, trace);
      StepMails(trace[i - 1], ops[i - 1]);
      var op, m := ops[i - 1], trace[i - 1];
      Shift(trace[0].mails, Accepted(ops, trace, i - 1), if op.Send? && |m.mails| < m.size then [op.mail] else [],
            Delivered(ops, trace, i - 1), m.mails, if op.Recv? && m.mails != [] then [m.mails[0]] else [],
            trace[i].mails);
    } else {
      assert trace[0].mails + [] == [] + trace[0].mails;
    }
  }

  /** A mail that is stored wakes the first receiver and moves no sender; one that is taken wakes the
      first sender and moves no receiver. */
  lemma PassOutcome(m: Mail, op: Op)
    requires Good(m) && Enabled(m, op)
    ensures op.Send? && |m.mails| < m.size ==>
      var r := Step(m, op); FirstWoken(m.recv, r.recv) && r.send.queue == m.send.queue
    ensures op.Recv? && m.mails != [] ==>
      var r := Step(m, op); FirstWoken(m.send, r.send) && r.recv.queue == m.recv.queue
  {
    hide Good;
    if m.recv.queue != [] { assert m.recv.queue == [m.recv.queue[0]] + m.recv.queue[1..]; }
    if m.send.queue != [] { assert m.send.queue == [m.send.queue[0]] + m.send.queue[1..]; }
  }

  /** A send into a full mailbox and a receive from an empty one leave the mails alone; the thread
      is then queued exactly if it waits, with everyone else as before. */
  lemma WaitOutcome(m: Mail, op: Op)
    requires Good(m) && Enabled(m, op)
    ensures op.Send? && |m.mails| == m.size ==>
      var r := Step(m, op);
      && r.mails == m.mails && r.recv == m.recv
      && (if op.wait then r.send.queue[op.k] == op.t && Dropped(r.send.queue, op.k) == m.send.queue
          else r.send.queue == m.send.queue)
    ensures op.Recv? && m.mails == [] ==>
      var r := Step(m, op);
      && r.mails == [] && r.send == m.send
      && (if op.wait then r.recv.queue[op.k] == op.t && Dropped(r.recv.queue, op.k) == m.recv.queue
          else r.recv.queue == m.recv.queue)
  {
    hide Good;
    if op.Send? { assert Dropped(Placed(m.send.queue, op.k, op.t), op.k) == m.send.queue; }
    if op.Recv? { assert Dropped(Placed(m.recv.queue, op.k, op.t), op.k) == m.recv.queue; }
  }

  // ----- priority order

  /** A thread that has to wait joins in priority order. */
  ghost predicate InOrder(m: Mail, op: Op, prio: Thread -> int) {
    && (op.Send? ==> op.k == Place(m.send.queue, op.t, prio, Prio))
    && (op.Recv? ==> op.k == Place(m.recv.queue, op.t, prio, Prio))
  }

  ghost predicate Sorted(m: Mail, prio: Thread -> int) {
    Urgency(m.recv.queue, prio) && Urgency(m.send.queue, prio)
  }

  lemma StepSorted(m: Mail, op: Op, prio: Thread -> int)
    requires Enabled(m, op) && InOrder(m, op, prio) && Sorted(m, prio)
    ensures Sorted(Step(m, op), prio)
  {
    hide Urgency;
    match op
    case Send(t, _, _, _) => TurnKeepsOrder(m.send, Block(t), prio); TurnKeepsOrder(m.recv, Wake, prio);
    case Recv(t, _, _) => TurnKeepsOrder(m.recv, Block(t), prio); TurnKeepsOrder(m.send, Wake, prio);
    case SendTimeout(t) => TurnKeepsOrder(m.send, Expire(t), prio);
    case RecvTimeout(t) => TurnKeepsOrder(m.recv, Expire(t), prio);
    case Reset => TurnKeepsOrder(m.send, Flush, prio); TurnKeepsOrder(m.recv, Flush, prio);
  }

  /** Over every run of a priority-ordered mailbox both wait lists are sorted by urgency. */
  lemma {:induction false} EveryRunSorted(ops: seq<Op>, trace: seq<Mail>, prio: Thread -> int)
    requires |trace| == |ops| + 1 && Sorted(trace[0], prio)
    requires forall i :: 0 <= i < |ops| ==>
      Enabled(trace[i], ops[i]) && InOrder(trace[i], ops[i], prio) && trace[i + 1] == Step(trace[i], ops[i])
    ensures forall i :: 0 <= i < |trace| ==> Sorted(trace[i], prio)
  {
    hide Sorted, InOrder, Step, Enabled;
    if ops != [] {
      StepSorted(trace[0], ops[0], prio);
      EveryRunSorted(ops[1..], trace[1..], prio);
      assert forall i :: 1 <= i < |trace| ==> trace[i] == trace[1..][i - 1];
    }
  }

  lemma FitsInPool(m: Mail)
    requires Good(m)
    ensures |m.mails| <= m.size
  {
  }

  // ----- the ring buffer

  function Wrap(i: nat, size: nat): nat {
    if i < size then i else i - size
  }

  /** `mails` lies in the ring from `out` on, and the next one goes to `into`. */
  ghost predicate InRing(pool: seq<int>, into: nat, out: nat, mails: seq<int>) {
    && |mails| <= |pool|
    && (pool == [] ==> into == out == 0)
    && (pool != [] ==> into < |pool| && out < |pool| && into == Wrap(out + |mails|, |pool|))
    && forall i {:trigger mails[i]} :: 0 <= i < |mails| ==> mails[i] == pool[Wrap(out + i, |pool|)]
  }

  function Following(i: nat, size: nat): nat {
    if i + 1 >= size then 0 else i + 1
  }

  lemma PushInRing(pool: seq<int>, into: nat, out: nat, mails: seq<int>, mail: int)
    requires InRing(pool, into, out, mails) && |mails| < |pool|
    ensures into < |pool| && InRing(pool[into := mail], Following(into, |pool|), out, mails + [mail])
  {
  }

  lemma PopFromRing(pool: seq<int>, into: nat, out: nat, mails: seq<int>)
    requires InRing(pool, into, out, mails) && mails != []
    ensures out < |pool| && mails[0] == pool[out] && InRing(pool, into, Following(out, |pool|), mails[1..])
  {
    assert Wrap(out + 0, |pool|) == out;
    forall i | 0 <= i < |mails| - 1 ensures mails[1..][i] == pool[Wrap(Following(out, |pool|) + i, |pool|)] {
      assert mails[i + 1] == pool[Wrap(out + (i + 1), |pool|)];
    }
  }

  class Mailbox {
    const pool: array<int>
    const size: nat
    const order: Order
    const prio: Thread -> int
    var entry: nat
    var inOffset: nat
    var outOffset: nat
    var receivers: seq<Thread>
    var senders: seq<Thread>
    ghost var mails: seq<int>
    ghost var recvWoken: set<Thread>
    ghost var sendWoken: set<Thread>
    ghost var sent: seq<int>
    ghost var received: seq<int>

    ghost function Abs(): Mail
      reads this
    {
      Mail(size, mails, Waiters(receivers, recvWoken), Waiters(senders, sendWoken), sent, received)
    }

    ghost predicate Valid()
      reads this, pool
    {
      pool.Length == size && entry == |mails| && Good(Abs()) && InRing(pool[..], inOffset, outOffset, mails)
    }

    constructor (pool: array<int>, order: Order, prio: Thread -> int)
      ensures Valid() && this.pool == pool
      ensures Abs() == Mail(pool.Length, [], Waiters([], {}), Waiters([], {}), [], [])
    {
      this.pool, this.order, this.prio, size := pool, order, prio, pool.Length;
      entry, inOffset, outOffset := 0, 0, 0;
      receivers, senders := [], [];
      mails, recvWoken, sendWoken, sent, received := [], {}, {}, [], [];
    }

    /** Put a mail into the ring. */
    method Store(mail: int)
      requires pool.Length == size && entry == |mails| < size && InRing(pool[..], inOffset, outOffset, mails)
      modifies `entry, `inOffset, `mails, `sent, pool
      ensures entry == |mails| && InRing(pool[..], inOffset, outOffset, mails)
      ensures mails == old(mails) + [mail] && sent == old(sent) + [mail]
    {
      PushInRing(pool[..], inOffset, outOffset, mails, mail);
      hide InRing;
      pool[inOffset] := mail;
      assert pool[..] == old(pool[..])[inOffset := mail];
      inOffset := inOffset + 1;
      if inOffset >= size {
        inOffset := 0;
      }
      entry := entry + 1;
      mails, sent := mails + [mail], sent + [mail];
    }

    /** Take the oldest mail out of the ring. */
    method Fetch() returns (value: int)
      requires pool.Length == size && entry == |mails| > 0 && InRing(pool[..], inOffset, outOffset, mails)
      modifies `entry, `outOffset, `mails, `received
      ensures entry == |mails| && InRing(pool[..], inOffset, outOffset, mails)
      ensures old(mails) == [value] + mails && received == old(received) + [value]
    {
      PopFromRing(pool[..], inOffset, outOffset, mails);
      hide InRing;
      value := pool[outOffset];
      outOffset := outOffset + 1;
      if outOffset >= size {
        outOffset := 0;
      }
      entry := entry - 1;
      mails, received := mails[1..], received + [value];
    }

    /** One turn of rt_mb_send_wait, from disabling interrupts to enabling them again. */
    method Send(t: Thread, mail: int, timeout: int) returns (r: Outcome)
      requires Valid() && t !in senders && !Waiters(receivers, recvWoken).Knows(t)
      modifies this, pool
      ensures Valid()
      ensures var op := Op.Send(t, mail, timeout != 0, Place(old(senders), t, prio, order));
        Enabled(old(Abs()), op) && Abs() == Step(old(Abs()), op)
      ensures r == if |old(mails)| < size then Done else if timeout == 0 then Full else Suspended
    {
      hide Good, InRing, Placed, Place;
      StepKeeps(Abs(), Op.Send(t, mail, timeout != 0, Place(senders, t, prio, order)));
      FitsInPool(Abs());
      sendWoken := sendWoken - {t};
      if entry == size {
        if timeout == 0 {
          return Full;
        }
        senders := Joined(senders, t, prio, order);
        return Suspended;
      }
      Store(mail);
      if receivers != [] {
        recvWoken, receivers := recvWoken + {receivers[0]}, receivers[1..];
      }
      return Done;
    }

    /** One turn of rt_mb_recv. */
    method Recv(t: Thread, timeout: int) returns (r: Outcome, value: int)
      requires Valid() && t !in receivers && !Waiters(senders, sendWoken).Knows(t)
      modifies this
      ensures Valid()
      ensures var op := Op.Recv(t, timeout != 0, Place(old(receivers), t, prio, order));
        Enabled(old(Abs()), op) && Abs() == Step(old(Abs()), op)
      ensures r == if old(mails) != [] then Done else if timeout == 0 then Empty else Suspended
      ensures r == Done ==> old(mails) == [value] + mails
    {
      hide Good, InRing, Placed, Place;
      StepKeeps(Abs(), Op.Recv(t, timeout != 0, Place(receivers, t, prio, order)));
      recvWoken := recvWoken - {t};
      if entry == 0 {
        if timeout == 0 {
          return Empty, 0;
        }
        receivers := Joined(receivers, t, prio, order);
        return Suspended, 0;
      }
      value := Fetch();
      assert old(mails)[1..] == mails;
      if senders != [] {
        sendWoken, senders := sendWoken + {senders[0]}, senders[1..];
      }
      return Done, value;
    }

    /** rt_mb_control with RT_IPC_CMD_RESET. */
    method Clear()
      requires Valid()
      modifies this
      ensures Valid() && Abs() == Step(old(Abs()), Reset)
      ensures entry == 0 && mails == [] && receivers == [] && senders == []
    {
      hide Good, Joined;
      StepKeeps(Abs(), Reset);
      receivers, senders := [], [];
      entry, inOffset, outOffset := 0, 0, 0;
      mails, sent := [], received;
    }
  }
}
