/** The two-stage wait that mailbox, message queue and memory pool share. A thread that finds
    nothing queues up; whoever makes something available takes the first waiter off the queue
    and makes it ready, and that thread looks again only when it next runs. In between anyone
    may have been quicker. */
module Waiting {
  import opened Rings
  import opened WaitLists

  /** `queue` is suspended on the list; `woken` was taken off it and has not looked again yet. */
  datatype Waiters = Waiters(queue: seq<Thread>, woken: set<Thread>) {
    ghost predicate Sound() {
      Distinct(queue) && forall t :: t in queue ==> t !in woken
    }

    /** No lost wake-up: while threads are queued, everything available is already promised
        to a thread that is going to look again. */
    ghost predicate Served(avail: int) {
      Sound() && (queue != [] ==> avail <= |woken|)
    }

    ghost predicate Knows(t: Thread) {
      t in queue || t in woken
    }

    /** `t` looked, found nothing and suspends at position `k`. */
    function Blocked(t: Thread, k: nat): Waiters
      requires k <= |queue|
    {
      Waiters(Placed(queue, k, t), woken - {t})
    }

    /** `t` looked and returns, with or without what it came for. */
    function Left(t: Thread): Waiters {
      Waiters(queue, woken - {t})
    }

    /** One more unit became available. */
    function WakeFirst(): Waiters {
      if queue == [] then this else Waiters(queue[1..], woken + {queue[0]})
    }

    /** `t` timed out in the queue. */
    ghost function Expired(t: Thread): Waiters {
      Waiters(Without(queue, t), woken)
    }

    /** A reset sends every queued thread home with an error. */
    function Flushed(): Waiters {
      Waiters([], woken)
    }
  }

  lemma BlockedServes(w: Waiters, t: Thread, k: nat)
    requires w.Sound() && t !in w.queue && k <= |w.queue|
    ensures w.Blocked(t, k).Served(0)
    ensures forall x :: w.Blocked(t, k).Knows(x) <==> w.Knows(x) || x == t
  {
    PlacedMembers(w.queue, k, t);
  }

  lemma TakenServes(w: Waiters, t: Thread, avail: int)
    requires w.Served(avail) && avail > 0
    ensures w.Left(t).Served(avail - 1)
    ensures forall x :: w.Left(t).Knows(x) ==> w.Knows(x)
  {
    LeftCount(w.woken, t);
  }

  lemma RefusedServes(w: Waiters, t: Thread)
    requires w.Sound()
    ensures w.Left(t).Served(0)
    ensures forall x :: w.Left(t).Knows(x) ==> w.Knows(x)
  {
  }

  lemma LeftCount(s: set<Thread>, t: Thread)
    ensures |s - {t}| >= |s| - 1
  {
    if t in s { assert s == (s - {t}) + {t}; } else { assert s - {t} == s; }
  }

  lemma WakeServes(w: Waiters, avail: int)
    requires w.Served(avail)
    ensures w.WakeFirst().Served(avail + 1)
    ensures forall x :: w.WakeFirst().Knows(x) <==> w.Knows(x)
  {
    if w.queue != [] {
      var r, f := w.WakeFirst(), w.queue[0];
      assert f in w.queue;
      assert f !in w.woken;
      assert |w.woken + {f}| == |w.woken| + 1;
      assert w.queue == [f] + w.queue[1..];
      forall x | x in r.queue ensures x !in r.woken {
        var i :| 0 <= i < |r.queue| && r.queue[i] == x;
        assert w.queue[i + 1] != w.queue[0] && x in w.queue;
      }
    }
  }

  lemma ExpiredServes(w: Waiters, t: Thread, avail: int)
    requires w.Served(avail)
    ensures w.Expired(t).Served(avail)
    ensures forall x :: w.Expired(t).Knows(x) ==> w.Knows(x)
  {
    MembersWithout(w.queue, t);
  }

  lemma FlushedServes(w: Waiters, avail: int)
    ensures w.Flushed().Served(avail)
    ensures forall x :: w.Flushed().Knows(x) ==> w.Knows(x)
  {
  }

  /** When nobody is on the way to look again, queued threads really have nothing to get. */
  lemma QuiescentMeansEmpty(w: Waiters, avail: nat)
    requires w.Served(avail) && w.queue != [] && w.woken == {}
    ensures avail == 0
  {
  }

  /** A wake-up takes the first thread off the queue and leaves the others in their order; in
      priority order that is a most urgent one, in arrival order the one that came first. */
  lemma WakeTakesFirst(w: Waiters, prio: Thread -> int)
    requires w.queue != []
    ensures var r, t := w.WakeFirst(), w.queue[0];
      && w.queue == [t] + r.queue && r.woken == w.woken + {t}
      && (Urgency(w.queue, prio) ==> forall x :: x in r.queue ==> prio(t) <= prio(x))
  {
    var r, t := w.WakeFirst(), w.queue[0];
    if Urgency(w.queue, prio) {
      forall x | x in r.queue ensures prio(t) <= prio(x) {
        var i :| 0 <= i < |r.queue| && r.queue[i] == x;
        assert prio(w.queue[0]) <= prio(w.queue[i + 1]);
      }
    }
  }

  /** The first thread of the queue, if there is one, has been woken, and nobody else has moved. */
  ghost predicate FirstWoken(w: Waiters, r: Waiters) {
    if w.queue == [] then r == w else w.queue == [w.queue[0]] + r.queue && r.woken == w.woken + {w.queue[0]}
  }

  /** Joining, leaving and timing out move one thread and nobody else. */
  lemma OthersUnmoved(w: Waiters, t: Thread, k: nat)
    requires k <= |w.queue| && Distinct(w.queue)
    ensures var r := w.Blocked(t, k); r.queue[k] == t && Dropped(r.queue, k) == w.queue && t !in r.woken
    ensures var r := w.Left(t); r.queue == w.queue && r.woken == w.woken - {t}
    ensures var r := w.Expired(t);
      r.woken == w.woken && t !in r.queue && forall x :: x != t ==> (x in r.queue <==> x in w.queue)
  {
    assert Dropped(w.Blocked(t, k).queue, k) == w.queue;
    MembersWithout(w.queue, t);
  }

  // ----- order of the queue

  /** What happens to the waiters when threads join in list order. */
  datatype Turn = Block(t: Thread) | Leave(t: Thread) | Wake | Expire(t: Thread) | Flush

  ghost function After(w: Waiters, turn: Turn, prio: Thread -> int, order: Order): Waiters {
    match turn
    case Block(t) => w.Blocked(t, Place(w.queue, t, prio, order))
    case Leave(t) => w.Left(t)
    case Wake => w.WakeFirst()
    case Expire(t) => w.Expired(t)
    case Flush => w.Flushed()
  }

  lemma TurnKeepsOrder(w: Waiters, turn: Turn, prio: Thread -> int)
    requires Urgency(w.queue, prio)
    ensures Urgency(After(w, turn, prio, Prio).queue, prio)
  {
    match turn
    case Block(t) => JoinedIsStable(w.queue, t, prio, Prio);
    case Leave(t) =>
    case Wake => if w.queue != [] { UrgencyTail(w.queue, prio); }
    case Expire(t) => UrgencyWithout(w.queue, t, prio);
    case Flush =>
  }

  /** Over every run the queue of a priority-ordered object is sorted by urgency, so the thread
      that is woken is a most urgent one. */
  lemma {:induction false} EveryRunSorted(turns: seq<Turn>, trace: seq<Waiters>, prio: Thread -> int)
    requires |trace| == |turns| + 1 && Urgency(trace[0].queue, prio)
    requires forall i :: 0 <= i < |turns| ==> trace[i + 1] == After(trace[i], turns[i], prio, Prio)
    ensures forall i :: 0 <= i < |trace| ==> Urgency(trace[i].queue, prio)
  {
    hide Urgency, After;
    if turns != [] {
      TurnKeepsOrder(trace[0], turns[0], prio);
      EveryRunSorted(turns[1..], trace[1..], prio);
      assert forall i :: 1 <= i < |trace| ==> trace[i] == trace[1..][i - 1];
    }
  }
}
