/** The doubly linked lists of rtservice.h and the wait lists ipc.c builds from them. A node
    is named by its address; a thread's node by the thread. */
module WaitLists {
  import opened Rings

  type Thread = int

  datatype Order = Fifo | Prio

  /** Where a thread of priority `p` goes: before the first one that is less urgent. */
  function Slot(q: seq<Thread>, prio: Thread -> int, p: int): (k: nat)
    ensures k <= |q|
    ensures k < |q| ==> p < prio(q[k])
    ensures forall j :: 0 <= j < k ==> prio(q[j]) <= p
  {
    if q == [] || p < prio(q[0]) then 0 else 1 + Slot(q[1..], prio, p)
  }

  function Placed(q: seq<Thread>, k: nat, t: Thread): (r: seq<Thread>)
    requires k <= |q|
    ensures |r| == |q| + 1
  {
    q[..k] + [t] + q[k..]
  }

  lemma PlacedMembers(q: seq<Thread>, k: nat, t: Thread)
    requires k <= |q|
    ensures forall x :: x in Placed(q, k, t) <==> x in q || x == t
    ensures t !in q && Distinct(q) ==> Distinct(Placed(q, k, t))
  {
    assert q == q[..k] + q[k..];
  }

  /** Where rt_ipc_list_suspend puts `t`. */
  function Place(q: seq<Thread>, t: Thread, prio: Thread -> int, order: Order): (k: nat)
    ensures k <= |q|
  {
    if order.Fifo? then |q| else Slot(q, prio, prio(t))
  }

  /** The wait list after `t` has joined it. */
  function Joined(q: seq<Thread>, t: Thread, prio: Thread -> int, order: Order): (r: seq<Thread>)
    ensures |r| == |q| + 1
  {
    Placed(q, Place(q, t, prio, order), t)
  }

  ghost predicate Urgency(q: seq<Thread>, prio: Thread -> int) {
    forall i, j :: 0 <= i < j < |q| ==> prio(q[i]) <= prio(q[j])
  }

  /** Joining disturbs nobody: dropping the newcomer gives back the old list. In priority
      order the list stays sorted and the newcomer stands behind its equals. */
  lemma JoinedIsStable(q: seq<Thread>, t: Thread, prio: Thread -> int, order: Order)
    ensures var r := Joined(q, t, prio, order);
      exists k :: 0 <= k < |r| && r[k] == t && Dropped(r, k) == q
        && (order.Fifo? ==> k == |q|)
        && (order.Prio? && Urgency(q, prio) ==>
              && Urgency(r, prio)
              && (forall j :: 0 <= j < |r| && j != k ==> (j < k <==> prio(r[j]) <= prio(t))))
  {
    hide Urgency;
    var k := Place(q, t, prio, order);
    var r := Joined(q, t, prio, order);
    assert r[k] == t && Dropped(r, k) == q;
    if order.Prio? && Urgency(q, prio) {
      PlacedBetween(q, k, t, prio);
      PlacedSorted(q, k, t, prio);
    }
  }

  lemma PlacedBetween(q: seq<Thread>, k: nat, t: Thread, prio: Thread -> int)
    requires Urgency(q, prio) && k <= |q| && (k < |q| ==> prio(t) < prio(q[k]))
    requires forall j :: 0 <= j < k ==> prio(q[j]) <= prio(t)
    ensures var r := Placed(q, k, t); forall j :: 0 <= j < |r| && j != k ==> (j < k <==> prio(r[j]) <= prio(t))
  {
    var r := Placed(q, k, t);
    forall j | 0 <= j < |r| && j != k ensures j < k <==> prio(r[j]) <= prio(t) {
      if j > k { assert r[j] == q[j - 1] && prio(q[k]) <= prio(q[j - 1]); }
    }
  }

  lemma PlacedSorted(q: seq<Thread>, k: nat, t: Thread, prio: Thread -> int)
    requires Urgency(q, prio) && k <= |q| && (k < |q| ==> prio(t) < prio(q[k]))
    requires forall j :: 0 <= j < k ==> prio(q[j]) <= prio(t)
    ensures Urgency(Placed(q, k, t), prio)
  {
    var r := Placed(q, k, t);
    forall i, j | 0 <= i < j < |r| ensures prio(r[i]) <= prio(r[j]) {
      if i != k && j != k {
        assert prio(q[if i < k then i else i - 1]) <= prio(q[if j < k then j else j - 1]);
      } else if i == k {
        assert r[j] == q[j - 1] && prio(q[k]) <= prio(q[j - 1]);
      }
    }
  }

  lemma UrgencyDropped(q: seq<Thread>, prio: Thread -> int, k: nat)
    requires Urgency(q, prio) && k < |q|
    ensures Urgency(Dropped(q, k), prio)
  {
    var r := Dropped(q, k);
    forall i, j | 0 <= i < j < |r| ensures prio(r[i]) <= prio(r[j]) {
      assert prio(q[if i < k then i else i + 1]) <= prio(q[if j < k then j else j + 1]);
    }
  }

  lemma UrgencyTail(q: seq<Thread>, prio: Thread -> int)
    requires Urgency(q, prio) && q != []
    ensures Urgency(q[1..], prio)
  {
    UrgencyDropped(q, prio, 0);
    assert Dropped(q, 0) == q[1..];
  }

  lemma UrgencyWithout(q: seq<Thread>, t: Thread, prio: Thread -> int)
    requires Urgency(q, prio)
    ensures Urgency(Without(q, t), prio)
  {
    if t in q { UrgencyDropped(q, prio, Position(q, t)); }
  }

  /** Nodes outside `s` have not been touched. */
  ghost predicate OthersKept(next: map<int, int>, prev: map<int, int>, next': map<int, int>, prev': map<int, int>,
                             s: seq<int>) {
    && (forall a :: a in next && a !in s ==> a in next' && next'[a] == next[a])
    && (forall a :: a in prev && a !in s ==> a in prev' && prev'[a] == prev[a])
  }

  class ListMemory {
    var next: map<int, int>
    var prev: map<int, int>
    /** thread->error, as set by the kernel when it wakes a thread for a reason of its own. */
    var error: map<Thread, int>

    constructor ()
      ensures next == prev == map[] && error == map[]
    {
      next, prev, error := map[], map[], map[];
    }

    /** rt_list_init. */
    method Init(l: int)
      modifies `next, `prev
      ensures IsRing(next, prev, [l])
      ensures OthersKept(old(next), old(prev), next, prev, [l])
    {
      next := next[l := l];
      prev := prev[l := l];
      assert Linked(next, prev, [l], 0);
    }

    /** rt_list_insert_after. */
    method InsertAfter(l: int, n: int, ghost s: seq<int>, ghost i: nat)
      requires IsRing(next, prev, s) && i < |s| && s[i] == l && n !in s
      modifies `next, `prev
      ensures IsRing(next, prev, Inserted(s, i, n))
      ensures OthersKept(old(next), old(prev), next, prev, s + [n])
    {
      hide IsRing, Inserted;
      Rings.InsertAfter(next, prev, s, i, n);
      NeighboursInRing(next, prev, s, i);
      var after := next[l];
      prev := prev[after := n];
      next := next[n := after];
      next := next[l := n];
      prev := prev[n := l];
      assert prev == old(prev)[n := l][after := n];
    }

    /** rt_list_insert_before: in front of the ring's head means at its end. */
    method InsertBefore(l: int, n: int, ghost s: seq<int>, ghost i: nat)
      requires IsRing(next, prev, s) && i < |s| && s[i] == l && n !in s
      modifies `next, `prev
      ensures IsRing(next, prev, if i == 0 then s + [n] else Inserted(s, i - 1, n))
      ensures OthersKept(old(next), old(prev), next, prev, s + [n])
    {
      hide IsRing, Inserted;
      ghost var j := if i == 0 then |s| - 1 else i - 1;
      Rings.InsertAfter(next, prev, s, j, n);
      NeighboursInRing(next, prev, s, i);
      NeighboursInRing(next, prev, s, j);
      InsertedLast(s, n);
      var before := prev[l];
      next := next[before := n];
      prev := prev[n := before];
      prev := prev[l := n];
      next := next[n := l];
      assert next == old(next)[n := l][before := n];
    }

    /** rt_list_remove: the node ends up as a ring of its own, as it does if it was one before. */
    method Remove(n: int, ghost s: seq<int>, ghost i: nat)
      requires IsRing(next, prev, s) && i < |s| && s[i] == n
      modifies `next, `prev
      ensures IsRing(next, prev, [n]) && (|s| > 1 ==> IsRing(next, prev, Dropped(s, i)))
      ensures OthersKept(old(next), old(prev), next, prev, s)
    {
      NeighboursInRing(next, prev, s, i);
      if |s| > 1 { Rings.Remove(next, prev, s, i); }
      ghost var n1, p1 := next[prev[n] := next[n]], prev[next[n] := prev[n]];
      prev := prev[next[n] := prev[n]];
      next := next[prev[n] := next[n]];
      assert |s| > 1 ==> next == n1 && prev == p1;
      next := next[n := n];
      prev := prev[n := n];
      assert Linked(next, prev, [n], 0);
      if |s| > 1 { StillRing(n1, p1, next, prev, Dropped(s, i), n); }
    }

    /** rt_list_isempty. */
    method IsEmpty(l: int, ghost s: seq<int>) returns (b: bool)
      requires IsRing(next, prev, s) && s[0] == l
      ensures b <==> |s| == 1
    {
      assert Linked(next, prev, s, 0);
      return next[l] == l;
    }

    /** rt_list_len. */
    method Len(l: int, ghost s: seq<int>) returns (len: nat)
      requires IsRing(next, prev, s) && s[0] == l
      ensures len == |s| - 1
    {
      len := 0;
      var p := l;
      assert Linked(next, prev, s, 0);
      while next[p] != l
        invariant len < |s| && p == s[len] && p in next && next[p] == After(s, len)
        decreases |s| - len
      {
        p, len := next[p], len + 1;
        assert Linked(next, prev, s, len);
      }
    }

    /** The loop that looks for the first thread less urgent than `p`. */
    method FindSlot(l: int, p: int, prio: Thread -> int, ghost q: seq<Thread>) returns (n: int)
      requires IsRing(next, prev, [l] + q)
      ensures var k := Slot(q, prio, p); n == if k < |q| then q[k] else l
      ensures forall j :: 0 <= j < |q| ==> q[j] != l
    {
      ghost var s, k := [l] + q, 0;
      HeadApart(l, q);
      NeighboursInRing(next, prev, s, 0);
      n := next[l];
      hide IsRing;
      while n != l
        invariant 0 <= k <= |q| && n == if k < |q| then q[k] else l
        invariant forall j :: 0 <= j < k ==> prio(q[j]) <= p
        decreases |q| - k
      {
        if p < prio(n) {
          break;
        }
        assert s[k + 1] == n;
        NeighboursInRing(next, prev, s, k + 1);
        n, k := next[n], k + 1;
      }
      SlotIs(q, prio, p, k);
    }

    /** rt_ipc_list_suspend, on the list headed by `l` in which `q` is waiting. */
    method Suspend(l: int, t: Thread, prio: Thread -> int, order: Order, ghost q: seq<Thread>)
      requires IsRing(next, prev, [l] + q) && t !in [l] + q
      modifies `next, `prev
      ensures IsRing(next, prev, [l] + Joined(q, t, prio, order))
      ensures OthersKept(old(next), old(prev), next, prev, [l] + q + [t])
    {
      hide IsRing, OthersKept, Joined, Inserted;
      ghost var s := [l] + q;
      JoinedRing(l, q, t, prio, order);
      match order
      case Fifo =>
        InsertBefore(l, t, s, 0);
      case Prio =>
        var n := FindSlot(l, prio(t), prio, q);
        if n == l {
          InsertBefore(l, t, s, 0);
        } else {
          InsertBefore(n, t, s, Slot(q, prio, prio(t)) + 1);
        }
    }

    /** rt_ipc_list_resume: the first waiter leaves the list. */
    method Resume(l: int, ghost q: seq<Thread>) returns (t: Thread)
      requires IsRing(next, prev, [l] + q) && q != []
      modifies `next, `prev
      ensures t == q[0] && IsRing(next, prev, [l] + q[1..])
      ensures OthersKept(old(next), old(prev), next, prev, [l] + q)
    {
      ghost var s := [l] + q;
      NeighboursInRing(next, prev, s, 0);
      t := next[l];
      assert s[1] == t;
      assert Dropped(s, 1) == [l] + q[1..];
      Remove(t, s, 1);
    }

    /** rt_ipc_list_resume_all: every waiter leaves with an error, in list order, once. */
    method ResumeAll(l: int, ghost q: seq<Thread>) returns (woken: seq<Thread>)
      requires IsRing(next, prev, [l] + q)
      modifies `next, `prev, `error
      ensures woken == q && IsRing(next, prev, [l])
      ensures error == Refused(old(error), q)
    {
      hide IsRing, OthersKept, Refused;
      woken := [];
      ghost var k := 0;
      RefusedNext(error, [], 0);
      assert q[0..] == q && q[..0] == [];
      var empty := IsEmpty(l, [l] + q);
      while !empty
        invariant 0 <= k <= |q| && woken == q[..k] && (empty <==> k == |q|)
        invariant IsRing(next, prev, [l] + q[k..])
        invariant error == Refused(old(error), q[..k])
        decreases |q| - k
      {
        RefusedNext(old(error), q[..k], q[k]);
        CutAt(q, k);
        FirstInRing(next, prev, l, q, k);
        error := error[next[l] := -1];
        var t := Resume(l, q[k..]);
        woken, k := woken + [t], k + 1;
        empty := IsEmpty(l, [l] + q[k..]);
      }
      assert q[..k] == q && [l] + q[k..] == [l];
    }
  }

  /** The error fields once every thread of `s` has been sent home with -RT_ERROR. */
  function Refused(error: map<Thread, int>, s: seq<Thread>): map<Thread, int> {
    error + map t | t in s :: -1
  }

  lemma RefusedNext(error: map<Thread, int>, s: seq<Thread>, t: Thread)
    ensures Refused(error, []) == error
    ensures Refused(error, s)[t := -1] == Refused(error, s + [t])
  {
  }

  lemma CutAt(q: seq<Thread>, k: nat)
    requires k < |q|
    ensures q[..k + 1] == q[..k] + [q[k]] && q[k..][1..] == q[k + 1..] && q[k..][0] == q[k]
  {
  }

  lemma FirstInRing(next: map<int, int>, prev: map<int, int>, l: int, q: seq<Thread>, k: nat)
    requires k < |q| && IsRing(next, prev, [l] + q[k..])
    ensures l in next && next[l] == q[k]
  {
    NeighboursInRing(next, prev, [l] + q[k..], 0);
  }

  lemma InsertedLast(s: seq<int>, n: int)
    requires s != []
    ensures Inserted(s, |s| - 1, n) == s + [n]
  {
  }

  lemma HeadApart(l: int, q: seq<Thread>)
    requires Distinct([l] + q)
    ensures forall j :: 0 <= j < |q| ==> q[j] != l
  {
    forall j | 0 <= j < |q| ensures q[j] != l { assert ([l] + q)[0] != ([l] + q)[j + 1]; }
  }

  lemma JoinedRing(l: int, q: seq<Thread>, t: Thread, prio: Thread -> int, order: Order)
    ensures var k, s, r := Slot(q, prio, prio(t)), [l] + q, [l] + Joined(q, t, prio, order);
      r == if order.Fifo? || k == |q| then s + [t] else Inserted(s, k, t)
  {
    var k := Place(q, t, prio, order);
    PlacedRing(l, q, k, t);
  }

  lemma PlacedRing(l: int, q: seq<Thread>, k: nat, t: Thread)
    requires k <= |q|
    ensures var s, r := [l] + q, [l] + Placed(q, k, t); r == if k == |q| then s + [t] else Inserted(s, k, t)
  {
  }

  lemma SlotIs(q: seq<Thread>, prio: Thread -> int, p: int, k: nat)
    requires k <= |q|
    requires k < |q| ==> p < prio(q[k])
    requires forall j :: 0 <= j < k ==> prio(q[j]) <= p
    ensures Slot(q, prio, p) == k
  {
    var f := Slot(q, prio, p);
    assert !(f < k) && !(k < f);
  }

  lemma NeighboursInRing(next: map<int, int>, prev: map<int, int>, s: seq<int>, i: nat)
    requires IsRing(next, prev, s) && i < |s|
    ensures s[i] in next && s[i] in prev && next[s[i]] in s && prev[s[i]] in s
    ensures next[s[i]] == After(s, i) && prev[s[i]] == Before(s, i)
    ensures next[s[i]] in next && next[s[i]] in prev && prev[s[i]] in next && prev[s[i]] in prev
    ensures |s| > 1 ==> next[s[i]] != s[i] && prev[s[i]] != s[i]
  {
    var n := |s|;
    assert Linked(next, prev, s, i);
    assert Linked(next, prev, s, if i + 1 < n then i + 1 else 0);
    assert Linked(next, prev, s, if i > 0 then i - 1 else n - 1);
  }

  /** A node outside a ring is made a ring of its own. */
  lemma StillRing(next: map<int, int>, prev: map<int, int>, next': map<int, int>, prev': map<int, int>, r: seq<int>,
                  n: int)
    requires IsRing(next, prev, r) && n !in r && next' == next[n := n] && prev' == prev[n := n]
    ensures IsRing(next', prev', r)
  {
    RingKeys(next, prev, r);
    forall a | a in r ensures a in next && a in prev && a != n { }
    Frame(next, prev, next', prev', r);
  }

  lemma RingKeys(next: map<int, int>, prev: map<int, int>, s: seq<int>)
    requires IsRing(next, prev, s)
    ensures forall a :: a in s ==> a in next && a in prev
  {
    forall a | a in s ensures a in next && a in prev {
      var k :| 0 <= k < |s| && s[k] == a;
      assert Linked(next, prev, s, k);
    }
  }
}
