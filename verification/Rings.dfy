/** Doubly linked rings as the kernel builds them: two link fields, each a map from a
    node's address to the address it stores. The ghost sequence lists the ring once
    around, starting at the node the code keeps as its head. */
module Rings {

  ghost predicate Distinct<T>(s: seq<T>) {
    forall i, j :: 0 <= i < j < |s| ==> s[i] != s[j]
  }

  /** The node after position `i`. */
  function After<T>(s: seq<T>, i: nat): T
    requires i < |s|
  {
    if i + 1 < |s| then s[i + 1] else s[0]
  }

  /** The node before position `i`. */
  function Before<T>(s: seq<T>, i: nat): T
    requires i < |s|
  {
    if i > 0 then s[i - 1] else s[|s| - 1]
  }

  /** The links of the node at position `i` point at its neighbours in `s`. */
  ghost predicate Linked<T>(next: map<T, T>, prev: map<T, T>, s: seq<T>, i: nat)
    requires i < |s|
  {
    && s[i] in next && next[s[i]] == After(s, i)
    && s[i] in prev && prev[s[i]] == Before(s, i)
  }

  /** `next` leads once around `s` and back to its start, and `prev` undoes it. */
  ghost predicate IsRing<T>(next: map<T, T>, prev: map<T, T>, s: seq<T>) {
    && |s| > 0
    && Distinct(s)
    && forall i :: 0 <= i < |s| ==> Linked(next, prev, s, i)
  }

  function Inserted<T>(s: seq<T>, i: nat, x: T): (r: seq<T>)
    requires i < |s|
    ensures |r| == |s| + 1
    ensures forall k :: 0 <= k < |r| ==> r[k] == if k <= i then s[k] else if k == i + 1 then x else s[k - 1]
  {
    s[..i + 1] + [x] + s[i + 1..]
  }

  function Dropped<T>(s: seq<T>, i: nat): (r: seq<T>)
    requires i < |s|
    ensures |r| == |s| - 1
    ensures forall k :: 0 <= k < |r| ==> r[k] == if k < i then s[k] else s[k + 1]
  {
    s[..i] + s[i + 1..]
  }

  lemma MembersInserted<T>(s: seq<T>, i: nat, x: T)
    requires i < |s|
    ensures forall a :: a in Inserted(s, i, x) <==> a in s || a == x
  {
    var r := Inserted(s, i, x);
    forall a | a in s || a == x
      ensures a in r
    {
      if a == x {
        assert r[i + 1] == a;
      } else {
        var k :| 0 <= k < |s| && s[k] == a;
        assert r[if k <= i then k else k + 1] == a;
      }
    }
  }

  lemma MembersDropped<T>(s: seq<T>, i: nat)
    requires i < |s| && Distinct(s)
    ensures forall a :: a in Dropped(s, i) <==> a in s && a != s[i]
    ensures Distinct(Dropped(s, i))
  {
    var r := Dropped(s, i);
    forall a | a in s && a != s[i]
      ensures a in r
    {
      var k :| 0 <= k < |s| && s[k] == a;
      assert r[if k < i then k else k - 1] == a;
    }
  }

  /** A ring depends only on the links of its own nodes. */
  lemma Frame<T>(next: map<T, T>, prev: map<T, T>, next': map<T, T>, prev': map<T, T>, s: seq<T>)
    requires IsRing(next, prev, s)
    requires forall a :: a in s ==>
      a in next' && a in prev' && a in next && a in prev && next'[a] == next[a] && prev'[a] == prev[a]
    ensures IsRing(next', prev', s)
  {
    forall i | 0 <= i < |s|
      ensures Linked(next', prev', s, i)
    {
      assert Linked(next, prev, s, i);
    }
  }

  /** Linking a fresh node behind position `i` with the four usual stores. */
  lemma InsertAfter<T>(next: map<T, T>, prev: map<T, T>, s: seq<T>, i: nat, x: T)
    requires IsRing(next, prev, s) && i < |s| && x !in s
    ensures Linked(next, prev, s, i)
    ensures IsRing(next[x := next[s[i]]][s[i] := x], prev[x := s[i]][next[s[i]] := x], Inserted(s, i, x))
    ensures forall a :: a in Inserted(s, i, x) <==> a in s || a == x
  {
    assert Linked(next, prev, s, i);
    MembersInserted(s, i, x);
    var n, p, r := next[x := next[s[i]]][s[i] := x], prev[x := s[i]][next[s[i]] := x], Inserted(s, i, x);
    forall k | 0 <= k < |r|
      ensures Linked(n, p, r, k)
    {
      if k <= i {
        assert Linked(next, prev, s, k);
      } else if k > i + 1 {
        assert Linked(next, prev, s, k - 1);
      }
    }
  }

  /** Unlinking the node at position `i` with the two usual stores. */
  lemma Remove<T>(next: map<T, T>, prev: map<T, T>, s: seq<T>, i: nat)
    requires IsRing(next, prev, s) && i < |s| && |s| > 1
    ensures Linked(next, prev, s, i)
    ensures IsRing(next[prev[s[i]] := next[s[i]]], prev[next[s[i]] := prev[s[i]]], Dropped(s, i))
    ensures forall a :: a in Dropped(s, i) <==> a in s && a != s[i]
  {
    assert Linked(next, prev, s, i);
    MembersDropped(s, i);
    var n, p, r := next[prev[s[i]] := next[s[i]]], prev[next[s[i]] := prev[s[i]]], Dropped(s, i);
    forall k | 0 <= k < |r|
      ensures Linked(n, p, r, k)
    {
      assert Linked(next, prev, s, if k < i then k else k + 1);
    }
  }

  ghost function Position<T>(s: seq<T>, a: T): (k: nat)
    requires a in s
    ensures k < |s| && s[k] == a
  {
    var k :| 0 <= k < |s| && s[k] == a;
    k
  }

  ghost function Without<T>(s: seq<T>, a: T): seq<T> {
    if a in s then Dropped(s, Position(s, a)) else s
  }

  lemma MembersWithout<T>(s: seq<T>, a: T)
    requires Distinct(s)
    ensures Distinct(Without(s, a)) && forall x :: x in Without(s, a) <==> x in s && x != a
    ensures a in s ==> |Without(s, a)| == |s| - 1
  {
    if a in s { MembersDropped(s, Position(s, a)); }
  }
}
