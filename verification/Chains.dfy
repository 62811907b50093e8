/** Singly linked lists through an array of link fields, as in message queues and memory
    pools. A node is an index into the array. */
module Chains {
  import opened Rings

  const NIL: int := -1

  ghost predicate LinkedTo(next: seq<int>, s: seq<int>, i: nat)
    requires i < |s|
  {
    0 <= s[i] < |next| && next[s[i]] == if i + 1 < |s| then s[i + 1] else NIL
  }

  /** From `head` on, the links run through `s` and end in nil. */
  ghost predicate IsList(next: seq<int>, head: int, s: seq<int>) {
    && head == (if s == [] then NIL else s[0])
    && Distinct(s)
    && forall i :: 0 <= i < |s| ==> LinkedTo(next, s, i)
  }

  function Last(s: seq<int>): int {
    if s == [] then NIL else s[|s| - 1]
  }

  lemma ListFrame(next: seq<int>, next': seq<int>, head: int, s: seq<int>)
    requires IsList(next, head, s) && |next'| == |next|
    requires forall i :: 0 <= i < |s| && 0 <= s[i] < |next| ==> next'[s[i]] == next[s[i]]
    ensures IsList(next', head, s)
  {
    forall i | 0 <= i < |s| ensures LinkedTo(next', s, i) { assert LinkedTo(next, s, i); }
  }

  lemma ListStore(next: seq<int>, head: int, s: seq<int>, n: int, v: int)
    requires IsList(next, head, s) && 0 <= n < |next| && n !in s
    ensures IsList(next[n := v], head, s)
  {
    ListFrame(next, next[n := v], head, s);
  }

  lemma ListPop(next: seq<int>, head: int, s: seq<int>)
    requires IsList(next, head, s) && s != []
    ensures 0 <= head < |next| && IsList(next, next[head], s[1..]) && head !in s[1..]
  {
    assert LinkedTo(next, s, 0);
    var r := s[1..];
    forall i | 0 <= i < |r| ensures LinkedTo(next, r, i) { assert LinkedTo(next, s, i + 1); }
    assert forall i :: 0 <= i < |r| ==> r[i] == s[i + 1];
  }

  lemma ListPush(next: seq<int>, head: int, s: seq<int>, n: int)
    requires IsList(next, head, s) && 0 <= n < |next| && n !in s
    ensures IsList(next[n := head], n, [n] + s)
  {
    var r, next' := [n] + s, next[n := head];
    forall i | 0 <= i < |r| ensures LinkedTo(next', r, i) { if i > 0 { assert LinkedTo(next, s, i - 1); } }
  }

  lemma ListAppend(next: seq<int>, head: int, s: seq<int>, n: int)
    requires IsList(next, head, s) && s != [] && 0 <= n < |next| && n !in s && next[n] == NIL
    ensures 0 <= Last(s) < |next| && IsList(next[Last(s) := n], head, s + [n])
  {
    var r, z := s + [n], |s| - 1;
    assert LinkedTo(next, s, z);
    var next' := next[s[z] := n];
    forall i | 0 <= i < |r| ensures LinkedTo(next', r, i) { if i < |s| { assert LinkedTo(next, s, i); } }
  }
}
