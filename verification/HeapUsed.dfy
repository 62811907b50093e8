/** The allocated blocks of a layout, and what the operations on it do to them. */
module HeapUsed {
  import opened HeapLayout
  import opened HeapOps

  /** The used blocks, each with its address and size. */
  ghost function Used(s: seq<Block>): multiset<Block> {
    if s == [] then multiset{} else (if s[0].used then multiset{s[0]} else multiset{}) + Used(s[1..])
  }

  lemma {:induction false} UsedConcat(a: seq<Block>, b: seq<Block>)
    ensures Used(a + b) == Used(a) + Used(b)
  {
    if a == [] {
      assert a + b == b;
    } else {
      assert (a + b)[1..] == a[1..] + b;
      UsedConcat(a[1..], b);
    }
  }

  lemma UsedOne(b: Block)
    ensures Used([b]) == if b.used then multiset{b} else multiset{}
  {
    assert Used([b][1..]) == multiset{};
  }

  lemma UsedTwo(b: Block, d: Block)
    ensures Used([b, d]) == Used([b]) + Used([d])
  {
    UsedConcat([b], [d]);
    assert [b] + [d] == [b, d];
  }

  lemma {:induction false} UsedMember(s: seq<Block>, b: Block)
    ensures b in Used(s) <==> b in s && b.used
  {
    if s != [] {
      UsedMember(s[1..], b);
      assert s == [s[0]] + s[1..];
    }
  }

  lemma NothingAdded(a: multiset<Block>, b: multiset<Block>)
    requires a + multiset{} == b + multiset{}
    ensures a == b
  {
    forall x: Block ensures a[x] == b[x] {
      assert (a + multiset{})[x] == (b + multiset{})[x];
    }
  }

  /** Two exchanges in a row are one. */
  lemma Exchanges(r: multiset<Block>, t: multiset<Block>, s: multiset<Block>,
                  a: multiset<Block>, b: multiset<Block>, c: multiset<Block>)
    requires t + a == s + b && r + b == t + c
    ensures r + a == s + c
  {
    forall x: Block ensures (r + a)[x] == (s + c)[x] {
      assert (t + a)[x] == (s + b)[x] && (r + b)[x] == (t + c)[x];
    }
  }

  lemma UsedReplace(s: seq<Block>, i: nat, k: nat, mid: seq<Block>)
    requires i + k <= |s|
    ensures Used(Replace(s, i, k, mid)) + Used(s[i..i + k]) == Used(s) + Used(mid)
  {
    hide Used;
    var a, m, b := s[..i], s[i..i + k], s[i + k..];
    assert s == a + m + b;
    UsedConcat(a, m);
    UsedConcat(a + m, b);
    UsedConcat(a, mid);
    UsedConcat(a + mid, b);
  }

  lemma UsedMark(s: seq<Block>, i: nat, flag: bool)
    requires i < |s|
    ensures Used(Mark(s, i, flag)) + Used([s[i]]) == Used(s) + Used([s[i].(used := flag)])
  {
    hide Used;
    UsedReplace(s, i, 1, [s[i].(used := flag)]);
    assert s[i..i + 1] == [s[i]];
    assert Replace(s, i, 1, [s[i].(used := flag)]) == Mark(s, i, flag);
  }

  lemma UsedSplit(s: seq<Block>, i: nat, size: int, hdr: nat)
    requires i < |s|
    ensures Used(Split(s, i, size, hdr)) + Used([s[i]]) == Used(s) + Used([s[i].(size := size)])
  {
    hide Used, Replace, Split;
    var x, y := Block(s[i].addr, size, s[i].used), Block(s[i].addr + hdr + size, s[i].size - size - hdr, false);
    SplitIs(s, i, size, hdr);
    UsedReplace(s, i, 1, [x, y]);
    UsedTwo(x, y);
    FreeUnseen(y);
    assert Used([x, y]) == Used([x]);
    assert x == s[i].(size := size);
  }

  lemma SplitIs(s: seq<Block>, i: nat, size: int, hdr: nat)
    requires i < |s|
    ensures s[i..i + 1] == [s[i]]
    ensures Split(s, i, size, hdr) == Replace(s, i, 1,
      [Block(s[i].addr, size, s[i].used), Block(s[i].addr + hdr + size, s[i].size - size - hdr, false)])
  {
  }

  /** Swallowing a free block changes the swallowing one only. */
  lemma UsedMerge(s: seq<Block>, i: nat, hdr: nat)
    requires i + 1 < |s| && !s[i + 1].used
    ensures Used(Merge(s, i, hdr)) + Used([s[i]]) == Used(s) + Used([s[i].(size := s[i].size + hdr + s[i + 1].size)])
  {
    hide Used;
    UsedReplace(s, i, 2, [Block(s[i].addr, s[i].size + hdr + s[i + 1].size, s[i].used)]);
    UsedTwo(s[i], s[i + 1]);
    UsedOne(s[i + 1]);
    assert s[i..i + 2] == [s[i], s[i + 1]];
  }

  lemma UsedPlug(s: seq<Block>, i: nat, hdr: nat)
    requires i < |s| && !s[i].used
    ensures Used(PlugHoles(s, i, hdr)) == Used(s)
  {
    hide Used, Merge;
    var t := PlugForward(s, i, hdr);
    PlugForwardAt(s, i, hdr);
    if i + 1 < |s| && !s[i + 1].used {
      UsedMerge(s, i, hdr);
      MergeAt(s, i, hdr);
      FreeUnseen(s[i]);
      FreeUnseen(s[i].(size := s[i].size + hdr + s[i + 1].size));
      NothingAdded(Used(t), Used(s));
    }
    assert Used(t) == Used(s) && !t[i].used;
    if i > 0 && !t[i - 1].used {
      UsedMerge(t, i - 1, hdr);
      FreeUnseen(t[i - 1]);
      FreeUnseen(t[i - 1].(size := t[i - 1].size + hdr + t[i].size));
      NothingAdded(Used(PlugHoles(s, i, hdr)), Used(t));
    }
  }

  lemma FreeUnseen(b: Block)
    requires !b.used
    ensures Used([b]) == multiset{}
  {
    UsedOne(b);
  }

  // ----- what the allocators compose

  /** The block handed out: `size` bytes of block `i`, or the whole of it. */
  function HandedOut(s: seq<Block>, i: nat, size: int, hdr: nat, mini: nat): (b: Block)
    requires i < |s| && size <= s[i].size && hdr > 0
    ensures b.used && b.addr == s[i].addr && size <= b.size < size + hdr + mini
  {
    Block(s[i].addr, if s[i].size >= size + hdr + mini then size else s[i].size, true)
  }

  /** An allocation adds that block. */
  lemma UsedAllocated(s: seq<Block>, i: nat, size: int, hdr: nat, mini: nat)
    requires i < |s| && !s[i].used && size <= s[i].size && hdr > 0
    ensures Used(Allocated(s, i, size, hdr, mini)) == Used(s) + multiset{HandedOut(s, i, size, hdr, mini)}
  {
    hide Used, Split;
    FreeUnseen(s[i]);
    if s[i].size >= size + hdr + mini {
      var t := Split(s, i, size, hdr);
      UsedSplit(s, i, size, hdr);
      SplitAt(s, i, size, hdr);
      FreeUnseen(s[i].(size := size));
      NothingAdded(Used(t), Used(s));
      UsedTaken(t, i);
    } else {
      UsedTaken(s, i);
    }
  }

  lemma UsedTaken(s: seq<Block>, i: nat)
    requires i < |s| && !s[i].used
    ensures Used(Mark(s, i, true)) == Used(s) + multiset{s[i].(used := true)}
  {
    hide Used;
    FreeUnseen(s[i]);
    UsedMark(s, i, true);
    UsedOne(s[i].(used := true));
    NothingAdded(Used(Mark(s, i, true)), Used(s) + multiset{s[i].(used := true)});
  }

  /** A release takes the block away. */
  lemma UsedFreed(s: seq<Block>, i: nat, hdr: nat)
    requires i < |s| && s[i].used
    ensures Used(Freed(s, i, hdr)) + multiset{s[i]} == Used(s)
  {
    hide Used, PlugHoles;
    UsedMark(s, i, false);
    UsedOne(s[i]);
    FreeUnseen(s[i].(used := false));
    UsedPlug(Mark(s, i, false), i, hdr);
    assert Used(s) + multiset{} == Used(s);
  }

  /** Resizing in place exchanges the block for one at the same address. */
  lemma UsedShrunk(s: seq<Block>, i: nat, size: int, hdr: nat)
    requires i < |s| && s[i].used
    ensures Used(Shrunk(s, i, size, hdr)) + multiset{s[i]} == Used(s) + multiset{Block(s[i].addr, size, true)}
  {
    hide Used, PlugHoles, Split;
    UsedSplit(s, i, size, hdr);
    SplitAt(s, i, size, hdr);
    UsedOne(s[i]);
    UsedOne(s[i].(size := size));
    UsedPlug(Split(s, i, size, hdr), i + 1, hdr);
  }

  lemma UsedGrown(s: seq<Block>, i: nat, size: int, hdr: nat)
    requires i + 1 < |s| && s[i].used && !s[i + 1].used
    ensures Used(Grown(s, i, size, hdr)) + multiset{s[i]} == Used(s) + multiset{Block(s[i].addr, size, true)}
  {
    hide Used, Split, Merge;
    var t := Merge(s, i, hdr);
    MergeAt(s, i, hdr);
    UsedMerge(s, i, hdr);
    UsedSplit(t, i, size, hdr);
    UsedOne(s[i]);
    UsedOne(t[i]);
    UsedOne(t[i].(size := size));
    Exchanges(Used(Grown(s, i, size, hdr)), Used(t), Used(s), multiset{s[i]}, multiset{t[i]},
              multiset{t[i].(size := size)});
  }

  // ----- addresses

  lemma {:induction false} UsedOnce(s: seq<Block>, b: Block)
    requires forall i, j :: 0 <= i < j < |s| ==> s[i].addr != s[j].addr
    ensures Used(s)[b] <= 1
  {
    if s != [] {
      var t := s[1..];
      assert forall i :: 0 <= i < |t| ==> t[i] == s[i + 1];
      UsedOnce(t, b);
      UsedMember(t, s[0]);
    }
  }

  /** A block that has gone has left no other at its address. */
  lemma AddressGone(s: seq<Block>, hdr: nat, end: int, left: multiset<Block>, b: Block)
    requires Tiled(s, hdr, end) && left + multiset{b} == Used(s)
    ensures forall x :: x in left ==> x.addr != b.addr
  {
    forall i, j | 0 <= i < j < |s| ensures s[i].addr != s[j].addr {
      if s[i].addr == s[j].addr { SameBlock(s, hdr, end, i, j); }
    }
    assert b in Used(s);
    UsedMember(s, b);
    var k :| 0 <= k < |s| && s[k] == b;
    forall x | x in left ensures x.addr != b.addr {
      assert x in left + multiset{b};
      UsedMember(s, x);
      var j :| 0 <= j < |s| && s[j] == x;
      UsedOnce(s, b);
      assert (left + multiset{b})[b] == left[b] + 1;
    }
  }
}
