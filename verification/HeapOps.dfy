/** What allocation, release and in-place resizing do to a layout, with the facts every
    allocator state must keep: the tiling, no two free neighbours, and the byte counts. */
module HeapOps {
  import opened HeapLayout

  /** Hand out block `i` for a request of `size` bytes, splitting off the rest if another
      header and `mini` bytes fit into it. */
  function Allocated(s: seq<Block>, i: nat, size: int, hdr: nat, mini: nat): (r: seq<Block>)
    requires i < |s|
  {
    if s[i].size >= size + hdr + mini then Mark(Split(s, i, size, hdr), i, true) else Mark(s, i, true)
  }

  function PlugForward(s: seq<Block>, i: nat, hdr: nat): (r: seq<Block>)
    requires i < |s|
  {
    if i + 1 < |s| && !s[i + 1].used then Merge(s, i, hdr) else s
  }

  function PlugBackward(s: seq<Block>, i: nat, hdr: nat): (r: seq<Block>)
    requires i < |s|
  {
    if i > 0 && !s[i - 1].used then Merge(s, i - 1, hdr) else s
  }

  /** Join the free block `i` with whichever neighbours are free. */
  function PlugHoles(s: seq<Block>, i: nat, hdr: nat): (r: seq<Block>)
    requires i < |s|
  {
    PlugBackward(PlugForward(s, i, hdr), i, hdr)
  }

  function Freed(s: seq<Block>, i: nat, hdr: nat): (r: seq<Block>)
    requires i < |s|
  {
    PlugHoles(Mark(s, i, false), i, hdr)
  }

  /** Cut block `i` down to `size` bytes and free the rest. */
  function Shrunk(s: seq<Block>, i: nat, size: int, hdr: nat): (r: seq<Block>)
    requires i < |s|
  {
    PlugHoles(Split(s, i, size, hdr), i + 1, hdr)
  }

  /** Let block `i` take bytes from the free block behind it until it has `size` of them. */
  function Grown(s: seq<Block>, i: nat, size: int, hdr: nat): (r: seq<Block>)
    requires i + 1 < |s|
  {
    Split(Merge(s, i, hdr), i, size, hdr)
  }

  /** The block an allocation hands out stays where it was and has room for the request. */
  lemma AllocatedAt(s: seq<Block>, k: nat, size: int, hdr: nat, mini: nat)
    requires k < |s| && size <= s[k].size
    ensures var r := Allocated(s, k, size, hdr, mini);
      k < |r| && r[k].addr == s[k].addr && r[k].used && size <= r[k].size
  {
  }

  /** Where another block stands after an allocation. */
  function Shifted(s: seq<Block>, i: nat, size: int, hdr: nat, mini: nat, j: nat): nat
    requires i < |s|
  {
    if s[i].size >= size + hdr + mini && j > i then j + 1 else j
  }

  lemma OthersStay(s: seq<Block>, i: nat, size: int, hdr: nat, mini: nat, j: nat)
    requires i < |s| && j < |s| && j != i
    ensures var r, k := Allocated(s, i, size, hdr, mini), Shifted(s, i, size, hdr, mini, j); k < |r| && r[k] == s[j]
  {
  }

  lemma PlugBackwardAt(s: seq<Block>, i: nat, hdr: nat)
    requires i < |s|
    ensures var r, j := PlugBackward(s, i, hdr), if i > 0 && !s[i - 1].used then i - 1 else i;
      && j < |r| && r[j].addr == s[j].addr
      && (i + 1 < |s| <==> j + 1 < |r|) && (i + 1 < |s| ==> r[j + 1] == s[i + 1])
  {
  }

  lemma PlugForwardAt(s: seq<Block>, i: nat, hdr: nat)
    requires i < |s|
    ensures i < |PlugForward(s, i, hdr)| && PlugForward(s, i, hdr)[i].addr == s[i].addr
    ensures i > 0 ==> PlugForward(s, i, hdr)[i - 1] == s[i - 1]
  {
  }

  lemma MergeAt(s: seq<Block>, i: nat, hdr: nat)
    requires i + 1 < |s|
    ensures i < |Merge(s, i, hdr)|
    ensures Merge(s, i, hdr)[i] == Block(s[i].addr, s[i].size + hdr + s[i + 1].size, s[i].used)
    ensures i > 0 ==> Merge(s, i, hdr)[i - 1] == s[i - 1]
  {
  }

  /** The block that is left over when block `i` is cut down. */
  lemma ShrunkAt(s: seq<Block>, i: nat, size: int, hdr: nat)
    requires i < |s| && s[i].used
    ensures var r, joined := Shrunk(s, i, size, hdr), if i + 1 < |s| && !s[i + 1].used then hdr + s[i + 1].size else 0;
      && r == PlugForward(Split(s, i, size, hdr), i + 1, hdr) && i + 1 < |r|
      && r[i + 1].addr == s[i].addr + hdr + size && r[i + 1].size == s[i].size - size - hdr + joined
  {
    hide Split, Merge;
    var t := Split(s, i, size, hdr);
    SplitAt(s, i, size, hdr);
    PlugForwardAt(t, i + 1, hdr);
    if i + 1 < |s| { MergeAt(t, i + 1, hdr); }
  }

  lemma SplitAt(s: seq<Block>, i: nat, size: int, hdr: nat)
    requires i < |s|
    ensures |Split(s, i, size, hdr)| == |s| + 1
    ensures Split(s, i, size, hdr)[i] == Block(s[i].addr, size, s[i].used)
    ensures Split(s, i, size, hdr)[i + 1] == Block(s[i].addr + hdr + size, s[i].size - size - hdr, false)
    ensures i + 1 < |s| ==> Split(s, i, size, hdr)[i + 2] == s[i + 1]
  {
  }

  // ----- tiling and coalescing

  /** No two free neighbours, except that block `i` may have some. */
  ghost predicate CoalescedBut(s: seq<Block>, i: nat) {
    forall j {:trigger s[j]} :: 0 <= j < |s| - 1 && j != i && j + 1 != i ==> s[j].used || s[j + 1].used
  }

  lemma AllocatedKeeps(s: seq<Block>, i: nat, size: int, hdr: nat, mini: nat, end: int)
    requires Tiled(s, hdr, end) && Coalesced(s) && i < |s| && !s[i].used && 0 <= size <= s[i].size
    ensures Tiled(Allocated(s, i, size, hdr, mini), hdr, end)
    ensures Coalesced(Allocated(s, i, size, hdr, mini))
  {
    if s[i].size >= size + hdr + mini {
      SplitTiled(s, i, size, hdr, end);
      MarkTiled(Split(s, i, size, hdr), i, hdr, end, true);
      var r := Allocated(s, i, size, hdr, mini);
      forall j | 0 <= j < |r| - 1
        ensures r[j].used || r[j + 1].used
      {
        if j < i { assert s[j].used || s[j + 1].used; } else if j > i { assert s[j - 1].used || s[j].used; }
      }
    } else {
      MarkTiled(s, i, hdr, end, true);
    }
  }

  lemma PlugForwardKeeps(s: seq<Block>, i: nat, hdr: nat, end: int)
    requires Tiled(s, hdr, end) && i < |s| && !s[i].used && CoalescedBut(s, i)
    ensures var r := PlugForward(s, i, hdr);
      Tiled(r, hdr, end) && i < |r| && !r[i].used && CoalescedBut(r, i) && (i + 1 < |r| ==> r[i + 1].used)
  {
    if i + 1 < |s| && !s[i + 1].used {
      MergeTiled(s, i, hdr, end);
      var r := Merge(s, i, hdr);
      forall j | 0 <= j < |r| - 1 && j != i && j + 1 != i
        ensures r[j].used || r[j + 1].used
      {
        if j < i { assert s[j].used || s[j + 1].used; } else { assert s[j + 1].used || s[j + 2].used; }
      }
      if i + 1 < |r| { assert s[i + 1].used || s[i + 2].used; }
    }
  }

  lemma PlugHolesKeeps(s: seq<Block>, i: nat, hdr: nat, end: int)
    requires Tiled(s, hdr, end) && i < |s| && !s[i].used && CoalescedBut(s, i)
    ensures Tiled(PlugHoles(s, i, hdr), hdr, end) && Coalesced(PlugHoles(s, i, hdr))
  {
    PlugForwardKeeps(s, i, hdr, end);
    var t := PlugForward(s, i, hdr);
    if i > 0 && !t[i - 1].used {
      MergeTiled(t, i - 1, hdr, end);
      var r := Merge(t, i - 1, hdr);
      forall j | 0 <= j < |r| - 1
        ensures r[j].used || r[j + 1].used
      {
        if j < i - 1 { assert t[j].used || t[j + 1].used; } else if j > i - 1 { assert t[j + 1].used || t[j + 2].used; }
      }
    }
  }

  lemma FreedKeeps(s: seq<Block>, i: nat, hdr: nat, end: int)
    requires Tiled(s, hdr, end) && Coalesced(s) && i < |s|
    ensures Tiled(Freed(s, i, hdr), hdr, end) && Coalesced(Freed(s, i, hdr))
  {
    MarkTiled(s, i, hdr, end, false);
    PlugHolesKeeps(Mark(s, i, false), i, hdr, end);
  }

  lemma ShrunkKeeps(s: seq<Block>, i: nat, size: int, hdr: nat, end: int)
    requires Tiled(s, hdr, end) && Coalesced(s) && i < |s| && s[i].used && 0 <= size && size + hdr <= s[i].size
    ensures Tiled(Shrunk(s, i, size, hdr), hdr, end) && Coalesced(Shrunk(s, i, size, hdr))
  {
    SplitTiled(s, i, size, hdr, end);
    var t := Split(s, i, size, hdr);
    forall j | 0 <= j < |t| - 1 && j != i + 1 && j != i
      ensures t[j].used || t[j + 1].used
    {
      if j < i { assert s[j].used || s[j + 1].used; } else { assert s[j - 1].used || s[j].used; }
    }
    PlugHolesKeeps(t, i + 1, hdr, end);
  }

  lemma GrownKeeps(s: seq<Block>, i: nat, size: int, hdr: nat, end: int)
    requires Tiled(s, hdr, end) && Coalesced(s) && i + 1 < |s| && s[i].used && !s[i + 1].used
    requires s[i].size <= size <= s[i].size + s[i + 1].size
    ensures Tiled(Grown(s, i, size, hdr), hdr, end) && Coalesced(Grown(s, i, size, hdr))
  {
    assert Fits(s, i, hdr, end) && Fits(s, i + 1, hdr, end);
    MergeTiled(s, i, hdr, end);
    SplitTiled(Merge(s, i, hdr), i, size, hdr, end);
    var r := Grown(s, i, size, hdr);
    forall j | 0 <= j < |r| - 1
      ensures r[j].used || r[j + 1].used
    {
      assert s[j].used || s[j + 1].used;
    }
  }

  // ----- which addresses head a free block

  ghost predicate FreeAt(s: seq<Block>, a: int) {
    exists i :: 0 <= i < |s| && s[i].addr == a && !s[i].used
  }

  lemma SameBlock(s: seq<Block>, hdr: nat, end: int, i: nat, j: nat)
    requires Tiled(s, hdr, end) && i < |s| && j < |s| && s[i].addr == s[j].addr
    ensures i == j
  {
    if i != j { Apart(s, hdr, end, i, j); Bounds(s, hdr, end, i); Bounds(s, hdr, end, j); }
  }

  lemma FreeAtSplit(s: seq<Block>, i: nat, size: int, hdr: nat, a: int)
    requires i < |s|
    ensures FreeAt(Split(s, i, size, hdr), a) <==> FreeAt(s, a) || a == s[i].addr + hdr + size
  {
    var r := Split(s, i, size, hdr);
    if FreeAt(s, a) {
      var j :| 0 <= j < |s| && s[j].addr == a && !s[j].used;
      assert r[if j <= i then j else j + 1].addr == a;
    } else if a == s[i].addr + hdr + size {
      assert r[i + 1].addr == a;
    }
  }

  lemma FreeAtMerge(s: seq<Block>, i: nat, hdr: nat, end: int, a: int)
    requires Tiled(s, hdr, end) && i + 1 < |s|
    ensures FreeAt(Merge(s, i, hdr), a) <==> FreeAt(s, a) && a != s[i + 1].addr
  {
    var r := Merge(s, i, hdr);
    if FreeAt(r, a) {
      var j :| 0 <= j < |r| && r[j].addr == a && !r[j].used;
      var k := if j <= i then j else j + 1;
      assert s[k].addr == a && !s[k].used;
      if a == s[i + 1].addr { SameBlock(s, hdr, end, k, i + 1); }
    }
    if FreeAt(s, a) && a != s[i + 1].addr {
      var j :| 0 <= j < |s| && s[j].addr == a && !s[j].used;
      assert r[if j <= i then j else j - 1].addr == a;
    }
  }

  lemma FreeAtMark(s: seq<Block>, i: nat, used: bool, hdr: nat, end: int, a: int)
    requires Tiled(s, hdr, end) && i < |s|
    ensures FreeAt(Mark(s, i, used), a) <==> if a == s[i].addr then !used else FreeAt(s, a)
  {
    var r := Mark(s, i, used);
    if FreeAt(r, a) {
      var j :| 0 <= j < |r| && r[j].addr == a && !r[j].used;
      assert s[j].addr == a;
      if a == s[i].addr { SameBlock(s, hdr, end, i, j); }
    }
    if a == s[i].addr && !used {
      assert r[i].addr == a && !r[i].used;
    } else if a != s[i].addr && FreeAt(s, a) {
      var j :| 0 <= j < |s| && s[j].addr == a && !s[j].used;
      assert r[j] == s[j];
    }
  }

  /** Joining free neighbours into block `i` makes their headers disappear. */
  lemma FreeAtPlug(s: seq<Block>, i: nat, hdr: nat, end: int, a: int)
    requires Tiled(s, hdr, end) && i < |s|
    ensures FreeAt(PlugHoles(s, i, hdr), a) <==>
            && FreeAt(s, a)
            && !(i + 1 < |s| && !s[i + 1].used && a == s[i + 1].addr)
            && !(i > 0 && !s[i - 1].used && a == s[i].addr)
  {
    hide FreeAt, Tiled;
    if i + 1 < |s| && !s[i + 1].used {
      MergeTiled(s, i, hdr, end);
      FreeAtMerge(s, i, hdr, end, a);
    }
    if i > 0 && !s[i - 1].used { FreeAtMerge(PlugForward(s, i, hdr), i - 1, hdr, end, a); }
  }

  // ----- byte counts

  /** What handing out block `i` takes from the free bytes. */
  function Taken(s: seq<Block>, i: nat, size: int, hdr: nat, mini: nat): int
    requires i < |s|
  {
    if s[i].size >= size + hdr + mini then size + hdr else s[i].size
  }

  lemma AllocatedBytes(s: seq<Block>, i: nat, size: int, hdr: nat, mini: nat)
    requires i < |s| && !s[i].used
    ensures var r := Allocated(s, i, size, hdr, mini);
      && FreeBytes(r) == FreeBytes(s) - Taken(s, i, size, hdr, mini)
      && Footprint(r, hdr, true) == Footprint(s, hdr, true) + hdr + r[i].size
  {
    var t := if s[i].size >= size + hdr + mini then Split(s, i, size, hdr) else s;
    if s[i].size >= size + hdr + mini {
      TotalSplit(s, i, size, hdr, FreeWeight);
      TotalSplit(s, i, size, hdr, FootprintWeight(hdr, true));
    }
    TotalMark(t, i, true, FreeWeight);
    TotalMark(t, i, true, FootprintWeight(hdr, true));
  }

  /** Every join recovers the bytes of one header. */
  function Recovered(s: seq<Block>, i: nat, hdr: nat): nat
    requires i < |s|
  {
    (if i + 1 < |s| && !s[i + 1].used then hdr else 0) + (if i > 0 && !s[i - 1].used then hdr else 0)
  }

  lemma MergeBytes(s: seq<Block>, i: nat, hdr: nat)
    requires i + 1 < |s| && !s[i].used && !s[i + 1].used
    ensures FreeBytes(Merge(s, i, hdr)) == FreeBytes(s) + hdr
    ensures Footprint(Merge(s, i, hdr), hdr, true) == Footprint(s, hdr, true)
  {
    TotalMerge(s, i, hdr, FreeWeight);
    TotalMerge(s, i, hdr, FootprintWeight(hdr, true));
  }

  lemma PlugHolesBytes(s: seq<Block>, i: nat, hdr: nat)
    requires i < |s| && !s[i].used
    ensures FreeBytes(PlugHoles(s, i, hdr)) == FreeBytes(s) + Recovered(s, i, hdr)
    ensures Footprint(PlugHoles(s, i, hdr), hdr, true) == Footprint(s, hdr, true)
  {
    if i + 1 < |s| && !s[i + 1].used { MergeBytes(s, i, hdr); }
    var t := PlugForward(s, i, hdr);
    if i > 0 && !t[i - 1].used { MergeBytes(t, i - 1, hdr); }
  }

  lemma FreedBytes(s: seq<Block>, i: nat, hdr: nat)
    requires i < |s| && s[i].used
    ensures FreeBytes(Freed(s, i, hdr)) == FreeBytes(s) + s[i].size + Recovered(s, i, hdr)
    ensures Footprint(Freed(s, i, hdr), hdr, true) == Footprint(s, hdr, true) - hdr - s[i].size
  {
    TotalMark(s, i, false, FreeWeight);
    TotalMark(s, i, false, FootprintWeight(hdr, true));
    PlugHolesBytes(Mark(s, i, false), i, hdr);
  }

  lemma ShrunkBytes(s: seq<Block>, i: nat, size: int, hdr: nat)
    requires i < |s| && s[i].used
    ensures var joined := if i + 1 < |s| && !s[i + 1].used then hdr else 0;
      FreeBytes(Shrunk(s, i, size, hdr)) == FreeBytes(s) + (s[i].size - size - hdr) + joined
    ensures Footprint(Shrunk(s, i, size, hdr), hdr, true) == Footprint(s, hdr, true) - (s[i].size - size)
  {
    TotalSplit(s, i, size, hdr, FreeWeight);
    TotalSplit(s, i, size, hdr, FootprintWeight(hdr, true));
    PlugHolesBytes(Split(s, i, size, hdr), i + 1, hdr);
  }

  lemma GrownBytes(s: seq<Block>, i: nat, size: int, hdr: nat)
    requires i + 1 < |s| && s[i].used && !s[i + 1].used
    ensures FreeBytes(Grown(s, i, size, hdr)) == FreeBytes(s) - (size - s[i].size)
  {
    TotalMerge(s, i, hdr, FreeWeight);
    TotalSplit(Merge(s, i, hdr), i, size, hdr, FreeWeight);
  }

  // ----- release undoes allocation

  /** Freeing a block that was just allocated gives back the layout it was cut from. */
  lemma FreedUndoesAllocated(s: seq<Block>, i: nat, size: int, hdr: nat, mini: nat)
    requires Coalesced(s) && i < |s| && !s[i].used
    ensures Freed(Allocated(s, i, size, hdr, mini), i, hdr) == s
  {
    var t := Mark(Allocated(s, i, size, hdr, mini), i, false);
    if i > 0 { assert s[i - 1].used; }
    if s[i].size >= size + hdr + mini {
      assert PlugForward(t, i, hdr) == s;
    } else {
      if i + 1 < |s| { assert s[i].used || s[i + 1].used; }
      assert t == s;
    }
  }

  lemma MergeTwice(s: seq<Block>, i: nat, hdr: nat)
    requires i + 2 < |s|
    ensures Merge(Merge(s, i + 1, hdr), i, hdr) == Merge(Merge(s, i, hdr), i, hdr)
  {
    var a, b := Merge(s, i + 1, hdr), Merge(s, i, hdr);
    assert a[i] == s[i] && b[i + 1] == s[i + 2];
    assert a[..i] == b[..i] == s[..i];
    assert a[i + 2..] == b[i + 2..] == s[i + 3..];
  }

  /** Joining to the left first or to the right first makes no difference. */
  lemma PlugOrder(s: seq<Block>, i: nat, hdr: nat)
    requires i < |s|
    ensures var j := if i > 0 && !s[i - 1].used then i - 1 else i;
      PlugHoles(s, i, hdr) == PlugForward(PlugBackward(s, i, hdr), j, hdr)
  {
    if i > 0 && !s[i - 1].used && i + 1 < |s| && !s[i + 1].used {
      MergeTwice(s, i - 1, hdr);
    }
  }

  // ----- no block gets too small

  /** Every block has at least `mini` bytes. */
  ghost predicate Roomy(s: seq<Block>, mini: nat) {
    forall i :: 0 <= i < |s| ==> s[i].size >= mini
  }

  lemma AllocatedRoomy(s: seq<Block>, i: nat, size: int, hdr: nat, mini: nat)
    requires Roomy(s, mini) && i < |s| && size >= mini
    ensures Roomy(Allocated(s, i, size, hdr, mini), mini)
  {
  }

  lemma MergeRoomy(s: seq<Block>, i: nat, hdr: nat, mini: nat)
    requires Roomy(s, mini) && i + 1 < |s|
    ensures Roomy(Merge(s, i, hdr), mini)
  {
  }

  lemma PlugRoomy(s: seq<Block>, i: nat, hdr: nat, mini: nat)
    requires Roomy(s, mini) && i < |s|
    ensures Roomy(PlugHoles(s, i, hdr), mini)
  {
    hide Roomy, Merge;
    if i + 1 < |s| { MergeRoomy(s, i, hdr, mini); }
    var t := PlugForward(s, i, hdr);
    PlugForwardAt(s, i, hdr);
    if i > 0 { MergeRoomy(t, i - 1, hdr, mini); }
  }

  lemma FreedRoomy(s: seq<Block>, i: nat, hdr: nat, mini: nat)
    requires Roomy(s, mini) && i < |s|
    ensures Roomy(Freed(s, i, hdr), mini)
  {
    PlugRoomy(Mark(s, i, false), i, hdr, mini);
    hide PlugHoles;
  }

  lemma ShrunkRoomy(s: seq<Block>, i: nat, size: int, hdr: nat, mini: nat)
    requires Roomy(s, mini) && i < |s| && mini <= size && size + hdr + mini <= s[i].size
    ensures Roomy(Shrunk(s, i, size, hdr), mini)
  {
    PlugRoomy(Split(s, i, size, hdr), i + 1, hdr, mini);
    hide PlugHoles;
  }

  lemma GrownRoomy(s: seq<Block>, i: nat, size: int, hdr: nat, mini: nat)
    requires Roomy(s, mini) && i + 1 < |s| && mini <= size && size + mini <= s[i].size + s[i + 1].size
    ensures Roomy(Grown(s, i, size, hdr), mini)
  {
    MergeAt(s, i, hdr);
    MergeRoomy(s, i, hdr, mini);
    hide Merge;
  }
}
