/** memheap.c as its callers see it: which block each call hands out, resizes or gives back,
    and in which order the free list then stands. */
module MemHeapViews {
  import opened Basics
  import opened Rings
  import opened HeapLayout
  import opened HeapOps
  import opened HeapData
  import opened HeapAlign
  import opened HeapUsed
  import opened MemCopy

  const MINIALLOC: nat := 12

  /** The number of data bytes the allocator looks for. */
  function Request(n: nat, align: nat): nat
    requires align > 0
  {
    var r := AlignUp(n, align);
    if r < MINIALLOC then MINIALLOC else r
  }

  /** First position in the free ring, from its front, whose block holds `size` bytes. */
  ghost function FirstFit(s: seq<Block>, frees: seq<int>, size: int): (k: nat)
    requires forall a :: a in frees ==> HasBlock(s, a)
    ensures k <= |frees|
    ensures k < |frees| ==> s[Where(s, frees[k])].size >= size
    ensures forall j :: 0 <= j < k ==> s[Where(s, frees[j])].size < size
  {
    if frees == [] || s[Where(s, frees[0])].size >= size then 0 else 1 + FirstFit(s, frees[1..], size)
  }

  lemma FirstFitIs(s: seq<Block>, frees: seq<int>, size: int, k: nat)
    requires forall a :: a in frees ==> HasBlock(s, a)
    requires k <= |frees|
    requires k < |frees| ==> s[Where(s, frees[k])].size >= size
    requires forall j :: 0 <= j < k ==> s[Where(s, frees[j])].size < size
    ensures FirstFit(s, frees, size) == k
  {
    var f := FirstFit(s, frees, size);
    assert !(f < k);
  }

  /** The free list names exactly the free blocks. */
  ghost predicate Lists(frees: seq<int>, s: seq<Block>) {
    forall a :: a in frees <==> FreeAt(s, a)
  }

  lemma ListedBlock(frees: seq<int>, s: seq<Block>, hdr: nat, end: int, a: int)
    requires Tiled(s, hdr, end) && Lists(frees, s) && a in frees
    ensures HasBlock(s, a) && !s[Where(s, a)].used
  {
    assert FreeAt(s, a);
    var i :| 0 <= i < |s| && s[i].addr == a && !s[i].used;
    SameBlock(s, hdr, end, i, Where(s, a));
  }

  lemma UsedNotListed(frees: seq<int>, s: seq<Block>, hdr: nat, end: int, i: nat)
    requires Tiled(s, hdr, end) && Lists(frees, s) && i < |s|
    ensures s[i].addr in frees <==> !s[i].used
  {
    if s[i].addr in frees {
      var j :| 0 <= j < |s| && s[j].addr == s[i].addr && !s[j].used;
      SameBlock(s, hdr, end, i, j);
    }
  }

  lemma UsedNotListedAround(frees: seq<int>, s: seq<Block>, hdr: nat, end: int, i: nat)
    requires Tiled(s, hdr, end) && Lists(frees, s) && i < |s|
    ensures s[i].addr in frees <==> !s[i].used
    ensures i > 0 ==> (s[i - 1].addr in frees <==> !s[i - 1].used)
    ensures i + 1 < |s| ==> (s[i + 1].addr in frees <==> !s[i + 1].used) && s[i + 1].addr != s[i].addr
  {
    UsedNotListed(frees, s, hdr, end, i);
    if i > 0 { UsedNotListed(frees, s, hdr, end, i - 1); }
    if i + 1 < |s| {
      UsedNotListed(frees, s, hdr, end, i + 1);
      Ordered(s, hdr, end, i, i + 1);
      assert Fits(s, i, hdr, end);
    }
  }

  /** What a client can tell about the heap: the blocks, and the order of the free list,
      which decides the next allocation. */
  datatype View = View(layout: seq<Block>, frees: seq<int>)

  /** The invariant of the heap on its view. */
  ghost predicate Good(v: View, hdr: nat, end: int) {
    Tiled(v.layout, hdr, end) && Coalesced(v.layout) && Lists(v.frees, v.layout) && Distinct(v.frees)
  }

  ghost predicate Findable(v: View) {
    forall a :: a in v.frees ==> HasBlock(v.layout, a)
  }

  lemma GoodFindable(v: View, hdr: nat, end: int)
    requires Good(v, hdr, end)
    ensures Findable(v)
    ensures forall a :: a in v.frees ==> !v.layout[Where(v.layout, a)].used
  {
    forall a | a in v.frees ensures HasBlock(v.layout, a) && !v.layout[Where(v.layout, a)].used {
      ListedBlock(v.frees, v.layout, hdr, end, a);
    }
  }

  /** The free list after block `i`, which is in it, has been handed out. */
  ghost function AllocFrees(s: seq<Block>, frees: seq<int>, i: nat, size: int, hdr: nat): seq<int>
    requires i < |s|
  {
    if s[i].size >= size + hdr + MINIALLOC then [s[i].addr + hdr + size] + Without(frees, s[i].addr)
    else Without(frees, s[i].addr)
  }

  /** The first block of the free list that holds `size` bytes is handed out; without one, or
      without more than `size` free bytes in all, nothing changes. */
  ghost function AllocView(v: View, size: int, hdr: nat): (View, int)
    requires Findable(v)
  {
    var k := FirstFit(v.layout, v.frees, size);
    if size < FreeBytes(v.layout) && k < |v.frees| then
      var i := Where(v.layout, v.frees[k]);
      (View(Allocated(v.layout, i, size, hdr, MINIALLOC), AllocFrees(v.layout, v.frees, i, size, hdr)),
       v.layout[i].addr + hdr)
    else
      (v, NULL)
  }

  lemma AllocLists(s: seq<Block>, frees: seq<int>, i: nat, size: int, hdr: nat, end: int)
    requires Tiled(s, hdr, end) && Lists(frees, s) && Distinct(frees)
    requires i < |s| && s[i].addr in frees && 0 <= size <= s[i].size
    ensures Lists(AllocFrees(s, frees, i, size, hdr), Allocated(s, i, size, hdr, MINIALLOC))
  {
    MembersDropped(frees, Position(frees, s[i].addr));
    var r, f := Allocated(s, i, size, hdr, MINIALLOC), AllocFrees(s, frees, i, size, hdr);
    forall a
      ensures a in f <==> FreeAt(r, a)
    {
      if s[i].size >= size + hdr + MINIALLOC {
        SplitTiled(s, i, size, hdr, end);
        FreeAtSplit(s, i, size, hdr, a);
        FreeAtMark(Split(s, i, size, hdr), i, true, hdr, end, a);
      } else {
        FreeAtMark(s, i, true, hdr, end, a);
      }
    }
  }

  lemma DistinctAllocFrees(s: seq<Block>, frees: seq<int>, i: nat, size: int, hdr: nat)
    requires Distinct(frees) && Lists(frees, s) && i < |s| && s[i].addr in frees
    requires s[i].size >= size + hdr + MINIALLOC ==> !FreeAt(s, s[i].addr + hdr + size)
    ensures Distinct(AllocFrees(s, frees, i, size, hdr))
  {
    MembersDropped(frees, Position(frees, s[i].addr));
  }

  /** Block `i` is free and large enough. */
  ghost predicate Suits(s: seq<Block>, i: int, size: int) {
    0 <= i < |s| && !s[i].used && s[i].size >= size
  }

  /** rt_memheap_alloc fails exactly if no free block is large enough or the request is not
      below the free bytes. */
  lemma AllocFailsIff(v: View, size: int, hdr: nat, end: int)
    requires Good(v, hdr, end)
    ensures Findable(v)
    ensures AllocView(v, size, hdr).1 == NULL <==>
      (forall i :: !Suits(v.layout, i, size)) || size >= FreeBytes(v.layout)
  {
    GoodFindable(v, hdr, end);
    var s, f := v.layout, v.frees;
    var k := FirstFit(s, f, size);
    if k < |f| {
      assert f[k] in f;
      assert Suits(s, Where(s, f[k]), size);
      DataInPool(s, hdr, end, Where(s, f[k]));
    }
    forall i | Suits(s, i, size) ensures k < |f| {
      UsedNotListed(f, s, hdr, end, i);
      var j :| 0 <= j < |f| && f[j] == s[i].addr;
      SameBlock(s, hdr, end, i, Where(s, f[j]));
    }
  }

  /** It fails although a free block is large enough exactly if that block is an exact fit and
      every other free block is empty. */
  lemma RefusedIff(v: View, size: int, hdr: nat, end: int)
    requires Good(v, hdr, end)
    ensures Findable(v)
    ensures AllocView(v, size, hdr).1 == NULL && (exists i :: Suits(v.layout, i, size)) <==>
      exists i :: Suits(v.layout, i, size) && v.layout[i].size == size
        && forall j :: 0 <= j < |v.layout| && j != i && !v.layout[j].used ==> v.layout[j].size == 0
  {
    AllocFailsIff(v, size, hdr, end);
    var s := v.layout;
    forall j | 0 <= j < |s| ensures s[j].size >= 0 { DataInPool(s, hdr, end, j); }
    hide Good, AllocView, Total;
    forall i | Suits(s, i, size)
      ensures size >= FreeBytes(s) <==>
        s[i].size == size && forall j :: 0 <= j < |s| && j != i && !s[j].used ==> s[j].size == 0
    {
      OneFreeBlock(s, |s|, i);
    }
  }

  /** A fresh heap refuses to hand out all its bytes. */
  lemma FreshHeapRefuses(size: nat, hdr: nat)
    requires hdr > 0
    ensures var v := View([Block(0, size, false)], [0]);
      Good(v, hdr, hdr + size) && Findable(v) && Suits(v.layout, 0, size) && AllocView(v, size, hdr) == (v, NULL)
  {
    var v := View([Block(0, size, false)], [0]);
    assert v.layout[0].addr == 0;
    assert Fits(v.layout, 0, hdr, hdr + size);
    GoodFindable(v, hdr, hdr + size);
    RefusedIff(v, size, hdr, hdr + size);
    assert Suits(v.layout, 0, size);
  }

  /** Everything an allocation keeps, on the view alone. */
  lemma AllocViewKeeps(v: View, size: int, hdr: nat, end: int)
    requires Good(v, hdr, end) && size >= 0
    ensures Findable(v) && Good(AllocView(v, size, hdr).0, hdr, end)
  {
    GoodFindable(v, hdr, end);
    hide Tiled, Coalesced, Lists, Distinct, Allocated, AllocFrees;
    var k := FirstFit(v.layout, v.frees, size);
    if size < FreeBytes(v.layout) && k < |v.frees| {
      var i := Where(v.layout, v.frees[k]);
      AllocatedKeeps(v.layout, i, size, hdr, MINIALLOC, end);
      AllocLists(v.layout, v.frees, i, size, hdr, end);
      if v.layout[i].size >= size + hdr + MINIALLOC {
        HasHeader(v.layout, hdr, end);
        NotFreeInside(v.layout, i, v.layout[i].addr + hdr + size, hdr, end);
      }
      DistinctAllocFrees(v.layout, v.frees, i, size, hdr);
    }
  }

  /** The free list after block `i` has been given back. */
  ghost function FreedFrees(s: seq<Block>, frees: seq<int>, i: nat): seq<int>
    requires i < |s|
  {
    var f := if i + 1 < |s| && !s[i + 1].used then Without(frees, s[i + 1].addr) else frees;
    if i > 0 && !s[i - 1].used then f else [s[i].addr] + f
  }

  /** Block and free neighbours become one; null is ignored. */
  ghost function FreeView(v: View, p: int, hdr: nat): View
    requires p == NULL || Live(v.layout, hdr, p)
  {
    if p == NULL then v else
      var i := Where(v.layout, p - hdr);
      View(Freed(v.layout, i, hdr), FreedFrees(v.layout, v.frees, i))
  }

  lemma MembersOfFreed(s: seq<Block>, frees: seq<int>, i: nat)
    requires Distinct(frees) && i < |s| && s[i].addr !in frees
    ensures Distinct(FreedFrees(s, frees, i))
    ensures forall a :: a in FreedFrees(s, frees, i) <==>
      || (a in frees && !(i + 1 < |s| && !s[i + 1].used && a == s[i + 1].addr))
      || (!(i > 0 && !s[i - 1].used) && a == s[i].addr)
  {
    if i + 1 < |s| && s[i + 1].addr in frees { MembersDropped(frees, Position(frees, s[i + 1].addr)); }
  }

  lemma FreedLists(s: seq<Block>, frees: seq<int>, i: nat, hdr: nat, end: int)
    requires Tiled(s, hdr, end) && Lists(frees, s) && Distinct(frees) && i < |s| && s[i].used
    ensures Lists(FreedFrees(s, frees, i), Freed(s, i, hdr))
    ensures Distinct(FreedFrees(s, frees, i))
  {
    UsedNotListedAround(frees, s, hdr, end, i);
    MembersOfFreed(s, frees, i);
    MarkTiled(s, i, hdr, end, false);
    forall a
      ensures a in FreedFrees(s, frees, i) <==> FreeAt(Freed(s, i, hdr), a)
    {
      hide FreeAt, FreedFrees, Tiled;
      FreeAtMark(s, i, false, hdr, end, a);
      FreeAtPlug(Mark(s, i, false), i, hdr, end, a);
    }
  }

  /** Everything a release keeps, on the view alone. */
  lemma FreeKeeps(v: View, p: int, hdr: nat, end: int)
    requires Good(v, hdr, end) && p != NULL && Live(v.layout, hdr, p)
    ensures Good(FreeView(v, p, hdr), hdr, end)
    ensures var i := Where(v.layout, p - hdr);
      FreeBytes(FreeView(v, p, hdr).layout) == FreeBytes(v.layout) + v.layout[i].size + Recovered(v.layout, i, hdr)
    ensures FreeBytes(FreeView(v, p, hdr).layout) >= FreeBytes(v.layout)
  {
    Bounds(v.layout, hdr, end, Where(v.layout, p - hdr));
    hide Tiled, Coalesced, Lists, Distinct, Freed, FreedFrees, FreeBytes, Recovered;
    var i := Where(v.layout, p - hdr);
    FreedKeeps(v.layout, i, hdr, end);
    FreedLists(v.layout, v.frees, i, hdr, end);
    FreedBytes(v.layout, i, hdr);
  }

  /** The free list when the block behind `i` is replaced by a new free block at `x`. */
  ghost function ResizedFrees(s: seq<Block>, frees: seq<int>, i: nat, x: int): seq<int>
    requires i < |s|
  {
    [x] + if i + 1 < |s| && !s[i + 1].used then Without(frees, s[i + 1].addr) else frees
  }

  lemma MembersOfResized(s: seq<Block>, frees: seq<int>, i: nat, x: int)
    requires Distinct(frees) && i < |s|
    requires x !in frees || (i + 1 < |s| && !s[i + 1].used && x == s[i + 1].addr)
    ensures Distinct(ResizedFrees(s, frees, i, x))
    ensures forall a :: a in ResizedFrees(s, frees, i, x) <==>
      a == x || (a in frees && !(i + 1 < |s| && !s[i + 1].used && a == s[i + 1].addr))
  {
    if i + 1 < |s| && s[i + 1].addr in frees { MembersDropped(frees, Position(frees, s[i + 1].addr)); }
  }

  lemma ShrinkLists(v: View, i: nat, size: int, hdr: nat, end: int)
    requires Good(v, hdr, end) && i < |v.layout| && v.layout[i].used
    requires 0 <= size && size + hdr <= v.layout[i].size
    ensures var f := ResizedFrees(v.layout, v.frees, i, v.layout[i].addr + hdr + size);
      Lists(f, Shrunk(v.layout, i, size, hdr)) && Distinct(f)
  {
    hide FreeAt, Tiled, ResizedFrees, PlugHoles, Coalesced, Distinct;
    var s, x := v.layout, v.layout[i].addr + hdr + size;
    SplitTiled(s, i, size, hdr, end);
    HasHeader(s, hdr, end);
    NotFreeInside(s, i, x, hdr, end);
    MembersOfResized(s, v.frees, i, x);
    var t, f := Split(s, i, size, hdr), ResizedFrees(s, v.frees, i, x);
    Adjacent(s, hdr, end, i);
    forall a
      ensures a in f <==> FreeAt(Shrunk(s, i, size, hdr), a)
    {
      FreeAtSplit(s, i, size, hdr, a);
      FreeAtPlug(t, i + 1, hdr, end, a);
    }
  }

  /** Everything cutting a block down keeps. */
  lemma ShrinkKeeps(v: View, i: nat, size: int, hdr: nat, end: int)
    requires Good(v, hdr, end) && i < |v.layout| && v.layout[i].used
    requires 0 <= size && size + hdr <= v.layout[i].size
    ensures var x := v.layout[i].addr + hdr + size;
      Good(View(Shrunk(v.layout, i, size, hdr), ResizedFrees(v.layout, v.frees, i, x)), hdr, end)
  {
    ShrunkKeeps(v.layout, i, size, hdr, end);
    ShrinkLists(v, i, size, hdr, end);
  }

  lemma GrowLists(v: View, i: nat, size: int, hdr: nat, end: int)
    requires Good(v, hdr, end) && i + 1 < |v.layout| && v.layout[i].used && !v.layout[i + 1].used
    requires v.layout[i].size <= size <= v.layout[i].size + v.layout[i + 1].size
    ensures var f := ResizedFrees(v.layout, v.frees, i, v.layout[i].addr + hdr + size);
      Lists(f, Grown(v.layout, i, size, hdr)) && Distinct(f)
  {
    hide FreeAt, Tiled, ResizedFrees, Coalesced, Distinct;
    var s, x, t := v.layout, v.layout[i].addr + hdr + size, Merge(v.layout, i, hdr);
    MergeTiled(s, i, hdr, end);
    HasHeader(s, hdr, end);
    Adjacent(s, hdr, end, i);
    NotFreeInside(t, i, x, hdr, end);
    FreeAtMerge(s, i, hdr, end, x);
    MembersOfResized(s, v.frees, i, x);
    forall a
      ensures a in ResizedFrees(s, v.frees, i, x) <==> FreeAt(Grown(s, i, size, hdr), a)
    {
      FreeAtMerge(s, i, hdr, end, a);
      FreeAtSplit(t, i, size, hdr, a);
    }
  }

  /** Everything growing into the next block keeps. */
  lemma GrowKeeps(v: View, i: nat, size: int, hdr: nat, end: int)
    requires Good(v, hdr, end) && i + 1 < |v.layout| && v.layout[i].used && !v.layout[i + 1].used
    requires v.layout[i].size <= size <= v.layout[i].size + v.layout[i + 1].size
    ensures var x := v.layout[i].addr + hdr + size;
      Good(View(Grown(v.layout, i, size, hdr), ResizedFrees(v.layout, v.frees, i, x)), hdr, end)
  {
    GrownKeeps(v.layout, i, size, hdr, end);
    GrowLists(v, i, size, hdr, end);
  }

  /** An allocation leaves every allocated block where it was. */
  lemma StillLive(v: View, size: int, p: int, hdr: nat, end: int)
    requires Good(v, hdr, end) && Live(v.layout, hdr, p) && size >= 0 && Findable(v)
    ensures var w := AllocView(v, size, hdr).0;
      Live(w.layout, hdr, p) && w.layout[Where(w.layout, p - hdr)] == v.layout[Where(v.layout, p - hdr)]
  {
    hide Tiled, Coalesced, Lists, Distinct, Allocated, AllocFrees, FreeBytes, Shifted;
    var s, j, k := v.layout, Where(v.layout, p - hdr), FirstFit(v.layout, v.frees, size);
    if size < FreeBytes(s) && k < |v.frees| {
      var i := Where(s, v.frees[k]);
      ListedBlock(v.frees, s, hdr, end, v.frees[k]);
      AllocatedKeeps(s, i, size, hdr, MINIALLOC, end);
      OthersStay(s, i, size, hdr, MINIALLOC, j);
      var r := Allocated(s, i, size, hdr, MINIALLOC);
      SameBlock(r, hdr, end, Shifted(s, i, size, hdr, MINIALLOC, j), Where(r, p - hdr));
    }
  }

  /** A block found for `size` bytes was free, large enough, and apart from block `i`. */
  lemma AllocRoom(v: View, size: int, hdr: nat, end: int, i: nat)
    requires Good(v, hdr, end) && Findable(v) && i < |v.layout| && v.layout[i].used && v.layout[i].size <= size
    ensures AllocView(v, size, hdr).1 == NULL ==> AllocView(v, size, hdr).0 == v
    ensures var q := AllocView(v, size, hdr).1;
      q != NULL ==>
        && HasBlock(v.layout, q - hdr)
        && var b := v.layout[Where(v.layout, q - hdr)];
           !b.used && size <= b.size && 0 <= b.addr && b.addr + hdr + b.size <= end
           && Disjoint(q, v.layout[i].size, v.layout[i].addr + hdr, v.layout[i].size)
    ensures 0 <= v.layout[i].addr && 0 <= v.layout[i].size && v.layout[i].addr + hdr + v.layout[i].size <= end
  {
    var s, k := v.layout, FirstFit(v.layout, v.frees, size);
    Bounds(s, hdr, end, i);
    if size < FreeBytes(s) && k < |v.frees| {
      var j := Where(s, v.frees[k]);
      ListedBlock(v.frees, s, hdr, end, v.frees[k]);
      Bounds(s, hdr, end, j);
      Apart(s, hdr, end, i, j);
      SameBlock(s, hdr, end, j, Where(s, s[j].addr + hdr - hdr));
    }
  }

  /** rt_memheap_realloc on the view. A request that has to move is aligned a second time. */
  ghost function ReallocView(v: View, p: int, n: nat, align: nat, hdr: nat, end: int): (View, int)
    requires align > 0 && Good(v, hdr, end) && (p == NULL || Live(v.layout, hdr, p))
  {
    GoodFindable(v, hdr, end);
    var size := Request(n, align);
    if n == 0 then (FreeView(v, p, hdr), NULL)
    else if p == NULL then AllocView(v, Request(size, align), hdr)
    else
      var s, i := v.layout, Where(v.layout, p - hdr);
      if size > s[i].size then
        if i + 1 < |s| && !s[i + 1].used && s[i + 1].size + s[i].size > size + MINIALLOC then
          (View(Grown(s, i, size, hdr), ResizedFrees(s, v.frees, i, p + size)), p)
        else
          var (w, q) := AllocView(v, Request(size, align), hdr);
          StillLive(v, Request(size, align), p, hdr, end);
          if q == NULL then (v, NULL) else (FreeView(w, p, hdr), q)
      else if size + hdr + MINIALLOC >= s[i].size then (v, p)
      else (View(Shrunk(s, i, size, hdr), ResizedFrees(s, v.frees, i, p + size)), p)
  }

  /** The fewest free bytes there are while a reallocation runs: a block that moves is
      allocated anew before the old one is given back. */
  ghost function ReallocLow(v: View, p: int, n: nat, align: nat, hdr: nat, end: int): int
    requires align > 0 && Good(v, hdr, end) && (p == NULL || Live(v.layout, hdr, p))
  {
    GoodFindable(v, hdr, end);
    var (w, q) := ReallocView(v, p, n, align, hdr, end);
    if n != 0 && p != NULL && q != p then FreeBytes(AllocView(v, Request(Request(n, align), align), hdr).0.layout)
    else FreeBytes(w.layout)
  }

  lemma ReallocKeeps(v: View, p: int, n: nat, align: nat, hdr: nat, end: int)
    requires align > 0 && Good(v, hdr, end) && (p == NULL || Live(v.layout, hdr, p))
    ensures Good(ReallocView(v, p, n, align, hdr, end).0, hdr, end)
  {
    hide Good, Allocated, Freed, Shrunk, Grown, ResizedFrees, FreedFrees, AllocFrees, AllocView;
    GoodFindable(v, hdr, end);
    var size := Request(n, align);
    if n == 0 {
      if p != NULL { FreeKeeps(v, p, hdr, end); }
    } else if p == NULL {
      AllocViewKeeps(v, Request(size, align), hdr, end);
    } else {
      var s, i := v.layout, Where(v.layout, p - hdr);
      if size > s[i].size {
        if i + 1 < |s| && !s[i + 1].used && s[i + 1].size + s[i].size > size + MINIALLOC {
          GrowKeeps(v, i, size, hdr, end);
        } else {
          AllocViewKeeps(v, Request(size, align), hdr, end);
          StillLive(v, Request(size, align), p, hdr, end);
          FreeKeeps(AllocView(v, Request(size, align), hdr).0, p, hdr, end);
        }
      } else if size + hdr + MINIALLOC < s[i].size {
        ShrinkKeeps(v, i, size, hdr, end);
      }
    }
  }

  datatype Op = AllocOp(n: nat) | FreeOp(p: int) | ReallocOp(p: int, n: nat)

  /** One call; a call on a pointer that is not allocated is left out of a run. */
  ghost function Step(v: View, op: Op, align: nat, hdr: nat, end: int): View
    requires align > 0 && Good(v, hdr, end)
  {
    GoodFindable(v, hdr, end);
    match op
    case AllocOp(n) => AllocView(v, Request(n, align), hdr).0
    case FreeOp(p) => if p == NULL || Live(v.layout, hdr, p) then FreeView(v, p, hdr) else v
    case ReallocOp(p, n) =>
      if p == NULL || Live(v.layout, hdr, p) then ReallocView(v, p, n, align, hdr, end).0 else v
  }

  lemma StepKeeps(v: View, op: Op, align: nat, hdr: nat, end: int)
    requires align > 0 && Good(v, hdr, end)
    ensures Good(Step(v, op, align, hdr, end), hdr, end)
  {
    hide Good, AllocView, ReallocView, Freed, FreedFrees;
    GoodFindable(v, hdr, end);
    match op
    case AllocOp(n) => AllocViewKeeps(v, Request(n, align), hdr, end);
    case FreeOp(p) => if p != NULL && Live(v.layout, hdr, p) { FreeKeeps(v, p, hdr, end); }
    case ReallocOp(p, n) => if p == NULL || Live(v.layout, hdr, p) { ReallocKeeps(v, p, n, align, hdr, end); }
  }

  /** In every state a run of calls can reach, from any good state, the blocks tile the pool,
      no two free blocks touch and the free list is exactly the free blocks, each once. */
  lemma {:induction false} EveryRun(v: View, ops: seq<Op>, trace: seq<View>, align: nat, hdr: nat, end: int)
    requires align > 0 && Good(v, hdr, end)
    requires |trace| == |ops| + 1 && trace[0] == v
    requires forall k :: 0 <= k < |ops| ==>
      Good(trace[k], hdr, end) ==> trace[k + 1] == Step(trace[k], ops[k], align, hdr, end)
    ensures forall k :: 0 <= k < |trace| ==> Good(trace[k], hdr, end)
  {
    hide Good, Step;
    var k := 0;
    while k < |ops|
      invariant 0 <= k <= |ops|
      invariant forall j :: 0 <= j <= k ==> Good(trace[j], hdr, end)
    {
      StepKeeps(trace[k], ops[k], align, hdr, end);
      assert trace[k + 1] == Step(trace[k], ops[k], align, hdr, end);
      k := k + 1;
    }
  }

  // ----- what the caller gets

  /** An allocation changes nothing, or adds one block that holds the request and no more than
      could not be split off. */
  lemma AllocGives(v: View, size: int, hdr: nat, end: int)
    requires Good(v, hdr, end)
    ensures Findable(v)
    ensures var (w, q) := AllocView(v, size, hdr);
      && (q == NULL ==> w == v)
      && (q != NULL ==> exists b: Block ::
            && b.used && b.addr + hdr == q && size <= b.size < size + hdr + MINIALLOC
            && Used(w.layout) == Used(v.layout) + multiset{b})
  {
    hide Tiled, Coalesced, Lists, Distinct, Allocated, AllocFrees, Used, FreeBytes;
    GoodFindable(v, hdr, end);
    var s, k := v.layout, FirstFit(v.layout, v.frees, size);
    if k < |v.frees| {
      var i := Where(s, v.frees[k]);
      ListedBlock(v.frees, s, hdr, end, v.frees[k]);
      DataInPool(s, hdr, end, i);
      HasHeader(s, hdr, end);
      UsedAllocated(s, i, size, hdr, MINIALLOC);
      var b := HandedOut(s, i, size, hdr, MINIALLOC);
      assert b.addr + hdr == s[i].addr + hdr && b.used;
    }
  }

  /** A release takes away the block at `p` and nothing else. */
  lemma FreeGives(v: View, p: int, hdr: nat, end: int)
    requires Good(v, hdr, end) && Live(v.layout, hdr, p)
    ensures var w, b := FreeView(v, p, hdr), v.layout[Where(v.layout, p - hdr)];
      && Used(w.layout) + multiset{b} == Used(v.layout)
      && forall x :: x in Used(w.layout) ==> x.addr + hdr != p
  {
    if p != NULL {
      hide Good, Used, Freed, FreedFrees;
      var s, i := v.layout, Where(v.layout, p - hdr);
      UsedFreed(s, i, hdr);
      GoodTiles(v, hdr, end);
      AddressGone(s, hdr, end, Used(Freed(s, i, hdr)), s[i]);
    } else {
      GoodTiles(v, hdr, end);
      DataInPool(v.layout, hdr, end, Where(v.layout, p - hdr));
      assert false;
    }
  }

  lemma GoodTiles(v: View, hdr: nat, end: int)
    requires Good(v, hdr, end)
    ensures Tiled(v.layout, hdr, end)
  {
  }

  /** The block `b` has been exchanged for one at `q` that holds `n` bytes, and nothing else has. */
  ghost predicate Exchanged(v: View, w: View, b: Block, q: int, n: nat, most: int, hdr: nat) {
    exists d: Block ::
      && d.used && d.addr + hdr == q && n <= d.size <= most
      && Used(w.layout) + multiset{b} == Used(v.layout) + multiset{d}
  }

  /** A reallocation leaves everything as it was, or exchanges the old block for one that holds
      the new size, at the old address or at another. */
  lemma ReallocGives(v: View, p: int, n: nat, align: nat, hdr: nat, end: int)
    requires align > 0 && n != 0 && Good(v, hdr, end) && Live(v.layout, hdr, p) && p != NULL
    ensures var (w, q) := ReallocView(v, p, n, align, hdr, end);
      var b := v.layout[Where(v.layout, p - hdr)];
      && (q == NULL ==> w == v)
      && (q != NULL ==> Exchanged(v, w, b, q, n, Request(Request(n, align), align) + hdr + MINIALLOC, hdr))
  {
    hide Good, Shrunk, Grown, ResizedFrees, AllocView, FreeView, Used, Exchanged;
    GoodFindable(v, hdr, end);
    var s, i, size := v.layout, Where(v.layout, p - hdr), Request(n, align);
    var most := Request(Request(n, align), align) + hdr + MINIALLOC;
    if size > s[i].size {
      if i + 1 < |s| && !s[i + 1].used && s[i + 1].size + s[i].size > size + MINIALLOC {
        UsedGrown(s, i, size, hdr);
        var w := View(Grown(s, i, size, hdr), ResizedFrees(s, v.frees, i, p + size));
        ExchangedFor(v, w, s[i], Block(s[i].addr, size, true), p, n, most, hdr);
      } else {
        MoveGives(v, p, n, align, hdr, end);
      }
    } else if size + hdr + MINIALLOC >= s[i].size {
      ExchangedFor(v, v, s[i], s[i], p, n, most, hdr);
    } else {
      UsedShrunk(s, i, size, hdr);
      var w := View(Shrunk(s, i, size, hdr), ResizedFrees(s, v.frees, i, p + size));
      ExchangedFor(v, w, s[i], Block(s[i].addr, size, true), p, n, most, hdr);
    }
  }

  lemma ExchangedFor(v: View, w: View, b: Block, d: Block, q: int, n: nat, most: int, hdr: nat)
    requires d.used && d.addr + hdr == q && n <= d.size <= most
    requires Used(w.layout) + multiset{b} == Used(v.layout) + multiset{d}
    ensures Exchanged(v, w, b, q, n, most, hdr)
  {
  }

  lemma MoveGives(v: View, p: int, n: nat, align: nat, hdr: nat, end: int)
    requires align > 0 && Good(v, hdr, end) && Findable(v) && Live(v.layout, hdr, p) && p != NULL
    ensures var size := Request(Request(n, align), align);
      var (w, q) := AllocView(v, size, hdr);
      Live(w.layout, hdr, p) && (q == NULL ==> w == v) && (q != NULL ==>
        Exchanged(v, FreeView(w, p, hdr), v.layout[Where(v.layout, p - hdr)], q, n, size + hdr + MINIALLOC, hdr))
  {
    hide Good, AllocView, FreeView, Used, Exchanged, AlignUp;
    var size := Request(Request(n, align), align);
    var (w, q) := AllocView(v, size, hdr);
    StillLive(v, size, p, hdr, end);
    AllocViewKeeps(v, size, hdr, end);
    AllocGives(v, size, hdr, end);
    FreeGives(w, p, hdr, end);
    if q != NULL {
      var d: Block :| d.used && d.addr + hdr == q && size <= d.size < size + hdr + MINIALLOC
        && Used(w.layout) == Used(v.layout) + multiset{d};
      ExchangedFor(v, FreeView(w, p, hdr), v.layout[Where(v.layout, p - hdr)], d, q, n, size + hdr + MINIALLOC, hdr);
    }
  }

  /** A block that has moved has left its old address. */
  lemma MovedAway(v: View, p: int, n: nat, align: nat, hdr: nat, end: int)
    requires align > 0 && n != 0 && Good(v, hdr, end) && Live(v.layout, hdr, p) && p != NULL
    ensures var (w, q) := ReallocView(v, p, n, align, hdr, end);
      q != NULL && q != p ==> forall x :: x in Used(w.layout) ==> x.addr + hdr != p
  {
    hide Good, Shrunk, Grown, ResizedFrees, AllocView, FreeView, Used, AlignUp;
    GoodFindable(v, hdr, end);
    var size := Request(Request(n, align), align);
    StillLive(v, size, p, hdr, end);
    AllocViewKeeps(v, size, hdr, end);
    FreeGives(AllocView(v, size, hdr).0, p, hdr, end);
  }

  /** Block `i` can grow to `size` bytes in place. */
  ghost predicate CanGrow(s: seq<Block>, i: nat, size: int)
    requires i < |s|
  {
    i + 1 < |s| && !s[i + 1].used && s[i].size + s[i + 1].size > size + MINIALLOC
  }

  /** It fails exactly if the request exceeds the block, the block cannot grow, and an allocation
      of the request, aligned once more, fails. */
  lemma ReallocFailsIff(v: View, p: int, n: nat, align: nat, hdr: nat, end: int)
    requires align > 0 && n != 0 && Good(v, hdr, end) && Live(v.layout, hdr, p) && p != NULL
    ensures var s, i, size := v.layout, Where(v.layout, p - hdr), Request(n, align);
      ReallocView(v, p, n, align, hdr, end).1 == NULL <==>
        && size > s[i].size && !CanGrow(s, i, size)
        && ((forall j :: !Suits(s, j, Request(size, align))) || Request(size, align) >= FreeBytes(s))
  {
    GoodFindable(v, hdr, end);
    AllocFailsIff(v, Request(Request(n, align), align), hdr, end);
    hide Good, Shrunk, Grown, ResizedFrees, AllocView, FreeView, Suits;
  }

  /** One block at `q` that holds `n` bytes has been added, and nothing else has changed. */
  ghost predicate Gained(v: View, w: View, q: int, n: nat, hdr: nat) {
    exists b: Block ::
      b.used && b.addr + hdr == q && n <= b.size && Used(w.layout) == Used(v.layout) + multiset{b}
  }

  /** A size of 0 frees the block; a null pointer makes it an allocation. */
  lemma ReallocEnds(v: View, p: int, n: nat, align: nat, hdr: nat, end: int)
    requires align > 0 && Good(v, hdr, end) && (p == NULL || Live(v.layout, hdr, p))
    ensures var (w, q) := ReallocView(v, p, n, align, hdr, end);
      && (n == 0 ==> q == NULL)
      && (n == 0 && p == NULL ==> w == v)
      && (n == 0 && p != NULL ==>
            Used(w.layout) + multiset{v.layout[Where(v.layout, p - hdr)]} == Used(v.layout))
      && (n != 0 && p == NULL && q == NULL ==> w == v)
      && (n != 0 && p == NULL && q != NULL ==> Gained(v, w, q, n, hdr))
  {
    GoodFindable(v, hdr, end);
    AllocGives(v, Request(Request(n, align), align), hdr, end);
    if p != NULL { FreeGives(v, p, hdr, end); }
    hide Good, AllocView, Used, Freed, FreedFrees;
  }

  // ----- the order of the free list

  /** Every entry of `r` is one of `was`, and they come in the same order. */
  ghost predicate Kept(was: seq<int>, r: seq<int>) {
    && (forall x :: 0 <= x < |r| ==> r[x] in was)
    && (forall x, y :: 0 <= x < y < |r| ==> Position(was, r[x]) < Position(was, r[y]))
  }

  /** Entries have left, and at most one new one has come, at the front. */
  ghost predicate NewestFirst(was: seq<int>, r: seq<int>) {
    Kept(was, r) || (r != [] && r[0] !in was && Kept(was, r[1..]))
  }

  lemma PositionIs(s: seq<int>, k: nat)
    requires Distinct(s) && k < |s|
    ensures Position(s, s[k]) == k
  {
  }

  lemma AllKept(s: seq<int>)
    requires Distinct(s)
    ensures Kept(s, s)
  {
    hide Distinct, Position;
    forall x, y | 0 <= x < y < |s| ensures Position(s, s[x]) < Position(s, s[y]) {
      PositionIs(s, x);
      PositionIs(s, y);
    }
  }

  lemma DroppedKept(s: seq<int>, k: nat)
    requires Distinct(s) && k < |s|
    ensures Kept(s, Dropped(s, k))
  {
    hide Distinct, Position;
    var r := Dropped(s, k);
    forall x | 0 <= x < |r| ensures r[x] in s && Position(s, r[x]) == if x < k then x else x + 1 {
      var m := if x < k then x else x + 1;
      assert r[x] == s[m];
      PositionIs(s, m);
    }
  }

  lemma WithoutKept(s: seq<int>, a: int)
    requires Distinct(s)
    ensures Kept(s, Without(s, a))
  {
    hide Distinct, Position, Dropped, Kept;
    AllKept(s);
    if a in s { DroppedKept(s, Position(s, a)); }
  }

  lemma KeptIsNewest(was: seq<int>, r: seq<int>)
    ensures Kept(was, r) ==> NewestFirst(was, r)
  {
  }

  lemma NotKept(was: seq<int>, r: seq<int>)
    requires r != [] && r[0] !in was
    ensures !Kept(was, r)
  {
  }

  lemma FrontIsNew(was: seq<int>, r: seq<int>, a: int)
    requires a !in was && Kept(was, r)
    ensures NewestFirst(was, [a] + r)
  {
    assert ([a] + r)[1..] == r;
  }

  lemma InsideNotListed(v: View, i: nat, x: int, hdr: nat, end: int)
    requires Good(v, hdr, end) && i < |v.layout|
    requires v.layout[i].addr < x < v.layout[i].addr + hdr + v.layout[i].size
    ensures x !in v.frees
  {
    NotFreeInside(v.layout, i, x, hdr, end);
  }

  /** An allocation leaves the others on the list in their order; what it splits off comes first. */
  lemma AllocOrder(v: View, size: int, hdr: nat, end: int)
    requires Good(v, hdr, end) && size >= 0
    ensures Findable(v) && NewestFirst(v.frees, AllocView(v, size, hdr).0.frees)
  {
    GoodFindable(v, hdr, end);
    hide Coalesced, Lists, Tiled, Allocated, Kept, NewestFirst, FreeBytes, Distinct;
    var s, k := v.layout, FirstFit(v.layout, v.frees, size);
    AllKept(v.frees);
    if k < |v.frees| {
      var i := Where(s, v.frees[k]);
      ListedBlock(v.frees, s, hdr, end, v.frees[k]);
      WithoutKept(v.frees, s[i].addr);
      if s[i].size >= size + hdr + MINIALLOC {
        HasHeader(s, hdr, end);
        InsideNotListed(v, i, s[i].addr + hdr + size, hdr, end);
        FrontIsNew(v.frees, Without(v.frees, s[i].addr), s[i].addr + hdr + size);
      }
      KeptIsNewest(v.frees, Without(v.frees, s[i].addr));
    }
    KeptIsNewest(v.frees, v.frees);
  }

  /** A release leaves the others on the list in their order; its block, if it has no free block
      on its left, comes first. */
  lemma FreeOrder(v: View, p: int, hdr: nat, end: int)
    requires Good(v, hdr, end) && Live(v.layout, hdr, p) && p != NULL
    ensures var s, i, w := v.layout, Where(v.layout, p - hdr), FreeView(v, p, hdr);
      && NewestFirst(v.frees, w.frees)
      && (i > 0 && !s[i - 1].used <==> Kept(v.frees, w.frees))
  {
    hide Good, Freed, NewestFirst, Kept, Without;
    var s, i := v.layout, Where(v.layout, p - hdr);
    GoodUnlisted(v, i, hdr, end);
    GoodKept(v, if i + 1 < |s| then s[i + 1].addr else 0, hdr, end);
    var f := if i + 1 < |s| && !s[i + 1].used then Without(v.frees, s[i + 1].addr) else v.frees;
    KeptIsNewest(v.frees, f);
    FrontIsNew(v.frees, f, s[i].addr);
    NotKept(v.frees, [s[i].addr] + f);
  }

  lemma GoodUnlisted(v: View, i: nat, hdr: nat, end: int)
    requires Good(v, hdr, end) && i < |v.layout| && v.layout[i].used
    ensures v.layout[i].addr !in v.frees
  {
    UsedNotListed(v.frees, v.layout, hdr, end, i);
  }

  lemma GoodKept(v: View, a: int, hdr: nat, end: int)
    requires Good(v, hdr, end)
    ensures Kept(v.frees, v.frees) && Kept(v.frees, Without(v.frees, a))
  {
    AllKept(v.frees);
    WithoutKept(v.frees, a);
  }

  /** A new block does not lie where an old one is. */
  lemma NewElsewhere(v: View, p: int, size: int, hdr: nat, end: int)
    requires Good(v, hdr, end) && Live(v.layout, hdr, p) && p != NULL
    ensures Findable(v) && AllocView(v, size, hdr).1 != p
  {
    GoodFindable(v, hdr, end);
    GoodUnlisted(v, Where(v.layout, p - hdr), hdr, end);
    hide Good, Allocated, AllocFrees, FreeBytes;
  }

  /** A reallocation in place leaves the others on the list in their order; what it cuts off, or
      leaves of the block behind, comes first. */
  lemma ReallocOrder(v: View, p: int, n: nat, align: nat, hdr: nat, end: int)
    requires align > 0 && n != 0 && Good(v, hdr, end) && Live(v.layout, hdr, p) && p != NULL
    ensures var (w, q) := ReallocView(v, p, n, align, hdr, end);
      q == p ==> NewestFirst(v.frees, w.frees)
  {
    hide Good, Shrunk, Grown, AllocView, FreeView, Kept, NewestFirst, AlignUp;
    GoodFindable(v, hdr, end);
    var s, i, size := v.layout, Where(v.layout, p - hdr), Request(n, align);
    GoodKept(v, if i + 1 < |s| then s[i + 1].addr else 0, hdr, end);
    KeptIsNewest(v.frees, v.frees);
    if size > s[i].size {
      if CanGrow(s, i, size) {
        GoodTiles(v, hdr, end);
        assert Fits(s, i, hdr, end);
        InsideNotListed(v, i + 1, p + size, hdr, end);
        FrontIsNew(v.frees, Without(v.frees, s[i + 1].addr), p + size);
      } else {
        NewElsewhere(v, p, Request(size, align), hdr, end);
      }
    } else if size + hdr + MINIALLOC < s[i].size {
      InsideNotListed(v, i, p + size, hdr, end);
      FrontIsNew(v.frees, if i + 1 < |s| && !s[i + 1].used then Without(v.frees, s[i + 1].addr) else v.frees, p + size);
    }
  }

  // ----- the smallest block

  lemma AllocRoomy(v: View, size: int, hdr: nat, end: int)
    requires Good(v, hdr, end) && Roomy(v.layout, MINIALLOC) && size >= MINIALLOC
    ensures Findable(v) && Roomy(AllocView(v, size, hdr).0.layout, MINIALLOC)
  {
    hide Good, Roomy, Allocated, AllocFrees;
    GoodFindable(v, hdr, end);
    var k := FirstFit(v.layout, v.frees, size);
    if k < |v.frees| { AllocatedRoomy(v.layout, Where(v.layout, v.frees[k]), size, hdr, MINIALLOC); }
  }

  lemma FreeRoomy(v: View, p: int, hdr: nat)
    requires Roomy(v.layout, MINIALLOC) && (p == NULL || Live(v.layout, hdr, p))
    ensures Roomy(FreeView(v, p, hdr).layout, MINIALLOC)
  {
    hide Roomy, Freed, FreedFrees;
    if p != NULL { FreedRoomy(v.layout, Where(v.layout, p - hdr), hdr, MINIALLOC); }
  }

  lemma ReallocRoomy(v: View, p: int, n: nat, align: nat, hdr: nat, end: int)
    requires align > 0 && Good(v, hdr, end) && (p == NULL || Live(v.layout, hdr, p)) && Roomy(v.layout, MINIALLOC)
    ensures Roomy(ReallocView(v, p, n, align, hdr, end).0.layout, MINIALLOC)
  {
    hide Good, Roomy, Shrunk, Grown, ResizedFrees, AllocView, FreeView, AlignUp;
    GoodFindable(v, hdr, end);
    var size := Request(n, align);
    AllocRoomy(v, Request(size, align), hdr, end);
    FreeRoomy(v, p, hdr);
    if p != NULL {
      var s, i := v.layout, Where(v.layout, p - hdr);
      if size + hdr + MINIALLOC < s[i].size { ShrunkRoomy(s, i, size, hdr, MINIALLOC); }
      if i + 1 < |s| && s[i + 1].size + s[i].size > size + MINIALLOC { GrownRoomy(s, i, size, hdr, MINIALLOC); }
      StillLive(v, Request(size, align), p, hdr, end);
      FreeRoomy(AllocView(v, Request(size, align), hdr).0, p, hdr);
    }
  }

  lemma StepRoomy(v: View, op: Op, align: nat, hdr: nat, end: int)
    requires align > 0 && Good(v, hdr, end) && Roomy(v.layout, MINIALLOC)
    ensures Roomy(Step(v, op, align, hdr, end).layout, MINIALLOC)
  {
    hide Good, Roomy, AllocView, FreeView, ReallocView, AlignUp;
    GoodFindable(v, hdr, end);
    match op
    case AllocOp(n) => AllocRoomy(v, Request(n, align), hdr, end);
    case FreeOp(p) => if p == NULL || Live(v.layout, hdr, p) { FreeRoomy(v, p, hdr); }
    case ReallocOp(p, n) => if p == NULL || Live(v.layout, hdr, p) { ReallocRoomy(v, p, n, align, hdr, end); }
  }

  /** A heap that starts with no block below the minimum never gets one. */
  lemma {:induction false} EveryRunRoomy(ops: seq<Op>, trace: seq<View>, align: nat, hdr: nat, end: int)
    requires align > 0 && |trace| == |ops| + 1 && Good(trace[0], hdr, end) && Roomy(trace[0].layout, MINIALLOC)
    requires forall k :: 0 <= k < |ops| ==>
      Good(trace[k], hdr, end) ==> trace[k + 1] == Step(trace[k], ops[k], align, hdr, end)
    ensures forall k :: 0 <= k < |trace| ==> Roomy(trace[k].layout, MINIALLOC)
  {
    hide Good, Step, Roomy;
    if ops != [] {
      StepKeeps(trace[0], ops[0], align, hdr, end);
      StepRoomy(trace[0], ops[0], align, hdr, end);
      EveryRunRoomy(ops[1..], trace[1..], align, hdr, end);
      assert forall k :: 1 <= k < |trace| ==> trace[k] == trace[1..][k - 1];
    }
  }

  /** In such a heap an allocation fails although a free block is large enough exactly if that is
      the only free block and an exact fit. */
  lemma OnlyBlockRefusedIff(v: View, size: int, hdr: nat, end: int)
    requires Good(v, hdr, end) && Roomy(v.layout, MINIALLOC)
    ensures Findable(v)
    ensures AllocView(v, size, hdr).1 == NULL && (exists i :: Suits(v.layout, i, size)) <==>
      exists i :: Suits(v.layout, i, size) && v.layout[i].size == size
        && forall j :: 0 <= j < |v.layout| && !v.layout[j].used ==> j == i
  {
    RefusedIff(v, size, hdr, end);
    hide Good, AllocView;
  }

  // ----- alignment

  lemma RequestAligned(n: nat, align: nat)
    requires align > 0 && MINIALLOC % align == 0
    ensures Request(n, align) % align == 0
  {
    AlignUpAligned(n, align);
  }

  /** A reallocation that moves aligns its request again; that changes it exactly if the request
      was raised to a minimum that is not a multiple of the alignment. */
  lemma RequestTwiceIff(n: nat, align: nat)
    requires align > 0
    ensures Request(Request(n, align), align) != Request(n, align) <==>
      Request(n, align) == MINIALLOC && MINIALLOC % align != 0
  {
    AlignUpAligned(n, align);
    AlignUpIff(Request(n, align), align);
  }

  lemma AllocAligned(v: View, n: nat, align: nat, hdr: nat, end: int)
    requires align > 0 && Good(v, hdr, end) && Aligned(v.layout, align) && hdr % align == 0 && MINIALLOC % align == 0
    ensures Findable(v) && Aligned(AllocView(v, Request(n, align), hdr).0.layout, align)
  {
    hide Good, Aligned, Allocated, Request, AllocFrees;
    GoodFindable(v, hdr, end);
    RequestAligned(n, align);
    var size := Request(n, align);
    var k := FirstFit(v.layout, v.frees, size);
    if k < |v.frees| { AllocatedAligned(v.layout, Where(v.layout, v.frees[k]), size, hdr, MINIALLOC, align); }
  }

  lemma FreeAligned(v: View, p: int, align: nat, hdr: nat)
    requires align > 0 && Aligned(v.layout, align) && (p == NULL || Live(v.layout, hdr, p))
    ensures Aligned(FreeView(v, p, hdr).layout, align)
  {
    hide Aligned, Freed, FreedFrees;
    if p != NULL { FreedAligned(v.layout, Where(v.layout, p - hdr), hdr, align); }
  }

  lemma ReallocAligned(v: View, p: int, n: nat, align: nat, hdr: nat, end: int)
    requires align > 0 && Good(v, hdr, end) && (p == NULL || Live(v.layout, hdr, p))
    requires Aligned(v.layout, align) && hdr % align == 0 && MINIALLOC % align == 0
    ensures Aligned(ReallocView(v, p, n, align, hdr, end).0.layout, align)
  {
    hide Good, Aligned, Shrunk, Grown, ResizedFrees, AllocView, FreeView, Request;
    GoodFindable(v, hdr, end);
    RequestAligned(n, align);
    var size := Request(n, align);
    AllocAligned(v, size, align, hdr, end);
    FreeAligned(v, p, align, hdr);
    if p != NULL {
      var s, i := v.layout, Where(v.layout, p - hdr);
      ShrunkAligned(s, i, size, hdr, align);
      if i + 1 < |s| { GrownAligned(s, i, size, hdr, align); }
      StillLive(v, Request(size, align), p, hdr, end);
      FreeAligned(AllocView(v, Request(size, align), hdr).0, p, align, hdr);
    }
  }

  lemma StepAligned(v: View, op: Op, align: nat, hdr: nat, end: int)
    requires align > 0 && Good(v, hdr, end) && Aligned(v.layout, align) && hdr % align == 0 && MINIALLOC % align == 0
    ensures Aligned(Step(v, op, align, hdr, end).layout, align)
  {
    hide Good, Aligned, AllocView, FreeView, ReallocView, Request;
    GoodFindable(v, hdr, end);
    match op
    case AllocOp(n) => AllocAligned(v, n, align, hdr, end);
    case FreeOp(p) => if p == NULL || Live(v.layout, hdr, p) { FreeAligned(v, p, align, hdr); }
    case ReallocOp(p, n) => if p == NULL || Live(v.layout, hdr, p) { ReallocAligned(v, p, n, align, hdr, end); }
  }

  lemma {:induction false} EveryRunAligned(ops: seq<Op>, trace: seq<View>, align: nat, hdr: nat, end: int)
    requires align > 0 && hdr % align == 0 && MINIALLOC % align == 0
    requires |trace| == |ops| + 1 && Good(trace[0], hdr, end) && Aligned(trace[0].layout, align)
    requires forall k :: 0 <= k < |ops| ==>
      Good(trace[k], hdr, end) ==> trace[k + 1] == Step(trace[k], ops[k], align, hdr, end)
    ensures forall k :: 0 <= k < |trace| ==> Aligned(trace[k].layout, align)
  {
    hide Good, Step, Aligned;
    if ops != [] {
      StepKeeps(trace[0], ops[0], align, hdr, end);
      StepAligned(trace[0], ops[0], align, hdr, end);
      EveryRunAligned(ops[1..], trace[1..], align, hdr, end);
      assert forall k :: 1 <= k < |trace| ==> trace[k] == trace[1..][k - 1];
    }
  }

  /** Allocating nothing from a fresh heap hands out the minimum, which moves the next header. */
  lemma MinimumMoves(align: nat, hdr: nat)
    requires align > 0 && hdr > 0 && hdr % align == 0
    ensures var v, end := View([Block(0, hdr + 2 * MINIALLOC, false)], [0]), 2 * hdr + 2 * MINIALLOC;
      && Good(v, hdr, end) && Aligned(v.layout, align)
      && (Aligned(Step(v, AllocOp(0), align, hdr, end).layout, align) ==> MINIALLOC % align == 0)
  {
    var v, end := View([Block(0, hdr + 2 * MINIALLOC, false)], [0]), 2 * hdr + 2 * MINIALLOC;
    assert v.layout[0].addr == 0;
    assert Fits(v.layout, 0, hdr, end);
    AlignUpAligned(0, align);
    assert Request(0, align) == MINIALLOC;
    AllocFailsIff(v, MINIALLOC, hdr, end);
    assert Suits(v.layout, 0, MINIALLOC);
    assert Total(v.layout, 1, FreeWeight) == Total(v.layout, 0, FreeWeight) + v.layout[0].size;
    var r := Step(v, AllocOp(0), align, hdr, end).layout;
    assert r == Allocated(v.layout, 0, MINIALLOC, hdr, MINIALLOC);
    assert r[1].addr == hdr + MINIALLOC;
    if (hdr + MINIALLOC) % align == 0 { SumAligned(hdr + MINIALLOC, hdr, align); }
  }

  /** Every call keeps every header aligned, in every heap, exactly if the minimum request is a
      multiple of the alignment, as the header is. */
  lemma AlignmentKeptIff(align: nat, hdr: nat)
    requires align > 0 && hdr > 0 && hdr % align == 0
    ensures (forall v, op, end {:trigger Step(v, op, align, hdr, end)} ::
               Good(v, hdr, end) && Aligned(v.layout, align) ==> Aligned(Step(v, op, align, hdr, end).layout, align))
      <==> MINIALLOC % align == 0
  {
    hide Good, Aligned, Step;
    MinimumMoves(align, hdr);
    if MINIALLOC % align == 0 {
      forall v, op, end | Good(v, hdr, end) && Aligned(v.layout, align)
        ensures Aligned(Step(v, op, align, hdr, end).layout, align)
      {
        StepAligned(v, op, align, hdr, end);
      }
    }
  }
}
