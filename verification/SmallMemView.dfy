/** mem.c as its callers see it: the chain of blocks and the hint from which a search starts. */
module SmallMemViews {
  import opened Basics
  import opened HeapLayout
  import opened HeapOps
  import opened HeapData
  import opened HeapAlign
  import opened HeapUsed

  /** SIZEOF_STRUCT_MEM, RT_ALIGN_SIZE, MIN_SIZE and mem_size_aligned. */
  datatype Config = Config(hdr: nat, align: nat, minSize: nat, heapSize: nat) {
    /** Offset of the end sentinel. */
    function End(): nat {
      heapSize + hdr
    }

    function MinAligned(): nat
      requires align > 0
    {
      AlignUp(minSize, align)
    }

    ghost predicate Sound() {
      && hdr > 0 && align > 0
      && hdr % align == 0 && heapSize % align == 0
      && MinAligned() <= heapSize
    }
  }

  /** `lfree` is the offset rt_malloc starts at: a free block, or the sentinel. */
  datatype View = View(layout: seq<Block>, lfree: int)

  ghost predicate IsHint(s: seq<Block>, lfree: int, end: int) {
    lfree == end || FreeAt(s, lfree)
  }

  /** `lfree` is the lowest free block, or the sentinel when nothing is free. */
  ghost predicate IsLowest(s: seq<Block>, lfree: int, end: int) {
    IsHint(s, lfree, end) && forall a :: FreeAt(s, a) ==> lfree <= a
  }

  ghost predicate Good(v: View, c: Config) {
    && c.Sound()
    && Tiled(v.layout, c.hdr, c.End())
    && Coalesced(v.layout)
    && IsHint(v.layout, v.lfree, c.End())
    && Aligned(v.layout, c.align)
  }

  // ----- the functions computed by the code

  /** The first free block at or behind position `i`, or the sentinel. */
  function LowestFrom(s: seq<Block>, i: nat, end: int): (a: int)
    requires i <= |s|
    ensures a == end || exists j :: i <= j < |s| && s[j].addr == a && !s[j].used
    decreases |s| - i
  {
    if i == |s| then end else if !s[i].used then s[i].addr else LowestFrom(s, i + 1, end)
  }

  /** The search loop of rt_malloc: stop at the first block at or beyond `bound`. */
  function FitFrom(s: seq<Block>, i: nat, size: int, bound: int): (k: nat)
    requires i <= |s|
    ensures i <= k <= |s|
    ensures k < |s| ==> !s[k].used && s[k].size >= size && s[k].addr < bound
    decreases |s| - i
  {
    if i == |s| || s[i].addr >= bound then |s|
    else if !s[i].used && s[i].size >= size then i
    else FitFrom(s, i + 1, size, bound)
  }

  ghost function Start(v: View, end: int): (i: nat)
    requires IsHint(v.layout, v.lfree, end)
    ensures i <= |v.layout|
    ensures i < |v.layout| ==> v.layout[i].addr == v.lfree && v.lfree != end
    ensures i == |v.layout| ==> v.lfree == end
  {
    if v.lfree == end then |v.layout| else Where(v.layout, v.lfree)
  }

  /** The data bytes a request is given room for, or nothing if it cannot be met at all. */
  function Room(n: nat, c: Config): nat
    requires c.align > 0
  {
    Max(AlignUp(n, c.align), c.MinAligned())
  }

  ghost function MallocView(v: View, n: nat, c: Config): (View, int)
    requires Good(v, c)
  {
    if n == 0 || AlignUp(n, c.align) > c.heapSize then (v, NULL) else
      var s, size := v.layout, Room(n, c);
      var k := FitFrom(s, Start(v, c.End()), size, c.heapSize - size);
      if k == |s| then (v, NULL) else
        var r := Allocated(s, k, size, c.hdr, c.MinAligned());
        (View(r, if s[k].addr == v.lfree then LowestFrom(r, k, c.End()) else v.lfree), s[k].addr + c.hdr)
  }

  /** How plug_holes moves the hint while it joins block `i` with its neighbours. */
  function PlugHint(s: seq<Block>, i: nat, lfree: int): int
    requires i < |s|
  {
    var l := if i + 1 < |s| && !s[i + 1].used && lfree == s[i + 1].addr then s[i].addr else lfree;
    if i > 0 && !s[i - 1].used && l == s[i].addr then s[i - 1].addr else l
  }

  /** A null pointer, an offset outside the heap, or the data of an allocated block. */
  ghost predicate MayFree(v: View, p: int, c: Config) {
    p == NULL || p < 0 || p >= c.End() || Live(v.layout, c.hdr, p)
  }

  ghost function FreeView(v: View, p: int, c: Config): View
    requires MayFree(v, p, c)
  {
    if p == NULL || p < 0 || p >= c.End() then v else
      var s, i := v.layout, Where(v.layout, p - c.hdr);
      var l := if s[i].addr < v.lfree then s[i].addr else v.lfree;
      View(Freed(s, i, c.hdr), PlugHint(Mark(s, i, false), i, l))
  }

  // ----- searching

  lemma {:induction false} LowestIsLowest(s: seq<Block>, i: nat, hdr: nat, end: int, j: nat)
    requires Tiled(s, hdr, end) && i <= j < |s| && !s[j].used
    ensures LowestFrom(s, i, end) <= s[j].addr
    decreases j - i
  {
    if i < j {
      if !s[i].used {
        Ordered(s, hdr, end, i, j);
        Bounds(s, hdr, end, i);
      } else {
        LowestIsLowest(s, i + 1, hdr, end, j);
      }
    }
  }

  lemma {:induction false} LowestSkipsUsed(s: seq<Block>, i: nat, hdr: nat, end: int)
    requires Tiled(s, hdr, end) && i < |s| && s[i].used
    ensures LowestFrom(s, i, end) > s[i].addr
  {
    Bounds(s, hdr, end, i);
    var a := LowestFrom(s, i + 1, end);
    if a != end {
      var j :| i + 1 <= j < |s| && s[j].addr == a && !s[j].used;
      Ordered(s, hdr, end, i, j);
    }
  }

  /** First fit: nothing at or behind the starting position and before the block found fits,
      and if none is found, no free block that starts below the bound is large enough. */
  lemma {:induction false} FitIsFirst(s: seq<Block>, i: nat, size: int, bound: int, hdr: nat, end: int, j: nat)
    requires Tiled(s, hdr, end) && i <= j < |s|
    requires j < FitFrom(s, i, size, bound)
    ensures s[j].used || s[j].size < size || s[j].addr >= bound
    decreases j - i
  {
    if i < |s| && s[i].addr >= bound {
      if i < j { Ordered(s, hdr, end, i, j); Bounds(s, hdr, end, i); }
    } else if i < j {
      FitIsFirst(s, i + 1, size, bound, hdr, end, j);
    }
  }

  /** The block at `a` could serve a request for `size` bytes: free, large enough, not before the
      hint, and starting below the search bound. */
  ghost predicate Serves(v: View, a: int, size: int, c: Config) {
    exists i :: 0 <= i < |v.layout| && v.layout[i].addr == a && v.lfree <= a
      && !v.layout[i].used && v.layout[i].size >= size && a < c.heapSize - size
  }

  /** rt_malloc is complete first fit: it returns null exactly if no block could serve the
      request, and otherwise the lowest one that could. */
  lemma MallocIsFirstFit(v: View, n: nat, c: Config)
    requires Good(v, c) && n != 0 && AlignUp(n, c.align) <= c.heapSize
    ensures var q, size := MallocView(v, n, c).1, Room(n, c);
      && (q == NULL <==> forall a :: !Serves(v, a, size, c))
      && (q != NULL ==> Serves(v, q - c.hdr, size, c) && forall a :: Serves(v, a, size, c) ==> q - c.hdr <= a)
  {
    hide Tiled, Coalesced, Aligned, IsHint, LowestFrom, FitFrom, Allocated;
    var s, end, size := v.layout, c.End(), Room(n, c);
    var i, bound := Start(v, end), c.heapSize - size;
    var k := FitFrom(s, i, size, bound);
    forall a | Serves(v, a, size, c)
      ensures k < |s| && s[k].addr <= a
    {
      var j :| 0 <= j < |s| && s[j].addr == a && v.lfree <= a && !s[j].used && s[j].size >= size && a < bound;
      DataInPool(s, c.hdr, end, j);
      if j < i { BelowStart(v, c, i, j); }
      if j < k { FitIsFirst(s, i, size, bound, c.hdr, end, j); }
      if k < j { Ordered(s, c.hdr, end, k, j); DataInPool(s, c.hdr, end, k); }
    }
    if k < |s| {
      DataInPool(s, c.hdr, end, k);
      if i < k { Ordered(s, c.hdr, end, i, k); DataInPool(s, c.hdr, end, i); }
      assert Serves(v, s[k].addr, size, c);
    }
  }

  /** Block `i` is free and large enough. */
  ghost predicate Fitting(v: View, i: int, size: int) {
    0 <= i < |v.layout| && !v.layout[i].used && v.layout[i].size >= size
  }

  /** Block `i` has exactly `size` bytes and ends where the heap ends. */
  ghost predicate EndFit(v: View, i: int, size: int, c: Config)
    requires 0 <= i < |v.layout|
  {
    v.layout[i].size == size && v.layout[i].addr + c.hdr + size == c.End()
  }

  /** A fitting block is passed over by the search exactly if it lies below the hint or is an
      exact fit at the end of the heap. */
  lemma PassedOverIff(v: View, i: int, size: int, c: Config)
    requires Good(v, c) && Fitting(v, i, size)
    ensures Serves(v, v.layout[i].addr, size, c) <==> v.lfree <= v.layout[i].addr && !EndFit(v, i, size, c)
  {
    hide Tiled, Coalesced, Aligned;
    var s := v.layout;
    DataInPool(s, c.hdr, c.End(), i);
    assert s[i].addr >= c.heapSize - size <==> EndFit(v, i, size, c);
    if Serves(v, s[i].addr, size, c) {
      var j :| 0 <= j < |s| && s[j].addr == s[i].addr && v.lfree <= s[j].addr
        && !s[j].used && s[j].size >= size && s[j].addr < c.heapSize - size;
    }
  }

  /** rt_malloc fails although a free block is large enough exactly if every such block lies below
      the hint or is the exact fit at the end of the heap. */
  lemma MallocRefusedIff(v: View, n: nat, c: Config)
    requires Good(v, c) && n != 0 && AlignUp(n, c.align) <= c.heapSize
    ensures var size := Room(n, c);
      MallocView(v, n, c).1 == NULL && (exists i :: Fitting(v, i, size)) <==>
        && (exists i :: Fitting(v, i, size))
        && forall i :: Fitting(v, i, size) ==> v.layout[i].addr < v.lfree || EndFit(v, i, size, c)
  {
    MallocIsFirstFit(v, n, c);
    hide MallocView, Good, Room, Serves;
    var s, size := v.layout, Room(n, c);
    forall i | Fitting(v, i, size)
      ensures Serves(v, s[i].addr, size, c) <==> v.lfree <= s[i].addr && !EndFit(v, i, size, c)
    {
      PassedOverIff(v, i, size, c);
    }
    forall a | Serves(v, a, size, c) ensures exists i :: Fitting(v, i, size) && s[i].addr == a {
      ServesFits(v, a, size, c);
    }
  }

  lemma ServesFits(v: View, a: int, size: int, c: Config)
    requires Serves(v, a, size, c)
    ensures exists i :: Fitting(v, i, size) && v.layout[i].addr == a
  {
    var s := v.layout;
    var i :| 0 <= i < |s| && s[i].addr == a && v.lfree <= a && !s[i].used && s[i].size >= size && a < c.heapSize - size;
    assert Fitting(v, i, size);
  }

  /** While the hint is the lowest free block, it fails so exactly if the only fitting block is
      the exact fit at the end of the heap. */
  lemma LowestRefusedIff(v: View, n: nat, c: Config)
    requires Good(v, c) && n != 0 && AlignUp(n, c.align) <= c.heapSize && IsLowest(v.layout, v.lfree, c.End())
    ensures var size := Room(n, c);
      MallocView(v, n, c).1 == NULL && (exists i :: Fitting(v, i, size)) <==>
        exists i :: Fitting(v, i, size) && EndFit(v, i, size, c) && forall j :: Fitting(v, j, size) ==> j == i
  {
    MallocRefusedIff(v, n, c);
    var s, size := v.layout, Room(n, c);
    forall i | Fitting(v, i, size) ensures v.lfree <= s[i].addr { BlockIsFree(s, i); }
    forall i, j | Fitting(v, i, size) && Fitting(v, j, size) && EndFit(v, i, size, c) && EndFit(v, j, size, c)
      ensures i == j
    {
      SameBlock(s, c.hdr, c.End(), i, j);
    }
    hide MallocView, Good, Room, IsLowest;
  }

  /** Positions before the search start lie below the hint. */
  lemma BelowStart(v: View, c: Config, i: nat, j: nat)
    requires Good(v, c) && i == Start(v, c.End()) && j < i
    ensures v.layout[j].addr < v.lfree
  {
    hide Coalesced, Aligned, Tiled;
    HasHeader(v.layout, c.hdr, c.End());
    DataInPool(v.layout, c.hdr, c.End(), j);
    if i < |v.layout| { Ordered(v.layout, c.hdr, c.End(), j, i); }
  }

  // ----- alignment

  lemma RoomAligned(n: nat, c: Config)
    requires c.Sound()
    ensures Room(n, c) % c.align == 0 && Room(n, c) >= n
  {
    AlignUpAligned(n, c.align);
    AlignUpAligned(c.minSize, c.align);
  }

  // ----- every call keeps the invariant

  /** Which blocks are free after an allocation of block `k`. */
  lemma FreeAtAllocated(s: seq<Block>, k: nat, size: int, hdr: nat, mini: nat, end: int, a: int)
    requires Tiled(s, hdr, end) && k < |s| && 0 <= size <= s[k].size
    ensures FreeAt(Allocated(s, k, size, hdr, mini), a) <==>
      || (FreeAt(s, a) && a != s[k].addr)
      || (s[k].size >= size + hdr + mini && a == s[k].addr + hdr + size)
  {
    hide FreeAt, Tiled;
    HasHeader(s, hdr, end);
    if s[k].size >= size + hdr + mini {
      SplitTiled(s, k, size, hdr, end);
      FreeAtSplit(s, k, size, hdr, a);
      SplitAt(s, k, size, hdr);
      FreeAtMark(Split(s, k, size, hdr), k, true, hdr, end, a);
    } else {
      FreeAtMark(s, k, true, hdr, end, a);
    }
  }

  lemma LowestFromIsHint(s: seq<Block>, k: nat, end: int)
    requires k <= |s|
    ensures IsHint(s, LowestFrom(s, k, end), end)
  {
  }

  lemma MallocKeeps(v: View, n: nat, c: Config)
    requires Good(v, c)
    ensures Good(MallocView(v, n, c).0, c)
  {
    hide Tiled, Coalesced, Aligned, IsHint, LowestFrom, Allocated, FitFrom;
    if n != 0 && AlignUp(n, c.align) <= c.heapSize {
      var s, size := v.layout, Room(n, c);
      var k := FitFrom(s, Start(v, c.End()), size, c.heapSize - size);
      if k < |s| {
        AllocatedKeeps(s, k, size, c.hdr, c.MinAligned(), c.End());
        RoomAligned(n, c);
        AllocatedAligned(s, k, size, c.hdr, c.MinAligned(), c.align);
        AllocatedAt(s, k, size, c.hdr, c.MinAligned());
        LowestFromIsHint(Allocated(s, k, size, c.hdr, c.MinAligned()), k, c.End());
        if s[k].addr != v.lfree { HintSurvives(v, k, size, c); }
      }
    }
  }

  lemma HintSurvives(v: View, k: nat, size: int, c: Config)
    requires Good(v, c) && k < |v.layout| && 0 <= size <= v.layout[k].size && v.layout[k].addr != v.lfree
    ensures IsHint(Allocated(v.layout, k, size, c.hdr, c.MinAligned()), v.lfree, c.End())
  {
    if v.lfree != c.End() { FreeAtAllocated(v.layout, k, size, c.hdr, c.MinAligned(), c.End(), v.lfree); }
  }

  /** plug_holes moves the hint along when it swallows the block the hint names. */
  lemma PlugHintKeeps(s: seq<Block>, i: nat, lfree: int, hdr: nat, end: int)
    requires Tiled(s, hdr, end) && i < |s| && !s[i].used && IsHint(s, lfree, end)
    ensures IsHint(PlugHoles(s, i, hdr), PlugHint(s, i, lfree), end)
  {
    hide Tiled, PlugHoles;
    var l := PlugHint(s, i, lfree);
    assert FreeAt(s, s[i].addr);
    if i > 0 && !s[i - 1].used { assert FreeAt(s, s[i - 1].addr); Adjacent(s, hdr, end, i - 1); }
    HasHeader(s, hdr, end);
    Adjacent(s, hdr, end, i);
    StartsBelowEnd(s, hdr, end, i);
    FreeAtPlug(s, i, hdr, end, l);
  }

  lemma StartsBelowEnd(s: seq<Block>, hdr: nat, end: int, i: nat)
    requires Tiled(s, hdr, end) && i < |s|
    ensures s[i].addr < end && (i + 1 < |s| ==> s[i + 1].addr < end)
  {
    Bounds(s, hdr, end, i);
    if i + 1 < |s| { Bounds(s, hdr, end, i + 1); }
  }

  lemma FreeKeeps(v: View, p: int, c: Config)
    requires Good(v, c) && MayFree(v, p, c)
    ensures Good(FreeView(v, p, c), c)
  {
    hide Tiled, Coalesced, Aligned, FreeAt, PlugHoles;
    if p != NULL && 0 <= p < c.End() {
      var s, i, end := v.layout, Where(v.layout, p - c.hdr), c.End();
      var m, l := Mark(s, i, false), if s[i].addr < v.lfree then s[i].addr else v.lfree;
      FreedKeeps(s, i, c.hdr, end);
      MarkTiled(s, i, c.hdr, end, false);
      FreeAtMark(s, i, false, c.hdr, end, l);
      PlugHintKeeps(m, i, l, c.hdr, end);
      MarkAligned(s, i, false, c.align);
      PlugAligned(m, i, c.hdr, c.align);
    }
  }

  // ----- the hint is the lowest free block

  lemma MallocKeepsLowest(v: View, n: nat, c: Config)
    requires Good(v, c) && IsLowest(v.layout, v.lfree, c.End())
    ensures var w := MallocView(v, n, c).0; IsLowest(w.layout, w.lfree, c.End())
  {
    hide Tiled, Coalesced, Aligned, Allocated, FitFrom, LowestFrom, FreeAt;
    var w := MallocView(v, n, c).0;
    MallocKeeps(v, n, c);
    if w != v {
      var s, size, end := v.layout, Room(n, c), c.End();
      var k := FitFrom(s, Start(v, end), size, c.heapSize - size);
      DataInPool(s, c.hdr, end, k);
      BlockIsFree(s, k);
      AllocatedAt(s, k, size, c.hdr, c.MinAligned());
      forall a | FreeAt(w.layout, a)
        ensures w.lfree <= a
      {
        FreeAtAllocated(s, k, size, c.hdr, c.MinAligned(), end, a);
        if s[k].addr == v.lfree { LowestBelow(w.layout, k, v.lfree, c.hdr, end, a); }
      }
    }
  }

  lemma BlockIsFree(s: seq<Block>, k: nat)
    requires k < |s| && !s[k].used
    ensures FreeAt(s, s[k].addr)
  {
  }

  lemma LowestBelow(s: seq<Block>, k: nat, lfree: int, hdr: nat, end: int, a: int)
    requires Tiled(s, hdr, end) && k < |s| && s[k].addr == lfree <= a && FreeAt(s, a)
    ensures LowestFrom(s, k, end) <= a
  {
    var j :| 0 <= j < |s| && s[j].addr == a && !s[j].used;
    if j < k { Ordered(s, hdr, end, j, k); Bounds(s, hdr, end, j); }
    LowestIsLowest(s, k, hdr, end, j);
  }

  lemma FreeKeepsLowest(v: View, p: int, c: Config)
    requires Good(v, c) && MayFree(v, p, c) && IsLowest(v.layout, v.lfree, c.End())
    ensures var w := FreeView(v, p, c); IsLowest(w.layout, w.lfree, c.End())
  {
    hide Tiled, Coalesced, Aligned, FreeAt, PlugHoles;
    FreeKeeps(v, p, c);
    if p != NULL && 0 <= p < c.End() {
      var s, i, end, w := v.layout, Where(v.layout, p - c.hdr), c.End(), FreeView(v, p, c);
      var m, l := Mark(s, i, false), if s[i].addr < v.lfree then s[i].addr else v.lfree;
      MarkTiled(s, i, c.hdr, end, false);
      HintStays(s, i, v.lfree, c.hdr, end);
      forall a | FreeAt(w.layout, a)
        ensures l <= a
      {
        FreeAtPlug(m, i, c.hdr, end, a);
        FreeAtMark(s, i, false, c.hdr, end, a);
      }
    }
  }

  /** A lowest hint is not swallowed by the block being freed. */
  lemma HintStays(s: seq<Block>, i: nat, lfree: int, hdr: nat, end: int)
    requires Tiled(s, hdr, end) && i < |s| && IsLowest(s, lfree, end)
    ensures var l := if s[i].addr < lfree then s[i].addr else lfree; PlugHint(Mark(s, i, false), i, l) == l
  {
    hide Tiled, FreeAt;
    FreeAround(s, i);
    HasHeader(s, hdr, end);
    Adjacent(s, hdr, end, i);
    if i > 0 { Adjacent(s, hdr, end, i - 1); }
  }

  lemma FreeAround(s: seq<Block>, i: nat)
    requires i < |s|
    ensures i > 0 && !s[i - 1].used ==> FreeAt(s, s[i - 1].addr)
    ensures i + 1 < |s| && !s[i + 1].used ==> FreeAt(s, s[i + 1].addr)
  {
  }

  /** rt_realloc cuts block `i` down to `size` bytes without lowering the hint itself. */
  function ShrinkView(v: View, i: nat, size: int, c: Config): View
    requires i < |v.layout|
  {
    View(Shrunk(v.layout, i, size, c.hdr), PlugHint(Split(v.layout, i, size, c.hdr), i + 1, v.lfree))
  }

  lemma FreeAtShrunk(s: seq<Block>, i: nat, size: int, hdr: nat, end: int, a: int)
    requires Tiled(s, hdr, end) && i < |s| && s[i].used && 0 <= size && size + hdr <= s[i].size
    ensures FreeAt(Shrunk(s, i, size, hdr), a) <==>
      || a == s[i].addr + hdr + size
      || (FreeAt(s, a) && !(i + 1 < |s| && !s[i + 1].used && a == s[i + 1].addr))
  {
    hide FreeAt, Tiled, PlugHoles;
    HasHeader(s, hdr, end);
    Adjacent(s, hdr, end, i);
    SplitTiled(s, i, size, hdr, end);
    SplitAt(s, i, size, hdr);
    FreeAtSplit(s, i, size, hdr, a);
    FreeAtPlug(Split(s, i, size, hdr), i + 1, hdr, end, a);
  }

  lemma ShrinkKeeps(v: View, i: nat, size: int, c: Config)
    requires Good(v, c) && i < |v.layout| && v.layout[i].used
    requires 0 <= size && size + c.hdr <= v.layout[i].size && size % c.align == 0
    ensures Good(ShrinkView(v, i, size, c), c)
  {
    hide Tiled, Coalesced, Aligned, FreeAt, PlugHoles;
    var s, end, t := v.layout, c.End(), Split(v.layout, i, size, c.hdr);
    ShrunkKeeps(s, i, size, c.hdr, end);
    SplitTiled(s, i, size, c.hdr, end);
    SplitAligned(s, i, size, c.hdr, c.align);
    SplitAt(s, i, size, c.hdr);
    PlugAligned(t, i + 1, c.hdr, c.align);
    FreeAtSplit(s, i, size, c.hdr, v.lfree);
    PlugHintKeeps(t, i + 1, v.lfree, c.hdr, end);
  }

  /** An in-place shrink keeps the hint lowest exactly if it was below the new free block
      already, or named the free neighbour that the new block swallowed. */
  lemma ShrinkKeepsLowestIff(v: View, i: nat, size: int, c: Config)
    requires Good(v, c) && IsLowest(v.layout, v.lfree, c.End())
    requires i < |v.layout| && v.layout[i].used
    requires 0 <= size && size + c.hdr <= v.layout[i].size && size % c.align == 0
    ensures var w := ShrinkView(v, i, size, c);
      IsLowest(w.layout, w.lfree, c.End()) <==>
        || v.lfree < v.layout[i].addr + c.hdr + size
        || (i + 1 < |v.layout| && !v.layout[i + 1].used && v.lfree == v.layout[i + 1].addr)
  {
    hide Tiled, Coalesced, Aligned, FreeAt, PlugHoles;
    var s, end, w, x := v.layout, c.End(), ShrinkView(v, i, size, c), v.layout[i].addr + c.hdr + size;
    ShrinkKeeps(v, i, size, c);
    SplitAt(s, i, size, c.hdr);
    Adjacent(s, c.hdr, end, i);
    FreeAround(s, i);
    StartsBelowEnd(s, c.hdr, end, i);
    assert w.lfree == if i + 1 < |s| && !s[i + 1].used && v.lfree == s[i + 1].addr then x else v.lfree;
    forall a { FreeAtShrunk(s, i, size, c.hdr, end, a); }
    NotFreeInside(s, i, x, c.hdr, end);
    InsideEnd(s, i, x, c.hdr, end);
  }

  lemma InsideEnd(s: seq<Block>, i: nat, x: int, hdr: nat, end: int)
    requires Tiled(s, hdr, end) && i < |s| && x < s[i].addr + hdr + s[i].size
    ensures x < end
  {
    Bounds(s, hdr, end, i);
  }

  // ----- freeing what was just allocated

  lemma HintRestored(s: seq<Block>, k: nat, size: int, lfree: int, c: Config)
    requires c.Sound() && Tiled(s, c.hdr, c.End()) && Coalesced(s) && k < |s| && !s[k].used && lfree <= s[k].addr
    requires 0 <= size <= s[k].size
    ensures var r := Allocated(s, k, size, c.hdr, c.MinAligned());
      k < |r| && PlugHint(Mark(r, k, false), k, lfree) == lfree
  {
    if k > 0 { assert s[k - 1].used; }
    if k + 1 < |s| { assert s[k + 1].used; }
  }

  /** rt_free of a fresh allocation restores chain, flags and hint. */
  lemma FreeUndoesMalloc(v: View, n: nat, c: Config)
    requires Good(v, c)
    ensures var (w, p) := MallocView(v, n, c);
      p != NULL ==> MayFree(w, p, c) && FreeView(w, p, c) == v
  {
    hide Tiled, Aligned, FitFrom, Freed, Allocated, LowestFrom, Coalesced, Mark, PlugHint;
    var (w, p) := MallocView(v, n, c);
    if p != NULL {
      var s, size, end := v.layout, Room(n, c), c.End();
      var i := Start(v, end);
      var k := FitFrom(s, i, size, c.heapSize - size);
      MallocKeeps(v, n, c);
      AllocatedAt(s, k, size, c.hdr, c.MinAligned());
      SameBlock(w.layout, c.hdr, end, k, Where(w.layout, p - c.hdr));
      DataInPool(s, c.hdr, end, k);
      FreedUndoesAllocated(s, k, size, c.hdr, c.MinAligned());
      LowestSkipsUsed(w.layout, k, c.hdr, end);
      if i < k { Ordered(s, c.hdr, end, i, k); DataInPool(s, c.hdr, end, i); }
      HintRestored(s, k, size, v.lfree, c);
    }
  }

  // ----- rt_realloc

  /** An allocation leaves every allocated block where it was. */
  lemma StillLive(v: View, n: nat, p: int, c: Config)
    requires Good(v, c) && Live(v.layout, c.hdr, p)
    ensures var w := MallocView(v, n, c).0;
      Live(w.layout, c.hdr, p) && w.layout[Where(w.layout, p - c.hdr)] == v.layout[Where(v.layout, p - c.hdr)]
  {
    hide Tiled, Aligned, FitFrom, LowestFrom, Coalesced, Allocated, Shifted;
    var w := MallocView(v, n, c).0;
    if w != v {
      var s, size, end, j := v.layout, Room(n, c), c.End(), Where(v.layout, p - c.hdr);
      var k := FitFrom(s, Start(v, end), size, c.heapSize - size);
      MallocKeeps(v, n, c);
      OthersStay(s, k, size, c.hdr, c.MinAligned(), j);
      SameBlock(w.layout, c.hdr, end, Shifted(s, k, size, c.hdr, c.MinAligned(), j), Where(w.layout, p - c.hdr));
    }
  }

  ghost function ReallocView(v: View, p: int, n: nat, c: Config): (View, int)
    requires Good(v, c) && MayFree(v, p, c)
  {
    var size := AlignUp(n, c.align);
    if size > c.heapSize then (v, NULL)
    else if size == 0 then (FreeView(v, p, c), NULL)
    else if p == NULL then MallocView(v, size, c)
    else if p < 0 || p >= c.End() then (v, p)
    else
      var s, i := v.layout, Where(v.layout, p - c.hdr);
      if s[i].size == size then (v, p)
      else if size + c.hdr + c.minSize < s[i].size then (ShrinkView(v, i, size, c), p)
      else
        var (w, q) := MallocView(v, size, c);
        StillLive(v, size, p, c);
        if q == NULL then (v, NULL) else (FreeView(w, p, c), q)
  }

  lemma MoveKeeps(v: View, p: int, size: nat, c: Config)
    requires Good(v, c) && Live(v.layout, c.hdr, p)
    ensures var w := MallocView(v, size, c).0; MayFree(w, p, c) && Good(FreeView(w, p, c), c)
  {
    hide Good, MallocView, FreeView, Where;
    MallocKeeps(v, size, c);
    StillLive(v, size, p, c);
    FreeKeeps(MallocView(v, size, c).0, p, c);
  }

  lemma CutKeeps(v: View, p: int, n: nat, c: Config)
    requires Good(v, c) && Live(v.layout, c.hdr, p)
    ensures var i, size := Where(v.layout, p - c.hdr), AlignUp(n, c.align);
      size + c.hdr + c.minSize < v.layout[i].size ==> Good(ShrinkView(v, i, size, c), c)
  {
    hide Good, ShrinkView, Where, AlignUp;
    GoodAlign(v, c);
    var i, size := Where(v.layout, p - c.hdr), AlignUp(n, c.align);
    AlignUpAligned(n, c.align);
    if size + c.hdr + c.minSize < v.layout[i].size { ShrinkKeeps(v, i, size, c); }
  }

  lemma ReallocKeeps(v: View, p: int, n: nat, c: Config)
    requires Good(v, c) && MayFree(v, p, c)
    ensures Good(ReallocView(v, p, n, c).0, c)
  {
    hide Good, MallocView, FreeView, ShrinkView, AlignUp, Live, Where;
    GoodAlign(v, c);
    var size := AlignUp(n, c.align);
    if size == 0 {
      FreeKeeps(v, p, c);
    } else if p == NULL {
      MallocKeeps(v, size, c);
    } else if 0 <= p < c.End() {
      CutKeeps(v, p, n, c);
      MoveKeeps(v, p, size, c);
    }
  }

  lemma GoodAlign(v: View, c: Config)
    requires Good(v, c)
    ensures c.align > 0
  {
  }

  // ----- what the caller gets

  /** An allocation changes nothing, or adds one block that holds the request and no more than
      could not be split off. */
  lemma MallocGives(v: View, n: nat, c: Config)
    requires Good(v, c)
    ensures var (w, q) := MallocView(v, n, c);
      && (q == NULL ==> w == v)
      && (q != NULL ==> exists b: Block ::
            && b.used && b.addr + c.hdr == q && n <= b.size
            && Room(n, c) <= b.size < Room(n, c) + c.hdr + c.MinAligned()
            && Used(w.layout) == Used(v.layout) + multiset{b})
  {
    hide Good, Allocated, FitFrom, LowestFrom, Used, AlignUp, Tiled, Config.MinAligned;
    GoodAlign(v, c);
    GoodHint(v, c);
    var (w, q) := MallocView(v, n, c);
    var s, size, mini := v.layout, Room(n, c), c.MinAligned();
    var k := FitFrom(s, Start(v, c.End()), size, c.heapSize - size);
    if n != 0 && AlignUp(n, c.align) <= c.heapSize && k < |s| {
      DataInPool(s, c.hdr, c.End(), k);
      UsedAllocated(s, k, size, c.hdr, mini);
      var b := HandedOut(s, k, size, c.hdr, mini);
      assert b.addr + c.hdr == q && b.used;
    }
  }

  lemma GoodHint(v: View, c: Config)
    requires Good(v, c)
    ensures Tiled(v.layout, c.hdr, c.End()) && IsHint(v.layout, v.lfree, c.End()) && c.hdr > 0
  {
  }

  /** A live pointer as rt_free and rt_realloc accept it. */
  ghost predicate Held(v: View, p: int, c: Config) {
    Live(v.layout, c.hdr, p) && p < c.End()
  }

  lemma HeldParts(v: View, p: int, c: Config)
    requires Good(v, c) && Held(v, p, c)
    ensures 0 <= p && p != NULL && MayFree(v, p, c) && c.align > 0
  {
    DataInPool(v.layout, c.hdr, c.End(), Where(v.layout, p - c.hdr));
  }

  /** A release takes away the block at `p` and nothing else. */
  lemma FreeGives(v: View, p: int, c: Config)
    requires Good(v, c) && Held(v, p, c)
    ensures MayFree(v, p, c)
    ensures var w, b := FreeView(v, p, c), v.layout[Where(v.layout, p - c.hdr)];
      && Used(w.layout) + multiset{b} == Used(v.layout)
      && forall x :: x in Used(w.layout) ==> x.addr + c.hdr != p
  {
    hide Coalesced, Aligned, Used, Freed, Tiled;
    HeldParts(v, p, c);
    var s, i := v.layout, Where(v.layout, p - c.hdr);
    UsedFreed(s, i, c.hdr);
    AddressGone(s, c.hdr, c.End(), Used(Freed(s, i, c.hdr)), s[i]);
  }

  /** The block `b` has been exchanged for one at `q` that holds `n` bytes, and nothing else has. */
  ghost predicate Exchanged(v: View, w: View, b: Block, q: int, n: nat, most: int, c: Config) {
    exists d: Block ::
      && d.used && d.addr + c.hdr == q && n <= d.size <= most
      && Used(w.layout) + multiset{b} == Used(v.layout) + multiset{d}
  }

  lemma ExchangedFor(v: View, w: View, b: Block, d: Block, q: int, n: nat, most: int, c: Config)
    requires d.used && d.addr + c.hdr == q && n <= d.size <= most
    requires Used(w.layout) + multiset{b} == Used(v.layout) + multiset{d}
    ensures Exchanged(v, w, b, q, n, most, c)
  {
  }

  /** rt_realloc of a live block to a size that passes the check leaves everything as it was, or
      exchanges the old block for one that holds the new size, at the old address or at another. */
  lemma ReallocGives(v: View, p: int, n: nat, c: Config)
    requires Good(v, c) && Held(v, p, c) && 0 < AlignUp(n, c.align) <= c.heapSize
    ensures MayFree(v, p, c)
    ensures var (w, q) := ReallocView(v, p, n, c);
      var b, most := v.layout[Where(v.layout, p - c.hdr)], Room(AlignUp(n, c.align), c) + c.hdr + c.MinAligned();
      (q == NULL ==> w == v) && (q != NULL ==> Exchanged(v, w, b, q, n, most, c))
  {
    hide Good, Shrunk, MallocView, FreeView, Used, Exchanged, AlignUp;
    HeldParts(v, p, c);
    var s, i, size := v.layout, Where(v.layout, p - c.hdr), AlignUp(n, c.align);
    var most := Room(size, c) + c.hdr + c.MinAligned();
    if s[i].size == size {
      ExchangedFor(v, v, s[i], s[i], p, n, most, c);
    } else if size + c.hdr + c.minSize < s[i].size {
      UsedShrunk(s, i, size, c.hdr);
      ExchangedFor(v, ShrinkView(v, i, size, c), s[i], Block(s[i].addr, size, true), p, n, most, c);
    } else {
      MoveGives(v, p, n, size, c);
    }
  }

  lemma MoveGives(v: View, p: int, n: nat, size: nat, c: Config)
    requires Good(v, c) && Held(v, p, c) && n <= size
    ensures var (w, q) := MallocView(v, size, c);
      var b, most := v.layout[Where(v.layout, p - c.hdr)], Room(size, c) + c.hdr + c.MinAligned();
      MayFree(w, p, c) && (q == NULL ==> w == v) && (q != NULL ==> Exchanged(v, FreeView(w, p, c), b, q, n, most, c))
  {
    hide Good, MallocView, FreeView, Used, Exchanged, AlignUp, Room;
    HeldParts(v, p, c);
    var (w, q) := MallocView(v, size, c);
    var most := Room(size, c) + c.hdr + c.MinAligned();
    StillLive(v, size, p, c);
    MallocKeeps(v, size, c);
    MallocGives(v, size, c);
    FreeGives(w, p, c);
    if q != NULL {
      var d: Block :| d.used && d.addr + c.hdr == q && size <= d.size
        && Room(size, c) <= d.size < most && Used(w.layout) == Used(v.layout) + multiset{d};
      ExchangedFor(v, FreeView(w, p, c), v.layout[Where(v.layout, p - c.hdr)], d, q, n, most, c);
    }
  }

  /** A block that has moved has left its old address. */
  lemma MovedAway(v: View, p: int, n: nat, c: Config)
    requires Good(v, c) && Held(v, p, c) && 0 < AlignUp(n, c.align) <= c.heapSize
    ensures MayFree(v, p, c)
    ensures var (w, q) := ReallocView(v, p, n, c);
      q != NULL && q != p ==> forall x :: x in Used(w.layout) ==> x.addr + c.hdr != p
  {
    hide Good, ShrinkView, MallocView, FreeView, Used, AlignUp;
    HeldParts(v, p, c);
    var size := AlignUp(n, c.align);
    StillLive(v, size, p, c);
    MallocKeeps(v, size, c);
    FreeGives(MallocView(v, size, c).0, p, c);
  }

  /** It returns null exactly if the size is neither that of the block nor small enough to cut it
      down, and no block could serve an allocation. */
  lemma ReallocFailsIff(v: View, p: int, n: nat, c: Config)
    requires Good(v, c) && Held(v, p, c) && 0 < AlignUp(n, c.align) <= c.heapSize
    ensures MayFree(v, p, c)
    ensures var b, size := v.layout[Where(v.layout, p - c.hdr)], AlignUp(n, c.align);
      ReallocView(v, p, n, c).1 == NULL <==>
        size != b.size && size + c.hdr + c.minSize >= b.size && forall a :: !Serves(v, a, Room(size, c), c)
  {
    HeldParts(v, p, c);
    var size := AlignUp(n, c.align);
    AlignUpAligned(n, c.align);
    AlignUpIff(size, c.align);
    MallocIsFirstFit(v, size, c);
    hide Good, ShrinkView, MallocView, FreeView, Serves, AlignUp, Room;
  }

  /** One block at `q` that holds `n` bytes has been added, and nothing else has changed. */
  ghost predicate Gained(v: View, w: View, q: int, n: nat, c: Config) {
    exists b: Block ::
      b.used && b.addr + c.hdr == q && n <= b.size && Used(w.layout) == Used(v.layout) + multiset{b}
  }

  /** A size of 0 frees the block, one beyond the heap changes nothing, a null pointer makes it an
      allocation, and a pointer from outside the heap is handed back. */
  lemma ReallocEnds(v: View, p: int, n: nat, c: Config)
    requires Good(v, c) && MayFree(v, p, c)
    ensures var (w, q) := ReallocView(v, p, n, c);
      && (n == 0 ==> q == NULL)
      && (n == 0 && Held(v, p, c) ==>
            Used(w.layout) + multiset{v.layout[Where(v.layout, p - c.hdr)]} == Used(v.layout))
      && (AlignUp(n, c.align) > c.heapSize ==> (w, q) == (v, NULL))
      && (p == NULL && q == NULL ==> w == v)
      && (p == NULL && q != NULL ==> Gained(v, w, q, n, c))
      && (p != NULL && (p < 0 || p >= c.End()) ==> w == v && (q == NULL || q == p))
  {
    hide Good, ShrinkView, MallocView, FreeView, Used, AlignUp, Room, Gained, MayFree;
    GoodAlign(v, c);
    NothingAligned(c.align);
    MallocGains(v, AlignUp(n, c.align), n, c);
    if Held(v, p, c) { HeldParts(v, p, c); FreeGives(v, p, c); }
    FreeOutside(v, p, c);
  }

  lemma MallocGains(v: View, size: nat, n: nat, c: Config)
    requires Good(v, c) && n <= size
    ensures var (w, q) := MallocView(v, size, c); (q == NULL ==> w == v) && (q != NULL ==> Gained(v, w, q, n, c))
  {
    hide Good, MallocView, Used, Room;
    MallocGives(v, size, c);
  }

  lemma FreeOutside(v: View, p: int, c: Config)
    requires MayFree(v, p, c)
    ensures p == NULL || p < 0 || p >= c.End() ==> FreeView(v, p, c) == v
  {
  }

  /** No allocated block is empty; then every live pointer lies inside the heap. */
  ghost predicate NoEmpty(v: View) {
    forall b :: b in Used(v.layout) ==> b.size > 0
  }

  lemma LiveIsHeld(v: View, p: int, c: Config)
    requires Good(v, c) && NoEmpty(v) && Live(v.layout, c.hdr, p)
    ensures Held(v, p, c)
  {
    var i := Where(v.layout, p - c.hdr);
    DataInPool(v.layout, c.hdr, c.End(), i);
    UsedMember(v.layout, v.layout[i]);
  }

  lemma StepNoEmpty(v: View, op: Op, c: Config)
    requires Good(v, c) && NoEmpty(v)
    ensures NoEmpty(Step(v, op, c))
  {
    hide Good, MallocView, FreeView, ReallocView, Used, AlignUp, Live, Room;
    match op
    case MallocOp(n) => MallocNoEmpty(v, n, c);
    case FreeOp(p) => if MayFree(v, p, c) { FreeNoEmpty(v, p, c); }
    case ReallocOp(p, n) => if MayFree(v, p, c) { ReallocNoEmpty(v, p, n, c); }
  }

  lemma MallocNothing(v: View, c: Config)
    requires Good(v, c)
    ensures MallocView(v, 0, c) == (v, NULL)
  {
  }

  lemma FreeNoEmpty(v: View, p: int, c: Config)
    requires Good(v, c) && NoEmpty(v) && MayFree(v, p, c)
    ensures NoEmpty(FreeView(v, p, c))
  {
    hide Good, Used;
    if Live(v.layout, c.hdr, p) {
      LiveIsHeld(v, p, c);
      FreeGives(v, p, c);
      hide FreeView;
      var b, w := v.layout[Where(v.layout, p - c.hdr)], FreeView(v, p, c);
      forall x | x in Used(w.layout) ensures x.size > 0 { assert x in Used(w.layout) + multiset{b}; }
    }
  }

  lemma MallocNoEmpty(v: View, n: nat, c: Config)
    requires Good(v, c) && NoEmpty(v)
    ensures NoEmpty(MallocView(v, n, c).0)
  {
    hide Good, MallocView, Used, Room;
    MallocGives(v, n, c);
    MallocNothing(v, c);
  }

  lemma ExchangedNoEmpty(v: View, w: View, b: Block, q: int, n: nat, most: int, c: Config)
    requires NoEmpty(v) && n > 0 && Exchanged(v, w, b, q, n, most, c)
    ensures NoEmpty(w)
  {
    hide Used;
    forall x | x in Used(w.layout) ensures x.size > 0 { assert x in Used(w.layout) + multiset{b}; }
  }

  lemma ReallocNoEmpty(v: View, p: int, n: nat, c: Config)
    requires Good(v, c) && NoEmpty(v) && MayFree(v, p, c)
    ensures NoEmpty(ReallocView(v, p, n, c).0)
  {
    hide Good, Used, NoEmpty, Exchanged, MallocView, FreeView, ShrinkView, AlignUp, Room;
    GoodAlign(v, c);
    var size := AlignUp(n, c.align);
    NothingAligned(c.align);
    FreeNoEmpty(v, p, c);
    MallocNoEmpty(v, size, c);
    if Live(v.layout, c.hdr, p) && 0 < size <= c.heapSize {
      LiveIsHeld(v, p, c);
      ReallocGives(v, p, n, c);
      var (w, q) := ReallocView(v, p, n, c);
      var most := Room(size, c) + c.hdr + c.MinAligned();
      if q != NULL { ExchangedNoEmpty(v, w, v.layout[Where(v.layout, p - c.hdr)], q, n, most, c); }
    }
  }

  lemma NothingAligned(align: nat)
    requires align > 0
    ensures AlignUp(0, align) == 0
  {
    AlignUpAligned(0, align);
  }

  /** In every run from a heap without empty blocks, such as a fresh one, every live pointer lies
      inside the heap. */
  lemma {:induction false} EveryRunHeld(ops: seq<Op>, trace: seq<View>, c: Config)
    requires |trace| == |ops| + 1 && Good(trace[0], c) && NoEmpty(trace[0])
    requires forall k :: 0 <= k < |ops| ==> Good(trace[k], c) ==> trace[k + 1] == Step(trace[k], ops[k], c)
    ensures forall k, p :: 0 <= k < |trace| && Live(trace[k].layout, c.hdr, p) ==> Held(trace[k], p, c)
  {
    hide Good, Step, NoEmpty, Live, Held;
    if ops == [] {
      forall p | Live(trace[0].layout, c.hdr, p) ensures Held(trace[0], p, c) { LiveIsHeld(trace[0], p, c); }
    } else {
      StepKeeps(trace[0], ops[0], c);
      StepNoEmpty(trace[0], ops[0], c);
      EveryRunHeld(ops[1..], trace[1..], c);
      assert forall k :: 1 <= k < |trace| ==> trace[k] == trace[1..][k - 1];
      forall p | Live(trace[0].layout, c.hdr, p) ensures Held(trace[0], p, c) { LiveIsHeld(trace[0], p, c); }
    }
  }

  // ----- a run that leaves the hint too high

  /** 200 bytes behind 12-byte headers: as set up, and after allocations of 32 and of 12 bytes. */
  const Small := Config(12, 4, 12, 200)
  const Small0 := View([Block(0, 200, false)], 0)
  const Small1 := View([Block(0, 32, true), Block(44, 156, false)], 44)
  const Small2 := View([Block(0, 32, true), Block(44, 12, true), Block(68, 132, false)], 68)

  lemma SmallIsGood()
    ensures Good(Small0, Small) && IsLowest(Small0.layout, Small0.lfree, Small.End())
  {
    assert Fits(Small0.layout, 0, 12, 212);
    assert Small0.layout[0].addr == 0;
  }

  lemma SmallFirst()
    requires Good(Small0, Small)
    ensures MallocView(Small0, 32, Small) == (Small1, 12)
  {
    hide Good;
    var s := Small0.layout;
    assert Room(32, Small) == 32 && FitFrom(s, 0, 32, 168) == 0;
    var r := Allocated(s, 0, 32, 12, 12);
    assert r == Small1.layout;
    assert LowestFrom(r, 1, 212) == 44 && LowestFrom(r, 0, 212) == 44;
  }

  lemma SmallSecond()
    requires Good(Small1, Small)
    ensures MallocView(Small1, 12, Small) == (Small2, 56)
  {
    hide Good;
    var s := Small1.layout;
    assert Room(12, Small) == 12 && FitFrom(s, 1, 12, 188) == 1;
    assert s[1].addr == 44 && Start(Small1, 212) == 1;
    var r := Allocated(s, 1, 12, 12, 12);
    assert r == Small2.layout;
    assert LowestFrom(r, 2, 212) == 68 && LowestFrom(r, 1, 212) == 68;
  }

  /** A fresh heap does not hand out all its bytes. */
  lemma SmallRefusesAll()
    requires Good(Small0, Small)
    ensures MallocView(Small0, 200, Small) == (Small0, NULL) && Fitting(Small0, 0, Room(200, Small))
  {
    hide Good;
    assert Room(200, Small) == 200 && FitFrom(Small0.layout, 0, 200, 0) == 1;
  }

  /** The heap after the first block has been cut down to 4 bytes, and after an allocation of 120
      bytes that takes the last free block behind the hint. */
  const Small3 := View([Block(0, 4, true), Block(16, 16, false), Block(44, 12, true), Block(68, 132, false)], 68)
  const Small4 := View([Block(0, 4, true), Block(16, 16, false), Block(44, 12, true), Block(68, 132, true)], 212)

  /** From a fresh heap two allocations and one shrink, the last by rt_realloc itself, lead to a
      free block below the hint. */
  lemma ShrinkCanMissLowest()
    ensures Good(Small0, Small) && IsLowest(Small0.layout, Small0.lfree, Small.End())
    ensures MallocView(Small0, 32, Small) == (Small1, 12)
    ensures Good(Small1, Small) && MallocView(Small1, 12, Small) == (Small2, 56)
    ensures Good(Small2, Small) && IsLowest(Small2.layout, Small2.lfree, Small.End()) && MayFree(Small2, 12, Small)
    ensures var (w, q) := ReallocView(Small2, 12, 4, Small);
      q == 12 && Good(w, Small) && !IsLowest(w.layout, w.lfree, Small.End())
  {
    SmallIsGood();
    hide Good, IsLowest, MallocView, ShrinkView;
    SmallFirst();
    MallocKeeps(Small0, 32, Small);
    MallocKeepsLowest(Small0, 32, Small);
    SmallSecond();
    MallocKeeps(Small1, 12, Small);
    MallocKeepsLowest(Small1, 12, Small);
    var s := Small2.layout;
    assert s[0].addr == 0 && HasBlock(s, 0) && Where(s, 12 - 12) == 0;
    ShrinkKeepsLowestIff(Small2, 0, 4, Small);
    ReallocKeeps(Small2, 12, 4, Small);
  }

  lemma SmallThird()
    requires Good(Small2, Small) && MayFree(Small2, 12, Small)
    ensures ReallocView(Small2, 12, 4, Small) == (Small3, 12)
  {
    hide Good;
    var s := Small2.layout;
    assert s[0].addr == 0 && HasBlock(s, 0) && Where(s, 12 - 12) == 0;
    assert Split(s, 0, 4, 12) == Small3.layout;
  }

  lemma SmallFourth()
    requires Good(Small3, Small)
    ensures MallocView(Small3, 120, Small) == (Small4, 80)
  {
    hide Good;
    var s := Small3.layout;
    assert Room(120, Small) == 120 && FitFrom(s, 3, 120, 80) == 3;
    assert s[3].addr == 68 && Start(Small3, 212) == 3;
    var r := Allocated(s, 3, 120, 12, 12);
    assert r == Small4.layout;
    assert LowestFrom(r, 4, 212) == 212 && LowestFrom(r, 3, 212) == 212;
  }

  lemma SmallFifth()
    requires Good(Small4, Small)
    ensures MallocView(Small4, 12, Small) == (Small4, NULL)
  {
    hide Good;
    assert Room(12, Small) == 12 && Start(Small4, 212) == 4 && FitFrom(Small4.layout, 4, 12, 188) == 4;
  }

  /** From a fresh heap malloc 32, malloc 12, realloc of the first to 4, malloc 120 and malloc 12:
      the last call fails although a free block of 16 bytes lies below the hint, away from the
      end of the heap. */
  lemma HintHidesBlock()
    ensures Good(Small0, Small) && MallocView(Small0, 32, Small) == (Small1, 12)
    ensures Good(Small1, Small) && MallocView(Small1, 12, Small) == (Small2, 56)
    ensures Good(Small2, Small) && MayFree(Small2, 12, Small) && ReallocView(Small2, 12, 4, Small) == (Small3, 12)
    ensures Good(Small3, Small) && MallocView(Small3, 120, Small) == (Small4, 80)
    ensures Good(Small4, Small) && MallocView(Small4, 12, Small) == (Small4, NULL)
    ensures Fitting(Small4, 1, Room(12, Small)) && !EndFit(Small4, 1, Room(12, Small), Small)
  {
    hide Good, IsLowest, MallocView, ReallocView;
    ShrinkCanMissLowest();
    SmallThird();
    SmallFourth();
    MallocKeeps(Small3, 120, Small);
    SmallFifth();
  }

  // ----- runs

  datatype Op = MallocOp(n: nat) | FreeOp(p: int) | ReallocOp(p: int, n: nat)

  /** One call; a call on a pointer that is neither null, outside the heap nor allocated is
      left out of a run. */
  ghost function Step(v: View, op: Op, c: Config): View
    requires Good(v, c)
  {
    match op
    case MallocOp(n) => MallocView(v, n, c).0
    case FreeOp(p) => if MayFree(v, p, c) then FreeView(v, p, c) else v
    case ReallocOp(p, n) => if MayFree(v, p, c) then ReallocView(v, p, n, c).0 else v
  }

  lemma StepKeeps(v: View, op: Op, c: Config)
    requires Good(v, c)
    ensures Good(Step(v, op, c), c)
  {
    hide Good, MallocView, FreeView, ReallocView;
    match op
    case MallocOp(n) => MallocKeeps(v, n, c);
    case FreeOp(p) => if MayFree(v, p, c) { FreeKeeps(v, p, c); }
    case ReallocOp(p, n) => if MayFree(v, p, c) { ReallocKeeps(v, p, n, c); }
  }

  /** In every state reachable from a good one the chain tiles the heap with aligned offsets, no
      two free blocks touch, the hint is the sentinel or a free block, and the footprints of
      used and free blocks add up to the whole heap. */
  lemma {:induction false} EveryRun(v: View, ops: seq<Op>, trace: seq<View>, c: Config)
    requires Good(v, c)
    requires |trace| == |ops| + 1 && trace[0] == v
    requires forall k :: 0 <= k < |ops| ==> Good(trace[k], c) ==> trace[k + 1] == Step(trace[k], ops[k], c)
    ensures forall k :: 0 <= k < |trace| ==> Good(trace[k], c)
    ensures forall k :: 0 <= k < |trace| ==>
      Footprint(trace[k].layout, c.hdr, true) + Footprint(trace[k].layout, c.hdr, false) == c.heapSize + c.hdr
  {
    hide Good, Step, Footprint;
    Filled(v, c);
    var k := 0;
    while k < |ops|
      invariant 0 <= k <= |ops|
      invariant forall j :: 0 <= j <= k ==> Good(trace[j], c)
      invariant forall j :: 0 <= j <= k ==>
        Footprint(trace[j].layout, c.hdr, true) + Footprint(trace[j].layout, c.hdr, false) == c.heapSize + c.hdr
    {
      StepKeeps(trace[k], ops[k], c);
      assert trace[k + 1] == Step(trace[k], ops[k], c);
      Filled(trace[k + 1], c);
      k := k + 1;
    }
  }

  lemma Filled(v: View, c: Config)
    requires Good(v, c)
    ensures Footprint(v.layout, c.hdr, true) + Footprint(v.layout, c.hdr, false) == c.heapSize + c.hdr
  {
    FootprintsFillPool(v.layout, c.hdr, c.End(), |v.layout|);
  }
}
