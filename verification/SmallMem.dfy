/** mem.c: one chain of headers through the heap, linked by offsets, with a hint at the
    lowest free block and running statistics. Every header field is a map keyed by the
    header's offset. */
module SmallMems {
  import opened Basics
  import Rings
  import opened HeapLayout
  import opened HeapOps
  import opened HeapData
  import opened HeapAlign
  import opened SmallMemViews
  import opened HeapPlaces
  import opened MemCopy

  ghost predicate InChain(next: map<int, int>, prev: map<int, int>, s: seq<Block>, i: nat, end: int)
    requires i < |s|
  {
    && s[i].addr in next && next[s[i].addr] == NextAddr(s, i, end)
    && s[i].addr in prev && prev[s[i].addr] == if i > 0 then s[i - 1].addr else 0
  }

  ghost predicate Follows(next: map<int, int>, prev: map<int, int>, s: seq<Block>, end: int) {
    && end in next && next[end] == end
    && forall i :: 0 <= i < |s| ==> InChain(next, prev, s, i, end)
  }

  /** The prev fields once `x` stands between `a` and `after`; the sentinel's is left alone. */
  function Relinked(prev: map<int, int>, a: int, x: int, after: int, end: int): map<int, int> {
    if after != end then prev[x := a][after := x] else prev[x := a]
  }

  /** The headers present are those of the layout and the sentinel; `next` and `prev` follow
      the layout, except that the sentinel's `prev` may hold anything. */
  ghost predicate Chain(next: map<int, int>, prev: map<int, int>, used: map<int, bool>, s: seq<Block>, hdr: nat,
                        end: int) {
    && Tiled(s, hdr, end)
    && next.Keys == prev.Keys == used.Keys == Headers(s, end)
    && Flags(used, s, end)
    && Follows(next, prev, s, end)
  }

  lemma ChainAt(next: map<int, int>, prev: map<int, int>, used: map<int, bool>, s: seq<Block>, hdr: nat, end: int,
                i: nat)
    requires Chain(next, prev, used, s, hdr, end) && i < |s|
    ensures s[i].addr in next && next[s[i].addr] == NextAddr(s, i, end)
    ensures s[i].addr in prev && prev[s[i].addr] == if i > 0 then s[i - 1].addr else 0
    ensures s[i].addr in used && used[s[i].addr] == s[i].used
    ensures NextAddr(s, i, end) in next && NextAddr(s, i, end) in prev
    ensures NextAddr(s, i, end) in used && used[NextAddr(s, i, end)] == (i + 1 < |s| ==> s[i + 1].used)
    ensures prev[s[i].addr] in next && prev[s[i].addr] in used
    ensures i > 0 ==> used[prev[s[i].addr]] == s[i - 1].used && prev[s[i].addr] < s[i].addr
    ensures i == 0 ==> prev[s[i].addr] == s[i].addr
    ensures 0 <= s[i].addr && s[i].addr + hdr + s[i].size == NextAddr(s, i, end) <= end && s[i].size >= 0 && hdr > 0
    ensures NextAddr(s, i, end) == end <==> i + 1 == |s|
  {
    assert InChain(next, prev, s, i, end);
    Bounds(s, hdr, end, i);
    assert end in next.Keys;
    if i > 0 {
      assert InChain(next, prev, s, i - 1, end);
      Adjacent(s, hdr, end, i - 1);
      assert s[i - 1].addr in next.Keys;
    }
    if i + 1 < |s| {
      assert InChain(next, prev, s, i + 1, end);
      Bounds(s, hdr, end, i + 1);
      assert s[i + 1].addr in next.Keys;
    }
  }

  /** A new header `x` inside block `i`. */
  lemma SplitChain(next: map<int, int>, prev: map<int, int>, used: map<int, bool>,
                   s: seq<Block>, i: nat, size: int, hdr: nat, end: int)
    requires Chain(next, prev, used, s, hdr, end)
    requires i < |s| && 0 <= size && size + hdr <= s[i].size
    ensures s[i].addr in next
    ensures var x := s[i].addr + hdr + size; 0 <= x && x + hdr <= s[i].addr + hdr + s[i].size <= end
    ensures var a, x := s[i].addr, s[i].addr + hdr + size;
      Chain(next[x := next[a]][a := x], Relinked(prev, a, x, next[a], end), used[x := false],
            Split(s, i, size, hdr), hdr, end)
  {
    hide Tiled, Flags, Headers, Split, Marks, Follows;
    ChainAt(next, prev, used, s, hdr, end, i);
    var a, x := s[i].addr, s[i].addr + hdr + size;
    SplitMarks(s, i, size, hdr, end);
    SplitFlags(used, s, i, size, hdr, end);
    SplitFollows(next, prev, s, i, size, hdr, end);
    assert next[x := next[a]][a := x].Keys == next.Keys + {x};
    assert Relinked(prev, a, x, next[a], end).Keys == prev.Keys + {x};
  }

  lemma SplitFollows(next: map<int, int>, prev: map<int, int>, s: seq<Block>, i: nat, size: int, hdr: nat, end: int)
    requires Tiled(s, hdr, end) && Follows(next, prev, s, end)
    requires i < |s| && 0 <= size && size + hdr <= s[i].size && s[i].addr + hdr + size !in Marks(s, end)
    ensures s[i].addr in next
    ensures var a, x, r := s[i].addr, s[i].addr + hdr + size, Split(s, i, size, hdr);
      Follows(next[x := next[a]][a := x], Relinked(prev, a, x, next[a], end), r, end)
  {
    var a, x, r, m := s[i].addr, s[i].addr + hdr + size, Split(s, i, size, hdr), Marks(s, end);
    assert InChain(next, prev, s, i, end);
    MarksDistinct(s, hdr, end);
    var n, p := next[x := next[a]][a := x], Relinked(prev, a, x, next[a], end);
    assert m[|s|] == end && m[i] != m[|s|];
    forall j | 0 <= j < |r|
      ensures InChain(n, p, r, j, end)
    {
      if j != i + 1 {
        var k := if j <= i then j else j - 1;
        assert InChain(next, prev, s, k, end);
        assert m[k] == s[k].addr == r[j].addr;
        if k != i { assert m[k] != m[i]; }
        if k != i + 1 { assert m[k] != m[i + 1]; }
      }
    }
  }

  /** The header `b` behind `a` is unlinked. */
  lemma MergeChain(next: map<int, int>, prev: map<int, int>, used: map<int, bool>, s: seq<Block>, i: nat, hdr: nat,
                   end: int)
    requires Chain(next, prev, used, s, hdr, end) && i + 1 < |s|
    ensures s[i + 1].addr in next
    ensures var a, b := s[i].addr, s[i + 1].addr;
      Chain(next[a := next[b]] - {b}, prev[next[b] := a] - {b}, used - {b}, Merge(s, i, hdr), hdr, end)
  {
    hide Tiled, Flags, Headers, Merge, Marks, Follows, Rings.Distinct;
    ChainAt(next, prev, used, s, hdr, end, i);
    ChainAt(next, prev, used, s, hdr, end, i + 1);
    var a, b := s[i].addr, s[i + 1].addr;
    MergeMarks(s, i, hdr, end);
    MarksDistinct(s, hdr, end);
    MergeFlags(used, s, i, hdr, end);
    MergeFollows(next, prev, s, i, hdr, end);
    assert (next[a := next[b]] - {b}).Keys == next.Keys - {b};
    assert (prev[next[b] := a] - {b}).Keys == prev.Keys - {b};
  }

  lemma MergeFollows(next: map<int, int>, prev: map<int, int>, s: seq<Block>, i: nat, hdr: nat, end: int)
    requires Tiled(s, hdr, end) && Follows(next, prev, s, end) && i + 1 < |s|
    ensures s[i + 1].addr in next
    ensures var a, b, r := s[i].addr, s[i + 1].addr, Merge(s, i, hdr);
      Follows(next[a := next[b]] - {b}, prev[next[b] := a] - {b}, r, end)
  {
    var a, b, r, m := s[i].addr, s[i + 1].addr, Merge(s, i, hdr), Marks(s, end);
    assert InChain(next, prev, s, i + 1, end);
    MarksDistinct(s, hdr, end);
    var n, p := next[a := next[b]] - {b}, prev[next[b] := a] - {b};
    assert m[|s|] == end && m[i] != m[|s|] && m[i + 1] != m[|s|];
    assert m[i] == a && m[i + 1] == b && m[i + 2] == next[b] && m[i + 1] != m[i + 2];
    forall j | 0 <= j < |r|
      ensures InChain(n, p, r, j, end)
    {
      var k := if j <= i then j else j + 1;
      assert InChain(next, prev, s, k, end);
      assert m[k] == s[k].addr == r[j].addr && m[k] != m[i + 1];
      if k != i { assert m[k] != m[i]; }
      if k != i + 2 { assert m[k] != m[i + 2]; }
    }
  }

  lemma MarkChain(next: map<int, int>, prev: map<int, int>, used: map<int, bool>, s: seq<Block>, i: nat, flag: bool,
                  hdr: nat, end: int)
    requires Chain(next, prev, used, s, hdr, end) && i < |s|
    ensures Chain(next, prev, used[s[i].addr := flag], Mark(s, i, flag), hdr, end)
  {
    hide Tiled, Flags, Headers, Mark, Follows, Marks, Rings.Distinct;
    ChainAt(next, prev, used, s, hdr, end, i);
    MarkTiled(s, i, hdr, end, flag);
    MarkHeaders(s, i, end, flag);
    MarksDistinct(s, hdr, end);
    MarkFlags(used, s, i, flag, end);
    MarkFollows(next, prev, s, i, flag, end);
    assert used[s[i].addr := flag].Keys == used.Keys;
  }

  lemma MarkFollows(next: map<int, int>, prev: map<int, int>, s: seq<Block>, i: nat, flag: bool, end: int)
    requires Follows(next, prev, s, end) && i < |s|
    ensures Follows(next, prev, Mark(s, i, flag), end)
  {
    forall j | 0 <= j < |s| ensures InChain(next, prev, Mark(s, i, flag), j, end) {
      assert InChain(next, prev, s, j, end);
    }
  }

  lemma GoodParts(v: View, c: Config)
    requires Good(v, c)
    ensures c.Sound() && IsHint(v.layout, v.lfree, c.End())
  {
  }

  lemma LinksTile(next: map<int, int>, prev: map<int, int>, used: map<int, bool>, s: seq<Block>, hdr: nat, end: int)
    requires Chain(next, prev, used, s, hdr, end)
    ensures Tiled(s, hdr, end)
  {
  }

  /** A block found for a request was free, large enough, and apart from block `i`. */
  lemma MallocRoom(v: View, n: nat, c: Config, i: nat)
    requires Good(v, c) && i < |v.layout| && v.layout[i].used
    ensures MallocView(v, n, c).1 == NULL ==> MallocView(v, n, c).0 == v
    ensures var q := MallocView(v, n, c).1;
      q != NULL ==>
        && q != v.layout[i].addr + c.hdr
        && HasBlock(v.layout, q - c.hdr)
        && var b := v.layout[Where(v.layout, q - c.hdr)];
           && !b.used && n <= b.size && 0 <= b.addr && b.addr + c.hdr + b.size <= c.End()
           && Disjoint(q, n, v.layout[i].addr + c.hdr, v.layout[i].size)
    ensures 0 <= v.layout[i].addr && 0 <= v.layout[i].size && v.layout[i].addr + c.hdr + v.layout[i].size <= c.End()
  {
    hide FitFrom, LowestFrom, Allocated, Coalesced, Aligned, Tiled;
    var s, end := v.layout, c.End();
    DataInPool(s, c.hdr, end, i);
    if n != 0 && AlignUp(n, c.align) <= c.heapSize {
      var k := FitFrom(s, Start(v, end), Room(n, c), c.heapSize - Room(n, c));
      if k < |s| {
        DataInPool(s, c.hdr, end, k);
        Apart(s, c.hdr, end, i, k);
        SameBlock(s, c.hdr, end, k, Where(s, s[k].addr + c.hdr - c.hdr));
      }
    }
  }

  /** The most bytes in use while a reallocation runs: a block that moves is allocated anew
      before the old one is given back. */
  ghost function ReallocHigh(v: View, p: int, n: nat, c: Config): int
    requires Good(v, c) && MayFree(v, p, c)
  {
    var (w, q) := ReallocView(v, p, n, c);
    if n != 0 && AlignUp(n, c.align) <= c.heapSize && 0 <= p < c.End() && q != p then
      Footprint(MallocView(v, AlignUp(n, c.align), c).0.layout, c.hdr, true)
    else
      Footprint(w.layout, c.hdr, true)
  }

  /** The header fields rt_system_heap_init leaves: one free block and the sentinel. */
  function FirstNext(c: Config): map<int, int> {
    map[0 := c.End(), c.End() := c.End()]
  }

  function FirstPrev(c: Config): map<int, int> {
    map[0 := 0, c.End() := c.End()]
  }

  function FirstUsed(c: Config): map<int, bool> {
    map[0 := false, c.End() := true]
  }

  lemma InitialChain(c: Config)
    requires c.hdr > 0
    ensures Chain(FirstNext(c), FirstPrev(c), FirstUsed(c), [Block(0, c.heapSize, false)], c.hdr, c.End())
  {
    var s := [Block(0, c.heapSize, false)];
    assert Fits(s, 0, c.hdr, c.End());
    assert Marks(s, c.End()) == [0, c.End()];
    assert Headers(s, c.End()) == {0, c.End()};
    assert InChain(FirstNext(c), FirstPrev(c), s, 0, c.End());
  }

  lemma InitialView(c: Config)
    requires c.Sound()
    ensures var s := [Block(0, c.heapSize, false)];
      Good(View(s, 0), c) && IsLowest(s, 0, c.End()) && Footprint(s, c.hdr, true) == 0
  {
    var s := [Block(0, c.heapSize, false)];
    assert Fits(s, 0, c.hdr, c.End());
    assert s[0].addr == 0;
    assert Total(s, 1, FootprintWeight(c.hdr, true)) == Total(s, 0, FootprintWeight(c.hdr, true)) + 0;
  }

  // ----- heaps below the minimum

  /** The search bound: a 32-bit unsigned difference. */
  function SearchBound(c: Config, size: int): int {
    (c.heapSize - size) % 0x1_0000_0000
  }

  /** Where the search stands after `steps` turns from `ptr`: it follows the next fields. */
  function Cursor(next: map<int, int>, ptr: int, steps: nat): int
    decreases steps
  {
    if steps == 0 || ptr !in next then ptr else Cursor(next, next[ptr], steps - 1)
  }

  /** The loop is left at `ptr`: the bound is reached, or the block there is free and fits. */
  predicate SearchStops(next: map<int, int>, used: map<int, bool>, c: Config, size: int, ptr: int) {
    ptr >= SearchBound(c, size) || (ptr in next && ptr in used && !used[ptr] && next[ptr] - (ptr + c.hdr) >= size)
  }

  lemma {:induction false} CursorSticks(c: Config, ptr: int, steps: nat)
    requires c.hdr > 0 && (ptr == 0 || ptr == c.End())
    ensures Cursor(FirstNext(c), ptr, steps) == if steps == 0 then ptr else c.End()
    decreases steps
  {
    if steps > 0 { CursorSticks(c, c.End(), steps - 1); }
  }

  /** In a fresh heap the search of a request that passes the size check ends exactly if the heap
      is not below MIN_SIZE_ALIGNED. In a smaller one the bound wraps and the search stays on
      the sentinel, which is marked used and is its own successor. */
  lemma SearchEndsIff(c: Config, n: nat)
    requires c.align > 0 && c.hdr > 0 && 0 < n && AlignUp(n, c.align) <= c.heapSize
    requires c.End() + c.MinAligned() < 0x1_0000_0000
    ensures var next, used := FirstNext(c), FirstUsed(c);
      (exists steps: nat :: SearchStops(next, used, c, Room(n, c), Cursor(next, 0, steps)))
        <==> c.MinAligned() <= c.heapSize
  {
    var next, used, size := FirstNext(c), FirstUsed(c), Room(n, c);
    if c.MinAligned() <= c.heapSize {
      assert SearchBound(c, size) == c.heapSize - size;
      CursorSticks(c, 0, 0);
      assert SearchStops(next, used, c, size, Cursor(next, 0, 0));
    } else {
      assert SearchBound(c, size) == c.heapSize - size + 0x1_0000_0000;
      forall steps: nat ensures !SearchStops(next, used, c, size, Cursor(next, 0, steps)) {
        CursorSticks(c, 0, steps);
      }
    }
  }

  class SmallMem {
    const c: Config
    const ram: array<byte>
    /** sizeof(long) and the address of the heap, for rt_memcpy. */
    const word: nat
    const base: nat
    var next: map<int, int>
    var prev: map<int, int>
    var used: map<int, bool>
    var lfree: int
    var usedMem: int
    var maxMem: int
    ghost var layout: seq<Block>

    ghost function Abs(): View
      reads this
    {
      View(layout, lfree)
    }

    ghost predicate Drawn()
      reads this
    {
      c.Sound() && word > 0 && ram.Length == c.End() + c.hdr && Chain(next, prev, used, layout, c.hdr, c.End())
    }

    ghost predicate Valid()
      reads this
    {
      && Drawn()
      && Good(Abs(), c)
      && usedMem == Footprint(layout, c.hdr, true)
      && maxMem >= usedMem
    }

    /** The end of rt_system_heap_init: one free block and the sentinel. A heap smaller than the
        minimum is set up like any other. */
    constructor (c: Config, word: nat, base: nat, ram: array<byte>)
      requires c.hdr > 0 && word > 0 && ram.Length == c.End() + c.hdr
      ensures this.c == c && this.ram == ram && this.base == base && this.word == word
      ensures next == FirstNext(c) && prev == FirstPrev(c) && used == FirstUsed(c)
      ensures Abs() == View([Block(0, c.heapSize, false)], 0) && usedMem == maxMem == 0
      ensures c.Sound() ==> Valid() && IsLowest(layout, lfree, c.End())
    {
      this.c, this.word, this.base, this.ram := c, word, base, ram;
      next, prev, used := FirstNext(c), FirstPrev(c), FirstUsed(c);
      lfree, usedMem, maxMem := 0, 0, 0;
      layout := [Block(0, c.heapSize, false)];
      new;
      InitialChain(c);
      if c.Sound() { InitialView(c); }
    }

    /** Write a free header `size` bytes into the block at `a`, over the bytes it occupies. */
    method SplitBlock(a: int, size: int, ghost i: nat) returns (x: int)
      requires Drawn() && i < |layout| && layout[i].addr == a
      requires 0 <= size && size + c.hdr <= layout[i].size
      modifies `next, `prev, `used, `layout, ram
      ensures Drawn() && x == a + c.hdr + size
      ensures layout == Split(old(layout), i, size, c.hdr)
      ensures SameOutside(old(ram[..]), ram[..], x, c.hdr)
    {
      hide Chain, Split;
      x := a + c.hdr + size;
      SplitChain(next, prev, used, layout, i, size, c.hdr, c.End());
      var after := next[a];
      used := used[x := false];
      next := next[x := after];
      prev := prev[x := a];
      next := next[a := x];
      if after != c.End() {
        prev := prev[after := x];
      }
      layout := Split(layout, i, size, c.hdr);
      forall k | x <= k < x + c.hdr {
        ram[k] := 0;
      }
    }

    method SetUsed(a: int, flag: bool, ghost i: nat)
      requires Drawn() && i < |layout| && layout[i].addr == a
      modifies `used, `layout
      ensures Drawn() && layout == Mark(old(layout), i, flag)
    {
      hide Chain, Mark;
      MarkChain(next, prev, used, layout, i, flag, c.hdr, c.End());
      used := used[a := flag];
      layout := Mark(layout, i, flag);
    }

    /** Unlink the header `b` behind `a`, so that it is a header no more. */
    method AbsorbNext(a: int, b: int, ghost i: nat)
      requires Drawn() && i + 1 < |layout| && layout[i].addr == a && layout[i + 1].addr == b
      modifies `next, `prev, `used, `layout
      ensures Drawn() && layout == Merge(old(layout), i, c.hdr)
    {
      hide Chain, Merge;
      MergeChain(next, prev, used, layout, i, c.hdr, c.End());
      var after := next[b];
      next := next[a := after];
      prev := prev[after := a];
      next, prev, used := next - {b}, prev - {b}, used - {b};
      layout := Merge(layout, i, c.hdr);
    }

    /** plug_holes. */
    method Plug(mem: int, ghost i: nat)
      requires Drawn() && i < |layout| && layout[i].addr == mem && !layout[i].used
      modifies `next, `prev, `used, `layout, `lfree
      ensures Drawn()
      ensures layout == PlugHoles(old(layout), i, c.hdr)
      ensures lfree == PlugHint(old(layout), i, old(lfree))
    {
      hide Chain, Merge;
      ghost var s := layout;
      ChainAt(next, prev, used, layout, c.hdr, c.End(), i);
      var nmem := next[mem];
      if mem != nmem && !used[nmem] && nmem != c.End() {
        if lfree == nmem {
          lfree := mem;
        }
        AbsorbNext(mem, nmem, i);
      }
      assert layout == PlugForward(s, i, c.hdr);
      PlugForwardAt(s, i, c.hdr);
      ChainAt(next, prev, used, layout, c.hdr, c.End(), i);
      var pmem := prev[mem];
      if pmem != mem && !used[pmem] {
        if lfree == mem {
          lfree := pmem;
        }
        AbsorbNext(pmem, mem, i - 1);
      }
    }

    /** The search loop of rt_malloc. */
    method FindFit(size: int) returns (mem: int)
      requires Valid() && 0 <= size <= c.heapSize
      ensures var k := FitFrom(layout, Start(Abs(), c.End()), size, c.heapSize - size);
        mem == if k < |layout| then layout[k].addr else NULL
    {
      hide Chain, Tiled, Coalesced, Aligned;
      ghost var k := Start(Abs(), c.End());
      var ptr := lfree;
      while ptr < c.heapSize - size
        invariant k <= |layout| && ptr == if k < |layout| then layout[k].addr else c.End()
        invariant FitFrom(layout, k, size, c.heapSize - size)
          == FitFrom(layout, Start(Abs(), c.End()), size, c.heapSize - size)
        decreases |layout| - k
      {
        ChainAt(next, prev, used, layout, c.hdr, c.End(), k);
        if !used[ptr] && next[ptr] - (ptr + c.hdr) >= size {
          return ptr;
        }
        ptr, k := next[ptr], k + 1;
      }
      return NULL;
    }

    /** Hand out the free block at `mem`, splitting it when another block fits behind. */
    method Take(mem: int, size: int, ghost k: nat)
      requires Drawn() && Good(Abs(), c) && usedMem == Footprint(layout, c.hdr, true)
      requires k < |layout| && layout[k].addr == mem && !layout[k].used && 0 <= size <= layout[k].size
      modifies `next, `prev, `used, `layout, `usedMem, ram
      ensures Drawn()
      ensures layout == Allocated(old(layout), k, size, c.hdr, c.MinAligned())
      ensures usedMem == Footprint(layout, c.hdr, true)
      ensures DataKept(old(layout), c.hdr, old(ram[..]), ram[..])
    {
      hide Chain, Tiled, Coalesced, Aligned, Footprint;
      ChainAt(next, prev, used, layout, c.hdr, c.End(), k);
      AllocatedBytes(layout, k, size, c.hdr, c.MinAligned());
      if next[mem] - (mem + c.hdr) >= size + c.hdr + c.MinAligned() {
        var x := SplitBlock(mem, size, k);
        WritesInside(old(layout), c.hdr, c.End(), k, old(ram[..]), ram[..], x, c.hdr);
        SetUsed(mem, true, k);
        usedMem := usedMem + (size + c.hdr);
      } else {
        SetUsed(mem, true, k);
        ChainAt(next, prev, used, layout, c.hdr, c.End(), k);
        usedMem := usedMem + (next[mem] - mem);
      }
    }

    /** Move the hint from a block that is no longer free to the next one that is. */
    method AdvanceHint(ghost k: nat)
      requires Drawn() && k < |layout| && layout[k].addr == lfree
      modifies `lfree
      ensures Drawn() && lfree == LowestFrom(layout, k, c.End())
    {
      hide Chain;
      ghost var j := k;
      ChainAt(next, prev, used, layout, c.hdr, c.End(), k);
      while used[lfree] && lfree != c.End()
        invariant Drawn() && k <= j <= |layout| && lfree == if j < |layout| then layout[j].addr else c.End()
        invariant lfree in used && lfree in next && (j < |layout| ==> used[lfree] == layout[j].used && lfree != c.End())
        invariant LowestFrom(layout, j, c.End()) == LowestFrom(layout, k, c.End())
        decreases |layout| - j
      {
        ChainAt(next, prev, used, layout, c.hdr, c.End(), j);
        lfree, j := next[lfree], j + 1;
        if j < |layout| { ChainAt(next, prev, used, layout, c.hdr, c.End(), j); }
      }
    }

    method Malloc(n: nat) returns (p: int)
      requires Valid()
      modifies this, ram
      ensures Valid()
      ensures Good(old(Abs()), c) && (Abs(), p) == MallocView(old(Abs()), n, c)
      ensures maxMem == Max(old(maxMem), usedMem)
      ensures DataKept(old(layout), c.hdr, old(ram[..]), ram[..])
    {
      hide Chain, Good, Footprint, FitFrom, Allocated, LowestFrom;
      MallocKeeps(Abs(), n, c);
      GoodParts(Abs(), c);
      if n == 0 {
        return NULL;
      }
      var size := AlignUp(n, c.align);
      if size > c.heapSize {
        return NULL;
      }
      if size < c.MinAligned() {
        size := c.MinAligned();
      }
      ghost var k := FitFrom(layout, Start(Abs(), c.End()), size, c.heapSize - size);
      var mem := FindFit(size);
      if k < |layout| { ChainAt(next, prev, used, layout, c.hdr, c.End(), k); }
      if mem != NULL {
        Take(mem, size, k);
        AllocatedAt(old(layout), k, size, c.hdr, c.MinAligned());
        if maxMem < usedMem {
          maxMem := usedMem;
        }
        if mem == lfree {
          AdvanceHint(k);
        }
        return mem + c.hdr;
      }
      return NULL;
    }

    method Free(p: int)
      requires Valid() && MayFree(Abs(), p, c)
      modifies this
      ensures Valid()
      ensures Good(old(Abs()), c) && Abs() == FreeView(old(Abs()), p, c)
      ensures maxMem == old(maxMem)
    {
      hide Chain, Good, Footprint, PlugHoles;
      FreeKeeps(Abs(), p, c);
      if p == NULL || p < 0 || p >= c.End() {
        return;
      }
      var mem := p - c.hdr;
      ghost var i := Where(layout, mem);
      FreedBytes(layout, i, c.hdr);
      ChainAt(next, prev, used, layout, c.hdr, c.End(), i);
      SetUsed(mem, false, i);
      if mem < lfree {
        lfree := mem;
      }
      ChainAt(next, prev, used, layout, c.hdr, c.End(), i);
      usedMem := usedMem - (next[mem] - mem);
      Plug(mem, i);
    }

    /** rt_realloc when the block cannot stay as it is: allocate, copy, free. */
    method Move(p: int, size: nat, ghost i: nat) returns (q: int)
      requires Valid() && 0 <= p < c.End() && Live(layout, c.hdr, p) && i == Where(layout, p - c.hdr)
      modifies this, ram
      ensures Valid() && Good(old(Abs()), c) && q != p
      ensures var (w, r) := MallocView(old(Abs()), size, c);
        && q == r
        && maxMem == Max(old(maxMem), Footprint(w.layout, c.hdr, true))
        && Live(w.layout, c.hdr, p)
        && Abs() == if q == NULL then old(Abs()) else FreeView(w, p, c)
      ensures DataKept(old(layout), c.hdr, old(ram[..]), ram[..])
      ensures q != NULL ==> DataMoved(old(ram[..]), ram[..], p, q, Min(old(layout)[i].size, size))
    {
      hide Chain, Good, Footprint, MallocView, FreeView, DataKept, SameOutside, Copied, DataMoved;
      ghost var v, m := Abs(), ram[..];
      StillLive(v, size, p, c);
      MallocRoom(v, size, c, i);
      ChainAt(next, prev, used, layout, c.hdr, c.End(), i);
      LinksTile(next, prev, used, layout, c.hdr, c.End());
      var oldSize := next[p - c.hdr] - (p - c.hdr) - c.hdr;
      q := Malloc(size);
      if q != NULL {
        ghost var m1 := ram[..];
        var count := if oldSize < size then oldSize else size;
        Memcpy(ram, base, word, q, p, count);
        CopyWrites(m1, q, p, count);
        WritesInside(v.layout, c.hdr, c.End(), Where(v.layout, q - c.hdr), m1, ram[..], q, count);
        MovedData(v.layout, c.hdr, c.End(), i, m, m1, q, count);
        KeptTwice(v.layout, c.hdr, m, m1, ram[..]);
        Free(p);
      }
    }

    /** rt_realloc when the block is cut down in place. */
    method Shrink(mem: int, size: int, ghost i: nat)
      requires Valid() && i < |layout| && layout[i].addr == mem && layout[i].used
      requires 0 <= size && size + c.hdr <= layout[i].size && size % c.align == 0
      modifies this, ram
      ensures Valid()
      ensures Abs() == ShrinkView(old(Abs()), i, size, c)
      ensures maxMem == old(maxMem)
      ensures DataKeptBut(old(layout), c.hdr, mem, old(ram[..]), ram[..])
      ensures DataMoved(old(ram[..]), ram[..], mem + c.hdr, mem + c.hdr, size)
    {
      hide Chain, Good, Footprint, PlugHoles, Split;
      ShrinkKeeps(Abs(), i, size, c);
      ShrunkBytes(layout, i, size, c.hdr);
      ChainAt(next, prev, used, layout, c.hdr, c.End(), i);
      LinksTile(next, prev, used, layout, c.hdr, c.End());
      var oldSize := next[mem] - mem - c.hdr;
      usedMem := usedMem - (oldSize - size);
      var x := SplitBlock(mem, size, i);
      WritesInside(old(layout), c.hdr, c.End(), i, old(ram[..]), ram[..], x, c.hdr);
      SplitAt(old(layout), i, size, c.hdr);
      Plug(x, i + 1);
    }

    method Realloc(p: int, n: nat) returns (q: int)
      requires Valid() && MayFree(Abs(), p, c)
      modifies this, ram
      ensures Valid()
      ensures Good(old(Abs()), c) && (Abs(), q) == ReallocView(old(Abs()), p, n, c)
      ensures maxMem == Max(old(maxMem), ReallocHigh(old(Abs()), p, n, c))
      ensures DataKeptBut(old(layout), c.hdr, p - c.hdr, old(ram[..]), ram[..])
      ensures n != 0 && q == NULL ==> DataKept(old(layout), c.hdr, old(ram[..]), ram[..])
      ensures 0 <= p < c.End() && q != NULL ==>
        var i := Where(old(layout), p - c.hdr);
        DataMoved(old(ram[..]), ram[..], p, q, Min(old(layout)[i].size, AlignUp(n, c.align)))
    {
      hide Chain, Good, Footprint, MallocView, FreeView, ShrinkView, Tiled, AlignUp;
      GoodParts(Abs(), c);
      ReallocKeeps(Abs(), p, n, c);
      AlignUpAligned(n, c.align);
      var size := AlignUp(n, c.align);
      if size > c.heapSize {
        return NULL;
      } else if size == 0 {
        Free(p);
        return NULL;
      }
      if p == NULL {
        q := Malloc(size);
        return;
      }
      if p < 0 || p >= c.End() {
        return p;
      }
      var mem := p - c.hdr;
      ghost var i, m := Where(layout, mem), ram[..];
      ChainAt(next, prev, used, layout, c.hdr, c.End(), i);
      LinksTile(next, prev, used, layout, c.hdr, c.End());
      var oldSize := next[mem] - mem - c.hdr;
      if oldSize == size {
        return p;
      }
      if size + c.hdr + c.minSize < oldSize {
        Shrink(mem, size, i);
        return p;
      }
      q := Move(p, size, i);
    }
  }

  /** rt_system_heap_init: the largest aligned heap in the given range, or an error if there is
      no room for its two headers. */
  method SystemHeapInit(begin: nat, end: nat, hdr: nat, align: nat, minSize: nat, word: nat, ram: array<byte>)
    returns (h: Option<SmallMem>)
    requires hdr > 0 && align > 0 && hdr % align == 0 && word > 0
    requires var r := HeapBounds(begin, end, hdr, align); r.Some? ==> ram.Length == r.value.1 + 2 * hdr
    ensures h.Some? <==> exists a, n :: Placement(begin, end, hdr, align, a, n)
    ensures h.Some? ==> fresh(h.value) && h.value.ram == ram
    ensures h.Some? ==> h.value.c == Config(hdr, align, minSize, h.value.c.heapSize)
    ensures h.Some? ==> Placement(begin, end, hdr, align, h.value.base, h.value.c.heapSize)
    ensures h.Some? ==> forall a, n :: Placement(begin, end, hdr, align, a, n) ==> n <= h.value.c.heapSize
    ensures h.Some? && AlignUp(minSize, align) <= h.value.c.heapSize ==>
      h.value.Valid() && h.value.Abs() == View([Block(0, h.value.c.heapSize, false)], 0)
  {
    hide Placement, Good, Chain, Footprint;
    HeapBoundsFit(begin, end, hdr, align);
    HeapBoundsLargest(begin, end, hdr, align);
    var beginAlign, endAlign := AlignUp(begin, align), end - end % align;
    if endAlign > 2 * hdr && endAlign - 2 * hdr >= beginAlign {
      var size := endAlign - beginAlign - 2 * hdr;
      var heap := new SmallMem(Config(hdr, align, minSize, size), word, beginAlign, ram);
      PlacedSound(begin, end, hdr, align, minSize, beginAlign, size);
      return Some(heap);
    }
    return None;
  }

  lemma PlacedSound(begin: nat, end: nat, hdr: nat, align: nat, minSize: nat, a: nat, n: nat)
    requires hdr > 0 && align > 0 && hdr % align == 0 && Placement(begin, end, hdr, align, a, n)
    ensures AlignUp(minSize, align) <= n ==> Config(hdr, align, minSize, n).Sound()
  {
    hide AlignUp;
  }
}
