/** memheap.c: a pool whose block headers carry two doubly linked rings, one over all
    blocks in address order and one over the free blocks. A header is named by its offset
    in the pool and every header field is a map keyed by that offset; reading a field of
    something that is no header is an error the verifier rules out. */
module MemHeaps {
  import opened Basics
  import opened Rings
  import opened HeapLayout
  import opened HeapOps
  import opened HeapData
  import opened MemHeapViews
  import opened MemCopy

  /** The free list header sits in the control block, outside the pool. */
  const HEAD: int := -1

  lemma UnlinkKeeps(next: map<int, int>, prev: map<int, int>, s: seq<int>, a: int)
    requires IsRing(next, prev, [HEAD] + s) && a in s
    ensures a in next && a in prev && next[a] in prev && prev[a] in next && next[a] != a && prev[a] != a
    ensures IsRing(next[prev[a] := next[a]], prev[next[a] := prev[a]], [HEAD] + Without(s, a))
    ensures forall x :: x in Without(s, a) <==> x in s && x != a
  {
    var ring, k := [HEAD] + s, Position(s, a);
    assert ring[k + 1] == a;
    Remove(next, prev, ring, k + 1);
    assert Dropped(ring, k + 1) == [HEAD] + Dropped(s, k);
    assert Distinct(s) by {
      forall i, j | 0 <= i < j < |s| ensures s[i] != s[j] { assert ring[i + 1] != ring[j + 1]; }
    }
    MembersDropped(s, k);
    if k + 1 < |s| { assert Rings.Linked(next, prev, ring, k + 2); } else { assert Rings.Linked(next, prev, ring, 0); }
    assert Rings.Linked(next, prev, ring, k);
  }

  lemma PushKeeps(next: map<int, int>, prev: map<int, int>, s: seq<int>, a: int)
    requires IsRing(next, prev, [HEAD] + s) && a !in s && a != HEAD
    ensures HEAD in next && next[HEAD] in prev && next[HEAD] != a
    ensures IsRing(next[a := next[HEAD]][HEAD := a], prev[a := HEAD][next[HEAD] := a], [HEAD] + ([a] + s))
  {
    var ring := [HEAD] + s;
    assert a !in ring;
    InsertAfter(next, prev, ring, 0, a);
    assert Inserted(ring, 0, a) == [HEAD] + ([a] + s);
    if |s| > 0 { assert Rings.Linked(next, prev, ring, 1); }
  }

  /** `next` and `prev` ring the headers in address order, `used` holds their flags, and
      there is no header besides those of the layout and the tail at `end`. */
  ghost predicate BlockLinks(next: map<int, int>, prev: map<int, int>, used: map<int, bool>,
                             s: seq<Block>, hdr: nat, end: int)
  {
    && Tiled(s, hdr, end)
    && IsRing(next, prev, Marks(s, end))
    && next.Keys == prev.Keys == used.Keys == Headers(s, end)
    && Flags(used, s, end)
  }

  /** `next` and `prev` ring the free list, and every header has the two fields. */
  ghost predicate FreeLinks(next: map<int, int>, prev: map<int, int>, frees: seq<int>, headers: set<int>) {
    && IsRing(next, prev, [HEAD] + frees)
    && next.Keys == prev.Keys == headers + {HEAD}
  }

  lemma LinksTile(next: map<int, int>, prev: map<int, int>, used: map<int, bool>, s: seq<Block>, hdr: nat, end: int)
    requires BlockLinks(next, prev, used, s, hdr, end)
    ensures Tiled(s, hdr, end)
  {
  }

  lemma Neighbours(next: map<int, int>, prev: map<int, int>, used: map<int, bool>, s: seq<Block>, hdr: nat, end: int,
                   i: nat)
    requires BlockLinks(next, prev, used, s, hdr, end) && i < |s|
    ensures s[i].addr in next && next[s[i].addr] == NextAddr(s, i, end)
    ensures s[i].addr in prev && prev[s[i].addr] == if i > 0 then s[i - 1].addr else end
    ensures s[i].addr in used && used[s[i].addr] == s[i].used
    ensures NextAddr(s, i, end) in prev && NextAddr(s, i, end) in next && prev[NextAddr(s, i, end)] == s[i].addr
    ensures NextAddr(s, i, end) in used && used[NextAddr(s, i, end)] == (i + 1 < |s| ==> s[i + 1].used)
    ensures prev[s[i].addr] in used && used[prev[s[i].addr]] == (i > 0 ==> s[i - 1].used)
    ensures 0 <= s[i].addr < NextAddr(s, i, end) <= end
  {
    var m := Marks(s, end);
    assert Rings.Linked(next, prev, m, i) && Rings.Linked(next, prev, m, i + 1);
    Bounds(s, hdr, end, i);
  }

  /** Cutting a header into block `i`: the four link stores shared by allocation and resizing. */
  lemma SplitKeeps(next: map<int, int>, prev: map<int, int>, used: map<int, bool>,
                   s: seq<Block>, i: nat, size: int, hdr: nat, end: int)
    requires BlockLinks(next, prev, used, s, hdr, end)
    requires i < |s| && 0 <= size && size + hdr <= s[i].size
    ensures s[i].addr in next
    ensures var x := s[i].addr + hdr + size;
      && x !in Headers(s, end)
      && Headers(Split(s, i, size, hdr), end) == Headers(s, end) + {x}
      && 0 <= x && x + hdr <= s[i].addr + hdr + s[i].size <= end
    ensures var a, x := s[i].addr, s[i].addr + hdr + size;
      BlockLinks(next[x := next[a]][a := x], prev[x := a][next[a] := x], used[x := false],
                 Split(s, i, size, hdr), hdr, end)
  {
    hide IsRing, Tiled, Flags, Headers, Split, Marks, Inserted;
    var a, x, m := s[i].addr, s[i].addr + hdr + size, Marks(s, end);
    SplitMarks(s, i, size, hdr, end);
    SplitFlags(used, s, i, size, hdr, end);
    assert m[i] == a;
    InsertAfter(next, prev, m, i, x);
    Neighbours(next, prev, used, s, hdr, end, i);
    assert next[x := next[a]][a := x].Keys == next.Keys + {x};
    assert prev[x := a][next[a] := x].Keys == prev.Keys + {x};
  }

  /** Unlinking the header of block `i + 1`, whose bytes then belong to block `i`. */
  lemma AbsorbKeeps(next: map<int, int>, prev: map<int, int>, used: map<int, bool>,
                    s: seq<Block>, i: nat, hdr: nat, end: int)
    requires BlockLinks(next, prev, used, s, hdr, end) && i + 1 < |s|
    ensures s[i + 1].addr in next && s[i + 1].addr >= 0
    ensures Headers(Merge(s, i, hdr), end) == Headers(s, end) - {s[i + 1].addr}
    ensures var a, b := s[i].addr, s[i + 1].addr;
      BlockLinks(next[a := next[b]] - {b}, prev[next[b] := a] - {b}, used - {b}, Merge(s, i, hdr), hdr, end)
  {
    hide Tiled, Flags, Headers, Merge, Marks;
    var a, b, m := s[i].addr, s[i + 1].addr, Marks(s, end);
    Neighbours(next, prev, used, s, hdr, end, i);
    Neighbours(next, prev, used, s, hdr, end, i + 1);
    assert m[i + 1] == b;
    Remove(next, prev, m, i + 1);
    MergeMarks(s, i, hdr, end);
    MergeFlags(used, s, i, hdr, end);
    var n, p := next[a := next[b]], prev[next[b] := a];
    Frame(n, p, n - {b}, p - {b}, Dropped(m, i + 1));
  }

  lemma FreeRingMembers(next: map<int, int>, prev: map<int, int>, frees: seq<int>, headers: set<int>)
    requires FreeLinks(next, prev, frees, headers)
    ensures forall a :: a in [HEAD] + frees ==> a in next && a in prev
    ensures Distinct(frees) && HEAD !in frees
  {
    var ring := [HEAD] + frees;
    forall a | a in ring
      ensures a in next && a in prev
    {
      var k :| 0 <= k < |ring| && ring[k] == a;
      assert Rings.Linked(next, prev, ring, k);
    }
    forall i, j | 0 <= i < j < |frees| ensures frees[i] != frees[j] { assert ring[i + 1] != ring[j + 1]; }
    forall i | 0 <= i < |frees| ensures frees[i] != HEAD { assert ring[0] != ring[i + 1]; }
  }

  lemma HeaderHasFields(next: map<int, int>, prev: map<int, int>, used: map<int, bool>, s: seq<Block>, hdr: nat,
                        end: int, i: nat)
    requires BlockLinks(next, prev, used, s, hdr, end) && i < |s|
    ensures s[i].addr in Headers(s, end) && s[i].addr >= 0
  {
    Bounds(s, hdr, end, i);
    assert Marks(s, end)[i] in Headers(s, end);
  }

  lemma NoHeaderNotListed(next: map<int, int>, prev: map<int, int>, frees: seq<int>, headers: set<int>, x: int)
    requires FreeLinks(next, prev, frees, headers) && x !in headers && x != HEAD
    ensures x !in frees
  {
    FreeRingMembers(next, prev, frees, headers);
    assert x !in next.Keys;
    forall a | a in frees ensures a != x { assert a in [HEAD] + frees; }
  }

  lemma FreeLinksGrow(next: map<int, int>, prev: map<int, int>, frees: seq<int>, headers: set<int>, x: int)
    requires FreeLinks(next, prev, frees, headers) && x !in headers && x != HEAD
    ensures FreeLinks(next[x := NULL], prev[x := NULL], frees, headers + {x})
  {
    hide IsRing;
    FreeRingMembers(next, prev, frees, headers);
    assert x !in next.Keys && x !in prev.Keys;
    var ring := [HEAD] + frees;
    forall a | a in ring ensures a in next && a in prev && a != x { assert a in next.Keys; }
    Frame(next, prev, next[x := NULL], prev[x := NULL], ring);
  }

  lemma FreeLinksShrink(next: map<int, int>, prev: map<int, int>, frees: seq<int>, headers: set<int>, b: int)
    requires FreeLinks(next, prev, frees, headers) && b !in frees && b != HEAD
    ensures FreeLinks(next - {b}, prev - {b}, frees, headers - {b})
  {
    hide IsRing;
    FreeRingMembers(next, prev, frees, headers);
    var ring := [HEAD] + frees;
    forall a | a in ring ensures a in next && a in prev && a != b { }
    Frame(next, prev, next - {b}, prev - {b}, ring);
  }

  lemma MarkKeeps(next: map<int, int>, prev: map<int, int>, used: map<int, bool>,
                  s: seq<Block>, i: nat, flag: bool, hdr: nat, end: int)
    requires BlockLinks(next, prev, used, s, hdr, end) && i < |s|
    ensures s[i].addr in used
    ensures Headers(Mark(s, i, flag), end) == Headers(s, end)
    ensures BlockLinks(next, prev, used[s[i].addr := flag], Mark(s, i, flag), hdr, end)
  {
    MarkTiled(s, i, hdr, end, flag);
    MarksOfMark(s, i, end, flag);
    var m := Marks(s, end);
    forall j | 0 <= j < |s| && j != i ensures s[j].addr != s[i].addr { assert m[j] != m[i]; }
    assert m[i] != m[|s|];
    assert used[s[i].addr := flag].Keys == used.Keys;
  }

  /** MEMITEM_SIZE computes a block's data size. */
  lemma SizeOfBlock(next: map<int, int>, prev: map<int, int>, used: map<int, bool>, s: seq<Block>, hdr: nat,
                    end: int, i: nat)
    requires BlockLinks(next, prev, used, s, hdr, end) && i < |s|
    ensures s[i].addr in next && next[s[i].addr] - s[i].addr - hdr == s[i].size
  {
    Neighbours(next, prev, used, s, hdr, end, i);
    assert Fits(s, i, hdr, end);
  }

  /** Following next_free visits the free list in order and comes back to its header. */
  lemma WalkFree(next: map<int, int>, prev: map<int, int>, frees: seq<int>, headers: set<int>, k: nat)
    requires FreeLinks(next, prev, frees, headers) && k <= |frees|
    ensures var at := if k == 0 then HEAD else frees[k - 1];
      at in next && next[at] == if k < |frees| then frees[k] else HEAD
  {
    assert Rings.Linked(next, prev, [HEAD] + frees, k);
  }

  lemma AllListed(next: map<int, int>, prev: map<int, int>, used: map<int, bool>, frees: seq<int>, s: seq<Block>,
                  hdr: nat, end: int)
    requires BlockLinks(next, prev, used, s, hdr, end) && Lists(frees, s)
    ensures forall a :: a in frees ==> HasBlock(s, a) && !s[Where(s, a)].used
  {
    forall a | a in frees ensures HasBlock(s, a) && !s[Where(s, a)].used { ListedBlock(frees, s, hdr, end, a); }
  }

  lemma WritesIntoFree(next: map<int, int>, prev: map<int, int>, used: map<int, bool>, frees: seq<int>,
                       s: seq<Block>, hdr: nat, end: int, i: nat, m: seq<byte>, m': seq<byte>, a: int)
    requires BlockLinks(next, prev, used, s, hdr, end) && Lists(frees, s)
    requires i < |s| && s[i].addr in frees && SameOutside(m, m', a, hdr)
    requires s[i].addr + hdr <= a && a <= s[i].addr + s[i].size
    ensures DataKept(s, hdr, m, m')
  {
    UsedNotListed(frees, s, hdr, end, i);
    WritesInside(s, hdr, end, i, m, m', a, hdr);
  }

  /** Everything an allocation keeps, on the picture alone. */
  lemma AllocKeeps(next: map<int, int>, prev: map<int, int>, used: map<int, bool>,
                   s: seq<Block>, frees: seq<int>, i: nat, size: int, hdr: nat, end: int)
    requires BlockLinks(next, prev, used, s, hdr, end) && Coalesced(s) && Lists(frees, s) && Distinct(frees)
    requires i < |s| && s[i].addr in frees && 0 <= size <= s[i].size
    ensures Coalesced(Allocated(s, i, size, hdr, MINIALLOC))
    ensures Lists(AllocFrees(s, frees, i, size, hdr), Allocated(s, i, size, hdr, MINIALLOC))
    ensures FreeBytes(Allocated(s, i, size, hdr, MINIALLOC)) == FreeBytes(s) - Taken(s, i, size, hdr, MINIALLOC)
  {
    UsedNotListed(frees, s, hdr, end, i);
    AllocatedKeeps(s, i, size, hdr, MINIALLOC, end);
    AllocatedBytes(s, i, size, hdr, MINIALLOC);
    AllocLists(s, frees, i, size, hdr, end);
  }

  lemma LinksGood(next: map<int, int>, prev: map<int, int>, used: map<int, bool>, nextFree: map<int, int>,
                  prevFree: map<int, int>,
                  s: seq<Block>, frees: seq<int>, hdr: nat, end: int)
    requires BlockLinks(next, prev, used, s, hdr, end) && FreeLinks(nextFree, prevFree, frees, Headers(s, end))
    requires Coalesced(s) && Lists(frees, s)
    ensures Good(View(s, frees), hdr, end)
  {
    FreeRingMembers(nextFree, prevFree, frees, Headers(s, end));
  }

  lemma InitialPicture(next: map<int, int>, prev: map<int, int>, used: map<int, bool>,
                       nextFree: map<int, int>, prevFree: map<int, int>, hdr: nat, end: int)
    requires 0 < hdr <= end
    requires next == prev == map[0 := end, end := 0] && used == map[0 := false, end := true]
    requires nextFree == prevFree == map[HEAD := 0, 0 := HEAD, end := NULL]
    ensures var s := [Block(0, end - hdr, false)];
      && BlockLinks(next, prev, used, s, hdr, end) && FreeLinks(nextFree, prevFree, [0], Headers(s, end))
      && Coalesced(s) && Lists([0], s) && FreeBytes(s) == end - hdr
  {
    var s := [Block(0, end - hdr, false)];
    assert Fits(s, 0, hdr, end);
    var m := Marks(s, end);
    assert m == [0, end];
    assert Rings.Linked(next, prev, m, 0) && Rings.Linked(next, prev, m, 1);
    assert Headers(s, end) == {0, end};
    var ring := [HEAD] + [0];
    assert ring == [HEAD, 0];
    assert Rings.Linked(nextFree, prevFree, ring, 0) && Rings.Linked(nextFree, prevFree, ring, 1);
    forall a ensures a in [0] <==> FreeAt(s, a) { if a == 0 { assert s[0].addr == a; } }
    assert Total(s, 1, FreeWeight) == Total(s, 0, FreeWeight) + FreeWeight(s[0]);
  }

  /** Where rt_memheap_init puts the tail header, in 32 bits. */
  function TailAt(pool: nat, hdr: nat): int {
    (pool - hdr) % SPACE
  }

  /** The header at the start and the tail header lie inside the pool and apart. */
  ghost predicate HeadersFit(pool: nat, hdr: nat) {
    hdr <= TailAt(pool, hdr) && TailAt(pool, hdr) + hdr <= pool
  }

  /** That is so exactly if the pool has room for both. */
  lemma HeadersFitIff(pool: nat, hdr: nat)
    requires pool < SPACE && hdr > 0
    ensures HeadersFit(pool, hdr) <==> 2 * hdr <= pool
    ensures HeadersFit(pool, hdr) ==> TailAt(pool, hdr) == pool - hdr
  {
    if hdr <= pool { assert TailAt(pool, hdr) == pool - hdr; }
  }

  /** The tail is found by way of the wrapped size. */
  lemma TailIs(pool: nat, hdr: nat)
    ensures ((pool - 2 * hdr) % SPACE + hdr) % SPACE == TailAt(pool, hdr)
    ensures 2 * hdr <= pool < SPACE ==> (pool - 2 * hdr) % SPACE == pool - 2 * hdr
    ensures 2 * hdr <= pool < SPACE ==> (pool - (pool - 2 * hdr)) % SPACE == 2 * hdr
  {
    WrapSum(pool - 2 * hdr, hdr);
  }

  lemma WrapSum(a: int, b: int)
    ensures (a % SPACE + b) % SPACE == (a + b) % SPACE
  {
    assert a % SPACE + b == ((a + b) / SPACE - a / SPACE) * SPACE + (a + b) % SPACE;
  }

  /** In a pool of 28 bytes with headers of 24 the tail header overlaps the first; its free bytes
      count as nearly the whole address space. */
  lemma TinyPool()
    ensures !HeadersFit(28, 24) && TailAt(28, 24) == 4 && (28 - 2 * 24) % SPACE == SPACE - 20
  {
  }

  class MemHeap {
    const hdr: nat
    const align: nat
    const poolSize: nat
    const ram: array<byte>
    /** sizeof(long) and the address of the pool, for rt_memcpy. */
    const word: nat
    const base: nat
    var availableSize: int
    var maxUsedSize: int
    var next: map<int, int>
    var prev: map<int, int>
    var nextFree: map<int, int>
    var prevFree: map<int, int>
    var used: map<int, bool>
    ghost var layout: seq<Block>
    ghost var frees: seq<int>

    function End(): int {
      poolSize - hdr
    }

    /** The header fields draw the ghost layout and the ghost free list. */
    ghost predicate Drawn()
      reads this
    {
      && align > 0 && word > 0
      && ram.Length == poolSize
      && BlockLinks(next, prev, used, layout, hdr, End())
      && FreeLinks(nextFree, prevFree, frees, Headers(layout, End()))
    }

    ghost function Abs(): View
      reads this
    {
      View(layout, frees)
    }

    ghost predicate Valid()
      reads this
    {
      && Drawn()
      && Coalesced(layout)
      && Lists(frees, layout)
      && availableSize == FreeBytes(layout)
      && maxUsedSize >= poolSize - availableSize
    }

    /** rt_memheap_init: one free block over the whole pool and the used tail header behind it. The
        sizes are unsigned, and the code does not look whether there is room for both headers. */
    constructor (hdr: nat, align: nat, word: nat, base: nat, ram: array<byte>, size: nat)
      requires hdr > 0 && align > 0 && word > 0 && size < SPACE && ram.Length == size - size % align
      ensures this.hdr == hdr && this.align == align && this.ram == ram && poolSize == ram.Length
      ensures next == prev == map[0 := TailAt(poolSize, hdr), TailAt(poolSize, hdr) := 0]
      ensures availableSize == (poolSize - 2 * hdr) % SPACE && maxUsedSize == (poolSize - availableSize) % SPACE
      ensures HeadersFit(poolSize, hdr) ==>
        && Valid() && Abs() == View([Block(0, poolSize - 2 * hdr, false)], [0])
        && maxUsedSize == poolSize - availableSize == 2 * hdr
    {
      this.hdr, this.align, this.word, this.base, this.ram := hdr, align, word, base, ram;
      var pool := size - size % align;
      var available := (pool - 2 * hdr) % SPACE;
      var end := (available + hdr) % SPACE;
      poolSize := pool;
      availableSize := available;
      maxUsedSize := (pool - available) % SPACE;
      next := map[0 := end, end := 0];
      prev := map[0 := end, end := 0];
      used := map[0 := false, end := true];
      nextFree := map[HEAD := 0, 0 := HEAD, end := NULL];
      prevFree := map[HEAD := 0, 0 := HEAD, end := NULL];
      layout := [Block(0, pool - 2 * hdr, false)];
      frees := [0];
      new;
      TailIs(pool, hdr);
      HeadersFitIff(pool, hdr);
      if HeadersFit(pool, hdr) { InitialPicture(next, prev, used, nextFree, prevFree, hdr, End()); }
    }

    /** Take a header out of the free ring. */
    method UnlinkFree(a: int)
      requires Drawn() && a in frees
      modifies `nextFree, `prevFree, `frees
      ensures Drawn() && frees == Without(old(frees), a)
      ensures forall x :: x in frees <==> x in old(frees) && x != a
    {
      hide BlockLinks, IsRing, Headers;
      UnlinkKeeps(nextFree, prevFree, frees, a);
      prevFree := prevFree[nextFree[a] := prevFree[a]];
      nextFree := nextFree[prevFree[a] := nextFree[a]];
      frees := Without(frees, a);
    }

    /** Put a header at the front of the free ring. */
    method PushFree(a: int, ghost i: nat)
      requires Drawn() && i < |layout| && layout[i].addr == a && a !in frees
      modifies `nextFree, `prevFree, `frees
      ensures Drawn() && frees == [a] + old(frees)
    {
      hide BlockLinks, IsRing, Headers;
      HeaderHasFields(next, prev, used, layout, hdr, End(), i);
      assert a in nextFree.Keys && a in prevFree.Keys;
      PushKeeps(nextFree, prevFree, frees, a);
      nextFree := nextFree[a := nextFree[HEAD]];
      prevFree := prevFree[a := HEAD];
      prevFree := prevFree[nextFree[HEAD] := a];
      nextFree := nextFree[HEAD := a];
      frees := [a] + frees;
    }

    /** Write a free header `size` bytes into the block at `a`, behind which it is linked. The
        header overwrites the `hdr` bytes it occupies. */
    method SplitBlock(a: int, size: int, ghost i: nat) returns (x: int)
      requires Drawn() && i < |layout| && layout[i].addr == a
      requires 0 <= size && size + hdr <= layout[i].size
      modifies `next, `prev, `used, `nextFree, `prevFree, `layout, ram
      ensures Drawn() && x == a + hdr + size && x !in frees
      ensures layout == Split(old(layout), i, size, hdr)
      ensures SameOutside(old(ram[..]), ram[..], x, hdr)
    {
      hide BlockLinks, FreeLinks, Headers, Split;
      x := a + hdr + size;
      SplitKeeps(next, prev, used, layout, i, size, hdr, End());
      NoHeaderNotListed(nextFree, prevFree, frees, Headers(layout, End()), x);
      FreeLinksGrow(nextFree, prevFree, frees, Headers(layout, End()), x);
      var after := next[a];
      used := used[x := false];
      prev := prev[x := a];
      next := next[x := after];
      prev := prev[after := x];
      next := next[a := x];
      nextFree, prevFree := nextFree[x := NULL], prevFree[x := NULL];
      layout := Split(layout, i, size, hdr);
      forall k | x <= k < x + hdr {
        ram[k] := 0;
      }
    }

    /** Unlink the header `b` behind `a`, so that it is a header no more. */
    method AbsorbNext(a: int, b: int, ghost i: nat)
      requires Drawn() && i + 1 < |layout| && layout[i].addr == a && layout[i + 1].addr == b
      requires b !in frees
      modifies `next, `prev, `used, `nextFree, `prevFree, `layout
      ensures Drawn()
      ensures layout == Merge(old(layout), i, hdr)
    {
      hide BlockLinks, FreeLinks, Headers, Merge;
      AbsorbKeeps(next, prev, used, layout, i, hdr, End());
      FreeLinksShrink(nextFree, prevFree, frees, Headers(layout, End()), b);
      var after := next[b];
      prev := prev[after := a];
      next := next[a := after];
      next, prev, used := next - {b}, prev - {b}, used - {b};
      nextFree, prevFree := nextFree - {b}, prevFree - {b};
      layout := Merge(layout, i, hdr);
    }

    /** The used bit of a header. */
    method SetUsed(a: int, flag: bool, ghost i: nat)
      requires Drawn() && i < |layout| && layout[i].addr == a
      modifies `used, `layout
      ensures Drawn() && layout == Mark(old(layout), i, flag)
    {
      hide BlockLinks, FreeLinks, Headers, Mark;
      MarkKeeps(next, prev, used, layout, i, flag, hdr, End());
      used := used[a := flag];
      layout := Mark(layout, i, flag);
    }

    /** next_free and prev_free of a header outside the free list are set to null. */
    method ClearFree(a: int, ghost i: nat)
      requires Drawn() && i < |layout| && layout[i].addr == a && a !in frees
      modifies `nextFree, `prevFree
      ensures Drawn()
    {
      hide BlockLinks, IsRing, Headers;
      HeaderHasFields(next, prev, used, layout, hdr, End(), i);
      assert a in nextFree.Keys && a in prevFree.Keys;
      FreeRingMembers(nextFree, prevFree, frees, Headers(layout, End()));
      ghost var ring := [HEAD] + frees;
      forall x | x in ring ensures x in nextFree && x in prevFree && x != a { }
      Frame(nextFree, prevFree, nextFree[a := NULL], prevFree[a := NULL], ring);
      assert nextFree[a := NULL].Keys == nextFree.Keys && prevFree[a := NULL].Keys == prevFree.Keys;
      nextFree := nextFree[a := NULL];
      prevFree := prevFree[a := NULL];
    }

    /** The search loop of rt_memheap_alloc. */
    method FindFree(size: int) returns (header: int, freeSize: int)
      requires Valid() && size > 0
      ensures forall a :: a in frees ==> HasBlock(layout, a)
      ensures var k := FirstFit(layout, frees, size);
        if k < |frees| then header == frees[k] && freeSize == layout[Where(layout, header)].size >= size
        else freeSize < size
    {
      hide BlockLinks, FreeLinks, Lists, Headers;
      AllListed(next, prev, used, frees, layout, hdr, End());
      FreeRingMembers(nextFree, prevFree, frees, Headers(layout, End()));
      WalkFree(nextFree, prevFree, frees, Headers(layout, End()), 0);
      ghost var k: nat := 0;
      header, freeSize := nextFree[HEAD], 0;
      while header != HEAD && freeSize < size
        invariant k <= |frees| && header == if k < |frees| then frees[k] else HEAD
        invariant freeSize >= size ==> k < |frees| && freeSize == layout[Where(layout, frees[k])].size
        invariant forall j :: 0 <= j < k ==> layout[Where(layout, frees[j])].size < size
        decreases |frees| - k, freeSize < size
      {
        SizeOfBlock(next, prev, used, layout, hdr, End(), Where(layout, header));
        freeSize := next[header] - header - hdr;
        if freeSize < size {
          WalkFree(nextFree, prevFree, frees, Headers(layout, End()), k + 1);
          header, k := nextFree[header], k + 1;
        }
      }
      FirstFitIs(layout, frees, size, k);
    }

    /** Hand out the free block at `header`, splitting it when another block fits behind. */
    method Take(header: int, freeSize: int, size: int, ghost i: nat)
      requires Valid() && i < |layout| && layout[i].addr == header && header in frees
      requires 0 <= size <= layout[i].size == freeSize
      modifies this, ram
      ensures Valid()
      ensures layout == Allocated(old(layout), i, size, hdr, MINIALLOC)
      ensures frees == AllocFrees(old(layout), old(frees), i, size, hdr)
      ensures maxUsedSize == Max(old(maxUsedSize), poolSize - availableSize)
      ensures DataKept(old(layout), hdr, old(ram[..]), ram[..])
    {
      hide BlockLinks, FreeLinks, Lists, Headers, Coalesced, FreeBytes, Without;
      FreeRingMembers(nextFree, prevFree, frees, Headers(layout, End()));
      AllocKeeps(next, prev, used, layout, frees, i, size, hdr, End());
      if freeSize >= size + hdr + MINIALLOC {
        var x := SplitBlock(header, size, i);
        WritesIntoFree(old(next), old(prev), old(used), old(frees), old(layout), hdr, End(), i,
                       old(ram[..]), ram[..], x);
        UnlinkFree(header);
        ClearFree(header, i);
        PushFree(x, i + 1);
        availableSize := availableSize - size - hdr;
      } else {
        availableSize := availableSize - freeSize;
        UnlinkFree(header);
        ClearFree(header, i);
      }
      if poolSize - availableSize > maxUsedSize {
        maxUsedSize := poolSize - availableSize;
      }
      SetUsed(header, true, i);
    }

    method Alloc(n: nat) returns (p: int)
      requires Valid()
      modifies this, ram
      ensures Valid()
      ensures Findable(old(Abs())) && (Abs(), p) == AllocView(old(Abs()), Request(n, align), hdr)
      ensures maxUsedSize == Max(old(maxUsedSize), poolSize - availableSize)
      ensures DataKept(old(layout), hdr, old(ram[..]), ram[..])
    {
      hide BlockLinks, FreeLinks, Lists, Headers, Coalesced, FreeBytes, Allocated, AllocFrees;
      var size := Request(n, align);
      AllListed(next, prev, used, frees, layout, hdr, End());
      if size < availableSize {
        var header, freeSize := FindFree(size);
        if freeSize >= size {
          Take(header, freeSize, size, Where(layout, header));
          return header + hdr;
        }
      }
      return NULL;
    }

    /** Merge the block at `header`, which is free but not listed, with its free neighbours. */
    method Join(header: int, ghost i: nat) returns (merged: int, listed: bool, ghost j: nat)
      requires Drawn() && i < |layout| && layout[i].addr == header && !layout[i].used
      requires header !in frees
      requires i + 1 < |layout| ==> (layout[i + 1].addr in frees <==> !layout[i + 1].used)
      modifies this
      ensures Drawn()
      ensures layout == PlugHoles(old(layout), i, hdr)
      ensures listed == (i > 0 && !old(layout)[i - 1].used)
      ensures j == if listed then i - 1 else i
      ensures j < |layout| && layout[j].addr == merged == old(layout)[j].addr
      ensures var s := old(layout);
        frees == if i + 1 < |s| && !s[i + 1].used then Without(old(frees), s[i + 1].addr) else old(frees)
      ensures header !in frees
      ensures availableSize == old(availableSize) + Recovered(old(layout), i, hdr)
      ensures maxUsedSize == old(maxUsedSize)
    {
      hide BlockLinks, FreeLinks, Headers, Without, Merge;
      ghost var s := layout;
      Neighbours(next, prev, used, layout, hdr, End(), i);
      merged, listed, j := header, false, i;
      if !used[prev[header]] {
        availableSize := availableSize + hdr;
        merged, listed, j := prev[header], true, i - 1;
        AbsorbNext(merged, header, j);
      }
      assert layout == PlugBackward(s, i, hdr);
      PlugBackwardAt(s, i, hdr);
      Neighbours(next, prev, used, layout, hdr, End(), j);
      if !used[next[merged]] {
        availableSize := availableSize + hdr;
        var right := next[merged];
        UnlinkFree(right);
        AbsorbNext(merged, right, j);
      }
      assert layout == PlugForward(PlugBackward(s, i, hdr), j, hdr);
      PlugForwardAt(PlugBackward(s, i, hdr), j, hdr);
      PlugOrder(s, i, hdr);
    }

    method Free(p: int)
      requires Valid() && (p == NULL || Live(layout, hdr, p))
      modifies this
      ensures Valid()
      ensures Abs() == FreeView(old(Abs()), p, hdr)
      ensures maxUsedSize == old(maxUsedSize)
    {
      hide BlockLinks, FreeLinks, Lists, Headers, Coalesced, FreeBytes, Without, PlugHoles, Tiled, Distinct;
      if p == NULL { return; }
      var header := p - hdr;
      ghost var i := Where(layout, header);
      LinksGood(next, prev, used, nextFree, prevFree, layout, frees, hdr, End());
      FreeKeeps(Abs(), p, hdr, End());
      UsedNotListedAround(frees, layout, hdr, End(), i);
      SizeOfBlock(next, prev, used, layout, hdr, End(), i);
      SetUsed(header, false, i);
      availableSize := availableSize + (next[header] - header - hdr);
      var merged, listed, j := Join(header, i);
      if !listed {
        PushFree(merged, j);
      }
    }

    /** The header of the free block behind moves up. */
    method MoveHeader(header: int, size: int, ghost i: nat) returns (x: int)
      requires Drawn() && i + 1 < |layout| && layout[i].addr == header && layout[i + 1].addr in frees
      requires layout[i].size <= size <= layout[i].size + layout[i + 1].size
      modifies `next, `prev, `used, `nextFree, `prevFree, `layout, `frees, ram
      ensures Drawn() && x == header + hdr + size
      ensures layout == Grown(old(layout), i, size, hdr) && frees == [x] + Without(old(frees), old(layout)[i + 1].addr)
      ensures SameOutside(old(ram[..]), ram[..], x, hdr)
    {
      hide BlockLinks, FreeLinks, Headers, Without, Merge, Split, SameOutside;
      Neighbours(next, prev, used, layout, hdr, End(), i);
      LinksTile(next, prev, used, layout, hdr, End());
      hide Tiled;
      Adjacent(layout, hdr, End(), i);
      ghost var s := layout;
      var nextPtr := next[header];
      UnlinkFree(nextPtr);
      AbsorbNext(header, nextPtr, i);
      MergeAt(s, i, hdr);
      x := SplitBlock(header, size, i);
      SplitAt(Merge(s, i, hdr), i, size, hdr);
      PushFree(x, i + 1);
    }

    /** rt_memheap_realloc when the free block behind is large enough to grow into. */
    method Grow(header: int, size: int, ghost i: nat)
      requires Valid() && i + 1 < |layout| && layout[i].addr == header && layout[i].used && !layout[i + 1].used
      requires layout[i].size < size && layout[i].size + layout[i + 1].size > size + MINIALLOC
      modifies this, ram
      ensures Valid()
      ensures layout == Grown(old(layout), i, size, hdr)
      ensures frees == ResizedFrees(old(layout), old(frees), i, header + hdr + size)
      ensures maxUsedSize == Max(old(maxUsedSize), poolSize - availableSize)
      ensures DataKept(old(layout), hdr, old(ram[..]), ram[..])
    {
      hide BlockLinks, FreeLinks, Lists, Headers, Coalesced, FreeBytes, Without, Grown, Tiled, Distinct, DataKept,
        SameOutside;
      LinksGood(next, prev, used, nextFree, prevFree, layout, frees, hdr, End());
      GrowKeeps(Abs(), i, size, hdr, End());
      GrownBytes(layout, i, size, hdr);
      UsedNotListedAround(frees, layout, hdr, End(), i);
      SizeOfBlock(next, prev, used, layout, hdr, End(), i);
      ghost var s, m := layout, ram[..];
      var oldSize := next[header] - header - hdr;
      availableSize := availableSize - (size - oldSize);
      if poolSize - availableSize > maxUsedSize {
        maxUsedSize := poolSize - availableSize;
      }
      var x := MoveHeader(header, size, i);
      WritesBehind(s, hdr, End(), i, size, m, ram[..]);
    }

    /** Take a free block behind `x` out of the free list and into `x`. */
    method JoinNext(x: int, ghost j: nat)
      requires Drawn() && j < |layout| && layout[j].addr == x && x !in frees
      requires j + 1 < |layout| ==> (layout[j + 1].addr in frees <==> !layout[j + 1].used)
      modifies `next, `prev, `used, `nextFree, `prevFree, `layout, `frees, `availableSize
      ensures Drawn() && x !in frees && layout == PlugForward(old(layout), j, hdr)
      ensures var s := old(layout);
        if j + 1 < |s| && !s[j + 1].used then
          frees == Without(old(frees), s[j + 1].addr) && availableSize == old(availableSize) - s[j + 1].size
        else
          frees == old(frees) && availableSize == old(availableSize)
    {
      hide BlockLinks, FreeLinks, Headers, Without, Merge;
      Neighbours(next, prev, used, layout, hdr, End(), j);
      var freePtr := next[x];
      if !used[freePtr] {
        SizeOfBlock(next, prev, used, layout, hdr, End(), j + 1);
        availableSize := availableSize - (next[freePtr] - freePtr - hdr);
        UnlinkFree(freePtr);
        AbsorbNext(x, freePtr, j);
      }
    }

    /** rt_memheap_realloc when the block is cut down. */
    method Shrink(header: int, size: int, ghost i: nat)
      requires Valid() && i < |layout| && layout[i].addr == header && layout[i].used
      requires 0 <= size && size + hdr + MINIALLOC < layout[i].size
      modifies this, ram
      ensures Valid()
      ensures layout == Shrunk(old(layout), i, size, hdr)
      ensures frees == ResizedFrees(old(layout), old(frees), i, header + hdr + size)
      ensures maxUsedSize == old(maxUsedSize)
      ensures SameOutside(old(ram[..]), ram[..], header + hdr + size, hdr)
    {
      hide BlockLinks, FreeLinks, Lists, Headers, Coalesced, FreeBytes, Without, Split, Shrunk, PlugForward, Tiled,
        Distinct, SameOutside;
      LinksGood(next, prev, used, nextFree, prevFree, layout, frees, hdr, End());
      ShrinkKeeps(Abs(), i, size, hdr, End());
      ShrunkBytes(layout, i, size, hdr);
      UsedNotListedAround(frees, layout, hdr, End(), i);
      Adjacent(layout, hdr, End(), i);
      ghost var s := layout;
      var x := SplitBlock(header, size, i);
      SplitAt(s, i, size, hdr);
      JoinNext(x, i + 1);
      ShrunkAt(s, i, size, hdr);
      SizeOfBlock(next, prev, used, layout, hdr, End(), i + 1);
      PushFree(x, i + 1);
      availableSize := availableSize + (next[x] - x - hdr);
    }

    /** rt_memheap_realloc when the block has to move. */
    method Move(p: int, n: nat, ghost i: nat) returns (q: int)
      requires Valid() && p != NULL && Live(layout, hdr, p) && i == Where(layout, p - hdr)
      requires layout[i].size < n
      modifies this, ram
      ensures Valid() && Good(old(Abs()), hdr, End()) && Findable(old(Abs())) && q != p
      ensures var (w, r) := AllocView(old(Abs()), Request(n, align), hdr);
        && q == r
        && maxUsedSize == Max(old(maxUsedSize), poolSize - FreeBytes(w.layout))
        && Live(w.layout, hdr, p)
        && Abs() == if q == NULL then old(Abs()) else FreeView(w, p, hdr)
      ensures DataKept(old(layout), hdr, old(ram[..]), ram[..])
      ensures q != NULL ==> DataMoved(old(ram[..]), ram[..], p, q, old(layout)[i].size)
    {
      hide BlockLinks, FreeLinks, Lists, Headers, Coalesced, FreeBytes, Tiled, Distinct, Allocated, AllocFrees,
        Freed, FreedFrees,
        DataKept, SameOutside, Copied, AllocView, DataMoved;
      ghost var v, m := Abs(), ram[..];
      LinksGood(next, prev, used, nextFree, prevFree, layout, frees, hdr, End());
      GoodFindable(v, hdr, End());
      StillLive(v, Request(n, align), p, hdr, End());
      AllocRoom(v, Request(n, align), hdr, End(), i);
      SizeOfBlock(next, prev, used, layout, hdr, End(), i);
      var oldSize := next[p - hdr] - (p - hdr) - hdr;
      q := Alloc(n);
      if q != NULL {
        ghost var m1 := ram[..];
        Memcpy(ram, base, word, q, p, oldSize);
        CopyWrites(m1, q, p, oldSize);
        WritesInside(v.layout, hdr, End(), Where(v.layout, q - hdr), m1, ram[..], q, oldSize);
        MovedData(v.layout, hdr, End(), i, m, m1, q, oldSize);
        KeptTwice(v.layout, hdr, m, m1, ram[..]);
        Free(p);
      }
    }

    /** rt_memheap_realloc to more bytes than the block has. */
    method Enlarge(p: int, n: nat, size: int, ghost i: nat) returns (q: int)
      requires Valid() && p != NULL && Live(layout, hdr, p) && i == Where(layout, p - hdr)
      requires n != 0 && size == Request(n, align) && layout[i].size < size
      modifies this, ram
      ensures Valid() && Good(old(Abs()), hdr, End())
      ensures (Abs(), q) == ReallocView(old(Abs()), p, n, align, hdr, End())
      ensures maxUsedSize == Max(old(maxUsedSize), poolSize - ReallocLow(old(Abs()), p, n, align, hdr, End()))
      ensures DataKept(old(layout), hdr, old(ram[..]), ram[..])
      ensures q != NULL ==> DataMoved(old(ram[..]), ram[..], p, q, old(layout)[i].size)
    {
      hide BlockLinks, FreeLinks, Lists, Headers, Coalesced, FreeBytes, Tiled, Distinct, AllocView, FreeView, Shrunk,
        Grown, ResizedFrees,
        DataKept, DataMoved, Request;
      ghost var m := ram[..];
      LinksGood(next, prev, used, nextFree, prevFree, layout, frees, hdr, End());
      Neighbours(next, prev, used, layout, hdr, End(), i);
      SizeOfBlock(next, prev, used, layout, hdr, End(), i);
      DataInPool(layout, hdr, End(), i);
      var header := p - hdr;
      var nextPtr, oldSize := next[header], next[header] - header - hdr;
      if !used[nextPtr] {
        SizeOfBlock(next, prev, used, layout, hdr, End(), i + 1);
        var nextSize := next[nextPtr] - nextPtr - hdr;
        if nextSize + oldSize > size + MINIALLOC {
          Grow(header, size, i);
          KeptIsMoved(old(layout), hdr, i, m, ram[..]);
          return p;
        }
      }
      q := Move(p, size, i);
    }

    /** rt_memheap_realloc to no more bytes than the block has. */
    method Reduce(p: int, n: nat, size: int, ghost i: nat)
      requires Valid() && p != NULL && Live(layout, hdr, p) && i == Where(layout, p - hdr)
      requires n != 0 && size == Request(n, align) && size <= layout[i].size
      modifies this, ram
      ensures Valid() && Good(old(Abs()), hdr, End())
      ensures (Abs(), p) == ReallocView(old(Abs()), p, n, align, hdr, End())
      ensures maxUsedSize == Max(old(maxUsedSize), poolSize - ReallocLow(old(Abs()), p, n, align, hdr, End()))
      ensures DataKeptBut(old(layout), hdr, p - hdr, old(ram[..]), ram[..])
      ensures DataMoved(old(ram[..]), ram[..], p, p, size)
    {
      hide BlockLinks, FreeLinks, Lists, Headers, Coalesced, FreeBytes, Distinct, AllocView, FreeView, Shrunk, Grown,
        ResizedFrees,
        DataKept, DataKeptBut, DataMoved, SameOutside, Request, Tiled;
      ghost var s, m := layout, ram[..];
      LinksGood(next, prev, used, nextFree, prevFree, layout, frees, hdr, End());
      SizeOfBlock(next, prev, used, layout, hdr, End(), i);
      DataInPool(layout, hdr, End(), i);
      Untouched(s, hdr, p - hdr, m);
      var header := p - hdr;
      var oldSize := next[header] - header - hdr;
      if size + hdr + MINIALLOC < oldSize {
        Shrink(header, size, i);
        CutBehind(s, hdr, End(), i, size, m, ram[..]);
      }
    }

    method Realloc(p: int, n: nat) returns (q: int)
      requires Valid() && (p == NULL || Live(layout, hdr, p))
      modifies this, ram
      ensures Valid() && Good(old(Abs()), hdr, End())
      ensures (Abs(), q) == ReallocView(old(Abs()), p, n, align, hdr, End())
      ensures maxUsedSize == Max(old(maxUsedSize), poolSize - ReallocLow(old(Abs()), p, n, align, hdr, End()))
      ensures DataKeptBut(old(layout), hdr, p - hdr, old(ram[..]), ram[..])
      ensures n != 0 && q == NULL ==> DataKept(old(layout), hdr, old(ram[..]), ram[..])
      ensures p != NULL && q != NULL ==>
        DataMoved(old(ram[..]), ram[..], p, q, Min(old(layout)[Where(old(layout), p - hdr)].size, Request(n, align)))
    {
      hide BlockLinks, FreeLinks, Lists, Headers, Coalesced, FreeBytes, Tiled, Distinct, AllocView, FreeView, Shrunk,
        Grown, ResizedFrees,
        DataKept, DataKeptBut, DataMoved, Request;
      ghost var s, m := layout, ram[..];
      LinksGood(next, prev, used, nextFree, prevFree, layout, frees, hdr, End());
      Untouched(s, hdr, p - hdr, m);
      if n == 0 {
        Free(p);
        return NULL;
      }
      var size := Request(n, align);
      if p == NULL {
        q := Alloc(size);
        KeptAll(s, hdr, p - hdr, m, ram[..]);
        return;
      }
      ghost var i := Where(layout, p - hdr);
      SizeOfBlock(next, prev, used, layout, hdr, End(), i);
      if size > next[p - hdr] - (p - hdr) - hdr {
        q := Enlarge(p, n, size, i);
        KeptAll(s, hdr, p - hdr, m, ram[..]);
      } else {
        Reduce(p, n, size, i);
        q := p;
      }
    }
  }
}
