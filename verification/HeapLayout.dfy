/** The picture both heap allocators maintain: a pool cut into consecutive blocks, each a
    header of `hdr` bytes followed by `size` data bytes, up to a tail header at `end`.
    `mem.c` and `memheap.c` differ in how they link the headers; what a split or a merge
    does to the picture is the same and is stated here once. */
module HeapLayout {
  import opened Rings

  datatype Block = Block(addr: int, size: int, used: bool)

  function NextAddr(s: seq<Block>, i: nat, end: int): int
    requires i < |s|
  {
    if i + 1 < |s| then s[i + 1].addr else end
  }

  ghost predicate Fits(s: seq<Block>, i: nat, hdr: nat, end: int)
    requires i < |s|
  {
    s[i].size >= 0 && s[i].addr + hdr + s[i].size == NextAddr(s, i, end)
  }

  /** The blocks tile the pool from address 0 to `end`, in address order. */
  ghost predicate Tiled(s: seq<Block>, hdr: nat, end: int) {
    && hdr > 0
    && |s| > 0
    && s[0].addr == 0
    && forall i :: 0 <= i < |s| ==> Fits(s, i, hdr, end)
  }

  /** No two neighbouring blocks are both free. */
  ghost predicate Coalesced(s: seq<Block>) {
    forall i {:trigger s[i]} :: 0 <= i < |s| - 1 ==> s[i].used || s[i + 1].used
  }

  lemma {:induction false} Ordered(s: seq<Block>, hdr: nat, end: int, i: nat, j: nat)
    requires Tiled(s, hdr, end) && i < j < |s|
    ensures s[i].addr + hdr + s[i].size <= s[j].addr
  {
    assert Fits(s, i, hdr, end);
    if i + 1 < j {
      Ordered(s, hdr, end, i, j - 1);
      assert Fits(s, j - 1, hdr, end);
    }
  }

  lemma Bounds(s: seq<Block>, hdr: nat, end: int, i: nat)
    requires Tiled(s, hdr, end) && i < |s|
    ensures 0 <= s[i].addr && 0 <= s[i].size
    ensures s[i].addr + hdr + s[i].size == NextAddr(s, i, end) <= end
  {
    var z := |s| - 1;
    assert Fits(s, i, hdr, end) && Fits(s, 0, hdr, end) && Fits(s, z, hdr, end);
    if i > 0 { Ordered(s, hdr, end, 0, i); }
    if i < z { Ordered(s, hdr, end, i, z); }
  }

  /** The data areas of two different blocks do not meet, nor does one meet the other's header. */
  lemma Apart(s: seq<Block>, hdr: nat, end: int, i: nat, j: nat)
    requires Tiled(s, hdr, end) && i < |s| && j < |s| && i != j
    ensures s[i].addr + hdr + s[i].size <= s[j].addr || s[j].addr + hdr + s[j].size <= s[i].addr
  {
    if i < j { Ordered(s, hdr, end, i, j); } else { Ordered(s, hdr, end, j, i); }
  }

  /** `s` with the `k` blocks from position `i` on exchanged for `mid`. */
  function Replace(s: seq<Block>, i: nat, k: nat, mid: seq<Block>): (r: seq<Block>)
    requires i + k <= |s|
    ensures |r| == |s| - k + |mid|
    ensures forall j {:trigger r[j]} :: 0 <= j < |r| ==>
      r[j] == if j < i then s[j] else if j < i + |mid| then mid[j - i] else s[j - |mid| + k]
  {
    s[..i] + mid + s[i + k..]
  }

  /** Keep `size` bytes of block `i` and make the rest a free block of its own. */
  function Split(s: seq<Block>, i: nat, size: int, hdr: nat): (r: seq<Block>)
    requires i < |s|
  {
    Replace(s, i, 1,
      [Block(s[i].addr, size, s[i].used), Block(s[i].addr + hdr + size, s[i].size - size - hdr, false)])
  }

  /** Let block `i` swallow the header and the data of block `i + 1`. */
  function Merge(s: seq<Block>, i: nat, hdr: nat): (r: seq<Block>)
    requires i + 1 < |s|
  {
    Replace(s, i, 2, [Block(s[i].addr, s[i].size + hdr + s[i + 1].size, s[i].used)])
  }

  function Mark(s: seq<Block>, i: nat, used: bool): (r: seq<Block>)
    requires i < |s|
  {
    s[i := s[i].(used := used)]
  }

  lemma SplitTiled(s: seq<Block>, i: nat, size: int, hdr: nat, end: int)
    requires Tiled(s, hdr, end) && i < |s|
    requires 0 <= size && size + hdr <= s[i].size
    ensures Tiled(Split(s, i, size, hdr), hdr, end)
  {
    var r := Split(s, i, size, hdr);
    forall j | 0 <= j < |r|
      ensures Fits(r, j, hdr, end)
    {
      assert Fits(s, if j <= i then j else j - 1, hdr, end);
    }
  }

  lemma MergeTiled(s: seq<Block>, i: nat, hdr: nat, end: int)
    requires Tiled(s, hdr, end) && i + 1 < |s|
    ensures Tiled(Merge(s, i, hdr), hdr, end)
  {
    var r := Merge(s, i, hdr);
    assert Fits(s, i, hdr, end) && Fits(s, i + 1, hdr, end);
    forall j | 0 <= j < |r|
      ensures Fits(r, j, hdr, end)
    {
      assert Fits(s, if j <= i then j else j + 1, hdr, end);
    }
  }

  lemma MarkTiled(s: seq<Block>, i: nat, hdr: nat, end: int, used: bool)
    requires Tiled(s, hdr, end) && i < |s|
    ensures Tiled(Mark(s, i, used), hdr, end)
  {
    var r := Mark(s, i, used);
    forall j | 0 <= j < |r|
      ensures Fits(r, j, hdr, end)
    {
      assert Fits(s, j, hdr, end);
    }
  }

  /** Header addresses in order, the tail header last. */
  function Marks(s: seq<Block>, end: int): (m: seq<int>)
    ensures |m| == |s| + 1
    ensures forall j :: 0 <= j < |m| ==> m[j] == if j < |s| then s[j].addr else end
  {
    seq(|s| + 1, j requires 0 <= j < |s| + 1 => if j < |s| then s[j].addr else end)
  }

  lemma MarksDistinct(s: seq<Block>, hdr: nat, end: int)
    requires Tiled(s, hdr, end)
    ensures Distinct(Marks(s, end))
  {
    var m := Marks(s, end);
    forall i, j | 0 <= i < j < |m|
      ensures m[i] != m[j]
    {
      Bounds(s, hdr, end, i);
      if j < |s| { Ordered(s, hdr, end, i, j); }
    }
  }

  /** An address strictly inside a block is nobody's header. */
  lemma InsideIsNoMark(s: seq<Block>, hdr: nat, end: int, i: nat, a: int)
    requires Tiled(s, hdr, end) && i < |s|
    requires s[i].addr < a < NextAddr(s, i, end)
    ensures a !in Marks(s, end)
  {
    Bounds(s, hdr, end, i);
    forall j | 0 <= j < |s|
      ensures s[j].addr != a
    {
      if j != i { Apart(s, hdr, end, i, j); Bounds(s, hdr, end, j); }
    }
  }

  lemma MarksOfSplit(s: seq<Block>, i: nat, size: int, hdr: nat, end: int)
    requires i < |s|
    ensures Marks(Split(s, i, size, hdr), end) == Inserted(Marks(s, end), i, s[i].addr + hdr + size)
  {
  }

  lemma MarksOfMerge(s: seq<Block>, i: nat, hdr: nat, end: int)
    requires i + 1 < |s|
    ensures Marks(Merge(s, i, hdr), end) == Dropped(Marks(s, end), i + 1)
  {
  }

  lemma MarksOfMark(s: seq<Block>, i: nat, end: int, used: bool)
    requires i < |s|
    ensures Marks(Mark(s, i, used), end) == Marks(s, end)
  {
  }

  // ----- sums over blocks

  /** The weights of the first `n` blocks. */
  function Total(s: seq<Block>, n: nat, w: Block -> int): int
    requires n <= |s|
  {
    if n == 0 then 0 else Total(s, n - 1, w) + w(s[n - 1])
  }

  function FreeWeight(b: Block): int {
    if b.used then 0 else b.size
  }

  /** Data bytes in free blocks. */
  function FreeBytes(s: seq<Block>): int {
    Total(s, |s|, FreeWeight)
  }

  /** The free bytes are at least those of any one free block, and no more exactly if all other
      free blocks are empty. */
  lemma {:induction false} OneFreeBlock(s: seq<Block>, n: nat, i: nat)
    requires i < n <= |s| && !s[i].used && forall j :: 0 <= j < n ==> s[j].size >= 0
    ensures Total(s, n, FreeWeight) >= s[i].size
    ensures Total(s, n, FreeWeight) == s[i].size <==> forall j :: 0 <= j < n && j != i && !s[j].used ==> s[j].size == 0
  {
    if n - 1 > i {
      OneFreeBlock(s, n - 1, i);
    } else {
      SomeFreeBytes(s, i);
    }
  }

  lemma {:induction false} SomeFreeBytes(s: seq<Block>, n: nat)
    requires n <= |s| && forall j :: 0 <= j < n ==> s[j].size >= 0
    ensures Total(s, n, FreeWeight) >= 0
    ensures Total(s, n, FreeWeight) == 0 <==> forall j :: 0 <= j < n && !s[j].used ==> s[j].size == 0
  {
    if n > 0 { SomeFreeBytes(s, n - 1); }
  }

  function FootprintWeight(hdr: nat, used: bool): Block -> int {
    (b: Block) => if b.used == used then hdr + b.size else 0
  }

  /** Header and data bytes of the blocks that are used, or that are free. */
  function Footprint(s: seq<Block>, hdr: nat, used: bool): int {
    Total(s, |s|, FootprintWeight(hdr, used))
  }

  /** Equal stretches of two layouts weigh the same. */
  lemma {:induction false} TotalStretch(s: seq<Block>, i: nat, r: seq<Block>, j: nat, n: nat, w: Block -> int)
    requires i + n <= |s| && j + n <= |r|
    requires s[i..i + n] == r[j..j + n]
    ensures Total(s, i + n, w) - Total(s, i, w) == Total(r, j + n, w) - Total(r, j, w)
  {
    if n > 0 {
      SliceInit(s, i, n);
      SliceInit(r, j, n);
      TotalStretch(s, i, r, j, n - 1, w);
    }
  }

  lemma SliceInit(s: seq<Block>, i: nat, n: nat)
    requires 0 < n && i + n <= |s|
    ensures s[i..i + n - 1] == s[i..i + n][..n - 1] && s[i + n - 1] == s[i..i + n][n - 1]
  {
  }

  lemma TotalReplace(s: seq<Block>, i: nat, k: nat, mid: seq<Block>, w: Block -> int)
    requires i + k <= |s|
    ensures var r := Replace(s, i, k, mid);
      Total(r, |r|, w) == Total(s, |s|, w) - Total(s, i + k, w) + Total(s, i, w)
                          + Total(r, i + |mid|, w) - Total(r, i, w)
  {
    var r := Replace(s, i, k, mid);
    assert s[i + k..|s|] == r[i + |mid|..|r|];
    assert s[0..i] == r[0..i];
    TotalStretch(s, i + k, r, i + |mid|, |s| - i - k, w);
    TotalStretch(s, 0, r, 0, i, w);
  }

  lemma TotalSplit(s: seq<Block>, i: nat, size: int, hdr: nat, w: Block -> int)
    requires i < |s|
    ensures var r := Split(s, i, size, hdr);
      Total(r, |r|, w) == Total(s, |s|, w) - w(s[i]) + w(r[i]) + w(r[i + 1])
  {
    var mid := [Block(s[i].addr, size, s[i].used), Block(s[i].addr + hdr + size, s[i].size - size - hdr, false)];
    TotalReplace(s, i, 1, mid, w);
  }

  lemma TotalMerge(s: seq<Block>, i: nat, hdr: nat, w: Block -> int)
    requires i + 1 < |s|
    ensures var r := Merge(s, i, hdr);
      Total(r, |r|, w) == Total(s, |s|, w) - w(s[i]) - w(s[i + 1]) + w(r[i])
  {
    TotalReplace(s, i, 2, [Block(s[i].addr, s[i].size + hdr + s[i + 1].size, s[i].used)], w);
  }

  lemma TotalMark(s: seq<Block>, i: nat, used: bool, w: Block -> int)
    requires i < |s|
    ensures var r := Mark(s, i, used); Total(r, |r|, w) == Total(s, |s|, w) - w(s[i]) + w(r[i])
  {
    var mid := [s[i].(used := used)];
    assert Mark(s, i, used) == Replace(s, i, 1, mid);
    TotalReplace(s, i, 1, mid, w);
  }

  /** Headers and data of used and free blocks together fill the pool up to each header. */
  lemma {:induction false} FootprintsFillPool(s: seq<Block>, hdr: nat, end: int, n: nat)
    requires Tiled(s, hdr, end) && n <= |s|
    ensures Total(s, n, FootprintWeight(hdr, true)) + Total(s, n, FootprintWeight(hdr, false))
         == if n < |s| then s[n].addr else end
  {
    if n > 0 {
      FootprintsFillPool(s, hdr, end, n - 1);
      assert Fits(s, n - 1, hdr, end);
    }
  }
}
