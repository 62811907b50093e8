/** Headers and data of the blocks of a layout: where they lie in the pool's bytes, and which
    writes leave allocated data alone. Shared by both allocators. */
module HeapData {
  import opened Basics
  import opened Rings
  import opened HeapLayout
  import opened HeapOps
  import opened MemCopy

  const NULL: int := -2

  /** RT_ALIGN for the alignments the kernel uses, which are powers of two. */
  function AlignUp(n: nat, align: nat): (r: nat)
    requires align > 0
    ensures n <= r < n + align
  {
    n + align - 1 - (n + align - 1) % align
  }

  ghost predicate HasBlock(s: seq<Block>, a: int) {
    exists i :: 0 <= i < |s| && s[i].addr == a
  }

  /** The position of the block whose header is at `a`. */
  ghost function Where(s: seq<Block>, a: int): (i: nat)
    requires HasBlock(s, a)
    ensures i < |s| && s[i].addr == a
  {
    var i :| 0 <= i < |s| && s[i].addr == a;
    i
  }

  /** `p` is the data address of an allocated block. */
  ghost predicate Live(s: seq<Block>, hdr: nat, p: int) {
    HasBlock(s, p - hdr) && s[Where(s, p - hdr)].used
  }

  /** Bytes outside the `n` at `a` are the same in both memories. */
  ghost predicate SameOutside(m: seq<byte>, m': seq<byte>, a: int, n: int) {
    |m'| == |m| && forall x :: 0 <= x < |m| && !(a <= x < a + n) ==> m'[x] == m[x]
  }

  /** The data of every allocated block of `s` is the same in both memories. */
  ghost predicate DataKept(s: seq<Block>, hdr: nat, m: seq<byte>, m': seq<byte>) {
    && |m'| == |m|
    && forall i, x ::
         (0 <= i < |s| && s[i].used && s[i].addr + hdr <= x < s[i].addr + hdr + s[i].size && 0 <= x < |m|) ==>
           m'[x] == m[x]
  }

  /** The same, except for the block at `a`. */
  ghost predicate DataKeptBut(s: seq<Block>, hdr: nat, a: int, m: seq<byte>, m': seq<byte>) {
    && |m'| == |m|
    && forall i, x ::
         (0 <= i < |s| && s[i].used && s[i].addr != a
          && s[i].addr + hdr <= x < s[i].addr + hdr + s[i].size && 0 <= x < |m|) ==> m'[x] == m[x]
  }

  lemma WritesInside(s: seq<Block>, hdr: nat, end: int, i: nat, m: seq<byte>, m': seq<byte>, a: int, n: int)
    requires Tiled(s, hdr, end) && i < |s| && SameOutside(m, m', a, n)
    requires s[i].addr + hdr <= a && a + n <= s[i].addr + hdr + s[i].size
    ensures DataKeptBut(s, hdr, s[i].addr, m, m')
    ensures !s[i].used ==> DataKept(s, hdr, m, m')
  {
    forall j, x |
        0 <= j < |s| && s[j].used && j != i && s[j].addr + hdr <= x < s[j].addr + hdr + s[j].size && 0 <= x < |m|
      ensures m'[x] == m[x]
    {
      Apart(s, hdr, end, i, j);
    }
  }

  lemma Adjacent(s: seq<Block>, hdr: nat, end: int, i: nat)
    requires Tiled(s, hdr, end) && i < |s|
    ensures s[i].size >= 0
    ensures i + 1 < |s| ==> s[i + 1].addr == s[i].addr + hdr + s[i].size && s[i + 1].size >= 0
  {
    assert Fits(s, i, hdr, end);
    if i + 1 < |s| { assert Fits(s, i + 1, hdr, end); }
  }

  /** A write that touches only bytes gained from the next block disturbs no allocated data. */
  lemma WritesBehind(s: seq<Block>, hdr: nat, end: int, i: nat, size: int, m: seq<byte>, m': seq<byte>)
    requires Tiled(s, hdr, end) && i + 1 < |s| && !s[i + 1].used
    requires s[i].size <= size <= s[i].size + s[i + 1].size
    requires SameOutside(m, m', s[i].addr + hdr + size, hdr)
    ensures DataKept(s, hdr, m, m')
  {
    Adjacent(s, hdr, end, i);
    forall j, x | 0 <= j < |s| && s[j].used && s[j].addr + hdr <= x < s[j].addr + hdr + s[j].size && 0 <= x < |m|
      ensures m'[x] == m[x]
    {
      if j != i {
        Apart(s, hdr, end, i, j);
        Apart(s, hdr, end, i + 1, j);
      }
    }
  }

  /** The `k` bytes that were at `p` are now at `q`. */
  ghost predicate DataMoved(m: seq<byte>, m': seq<byte>, p: int, q: int, k: int) {
    0 <= p <= p + k <= |m| && 0 <= q <= q + k <= |m'| && m'[q..q + k] == m[p..p + k]
  }

  lemma DataInPool(s: seq<Block>, hdr: nat, end: int, i: nat)
    requires Tiled(s, hdr, end) && i < |s|
    ensures 0 <= s[i].addr && 0 <= s[i].size && s[i].addr + hdr + s[i].size <= end
  {
    Bounds(s, hdr, end, i);
  }

  lemma SameSlice(m: seq<byte>, m': seq<byte>, p: nat, q: nat, k: nat)
    requires p + k <= |m| && q + k <= |m'| && forall x :: q <= x < q + k ==> m'[x] == m[p + (x - q)]
    ensures m'[q..q + k] == m[p..p + k]
  {
    var a, b := m[p..p + k], m'[q..q + k];
    forall j | 0 <= j < k ensures b[j] == a[j] { assert b[j] == m'[q + j]; }
  }

  lemma KeptIsMoved(s: seq<Block>, hdr: nat, i: nat, m: seq<byte>, m': seq<byte>)
    requires i < |s| && s[i].used && s[i].size >= 0 && DataKept(s, hdr, m, m')
    requires 0 <= s[i].addr && s[i].addr + hdr + s[i].size <= |m|
    ensures DataMoved(m, m', s[i].addr + hdr, s[i].addr + hdr, s[i].size)
  {
    var p, k := s[i].addr + hdr, s[i].size;
    SameSlice(m, m', p, p, k);
  }

  lemma MovedData(s: seq<Block>, hdr: nat, end: int, i: nat, m: seq<byte>, m1: seq<byte>, q: nat, n: nat)
    requires Tiled(s, hdr, end) && end <= |m| && i < |s| && s[i].used && DataKept(s, hdr, m, m1)
    requires 0 <= s[i].addr && n <= s[i].size && s[i].addr + hdr + s[i].size <= end && q + n <= |m|
    ensures DataMoved(m, Copied(m1, q, s[i].addr + hdr, n), s[i].addr + hdr, q, n)
  {
    var p, m2 := s[i].addr + hdr, Copied(m1, q, s[i].addr + hdr, n);
    forall x | q <= x < q + n ensures m2[x] == m[p + (x - q)] {
      assert m2[x] == m1[p + (x - q)];
    }
    SameSlice(m, m2, p, q, n);
  }

  lemma CopyWrites(m: seq<byte>, dst: nat, src: nat, n: nat)
    requires dst + n <= |m| && src + n <= |m|
    ensures SameOutside(m, Copied(m, dst, src, n), dst, n)
  {
  }

  lemma KeptTwice(s: seq<Block>, hdr: nat, m: seq<byte>, m1: seq<byte>, m2: seq<byte>)
    requires DataKept(s, hdr, m, m1) && DataKept(s, hdr, m1, m2)
    ensures DataKept(s, hdr, m, m2)
  {
  }

  lemma KeptAll(s: seq<Block>, hdr: nat, a: int, m: seq<byte>, m': seq<byte>)
    requires DataKept(s, hdr, m, m')
    ensures DataKeptBut(s, hdr, a, m, m')
  {
  }

  /** Nothing is written. */
  lemma Untouched(s: seq<Block>, hdr: nat, a: int, m: seq<byte>)
    ensures DataKept(s, hdr, m, m) && DataKeptBut(s, hdr, a, m, m)
    ensures forall p, k :: 0 <= p <= p + k <= |m| ==> DataMoved(m, m, p, p, k)
  {
  }

  /** A write behind the first bytes of an allocated block. */
  lemma CutBehind(s: seq<Block>, hdr: nat, end: int, i: nat, size: int, m: seq<byte>, m': seq<byte>)
    requires Tiled(s, hdr, end) && end <= |m| && i < |s| && 0 <= size && size + hdr <= s[i].size
    requires SameOutside(m, m', s[i].addr + hdr + size, hdr)
    ensures DataKeptBut(s, hdr, s[i].addr, m, m') && DataMoved(m, m', s[i].addr + hdr, s[i].addr + hdr, size)
  {
    DataInPool(s, hdr, end, i);
    WritesInside(s, hdr, end, i, m, m', s[i].addr + hdr + size, hdr);
  }

  lemma HasHeader(s: seq<Block>, hdr: nat, end: int)
    requires Tiled(s, hdr, end)
    ensures hdr > 0
  {
  }

  /** No free block starts strictly inside another block. */
  lemma NotFreeInside(s: seq<Block>, i: nat, x: int, hdr: nat, end: int)
    requires Tiled(s, hdr, end) && i < |s| && s[i].addr < x < s[i].addr + hdr + s[i].size
    ensures !FreeAt(s, x)
  {
    Bounds(s, hdr, end, i);
    InsideIsNoMark(s, hdr, end, i, x);
    forall j | 0 <= j < |s| ensures s[j].addr != x { assert Marks(s, end)[j] == s[j].addr; }
  }

  /** All header addresses, the tail's included. */
  ghost function Headers(s: seq<Block>, end: int): set<int> {
    set a | a in Marks(s, end)
  }

  ghost predicate Flags(used: map<int, bool>, s: seq<Block>, end: int) {
    && (forall i :: 0 <= i < |s| ==> s[i].addr in used && used[s[i].addr] == s[i].used)
    && end in used && used[end]
  }

  lemma SplitMarks(s: seq<Block>, i: nat, size: int, hdr: nat, end: int)
    requires Tiled(s, hdr, end) && i < |s| && 0 <= size && size + hdr <= s[i].size
    ensures var r, x := Split(s, i, size, hdr), s[i].addr + hdr + size;
      && Tiled(r, hdr, end)
      && Marks(r, end) == Inserted(Marks(s, end), i, x) && x !in Marks(s, end)
      && x !in Headers(s, end) && Headers(r, end) == Headers(s, end) + {x}
      && 0 <= x && x + hdr <= s[i].addr + hdr + s[i].size <= end
  {
    hide Tiled, Marks, Split, Inserted;
    var x := s[i].addr + hdr + size;
    HasHeader(s, hdr, end);
    DataInPool(s, hdr, end, i);
    NextIs(s, hdr, end, i);
    InsideIsNoMark(s, hdr, end, i, x);
    MarksOfSplit(s, i, size, hdr, end);
    SplitTiled(s, i, size, hdr, end);
    MarksLength(s, end);
    MembersInserted(Marks(s, end), i, x);
  }

  lemma NextIs(s: seq<Block>, hdr: nat, end: int, i: nat)
    requires Tiled(s, hdr, end) && i < |s|
    ensures NextAddr(s, i, end) == s[i].addr + hdr + s[i].size
  {
    assert Fits(s, i, hdr, end);
  }

  lemma MarksLength(s: seq<Block>, end: int)
    ensures |Marks(s, end)| == |s| + 1
  {
  }

  lemma SplitFlags(used: map<int, bool>, s: seq<Block>, i: nat, size: int, hdr: nat, end: int)
    requires Flags(used, s, end) && i < |s|
    requires s[i].addr + hdr + size !in Marks(s, end)
    ensures Flags(used[s[i].addr + hdr + size := false], Split(s, i, size, hdr), end)
  {
    var x, m, r := s[i].addr + hdr + size, Marks(s, end), Split(s, i, size, hdr);
    forall j | 0 <= j < |r|
      ensures r[j].addr in used[x := false] && used[x := false][r[j].addr] == r[j].used
    {
      if j != i + 1 {
        var k := if j <= i then j else j - 1;
        assert m[k] == s[k].addr == r[j].addr;
      }
    }
    assert m[|s|] == end;
  }

  lemma MergeMarks(s: seq<Block>, i: nat, hdr: nat, end: int)
    requires Tiled(s, hdr, end) && i + 1 < |s|
    ensures var r, b := Merge(s, i, hdr), s[i + 1].addr;
      && Tiled(r, hdr, end)
      && Marks(r, end) == Dropped(Marks(s, end), i + 1)
      && Headers(r, end) == Headers(s, end) - {b}
      && b >= 0
  {
    hide Tiled, Marks, Merge, Dropped;
    HasHeader(s, hdr, end);
    MarksLength(s, end);
    MarkAt(s, i + 1, end);
    DataInPool(s, hdr, end, i + 1);
    MarksOfMerge(s, i, hdr, end);
    MergeTiled(s, i, hdr, end);
    MarksDistinct(s, hdr, end);
    MembersDropped(Marks(s, end), i + 1);
  }

  lemma MarkAt(s: seq<Block>, i: nat, end: int)
    requires i < |s|
    ensures |Marks(s, end)| == |s| + 1 && Marks(s, end)[i] == s[i].addr
  {
  }

  lemma MergeFlags(used: map<int, bool>, s: seq<Block>, i: nat, hdr: nat, end: int)
    requires Flags(used, s, end) && i + 1 < |s| && Distinct(Marks(s, end))
    ensures Flags(used - {s[i + 1].addr}, Merge(s, i, hdr), end)
  {
    var m, r := Marks(s, end), Merge(s, i, hdr);
    forall j | 0 <= j < |r|
      ensures r[j].addr in used - {s[i + 1].addr} && used[r[j].addr] == r[j].used
    {
      var k := if j <= i then j else j + 1;
      assert m[k] == s[k].addr == r[j].addr && m[k] != m[i + 1];
    }
    assert m[|s|] != m[i + 1];
  }

  lemma MarkHeaders(s: seq<Block>, i: nat, end: int, flag: bool)
    requires i < |s|
    ensures Headers(Mark(s, i, flag), end) == Headers(s, end)
  {
    MarksOfMark(s, i, end, flag);
  }

  lemma MarkFlags(used: map<int, bool>, s: seq<Block>, i: nat, flag: bool, end: int)
    requires Flags(used, s, end) && i < |s| && Distinct(Marks(s, end))
    ensures Flags(used[s[i].addr := flag], Mark(s, i, flag), end)
  {
    var m := Marks(s, end);
    forall j | 0 <= j < |s| && j != i ensures s[j].addr != s[i].addr { assert m[j] != m[i]; }
    assert m[i] != m[|s|];
  }
}
