/** Buffers cut into slots of equal size, as rt_mp_init and rt_mq_init cut them: a pointer in
    front and the data behind it. Offsets are from the start of the buffer. */
module Slots {
  import opened Basics
  import opened HeapData

  /** Slot `i` of size `stride` starts here. */
  function At(i: int, stride: int): int {
    i * stride
  }

  /** How many slots there are. */
  function Count(size: nat, stride: nat): nat
    requires stride > 0
  {
    size / stride
  }

  lemma Consecutive(i: int, stride: int)
    ensures At(i + 1, stride) == At(i, stride) + stride
  {
  }

  lemma {:induction false} Apart(i: nat, j: nat, stride: nat)
    requires i < j
    ensures At(i, stride) + stride <= At(j, stride)
    decreases j
  {
    Consecutive(j - 1, stride);
    if i + 1 < j { Apart(i, j - 1, stride); }
  }

  /** As many slots as fit are inside, and one more would not be. */
  lemma Inside(size: nat, stride: nat, i: nat)
    requires stride > 0 && i < Count(size, stride)
    ensures 0 <= At(i, stride) && At(i, stride) + stride <= size
  {
    var n := Count(size, stride);
    assert At(n, stride) == size - size % stride;
    Apart(i, n, stride);
    if i > 0 { Apart(0, i, stride); }
  }

  lemma SomeIff(size: nat, stride: nat)
    requires stride > 0
    ensures Count(size, stride) > 0 <==> stride <= size
  {
    var n := Count(size, stride);
    assert size == At(n, stride) + size % stride;
    if n > 0 { Inside(size, stride, 0); }
  }

  // ----- memory pools

  /** The arguments of rt_mp_init, RT_ALIGN_SIZE and sizeof(rt_uint8_t *). */
  datatype PoolShape = PoolShape(size: nat, blockSize: nat, align: nat, ptr: nat) {
    ghost predicate Sound() {
      0 < align && 0 < ptr && 0 < blockSize && size < SPACE && Stride() < SPACE
    }

    /** mp->size. */
    function Bytes(): nat
      requires align > 0
    {
      size - size % align
    }

    /** mp->block_size. */
    function Data(): nat
      requires align > 0
    {
      AlignUp(blockSize, align)
    }

    function Stride(): nat
      requires align > 0
    {
      Data() + ptr
    }

    /** mp->block_total_count. */
    function Total(): nat
      requires align > 0 && ptr > 0
    {
      Count(Bytes(), Stride())
    }

    /** Where a block's link is stored, as the 32-bit product the code computes. The last store of
        rt_mp_init uses offset - 1, which for an empty pool is -1. */
    function LinkAt(i: int): int
      requires align > 0
    {
      At(i, Stride()) % SPACE
    }

    /** The store of a link at `x` stays inside the pool. */
    ghost predicate Holds(x: int)
      requires align > 0
    {
      0 <= x && x + ptr <= Bytes()
    }
  }

  lemma LinkIsSlot(g: PoolShape, i: nat)
    requires g.Sound() && i < g.Total()
    ensures g.LinkAt(i) == At(i, g.Stride()) && g.Holds(g.LinkAt(i))
  {
    Inside(g.Bytes(), g.Stride(), i);
  }

  /** The store behind the loop is at the last block, or one stride below the pool. */
  lemma LastLink(g: PoolShape)
    requires g.Sound()
    ensures g.Total() > 0 ==> g.Holds(g.LinkAt(g.Total() - 1))
    ensures g.Total() == 0 ==> g.LinkAt(-1) == SPACE - g.Stride()
  {
    if g.Total() > 0 {
      LinkIsSlot(g, g.Total() - 1);
    } else {
      assert At(-1, g.Stride()) == 0 - g.Stride();
    }
  }

  /** Where rt_mp_init stores links: one store per turn of its loop, and the null behind it. */
  function LinkStores(g: PoolShape): seq<int>
    requires g.align > 0 && g.ptr > 0
  {
    seq(g.Total() + 1, i => g.LinkAt(if i < g.Total() then i else g.Total() - 1))
  }

  ghost predicate AllInside(g: PoolShape)
    requires g.align > 0 && g.ptr > 0
  {
    forall i :: 0 <= i < |LinkStores(g)| ==> g.Holds(LinkStores(g)[i])
  }

  /** All stores stay inside the pool exactly if it has room for a block, or if pool and block are
      so large that the wrapped offset comes down inside it. */
  lemma StoresInsideIff(g: PoolShape)
    requires g.Sound()
    ensures AllInside(g) <==> g.Stride() <= g.Bytes() || SPACE + g.ptr <= g.Bytes() + g.Stride()
  {
    var stores, n: int := LinkStores(g), g.Total();
    SomeIff(g.Bytes(), g.Stride());
    LastLink(g);
    assert stores[n] == g.LinkAt(n - 1);
    forall i | 0 <= i < n ensures g.Holds(stores[i]) { LinkIsSlot(g, i); }
  }

  /** For every pool and block that fit the address space together it is the room that decides. */
  lemma RoomDecides(g: PoolShape)
    requires g.Sound() && g.Bytes() + g.Stride() <= SPACE
    ensures AllInside(g) <==> g.Stride() <= g.Bytes()
  {
    StoresInsideIff(g);
  }

  /** The data of a block lies inside the pool, behind its own link. */
  lemma BlockInside(g: PoolShape, i: nat)
    requires g.Sound() && i < g.Total()
    ensures var x := g.LinkAt(i) + g.ptr; g.ptr <= x && x + g.Data() <= g.Bytes()
  {
    Inside(g.Bytes(), g.Stride(), i);
    LinkIsSlot(g, i);
  }

  /** Different blocks, links included, do not overlap. */
  lemma BlocksApart(g: PoolShape, i: nat, j: nat)
    requires g.Sound() && i < j < g.Total()
    ensures g.LinkAt(i) + g.Stride() <= g.LinkAt(j)
  {
    LinkIsSlot(g, i);
    LinkIsSlot(g, j);
    Apart(i, j, g.Stride());
  }

  /** Eight bytes with blocks of sixteen: there is no block, and the null goes 20 bytes below the
      pool. */
  lemma TooSmallPool()
    ensures var g := PoolShape(8, 16, 4, 4);
      g.Sound() && g.Total() == 0 && LinkStores(g) == [SPACE - 20] && !AllInside(g)
  {
    var g := PoolShape(8, 16, 4, 4);
    assert g.Stride() == 20 && g.Bytes() == 8;
    LastLink(g);
    assert LinkStores(g)[0] == SPACE - 20;
  }

  // ----- message pools

  /** The arguments of rt_mq_init, RT_ALIGN_SIZE and sizeof(struct rt_mq_message). Both results
      are stored in 16 bits. */
  datatype QueueShape = QueueShape(poolSize: nat, msgSize: nat, align: nat, node: nat) {
    ghost predicate Sound() {
      0 < align && 0 < node
    }

    function Text(): nat
      requires align > 0
    {
      AlignUp(msgSize, align) % 0x1_0000
    }

    function Stride(): nat
      requires align > 0
    {
      Text() + node
    }

    function MaxMsgs(): nat
      requires align > 0 && node > 0
    {
      Count(poolSize, Stride()) % 0x1_0000
    }
  }

  /** Nodes lie inside the message pool and apart from each other. */
  lemma NodesApart(g: QueueShape, i: nat, j: nat)
    requires g.Sound() && i < j < g.MaxMsgs()
    ensures 0 <= At(i, g.Stride()) && At(i, g.Stride()) + g.Stride() <= At(j, g.Stride())
    ensures At(j, g.Stride()) + g.Stride() <= g.poolSize
  {
    assert g.MaxMsgs() <= Count(g.poolSize, g.Stride());
    Inside(g.poolSize, g.Stride(), i);
    Inside(g.poolSize, g.Stride(), j);
    Apart(i, j, g.Stride());
  }

  lemma NodeInside(g: QueueShape, i: nat)
    requires g.Sound() && i < g.MaxMsgs()
    ensures 0 <= At(i, g.Stride()) && At(i, g.Stride()) + g.node + g.Text() <= g.poolSize
  {
    assert g.MaxMsgs() <= Count(g.poolSize, g.Stride());
    Inside(g.poolSize, g.Stride(), i);
  }

  /** The aligned message size is kept, and every node that fits is used, exactly while both
      numbers fit 16 bits. */
  lemma QueueTruncatesIff(g: QueueShape)
    requires g.Sound()
    ensures g.Text() == AlignUp(g.msgSize, g.align) <==> AlignUp(g.msgSize, g.align) < 0x1_0000
    ensures g.MaxMsgs() == Count(g.poolSize, g.Stride()) <==> Count(g.poolSize, g.Stride()) < 0x1_0000
  {
    hide AlignUp;
    Truncated(AlignUp(g.msgSize, g.align));
    Truncated(Count(g.poolSize, g.Stride()));
  }

  lemma Truncated(x: nat)
    ensures x % 0x1_0000 == x <==> x < 0x1_0000
  {
  }
}
