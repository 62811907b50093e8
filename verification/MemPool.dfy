/** mempool.c: blocks of equal size, the free ones linked through their first word, and
    threads that wait for a block at the front of a list. */
module MemPools {
  import opened Rings
  import opened WaitLists
  import opened Waiting
  import opened Chains
  import opened Slots

  /** What the first word of an allocated block holds: the pool it belongs to. */
  const OWNED: int := -2

  /** `total` blocks, numbered from 0; those not listed in `free` are handed out. */
  datatype Pool = Pool(total: nat, free: seq<int>, waiters: Waiters) {
    ghost predicate Allocated(b: int) {
      0 <= b < total && b !in free
    }
  }

  ghost predicate Good(p: Pool) {
    && Distinct(p.free)
    && (forall b :: b in p.free ==> 0 <= b < p.total)
    && p.waiters.Served(|p.free|)
  }

  /** One interrupts-disabled region; a block number names what an allocation returned. */
  datatype Op = Alloc(t: Thread, wait: bool) | Free(b: int) | Timeout(t: Thread)

  ghost predicate Enabled(p: Pool, op: Op) {
    match op
    case Alloc(t, _) => t !in p.waiters.queue
    case Free(b) => b == NIL || p.Allocated(b)
    case Timeout(t) => t in p.waiters.queue
  }

  /** A waiting thread is put in front of those already waiting. */
  ghost function Step(p: Pool, op: Op): Pool
    requires Enabled(p, op)
  {
    match op
    case Alloc(t, wait) =>
      if p.free == [] then p.(waiters := if wait then p.waiters.Blocked(t, 0) else p.waiters.Left(t))
      else p.(free := p.free[1..], waiters := p.waiters.Left(t))
    case Free(b) => if b == NIL then p else p.(free := [b] + p.free, waiters := p.waiters.WakeFirst())
    case Timeout(t) => p.(waiters := p.waiters.Expired(t))
  }

  lemma StepKeeps(p: Pool, op: Op)
    requires Good(p) && Enabled(p, op)
    ensures Good(Step(p, op))
  {
    match op
    case Alloc(t, wait) =>
      if p.free == [] {
        if wait { BlockedServes(p.waiters, t, 0); } else { RefusedServes(p.waiters, t); }
      } else {
        TakenServes(p.waiters, t, |p.free|);
        var r := p.free[1..];
        forall b | b in r ensures 0 <= b < p.total { assert b in p.free; }
        assert forall i :: 0 <= i < |r| ==> r[i] == p.free[i + 1];
      }
    case Free(b) => WakeServes(p.waiters, |p.free|);
    case Timeout(t) => ExpiredServes(p.waiters, t, |p.free|);
  }

  /** In every interleaving the free list is a set of the pool's blocks, and waiters are queued
      only while every free block is promised to a thread that has been woken for it. */
  lemma {:induction false} EveryRun(ops: seq<Op>, trace: seq<Pool>)
    requires |trace| == |ops| + 1 && Good(trace[0])
    requires forall i :: 0 <= i < |ops| ==> Enabled(trace[i], ops[i]) && trace[i + 1] == Step(trace[i], ops[i])
    ensures forall i :: 0 <= i < |trace| ==> Good(trace[i]) && trace[i].total == trace[0].total
  {
    if ops != [] {
      StepKeeps(trace[0], ops[0]);
      EveryRun(ops[1..], trace[1..]);
      assert forall i :: 1 <= i < |trace| ==> trace[i] == trace[1..][i - 1];
    }
  }

  /** A block is never handed out twice: what an allocation takes was not allocated before. */
  lemma FreshBlock(p: Pool, t: Thread, wait: bool)
    requires Good(p) && t !in p.waiters.queue && p.free != []
    ensures var q := Step(p, Alloc(t, wait));
      !p.Allocated(p.free[0]) && q.Allocated(p.free[0])
      && forall b :: b != p.free[0] ==> (q.Allocated(b) <==> p.Allocated(b))
  {
    assert p.free == [p.free[0]] + p.free[1..];
    assert p.free[0] in p.free;
  }

  /** A block that is given back is free, no other block changes, and the first waiter is woken. */
  lemma FreeOutcome(p: Pool, b: int)
    requires Good(p) && p.Allocated(b)
    ensures var q := Step(p, Free(b));
      && b in q.free && !q.Allocated(b) && |q.free| == |p.free| + 1
      && (forall d :: d != b ==> (q.Allocated(d) <==> p.Allocated(d)))
      && q.waiters == p.waiters.WakeFirst()
  {
    var q := Step(p, Free(b));
    assert q.free[0] == b && q.free[1..] == p.free;
  }

  /** Without a free block nothing is handed out; a thread that waits stands in front of the
      others. */
  lemma EmptyOutcome(p: Pool, t: Thread, wait: bool)
    requires Good(p) && t !in p.waiters.queue && p.free == []
    ensures var q := Step(p, Alloc(t, wait));
      && q.free == [] && (wait ==> q.waiters.queue == [t] + p.waiters.queue)
      && (!wait ==> q.waiters.queue == p.waiters.queue)
  {
  }

  /** Blocks handed out at the same time have their data inside the pool, apart from each other
      and from all links. */
  lemma HandedOutApart(p: Pool, g: PoolShape, b: nat, d: nat)
    requires g.Sound() && p.total == g.Total() && p.Allocated(b) && p.Allocated(d) && b != d
    ensures var x, y, n := g.LinkAt(b) + g.ptr, g.LinkAt(d) + g.ptr, g.Data();
      && 0 <= x && x + n <= g.Bytes() && 0 <= y && y + n <= g.Bytes()
      && (x + n + g.ptr <= y || y + n + g.ptr <= x)
  {
    hide PoolShape.LinkAt;
    BlockInside(g, b);
    BlockInside(g, d);
    if b < d { BlocksApart(g, b, d); } else { BlocksApart(g, d, b); }
  }

  class MemPool {
    const shape: PoolShape
    const total: nat
    /** The first word of each block. */
    var link: seq<int>
    var blockList: int
    var freeCount: nat
    var suspended: seq<Thread>
    /** The offsets at which initialisation has stored links. */
    var stores: seq<int>
    ghost var free: seq<int>
    ghost var woken: set<Thread>

    ghost function Abs(): Pool
      reads this
    {
      Pool(total, free, Waiters(suspended, woken))
    }

    ghost predicate Valid()
      reads this
    {
      && |link| == total
      && (total > 0 ==> IsList(link, blockList, free))
      && freeCount == |free|
      && Good(Abs())
      && forall b :: 0 <= b < total && b !in free ==> link[b] == OWNED
    }

    /** rt_mp_init: the loop links each block to the next and the last link is then set to null.
        The code does that without looking whether there is a block; if not, it writes below the
        pool and leaves a list head that is never followed. */
    constructor (shape: PoolShape)
      requires shape.Sound()
      ensures Valid() && this.shape == shape && total == shape.Total() && stores == LinkStores(shape)
      ensures Abs() == Pool(total, seq(total, i => i), Waiters([], {}))
    {
      var count := Count(shape.Bytes(), shape.Stride());
      this.shape, total := shape, count;
      var links, written := seq(count, i => OWNED), [];
      var offset := 0;
      while offset < count
        invariant 0 <= offset <= count && |links| == count
        invariant forall i :: 0 <= i < offset ==> links[i] == i + 1
        invariant |written| == offset && forall i :: 0 <= i < offset ==> written[i] == shape.LinkAt(i)
      {
        links := links[offset := offset + 1];
        written := written + [shape.LinkAt(offset)];
        offset := offset + 1;
      }
      written := written + [shape.LinkAt(offset - 1)];
      if offset > 0 {
        links := links[offset - 1 := NIL];
      }
      assert written == LinkStores(shape);
      link, blockList, freeCount, suspended, stores := links, 0, count, [], written;
      free, woken := seq(count, i => i), {};
      new;
      forall i | 0 <= i < total ensures LinkedTo(link, free, i) { }
      forall b | 0 <= b < total ensures b in free { assert free[b] == b; }
    }

    /** One turn of rt_mp_alloc. */
    method Alloc(t: Thread, time: int) returns (block: int, waiting: bool)
      requires Valid() && t !in suspended
      modifies this
      ensures Valid()
      ensures Enabled(old(Abs()), Op.Alloc(t, time != 0)) && Abs() == Step(old(Abs()), Op.Alloc(t, time != 0))
      ensures old(free) != [] ==> block == old(free)[0] && !waiting
      ensures old(free) == [] ==> block == NIL && waiting == (time != 0)
    {
      StepKeeps(Abs(), Op.Alloc(t, time != 0));
      woken := woken - {t};
      if freeCount == 0 {
        if time == 0 {
          return NIL, false;
        }
        suspended := Placed(suspended, 0, t);
        return NIL, true;
      }
      assert free[0] in free;
      ListPop(link, blockList, free);
      freeCount := freeCount - 1;
      block := blockList;
      blockList := link[block];
      ListStore(link, blockList, free[1..], block, OWNED);
      link := link[block := OWNED];
      assert free == [block] + free[1..];
      free := free[1..];
      return block, false;
    }

    /** rt_mp_free. */
    method Free(block: int)
      requires Valid() && (block == NIL || Abs().Allocated(block))
      modifies this
      ensures Valid()
      ensures Abs() == Step(old(Abs()), Op.Free(block))
    {
      StepKeeps(Abs(), Op.Free(block));
      if block == NIL {
        return;
      }
      assert link[block] == OWNED;
      ListPush(link, blockList, free, block);
      freeCount := freeCount + 1;
      link := link[block := blockList];
      blockList := block;
      free := [block] + free;
      if suspended != [] {
        woken, suspended := woken + {suspended[0]}, suspended[1..];
      }
    }
  }
}
