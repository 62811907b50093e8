# Kernel allocators, IPC and copy loops of an RT-Thread board template

A Dafny model of the parts of the RT-Thread 4.0.2 kernel and of two board drivers in
`template_LVGL` whose behaviour is hardest to see from the code: the two coalescing heaps
(`memheap.c`, `mem.c`), the blocking IPC objects (`ipc.c`, `mempool.c`) over the pointer-level
lists of `rtservice.h`, the bounded formatter and `rt_memcpy` of `kservice.c`, the pbuf/DMA copy
loops of `drv_eth.c` and the line drawing of `drv_lcd.c`.

`dafny verify dfyconfig.toml` checks the whole project.

## How the model is built

* **Heaps.** `HeapLayout`, `HeapOps`, `HeapData` and `HeapAlign` describe a heap as a sequence of
  blocks that tiles the pool, the operations on it (split, merge, mark, and what the allocators
  compose from them), its byte sums, and which writes leave allocated data alone; `HeapUsed` reads
  off the multiset of used blocks, which is all a caller sees. `MemHeapViews` and `SmallMemViews`
  state what each call does to the blocks and to the free list (or the hint), prove every run keeps
  the invariant, and say what each call means for the used blocks; the classes `MemHeap` and `SmallMem` hold the real header
  fields, keyed by header offset, and their methods perform the code's stores one by one. Header
  size, alignment and minimum size are parameters.
* **IPC.** Each region with interrupts disabled is one atomic step of a state machine; between
  steps any other thread may run, including in the windows in which a message is copied with
  interrupts enabled. `Waiting` holds the two-stage wait (queued, then woken but not yet looking
  again) that mailbox, message queue and memory pool share. A timeout takes a thread off its wait
  list. The classes run one region per method and prove that it is the step of the machine.
  `WaitLists` proves the wait lists themselves on the next/prev fields. What a step does is also
  stated without its branches: sent and received messages are read off the calls of a run, and the
  conditions of event receivers off single bits (`Words`).
* **Loops.** Formatter, Ethernet loops and line drawing are methods with loops, each proved equal
  to a closed description (`Render`, `CutUp`, `PixelAt`) about which the properties are lemmas.
  `FormatReadings` spells a conversion from its options and says what `Render` shows for it by
  reading the text back.

## What the code does that its documentation does not say

* Shrinking a block with `rt_realloc` can leave `lfree` above a free block: `ShrinkKeepsLowestIff`
  says exactly when, `ShrinkCanMissLowest` is a run that does it.
* `rt_malloc` fails although a free block is large enough exactly if every such block lies below
  `lfree` or is the exact fit at the end of the heap (`MallocRefusedIff`); while `lfree` is the
  lowest free block, only the exact fit is left (`LowestRefusedIff`). `SmallRefusesAll` and
  `HintHidesBlock` are runs of the two kinds. In a fresh heap its search ends exactly if the heap is not smaller than
  `MIN_SIZE_ALIGNED`, since the bound is an unsigned difference (`SearchEndsIff`).
* `rt_memheap_alloc` refuses a request although a block fits exactly if the block is an exact fit
  and all other free blocks are empty (`RefusedIff`); no block is ever empty in a heap that starts
  with at least 12 bytes, so there it is the only free block (`EveryRunRoomy`,
  `OnlyBlockRefusedIff`, `FreshHeapRefuses`). A `rt_memheap_realloc` that has to move aligns its
  request a second time (`RequestTwiceIff`).
* `rt_memheap_init` does not look whether the pool has room for its two headers; they lie inside
  and apart exactly if it has (`HeadersFitIff`, `TinyPool`).
* Headers of a memheap stay aligned exactly if its minimum request of 12 bytes is a multiple of
  the alignment, as the header is (`AlignmentKeptIff`).
* `rt_malloc_align` returns a multiple of the alignment it is asked for, whatever block it gets,
  exactly for powers of two (`RequestedIff`, `TwelveInRam`). Result and saved pointer lie inside
  the block exactly if the alignment is not 0; for 0 the result is null, the block is lost and the
  pointer is written to the last word of the address space (`InsideBlockIff`).
* `rt_mp_init` stores all its links inside the pool exactly if that has room for a block
  (`RoomDecides`); otherwise the null goes one stride below it (`TooSmallPool`).
* `rt_mq_init` keeps message size and node count in 16 bits (`QueueTruncatesIff`).
* The mutex nesting count is 8 bits wide: 257 nested takes lose the mutex at the first release
  (`NestingTooDeep`). With a FIFO queue the new owner can be less urgent than a waiter
  (`FifoLosesInheritance`).
* The semaphore counter is 16 bits wide; units are conserved exactly until it overflows
  (`ConservedIff`).
* `%o` prints base 16: the field is the octal one exactly for numbers below eight (`OctalIff`).
  Precision 0 drops the digits but not their room, so the field shows the number exactly if it is
  zero (`PrecisionZero`).
* `rt_stm32_eth_tx` accepts frames longer than all descriptors together; the buffers then hold the
  whole frame exactly if its bytes repeat from round to round (`HeldIff`, `ThreeIntoTwo`).
* The 16-bit turn counter of `LCD_DrawLine` never passes the last turn from a distance of 65534
  on (`EndsIff`).

## Model

| member | source | states |
|---|---|---|
| `MemHeapViews.EveryRun` | template_LVGL/rt-thread/src/memheap.c:138-595 | after any sequence of alloc, realloc and free the blocks tile the pool in address order, no two neighbours are free, and the free list names exactly the free blocks, each once |
| `MemHeapViews.StepKeeps` | template_LVGL/rt-thread/src/memheap.c:138-595 | each single call keeps that invariant from any state that has it |
| `MemHeapViews.AllocViewKeeps` | template_LVGL/rt-thread/src/memheap.c:138-281 | handing out the first block of the free list that is large enough, split or whole, keeps the invariant |
| `MemHeapViews.FirstFitIs` | template_LVGL/rt-thread/src/memheap.c:169-183 | the search position is the first one in free-list order whose block is large enough, or the end |
| `MemHeapViews.FreeKeeps` | template_LVGL/rt-thread/src/memheap.c:495-595 | joining a freed block with free neighbours on both sides keeps the invariant and takes swallowed blocks off the list |
| `MemHeapViews.GrowKeeps` | template_LVGL/rt-thread/src/memheap.c:315-403 | growing in place into the next free block keeps the invariant |
| `MemHeapViews.ShrinkKeeps` | template_LVGL/rt-thread/src/memheap.c:419-492 | cutting a block down, with the cut-off part joined to a free neighbour, keeps the invariant |
| `MemHeapViews.StillLive` | template_LVGL/rt-thread/src/memheap.c:138-281 | an allocation leaves every allocated block allocated, in place and of the same size |
| `MemHeapViews.ReallocKeeps` | template_LVGL/rt-thread/src/memheap.c:284-492 | every path of a reallocation keeps the invariant |
| `MemHeapViews.AllocGives` | template_LVGL/rt-thread/src/memheap.c:138-281 | an allocation changes nothing and returns null, or adds to the used blocks exactly one, at the returned pointer, with at least the requested bytes and fewer than could have been split off |
| `MemHeapViews.FreeGives` | template_LVGL/rt-thread/src/memheap.c:495-595 | a release takes exactly the freed block away from the used blocks, and its address heads none any more |
| `MemHeapViews.ReallocGives` | template_LVGL/rt-thread/src/memheap.c:284-492 | for every allocated block and nonzero size the heap is unchanged and the result null, or exactly that block is exchanged for one at the result that holds the new size, all other used blocks staying as they were |
| `MemHeapViews.MovedAway` | template_LVGL/rt-thread/src/memheap.c:408-416 | if the result is another address, the old one heads no used block any more |
| `MemHeapViews.ReallocFailsIff` | template_LVGL/rt-thread/src/memheap.c:311-417 | the result is null exactly if the request exceeds the block, the block behind is used or too small to grow into, and no free block is large enough or the request is not below the free bytes |
| `MemHeapViews.ReallocEnds` | template_LVGL/rt-thread/src/memheap.c:294-308 | size 0 frees the block, a null pointer makes it an allocation of the size |
| `MemHeapViews.AllocOrder` | template_LVGL/rt-thread/src/memheap.c:186-266 | the free blocks that stay listed keep their order, and the rest of a split block comes first |
| `MemHeapViews.FreeOrder` | template_LVGL/rt-thread/src/memheap.c:537-587 | the free blocks that stay listed keep their order; the freed block is put first exactly if it has no free block on its left |
| `MemHeapViews.ReallocOrder` | template_LVGL/rt-thread/src/memheap.c:315-492 | in place, the free blocks that stay listed keep their order, and what is cut off or left over comes first |
| `MemHeapViews.AllocFailsIff` | template_LVGL/rt-thread/src/memheap.c:155-183 | an allocation returns null exactly if no free block is large enough or the request is not below the free bytes |
| `MemHeapViews.RefusedIff` | template_LVGL/rt-thread/src/memheap.c:155-183 | it returns null although a block is large enough exactly if that block is an exact fit and all other free blocks are empty |
| `MemHeapViews.FreshHeapRefuses` | template_LVGL/rt-thread/src/memheap.c:155 | a fresh heap of any size refuses a request for all its bytes |
| `MemHeapViews.EveryRunRoomy` | template_LVGL/rt-thread/src/memheap.c:138-595 | over every run no block falls below the minimum request, if none was below it at the start |
| `MemHeapViews.OnlyBlockRefusedIff` | template_LVGL/rt-thread/src/memheap.c:155-183 | in such a heap an allocation fails although a block is large enough exactly if it is the only free block and an exact fit |
| `MemHeapViews.EveryRunAligned` | template_LVGL/rt-thread/src/memheap.c:138-595 | over every run all headers stay aligned, if header size and minimum request are multiples of the alignment |
| `MemHeapViews.AlignmentKeptIff` | template_LVGL/rt-thread/src/memheap.c:147-150 | every call keeps every aligned heap aligned exactly if the minimum request is a multiple of the alignment |
| `MemHeapViews.RequestTwiceIff` | template_LVGL/rt-thread/src/memheap.c:300-409 | the second alignment of a moving request changes it exactly if the minimum was taken and is not a multiple of the alignment |
| `MemHeaps.HeadersFitIff` | template_LVGL/rt-thread/src/memheap.c:62-113 | with the 32-bit sizes of the code, both headers lie inside the pool and apart exactly if it has room for two |
| `MemHeaps.TinyPool` | template_LVGL/rt-thread/src/memheap.c:62-113 | an instance: in 28 bytes with headers of 24 the tail header overlaps the first and the free bytes wrap |
| `MemHeaps.MemHeap.constructor` | template_LVGL/rt-thread/src/memheap.c:50-120 | the initial fields for every pool size; where both headers fit, the heap is one free block before the used tail, with both rings well formed and all data bytes available |
| `MemHeaps.MemHeap.FindFree` | template_LVGL/rt-thread/src/memheap.c:169-183 | the pointer walk over the free ring terminates at the first fit |
| `MemHeaps.MemHeap.Alloc` | template_LVGL/rt-thread/src/memheap.c:138-281 | the stores keep both rings well formed, the result is that of the view, available_size is the sum of free data bytes, max_used_size the running maximum, and no live block's bytes change |
| `MemHeaps.MemHeap.Free` | template_LVGL/rt-thread/src/memheap.c:495-595 | the same for a release with left and right merge; null is ignored |
| `MemHeaps.MemHeap.Grow` | template_LVGL/rt-thread/src/memheap.c:315-403 | unlink, absorb, split and relink give the grown layout with exact accounting, and allocated data stays |
| `MemHeaps.MemHeap.Shrink` | template_LVGL/rt-thread/src/memheap.c:419-492 | split, merge and relink give the shrunk layout; only header bytes behind the kept part are written |
| `MemHeaps.MemHeap.Enlarge` | template_LVGL/rt-thread/src/memheap.c:315-417 | growth in place or a move, with the outcome of `ReallocGives`: the result holds all old bytes, no live block's bytes change, and null leaves the heap as it was |
| `MemHeaps.MemHeap.Reduce` | template_LVGL/rt-thread/src/memheap.c:419-492 | the block stays or is cut down, its first bytes stay, other blocks are untouched |
| `MemHeaps.MemHeap.Realloc` | template_LVGL/rt-thread/src/memheap.c:284-492 | a non-null result holds the first min(old, new) bytes, other live blocks keep their bytes, and null for a nonzero size leaves the old block live and intact |
| `HeapOps.FreedUndoesAllocated` | template_LVGL/rt-thread/src/mem.c:305-384 | freeing a block just carved out of a free one restores the sequence of blocks |
| `HeapLayout.FootprintsFillPool` | template_LVGL/rt-thread/src/mem.c:204-257 | footprints of used and free blocks add up to the whole heap |
| `MemCopy.Memcpy` | template_LVGL/rt-thread/src/kservice.c:244-272 | the unrolled word loop, the word loop and the byte loop together copy exactly the n bytes, whatever the alignment, for regions that do not overlap |
| `SmallMemViews.EveryRun` | template_LVGL/rt-thread/src/mem.c:272-609 | after any run of malloc, realloc and free the aligned chain tiles the heap, no two neighbours are free, lfree is the sentinel or a free block, and used plus free footprints equal mem_size_aligned + SIZEOF_STRUCT_MEM |
| `SmallMemViews.StepKeeps` | template_LVGL/rt-thread/src/mem.c:272-609 | each single call keeps that invariant |
| `SmallMemViews.MallocIsFirstFit` | template_LVGL/rt-thread/src/mem.c:305-409 | rt_malloc returns null exactly if no free block from lfree on, starting below mem_size_aligned - size, is large enough, and otherwise the lowest such block |
| `SmallMemViews.MallocRefusedIff` | template_LVGL/rt-thread/src/mem.c:305-311 | rt_malloc returns null although a free block is large enough exactly if every such block lies below lfree or is the exact fit at the end of the heap |
| `SmallMemViews.LowestRefusedIff` | template_LVGL/rt-thread/src/mem.c:305-311 | while lfree is the lowest free block that is so exactly if the only such block is the exact fit at the end |
| `SmallMemViews.HintHidesBlock` | template_LVGL/rt-thread/src/mem.c:272-510 | a run of five calls from a fresh heap whose last rt_malloc fails although a large enough block is free below lfree |
| `SmallMemViews.SmallRefusesAll` | template_LVGL/rt-thread/src/mem.c:306 | a fresh heap of 200 bytes refuses a request for 200 |
| `SmallMemViews.MallocKeeps` | template_LVGL/rt-thread/src/mem.c:272-410 | an allocation keeps tiling, alignment, coalescing and the hint |
| `SmallMemViews.MallocKeepsLowest` | template_LVGL/rt-thread/src/mem.c:380-387 | lfree stays the lowest free block under malloc |
| `SmallMemViews.FreeKeeps` | template_LVGL/rt-thread/src/mem.c:546-609 | a release keeps the invariant, including the hint when plug_holes swallows the block it names |
| `SmallMemViews.FreeKeepsLowest` | template_LVGL/rt-thread/src/mem.c:596-607 | lfree stays the lowest free block under free |
| `SmallMemViews.PlugHintKeeps` | template_LVGL/rt-thread/src/mem.c:156-194 | plug_holes never leaves lfree naming a block that no longer exists |
| `SmallMemViews.ShrinkKeeps` | template_LVGL/rt-thread/src/mem.c:471-498 | an in-place shrink keeps the invariant |
| `SmallMemViews.ShrinkKeepsLowestIff` | template_LVGL/rt-thread/src/mem.c:471-498 | an in-place shrink keeps lfree the lowest free block exactly if lfree was below the cut or was the merged neighbour |
| `SmallMemViews.ShrinkCanMissLowest` | template_LVGL/rt-thread/src/mem.c:421-510 | from a fresh heap two rt_malloc calls and one rt_realloc lead to a free block below lfree, which was lowest before the last call |
| `SmallMemViews.FreeUndoesMalloc` | template_LVGL/rt-thread/src/mem.c:546-609 | rt_free of the result of rt_malloc restores the chain, the used flags and lfree |
| `SmallMemViews.ReallocKeeps` | template_LVGL/rt-thread/src/mem.c:421-510 | every path of rt_realloc keeps the invariant |
| `SmallMemViews.MallocGives` | template_LVGL/rt-thread/src/mem.c:272-410 | rt_malloc changes nothing and returns null, or adds to the used blocks exactly one, at the returned pointer, with at least the requested bytes and fewer than could have been split off |
| `SmallMemViews.FreeGives` | template_LVGL/rt-thread/src/mem.c:546-609 | rt_free takes exactly the freed block away from the used blocks, and its address heads none any more |
| `SmallMemViews.ReallocGives` | template_LVGL/rt-thread/src/mem.c:445-510 | for every live block and a size that passes the checks the heap is unchanged and the result null, or exactly that block is exchanged for one at the result that holds the new size, all other used blocks staying as they were |
| `SmallMemViews.MovedAway` | template_LVGL/rt-thread/src/mem.c:501-509 | if the result is another address, the old one heads no used block any more |
| `SmallMemViews.ReallocFailsIff` | template_LVGL/rt-thread/src/mem.c:463-509 | the result is null exactly if the size is neither that of the block nor small enough to cut it down, and no block serves an allocation of it |
| `SmallMemViews.ReallocEnds` | template_LVGL/rt-thread/src/mem.c:430-457 | size 0 frees the block, a size beyond the heap changes nothing, a null pointer makes it an allocation, a pointer from outside changes nothing |
| `SmallMemViews.EveryRunHeld` | template_LVGL/rt-thread/src/mem.c:272-609 | over every run from a heap without empty blocks every live pointer lies inside the heap, so the pointer checks of rt_free and rt_realloc let it pass |
| `SmallMems.SearchEndsIff` | template_LVGL/rt-thread/src/mem.c:305-311 | on the headers of a fresh heap, with the 32-bit bound, the walk over the next fields meets a fit or its bound exactly if the heap is not below MIN_SIZE_ALIGNED |
| `HeapPlaces.HeapBoundsLargest` | template_LVGL/rt-thread/src/mem.c:204-226 | where an aligned heap between two headers fits the given range one is set up, and none that fits is larger |
| `SmallMems.SystemHeapInit` | template_LVGL/rt-thread/src/mem.c:204-257 | error exactly if no heap fits the two addresses; else the largest one, aligned and inside the range, and valid if it is not below the minimum |
| `SmallMems.SmallMem.constructor` | template_LVGL/rt-thread/src/mem.c:228-257 | the initial fields of any heap are one free block and the sentinel, lfree at 0, nothing used; the chain is valid if the heap is not below the minimum |
| `SmallMems.SmallMem.FindFit` | template_LVGL/rt-thread/src/mem.c:305-314 | the search over the next offsets terminates and finds the first fit |
| `SmallMems.SmallMem.Plug` | template_LVGL/rt-thread/src/mem.c:156-194 | the stores of plug_holes join the block with both free neighbours and keep every non-sentinel prev the predecessor |
| `SmallMems.SmallMem.Malloc` | template_LVGL/rt-thread/src/mem.c:272-410 | chain, flags and hint are those of the view, used_mem is the footprint of used blocks, max_mem the running maximum, and live data stays |
| `SmallMems.SmallMem.Free` | template_LVGL/rt-thread/src/mem.c:546-609 | the same for a release; null and pointers outside the heap are ignored |
| `SmallMems.SmallMem.Shrink` | template_LVGL/rt-thread/src/mem.c:471-498 | split and plug_holes give the shrunk chain with exact used_mem, and the kept bytes stay |
| `SmallMems.SmallMem.Realloc` | template_LVGL/rt-thread/src/mem.c:421-510 | a non-null result holds the first min(old, new) bytes, other live blocks keep theirs, and null for a nonzero size leaves everything intact |
| `Masks.RaisedRange` | template_LVGL/rt-thread/src/kservice.c:1249-1257 | for every alignment in whole words the masks yield an address one word to one alignment above the pointer |
| `Masks.RequestedIff` | template_LVGL/rt-thread/src/kservice.c:1241-1257 | the address is a multiple of the alignment asked for, for every pointer in whole words, exactly if that is a power of two |
| `Masks.TwelveInRam` | template_LVGL/rt-thread/src/kservice.c:1249-1257 | an instance: at the start of RAM an alignment of 12 is missed by 8 |
| `Masks.InsideBlockIff` | template_LVGL/rt-thread/src/kservice.c:1241-1260 | in 32 bits, for every block and alignment, the region and the saved pointer lie inside the block exactly if the alignment is not 0; for 0 the result is null and the pointer goes to the last word |
| `AlignedAlloc.PadEnough` | template_LVGL/rt-thread/src/kservice.c:1229-1266 | in a block that rt_malloc returned, region and slot are enclosed for every alignment but 0, and a power of two is met |
| `AlignedAlloc.MallocAlign` | template_LVGL/rt-thread/src/kservice.c:1229-1266 | for every alignment live data stays and freeing the block restores the heap; the region and the slot with the real pointer lie inside the block exactly if the alignment is not 0; a power of two is met |
| `AlignedAlloc.FreeAlign` | template_LVGL/rt-thread/src/kservice.c:1275-1281 | frees exactly the block whose pointer was saved |
| `WaitLists.JoinedIsStable` | template_LVGL/rt-thread/src/ipc.c:80-123 | joining keeps everyone else's order: arrival order under FIFO; sorted by priority, behind equals, under PRIO |
| `WaitLists.ListMemory.InsertAfter` | template_LVGL/rt-thread/include/rtservice.h:58-65 | four pointer stores turn a ring into the ring with the node after the given one and touch nothing else |
| `WaitLists.ListMemory.InsertBefore` | template_LVGL/rt-thread/include/rtservice.h:73-80 | the same before a node |
| `WaitLists.ListMemory.Remove` | template_LVGL/rt-thread/include/rtservice.h:86-92 | the node leaves its ring, if it has company, and becomes a ring of its own |
| `WaitLists.ListMemory.IsEmpty` | template_LVGL/rt-thread/include/rtservice.h:98-101 | true exactly for a ring of only the head |
| `WaitLists.ListMemory.Len` | template_LVGL/rt-thread/include/rtservice.h:107-118 | the walk terminates with the number of nodes besides the head |
| `WaitLists.ListMemory.Suspend` | template_LVGL/rt-thread/src/ipc.c:80-123 | the pointer-level list becomes the ring of the list joined by the thread, in FIFO or PRIO order |
| `WaitLists.ListMemory.Resume` | template_LVGL/rt-thread/src/ipc.c:134-147 | the first waiter leaves the ring |
| `WaitLists.ListMemory.ResumeAll` | template_LVGL/rt-thread/src/ipc.c:157-185 | terminates having woken each waiter once, in order, with an error, and leaves an empty ring |
| `Waiting.WakeServes` | template_LVGL/rt-thread/src/ipc.c:1545-1555 | making a unit available and waking the first waiter keeps "available units are at most woken threads while threads are queued" |
| `Waiting.TakenServes` | template_LVGL/rt-thread/src/ipc.c:1683-1691 | taking a unit, by a woken thread or by one that barged in, keeps it |
| `Waiting.QuiescentMeansEmpty` | template_LVGL/rt-thread/src/ipc.c:1619-1677 | when no woken thread is still to look, queued threads have nothing to get |
| `Waiting.EveryRunSorted` | template_LVGL/rt-thread/src/ipc.c:80-123 | over every run of joining, waking, timing out and flushing, the queue of a priority-ordered object stays sorted by urgency |
| `Waiting.WakeTakesFirst` | template_LVGL/rt-thread/src/ipc.c:134-147 | a wake-up takes exactly the first thread off the queue, in priority order one that is at least as urgent as all others |
| `Waiting.OthersUnmoved` | template_LVGL/rt-thread/src/ipc.c:80-123 | joining, leaving and timing out move one thread and leave the others where they were |
| `Semaphores.EveryRun` | template_LVGL/rt-thread/src/ipc.c:324-471 | over every run initial + releases = value + grants + 65536 per overflow, threads wait only at value 0, and overflows happen exactly at releases at the top |
| `Semaphores.EveryRunSorted` | template_LVGL/rt-thread/src/ipc.c:80-123 | over every run of a priority-ordered semaphore the queue is sorted by urgency |
| `Semaphores.ConservedIff` | template_LVGL/rt-thread/src/ipc.c:433-471 | plain conservation survives a step exactly if it is not a release at 65535 with nobody waiting |
| `Semaphores.TakeOutcome` | template_LVGL/rt-thread/src/ipc.c:324-409 | a take is granted exactly while the value is positive; otherwise a thread that waits is in the queue with the others in their order, and one that does not changes nothing |
| `Semaphores.ReleaseOutcome` | template_LVGL/rt-thread/src/ipc.c:433-471 | a release resumes the first thread of the queue, a most urgent one in priority order; with an empty queue it counts one unit modulo 65536 |
| `Semaphores.TimeoutOutcome` | template_LVGL/rt-thread/src/ipc.c:396-402 | a timeout takes one thread out of the queue and no unit |
| `Semaphores.Semaphore.Take` | template_LVGL/rt-thread/src/ipc.c:324-409 | granted at once exactly if the value is positive, suspended exactly if not and a wait was asked for |
| `Semaphores.Semaphore.Release` | template_LVGL/rt-thread/src/ipc.c:433-471 | hands the unit to the first waiter, or counts it modulo 65536 |
| `Mutexes.EveryRun` | template_LVGL/rt-thread/src/ipc.c:654-881 | over every run of a PRIO mutex without 256-fold nesting: owner null iff value 1 iff hold 0, waiters imply an owner, hold is the owner's unmatched takes and nobody else has any, the owner is at least as urgent as every waiter, everyone else has its own priority |
| `Mutexes.StepKeeps` | template_LVGL/rt-thread/src/ipc.c:681-871 | one step keeps all of that exactly unless the owner nests past the 8-bit count |
| `Mutexes.StepInherits` | template_LVGL/rt-thread/src/ipc.c:721-858 | the owner stays at least as urgent as every waiter exactly unless a last release hands over to a waiter less urgent than another |
| `Mutexes.StepRestorable` | template_LVGL/rt-thread/src/ipc.c:817-871 | only the owner runs with a borrowed priority, and the mutex remembers its own |
| `Mutexes.LastRelease` | template_LVGL/rt-thread/src/ipc.c:828-871 | the last release restores the owner's own priority and hands the mutex to the head of the queue, or frees it |
| `Mutexes.TakeOutcome` | template_LVGL/rt-thread/src/ipc.c:681-714 | a free mutex gets its taker as owner and remembers its priority; a nested take only counts; a take of a busy mutex without waiting changes nothing |
| `Mutexes.WaitOutcome` | template_LVGL/rt-thread/src/ipc.c:715-755 | a thread that waits for a busy mutex joins the queue, the others keeping their order, and the owner runs with the more urgent of the two priorities; owner, counts and all other priorities stay |
| `Mutexes.ReleaseOutcome` | template_LVGL/rt-thread/src/ipc.c:817-871 | a release by another thread changes nothing, one of several nested holds only counts |
| `Mutexes.TimeoutOutcome` | template_LVGL/rt-thread/src/ipc.c:755-762 | a timeout takes the thread out of the queue; the owner keeps what it has borrowed |
| `Mutexes.NestingTooDeep` | template_LVGL/rt-thread/src/ipc.c:681-685 | two more takes at a hold of 255 and one release lose the mutex with 256 takes unmatched |
| `Mutexes.FifoLosesInheritance` | template_LVGL/rt-thread/src/ipc.c:841-858 | a run of a FIFO mutex whose new owner is less urgent than a waiter |
| `Mutexes.MutexLock.Take` | template_LVGL/rt-thread/src/ipc.c:654-779 | the field updates are the step: nested, granted, refused or suspended with priority inheritance |
| `Mutexes.MutexLock.Release` | template_LVGL/rt-thread/src/ipc.c:790-881 | the field updates are the step; only the owner can release |
| `Events.EveryRun` | template_LVGL/rt-thread/src/ipc.c:1029-1277 | in every reachable state no queued thread's AND/OR condition is met by the bits set |
| `Events.EveryRunSorted` | template_LVGL/rt-thread/src/ipc.c:1050-1214 | over every run of a priority-ordered event the list is sorted by urgency, although a send wakes threads anywhere in it |
| `Events.ScanQuiets` | template_LVGL/rt-thread/src/ipc.c:1050-1101 | after a send no thread left waiting is satisfied, although bits are cleared during the scan |
| `Events.ScanSplits` | template_LVGL/rt-thread/src/ipc.c:1050-1101 | every waiter is either woken or still waiting, none twice |
| `Events.ScanServes` | template_LVGL/rt-thread/src/ipc.c:1050-1101 | every woken thread reports a nonempty part of what it asked for that meets its condition |
| `Events.WakeLikeReceive` | template_LVGL/rt-thread/src/ipc.c:1059-1090 | a woken receiver reports and clears exactly the bits an immediate receive at that point would |
| `Events.QuietScan` | template_LVGL/rt-thread/src/ipc.c:1050-1101 | a scan wakes nobody exactly if nobody's condition is met |
| `Events.SatisfiedIff` | template_LVGL/rt-thread/src/ipc.c:1063-1082 | the test of the code holds exactly if, for AND, every bit asked for is set and, for OR, some bit asked for is set |
| `Events.ReceivedBits` | template_LVGL/rt-thread/src/ipc.c:1074-1092 | bit by bit: a receiver reports what it asked for and is set; with CLEAR exactly the bits it asked for go |
| `Events.WokenIff` | template_LVGL/rt-thread/src/ipc.c:1050-1101 | a waiter is woken, with the bits it then reports, exactly if its bits are there when the scan reaches it, all of them for AND and one of them for OR; otherwise it stays queued |
| `Events.NobodyMissed` | template_LVGL/rt-thread/src/ipc.c:1029-1277 | in every reachable state each AND waiter misses a bit and no bit of an OR waiter is set |
| `Events.SendOutcome` | template_LVGL/rt-thread/src/ipc.c:1041-1101 | a send adds its bits to the flags; afterwards exactly those are missing that a woken thread has asked to clear; no bits change nothing |
| `Events.WaitOutcome` | template_LVGL/rt-thread/src/ipc.c:1185-1214 | a receiver whose condition is not met leaves the flags alone and is queued exactly if it waits, the others keeping their order |
| `Events.EventGroup.Send` | template_LVGL/rt-thread/src/ipc.c:1029-1111 | the in-place walk over the list ends with the flags, waiters and wake-ups of the scan, for which `WokenIff` says who is woken; no bits is an error |
| `Events.EventGroup.Recv` | template_LVGL/rt-thread/src/ipc.c:1127-1237 | succeeds at once exactly if all bits asked for are set, for AND, or some bit is, for OR, and reports exactly the bits asked for that are set; else refuses or suspends |
| `Events.EventGroup.Reset` | template_LVGL/rt-thread/src/ipc.c:1249-1277 | a reset sends every waiter home with -RT_ERROR and clears the flags |
| `Mailboxes.EveryRun` | template_LVGL/rt-thread/src/ipc.c:1442-1758 | in every interleaving sent = received + held in order, never more than the size, no lost wake-up for senders or receivers |
| `Mailboxes.EveryRunSorted` | template_LVGL/rt-thread/src/ipc.c:1473-1677 | over every run of a priority-ordered mailbox both wait lists are sorted by urgency |
| `Mailboxes.MailsInOrder` | template_LVGL/rt-thread/src/ipc.c:1442-1714 | over every run without reset the mails passed to accepted sends come out in that order, and those that have not are still held |
| `Mailboxes.PassOutcome` | template_LVGL/rt-thread/src/ipc.c:1535-1714 | a stored mail wakes the first receiver and moves no sender; a mail taken wakes the first sender and moves no receiver |
| `Mailboxes.WaitOutcome` | template_LVGL/rt-thread/src/ipc.c:1473-1640 | a send into a full mailbox and a receive from an empty one leave the mails alone, and the thread is queued exactly if it waits |
| `Mailboxes.PushInRing` | template_LVGL/rt-thread/src/ipc.c:1535-1542 | storing at in_offset with wrap appends to the FIFO |
| `Mailboxes.PopFromRing` | template_LVGL/rt-thread/src/ipc.c:1683-1691 | reading at out_offset with wrap takes the oldest mail |
| `Mailboxes.Mailbox.Send` | template_LVGL/rt-thread/src/ipc.c:1442-1560 | one region of a send is one step of the bounded FIFO: stored, refused when full, or suspended |
| `Mailboxes.Mailbox.Recv` | template_LVGL/rt-thread/src/ipc.c:1590-1714 | one region of a receive is one step: the oldest mail, refused when empty, or suspended |
| `Mailboxes.Mailbox.Clear` | template_LVGL/rt-thread/src/ipc.c:1726-1758 | a reset empties the ring and both wait lists |
| `MessageQueueViews.EveryRun` | template_LVGL/rt-thread/src/ipc.c:1975-2445 | in every interleaving of send, urgent, recv, timeout and reset, with copy windows, the placement of nodes is sound and no wake-up is lost on either side |
| `MessageQueueViews.ExactlyOnePlace` | template_LVGL/rt-thread/src/ipc.c:1975-2445 | each node is in exactly one of free list, message list and one thread's hand |
| `MessageQueueViews.StepKeeps` | template_LVGL/rt-thread/src/ipc.c:1975-2445 | each region or copy window keeps that |
| `MessageQueueViews.EveryRunSorted` | template_LVGL/rt-thread/src/ipc.c:2017-2337 | over every run of a priority-ordered queue both wait lists are sorted by urgency |
| `MessageQueueViews.Conserved` | template_LVGL/rt-thread/src/ipc.c:2079-2361 | over every run without reset the texts passed to accepted sends, urgent ones included, are as a multiset those received and those still in the list: none lost, duplicated or altered |
| `MessageQueueViews.FirstInFirstOut` | template_LVGL/rt-thread/src/ipc.c:2079-2361 | without urgent sends the texts passed to the sends come out in link order |
| `MessageQueueViews.HandsFollowCalls` | template_LVGL/rt-thread/src/ipc.c:2079-2361 | throughout a run a thread holds exactly the text and urgency it passed to its accepted send, or the message it took off the list, and otherwise nothing |
| `MessageQueueViews.UrgentIsNext` | template_LVGL/rt-thread/src/ipc.c:2194-2203 | an urgent message is the one the next receive gets |
| `MessageQueueViews.PassOutcome` | template_LVGL/rt-thread/src/ipc.c:2090-2384 | a linked message wakes the first receiver and moves no sender; a node put back is free, wakes the first sender and moves no receiver |
| `MessageQueueViews.WaitOutcome` | template_LVGL/rt-thread/src/ipc.c:1975-2337 | a send without a free node and a receive without a message move no node, and the thread is queued exactly if it waits; an oversized text changes nothing |
| `MessageQueueViews.ResetOutcome` | template_LVGL/rt-thread/src/ipc.c:2397-2445 | a reset frees every message, leaves what threads hold and empties both wait lists |
| `Slots.NodesApart` | template_LVGL/rt-thread/src/ipc.c:1807-1822 | the nodes rt_mq_init cuts from the buffer lie inside it and apart from each other |
| `Slots.QueueTruncatesIff` | template_LVGL/rt-thread/src/ipc.c:1807-1808 | message size and node count are what was computed exactly while they fit 16 bits |
| `MessageQueues.MessageQueue.constructor` | template_LVGL/rt-thread/src/ipc.c:1781-1831 | size and number of nodes follow from the buffer and the message size, the init loop links all nodes into the free list, and each text area is its part of the buffer |
| `MessageQueues.MessageQueue.EndsAgree` | template_LVGL/rt-thread/src/ipc.c:2092-2106 | head is null iff tail is null iff entry is 0, and tail is the last node |
| `MessageQueues.MessageQueue.SendTake` | template_LVGL/rt-thread/src/ipc.c:1975-2083 | takes the first free node for exactly the text passed, refuses an oversized message, or waits |
| `MessageQueues.MessageQueue.UrgentTake` | template_LVGL/rt-thread/src/ipc.c:2155-2189 | takes the first free node for exactly the text passed, marked urgent, or refuses |
| `MessageQueues.MessageQueue.Fill` | template_LVGL/rt-thread/src/ipc.c:2085-2088 | the copy with interrupts enabled disturbs no list and no other hand |
| `MessageQueues.MessageQueue.LinkLast` | template_LVGL/rt-thread/src/ipc.c:2090-2125 | the linked list gains the node at its end and a receiver is woken |
| `MessageQueues.MessageQueue.LinkFirst` | template_LVGL/rt-thread/src/ipc.c:2194-2225 | the linked list gains the node at its front and a receiver is woken |
| `MessageQueues.MessageQueue.RecvTake` | template_LVGL/rt-thread/src/ipc.c:2240-2352 | unlinks the front node, refuses or waits |
| `MessageQueues.MessageQueue.Drain` | template_LVGL/rt-thread/src/ipc.c:2354-2355 | the copied bytes are the sender's, up to min(sent, received) |
| `MessageQueues.MessageQueue.Put` | template_LVGL/rt-thread/src/ipc.c:2357-2384 | the node becomes free and a sender is woken |
| `MessageQueues.MessageQueue.Clear` | template_LVGL/rt-thread/src/ipc.c:2397-2445 | the reset loop moves every message to the free list and leaves nodes in hands alone |
| `MemPools.EveryRun` | template_LVGL/rt-thread/src/mempool.c:303-449 | in every interleaving the free list is a set of the pool's blocks and waiters are queued only while every free block is promised |
| `MemPools.FreshBlock` | template_LVGL/rt-thread/src/mempool.c:371-391 | an allocation hands out a block nobody had, and changes no other block's state |
| `MemPools.FreeOutcome` | template_LVGL/rt-thread/src/mempool.c:399-449 | a block given back is free afterwards, no other block changes, and the first waiter is woken |
| `MemPools.EmptyOutcome` | template_LVGL/rt-thread/src/mempool.c:319-350 | without a free block a thread that waits stands in front of the others and one that does not changes nothing |
| `MemPools.HandedOutApart` | template_LVGL/rt-thread/src/mempool.c:371-391 | two blocks handed out at the same time have their data inside the pool, apart from each other and from all links |
| `Slots.StoresInsideIff` | template_LVGL/rt-thread/src/mempool.c:94-119 | with 32-bit offsets, all link stores of rt_mp_init stay inside the pool exactly if it has room for a block, or if pool and block together exceed the address space so far that the wrapped offset comes down inside |
| `Slots.RoomDecides` | template_LVGL/rt-thread/src/mempool.c:94-119 | for pool and block that fit the address space together, exactly if it has room for a block |
| `Slots.TooSmallPool` | template_LVGL/rt-thread/src/mempool.c:94-119 | an instance: with 8 bytes and blocks of 16 the only store goes 20 bytes below the pool |
| `MemPools.MemPool.constructor` | template_LVGL/rt-thread/src/mempool.c:77-125 | the block count follows from the sizes, the init loop links all blocks, the last one to null, and the links are stored at exactly the offsets described |
| `MemPools.MemPool.Alloc` | template_LVGL/rt-thread/src/mempool.c:303-391 | pops the list, keeps block_free_count its length, marks the block's owner; or refuses or waits |
| `MemPools.MemPool.Free` | template_LVGL/rt-thread/src/mempool.c:399-449 | pushes the block and wakes the first waiter; null is ignored |
| `Numerals.DigitsDecode` | template_LVGL/rt-thread/src/kservice.c:676-683 | the digits produced in a base decode to the number |
| `FormatViews.NumberReads` | template_LVGL/rt-thread/src/kservice.c:629-775 | for nonzero precision the field has max(width, sign + max(digits, precision)) characters: blanks on one side at most, the sign, and a nonempty string of digits of the base, nothing else, that decodes to the argument |
| `Numerals.WordDigits` | template_LVGL/rt-thread/src/kservice.c:631-635 | ten characters are enough for any 32-bit number, so tmp[16] cannot overflow |
| `FormatViews.OctalIff` | template_LVGL/rt-thread/src/kservice.c:568-586 | for every number, width, flags and nonzero precision, %o prints the octal field exactly if the magnitude is below eight |
| `FormatViews.OctalOfEight` | template_LVGL/rt-thread/src/kservice.c:568-586 | an instance: eight is printed as 8 instead of 10 |
| `FormatViews.PrecisionZero` | template_LVGL/rt-thread/src/kservice.c:685-767 | with precision 0 the field is sign and padding, short by the room of the digits, and reads as the argument exactly if that is zero |
| `FormatViews.WrittenIs` | template_LVGL/rt-thread/src/kservice.c:1027-1034 | character by character: the text as far as it leaves room for the NUL, the NUL, and behind it what was there before |
| `FormatReadings.SignIs` | template_LVGL/rt-thread/src/kservice.c:651-664 | a signed number is shown as its absolute value, with "-" exactly if it is negative; an unsigned one as its 32-bit value without a sign |
| `FormatReadings.SignedShown` | template_LVGL/rt-thread/src/kservice.c:978-1024 | for every value and every written-out choice of flags, width, nonzero precision and h or l, %d and %i show the signed 32- or 16-bit argument: sign, padding and decimal digits that decode to it, in a field of the promised length |
| `FormatReadings.UnsignedShown` | template_LVGL/rt-thread/src/kservice.c:968-1024 | the same for %u in decimal, %x and %X in base 16 with small and large letters, and %o, which is base 16 too |
| `FormatReadings.PointerShown` | template_LVGL/rt-thread/src/kservice.c:945-960 | %p shows the word in base 16, zero-padded to eight digits if no width is given |
| `FormatReadings.StringShown` | template_LVGL/rt-thread/src/kservice.c:913-943 | %s shows the argument, cut to a positive precision, padded with blanks to the width on the chosen side |
| `FormatReadings.TextIs` | template_LVGL/rt-thread/src/kservice.c:914-917 | a string argument ends at its first NUL, and a null pointer is shown as (NULL) |
| `FormatReadings.CharShown` | template_LVGL/rt-thread/src/kservice.c:890-911 | %c shows the low byte of the argument, padded with blanks to the width |
| `FormatReadings.OtherShown` | template_LVGL/rt-thread/src/kservice.c:962-997 | %% shows one percent sign, and a letter that is no conversion appears behind its percent sign, whatever options were written |
| `FormatReadings.LonePercent` | template_LVGL/rt-thread/src/kservice.c:984-997 | a percent sign at the end of the format stands for itself |
| `FormatReadings.PlainText` | template_LVGL/rt-thread/src/kservice.c:810-818 | a format without a percent sign is its own text |
| `FormatReadings.RenderAppend` | template_LVGL/rt-thread/src/kservice.c:810-1025 | a format made of two renders as the first followed by the second, which finds the arguments the first has left |
| `Formatting.Divide` | template_LVGL/rt-thread/src/kservice.c:568-586 | a digit of the base and a rest that recombine to the number; the base is 16 for everything but 10 |
| `Formatting.SkipAtoi` | template_LVGL/rt-thread/src/kservice.c:588-595 | the value of the longest run of digits, and where it ends |
| `Formatting.PrintNumber` | template_LVGL/rt-thread/src/kservice.c:629-775 | the loops that wear the size counter down put exactly the described field |
| `Formatting.ReadDirective` | template_LVGL/rt-thread/src/kservice.c:820-883 | flags, width, precision and qualifier, from the format or from arguments |
| `Formatting.PrintString` | template_LVGL/rt-thread/src/kservice.c:913-943 | at most precision characters, padded on the chosen side |
| `Formatting.Vsnprintf` | template_LVGL/rt-thread/src/kservice.c:777-1040 | for every format and size it terminates, returns the unbounded length independent of size, and writes exactly the first size-1 characters and a NUL, nothing behind |
| `Ethernet.CutUnique` | template_LVGL/drivers/drv_eth.c:205-248 | however a chain is divided, the same bytes are cut over the descriptors in one way |
| `Ethernet.FitsIff` | template_LVGL/drivers/drv_eth.c:205-248 | a frame needs no more descriptors than the ring has exactly if it is no longer than all buffers together |
| `Ethernet.HeldIff` | template_LVGL/drivers/drv_eth.c:218-241 | after the copy all pieces are in their buffers exactly if every piece from the second round on repeats the one a round before; always if the frame fits |
| `Ethernet.ThreeIntoTwo` | template_LVGL/drivers/drv_eth.c:218-241 | three different bytes are never all held by two one-byte buffers |
| `Ethernet.FillBuffers` | template_LVGL/drivers/drv_eth.c:218-241 | the inner loop terminates by a lexicographic measure and appends a prefix of the payload, or stops at a DMA-owned descriptor |
| `Ethernet.CopyPbuf` | template_LVGL/drivers/drv_eth.c:214-247 | the inner loop and the copy behind it append exactly the payload, or stop at a DMA-owned descriptor |
| `Ethernet.Transmit` | template_LVGL/drivers/drv_eth.c:205-261 | gives up exactly if a descriptor the frame needs is DMA-owned, never writes an owned buffer, else submits the total length; the buffers hold the whole flattened chain if it fits the ring, and otherwise exactly if its bytes repeat |
| `Ethernet.Receive` | template_LVGL/drivers/drv_eth.c:325-349 | into any segmentation, the pbufs hold the bytes of the stream in order |
| `Ethernet.RoundTrip` | template_LVGL/drivers/drv_eth.c:205-349 | what was submitted and fits is read back unchanged through any other segmentation |
| `DrawLine.Draw` | template_LVGL/applications/LCD/drv_lcd.c:2618-2651 | the loop terminates and draws, turn by turn, the points of the closed form |
| `DrawLine.EndsIff` | template_LVGL/applications/LCD/drv_lcd.c:2635 | the 16-bit counter passes the last turn exactly below a distance of 65534 |
| `DrawLine.Ends` | template_LVGL/applications/LCD/drv_lcd.c:2618-2651 | the first point is (x1, y1) and the last (x2, y2) |
| `DrawLine.InBox` | template_LVGL/applications/LCD/drv_lcd.c:2618-2651 | every point lies in the rectangle spanned by the ends |
| `DrawLine.Connected` | template_LVGL/applications/LCD/drv_lcd.c:2635-2650 | a turn moves at most one pixel per axis, towards the end |
| `DrawLine.CloseToLine` | template_LVGL/applications/LCD/drv_lcd.c:2635-2650 | every point is less than one pixel off the ideal line on the shorter axis |

## Left out

- Threads, scheduler and timers: suspending, resuming and timing out are list operations; who runs next, the remaining-timeout arithmetic of the wait loops and tick counting are not modelled.
- Creating, deleting and detaching objects, hooks, debug logging, magic checks, MEMTRACE and the 64-bit variants would add only easy members.
- The `-RT_EINTR` retry of rt_mutex_take, several mutexes held by one thread, and priority changes made by users: one saved priority does not support a claim there.
- The reset of a semaphore (rt_sem_control) is not part of the conservation runs.
- Locks around the heaps (heap_sem, the memheap lock): calls are atomic.
- Requests close to 2^32 that wrap when aligned, field widths and text lengths that overflow an int, a format buffer that wraps around the address space, and 32-bit overflow of frame lengths.
- Header fields are maps beside the pool's bytes: creating a header overwrites the bytes it occupies, but a client that overwrites a header is not modelled.
- The wait list inside each IPC class is a sequence; that the pointer-level list carries out the same insertions and removals is proved once, in `WaitLists.ListMemory`.
- MemHeaps.MemHeap.Free: the links of the block ring are written before those of the free ring when blocks are joined; the order of stores inside one call is not observable here.
- FormatReadings.SignedShown: like the other number conversions it excludes precision 0, which `FormatViews.PrecisionZero` states for the field.
- FormatViews.NumberReads: excludes precision 0, where no digits are printed; `FormatViews.PrecisionZero` states that case.
- AlignedAlloc.MallocAlign: requires a heap placed at a multiple of the pointer size and below the last word of the address space; what the store of alignment 0 destroys there is not modelled.
- MemPools.MemPool.constructor: records where links are stored, not what a store outside the pool destroys.
- MemHeaps.MemHeap.constructor: for a pool without room for two headers only the fields are stated, not what the stores outside it destroy.
- MemPools: a waiting thread is put in front of the others whatever its priority, so no order by urgency is claimed.
- DrawLine.Draw: requires a distance below 65534; beyond it the loop does not end (`DrawLine.EndsIff`).
- Ethernet.Receive: pbuf payloads are values; the release of descriptors to the DMA and the register accesses around both loops are not modelled.
- rt_calloc, rt_memheap_detach, LCD circles, rectangles and panel setup, and all other drivers.
