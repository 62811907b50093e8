/** rt_malloc_align and rt_free_align of kservice.c on the heap of mem.c. The pointer that
    rt_malloc returned is kept in the word just below the aligned one. Pointers are addresses:
    the heap starts at `base`. */
module AlignedAlloc {
  import opened Basics
  import opened HeapLayout
  import opened HeapOps
  import opened HeapData
  import opened HeapAlign
  import opened SmallMemViews
  import opened SmallMems
  import opened MemCopy
  import opened Masks

  /** A word in memory, least significant byte first. */
  function Word(m: seq<byte>, a: nat): (v: nat)
    requires a + WORD <= |m|
  {
    m[a] as nat + 0x100 * m[a + 1] as nat + 0x1_0000 * m[a + 2] as nat + 0x100_0000 * m[a + 3] as nat
  }

  function Byte(v: nat): byte {
    (v % 0x100) as byte
  }

  lemma WordIs(m: seq<byte>, a: nat, v: nat)
    requires a + WORD <= |m| && v < 0x1_0000_0000
    requires m[a] == Byte(v) && m[a + 1] == Byte(v / 0x100)
    requires m[a + 2] == Byte(v / 0x100 / 0x100) && m[a + 3] == Byte(v / 0x100 / 0x100 / 0x100)
    ensures Word(m, a) == v
  {
    var v1 := v / 0x100;
    var v2 := v1 / 0x100;
    var v3 := v2 / 0x100;
    assert v == v % 0x100 + 0x100 * v1 && v1 == v1 % 0x100 + 0x100 * v2 && v2 == v2 % 0x100 + 0x100 * v3;
    assert v3 < 0x100;
  }

  method StoreWord(ram: array<byte>, a: nat, v: nat)
    requires a + WORD <= ram.Length && v < 0x1_0000_0000
    modifies ram
    ensures Word(ram[..], a) == v && SameOutside(old(ram[..]), ram[..], a, WORD)
  {
    hide Word, Byte;
    ram[a] := Byte(v);
    ram[a + 1] := Byte(v / 0x100);
    ram[a + 2] := Byte(v / 0x100 / 0x100);
    ram[a + 3] := Byte(v / 0x100 / 0x100 / 0x100);
    WordIs(ram[..], a, v);
  }

  /** What a successful rt_malloc has found: room inside a block that was free, aligned, and
      now live with at least the bytes asked for. */
  lemma MallocFits(v: View, n: nat, c: Config)
    requires Good(v, c) && MallocView(v, n, c).1 != NULL
    ensures var (w, q) := MallocView(v, n, c);
      && HasBlock(v.layout, q - c.hdr) && q % c.align == 0 && q >= c.hdr
      && (var b := v.layout[Where(v.layout, q - c.hdr)]; !b.used && n <= b.size && q + b.size <= c.End())
      && Live(w.layout, c.hdr, q)
      && n <= w.layout[Where(w.layout, q - c.hdr)].size
  {
    hide FitFrom, LowestFrom, Coalesced, Tiled, Allocated;
    MallocKeeps(v, n, c);
    RoomAligned(n, c);
    var s, end, size, w := v.layout, c.End(), Room(n, c), MallocView(v, n, c).0;
    var k := FitFrom(s, Start(v, end), size, c.heapSize - size);
    DataInPool(s, c.hdr, end, k);
    SameBlock(s, c.hdr, end, k, Where(s, s[k].addr + c.hdr - c.hdr));
    SumAligned(s[k].addr, c.hdr, c.align);
    AllocatedAt(s, k, size, c.hdr, c.MinAligned());
    SameBlock(w.layout, c.hdr, end, k, Where(w.layout, s[k].addr + c.hdr - c.hdr));
  }

  /** `r` is an aligned pointer into the live block at offset `q`: `size` bytes at `r` lie inside
      the block, the word below `r` too, and that word names the block. */
  ghost predicate PlacedIn(h: SmallMem, r: int, size: nat, q: int)
    reads h, h.ram
  {
    && Live(h.layout, h.c.hdr, q)
    && (var b := h.layout[Where(h.layout, q - h.c.hdr)];
        q + WORD <= r - h.base && r - h.base + size <= q + b.size)
    && 0 <= q && r - h.base <= h.ram.Length
    && Word(h.ram[..], r - h.base - WORD) == h.base + q
  }

  /** Where the aligned pointer and the saved one end up in a block at offset `q` that was free
      in `v` and is live in `w`. */
  ghost predicate Enclosed(v: View, w: View, q: int, r: int, size: nat, base: nat, c: Config) {
    && HasBlock(v.layout, q - c.hdr) && Live(w.layout, c.hdr, q)
    && (var b := v.layout[Where(v.layout, q - c.hdr)]; !b.used && r - base <= q + b.size <= c.End())
    && q + WORD <= r - base && r - base + size <= q + w.layout[Where(w.layout, q - c.hdr)].size
  }

  /** For every alignment but 0 the result and the saved pointer lie inside the block, and a power
      of two is met; for 0 the result is null. */
  lemma PadEnough(v: View, size: nat, align: nat, base: nat, c: Config)
    requires Good(v, c) && base % WORD == 0 && c.align % WORD == 0 && base + c.End() < SPACE
    requires MallocView(v, Padded(size, align), c).1 != NULL
    ensures var (w, q) := MallocView(v, Padded(size, align), c);
      q >= 0 && var r := Raised32(base + q, AlignUp(align, WORD));
      && (align > 0 ==> r > 0 && SlotAt(r) == r - WORD && Enclosed(v, w, q, r, size, base, c))
      && (align == 0 ==> r == 0 && SlotAt(r) == SPACE - WORD)
      && (PowerOfTwo(align) ==> r % align == 0)
  {
    hide Good, MallocView, Live, Padded, Raised32, AlignUp, Room, PowerOfTwo;
    var n := Padded(size, align);
    MallocFits(v, n, c);
    GoodParts(v, c);
    var q := MallocView(v, n, c).1;
    WholeWords(base, q, c.align);
    InsideBlockIff(base + q, size, align);
  }

  lemma WholeWords(base: nat, q: nat, align: nat)
    requires align > 0 && align % WORD == 0 && q % align == 0 && base % WORD == 0
    ensures (base + q) % WORD == 0
  {
    MultipleOfMultiple(q, align, WORD);
    SumAligned(base, q, WORD);
  }

  lemma SlotWritten(s: seq<Block>, c: Config, q: int, a: int, m: seq<byte>, m1: seq<byte>, m2: seq<byte>)
    requires Tiled(s, c.hdr, c.End()) && DataKept(s, c.hdr, m, m1) && SameOutside(m1, m2, a, WORD)
    requires HasBlock(s, q - c.hdr)
    requires var b := s[Where(s, q - c.hdr)]; !b.used && q <= a && a + WORD <= q + b.size
    ensures DataKept(s, c.hdr, m, m2)
  {
    hide DataKept, Tiled, SameOutside;
    WritesInside(s, c.hdr, c.End(), Where(s, q - c.hdr), m1, m2, a, WORD);
    KeptTwice(s, c.hdr, m, m1, m2);
  }

  /** rt_malloc_align. `r` is the address returned, 0 for null, and `slot` the address at which
      the pointer of rt_malloc was saved. Freeing the block at offset `q` undoes the call. For
      every alignment but 0 both lie inside that block; for 0 the block is lost and the pointer
      goes to the last word of the address space. */
  method MallocAlign(h: SmallMem, size: nat, align: nat) returns (r: nat, slot: int, ghost q: int)
    requires h.Valid() && h.base % WORD == 0 && h.c.align % WORD == 0 && h.base + h.ram.Length <= SPACE - WORD
    modifies h, h.ram
    ensures h.Valid() && Good(old(h.Abs()), h.c)
    ensures (h.Abs(), q) == MallocView(old(h.Abs()), Padded(size, align), h.c)
    ensures r == 0 <==> q == NULL || align == 0
    ensures DataKept(old(h.layout), h.c.hdr, old(h.ram[..]), h.ram[..])
    ensures q != NULL ==> slot == SlotAt(r) && (PlacedIn(h, r, size, q) <==> align != 0)
    ensures q != NULL && align == 0 ==> slot == SPACE - WORD
    ensures q != NULL && PowerOfTwo(align) ==> r % align == 0
    ensures q != NULL ==> MayFree(h.Abs(), q, h.c) && FreeView(h.Abs(), q, h.c) == old(h.Abs())
  {
    hide Chain, Good, Footprint, MallocView, FreeView, DataKept, SameOutside, Tiled, Word, AlignUp, Padded, Raised32,
      Live, HasBlock, MayFree, PowerOfTwo, SlotAt;
    ghost var v, m, c := h.Abs(), h.ram[..], h.c;
    FreeUndoesMalloc(v, Padded(size, align), c);
    var p := h.Malloc(Padded(size, align));
    q := p;
    if p == NULL {
      return 0, 0, q;
    }
    PadEnough(v, size, align, h.base, c);
    r := Raised32(h.base + p, AlignUp(align, WORD));
    slot := SlotAt(r);
    if h.base <= slot && slot + WORD <= h.base + h.ram.Length {
      ghost var m1 := h.ram[..];
      StoreWord(h.ram, slot - h.base, h.base + p);
      GoodTiled(v, c);
      SlotWritten(v.layout, c, p, slot - h.base, m, m1, h.ram[..]);
    }
  }

  lemma GoodTiled(v: View, c: Config)
    requires Good(v, c)
    ensures Tiled(v.layout, c.hdr, c.End())
  {
  }

  /** rt_free_align frees the block whose pointer is saved below `r`, wherever in it `r` lies. */
  method FreeAlign(h: SmallMem, r: int, ghost size: nat, ghost q: int)
    requires h.Valid() && PlacedIn(h, r, size, q)
    modifies h
    ensures h.Valid() && Good(old(h.Abs()), h.c) && MayFree(old(h.Abs()), q, h.c)
    ensures h.Abs() == FreeView(old(h.Abs()), q, h.c)
  {
    hide Chain, Good, Footprint, FreeView, Word, Live;
    var saved := Word(h.ram[..], r - h.base - WORD);
    h.Free(saved - h.base);
  }
}
