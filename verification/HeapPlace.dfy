/** Where rt_system_heap_init puts the heap in the memory it is given. */
module HeapPlaces {
  import opened Basics
  import opened HeapData
  import opened HeapAlign

  /** A heap of `n` bytes between two headers at address `a`, both aligned, lies in the range. A
      heap of no bytes at address 0 does not count. */
  ghost predicate Placement(begin: nat, end: nat, hdr: nat, align: nat, a: int, n: int) {
    && align > 0 && a >= 0 && n >= 0 && a + n > 0
    && a % align == 0 && n % align == 0 && begin <= a && a + 2 * hdr + n <= end
  }

  /** Address and mem_size_aligned of the heap, or nothing if there is no room. */
  function HeapBounds(begin: nat, end: nat, hdr: nat, align: nat): Option<(nat, nat)>
    requires align > 0
  {
    var b, e := AlignUp(begin, align), end - end % align;
    if e > 2 * hdr && e - 2 * hdr >= b then Some((b, e - b - 2 * hdr)) else None
  }

  lemma DownAligned(x: nat, align: nat)
    requires align > 0
    ensures (x - x % align) % align == 0
  {
    assert x - x % align == (x / align) * align;
    MultipleAligned(x / align, align);
  }

  /** Two multiples less than one alignment apart are in order. */
  lemma MultiplesApart(x: int, y: int, align: nat)
    requires align > 0 && x % align == 0 && y % align == 0 && x < y + align
    ensures x <= y
  {
    var k := x / align - y / align;
    MultipleOrder(k, align);
    assert x - y == k * align;
  }

  lemma HeadersAligned(x: int, hdr: nat, align: nat)
    requires align > 0 && x % align == 0 && hdr % align == 0
    ensures (x + 2 * hdr) % align == 0 && (x - 2 * hdr) % align == 0
  {
    SumAligned(hdr, hdr, align);
    SumAligned(x, hdr + hdr, align);
  }

  /** What is set up is a placement. */
  lemma HeapBoundsFit(begin: nat, end: nat, hdr: nat, align: nat)
    requires align > 0 && hdr % align == 0
    ensures var r := HeapBounds(begin, end, hdr, align);
      r.Some? ==> Placement(begin, end, hdr, align, r.value.0, r.value.1)
  {
    hide AlignUp;
    var b, e := AlignUp(begin, align), end - end % align;
    DownAligned(end, align);
    AlignUpAligned(begin, align);
    SumAligned(e, b, align);
    HeadersAligned(e - b, hdr, align);
  }

  /** Where there is a placement one is set up, and none is larger. */
  lemma HeapBoundsLargest(begin: nat, end: nat, hdr: nat, align: nat)
    requires align > 0 && hdr % align == 0
    ensures var r := HeapBounds(begin, end, hdr, align);
      forall a, n :: Placement(begin, end, hdr, align, a, n) ==> r.Some? && n <= r.value.1
  {
    hide Placement, HeapBounds;
    forall a, n | Placement(begin, end, hdr, align, a, n)
      ensures var r := HeapBounds(begin, end, hdr, align); r.Some? && n <= r.value.1
    {
      LargerThan(begin, end, hdr, align, a, n);
    }
  }

  lemma LargerThan(begin: nat, end: nat, hdr: nat, align: nat, a: int, n: int)
    requires align > 0 && hdr % align == 0 && Placement(begin, end, hdr, align, a, n)
    ensures var r := HeapBounds(begin, end, hdr, align); r.Some? && n <= r.value.1
  {
    hide AlignUp;
    var b, e := AlignUp(begin, align), end - end % align;
    DownAligned(end, align);
    AlignUpAligned(begin, align);
    SumAligned(a, n, align);
    HeadersAligned(a + n, hdr, align);
    assert a + n + 2 * hdr < e + align;
    MultiplesApart(a + n + 2 * hdr, e, align);
    MultiplesApart(b, a, align);
  }
}
