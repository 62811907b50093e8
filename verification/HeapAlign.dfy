/** Block addresses that are multiples of the alignment, and what keeps them so. Shared by both
    allocators. */
module HeapAlign {
  import opened HeapLayout
  import opened HeapOps
  import opened HeapData

  ghost predicate Aligned(s: seq<Block>, align: nat)
    requires align > 0
  {
    forall i :: 0 <= i < |s| ==> s[i].addr % align == 0
  }

  lemma SumAligned(x: int, y: int, align: nat)
    requires align > 0 && x % align == 0 && y % align == 0
    ensures (x + y) % align == 0 && (x - y) % align == 0
  {
    var k, l := x / align, y / align;
    assert x == k * align && y == l * align;
    assert x + y == (k + l) * align && x - y == (k - l) * align;
    MultipleAligned(k + l, align);
    MultipleAligned(k - l, align);
  }

  lemma MultipleOrder(d: int, align: nat)
    ensures d >= 1 ==> d * align >= align
    ensures d <= -1 ==> d * align <= 0 - align
  {
  }

  lemma MultipleAligned(k: int, align: nat)
    requires align > 0
    ensures (k * align) % align == 0
  {
    var q, r := (k * align) / align, (k * align) % align;
    MultipleOrder(k - q, align);
    assert (k - q) * align == r;
  }

  lemma AlignUpAligned(n: nat, align: nat)
    requires align > 0
    ensures AlignUp(n, align) % align == 0
    ensures n == 0 ==> AlignUp(n, align) == 0
  {
    var x := n + align - 1;
    assert x - x % align == (x / align) * align;
    MultipleAligned(x / align, align);
  }

  lemma SplitAligned(s: seq<Block>, i: nat, size: int, hdr: nat, align: nat)
    requires align > 0 && Aligned(s, align) && i < |s| && hdr % align == 0 && size % align == 0
    ensures Aligned(Split(s, i, size, hdr), align)
  {
    SumAligned(s[i].addr, hdr, align);
    SumAligned(s[i].addr + hdr, size, align);
  }

  lemma PlugAligned(s: seq<Block>, i: nat, hdr: nat, align: nat)
    requires align > 0 && Aligned(s, align) && i < |s|
    ensures Aligned(PlugHoles(s, i, hdr), align)
  {
    var t := PlugForward(s, i, hdr);
    assert Aligned(t, align);
  }

  lemma MarkAligned(s: seq<Block>, i: nat, flag: bool, align: nat)
    requires align > 0 && Aligned(s, align) && i < |s|
    ensures Aligned(Mark(s, i, flag), align)
  {
  }

  lemma AllocatedAligned(s: seq<Block>, k: nat, size: int, hdr: nat, mini: nat, align: nat)
    requires align > 0 && Aligned(s, align) && k < |s| && hdr % align == 0 && size % align == 0
    ensures Aligned(Allocated(s, k, size, hdr, mini), align)
  {
    hide Aligned;
    SplitAligned(s, k, size, hdr, align);
    MarkAligned(s, k, true, align);
    MarkAligned(Split(s, k, size, hdr), k, true, align);
  }

  lemma FreedAligned(s: seq<Block>, i: nat, hdr: nat, align: nat)
    requires align > 0 && Aligned(s, align) && i < |s|
    ensures Aligned(Freed(s, i, hdr), align)
  {
    hide Aligned, PlugHoles;
    MarkAligned(s, i, false, align);
    PlugAligned(Mark(s, i, false), i, hdr, align);
  }

  lemma ShrunkAligned(s: seq<Block>, i: nat, size: int, hdr: nat, align: nat)
    requires align > 0 && Aligned(s, align) && i < |s| && hdr % align == 0 && size % align == 0
    ensures Aligned(Shrunk(s, i, size, hdr), align)
  {
    hide Aligned, PlugHoles;
    SplitAligned(s, i, size, hdr, align);
    PlugAligned(Split(s, i, size, hdr), i + 1, hdr, align);
  }

  lemma GrownAligned(s: seq<Block>, i: nat, size: int, hdr: nat, align: nat)
    requires align > 0 && Aligned(s, align) && i + 1 < |s| && hdr % align == 0 && size % align == 0
    ensures Aligned(Grown(s, i, size, hdr), align)
  {
    var t := Merge(s, i, hdr);
    assert Aligned(t, align);
    hide Aligned;
    SplitAligned(t, i, size, hdr, align);
  }

  lemma AlignUpIff(m: nat, align: nat)
    requires align > 0
    ensures AlignUp(m, align) == m <==> m % align == 0
  {
    AlignUpAligned(m, align);
    if m % align == 0 {
      SumAligned(AlignUp(m, align), m, align);
      SmallMultiple(AlignUp(m, align) - m, align);
    }
  }

  lemma SmallMultiple(x: nat, align: nat)
    requires align > 0 && x % align == 0 && x < align
    ensures x == 0
  {
  }
}
