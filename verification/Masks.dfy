/** The masks of rt_malloc_align, bit by bit, and when they round to multiples. */
module Masks {
  import opened Basics
  import opened HeapData
  import opened HeapAlign

  /** sizeof(void *). */
  const WORD: nat := 4

  /** x & m. */
  function And(x: nat, m: nat): (r: nat)
    ensures r <= x && r <= m
  {
    if x == 0 || m == 0 then 0 else 2 * And(x / 2, m / 2) + (if x % 2 == 1 && m % 2 == 1 then 1 else 0)
  }

  /** x & ~m. */
  function AndNot(x: nat, m: nat): nat {
    if x == 0 then 0 else 2 * AndNot(x / 2, m / 2) + (if x % 2 == 1 && m % 2 == 0 then 1 else 0)
  }

  ghost predicate PowerOfTwo(n: nat) {
    n == 1 || (n > 0 && n % 2 == 0 && PowerOfTwo(n / 2))
  }

  lemma {:induction false} Complement(x: nat, m: nat)
    ensures AndNot(x, m) == x - And(x, m)
  {
    if x > 0 {
      Complement(x / 2, m / 2);
      if m == 0 { NothingMasked(x / 2); }
    }
  }

  lemma {:induction false} NothingMasked(x: nat)
    ensures And(x, 0) == 0 && AndNot(x, 0) == x
  {
    if x > 0 { NothingMasked(x / 2); }
  }

  /** Below a power of two the mask is a remainder. */
  lemma {:induction false} MaskIsRemainder(x: nat, a: nat)
    requires PowerOfTwo(a)
    ensures And(x, a - 1) == x % a
    decreases a
  {
    hide And;
    if a == 1 {
      NothingMasked(x);
    } else {
      var b := a / 2;
      assert a == 2 * b;
      MaskIsRemainder(x / 2, b);
      AndDouble(x, b);
      RemainderOfHalf(x, b);
    }
  }

  lemma AndDouble(x: nat, b: nat)
    requires b > 0
    ensures And(x, 2 * b - 1) == 2 * And(x / 2, b - 1) + x % 2
  {
    assert (2 * b - 1) / 2 == b - 1 && (2 * b - 1) % 2 == 1;
  }

  /** No bit of the mask is left. */
  lemma {:induction false} Cleared(x: nat, m: nat)
    ensures And(AndNot(x, m), m) == 0
  {
    if x > 0 {
      Cleared(x / 2, m / 2);
      var y := AndNot(x, m);
      assert y / 2 == AndNot(x / 2, m / 2) && y % 2 == (if x % 2 == 1 && m % 2 == 0 then 1 else 0);
    }
  }

  lemma RemainderOfHalf(x: nat, b: nat)
    requires b > 0
    ensures x % (2 * b) == 2 * ((x / 2) % b) + x % 2
  {
    var q, r, e := (x / 2) / b, (x / 2) % b, x % 2;
    assert x / 2 == q * b + r;
    assert 2 * (q * b) == q * (2 * b);
    RemainderIs(x, 2 * b, q, 2 * r + e);
  }

  lemma RemainderIs(x: nat, d: nat, q: nat, r: nat)
    requires x == q * d + r && r < d
    ensures x % d == r
  {
    var k := q - x / d;
    MultipleOrder(k, d);
    assert k * d == x % d - r;
  }

  /** The lowest bit that is set. */
  function LowBit(a: nat): (r: nat)
    requires a > 0
    ensures 0 < r <= a
  {
    if a % 2 == 1 then 1 else 2 * LowBit(a / 2)
  }

  lemma {:induction false} LowBitOfPower(a: nat)
    requires a > 0
    ensures LowBit(a) == a <==> PowerOfTwo(a)
  {
    if a % 2 == 0 { LowBitOfPower(a / 2); }
  }

  lemma {:induction false} LowBitMasked(a: nat)
    requires a > 0
    ensures And(LowBit(a), a - 1) == 0
  {
    hide And;
    if a % 2 == 0 {
      var b := a / 2;
      LowBitMasked(b);
      AndDouble(2 * LowBit(b), b);
      assert 2 * LowBit(b) / 2 == LowBit(b) && (2 * LowBit(b)) % 2 == 0;
    } else {
      EvenMask(a - 1);
    }
  }

  lemma EvenMask(m: nat)
    requires m % 2 == 0
    ensures And(1, m) == 0
  {
    assert And(0, m / 2) == 0;
  }

  lemma LowBitWords(a: nat)
    requires a > 0 && a % WORD == 0
    ensures LowBit(a) % WORD == 0
  {
    var b := a / WORD;
    assert a == 4 * b && a / 2 == 2 * b;
    assert LowBit(a) == 2 * LowBit(2 * b) && LowBit(2 * b) == 2 * LowBit(b);
    FourTimes(LowBit(b));
  }

  // ----- the pointer that is handed out

  /** What the code computes from the pointer `p` of rt_malloc and an alignment. */
  function Raised(p: nat, a: nat): nat
    requires a > 0
  {
    if And(p, a - 1) == 0 then p + a else AndNot(p + (a - 1), a - 1)
  }

  /** For every alignment the result is at least one word above `p` and at most one alignment. */
  lemma RaisedRange(p: nat, a: nat)
    requires a > 0 && a % WORD == 0 && p % WORD == 0
    ensures p + WORD <= Raised(p, a) <= p + a
  {
    hide And, AndNot;
    var x, m := p + (a - 1), a - 1;
    Complement(x, m);
    Cleared(x, m);
    WordsLeft(x, m);
  }

  lemma OddMask(x: nat, m: nat)
    requires m % 2 == 1
    ensures AndNot(x, m) == 2 * AndNot(x / 2, m / 2)
  {
  }

  lemma WordsLeft(x: nat, m: nat)
    requires m % WORD == WORD - 1
    ensures AndNot(x, m) % WORD == 0
  {
    hide AndNot;
    var j := m / WORD;
    assert m == 4 * j + 3 && m / 2 == 2 * j + 1;
    OddMask(x, m);
    OddMask(x / 2, m / 2);
    FourTimes(AndNot(x / 2 / 2, m / 2 / 2));
  }

  lemma FourTimes(y: nat)
    ensures (2 * (2 * y)) % WORD == 0
  {
  }

  lemma RaisedOfPower(p: nat, a: nat)
    requires PowerOfTwo(a)
    ensures Raised(p, a) == if p % a == 0 then p + a else AlignUp(p, a)
  {
    hide And, AndNot;
    MaskIsRemainder(p, a);
    MaskIsRemainder(p + (a - 1), a);
    Complement(p + (a - 1), a - 1);
  }

  lemma RaisedAligned(p: nat, a: nat)
    requires PowerOfTwo(a)
    ensures Raised(p, a) % a == 0
  {
    RaisedOfPower(p, a);
    AlignUpAligned(p, a);
    hide Raised, AlignUp;
    if p % a == 0 { SumAligned(p, a, a); }
  }

  /** The result is always a multiple of the alignment exactly if that is a power of two. */
  lemma RaisedAlignedIff(a: nat)
    requires a > 0 && a % WORD == 0
    ensures (forall p: nat :: p % WORD == 0 ==> Raised(p, a) % a == 0) <==> PowerOfTwo(a)
  {
    hide And, AndNot, LowBit;
    LowBitOfPower(a);
    LowBitMasked(a);
    LowBitWords(a);
    if PowerOfTwo(a) {
      forall p: nat | p % WORD == 0 ensures Raised(p, a) % a == 0 { RaisedAligned(p, a); }
    } else {
      var p := LowBit(a);
      assert Raised(p, a) == p + a;
      RemainderIs(p + a, a, 1, p);
    }
  }

  lemma MultipleOfMultiple(r: nat, align: nat, w: nat)
    requires w > 0 && align > 0 && align % w == 0 && r % align == 0
    ensures r % w == 0
  {
    var k, l := r / align, align / w;
    assert r == k * align && align == l * w;
    assert r == (k * l) * w by { assert k * (l * w) == (k * l) * w; }
    MultipleAligned(k * l, w);
  }

  /** Rounding a power of two up to whole words leaves a power of two, or one word. */
  lemma WordsOfPower(align: nat)
    requires PowerOfTwo(align)
    ensures var a := AlignUp(align, WORD); a > 0 && a % WORD == 0 && PowerOfTwo(a) && a % align == 0
  {
    AlignUpAligned(align, WORD);
    if align >= 4 {
      assert align % 2 == 0 && (align / 2) % 2 == 0;
    } else {
      assert align == 1 || align == 2;
      assert PowerOfTwo(2) && PowerOfTwo(4);
    }
  }

  /** The result is a multiple of the alignment that was asked for, whatever the pointer, exactly
      if that is a power of two. */
  lemma RequestedIff(align: nat)
    requires align > 0
    ensures AlignUp(align, WORD) > 0
    ensures (forall p: nat :: p % WORD == 0 ==> Raised(p, AlignUp(align, WORD)) % align == 0) <==> PowerOfTwo(align)
  {
    var a := AlignUp(align, WORD);
    AlignUpAligned(align, WORD);
    if PowerOfTwo(align) {
      WordsOfPower(align);
      hide And, AndNot, AlignUp;
      forall p: nat | p % WORD == 0 ensures Raised(p, a) % align == 0 {
        RaisedAligned(p, a);
        MultipleOfMultiple(Raised(p, a), a, align);
      }
    } else if align % WORD == 0 {
      assert a == align;
      hide And, AndNot, AlignUp;
      RaisedAlignedIff(align);
    } else {
      NotWholeWords(align);
    }
  }

  /** An alignment that is neither a power of two nor in whole words fails for a pointer of 0. */
  lemma NotWholeWords(align: nat)
    requires align > 0 && !PowerOfTwo(align) && align % WORD != 0
    ensures var a := AlignUp(align, WORD); a > 0 && Raised(0, a) % align != 0
  {
    JustAbove(align);
    hide And, AndNot, AlignUp, PowerOfTwo;
    var a := AlignUp(align, WORD);
    NothingSet(a - 1);
    assert Raised(0, a) == a;
    RemainderIs(a, align, 1, a - align);
  }

  lemma JustAbove(align: nat)
    requires align > 0 && !PowerOfTwo(align) && align % WORD != 0
    ensures align < AlignUp(align, WORD) < 2 * align
  {
    assert PowerOfTwo(1) && PowerOfTwo(2);
    assert align >= 3;
    if align == 3 { assert AlignUp(3, 4) == 4; }
    AlignUpAligned(align, WORD);
  }

  lemma NothingSet(m: nat)
    ensures And(0, m) == 0
  {
  }

  /** At the start of the board's RAM an alignment of 12 gives an address that is 8 too high. */
  lemma TwelveInRam()
    ensures Raised(0x2000_0000, 12) == 0x2000_000C && 0x2000_000C % 12 == 8
  {
    assert And(0x200_0000, 0) == 0;
    assert And(0x400_0000, 1) == 0;
    assert And(0x800_0000, 2) == 0;
    assert And(0x1000_0000, 5) == 0;
    assert And(0x2000_0000, 11) == 0;
  }

  // ----- 32-bit arithmetic

  lemma {:induction false} PowerProduct(a: nat, b: nat)
    requires PowerOfTwo(a) && PowerOfTwo(b)
    ensures PowerOfTwo(a * b)
    decreases a
  {
    if a > 1 {
      var c := a / 2;
      PowerProduct(c, b);
      DoublePower(c * b);
      assert a * b == 2 * (c * b);
    }
  }

  lemma DoublePower(x: nat)
    requires PowerOfTwo(x)
    ensures PowerOfTwo(2 * x)
  {
    assert 2 * x / 2 == x && (2 * x) % 2 == 0;
  }

  lemma SpaceIsPower()
    ensures PowerOfTwo(SPACE)
  {
    assert PowerOfTwo(2) && PowerOfTwo(4) && PowerOfTwo(8) && PowerOfTwo(16);
    PowerProduct(16, 16);
    PowerProduct(0x100, 0x100);
    PowerProduct(0x1_0000, 0x1_0000);
  }

  /** The same computation in 32 bits. An alignment of 0 gives a mask of ones. */
  function Raised32(p: nat, a: nat): nat {
    var mask := (a - 1) % SPACE;
    if And(p, mask) == 0 then (p + a) % SPACE else AndNot((p + mask) % SPACE, mask)
  }

  lemma RaisedNoWrap(p: nat, a: nat)
    requires a > 0 && p + a < SPACE
    ensures Raised32(p, a) == Raised(p, a)
  {
    hide And, AndNot;
    InSpace(a - 1);
    InSpace(p + a);
    InSpace(p + (a - 1));
  }

  lemma InSpace(x: nat)
    requires x < SPACE
    ensures x % SPACE == x
  {
  }

  /** An alignment of 0 gives a null pointer. */
  lemma RaisedByNothing(p: nat)
    requires 0 < p < SPACE
    ensures Raised32(p, 0) == 0
  {
    hide And, AndNot, PowerOfTwo;
    SpaceIsPower();
    MaskIsRemainder(p, SPACE);
    assert (0 - 1) % SPACE == SPACE - 1;
    assert (p + (SPACE - 1)) % SPACE == p - 1;
    InSpace(p);
    InSpace(p - 1);
    MaskIsRemainder(p - 1, SPACE);
    Complement(p - 1, SPACE - 1);
  }

  /** What rt_malloc is asked for. */
  function Padded(size: nat, align: nat): nat {
    AlignUp(size, WORD) + AlignUp(align, WORD)
  }

  /** Where the real pointer is saved. */
  function SlotAt(r: nat): int {
    (r - WORD) % SPACE
  }

  /** For every alignment and every block, the `size` bytes at the result and the saved pointer
      below it lie inside the block exactly if the alignment is not 0. */
  lemma InsideBlockIff(p: nat, size: nat, align: nat)
    requires p > 0 && p % WORD == 0 && p + Padded(size, align) < SPACE
    ensures var r := Raised32(p, AlignUp(align, WORD));
      && (p <= SlotAt(r) && SlotAt(r) + WORD <= r && r + size <= p + Padded(size, align) <==> align != 0)
      && (align == 0 ==> r == 0 && SlotAt(r) == SPACE - WORD)
      && (PowerOfTwo(align) ==> r % align == 0)
  {
    hide Raised, Raised32, AlignUp;
    var a := AlignUp(align, WORD);
    AlignUpAligned(align, WORD);
    if align == 0 {
      RaisedByNothing(p);
    } else {
      RaisedRange(p, a);
      RaisedNoWrap(p, a);
      if PowerOfTwo(align) { RequestedIff(align); }
    }
  }
}
