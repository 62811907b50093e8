/** 32-bit flag words, and their bits one by one. */
module Words {
  type Bits = bv32

  function And(a: Bits, b: Bits): Bits {
    a & b
  }

  function Or(a: Bits, b: Bits): Bits {
    a | b
  }

  function AndNot(a: Bits, b: Bits): Bits {
    a & !b
  }

  predicate Subset(a: Bits, b: Bits) {
    And(a, b) == a
  }

  lemma SubsetTrans(a: Bits, b: Bits, c: Bits)
    requires Subset(a, b) && Subset(b, c)
    ensures Subset(a, c)
  {
  }

  lemma Disjoint(a: Bits, b: Bits, c: Bits)
    requires Subset(a, b) && And(c, b) == 0
    ensures And(c, a) == 0
  {
  }

  lemma Meet(a: Bits, b: Bits)
    ensures And(a, a) == a && And(a, b) == And(b, a) && And(And(a, b), b) == And(a, b)
  {
  }

  lemma Cutting(a: Bits, b: Bits)
    ensures Subset(AndNot(a, b), a) && AndNot(a, And(b, a)) == AndNot(a, b)
  {
  }

  // ----- single bits

  const WIDTH: nat := 32

  function Half(x: Bits): Bits {
    x >> 1
  }

  predicate Odd(x: Bits) {
    x & 1 == 1
  }

  /** Bit `i` of a word. */
  predicate Bit(x: Bits, i: nat) {
    if i == 0 then Odd(x) else Bit(Half(x), i - 1)
  }

  /** Some bit is set in both words. */
  ghost predicate Share(a: Bits, b: Bits) {
    exists i: nat :: i < WIDTH && Bit(a, i) && Bit(b, i)
  }

  /** Every bit of the one is set in the other. */
  ghost predicate Within(a: Bits, b: Bits) {
    forall i: nat :: i < WIDTH && Bit(a, i) ==> Bit(b, i)
  }

  lemma AndRaw(a: Bits, b: Bits)
    ensures (a & b) >> 1 == (a >> 1) & (b >> 1)
  {
  }

  lemma AndHalf(a: Bits, b: Bits)
    ensures Half(And(a, b)) == And(Half(a), Half(b))
  {
    AndRaw(a, b);
  }

  lemma AndOdd(a: Bits, b: Bits)
    ensures Odd(And(a, b)) <==> Odd(a) && Odd(b)
  {
  }

  lemma OrRaw(a: Bits, b: Bits)
    ensures (a | b) >> 1 == (a >> 1) | (b >> 1)
  {
  }

  lemma OrHalf(a: Bits, b: Bits)
    ensures Half(Or(a, b)) == Or(Half(a), Half(b))
  {
    OrRaw(a, b);
  }

  lemma OrOdd(a: Bits, b: Bits)
    ensures Odd(Or(a, b)) <==> Odd(a) || Odd(b)
  {
  }

  lemma AndNotRaw(a: Bits, b: Bits)
    ensures (a & !b) >> 1 == (a >> 1) & !(b >> 1)
  {
  }

  lemma AndNotHalf(a: Bits, b: Bits)
    ensures Half(AndNot(a, b)) == AndNot(Half(a), Half(b))
  {
    AndNotRaw(a, b);
  }

  lemma AndNotOdd(a: Bits, b: Bits)
    ensures Odd(AndNot(a, b)) <==> Odd(a) && !Odd(b)
  {
  }

  lemma {:induction false} AndBit(a: Bits, b: Bits, i: nat)
    ensures Bit(And(a, b), i) <==> Bit(a, i) && Bit(b, i)
    decreases i
  {
    hide And, Half, Odd;
    AndHalf(a, b);
    AndOdd(a, b);
    if i > 0 { AndBit(Half(a), Half(b), i - 1); }
  }

  lemma {:induction false} OrBit(a: Bits, b: Bits, i: nat)
    ensures Bit(Or(a, b), i) <==> Bit(a, i) || Bit(b, i)
    decreases i
  {
    hide Or, Half, Odd;
    OrHalf(a, b);
    OrOdd(a, b);
    if i > 0 { OrBit(Half(a), Half(b), i - 1); }
  }

  lemma {:induction false} AndNotBit(a: Bits, b: Bits, i: nat)
    ensures Bit(AndNot(a, b), i) <==> Bit(a, i) && !Bit(b, i)
    decreases i
  {
    hide AndNot, Half, Odd;
    AndNotHalf(a, b);
    AndNotOdd(a, b);
    if i > 0 { AndNotBit(Half(a), Half(b), i - 1); }
  }

  /** A word that `n` shifts make zero. */
  predicate Fits(x: Bits, n: nat) {
    if n == 0 then x == 0 else Fits(Half(x), n - 1)
  }

  lemma ZeroHalf(x: Bits)
    ensures Half(x) == 0 && !Odd(x) ==> x == 0
  {
    assert x >> 1 == 0 && x & 1 != 1 ==> x == 0;
  }

  /** Without a bit set it is zero. */
  lemma {:induction false} NoBits(x: Bits, n: nat)
    requires Fits(x, n) && forall i: nat :: i < n ==> !Bit(x, i)
    ensures x == 0
    decreases n
  {
    hide Half, Odd;
    if n > 0 {
      assert !Bit(x, 0);
      forall i: nat | i < n - 1 ensures !Bit(Half(x), i) { assert !Bit(x, i + 1); }
      NoBits(Half(x), n - 1);
      ZeroHalf(x);
    }
  }

  function Shifted(x: Bits, n: nat): Bits {
    if n == 0 then x else Shifted(Half(x), n - 1)
  }

  lemma {:induction false} FitsShifted(x: Bits, n: nat, m: nat)
    ensures Fits(x, n + m) <==> Fits(Shifted(x, n), m)
    decreases n
  {
    hide Half;
    if n > 0 { FitsShifted(Half(x), n - 1, m); }
  }

  lemma EightRaw(x: Bits)
    ensures x >> 1 >> 1 >> 1 >> 1 >> 1 >> 1 >> 1 >> 1 == x >> 8
    ensures x >> 8 >> 8 >> 8 >> 8 == 0
  {
  }

  function Byte(x: Bits): Bits {
    x >> 8
  }

  lemma EightShifts(x: Bits)
    ensures Half(Half(Half(Half(Half(Half(Half(Half(x)))))))) == Byte(x)
  {
    EightRaw(x);
  }

  lemma ByteShifted(x: Bits)
    ensures Shifted(x, 8) == Byte(x)
  {
    EightShifts(x);
    hide Half, Byte;
    var y := Half(Half(Half(Half(x))));
    assert Shifted(x, 8) == Shifted(Half(x), 7) == Shifted(Half(Half(x)), 6);
    assert Shifted(Half(Half(x)), 6) == Shifted(Half(Half(Half(x))), 5) == Shifted(y, 4);
    assert Shifted(y, 4) == Shifted(Half(y), 3) == Shifted(Half(Half(y)), 2);
    assert Shifted(Half(Half(y)), 2) == Shifted(Half(Half(Half(y))), 1) == Shifted(Half(Half(Half(Half(y)))), 0);
  }

  lemma FourBytes(x: Bits)
    ensures Byte(Byte(Byte(Byte(x)))) == 0
  {
    EightRaw(x);
  }

  /** Thirty-two shifts are enough. */
  lemma AllFit(x: Bits)
    ensures Fits(x, WIDTH)
  {
    FourBytes(x);
    hide Byte, Shifted;
    var a := Byte(x);
    var b := Byte(a);
    var c := Byte(b);
    ByteShifted(x);
    ByteShifted(a);
    ByteShifted(b);
    ByteShifted(c);
    FitsShifted(c, 8, 0);
    FitsShifted(b, 8, 8);
    FitsShifted(a, 8, 16);
    FitsShifted(x, 8, 24);
  }

  lemma {:induction false} NoneOfZero(i: nat)
    ensures !Bit(0, i)
    decreases i
  {
    ZeroShift();
    hide Half, Odd;
    if i > 0 { NoneOfZero(i - 1); }
  }

  lemma ZeroShift()
    ensures Half(0) == 0 && !Odd(0)
  {
  }

  /** A word that is not zero has a bit. */
  lemma SomeBit(x: Bits)
    requires x != 0
    ensures exists i: nat :: i < WIDTH && Bit(x, i)
  {
    hide Bit, Fits;
    AllFit(x);
    if forall i: nat :: i < WIDTH ==> !Bit(x, i) { NoBits(x, WIDTH); }
  }

  /** Two words meet exactly if they have a bit in common. */
  lemma CommonBit(a: Bits, b: Bits)
    ensures And(a, b) != 0 <==> Share(a, b)
  {
    hide And, Bit;
    if And(a, b) != 0 {
      SomeBit(And(a, b));
      var i: nat :| i < WIDTH && Bit(And(a, b), i);
      AndBit(a, b, i);
    } else {
      forall i: nat | i < WIDTH ensures !(Bit(a, i) && Bit(b, i)) {
        AndBit(a, b, i);
        NoneOfZero(i);
      }
    }
  }

  lemma NothingOver(a: Bits, b: Bits)
    requires a & b == a
    ensures a & !b == 0
  {
  }

  lemma NothingMissing(a: Bits, b: Bits)
    requires a & !b == 0
    ensures a & b == a
  {
  }

  lemma Covered(a: Bits, b: Bits)
    ensures And(a, b) == a <==> AndNot(a, b) == 0
  {
    if a & b == a { NothingOver(a, b); }
    if a & !b == 0 { NothingMissing(a, b); }
  }

  /** A word is covered by another exactly if all its bits are set there. */
  lemma AllBits(a: Bits, b: Bits)
    ensures And(a, b) == a <==> Within(a, b)
  {
    hide And, AndNot, Bit;
    Covered(a, b);
    if AndNot(a, b) != 0 {
      SomeBit(AndNot(a, b));
      var i: nat :| i < WIDTH && Bit(AndNot(a, b), i);
      AndNotBit(a, b, i);
    } else {
      forall i: nat | i < WIDTH && Bit(a, i) ensures Bit(b, i) {
        AndNotBit(a, b, i);
        NoneOfZero(i);
      }
    }
  }
}
