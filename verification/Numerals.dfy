/** Digit strings, and the numbers they are read as. */
module Numerals {
  import opened Basics

  const SMALL := "0123456789abcdef"
  const LARGE := "0123456789ABCDEF"

  function DigitChar(d: nat, large: bool): char
    requires d < 16
  {
    if large then LARGE[d] else SMALL[d]
  }

  /** The bases of %o, %d and %x. */
  predicate IsRadix(radix: int) {
    radix == 8 || radix == 10 || radix == 16
  }

  /** The digits of `v`, most significant first. */
  function Digits(v: nat, radix: int, large: bool): (r: string)
    requires IsRadix(radix)
    ensures |r| > 0
  {
    if v < radix then [DigitChar(v, large)]
    else Digits(v / radix, radix, large) + [DigitChar(v % radix, large)]
  }

  /** What a digit counts; -1 for everything else. */
  function DigitValue(c: char): int {
    if '0' <= c <= '9' then c as int - '0' as int
    else if 'a' <= c <= 'f' then c as int - 'a' as int + 10
    else if 'A' <= c <= 'F' then c as int - 'A' as int + 10
    else -1
  }

  ghost predicate AllDigits(s: string, radix: int) {
    forall i :: 0 <= i < |s| ==> 0 <= DigitValue(s[i]) < radix
  }

  /** The number a digit string is read as. */
  function Decode(s: string, radix: int): int {
    if s == [] then 0 else Decode(s[..|s| - 1], radix) * radix + DigitValue(s[|s| - 1])
  }

  lemma DigitDecodes(d: nat, large: bool)
    requires d < 16
    ensures DigitValue(DigitChar(d, large)) == d
  {
    assert d == 0 || d == 1 || d == 2 || d == 3 || d == 4 || d == 5 || d == 6 || d == 7 || d == 8 || d == 9
      || d == 10 || d == 11 || d == 12 || d == 13 || d == 14 || d == 15;
  }

  lemma DecodeAppend(s: string, c: char, radix: int)
    ensures Decode(s + [c], radix) == Decode(s, radix) * radix + DigitValue(c)
    ensures Decode([c], radix) == DigitValue(c)
  {
    hide DigitValue;
    assert (s + [c])[..|s|] == s;
    assert Decode([c][..0], radix) == 0;
  }

  /** Printing gives digits. */
  lemma {:induction false} DigitsAreDigits(v: nat, radix: int, large: bool)
    requires IsRadix(radix)
    ensures AllDigits(Digits(v, radix, large), radix)
  {
    hide DigitValue, DigitChar;
    DigitDecodes(v % radix, large);
    if v >= radix { DigitsAreDigits(v / radix, radix, large); }
  }

  /** Reading them gives the number back. */
  lemma {:induction false} DigitsDecode(v: nat, radix: int, large: bool)
    requires IsRadix(radix)
    ensures Decode(Digits(v, radix, large), radix) == v
  {
    hide DigitValue, DigitChar, Decode;
    var q, m := v / radix, v % radix;
    DigitDecodes(m, large);
    var d := DigitChar(m, large);
    if v >= radix {
      DigitsDecode(q, radix, large);
      DecodeAppend(Digits(q, radix, large), d, radix);
      Recombined(v, radix);
    } else {
      DecodeAppend([], d, radix);
    }
  }

  lemma Recombined(v: nat, radix: int)
    requires IsRadix(radix)
    ensures v / radix * radix + v % radix == v
  {
  }

  /** Octal digits read as hexadecimal ones make the number larger, once there are two of them. */
  lemma {:induction false} OctalReadAsHex(v: nat, large: bool)
    ensures Decode(Digits(v, 8, large), 16) >= v
    ensures v >= 8 ==> Decode(Digits(v, 8, large), 16) > v
  {
    hide DigitValue, DigitChar, Decode;
    var q, m := v / 8, v % 8;
    DigitDecodes(m, large);
    if v >= 8 {
      OctalReadAsHex(q, large);
      DecodeAppend(Digits(q, 8, large), DigitChar(m, large), 16);
    } else {
      DecodeAppend([], DigitChar(m, large), 16);
    }
  }

  function Pow(b: nat, k: nat): nat {
    if k == 0 then 1 else b * Pow(b, k - 1)
  }

  lemma {:induction false} DigitsFit(v: nat, radix: int, large: bool, k: nat)
    requires (radix == 10 || radix == 16) && k > 0 && v < Pow(10, k)
    ensures |Digits(v, radix, large)| <= k
  {
    if v >= radix {
      assert k > 1 by { assert Pow(10, 1) == 10 * Pow(10, 0); }
      assert Pow(10, k) == 10 * Pow(10, k - 1);
      assert v / radix <= v / 10 < Pow(10, k - 1);
      DigitsFit(v / radix, radix, large, k - 1);
    }
  }

  /** A 32-bit number has at most ten digits, so the 16-character scratch buffer is enough. */
  lemma WordDigits(v: nat, radix: int, large: bool)
    requires (radix == 10 || radix == 16) && v < 0x1_0000_0000
    ensures |Digits(v, radix, large)| <= 10
  {
    assert Pow(10, 4) == 10_000;
    assert Pow(10, 7) == 1000 * Pow(10, 4);
    assert Pow(10, 10) == 1000 * Pow(10, 7);
    DigitsFit(v, radix, large, 10);
  }

  // ----- padding

  /** `n` copies of a character, none if `n` is negative. */
  function Fill(c: char, n: int): (r: string)
    ensures |r| == Max(n, 0)
  {
    seq(Max(n, 0), _ => c)
  }

  /** Zeros in front do not change the number. */
  lemma {:induction false} LeadingZeros(n: int, s: string, radix: int)
    ensures Decode(Fill('0', n) + s, radix) == Decode(s, radix)
    decreases |s|, Max(n, 0)
  {
    var t := Fill('0', n) + s;
    if s != [] {
      assert t[..|t| - 1] == Fill('0', n) + s[..|s| - 1];
      LeadingZeros(n, s[..|s| - 1], radix);
    } else if n > 0 {
      assert t[..|t| - 1] == Fill('0', n - 1) + s;
      LeadingZeros(n - 1, s, radix);
    }
  }

  lemma ZerosAreDigits(n: int, s: string, radix: int)
    requires AllDigits(s, radix) && radix > 0
    ensures AllDigits(Fill('0', n) + s, radix)
  {
  }

  // ----- the digits in a text

  predicate IsDigitChar(c: char) {
    DigitValue(c) >= 0
  }

  /** A text without anything that is not a digit. */
  function Numeral(t: string): string {
    if t == "" then "" else (if IsDigitChar(t[0]) then [t[0]] else "") + Numeral(t[1..])
  }

  lemma NumeralNothing()
    ensures Numeral("") == ""
  {
  }

  lemma NumeralStep(c: char, t: string)
    ensures Numeral([c] + t) == (if IsDigitChar(c) then [c] else "") + Numeral(t)
  {
    assert ([c] + t)[1..] == t;
  }

  lemma {:induction false} NumeralAppend(a: string, b: string)
    ensures Numeral(a + b) == Numeral(a) + Numeral(b)
  {
    hide Numeral;
    if a == "" {
      assert a + b == b;
      NumeralNothing();
    } else {
      var rest := a[1..];
      NumeralAppend(rest, b);
      NumeralStep(a[0], rest);
      NumeralStep(a[0], rest + b);
      assert a == [a[0]] + rest && a + b == [a[0]] + (rest + b);
    }
  }

  lemma {:induction false} NumeralOfDigits(s: string)
    requires AllDigits(s, 16)
    ensures Numeral(s) == s
  {
    if s != "" { NumeralOfDigits(s[1..]); }
  }

  lemma {:induction false} NumeralOfOthers(s: string)
    requires forall i :: 0 <= i < |s| ==> !IsDigitChar(s[i])
    ensures Numeral(s) == ""
  {
    if s != "" { NumeralOfOthers(s[1..]); }
  }
}
