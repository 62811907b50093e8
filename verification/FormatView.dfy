/** The text that kservice.c's formatter stands for, with no buffer in sight: a format string
    and its arguments determine one string. RT_PRINTF_PRECISION is on, RT_PRINTF_SPECIAL and
    RT_PRINTF_LONGLONG are off. */
module FormatViews {
  import opened Basics
  import opened Numerals

  /** divide() knows two bases: everything that is not 10 is 16. */
  function Radix(base: int): (r: int)
    ensures r == 10 || r == 16
  {
    if base == 10 then 10 else 16
  }

  // ----- numbers

  datatype Flags = Flags(left: bool, plus: bool, space: bool, special: bool, zero: bool, sign: bool, large: bool)

  const NoFlags := Flags(false, false, false, false, false, false, false)

  /** The sign shown in front, if any. */
  function SignText(num: int, f: Flags): string {
    if !f.sign then "" else if num < 0 then "-" else if f.plus then "+" else if f.space then " " else ""
  }

  /** What the digits show: the absolute value, or the 32-bit word read as unsigned. */
  function Magnitude(num: int, f: Flags): nat {
    if f.sign && num < 0 then -num else num % 0x1_0000_0000
  }

  /** Sign, zeros and digits laid out in a field with `pad` characters to fill. */
  function Laid(sign: string, zeros: int, digits: string, pad: int, left: bool, zero: bool): string {
    if left then sign + Fill('0', zeros) + digits + Fill(' ', pad)
    else if zero then sign + Fill('0', pad) + Fill('0', zeros) + digits
    else Fill(' ', pad) + sign + Fill('0', zeros) + digits
  }

  /** A field that shows `num` in the given base. Precision 0 leaves the digits out but counts
      their room. */
  function FieldText(num: int, radix: int, width: int, prec: int, f: Flags): string
    requires IsRadix(radix)
  {
    var sign, digits := SignText(num, f), Digits(Magnitude(num, f), radix, f.large);
    Laid(sign, prec - |digits|, if prec == 0 then "" else digits, width - |sign| - Max(|digits|, prec), f.left, f.zero)
  }

  /** The field of print_number. */
  function NumberText(num: int, base: int, width: int, prec: int, f: Flags): string {
    FieldText(num, Radix(base), width, prec, f)
  }

  /** Blanks on one side at most, the sign, and digits that read as `v`. */
  ghost predicate Reads(t: string, sign: string, v: int, radix: int, l: nat, body: string, r: nat) {
    && t == Fill(' ', l) + sign + body + Fill(' ', r) && (l == 0 || r == 0)
    && body != "" && AllDigits(body, radix) && Decode(body, radix) == v
  }

  lemma LaidReads(sign: string, zeros: int, digits: string, pad: int, left: bool, zero: bool, radix: int)
    requires digits != "" && AllDigits(digits, radix) && radix > 0
    ensures var t := Laid(sign, zeros, digits, pad, left, zero);
      && |t| == |sign| + Max(zeros, 0) + |digits| + Max(pad, 0)
      && exists l, body, r :: Reads(t, sign, Decode(digits, radix), radix, l, body, r)
  {
    hide Decode, Fill, AllDigits;
    var t, body := Laid(sign, zeros, digits, pad, left, zero), Fill('0', zeros) + digits;
    LeadingZeros(zeros, digits, radix);
    ZerosAreDigits(zeros, digits, radix);
    if left {
      assert Reads(t, sign, Decode(digits, radix), radix, 0, body, Max(pad, 0)) by { FillMax(' ', pad); }
    } else if zero {
      LeadingZeros(pad, body, radix);
      ZerosAreDigits(pad, body, radix);
      assert Reads(t, sign, Decode(digits, radix), radix, 0, Fill('0', pad) + body, 0);
    } else {
      assert Reads(t, sign, Decode(digits, radix), radix, Max(pad, 0), body, 0) by { FillMax(' ', pad); }
    }
  }

  lemma FillMax(c: char, n: int)
    ensures Fill(c, n) == Fill(c, Max(n, 0))
  {
  }

  /** A printed number is as wide as asked for or as wide as it needs to be, and reads back as
      its magnitude behind its sign. */
  lemma NumberReads(num: int, base: int, width: int, prec: int, f: Flags)
    requires prec != 0
    ensures var t, sign, digits := NumberText(num, base, width, prec, f), SignText(num, f),
        Digits(Magnitude(num, f), Radix(base), f.large);
      && |t| == Max(width, |sign| + Max(|digits|, prec))
      && exists l, body, r :: Reads(t, sign, Magnitude(num, f), Radix(base), l, body, r)
  {
    hide Digits, Laid, Magnitude, SignText, Radix, Reads, AllDigits;
    var sign, digits := SignText(num, f), Digits(Magnitude(num, f), Radix(base), f.large);
    DigitsDecode(Magnitude(num, f), Radix(base), f.large);
    DigitsAreDigits(Magnitude(num, f), Radix(base), f.large);
    LaidReads(sign, prec - |digits|, digits, width - |sign| - Max(|digits|, prec), f.left, f.zero, Radix(base));
  }

  // ----- where a field does not show the number

  /** What is left of a field without blanks and sign reads like its digits. */
  lemma LaidNumeral(sign: string, zeros: int, digits: string, pad: int, left: bool, zero: bool, radix: int)
    requires Numeral(sign) == "" && Numeral(digits) == digits
    ensures Decode(Numeral(Laid(sign, zeros, digits, pad, left, zero)), radix) == Decode(digits, radix)
  {
    hide Numeral, Decode, Fill;
    var z, b, p := Fill('0', zeros), Fill(' ', pad), Fill('0', pad);
    FillNumeral(zeros);
    FillNumeral(pad);
    LeadingZeros(zeros, digits, radix);
    LeadingZeros(pad, z + digits, radix);
    var t := Laid(sign, zeros, digits, pad, left, zero);
    if left {
      NumeralAppend(sign, z);
      NumeralAppend(sign + z, digits);
      NumeralAppend(sign + z + digits, b);
      assert Numeral(t) == z + digits;
    } else if zero {
      NumeralAppend(sign, p);
      NumeralAppend(sign + p, z);
      NumeralAppend(sign + p + z, digits);
      assert Numeral(t) == p + (z + digits);
    } else {
      NumeralAppend(b, sign);
      NumeralAppend(b + sign, z);
      NumeralAppend(b + sign + z, digits);
      assert Numeral(t) == z + digits;
    }
  }

  lemma FillNumeral(n: int)
    ensures Numeral(Fill(' ', n)) == "" && Numeral(Fill('0', n)) == Fill('0', n)
  {
    NumeralOfOthers(Fill(' ', n));
    NumeralOfDigits(Fill('0', n));
  }

  lemma SignNumeral(num: int, f: Flags)
    ensures Numeral(SignText(num, f)) == ""
  {
    NumeralOfOthers(SignText(num, f));
  }

  lemma DigitsNumeral(v: nat, radix: int, large: bool)
    requires IsRadix(radix)
    ensures Numeral(Digits(v, radix, large)) == Digits(v, radix, large)
  {
    DigitsAreDigits(v, radix, large);
    NumeralOfDigits(Digits(v, radix, large));
  }

  lemma FieldNumeral(num: int, radix: int, width: int, prec: int, f: Flags, r: int)
    requires IsRadix(radix) && prec != 0
    ensures Decode(Numeral(FieldText(num, radix, width, prec, f)), r)
      == Decode(Digits(Magnitude(num, f), radix, f.large), r)
  {
    hide Numeral, Decode, Laid, SignText, Digits, Magnitude;
    var sign, digits := SignText(num, f), Digits(Magnitude(num, f), radix, f.large);
    SignNumeral(num, f);
    DigitsNumeral(Magnitude(num, f), radix, f.large);
    LaidNumeral(sign, prec - |digits|, digits, width - |sign| - Max(|digits|, prec), f.left, f.zero, r);
  }

  /** %o prints the octal field exactly for numbers below eight; from there on the field shows
      hexadecimal digits. */
  lemma OctalIff(num: int, width: int, prec: int, f: Flags)
    requires prec != 0
    ensures NumberText(num, 8, width, prec, f) == FieldText(num, 8, width, prec, f) <==> Magnitude(num, f) < 8
  {
    hide Numeral, Decode, Laid, Magnitude, SignText, DigitChar;
    var v := Magnitude(num, f);
    if v < 8 {
      assert Digits(v, 8, f.large) == Digits(v, 16, f.large);
    } else {
      FieldNumeral(num, 16, width, prec, f, 16);
      FieldNumeral(num, 8, width, prec, f, 16);
      DigitsDecode(v, 16, f.large);
      OctalReadAsHex(v, f.large);
    }
  }

  /** An instance: eight is printed as 8 instead of 10. */
  lemma OctalOfEight()
    ensures NumberText(8, 8, 0, -1, NoFlags) == "8" && FieldText(8, 8, 0, -1, NoFlags) == "10"
  {
    hide Digits, Laid;
    DigitsOfEight();
    LaidPlain("8", -2, -1);
    LaidPlain("10", -3, -2);
  }

  lemma DigitsOfEight()
    ensures Digits(8, 16, false) == "8" && Digits(8, 8, false) == "10"
  {
    assert Digits(1, 8, false) == "1";
  }

  lemma LaidPlain(digits: string, zeros: int, pad: int)
    requires zeros <= 0 && pad <= 0
    ensures Laid("", zeros, digits, pad, false, false) == digits
  {
  }

  lemma LaidEmpty(sign: string, zeros: int, pad: int, left: bool, zero: bool)
    requires zeros <= 0
    ensures Laid(sign, zeros, "", pad, left, zero) ==
      (if left then sign + Fill(' ', pad) else if zero then sign + Fill('0', pad) else Fill(' ', pad) + sign)
  {
    assert Fill('0', zeros) == "";
    hide Fill;
  }

  /** With precision 0 the field is its sign and its padding, short by the room of the digits; it
      shows the number exactly if that is zero. */
  lemma PrecisionZero(num: int, base: int, width: int, f: Flags)
    ensures var t, sign, digits := NumberText(num, base, width, 0, f), SignText(num, f),
        Digits(Magnitude(num, f), Radix(base), f.large);
      var pad := width - |sign| - |digits|;
      && (f.left ==> t == sign + Fill(' ', pad))
      && (!f.left && f.zero ==> t == sign + Fill('0', pad))
      && (!f.left && !f.zero ==> t == Fill(' ', pad) + sign)
      && |t| == Max(width - |digits|, |sign|)
      && (Decode(Numeral(t), Radix(base)) == Magnitude(num, f) <==> Magnitude(num, f) == 0)
  {
    hide Numeral, Digits, SignText, Magnitude, Radix, Fill, Laid;
    var sign, digits := SignText(num, f), Digits(Magnitude(num, f), Radix(base), f.large);
    var pad := width - |sign| - |digits|;
    SignNumeral(num, f);
    NumeralOfOthers("");
    LaidEmpty(sign, 0 - |digits|, pad, f.left, f.zero);
    LaidNumeral(sign, 0 - |digits|, "", pad, f.left, f.zero, Radix(base));
  }

  // ----- format strings

  /** A C string ends at its first NUL. */
  function At(s: string, k: nat): char {
    if k < |s| then s[k] else '\0'
  }

  function FlagAt(c: char, f: Flags): Option<Flags> {
    match c
    case '-' => Some(f.(left := true))
    case '+' => Some(f.(plus := true))
    case ' ' => Some(f.(space := true))
    case '#' => Some(f.(special := true))
    case '0' => Some(f.(zero := true))
    case _ => None
  }

  function SkipFlags(fmt: string, k: nat, f: Flags): (r: (Flags, nat))
    ensures k <= r.1
    decreases Max(|fmt| - k, 0)
  {
    var g := FlagAt(At(fmt, k), f);
    if g.Some? then SkipFlags(fmt, k + 1, g.value) else (f, k)
  }

  predicate IsDigit(c: char) {
    '0' <= c <= '9'
  }

  function DigitsEnd(fmt: string, k: nat): (e: nat)
    ensures k <= e && !IsDigit(At(fmt, e))
    ensures forall j :: k <= j < e ==> IsDigit(At(fmt, j))
    ensures k <= |fmt| ==> e <= |fmt|
    decreases Max(|fmt| - k, 0)
  {
    if IsDigit(At(fmt, k)) then DigitsEnd(fmt, k + 1) else k
  }

  /** The decimal number at `k`, where there is a digit. */
  function NumberAt(fmt: string, k: nat): int
    requires IsDigit(At(fmt, k))
  {
    Decode(fmt[k..DigitsEnd(fmt, k)], 10)
  }

  /** The variable arguments: the k-th one, read as a word or as a string. */
  datatype Args = Args(words: nat -> int, texts: nat -> Option<string>) {
    function Word(k: nat): (r: int)
      ensures 0 <= r < 0x1_0000_0000
    {
      words(k) % 0x1_0000_0000
    }

    function Int(k: nat): (r: int)
      ensures -0x8000_0000 <= r < 0x8000_0000
    {
      if Word(k) < 0x8000_0000 then Word(k) else Word(k) - 0x1_0000_0000
    }

    function Text(k: nat): string {
      if texts(k).Some? then texts(k).value[..StringEnd(texts(k).value, 0)] else "(NULL)"
    }
  }

  /** Where a C string ends. */
  function StringEnd(s: string, k: nat): (e: nat)
    requires k <= |s|
    ensures k <= e <= |s| && At(s, e) == '\0' && forall j :: k <= j < e ==> s[j] != '\0'
    decreases |s| - k
  {
    if At(s, k) == '\0' then k else StringEnd(s, k + 1)
  }

  /** A conversion: its options, the position of its letter, and the next argument. */
  datatype Directive = Directive(flags: Flags, width: int, prec: int, qual: char, pos: nat, arg: nat)

  function ParseWidth(fmt: string, k: nat, f: Flags, args: Args, n: nat): (d: Directive)
    ensures k <= d.pos
  {
    if IsDigit(At(fmt, k)) then Directive(f, NumberAt(fmt, k), -1, '\0', DigitsEnd(fmt, k), n)
    else if At(fmt, k) == '*' then
      var w := args.Int(n);
      Directive(if w < 0 then f.(left := true) else f, if w < 0 then -w else w, -1, '\0', k + 1, n + 1)
    else Directive(f, -1, -1, '\0', k, n)
  }

  function ParsePrecision(fmt: string, d: Directive, args: Args): (r: Directive)
    ensures d.pos <= r.pos
  {
    if At(fmt, d.pos) != '.' then d
    else if IsDigit(At(fmt, d.pos + 1)) then
      d.(prec := Max(NumberAt(fmt, d.pos + 1), 0), pos := DigitsEnd(fmt, d.pos + 1))
    else if At(fmt, d.pos + 1) == '*' then
      d.(prec := Max(args.Int(d.arg), 0), pos := d.pos + 2, arg := d.arg + 1)
    else d.(prec := 0, pos := d.pos + 1)
  }

  function ParseQualifier(fmt: string, d: Directive): (r: Directive)
    ensures d.pos <= r.pos
  {
    var c := At(fmt, d.pos);
    if c == 'h' || c == 'l' then d.(qual := c, pos := d.pos + 1) else d
  }

  /** The conversion whose options start at `k`, just behind a percent sign. */
  function Parse(fmt: string, k: nat, args: Args, n: nat): (d: Directive)
    ensures k <= d.pos
  {
    var (f, k') := SkipFlags(fmt, k, NoFlags);
    ParseQualifier(fmt, ParsePrecision(fmt, ParseWidth(fmt, k', f, args, n), args))
  }

  /** The argument of an integer conversion as it reaches print_number. */
  function NumArg(args: Args, k: nat, qual: char, sign: bool): (r: int)
    ensures -0x8000_0000 <= r < 0x8000_0000
  {
    if qual != 'h' then args.Int(k)
    else
      var u := args.Word(k) % 0x1_0000;
      if sign && u >= 0x8000 then u - 0x1_0000 else u
  }

  function CharText(c: char, width: int, left: bool): string {
    if left then [c] + Fill(' ', width - 1) else Fill(' ', width - 1) + [c]
  }

  function StringText(s: string, width: int, prec: int, left: bool): string {
    var t := if 0 < prec < |s| then s[..prec] else s;
    if left then t + Fill(' ', width - |t|) else Fill(' ', width - |t|) + t
  }

  function ConvFlags(f: Flags, c: char): Flags {
    if c == 'X' then f.(large := true) else if c == 'd' || c == 'i' then f.(sign := true) else f
  }

  function ConvBase(c: char): int {
    if c == 'o' then 8 else if c == 'x' || c == 'X' then 16 else 10
  }

  predicate IsInteger(c: char) {
    c == 'o' || c == 'x' || c == 'X' || c == 'd' || c == 'i' || c == 'u'
  }

  /** The text of a conversion with letter `c`. */
  function Field(d: Directive, c: char, args: Args): string {
    if c == 'c' then CharText((args.Word(d.arg) % 0x100) as char, d.width, d.flags.left)
    else if c == 's' then StringText(args.Text(d.arg), d.width, d.prec, d.flags.left)
    else if c == 'p' then
      if d.width == -1 then NumberText(args.Int(d.arg), 16, 8, d.prec, d.flags.(zero := true))
      else NumberText(args.Int(d.arg), 16, d.width, d.prec, d.flags)
    else if IsInteger(c) then
      var f := ConvFlags(d.flags, c);
      NumberText(NumArg(args, d.arg, d.qual, f.sign), ConvBase(c), d.width, d.prec, f)
    else if c == '%' then "%"
    else if c == '\0' then "%"
    else ['%', c]
  }

  function NextArg(d: Directive, c: char): nat {
    if c == 'c' || c == 's' || c == 'p' || IsInteger(c) then d.arg + 1 else d.arg
  }

  /** The whole text of `fmt` from position `k` on, `n` arguments having been used. */
  function Render(fmt: string, k: nat, args: Args, n: nat): string
    decreases Max(|fmt| - k, 0)
  {
    var c := At(fmt, k);
    if c == '\0' then ""
    else if c != '%' then [c] + Render(fmt, k + 1, args, n)
    else
      var d := Parse(fmt, k + 1, args, n);
      var conv := At(fmt, d.pos);
      Field(d, conv, args) + Render(fmt, if conv == '\0' then d.pos else d.pos + 1, args, NextArg(d, conv))
  }

  /** What a buffer of `size` characters receives: as much of the text as leaves room for the
      NUL, the NUL, and nothing behind it. */
  function Written(before: seq<char>, size: nat, text: string): seq<char>
    requires size <= |before|
  {
    if size == 0 then before
    else if |text| < size then text + ['\0'] + before[|text| + 1..]
    else text[..size - 1] + ['\0'] + before[size..]
  }

  /** Character by character: the text, as far as it leaves room for the NUL, the NUL, and what was
      there before. */
  lemma WrittenIs(before: seq<char>, size: nat, text: string, i: nat)
    requires size <= |before| && i < |before|
    ensures var n := if |text| < size then |text| else size - 1;
      && |Written(before, size, text)| == |before|
      && Written(before, size, text)[i] ==
           if size > 0 && i < n then text[i] else if size > 0 && i == n then '\0' else before[i]
  {
  }
}
