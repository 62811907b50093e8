/** What a reader sees: the texts of written-out formats, stated on the format string, the
    arguments and the characters that come out. */
module FormatReadings {
  import opened Basics
  import opened Numerals
  import opened FormatViews

  // ----- written-out formats

  /** A width or a precision: left out, written as a number, or taken from an argument. */
  datatype Size = Absent | Given(v: nat) | Star

  /** A conversion as it stands in a format string behind the percent sign. */
  datatype Conversion = Conversion(flags: string, width: Size, prec: Size, qual: string, letter: char)

  function Spelled(s: Size): string {
    match s
    case Absent => ""
    case Given(v) => Digits(v, 10, false)
    case Star => "*"
  }

  function PrecText(s: Size): string {
    if s == Absent then "" else "." + Spelled(s)
  }

  function Spell(w: Conversion): (r: string)
    ensures |r| > 0
  {
    "%" + w.flags + Spelled(w.width) + PrecText(w.prec) + w.qual + [w.letter]
  }

  predicate IsFlag(c: char) {
    c == '-' || c == '+' || c == ' ' || c == '#' || c == '0'
  }

  ghost predicate AllFlags(s: string) {
    forall i :: 0 <= i < |s| ==> IsFlag(s[i])
  }

  predicate IsQualifier(q: string) {
    q == "" || q == "h" || q == "l"
  }

  /** A letter that ends a conversion. */
  predicate IsLetter(c: char) {
    !IsFlag(c) && !IsDigit(c) && c != '*' && c != '.' && c != 'h' && c != 'l' && c != '\0'
  }

  /** Flags are flag characters, and a width is not written with a leading zero, which would be a
      flag. */
  ghost predicate WellFormed(w: Conversion) {
    && AllFlags(w.flags)
    && (w.width.Given? ==> w.width.v > 0)
    && IsQualifier(w.qual)
    && IsLetter(w.letter)
  }

  /** `s` stands in `fmt` at `k`. */
  ghost predicate StandsAt(fmt: string, k: nat, s: string) {
    k + |s| <= |fmt| && fmt[k..k + |s|] == s
  }

  lemma StandsApart(fmt: string, k: nat, a: string, b: string)
    requires StandsAt(fmt, k, a + b)
    ensures StandsAt(fmt, k, a) && StandsAt(fmt, k + |a|, b)
  {
    var t := fmt[k..k + |a + b|];
    assert t[..|a|] == a && t[|a|..] == b;
    assert fmt[k..k + |a|] == t[..|a|] && fmt[k + |a|..k + |a| + |b|] == t[|a|..];
  }

  lemma StandsFirst(fmt: string, k: nat, s: string, i: nat)
    requires StandsAt(fmt, k, s) && i < |s|
    ensures At(fmt, k + i) == s[i]
  {
    assert fmt[k..k + |s|][i] == fmt[k + i];
  }

  // ----- arguments

  /** A word as a two's complement number, of 16 bits or of 32. */
  function Signed(word: int, half: bool): int {
    var u := if half then word % 0x1_0000 else word;
    if u < (if half then 0x8000 else 0x8000_0000) then u else u - (if half then 0x1_0000 else 0x1_0000_0000)
  }

  lemma IntIs(args: Args, k: nat)
    ensures args.Int(k) == Signed(args.Word(k), false)
  {
  }

  lemma NumArgIs(args: Args, k: nat, qual: char, sign: bool)
    ensures sign ==> NumArg(args, k, qual, sign) == Signed(args.Word(k), qual == 'h')
    ensures !sign && qual == 'h' ==> NumArg(args, k, qual, sign) % 0x1_0000_0000 == args.Word(k) % 0x1_0000
    ensures !sign && qual != 'h' ==> NumArg(args, k, qual, sign) % 0x1_0000_0000 == args.Word(k)
  {
  }

  // ----- reading the options

  predicate Has(s: string, c: char) {
    c in s
  }

  /** The flags a string of flag characters sets. */
  function WithFlags(f: Flags, s: string): Flags {
    f.(left := f.left || Has(s, '-'), plus := f.plus || Has(s, '+'), space := f.space || Has(s, ' '),
       special := f.special || Has(s, '#'), zero := f.zero || Has(s, '0'))
  }

  lemma {:induction false} FlagsRead(fmt: string, k: nat, f: Flags, s: string)
    requires StandsAt(fmt, k, s) && !IsFlag(At(fmt, k + |s|)) && AllFlags(s)
    ensures SkipFlags(fmt, k, f) == (WithFlags(f, s), k + |s|)
    decreases |s|
  {
    hide WithFlags, FlagAt, StandsAt;
    OneFlag(f, At(fmt, k), "");
    if s != "" {
      var c, rest := s[0], s[1..];
      StandsFirst(fmt, k, s, 0);
      assert s == [c] + rest;
      StandsApart(fmt, k, [c], rest);
      OneFlag(f, c, rest);
      FlagsRead(fmt, k + 1, FlagAt(c, f).value, rest);
    }
  }

  lemma OneFlag(f: Flags, c: char, rest: string)
    ensures FlagAt(c, f).Some? <==> IsFlag(c)
    ensures IsFlag(c) ==> WithFlags(FlagAt(c, f).value, rest) == WithFlags(f, [c] + rest)
    ensures WithFlags(f, "") == f
  {
    assert WithFlags(f, "") == f;
    hide Has;
    OneMore(c, rest, '-');
    OneMore(c, rest, '+');
    OneMore(c, rest, ' ');
    OneMore(c, rest, '#');
    OneMore(c, rest, '0');
  }

  lemma OneMore(c: char, rest: string, x: char)
    ensures Has([c] + rest, x) <==> x == c || Has(rest, x)
  {
  }

  lemma DigitsRead(fmt: string, k: nat, v: nat)
    requires StandsAt(fmt, k, Digits(v, 10, false)) && !IsDigit(At(fmt, k + |Digits(v, 10, false)|))
    ensures IsDigit(At(fmt, k)) && DigitsEnd(fmt, k) == k + |Digits(v, 10, false)| && NumberAt(fmt, k) == v
  {
    hide Digits, Decode;
    var s := Digits(v, 10, false);
    DigitsAreDigits(v, 10, false);
    DigitsDecode(v, 10, false);
    forall j | k <= j < k + |s| ensures IsDigit(At(fmt, j)) { StandsFirst(fmt, k, s, j - k); }
    assert IsDigit(At(fmt, k)) && DigitsEnd(fmt, k) == k + |s|;
  }

  /** No leading zero. */
  lemma {:induction false} DigitsCanonical(v: nat, radix: int, large: bool)
    requires IsRadix(radix)
    ensures v > 0 ==> Digits(v, radix, large)[0] != '0'
    ensures v == 0 ==> |Digits(v, radix, large)| == 1
  {
    if v >= radix {
      DigitsCanonical(v / radix, radix, large);
    } else {
      DigitDecodes(v, large);
    }
  }

  /** What follows the width is neither a flag, a digit nor a star. */
  lemma WidthRead(fmt: string, k: nat, s: Size, f: Flags, args: Args, n: nat)
    requires StandsAt(fmt, k, Spelled(s)) && !IsDigit(At(fmt, k + |Spelled(s)|)) && At(fmt, k + |Spelled(s)|) != '*'
    ensures ParseWidth(fmt, k, f, args, n) ==
      Directive(if s.Star? && Signed(args.Word(n), false) < 0 then f.(left := true) else f, Wide(s, args, n), -1, '\0',
                k + |Spelled(s)|, if s.Star? then n + 1 else n)
  {
    IntIs(args, n);
    hide Digits, NumberAt;
    match s
    case Absent =>
    case Given(v) => DigitsRead(fmt, k, v);
    case Star => StandsFirst(fmt, k, "*", 0);
  }

  function Wide(s: Size, args: Args, n: nat): int {
    match s
    case Absent => -1
    case Given(v) => v
    case Star => var v := Signed(args.Word(n), false); if v < 0 then -v else v
  }

  function Precise(s: Size, args: Args, n: nat): int {
    match s
    case Absent => -1
    case Given(v) => v
    case Star => Max(Signed(args.Word(n), false), 0)
  }

  lemma PrecisionRead(fmt: string, d: Directive, s: Size, args: Args)
    requires d.prec == -1 && StandsAt(fmt, d.pos, PrecText(s))
    requires var c := At(fmt, d.pos + |PrecText(s)|); !IsDigit(c) && c != '*' && c != '.'
    ensures ParsePrecision(fmt, d, args) ==
      d.(prec := Precise(s, args, d.arg), pos := d.pos + |PrecText(s)|, arg := if s.Star? then d.arg + 1 else d.arg)
  {
    hide Digits, NumberAt, StandsAt, At, DigitsEnd, Signed;
    IntIs(args, d.arg);
    if s != Absent {
      StandsApart(fmt, d.pos, ".", Spelled(s));
      StandsFirst(fmt, d.pos, ".", 0);
      match s
      case Given(v) => DigitsRead(fmt, d.pos + 1, v);
      case Star => StandsFirst(fmt, d.pos + 1, "*", 0);
    }
  }

  lemma QualifierRead(fmt: string, d: Directive, q: string)
    requires d.qual == '\0' && StandsAt(fmt, d.pos, q) && IsQualifier(q)
    requires var c := At(fmt, d.pos + |q|); c != 'h' && c != 'l'
    ensures ParseQualifier(fmt, d) == d.(qual := if q == "" then '\0' else q[0], pos := d.pos + |q|)
  {
    if q != "" { StandsFirst(fmt, d.pos, q, 0); }
  }

  /** How many arguments width and precision take. */
  function Stars(w: Conversion): nat {
    (if w.width.Star? then 1 else 0) + (if w.prec.Star? then 1 else 0)
  }

  /** A minus sign among the flags, or a negative width, asks for the left side. */
  function IsLeft(w: Conversion, args: Args, n: nat): bool {
    Has(w.flags, '-') || (w.width.Star? && Signed(args.Word(n), false) < 0)
  }

  /** Width and precision of a conversion whose first argument is the `n`-th. */
  function WidthOf(w: Conversion, args: Args, n: nat): int {
    Wide(w.width, args, n)
  }

  function PrecOf(w: Conversion, args: Args, n: nat): int {
    Precise(w.prec, args, if w.width.Star? then n + 1 else n)
  }

  ghost function Options(w: Conversion, args: Args, n: nat, pos: nat): Directive {
    var f := WithFlags(NoFlags, w.flags);
    Directive(if w.width.Star? && Signed(args.Word(n), false) < 0 then f.(left := true) else f,
              WidthOf(w, args, n), PrecOf(w, args, n), if w.qual == "" then '\0' else w.qual[0], pos, n + Stars(w))
  }

  /** The parts of a conversion stand one behind the other. */
  lemma PartsStand(fmt: string, k: nat, w: Conversion)
    requires StandsAt(fmt, k, Spell(w))
    ensures var k0 := k + 1;
      var k1 := k0 + |w.flags|;
      var k2 := k1 + |Spelled(w.width)|;
      var k3 := k2 + |PrecText(w.prec)|;
      var k4 := k3 + |w.qual|;
      && At(fmt, k) == '%' && StandsAt(fmt, k0, w.flags) && StandsAt(fmt, k1, Spelled(w.width))
      && StandsAt(fmt, k2, PrecText(w.prec)) && StandsAt(fmt, k3, w.qual)
      && At(fmt, k4) == w.letter && k4 + 1 == k + |Spell(w)|
  {
    hide StandsAt, Spelled, PrecText;
    var a := "%" + w.flags;
    var b := a + Spelled(w.width);
    var c := b + PrecText(w.prec);
    var d := c + w.qual;
    StandsApart(fmt, k, d, [w.letter]);
    StandsApart(fmt, k, c, w.qual);
    StandsApart(fmt, k, b, PrecText(w.prec));
    StandsApart(fmt, k, a, Spelled(w.width));
    StandsApart(fmt, k, "%", w.flags);
    StandsFirst(fmt, k, "%", 0);
    StandsFirst(fmt, k + |d|, [w.letter], 0);
  }

  /** The first character of what is behind the flags. */
  lemma FirstBehind(fmt: string, k: nat, s: string, next: char)
    requires StandsAt(fmt, k, s) && At(fmt, k + |s|) == next
    ensures At(fmt, k) == if s == "" then next else s[0]
  {
    if s != "" { StandsFirst(fmt, k, s, 0); }
  }

  lemma WidthStart(s: Size)
    requires s.Given? ==> s.v > 0
    ensures Spelled(s) != "" ==> !IsFlag(Spelled(s)[0])
  {
    if s.Given? {
      DigitsCanonical(s.v, 10, false);
      DigitsAreDigits(s.v, 10, false);
      hide Digits;
    }
  }

  /** None of the parts is mistaken for the end of the one before. */
  lemma PartsEnd(fmt: string, k: nat, w: Conversion)
    requires StandsAt(fmt, k, Spell(w)) && WellFormed(w)
    ensures var k1 := k + 1 + |w.flags|;
      var k2 := k1 + |Spelled(w.width)|;
      var k3 := k2 + |PrecText(w.prec)|;
      && !IsFlag(At(fmt, k1)) && !IsDigit(At(fmt, k2)) && At(fmt, k2) != '*'
      && !IsDigit(At(fmt, k3)) && At(fmt, k3) != '*' && At(fmt, k3) != '.'
  {
    hide StandsAt, Spelled, Spell, At;
    PartsStand(fmt, k, w);
    var k1 := k + 1 + |w.flags|;
    var k2 := k1 + |Spelled(w.width)|;
    var k3 := k2 + |PrecText(w.prec)|;
    FirstBehind(fmt, k3, w.qual, w.letter);
    FirstBehind(fmt, k2, PrecText(w.prec), At(fmt, k3));
    FirstBehind(fmt, k1, Spelled(w.width), At(fmt, k2));
    WidthStart(w.width);
  }

  lemma OptionsRead(fmt: string, k: nat, w: Conversion, args: Args, n: nat)
    requires StandsAt(fmt, k, Spell(w)) && WellFormed(w)
    ensures At(fmt, k) == '%' && At(fmt, k + |Spell(w)| - 1) == w.letter
    ensures Parse(fmt, k + 1, args, n) == Options(w, args, n, k + |Spell(w)| - 1)
  {
    hide StandsAt, Spelled, PrecText, Spell, SkipFlags, ParseWidth, ParsePrecision, ParseQualifier, WithFlags, Wide,
      Precise, At, IsFlag, IsDigit, IsLetter, AllFlags, IsQualifier;
    LetterEnds(w);
    PartsStand(fmt, k, w);
    PartsEnd(fmt, k, w);
    var k1, f := k + 1 + |w.flags|, WithFlags(NoFlags, w.flags);
    FlagsRead(fmt, k + 1, NoFlags, w.flags);
    WidthRead(fmt, k1, w.width, f, args, n);
    var d := ParseWidth(fmt, k1, f, args, n);
    PrecisionRead(fmt, d, w.prec, args);
    QualifierRead(fmt, ParsePrecision(fmt, d, args), w.qual);
  }

  lemma LetterEnds(w: Conversion)
    requires WellFormed(w)
    ensures w.letter != 'h' && w.letter != 'l' && w.letter != '\0'
  {
  }

  // ----- numbers on paper

  /** Hexadecimal letters are all large or all small. */
  ghost predicate Cased(s: string, large: bool) {
    forall i :: 0 <= i < |s| ==> ('a' <= s[i] <= 'f' ==> !large) && ('A' <= s[i] <= 'F' ==> large)
  }

  /** The digits a number is shown with at least. */
  function Least(sign: string, width: int, prec: int, left: bool, zero: bool): int {
    Max(1, Max(prec, if zero && !left then width - |sign| else 1))
  }

  /** `t` shows `v` in the given base with the sign in front: as many digits as are asked for and no
      superfluous zeros, filled up with blanks to the width on the side asked for. */
  ghost predicate Shows(t: string, sign: string, v: nat, radix: int, large: bool, width: int, prec: int, left: bool,
                        zero: bool)
  {
    exists body: string ::
      && AllDigits(body, radix) && Decode(body, radix) == v && Cased(body, large)
      && |body| >= Least(sign, width, prec, left, zero)
      && (|body| > Least(sign, width, prec, left, zero) ==> body[0] != '0')
      && (left ==> t == sign + body + Fill(' ', width - |sign| - |body|))
      && (!left ==> t == Fill(' ', width - |sign| - |body|) + sign + body)
  }

  lemma {:induction false} DigitsCased(v: nat, radix: int, large: bool)
    requires IsRadix(radix)
    ensures Cased(Digits(v, radix, large), large)
  {
    hide DigitChar, Cased;
    var c := DigitChar(v % radix, large);
    DigitCased(v % radix, large);
    if v >= radix {
      DigitsCased(v / radix, radix, large);
      CasedAppend(Digits(v / radix, radix, large), c, large);
    }
  }

  lemma CasedAppend(s: string, c: char, large: bool)
    requires Cased(s, large) && Cased([c], large)
    ensures Cased(s + [c], large)
  {
    assert [c][0] == c;
  }

  lemma DigitCased(d: nat, large: bool)
    requires d < 16
    ensures Cased([DigitChar(d, large)], large)
  {
    assert d == 0 || d == 1 || d == 2 || d == 3 || d == 4 || d == 5 || d == 6 || d == 7 || d == 8 || d == 9
      || d == 10 || d == 11 || d == 12 || d == 13 || d == 14 || d == 15;
  }

  lemma ZerosInFront(n: int, s: string, radix: int, large: bool)
    requires AllDigits(s, radix) && Cased(s, large) && radix > 0
    ensures var r := Fill('0', n) + s; AllDigits(r, radix) && Cased(r, large) && Decode(r, radix) == Decode(s, radix)
  {
    hide Decode;
    LeadingZeros(n, s, radix);
  }

  lemma FillTwice(n: int, m: int, s: string)
    ensures Fill('0', n) + Fill('0', m) + s == Fill('0', Max(n, 0) + Max(m, 0)) + s
  {
  }

  /** The digits with zeros in front are the body of a field. */
  lemma FieldShows(num: int, radix: int, width: int, prec: int, f: Flags)
    requires IsRadix(radix) && prec != 0
    ensures Shows(FieldText(num, radix, width, prec, f), SignText(num, f), Magnitude(num, f), radix, f.large,
                  width, prec, f.left, f.zero)
  {
    hide Digits, Decode, SignText, Magnitude, Cased, AllDigits, Shows, Laid, Least, Fill;
    var sign, v := SignText(num, f), Magnitude(num, f);
    var digits := Digits(v, radix, f.large);
    DigitsDecode(v, radix, f.large);
    DigitsAreDigits(v, radix, f.large);
    DigitsCased(v, radix, f.large);
    DigitsCanonical(v, radix, f.large);
    var zeros, pad := prec - |digits|, width - |sign| - Max(|digits|, prec);
    var n := if f.zero && !f.left then Max(pad, 0) + Max(zeros, 0) else zeros;
    var body := Fill('0', n) + digits;
    ZerosInFront(n, digits, radix, f.large);
    BodyFits(digits, n, body, sign, width, prec, f.left, f.zero);
    LaidOut(sign, zeros, digits, pad, f.left, f.zero, n, width);
    ShowsWith(FieldText(num, radix, width, prec, f), sign, v, radix, f.large, width, prec, f.left, f.zero, body);
  }

  lemma ShowsWith(t: string, sign: string, v: nat, radix: int, large: bool, width: int, prec: int, left: bool,
                  zero: bool, body: string)
    requires AllDigits(body, radix) && Decode(body, radix) == v && Cased(body, large)
    requires |body| >= Least(sign, width, prec, left, zero)
    requires |body| > Least(sign, width, prec, left, zero) ==> body[0] != '0'
    requires left ==> t == sign + body + Fill(' ', width - |sign| - |body|)
    requires !left ==> t == Fill(' ', width - |sign| - |body|) + sign + body
    ensures Shows(t, sign, v, radix, large, width, prec, left, zero)
  {
  }

  lemma BodyFits(digits: string, n: int, body: string, sign: string, width: int, prec: int, left: bool, zero: bool)
    requires digits != "" && (|digits| > 1 ==> digits[0] != '0') && prec != 0 && body == Fill('0', n) + digits
    requires var zeros, pad := prec - |digits|, width - |sign| - Max(|digits|, prec);
      n == if zero && !left then Max(pad, 0) + Max(zeros, 0) else zeros
    ensures var least := Least(sign, width, prec, left, zero); |body| >= least && (|body| > least ==> body[0] != '0')
  {
  }

  lemma LaidOut(sign: string, zeros: int, digits: string, pad: int, left: bool, zero: bool, n: int, width: int)
    requires n == if zero && !left then Max(pad, 0) + Max(zeros, 0) else zeros
    requires pad == width - |sign| - Max(|digits|, zeros + |digits|)
    ensures var t, body := Laid(sign, zeros, digits, pad, left, zero), Fill('0', n) + digits;
      && (left ==> t == sign + body + Fill(' ', width - |sign| - |body|))
      && (!left ==> t == Fill(' ', width - |sign| - |body|) + sign + body)
  {
    FillTwice(pad, zeros, digits);
    if !left && zero {
      var body := Fill('0', n) + digits;
      assert Fill(' ', width - |sign| - |body|) == "";
    }
  }

  // ----- one conversion

  /** What a conversion puts; `Options` says how it has been read. */
  ghost function Piece(w: Conversion, args: Args, n: nat): string {
    Field(Options(w, args, n, 0), w.letter, args)
  }

  predicate TakesArgument(c: char) {
    c == 'c' || c == 's' || c == 'p' || c == 'd' || c == 'i' || c == 'u' || c == 'x' || c == 'X' || c == 'o'
  }

  /** How many arguments a conversion takes. */
  function Uses(w: Conversion): nat {
    Stars(w) + if TakesArgument(w.letter) then 1 else 0
  }

  lemma RenderConversion(fmt: string, k: nat, args: Args, n: nat)
    requires At(fmt, k) == '%'
    ensures var d := Parse(fmt, k + 1, args, n);
      var c := At(fmt, d.pos);
      Render(fmt, k, args, n) ==
        Field(d, c, args) + Render(fmt, if c == '\0' then d.pos else d.pos + 1, args, NextArg(d, c))
  {
    hide Parse, Field, NextArg;
  }

  lemma RenderCharacter(fmt: string, k: nat, args: Args, n: nat)
    requires At(fmt, k) != '%' && At(fmt, k) != '\0'
    ensures Render(fmt, k, args, n) == [At(fmt, k)] + Render(fmt, k + 1, args, n)
  {
    hide Parse, Field, NextArg;
  }

  /** The position of the letter does not matter, and the letter decides how many arguments. */
  lemma FieldOfOptions(w: Conversion, args: Args, n: nat, pos: nat)
    ensures Field(Options(w, args, n, pos), w.letter, args) == Piece(w, args, n)
    ensures NextArg(Options(w, args, n, pos), w.letter) == n + Uses(w)
  {
    hide CharText, StringText, NumberText, WithFlags, Wide, Precise, ConvFlags, ConvBase, NumArg;
  }

  /** A conversion puts its piece and goes on behind its letter, with the arguments it took. */
  lemma ConversionRendered(fmt: string, k: nat, w: Conversion, args: Args, n: nat)
    requires StandsAt(fmt, k, Spell(w)) && WellFormed(w)
    ensures Render(fmt, k, args, n) == Piece(w, args, n) + Render(fmt, k + |Spell(w)|, args, n + Uses(w))
  {
    hide Spell, StandsAt, Parse, At, Render, Field, NextArg, Options, Piece, Uses, IsLetter, AllFlags, IsQualifier;
    OptionsRead(fmt, k, w, args, n);
    LetterEnds(w);
    RenderConversion(fmt, k, args, n);
    OptionsPosition(w, args, n, k + |Spell(w)| - 1);
    FieldOfOptions(w, args, n, k + |Spell(w)| - 1);
  }

  lemma OptionsPosition(w: Conversion, args: Args, n: nat, pos: nat)
    ensures Options(w, args, n, pos).pos == pos
  {
  }

  /** Characters other than the percent sign stand for themselves. */
  lemma {:induction false} PlainRendered(fmt: string, k: nat, s: string, args: Args, n: nat)
    requires StandsAt(fmt, k, s) && IsPlain(s)
    ensures Render(fmt, k, args, n) == s + Render(fmt, k + |s|, args, n)
    decreases |s|
  {
    hide StandsAt, Render, At;
    if s == "" {
      assert s + Render(fmt, k + |s|, args, n) == Render(fmt, k, args, n);
    } else {
      var c, rest := s[0], s[1..];
      StandsFirst(fmt, k, s, 0);
      assert s == [c] + rest;
      StandsApart(fmt, k, [c], rest);
      RenderCharacter(fmt, k, args, n);
      PlainRendered(fmt, k + 1, rest, args, n);
      Behind(c, rest, Render(fmt, k + |s|, args, n));
    }
  }

  lemma Behind(c: char, a: string, b: string)
    ensures [c] + (a + b) == ([c] + a) + b
  {
  }

  ghost predicate IsPlain(s: string) {
    forall i :: 0 <= i < |s| ==> s[i] != '%' && s[i] != '\0'
  }

  /** A format without a percent sign is its own text. */
  lemma PlainText(s: string, args: Args, n: nat)
    requires IsPlain(s)
    ensures Render(s, 0, args, n) == s
  {
    assert s[0..0 + |s|] == s;
    PlainRendered(s, 0, s, args, n);
    assert Render(s, |s|, args, n) == "";
  }

  // ----- what each conversion shows

  /** A format that is one conversion. */
  lemma Alone(w: Conversion, args: Args, n: nat)
    requires WellFormed(w)
    ensures Render(Spell(w), 0, args, n) == Piece(w, args, n)
  {
    hide WellFormed, Spell, Piece;
    var s := Spell(w);
    assert s[0..0 + |s|] == s && s[|s|..] == "";
    RenderEnds(s, |s|, args, n + Uses(w));
    hide Render;
    ConversionRendered(s, 0, w, args, n);
  }

  /** The sign of a signed number: a minus exactly if it is negative. */
  function SignShown(v: int, flags: string): string {
    if v < 0 then "-" else if Has(flags, '+') then "+" else if Has(flags, ' ') then " " else ""
  }

  lemma SignIs(num: int, f: Flags)
    requires -0x8000_0000 <= num < 0x8000_0000
    ensures f.sign ==> (SignText(num, f) == "-" <==> num < 0) && Magnitude(num, f) == if num < 0 then -num else num
    ensures !f.sign ==> SignText(num, f) == "" && Magnitude(num, f) == num % 0x1_0000_0000
  {
  }

  /** %d and %i show the argument as a signed decimal number. */
  lemma SignedShown(w: Conversion, args: Args, n: nat)
    requires WellFormed(w) && (w.letter == 'd' || w.letter == 'i') && PrecOf(w, args, n) != 0
    ensures var v := Signed(args.Word(n + Stars(w)), w.qual == "h");
      Shows(Render(Spell(w), 0, args, n), SignShown(v, w.flags), if v < 0 then -v else v, 10, false,
            WidthOf(w, args, n), PrecOf(w, args, n), IsLeft(w, args, n), Has(w.flags, '0'))
  {
    hide WellFormed, FieldText, Shows, Wide, Precise, Has, NumArg, Signed, Magnitude, Render, Spell;
    Alone(w, args, n);
    QualifierIs(w);
    var d, k := Options(w, args, n, 0), n + Stars(w);
    var f := d.flags.(sign := true);
    var v := NumArg(args, k, d.qual, true);
    NumArgIs(args, k, d.qual, true);
    SignIs(v, f);
    FieldShows(v, 10, d.width, d.prec, f);
  }

  lemma QualifierIs(w: Conversion)
    requires WellFormed(w)
    ensures (if w.qual == "" then '\0' else w.qual[0]) == 'h' <==> w.qual == "h"
  {
  }

  /** %u shows it as an unsigned decimal number; %x, %X and, because of divide(), %o as a
      hexadecimal one, with large letters for %X. */
  lemma UnsignedShown(w: Conversion, args: Args, n: nat)
    requires WellFormed(w) && (w.letter == 'u' || w.letter == 'x' || w.letter == 'X' || w.letter == 'o')
    requires PrecOf(w, args, n) != 0
    ensures var word, radix := args.Word(n + Stars(w)), if w.letter == 'u' then 10 else 16;
      Shows(Render(Spell(w), 0, args, n), "", if w.qual == "h" then word % 0x1_0000 else word, radix, w.letter == 'X',
            WidthOf(w, args, n), PrecOf(w, args, n), IsLeft(w, args, n), Has(w.flags, '0'))
  {
    hide WellFormed, FieldText, Shows, Wide, Precise, Has, NumArg, Signed, Magnitude, Render, Spell;
    Alone(w, args, n);
    QualifierIs(w);
    var d, k := Options(w, args, n, 0), n + Stars(w);
    var f := if w.letter == 'X' then d.flags.(large := true) else d.flags;
    var v := NumArg(args, k, d.qual, false);
    NumArgIs(args, k, d.qual, false);
    SignIs(v, f);
    FieldShows(v, if w.letter == 'u' then 10 else 16, d.width, d.prec, f);
  }

  /** %p shows the word in hexadecimal, with eight digits if no width is given. */
  lemma PointerShown(w: Conversion, args: Args, n: nat)
    requires WellFormed(w) && w.letter == 'p' && PrecOf(w, args, n) != 0
    ensures var width := if w.width == Absent then 8 else WidthOf(w, args, n);
      Shows(Render(Spell(w), 0, args, n), "", args.Word(n + Stars(w)), 16, false, width, PrecOf(w, args, n),
            IsLeft(w, args, n), Has(w.flags, '0') || w.width == Absent)
  {
    hide WellFormed, FieldText, Shows, Precise, Has, Magnitude, Render, Spell;
    Alone(w, args, n);
    var d, k := Options(w, args, n, 0), n + Stars(w);
    var f := if w.width == Absent then d.flags.(zero := true) else d.flags;
    WordOfInt(args, k);
    SignIs(args.Int(k), f);
    FieldShows(args.Int(k), 16, if w.width == Absent then 8 else d.width, d.prec, f);
  }

  lemma WordOfInt(args: Args, k: nat)
    ensures args.Int(k) % 0x1_0000_0000 == args.Word(k)
  {
  }

  /** `s` filled up with blanks on the side asked for. */
  function Padded(s: string, width: int, left: bool): string {
    if left then s + Fill(' ', width - |s|) else Fill(' ', width - |s|) + s
  }

  /** %s shows the argument, cut to the precision if that is positive. */
  lemma StringShown(w: Conversion, args: Args, n: nat)
    requires WellFormed(w) && w.letter == 's'
    ensures var s, p := args.Text(n + Stars(w)), PrecOf(w, args, n);
      Render(Spell(w), 0, args, n) == Padded(if 0 < p < |s| then s[..p] else s, WidthOf(w, args, n), IsLeft(w, args, n))
  {
    hide Fill, Wide, Precise, Has, WellFormed, Render, Spell;
    Alone(w, args, n);
  }

  /** A string argument ends at its first NUL; a null pointer shows as (NULL). */
  lemma TextIs(args: Args, k: nat, s: string, rest: string)
    requires forall i :: 0 <= i < |s| ==> s[i] != '\0'
    ensures args.texts(k) == Some(s) || args.texts(k) == Some(s + "\0" + rest) ==> args.Text(k) == s
    ensures args.texts(k) == None ==> args.Text(k) == "(NULL)"
  {
    if args.texts(k).Some? {
      var t := args.texts(k).value;
      var e := StringEnd(t, 0);
      if t == s { assert e == |s|; } else if t == s + "\0" + rest { assert t[|s|] == '\0' && t[..|s|] == s; }
    }
  }

  /** %c shows the low byte of the argument as a character. */
  lemma CharShown(w: Conversion, args: Args, n: nat)
    requires WellFormed(w) && w.letter == 'c'
    ensures Render(Spell(w), 0, args, n) ==
      Padded([(args.Word(n + Stars(w)) % 0x100) as char], WidthOf(w, args, n), IsLeft(w, args, n))
  {
    hide Fill, Wide, Precise, Has, WellFormed, Render, Spell;
    Alone(w, args, n);
  }

  /** Two percent signs show one; a letter that is no conversion shows behind its percent sign. */
  lemma OtherShown(w: Conversion, args: Args, n: nat)
    requires WellFormed(w) && !TakesArgument(w.letter)
    ensures Render(Spell(w), 0, args, n) == if w.letter == '%' then "%" else ['%', w.letter]
  {
    hide Render, Spell, WellFormed;
    LetterEnds(w);
    Alone(w, args, n);
  }

  /** A percent sign at the end stands for itself. */
  lemma LonePercent(args: Args, n: nat)
    ensures Render("%", 0, args, n) == "%"
  {
    var d := Parse("%", 1, args, n);
    assert SkipFlags("%", 1, NoFlags) == (NoFlags, 1);
    assert d.pos == 1;
    assert Render("%", 1, args, NextArg(d, '\0')) == "";
  }

  // ----- whole formats

  datatype Part = Plain(s: string) | Conv(w: Conversion)

  ghost predicate Proper(p: Part) {
    match p
    case Plain(s) => IsPlain(s)
    case Conv(w) => WellFormed(w)
  }

  function SpellPart(p: Part): string {
    match p
    case Plain(s) => s
    case Conv(w) => Spell(w)
  }

  function SpellAll(ps: seq<Part>): string {
    if ps == [] then "" else SpellPart(ps[0]) + SpellAll(ps[1..])
  }

  /** The arguments that all parts take. */
  function UsesAll(ps: seq<Part>): nat {
    if ps == [] then 0 else (if ps[0].Conv? then Uses(ps[0].w) else 0) + UsesAll(ps[1..])
  }

  ghost function Pieces(ps: seq<Part>, args: Args, n: nat): string {
    if ps == [] then ""
    else if ps[0].Plain? then ps[0].s + Pieces(ps[1..], args, n)
    else Piece(ps[0].w, args, n) + Pieces(ps[1..], args, n + Uses(ps[0].w))
  }

  lemma {:induction false} FormatRendered(fmt: string, k: nat, ps: seq<Part>, args: Args, n: nat)
    requires k <= |fmt| && fmt[k..] == SpellAll(ps) && forall p :: p in ps ==> Proper(p)
    ensures Render(fmt, k, args, n) == Pieces(ps, args, n)
    decreases |ps|
  {
    hide Render, Piece, Uses, Spell, WellFormed, IsPlain;
    if ps == [] {
      RenderEnds(fmt, k, args, n);
    } else {
      var p, s := ps[0], SpellPart(ps[0]);
      assert p in ps && Proper(p);
      hide StandsAt;
      SpellHead(fmt, k, s, SpellAll(ps[1..]));
      if p.Plain? {
        PlainRendered(fmt, k, s, args, n);
        FormatRendered(fmt, k + |s|, ps[1..], args, n);
      } else {
        ConversionRendered(fmt, k, p.w, args, n);
        FormatRendered(fmt, k + |s|, ps[1..], args, n + Uses(p.w));
      }
    }
  }

  lemma RenderEnds(fmt: string, k: nat, args: Args, n: nat)
    requires k <= |fmt| && fmt[k..] == ""
    ensures Render(fmt, k, args, n) == ""
  {
  }

  lemma SpellHead(fmt: string, k: nat, a: string, b: string)
    requires k <= |fmt| && fmt[k..] == a + b
    ensures StandsAt(fmt, k, a) && k + |a| <= |fmt| && fmt[k + |a|..] == b
  {
    assert fmt[k..][..|a|] == a && fmt[k..][|a|..] == b;
    assert fmt[k..k + |a|] == fmt[k..][..|a|];
  }

  lemma {:induction false} PiecesAppend(a: seq<Part>, b: seq<Part>, args: Args, n: nat)
    ensures Pieces(a + b, args, n) == Pieces(a, args, n) + Pieces(b, args, n + UsesAll(a))
    decreases |a|
  {
    hide Piece, Uses;
    if a == [] {
      assert a + b == b;
    } else {
      assert (a + b)[0] == a[0] && (a + b)[1..] == a[1..] + b;
      PiecesAppend(a[1..], b, args, if a[0].Conv? then n + Uses(a[0].w) else n);
    }
  }

  /** A format made of two is rendered like the first and then the second, which finds the
      arguments the first has left. */
  lemma RenderAppend(a: seq<Part>, b: seq<Part>, args: Args, n: nat)
    requires (forall p :: p in a ==> Proper(p)) && (forall p :: p in b ==> Proper(p))
    ensures Render(SpellAll(a + b), 0, args, n) ==
      Render(SpellAll(a), 0, args, n) + Render(SpellAll(b), 0, args, n + UsesAll(a))
  {
    hide Render, Pieces, SpellAll, UsesAll, Proper;
    FormatFromStart(a + b, args, n);
    FormatFromStart(a, args, n);
    FormatFromStart(b, args, n + UsesAll(a));
    PiecesAppend(a, b, args, n);
  }

  lemma FormatFromStart(ps: seq<Part>, args: Args, n: nat)
    requires forall p :: p in ps ==> Proper(p)
    ensures Render(SpellAll(ps), 0, args, n) == Pieces(ps, args, n)
  {
    var s := SpellAll(ps);
    assert s[0..] == s;
    hide Render, Pieces, SpellAll, Proper;
    FormatRendered(s, 0, ps, args, n);
  }
}
