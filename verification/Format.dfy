/** kservice.c's print_number and rt_vsnprintf as they run: a cursor that moves past the end of
    the buffer while characters are stored only below it. */
module Formatting {
  import opened Basics
  import opened Numerals
  import opened FormatViews

  class Writer {
    const buf: array<char>
    const end: nat
    var str: nat
    /** Everything put so far, and the buffer as it was found. */
    ghost var out: string
    ghost const before: seq<char>

    ghost predicate Valid()
      reads this, buf
    {
      && end <= buf.Length == |before| && str == |out|
      && forall i :: 0 <= i < buf.Length ==> buf[i] == if i < str && i < end then out[i] else before[i]
    }

    constructor (buf: array<char>, end: nat)
      requires end <= buf.Length
      ensures Valid() && this.buf == buf && this.end == end && out == "" && before == buf[..]
    {
      this.buf, this.end, str, out, before := buf, end, 0, "", buf[..];
    }

    method Put(c: char)
      requires Valid()
      modifies this, buf
      ensures Valid() && out == old(out) + [c]
    {
      if str < end {
        buf[str] := c;
      }
      str, out := str + 1, out + [c];
    }

    /** while (n-- > 0) put c; `left` is what the loop leaves in n. */
    method Pad(c: char, n: int) returns (left: int)
      requires Valid()
      modifies this, buf
      ensures Valid() && out == old(out) + Fill(c, n) && left == if n > 0 then -1 else n - 1
    {
      hide Fill;
      left := n;
      FillStep(c, 0);
      while left > 0
        invariant Valid() && out == old(out) + Fill(c, n - left) && left <= n && (left < 0 ==> left == n)
        invariant n > 0 ==> left >= 0
      {
        FillStep(c, n - left + 1);
        Put(c);
        left := left - 1;
      }
      FillStep(c, n);
      left := left - 1;
    }

    method PutAll(s: string)
      requires Valid()
      modifies this, buf
      ensures Valid() && out == old(out) + s
    {
      for i := 0 to |s|
        invariant Valid() && out == old(out) + s[..i]
      {
        Put(s[i]);
      }
      assert s[..|s|] == s;
    }

    /** The terminating NUL, inside the buffer in any case. */
    method Terminate()
      requires Valid()
      modifies buf
      ensures buf[..] == Written(before, end, out)
    {
      if end > 0 {
        if str < end {
          buf[str] := '\0';
        } else {
          buf[end - 1] := '\0';
        }
      }
    }
  }

  lemma FillStep(c: char, n: int)
    ensures n <= 0 ==> Fill(c, n) == ""
    ensures n > 0 ==> Fill(c, n) == Fill(c, n - 1) + [c]
  {
  }

  // ----- print_number

  /** divide: the last digit, and the number without it. */
  method Divide(n: nat, base: int) returns (res: nat, rest: nat)
    ensures res < Radix(base) && n == rest * Radix(base) + res
  {
    if base == 10 {
      res, rest := n % 10, n / 10;
    } else {
      res, rest := n % 16, n / 16;
    }
  }

  /** The digits still to come while a number is taken apart. */
  function ToCome(num: nat, base: int, large: bool): string {
    if num == 0 then "" else Digits(num, Radix(base), large)
  }

  lemma NextDigit(num: nat, d: nat, rest: nat, base: int, large: bool)
    requires num > 0 && d < Radix(base) && num == rest * Radix(base) + d
    ensures ToCome(num, base, large) == ToCome(rest, base, large) + [DigitChar(d, large)] && rest < num
  {
    hide DigitChar;
    var r := Radix(base);
    assert rest == num / r && d == num % r by { if r == 10 { } else { } }
  }

  /** One turn of the division loop. */
  lemma TakenApart(num: nat, d: nat, rest: nat, base: int, large: bool, done: string)
    requires num > 0 && d < Radix(base) && num == rest * Radix(base) + d
    ensures var c := DigitChar(d, large);
      ToCome(num, base, large) + Reversed(done) == ToCome(rest, base, large) + Reversed(done + [c])
    ensures |ToCome(num, base, large)| == |ToCome(rest, base, large)| + 1 && rest < num
  {
    hide ToCome, Reversed, DigitChar, Radix;
    NextDigit(num, d, rest, base, large);
    ReversedLast(done, DigitChar(d, large));
  }

  /** The division loop of print_number. */
  method TakeApart(tmp: array<char>, v: nat, base: int, large: bool) returns (i: nat)
    requires |ToCome(v, base, large)| <= tmp.Length
    modifies tmp
    ensures i == |ToCome(v, base, large)| && Reversed(tmp[..i]) == ToCome(v, base, large)
  {
    assert ToCome(0, base, large) == "";
    ReversedShort('0');
    hide *;
    i := 0;
    var num := v;
    assert tmp[..0] == "";
    while num != 0
      invariant i + |ToCome(num, base, large)| == |ToCome(v, base, large)|
      invariant ToCome(num, base, large) + Reversed(tmp[..i]) == ToCome(v, base, large)
      decreases num
    {
      ghost var done := tmp[..i];
      var d, rest := Divide(num, base);
      TakenApart(num, d, rest, base, large, done);
      tmp[i] := DigitChar(d, large);
      assert tmp[..i + 1] == done + [DigitChar(d, large)];
      num, i := rest, i + 1;
    }
  }

  /** The digits into a scratch buffer, last one first. */
  method Scratch(v: nat, base: int, large: bool) returns (tmp: array<char>, i: nat)
    requires v < 0x1_0000_0000
    ensures fresh(tmp) && tmp.Length == 16 && i <= 10
    ensures Reversed(tmp[..i]) == Digits(v, Radix(base), large)
  {
    WordDigits(v, Radix(base), large);
    ZeroDigit(Radix(base), large);
    ReversedShort('0');
    hide DigitChar, Radix, Digits, Reversed;
    tmp := new char[16];
    i := 0;
    if v == 0 {
      tmp[0], i := '0', 1;
      assert tmp[..1] == ['0'];
    } else {
      i := TakeApart(tmp, v, base, large);
    }
  }

  lemma ZeroDigit(radix: int, large: bool)
    requires radix == 10 || radix == 16
    ensures Digits(0, radix, large) == ['0']
  {
  }

  lemma ReversedShort(c: char)
    ensures Reversed("") == "" && Reversed([c]) == [c]
  {
  }

  /** The digits out of the scratch buffer again. */
  method Unload(w: Writer, tmp: array<char>, n: nat)
    requires w.Valid() && n <= tmp.Length && tmp != w.buf
    modifies w, w.buf
    ensures w.Valid() && w.out == old(w.out) + Reversed(tmp[..n])
  {
    var i := n;
    ghost var all := Reversed(tmp[..n]);
    while i > 0
      invariant w.Valid() && 0 <= i <= n && w.out == old(w.out) + all[..n - i] && tmp[..n] == old(tmp[..n])
    {
      i := i - 1;
      assert all[..n - i] == all[..n - i - 1] + [tmp[i]];
      w.Put(tmp[i]);
    }
    assert all[..n] == all;
  }

  /** What is put when the size counter is worn down by one loop after the other. */
  function Emitted(sign: string, p1: int, c: char, p2: int, p3: int, digits: string, p4: int): string {
    Fill(' ', p1) + sign + Fill(c, p2) + Fill('0', p3) + digits + Fill(' ', p4)
  }

  /** The size counter after each loop decides how much the next one puts. Whatever the flags,
      the outcome is the field. */
  lemma EmittedIsLaid(sign: string, size: int, zeros: int, digits: string, left: bool, zero: bool, p1: int, p2: int,
                      p4: int)
    requires Padding(size - |sign|, left, zero, p1, p2, p4)
    ensures Emitted(sign, p1, if zero && !left then '0' else ' ', p2, zeros, digits, p4)
      == Laid(sign, zeros, digits, size - |sign|, left, zero)
  {
    hide Fill;
    FillNone(' ', 0);
    FillNone(' ', p1);
    FillNone(' ', p2);
    FillNone(' ', p4);
    FillNone(' ', size - |sign|);
  }

  /** How the room that is left is spread over the loops before the sign, before the digits and
      behind them. */
  ghost predicate Padding(pad: int, left: bool, zero: bool, p1: int, p2: int, p4: int) {
    && (left ==> p1 == p2 == 0 && p4 == pad)
    && (!left && zero ==> p1 == 0 && p2 == pad && p4 <= 0)
    && (!left && !zero ==> (p1 == pad || (p1 <= 0 && pad <= 0)) && p2 <= 0 && p4 <= 0)
  }

  /** Blanks, sign and fill in front of the digits; `rest` is what is left of the size counter. */
  method Lead(w: Writer, sign: string, size: int, left: bool, zero: bool)
    returns (rest: int, ghost p1: int, ghost p2: int)
    requires w.Valid() && |sign| <= 1
    modifies w, w.buf
    ensures w.Valid()
    ensures w.out == old(w.out) + Fill(' ', p1) + sign + Fill(if zero && !left then '0' else ' ', p2)
    ensures Padding(size - |sign|, left, zero, p1, p2, rest)
  {
    hide Fill;
    FillNone(' ', 0);
    p1, p2 := 0, 0;
    rest := size;
    if !zero && !left {
      if sign != "" && rest > 0 {
        rest := rest - 1;
      }
      p1 := rest;
      rest := w.Pad(' ', rest);
    }
    assert w.out == old(w.out) + Fill(' ', p1);
    if sign != "" {
      w.Put(sign[0]);
      rest := rest - 1;
    }
    assert w.out == old(w.out) + Fill(' ', p1) + sign;
    if !left {
      p2 := rest;
      rest := w.Pad(if zero then '0' else ' ', rest);
    }
  }

  method PrintNumber(w: Writer, num: int, base: int, s: int, prec: int, f: Flags)
    requires w.Valid() && -0x8000_0000 <= num < 0x8000_0000
    modifies w, w.buf
    ensures w.Valid() && w.out == old(w.out) + NumberText(num, base, s, prec, f)
  {
    hide Digits, Fill, Reversed, Laid, Magnitude, SignText, Radix;
    MagnitudeFits(num, f);
    var sign, v := SignText(num, f), Magnitude(num, f);
    var tmp, i := Scratch(v, base, f.large);
    var precision := if i > prec then i else prec;
    var size := s - precision;
    ghost var shown, out0 := if prec == 0 then "" else Reversed(tmp[..i]), w.out;
    ghost var p1, p2;
    size, p1, p2 := Lead(w, sign, size, f.left, f.zero);
    var _ := w.Pad('0', precision - i);
    if prec != 0 {
      Unload(w, tmp, i);
    }
    FillNone('0', precision - i);
    FillNone('0', prec - i);
    ghost var c := if f.zero && !f.left then '0' else ' ';
    assert w.out == out0 + Fill(' ', p1) + sign + Fill(c, p2) + Fill('0', prec - i) + shown;
    var _ := w.Pad(' ', size);
    EmittedField(num, base, s, prec, f, out0, p1, p2, size);
  }

  /** What print_number has put, in terms of its arguments. */
  lemma EmittedField(num: int, base: int, s: int, prec: int, f: Flags, out: string, p1: int, p2: int, p4: int)
    requires var sign, digits := SignText(num, f), Digits(Magnitude(num, f), Radix(base), f.large);
      Padding(s - Max(|digits|, prec) - |sign|, f.left, f.zero, p1, p2, p4)
    ensures var sign, digits := SignText(num, f), Digits(Magnitude(num, f), Radix(base), f.large);
      out + Fill(' ', p1) + sign + Fill(if f.zero && !f.left then '0' else ' ', p2) + Fill('0', prec - |digits|)
        + (if prec == 0 then "" else digits) + Fill(' ', p4)
      == out + NumberText(num, base, s, prec, f)
  {
    hide Digits, Fill, Laid, Magnitude, SignText, Radix, Padding, Emitted;
    var sign, digits := SignText(num, f), Digits(Magnitude(num, f), Radix(base), f.large);
    var shown, c := if prec == 0 then "" else digits, if f.zero && !f.left then '0' else ' ';
    EmittedIsLaid(sign, s - Max(|digits|, prec), prec - |digits|, shown, f.left, f.zero, p1, p2, p4);
    EmittedBehind(out, sign, p1, c, p2, prec - |digits|, shown, p4);
  }

  lemma EmittedBehind(out: string, sign: string, p1: int, c: char, p2: int, p3: int, digits: string, p4: int)
    ensures out + Emitted(sign, p1, c, p2, p3, digits, p4)
      == out + Fill(' ', p1) + sign + Fill(c, p2) + Fill('0', p3) + digits + Fill(' ', p4)
  {
    hide Fill;
  }

  lemma MagnitudeFits(num: int, f: Flags)
    requires -0x8000_0000 <= num < 0x8000_0000
    ensures Magnitude(num, f) < 0x1_0000_0000 && |SignText(num, f)| <= 1
  {
  }

  lemma FillNone(c: char, n: int)
    ensures n <= 0 ==> Fill(c, n) == ""
  {
  }

  // ----- rt_vsnprintf

  /** skip_atoi. */
  method SkipAtoi(fmt: string, k: nat) returns (i: int, e: nat)
    requires IsDigit(At(fmt, k))
    ensures i == NumberAt(fmt, k) && e == DigitsEnd(fmt, k)
  {
    i, e := 0, k;
    while IsDigit(At(fmt, e))
      invariant k <= e <= |fmt| && DigitsEnd(fmt, e) == DigitsEnd(fmt, k) && i == Decode(fmt[k..e], 10)
      decreases |fmt| - e
    {
      assert fmt[k..e + 1] == fmt[k..e] + [fmt[e]];
      DecodeAppend(fmt[k..e], fmt[e], 10);
      i, e := i * 10 + (At(fmt, e) as int - '0' as int), e + 1;
    }
  }

  method ReadFlags(fmt: string, k: nat) returns (f: Flags, e: nat)
    ensures (f, e) == SkipFlags(fmt, k, NoFlags)
  {
    f, e := NoFlags, k;
    while FlagAt(At(fmt, e), f).Some?
      invariant k <= e && SkipFlags(fmt, e, f) == SkipFlags(fmt, k, NoFlags)
      decreases Max(|fmt| - e, 0)
    {
      f, e := FlagAt(At(fmt, e), f).value, e + 1;
    }
  }

  /** The field width, from the format or from an argument. */
  method ReadWidth(fmt: string, k: nat, f: Flags, args: Args, n: nat) returns (d: Directive)
    ensures d == ParseWidth(fmt, k, f, args, n)
  {
    hide NumberAt;
    d := Directive(f, -1, -1, '\0', k, n);
    if IsDigit(At(fmt, k)) {
      var width, pos := SkipAtoi(fmt, k);
      d := d.(width := width, pos := pos);
    } else if At(fmt, k) == '*' {
      var width := args.Int(n);
      d := d.(width := width, pos := k + 1, arg := n + 1);
      if width < 0 {
        d := d.(width := -width, flags := f.(left := true));
      }
    }
  }

  method ReadPrecision(fmt: string, d0: Directive, args: Args) returns (d: Directive)
    requires d0.prec == -1
    ensures d == ParsePrecision(fmt, d0, args)
  {
    hide NumberAt;
    d := d0;
    if At(fmt, d.pos) == '.' {
      var prec, pos := -1, d.pos + 1;
      if IsDigit(At(fmt, pos)) {
        prec, pos := SkipAtoi(fmt, pos);
      } else if At(fmt, pos) == '*' {
        prec, pos := args.Int(d.arg), pos + 1;
        d := d.(arg := d.arg + 1);
      }
      if prec < 0 {
        prec := 0;
      }
      d := d.(prec := prec, pos := pos);
    }
  }

  /** The options between the percent sign and the conversion letter. */
  method ReadDirective(fmt: string, k: nat, args: Args, n: nat) returns (d: Directive)
    ensures d == Parse(fmt, k, args, n)
  {
    hide SkipFlags, ParsePrecision;
    var flags, pos := ReadFlags(fmt, k);
    d := ReadWidth(fmt, pos, flags, args, n);
    d := ReadPrecision(fmt, d, args);
    var c := At(fmt, d.pos);
    if c == 'h' || c == 'l' {
      d := d.(qual := c, pos := d.pos + 1);
    }
  }

  method PrintChar(w: Writer, c: char, width: int, left: bool)
    requires w.Valid()
    modifies w, w.buf
    ensures w.Valid() && w.out == old(w.out) + CharText(c, width, left)
  {
    hide Fill;
    var room := width - 1;
    if !left {
      room := w.Pad(' ', room);
    }
    w.Put(c);
    FillNone(' ', room);
    var _ := w.Pad(' ', room);
  }

  method PrintString(w: Writer, s: string, width: int, prec: int, left: bool)
    requires w.Valid()
    modifies w, w.buf
    ensures w.Valid() && w.out == old(w.out) + StringText(s, width, prec, left)
  {
    hide Fill;
    var len := if prec > 0 && |s| > prec then prec else |s|;
    assert s[..|s|] == s;
    var room := width - len;
    if !left {
      room := w.Pad(' ', room);
    }
    w.PutAll(s[..len]);
    FillNone(' ', room);
    var _ := w.Pad(' ', room);
  }

  /** One conversion with letter `c`; `arg` is the next argument. */
  method PrintField(w: Writer, d: Directive, c: char, args: Args) returns (arg: nat)
    requires w.Valid()
    modifies w, w.buf
    ensures w.Valid() && w.out == old(w.out) + Field(d, c, args) && arg == NextArg(d, c)
  {
    hide NumberText, CharText, StringText;
    arg := d.arg;
    if c == 'c' {
      PrintChar(w, (args.Word(arg) % 0x100) as char, d.width, d.flags.left);
      arg := arg + 1;
    } else if c == 's' {
      PrintString(w, args.Text(arg), d.width, d.prec, d.flags.left);
      arg := arg + 1;
    } else if c == 'p' {
      if d.width == -1 {
        PrintNumber(w, args.Int(arg), 16, 8, d.prec, d.flags.(zero := true));
      } else {
        PrintNumber(w, args.Int(arg), 16, d.width, d.prec, d.flags);
      }
      arg := arg + 1;
    } else if IsInteger(c) {
      var f := ConvFlags(d.flags, c);
      PrintNumber(w, NumArg(args, arg, d.qual, f.sign), ConvBase(c), d.width, d.prec, f);
      arg := arg + 1;
    } else {
      w.Put('%');
      if c != '%' && c != '\0' {
        w.Put(c);
      }
    }
  }

  /** What one turn of the loop puts, in front of the rest. */
  lemma RenderOn(fmt: string, k: nat, args: Args, n: nat, out: string)
    requires At(fmt, k) != '\0'
    ensures At(fmt, k) != '%' ==>
      out + Render(fmt, k, args, n) == out + [At(fmt, k)] + Render(fmt, k + 1, args, n)
    ensures At(fmt, k) == '%' ==>
      var d := Parse(fmt, k + 1, args, n);
      var conv := At(fmt, d.pos);
      out + Render(fmt, k, args, n) == out + Field(d, conv, args)
        + Render(fmt, if conv == '\0' then d.pos else d.pos + 1, args, NextArg(d, conv))
  {
    hide Field, Parse, NextArg;
  }

  lemma RenderEnd(fmt: string, args: Args)
    ensures forall k: nat, n: nat :: At(fmt, k) == '\0' ==> Render(fmt, k, args, n) == ""
  {
  }

  /** rt_vsnprintf: for every format, every argument list and every buffer it returns the length
      of the whole text and stores as much of it as fits, with a NUL inside the buffer. */
  method Vsnprintf(buf: array<char>, size: nat, fmt: string, args: Args) returns (n: nat)
    requires size <= buf.Length
    modifies buf
    ensures n == |Render(fmt, 0, args, 0)|
    ensures buf[..] == Written(old(buf[..]), size, Render(fmt, 0, args, 0))
  {
    hide Field, Parse, NextArg, Written, Render;
    RenderEnd(fmt, args);
    var w := new Writer(buf, size);
    var k: nat, arg: nat := 0, 0;
    ghost var text := Render(fmt, 0, args, 0);
    while At(fmt, k) != '\0'
      invariant w.Valid() && w.buf == buf && w.before == old(buf[..]) && w.end == size && fresh(w)
      invariant w.out + Render(fmt, k, args, arg) == text
      decreases Max(|fmt| - k, 0)
    {
      RenderOn(fmt, k, args, arg, w.out);
      if At(fmt, k) != '%' {
        w.Put(At(fmt, k));
        k := k + 1;
      } else {
        var d := ReadDirective(fmt, k + 1, args, arg);
        var conv := At(fmt, d.pos);
        arg := PrintField(w, d, conv, args);
        k := if conv == '\0' then d.pos else d.pos + 1;
      }
    }
    assert w.out + "" == w.out;
    w.Terminate();
    return w.str;
  }
}
