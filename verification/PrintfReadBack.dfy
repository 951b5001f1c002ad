/** When an integer that printf printed reads back as itself (kernel/support/printf.c). */
module PrintfReadBack {
  import opened PrintfNumbers
  import opened Printf

  /** The field of a signed conversion leaves the buffer of 32 characters no room for a sign. */
  predicate DropsSign(d: Directive) {
    !d.flags.left && (d.precision >= NTOA_SIZE || (d.flags.zeropad && !d.flags.precision && d.width > NTOA_SIZE))
  }

  lemma Pow2Plus8(n: nat)
    ensures Pow2(n + 8) == 256 * Pow2(n)
  {
    assert Pow2(n + 4) == 16 * Pow2(n) by {
      assert Pow2(n + 2) == 2 * Pow2(n + 1);
      assert Pow2(n + 4) == 2 * Pow2(n + 3);
    }
    assert Pow2(n + 6) == 2 * Pow2(n + 5);
    assert Pow2(n + 8) == 2 * Pow2(n + 7);
  }

  lemma PowersOfTwo()
    ensures Pow2(32) == TWO32 && Pow2(64) == TWO64
  {
    assert Pow2(0) == 1;
    Pow2Plus8(0);
    Pow2Plus8(8);
    Pow2Plus8(16);
    Pow2Plus8(24);
    Pow2Plus8(32);
    Pow2Plus8(40);
    Pow2Plus8(48);
    Pow2Plus8(56);
  }

  lemma {:induction false} FitsBinary(value: nat, room: nat)
    ensures Fits(value, 2, room) <==> value < Pow2(room)
    decreases room
  {
    if room > 0 { FitsBinary(value / 2, room - 1); }
  }

  lemma {:induction false} FitsMore(value: nat, base: nat, room: nat, more: nat)
    requires IsBase(base) && Fits(value, base, room) && room <= more
    ensures Fits(value, base, more)
    decreases more
  {
    if room == 0 {
      ZeroFits(base, more);
    } else {
      FitsMore(Div(value, base), base, room - 1, more - 1);
    }
  }

  lemma MagnitudeBound(v: int, f: Flags, c: char)
    ensures Magnitude(v, f, c) < TWO64
    ensures IsNegative(v, f, c) ==> Magnitude(v, f, c) > 0
  {
  }

  /** Digits and zeros fill the buffer exactly when precision or width ask for it. */
  lemma FillsBuffer(f: Flags, value: nat, base: nat, prec: nat, width: nat)
    requires IsBase(base) && |DigitBuffer(f, value, base)| < NTOA_SIZE
    ensures PaddedLength(f, value, true, base, prec, width) >= NTOA_SIZE <==>
            !f.left && (prec >= NTOA_SIZE || (f.zeropad && width > NTOA_SIZE))
  {
  }

  /** When a number of the widest integer type reads back. */
  lemma NumberReadsBack(f: Flags, size: nat, negative: bool, base: nat, prec: nat, width: nat)
    requires IsBase(base) && !f.hash && size < TWO64 && (negative ==> size > 0 && base != 2)
    ensures ReadInt(IntText(f, size, negative, base, prec, width), base) ==
            (if negative then Negated(size) else size) <==>
            (base == 2 ==> size < TWO32) &&
            (negative ==> !(!f.left && (prec >= NTOA_SIZE || (f.zeropad && width > NTOA_SIZE))))
  {
    ParseBack(f, size, negative, base, prec, width);
    DigitsFit(f, size, base);
    if base != 2 { FillsBuffer(f, size, base, prec, width); }
  }

  lemma DigitsFit(f: Flags, size: nat, base: nat)
    requires IsBase(base) && size < TWO64
    ensures Fits(size, base, NTOA_SIZE) <==> (base == 2 ==> size < TWO32)
    ensures base != 2 ==> |DigitBuffer(f, size, base)| < NTOA_SIZE
  {
    PowersOfTwo();
    if base == 2 {
      FitsBinary(size, NTOA_SIZE);
    } else {
      FewDigits(size, base, f.uppercase, 64, 22, NTOA_SIZE);
      FitsMore(size, base, 22, NTOA_SIZE);
    }
  }

  /** Any integer conversion without '#', under any flags, width and precision, reads back as the converted number
      exactly if a binary number has at most 32 digits, and a negative number does not come with a precision of 32 or
      more, or a zero-padded width of 33 or more, to the right of its field. */
  lemma ConversionReadsBack(d: Directive, c: char)
    requires IsInteger(c) && !d.flags.hash && (d.flags.precision || d.precision == 0)
    ensures var f, v := IntFlags(d.flags, c), TakeInt(d.args);
            ReadInt(Convert(d, c), BaseOf(c)) == (if IsSigned(c) then ToSigned(v, f) else Unsigned(v, f)) <==>
            (c == 'b' ==> Unsigned(v, f) < TWO32) && (IsNegative(v, f, c) ==> !DropsSign(d))
  {
    var f, v := IntFlags(d.flags, c), TakeInt(d.args);
    MagnitudeBound(v, f, c);
    NumberReadsBack(f, Magnitude(v, f, c), IsNegative(v, f, c), BaseOf(c), d.precision, d.width);
  }

  /** The directive of a precision, after the flags. */
  lemma PrecisionParsed(f: Flags, digits: string, prec: nat, args: seq<Arg>)
    requires digits != "" && IsDigit(digits[0]) && ParseNumber(digits + "d", 0) == (prec, "d")
    ensures ParseLength(ParsePrecision(ParseWidth("." + (digits + "d"), f, args)))
         == Directive(f.(precision := true), 0, prec, "d", args)
  {
    var rest, s := "." + (digits + "d"), digits + "d";
    assert rest[0] == '.' && rest[1..] == s && s[0] == digits[0];
    assert ParseWidth(rest, f, args) == Directive(f, 0, 0, rest, args);
  }

  /** A format that is one directive of a precision, with or without a minus flag. */
  lemma PrecisionDirective(left: bool, digits: string, prec: nat, args: seq<Arg>)
    requires digits != "" && IsDigit(digits[0]) && ParseNumber(digits + "d", 0) == (prec, "d")
    ensures Text((if left then "%-" else "%") + ("." + (digits + "d")), args)
         == Convert(Directive(NO_FLAGS.(left := left, precision := true), 0, prec, "d", args), 'd')
  {
    var f, rest := NO_FLAGS.(left := left), "." + (digits + "d");
    var s := if left then "-" + rest else rest;
    var format := (if left then "%-" else "%") + rest;
    assert format[0] == '%' && format[1..] == s;
    FlagsParsed(left, rest);
    PrecisionParsed(f, digits, prec, args);
    OneDirective(format, Directive(f.(precision := true), 0, prec, "d", args), args);
  }

  lemma FlagsParsed(left: bool, rest: string)
    requires !IsFlag(At(rest))
    ensures ParseFlags(if left then "-" + rest else rest, NO_FLAGS) == (NO_FLAGS.(left := left), rest)
  {
    if left { assert ("-" + rest)[0] == '-' && ("-" + rest)[1..] == rest; }
  }

  lemma OneDirective(format: string, d: Directive, args: seq<Arg>)
    requires format != "" && format[0] == '%' && ParseDirective(format[1..], args) == d && d.rest == "d"
    ensures Text(format, args) == Convert(d, 'd')
  {
    assert d.rest[1..] == "" && Convert(d, 'd') + "" == Convert(d, 'd');
  }

  lemma OneDigitParsed(a: char)
    requires IsDigit(a)
    ensures ParseNumber([a, 'd'], 0) == (DigitValue(a), "d")
  {
    assert [a, 'd'][1..] == "d";
  }

  lemma TwoDigitsParsed(a: char, b: char)
    requires IsDigit(a) && IsDigit(b)
    ensures ParseNumber([a, b, 'd'], 0) == (10 * DigitValue(a) + DigitValue(b), "d")
  {
    assert [a, b, 'd'][1..] == [b, 'd'] && [b, 'd'][1..] == "d";
    assert ParseNumber([b, 'd'], DigitValue(a)) == (10 * DigitValue(a) + DigitValue(b), "d");
  }

  /** The sign of -1 is lost under "%.32d". */
  lemma SignIsLost()
    ensures ReadInt(Text("%.32d", [Int(-1)]), 10) == 1
  {
    hide Text, Convert, ReadInt, ParseNumber;
    TwoDigitsParsed('3', '2');
    assert "32" + "d" == ['3', '2', 'd'];
    PrecisionDirective(false, "32", 32, [Int(-1)]);
    assert "%" + ("." + ("32" + "d")) == "%.32d";
    LosesSign(Directive(NO_FLAGS.(left := false, precision := true), 0, 32, "d", [Int(-1)]), 32);
  }

  lemma LosesSign(d: Directive, prec: nat)
    requires d == Directive(NO_FLAGS.(left := false, precision := true), 0, prec, "d", [Int(-1)]) && prec >= NTOA_SIZE
    ensures ReadInt(Convert(d, 'd'), 10) == 1
  {
    var f := IntFlags(d.flags, 'd');
    assert Magnitude(-1, f, 'd') == 1 && IsNegative(-1, f, 'd');
    ReadText(f, 1, true, 10, prec, 0);
    DigitBufferValue(f, 1, 10);
    OneFits(NTOA_SIZE);
  }

  lemma OneFits(room: nat)
    requires room > 0
    ensures Fits(1, 10, room)
  {
    ZeroFits(10, room - 1);
  }
}
