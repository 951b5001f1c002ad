/** When an integer conversion of printf shows as many digits as its precision asks for (kernel/support/printf.c). */
module PrintfPrecision {
  import opened PrintfNumbers
  import opened Printf
  import PrintfReadBack

  /** How many characters of a text are digits. */
  function DigitCount(s: string, base: nat): nat {
    if s == "" then 0 else (if IsDigitOf(s[0], base) then 1 else 0) + DigitCount(s[1..], base)
  }

  lemma {:induction false} CountBoth(s: string, t: string, base: nat)
    ensures DigitCount(s + t, base) == DigitCount(s, base) + DigitCount(t, base)
  {
    if s == "" {
      assert s + t == t;
    } else {
      assert (s + t)[1..] == s[1..] + t;
      CountBoth(s[1..], t, base);
    }
  }

  lemma {:induction false} CountReverse(s: string, base: nat)
    ensures DigitCount(Reverse(s), base) == DigitCount(s, base)
  {
    if s != "" {
      assert Reverse(s) == Reverse(s[1..]) + [s[0]];
      CountReverse(s[1..], base);
      CountBoth(Reverse(s[1..]), [s[0]], base);
      assert [s[0]][1..] == "";
    }
  }

  lemma {:induction false} CountDigits(s: string, base: nat)
    requires AllDigits(s, base)
    ensures DigitCount(s, base) == |s|
  {
    if s != "" { CountDigits(s[1..], base); }
  }

  lemma {:induction false} CountBlanks(s: string, base: nat)
    requires forall i :: 0 <= i < |s| ==> s[i] == ' '
    ensures DigitCount(s, base) == 0
  {
    if s != "" { CountBlanks(s[1..], base); }
  }

  /** A sign is no digit. */
  lemma CountSigned(f: Flags, digits: string, negative: bool, base: nat)
    requires AllDigits(digits, base) && |digits| <= NTOA_SIZE
    ensures DigitCount(Signed(f, digits, negative), base) == |digits|
  {
    CountDigits(digits, base);
    var s := Signed(f, digits, negative);
    if s != digits {
      assert s == digits + [s[|s| - 1]] && !IsDigitOf(s[|s| - 1], base);
      CountBoth(digits, [s[|s| - 1]], base);
      assert [s[|s| - 1]][1..] == "";
    }
  }

  /** The blanks of a field are no digits. */
  lemma CountField(f: Flags, s: string, width: nat, base: nat)
    ensures DigitCount(Field(f, s, width), base) == DigitCount(s, base)
  {
    var front := if !f.left && !f.zeropad then Repeat(' ', PrintfNumbers.Minus(width, |s|)) else "";
    var back := if f.left then Repeat(' ', PrintfNumbers.Minus(width, |s|)) else "";
    CountBlanks(front, base);
    CountBlanks(back, base);
    CountReverse(s, base);
    CountBoth(front + Reverse(s), back, base);
    CountBoth(front, Reverse(s), base);
  }

  /** A printed integer shows its digits and its zeros. */
  lemma CountText(f: Flags, value: nat, negative: bool, base: nat, prec: nat, width: nat)
    requires IsBase(base) && !f.hash
    ensures DigitCount(IntText(f, value, negative, base, prec, width), base) ==
            PaddedLength(f, value, negative, base, prec, width)
  {
    var digits, inner := DigitBuffer(f, value, base), InnerWidth(f, negative, width);
    var n := Zeros(f, |digits|, prec, inner);
    DigitsAreDigits(value, base, f.uppercase, NTOA_SIZE);
    ZerosAreDigits(digits, n, base);
    FormattedPlain(f, digits, negative, base, prec, width);
    CountSigned(f, digits + Repeat('0', n), negative, base);
    CountField(f, Signed(f, digits + Repeat('0', n), negative), inner, base);
  }

  /** An integer conversion without '#' shows at least as many digits as its precision exactly if the number has as
      many, or there is no minus flag and the precision is no more than 32. */
  lemma PrecisionIsMet(d: Directive, c: char)
    requires IsInteger(c) && !d.flags.hash && d.flags.precision
    ensures var f, v := IntFlags(d.flags, c), TakeInt(d.args);
            DigitCount(Convert(d, c), BaseOf(c)) >= d.precision <==>
            |DigitBuffer(f, Magnitude(v, f, c), BaseOf(c))| >= d.precision ||
              (!d.flags.left && d.precision <= NTOA_SIZE)
  {
    var f, v := IntFlags(d.flags, c), TakeInt(d.args);
    CountText(f, Magnitude(v, f, c), IsNegative(v, f, c), BaseOf(c), d.precision, d.width);
  }

  lemma DigitsOf42(f: Flags)
    requires f.precision
    ensures |DigitBuffer(f, 42, 10)| == 2
  {
    assert Div(42, 10) == 4 && Div(4, 10) == 0;
    assert |LowDigits(4, 10, f.uppercase, NTOA_SIZE - 1)| == 1;
  }

  lemma Shows42(d: Directive, prec: nat)
    requires d.args == [Int(42)] && d.flags.precision && !d.flags.hash && d.precision == prec && d.width == 0
    requires !d.flags.isChar && !d.flags.isShort && !d.flags.isLong && !d.flags.isLongLong
    ensures DigitCount(Convert(d, 'd'), 10)
         == 2 + if d.flags.left then 0 else PrintfNumbers.Minus(Min(prec, NTOA_SIZE), 2)
  {
    var f := IntFlags(d.flags, 'd');
    assert Magnitude(42, f, 'd') == 42 && !IsNegative(42, f, 'd');
    DigitsOf42(f);
    CountText(f, 42, false, 10, prec, 0);
  }

  /** "%-.5d" shows 42 with two digits, and "%.33d" with 32. */
  lemma PrecisionIsMissed()
    ensures DigitCount(Text("%-.5d", [Int(42)]), 10) == 2
    ensures DigitCount(Text("%.33d", [Int(42)]), 10) == 32
  {
    LeftFive();
    ThirtyThree();
  }

  lemma LeftFive()
    ensures DigitCount(Text("%-.5d", [Int(42)]), 10) == 2
  {
    hide Text, Convert, DigitCount, ParseNumber;
    PrintfReadBack.OneDigitParsed('5');
    assert "5" + "d" == ['5', 'd'];
    PrintfReadBack.PrecisionDirective(true, "5", 5, [Int(42)]);
    assert "%-" + ("." + ("5" + "d")) == "%-.5d";
    Shows42(Directive(NO_FLAGS.(left := true, precision := true), 0, 5, "d", [Int(42)]), 5);
  }

  lemma ThirtyThree()
    ensures DigitCount(Text("%.33d", [Int(42)]), 10) == 32
  {
    hide Text, Convert, DigitCount, ParseNumber;
    PrintfReadBack.TwoDigitsParsed('3', '3');
    assert "33" + "d" == ['3', '3', 'd'];
    PrintfReadBack.PrecisionDirective(false, "33", 33, [Int(42)]);
    assert "%" + ("." + ("33" + "d")) == "%.33d";
    Shows42(Directive(NO_FLAGS.(left := false, precision := true), 0, 33, "d", [Int(42)]), 33);
  }
}
