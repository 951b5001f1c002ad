/** Directives as they are written, numerals as they are read from left to right, and what the flags, the field and the
    length of a directive mean for the text of an integer (kernel/support/printf.c). */
module PrintfSpelling {
  import opened PrintfNumbers
  import opened Printf
  import PrintfReadBack

  // ---------- numerals ----------

  /** Division and digits in the four bases are the usual ones. */
  lemma Radix(n: nat, base: nat)
    requires IsBase(base)
    ensures Mul(base, n) == base * n && Div(n, base) == n / base && Mod(n, base) == n % base
    ensures n >= base ==> n / base < n
    ensures n / base == 0 <==> n < base
  {
    if base == 2 {} else if base == 8 {} else if base == 10 {} else {}
  }

  lemma DigitLetters(d: nat)
    requires d < 16
    ensures DigitChar(d, false) == "0123456789abcdef"[d] && DigitChar(d, true) == "0123456789ABCDEF"[d]
  {
  }

  /** The numeral of n, the highest digit first. */
  function Numeral(n: nat, base: nat, uppercase: bool): (s: string)
    requires IsBase(base)
    ensures s != ""
    decreases n
  {
    Radix(n, base);
    (if n < base then "" else Numeral(n / base, base, uppercase)) +
    [if uppercase then "0123456789ABCDEF"[n % base] else "0123456789abcdef"[n % base]]
  }

  /** The last `room` characters. */
  function Last(s: string, room: nat): string {
    if |s| <= room then s else s[|s| - room..]
  }

  lemma LastAppend(s: string, c: char, room: nat)
    requires room > 0
    ensures Last(s + [c], room) == Last(s, room - 1) + [c]
  {
  }

  lemma ReverseFront(c: char, s: string)
    ensures Reverse([c] + s) == Reverse(s) + [c]
  {
  }

  /** The digits that are generated from the lowest on are the end of the numeral. */
  lemma {:induction false} DigitsAreNumeral(n: nat, base: nat, uppercase: bool, room: nat)
    requires IsBase(base) && room > 0
    ensures Reverse(LowDigits(n, base, uppercase, room)) == Last(Numeral(n, base, uppercase), room)
    decreases room
  {
    hide Div, Mod, Numeral;
    var q, c := n / base, DigitChar(n % base, uppercase);
    Radix(n, base);
    OneMore(n, base, uppercase);
    if q == 0 {
      ReverseFront(c, "");
      LastAppend("", c, room);
      assert LowDigits(n, base, uppercase, room) == [c] + "";
    } else {
      var rest := LowDigits(q, base, uppercase, room - 1);
      assert LowDigits(n, base, uppercase, room) == [c] + rest;
      ReverseFront(c, rest);
      LastAppend(Numeral(q, base, uppercase), c, room);
      if room > 1 {
        DigitsAreNumeral(q, base, uppercase, room - 1);
      } else {
        assert rest == "" && Reverse(rest) == "" && Last(Numeral(q, base, uppercase), 0) == "";
      }
    }
  }

  lemma OneMore(n: nat, base: nat, uppercase: bool)
    requires IsBase(base)
    ensures n % base < 16
    ensures Numeral(n, base, uppercase)
         == (if n < base then "" else Numeral(n / base, base, uppercase)) + [DigitChar(n % base, uppercase)]
  {
    Radix(n, base);
    DigitLetters(n % base);
  }

  // ---------- the field of an integer, from left to right ----------

  function Max(a: int, b: int): int {
    if a > b then a else b
  }

  /** What '#' makes of the digits and zeros: a zero and the letter of the base in front, in the place of one or two
      characters if these fill precision or width, and as far as 32 characters hold them. */
  function Marked(s: string, base: nat, uppercase: bool, precision: bool, prec: nat, inner: nat): string {
    var drop := if precision || |s| == 0 || (|s| != prec && |s| != inner) then 0
                else if base == 16 && |s| > 1 then 2 else 1;
    var t := s[drop..];
    var letter := if |t| >= 32 then "" else if base == 16 then (if uppercase then "X" else "x")
                  else if base == 2 then "b" else "";
    (if |letter + t| >= 32 then "" else "0") + letter + t
  }

  function SignOf(f: Flags, negative: bool): string {
    if negative then "-" else if f.plus then "+" else if f.space then " " else ""
  }

  /** The characters that a digit is to fill: those of the numeral, and zeros up to precision or width as long as the
      integer does not stand on the left. */
  function DigitPlaces(f: Flags, len: nat, prec: nat, inner: nat): nat {
    if f.left then len else Max(len, Max(Min(prec, 32), if f.zeropad then Min(inner, 32) else 0))
  }

  /** Zeros and the numeral of an integer of size n. */
  function Figures(f: Flags, n: nat, base: nat, prec: nat, inner: nat): string
    requires IsBase(base)
  {
    var num := if f.precision && n == 0 then "" else Last(Numeral(n, base, f.uppercase), 32);
    Repeat('0', DigitPlaces(f, |num|, prec, inner) - |num|) + num
  }

  /** Sign, prefix, zeros and numeral. 32 characters leave no place for the sign. */
  function Body(f: Flags, n: nat, negative: bool, base: nat, prec: nat, width: nat): string
    requires IsBase(base)
  {
    var sign := SignOf(f, negative);
    var inner := if f.zeropad && !f.left && width > 0 then width - |sign| else width;
    var figures := Figures(f, n, base, prec, inner);
    var marked := if f.hash && n != 0 then Marked(figures, base, f.uppercase, f.precision, prec, inner) else figures;
    (if |marked| >= 32 then "" else sign) + marked
  }

  /** An integer of size n in its field. */
  function Laid(f: Flags, n: nat, negative: bool, base: nat, prec: nat, width: nat): string
    requires IsBase(base)
  {
    var body := Body(f, n, negative, base, prec, width);
    var blanks := if |body| < width then Repeat(' ', width - |body|) else "";
    if f.left then body + blanks else if f.zeropad then body else blanks + body
  }

  lemma ReverseBoth(s: string, t: string)
    ensures Reverse(s + t) == Reverse(t) + Reverse(s)
  {
  }

  lemma ReverseRepeat(c: char, n: nat)
    ensures Reverse(Repeat(c, n)) == Repeat(c, n)
  {
  }

  lemma ReverseSigned(f: Flags, s: string, negative: bool)
    requires |s| <= NTOA_SIZE
    ensures Reverse(Signed(f, s, negative)) == (if |s| >= 32 then "" else SignOf(f, negative)) + Reverse(s)
  {
  }

  lemma ReverseHashed(f: Flags, s: string, base: nat, prec: nat, inner: nat)
    requires |s| <= NTOA_SIZE && f.hash
    ensures Reverse(Hashed(f, s, base, prec, inner))
         == Marked(Reverse(s), base, f.uppercase, f.precision, prec, inner)
  {
  }

  lemma FiguresReversed(f: Flags, n: nat, base: nat, prec: nat, inner: nat)
    requires IsBase(base)
    ensures var digits := DigitBuffer(f, n, base);
            var zeros := Zeros(f, |digits|, prec, inner);
            |digits| + zeros <= 32 && Reverse(digits + Repeat('0', zeros)) == Figures(f, n, base, prec, inner)
  {
    hide Numeral, Last, LowDigits;
    var digits := DigitBuffer(f, n, base);
    DigitsAreNumeral(n, base, f.uppercase, 32);
    var zeros := Zeros(f, |digits|, prec, inner);
    ReverseBoth(digits, Repeat('0', zeros));
    ReverseRepeat('0', zeros);
  }

  lemma BodyReversed(f: Flags, n: nat, negative: bool, base: nat, prec: nat, width: nat)
    requires IsBase(base)
    ensures var g := if n == 0 then f.(hash := false) else f;
            Reverse(Formatted(g, DigitBuffer(g, n, base), negative, base, prec, width)) ==
            Body(f, n, negative, base, prec, width)
  {
    hide Numeral, Last, LowDigits, Hashed, Marked, Signed, SignOf, Figures, Zeros, DigitBuffer;
    var g := if n == 0 then f.(hash := false) else f;
    var digits, inner := DigitBuffer(g, n, base), InnerWidth(g, negative, width);
    var padded := digits + Repeat('0', Zeros(g, |digits|, prec, inner));
    SignLength(f, negative);
    SameFigures(f, n, base, prec, inner);
    FiguresReversed(g, n, base, prec, inner);
    if g.hash { ReverseHashed(g, padded, base, prec, inner); } else { HashedNot(g, padded, base, prec, inner); }
    ReverseSigned(g, Hashed(g, padded, base, prec, inner), negative);
  }

  lemma SameFigures(f: Flags, n: nat, base: nat, prec: nat, inner: nat)
    requires IsBase(base)
    ensures Figures(f.(hash := false), n, base, prec, inner) == Figures(f, n, base, prec, inner)
  {
  }

  /** The text of an integer, put together backwards in a buffer, is that from left to right. */
  lemma TextIsLaid(f: Flags, n: nat, negative: bool, base: nat, prec: nat, width: nat)
    requires IsBase(base)
    ensures IntText(f, n, negative, base, prec, width) == Laid(f, n, negative, base, prec, width)
  {
    hide Formatted, Body, DigitBuffer, Field, InnerWidth;
    var g := if n == 0 then f.(hash := false) else f;
    BodyReversed(f, n, negative, base, prec, width);
    WidthKept(g, negative, width);
    FieldReversed(g, Formatted(g, DigitBuffer(g, n, base), negative, base, prec, width), InnerWidth(g, negative, width),
                  width);
  }

  lemma WidthKept(f: Flags, negative: bool, width: nat)
    ensures !f.zeropad || f.left ==> InnerWidth(f, negative, width) == width
  {
  }

  lemma FieldReversed(f: Flags, s: string, inner: nat, width: nat)
    requires !f.zeropad || f.left ==> inner == width
    ensures var body := Reverse(s);
            var blanks := if |body| < width then Repeat(' ', width - |body|) else "";
            Field(f, s, inner) == if f.left then body + blanks else if f.zeropad then body else blanks + body
  {
  }

  lemma HashedNot(f: Flags, s: string, base: nat, prec: nat, inner: nat)
    requires |s| <= NTOA_SIZE && !f.hash
    ensures Hashed(f, s, base, prec, inner) == s
  {
  }

  lemma SignLength(f: Flags, negative: bool)
    ensures |SignOf(f, negative)| == if negative || f.plus || f.space then 1 else 0
    ensures SignOf(f.(hash := false), negative) == SignOf(f, negative)
  {
  }

  // ---------- the conversions ----------

  /** v converted to the signed type of `modulus` values. */
  function Wrapped(v: int, modulus: nat): int
    requires modulus > 0
  {
    (v + modulus / 2) % modulus - modulus / 2
  }

  /** An integer conversion shows its argument, converted to the type of the length flags, in the base of the
      specifier; signs are for signed conversions, '#' is for other bases than ten, and zeros up to the width are for
      conversions without a precision. */
  lemma IntegerText(d: Directive, c: char)
    requires c in "diuxXob"
    ensures var f, v, signed := d.flags, TakeInt(d.args), c == 'd' || c == 'i';
            var modulus := if f.isLong || f.isLongLong then 0x1_0000_0000_0000_0000
                           else if f.isChar then 0x100 else if f.isShort then 0x1_0000 else 0x1_0000_0000;
            var n := if signed then Wrapped(v, modulus) else v % modulus;
            var base := if c == 'x' || c == 'X' then 16 else if c == 'o' then 8 else if c == 'b' then 2 else 10;
            var g := f.(hash := f.hash && base != 10, plus := f.plus && signed, space := f.space && signed,
                        uppercase := f.uppercase || c == 'X', zeropad := f.zeropad && !f.precision);
            Convert(d, c) == Laid(g, if n < 0 then -n else n, n < 0, base, d.precision, d.width)
  {
    hide Laid, IntText, IntFlags, ToSigned, Unsigned, Wrapped;
    var f, v := IntFlags(d.flags, c), TakeInt(d.args);
    SignedIsWrapped(v, d.flags);
    SameNumber(v, d.flags, f);
    TextIsLaid(f, Magnitude(v, f, c), IsNegative(v, f, c), BaseOf(c), d.precision, d.width);
  }

  /** The types have 2^64, 2^8, 2^16 and 2^32 values. */
  lemma SignedIsWrapped(v: int, f: Flags)
    ensures var modulus := if f.isLong || f.isLongLong then 0x1_0000_0000_0000_0000
                           else if f.isChar then 0x100 else if f.isShort then 0x1_0000 else 0x1_0000_0000;
            Unsigned(v, f) == v % modulus && ToSigned(v, f) == Wrapped(v, modulus)
  {
    hide Wrapped;
    WrapsTo(v, 0x80);
    WrapsTo(v, 0x8000);
    WrapsTo(v, 0x8000_0000);
    WrapsTo(v, 0x8000_0000_0000_0000);
  }

  lemma WrapsTo(v: int, half: nat)
    requires half > 0
    ensures var u := v % (2 * half); Wrapped(v, 2 * half) == if u < half then u else u - 2 * half
  {
    var q, u := v / (2 * half), v % (2 * half);
    if u < half {
      Remainder(v + half, 2 * half, q, u + half);
    } else {
      assert q * (2 * half) + 2 * half == (q + 1) * (2 * half);
      Remainder(v + half, 2 * half, q + 1, u - half);
    }
  }

  lemma Remainder(x: int, m: nat, q: int, r: nat)
    requires r < m && x == q * m + r
    ensures x % m == r
  {
    var q', r' := x / m, x % m;
    if q < q' { Larger(q, q', m); } else if q' < q { Larger(q', q, m); }
  }

  lemma Larger(q: int, q': int, m: nat)
    requires q < q'
    ensures q * m + m <= q' * m
  {
    var d := q' - q - 1;
    assert q' * m == (q + 1 + d) * m == q * m + m + d * m;
    assert d * m >= 0;
  }

  lemma SameNumber(v: int, f: Flags, g: Flags)
    requires SameLength(f, g)
    ensures Unsigned(v, f) == Unsigned(v, g) && ToSigned(v, f) == ToSigned(v, g)
  {
  }

  /** A character and a string are put to the right of their field, or to the left with '-'; a precision shortens a
      string; a pointer is shown as 16 hexadecimal digits; any other character stands for itself. */
  lemma OtherText(d: Directive, c: char)
    ensures c == 'c' || c == 's' ==>
              var s := if c == 'c' then [(TakeInt(d.args) % 256) as char]
                       else if d.flags.precision && d.precision < |TakeStr(d.args)| then TakeStr(d.args)[..d.precision]
                       else TakeStr(d.args);
              var blanks := if |s| < d.width then Repeat(' ', d.width - |s|) else "";
              Convert(d, c) == if d.flags.left then s + blanks else blanks + s
    ensures c == 'p' ==>
              Convert(d, c) == Laid(d.flags.(zeropad := true, uppercase := true),
                                    TakeInt(d.args) % 0x1_0000_0000_0000_0000, false, 16, d.precision, 16)
    ensures c !in "diuxXobcsp" ==> Convert(d, c) == [c]
  {
    if c == 'p' {
      TextIsLaid(d.flags.(zeropad := true, uppercase := true), TakeInt(d.args) % TWO64, false, 16, d.precision, 16);
    }
  }

  // ---------- directives as they are written ----------

  /** The flags that are written, in any order. */
  function FlagsOf(s: string): Flags {
    NO_FLAGS.(zeropad := '0' in s, left := '-' in s, plus := '+' in s, space := ' ' in s, hash := '#' in s)
  }

  function Both(f: Flags, g: Flags): Flags {
    f.(zeropad := f.zeropad || g.zeropad, left := f.left || g.left, plus := f.plus || g.plus,
       space := f.space || g.space, hash := f.hash || g.hash)
  }

  lemma {:induction false} FlagsAreRead(s: string, rest: string, f: Flags)
    requires forall i :: 0 <= i < |s| ==> s[i] in "0-+ #"
    requires rest == "" || rest[0] !in "0-+ #"
    ensures ParseFlags(s + rest, f) == (Both(f, FlagsOf(s)), rest)
    decreases |s|
  {
    hide FlagsOf, Both, SetFlag;
    if s == "" {
      assert s + rest == rest;
      NoFlags(f);
    } else {
      assert (s + rest)[0] == s[0] && (s + rest)[1..] == s[1..] + rest;
      FlagsAreRead(s[1..], rest, SetFlag(f, s[0]));
      FirstFlag(f, s);
    }
  }

  lemma NoFlags(f: Flags)
    ensures Both(f, FlagsOf("")) == f
  {
  }

  lemma FirstFlag(f: Flags, s: string)
    requires s != "" && s[0] in "0-+ #"
    ensures Both(SetFlag(f, s[0]), FlagsOf(s[1..])) == Both(f, FlagsOf(s))
  {
    hide FlagsOf, Both, SetFlag;
    FlagLetters(s[0]);
    FlagsFromFront(s);
    OneFlagMore(f, FlagsOf(s[1..]), s[0]);
  }

  lemma OneFlagMore(f: Flags, g: Flags, c: char)
    requires IsFlag(c)
    ensures Both(SetFlag(f, c), g)
         == Both(f, g.(zeropad := c == '0' || g.zeropad, left := c == '-' || g.left, plus := c == '+' || g.plus,
                       space := c == ' ' || g.space, hash := c == '#' || g.hash))
  {
  }

  lemma FlagLetters(c: char)
    ensures IsFlag(c) <==> c in "0-+ #"
  {
    assert "0-+ #" == ['0', '-', '+', ' ', '#'];
  }

  lemma FlagsFromFront(s: string)
    requires s != ""
    ensures var f, g, c := FlagsOf(s), FlagsOf(s[1..]), s[0];
            f == g.(zeropad := c == '0' || g.zeropad, left := c == '-' || g.left, plus := c == '+' || g.plus,
                    space := c == ' ' || g.space, hash := c == '#' || g.hash)
  {
    InFirstOrRest('0', s);
    InFirstOrRest('-', s);
    InFirstOrRest('+', s);
    InFirstOrRest(' ', s);
    InFirstOrRest('#', s);
  }

  lemma InFirstOrRest(c: char, s: string)
    requires s != ""
    ensures c in s <==> c == s[0] || c in s[1..]
  {
    assert s == [s[0]] + s[1..];
  }

  predicate Decimal(s: string) {
    forall i :: 0 <= i < |s| ==> s[i] in "0123456789"
  }

  /** The number that decimal digits spell, the highest first. */
  function ValueOf(s: string): nat
    requires Decimal(s)
  {
    if s == "" then 0 else 10 * ValueOf(s[..|s| - 1]) + (s[|s| - 1] - '0') as nat
  }

  /** The same after digits that spell n. */
  function ValueAfter(n: nat, s: string): nat
    requires Decimal(s)
    decreases |s|
  {
    if s == "" then n
    else ValueAfter(10 * n + (s[0] - '0') as nat, s[1..])
  }

  lemma {:induction false} ValueFromFront(t: string, s: string)
    requires Decimal(t) && Decimal(s)
    ensures Decimal(t + s) && ValueAfter(ValueOf(t), s) == ValueOf(t + s)
    decreases |s|
  {
    hide ValueOf;
    if s == "" {
      assert t + s == t;
    } else {
      assert t + s == t + [s[0]] + s[1..];
      OneDigitMore(t, s[0]);
      ValueFromFront(t + [s[0]], s[1..]);
    }
  }

  lemma OneDigitMore(t: string, c: char)
    requires Decimal(t) && c in "0123456789"
    ensures Decimal(t + [c]) && ValueOf(t + [c]) == 10 * ValueOf(t) + (c - '0') as nat
  {
    assert (t + [c])[..|t|] == t;
  }

  /** A number is read modulo 2^32. */
  lemma {:induction false} NumberIsRead(s: string, rest: string, n: nat)
    requires Decimal(s) && (rest == "" || rest[0] !in "0123456789")
    ensures ParseNumber(s + rest, n % 0x1_0000_0000) == (ValueAfter(n, s) % 0x1_0000_0000, rest)
    decreases |s|
  {
    if s == "" {
      assert s + rest == rest;
    } else {
      assert (s + rest)[0] == s[0] && (s + rest)[1..] == s[1..] + rest;
      NextDigit(n, (s[0] - '0') as nat);
      NumberIsRead(s[1..], rest, 10 * n + (s[0] - '0') as nat);
    }
  }

  lemma NextDigit(n: nat, digit: nat)
    ensures (n % 0x1_0000_0000 * 10 + digit) % 0x1_0000_0000 == (10 * n + digit) % 0x1_0000_0000
  {
  }

  lemma ValueIsRead(s: string, rest: string)
    requires Decimal(s) && (rest == "" || rest[0] !in "0123456789")
    ensures ParseNumber(s + rest, 0) == (ValueOf(s) % 0x1_0000_0000, rest)
  {
    NumberIsRead(s, rest, 0);
    ValueFromFront("", s);
    assert "" + s == s;
  }

  predicate IsWidth(w: string) {
    w == "*" || (Decimal(w) && (w == "" || w[0] != '0'))
  }

  predicate IsPrecision(p: string) {
    p == "" || p == ".*" || (p[0] == '.' && Decimal(p[1..]))
  }

  predicate IsLength(l: string) {
    l == "" || l == "hh" || l == "h" || l == "l" || l == "ll" || l == "j" || l == "z" || l == "t"
  }

  /** The width that is written; an asterisk takes it from an argument of type int. */
  function WidthOf(w: string, args: seq<Arg>): int
    requires IsWidth(w)
  {
    if w == "*" then Wrapped(TakeInt(args), 0x1_0000_0000) else ValueOf(w) % 0x1_0000_0000
  }

  /** The precision that is written; a negative argument counts as 0. */
  function PrecisionOf(p: string, args: seq<Arg>): nat
    requires IsPrecision(p)
  {
    if p == "" then 0
    else if p == ".*" then Max(Wrapped(TakeInt(args), 0x1_0000_0000), 0)
    else ValueOf(p[1..]) % 0x1_0000_0000
  }

  function AfterStar(s: string, args: seq<Arg>): seq<Arg> {
    if (s == "*" || s == ".*") && args != [] then args[1..] else args
  }

  /** The length flags that are written. */
  function Lengthened(f: Flags, l: string): Flags {
    f.(isChar := l == "hh", isShort := l == "h" || l == "hh", isLongLong := l == "ll",
       isLong := l == "l" || l == "ll" || l == "j" || l == "z" || l == "t")
  }

  /** What may follow a directive: neither a flag nor a part of a number, and no length. */
  predicate IsSpecifier(c: char) {
    c !in "0-+ #" && c !in "0123456789" && c !in "*." && c !in "hljzt"
  }

  lemma EmptyValue()
    ensures ValueOf("") == 0
  {
  }

  lemma WidthIsRead(w: string, rest: string, f: Flags, args: seq<Arg>)
    requires IsWidth(w) && rest != "" && rest[0] !in "0123456789" && rest[0] != '*'
    ensures var n := WidthOf(w, args);
            ParseWidth(w + rest, f, args) ==
            Directive(if n < 0 then f.(left := true) else f, if n < 0 then -n else n, 0, rest, AfterStar(w, args))
  {
    hide ParseNumber, ValueOf, Wrapped;
    SignedIsWrapped(TakeInt(args), NO_FLAGS);
    if w == "" {
      assert w + rest == rest;
      EmptyValue();
    } else if w == "*" {
      assert (w + rest)[0] == '*' && (w + rest)[1..] == rest;
    } else {
      assert (w + rest)[0] == w[0] && w[0] in "0123456789";
      ValueIsRead(w, rest);
    }
  }

  lemma PrecisionIsRead(p: string, rest: string, d: Directive)
    requires IsPrecision(p) && rest != "" && rest[0] !in "0123456789" && rest[0] != '*' && rest[0] != '.'
    requires d.rest == p + rest && !d.flags.precision && d.precision == 0
    ensures ParsePrecision(d) == d.(flags := d.flags.(precision := p != ""), precision := PrecisionOf(p, d.args),
                                    rest := rest, args := AfterStar(p, d.args))
  {
    hide ParseNumber, ValueOf, Wrapped;
    SignedIsWrapped(TakeInt(d.args), NO_FLAGS);
    if p == "" {
      assert p + rest == rest;
    } else {
      assert (p + rest)[0] == '.' && (p + rest)[1..] == p[1..] + rest;
      AfterPoint(p[1..], rest, d.args);
      WithPoint(d, p[1..] + rest);
      assert p[1..] == "*" <==> p == ".*";
    }
  }

  /** A precision after its point is read as a width, except that a negative argument counts as 0. */
  lemma AfterPoint(n: string, rest: string, args: seq<Arg>)
    requires rest != "" && rest[0] !in "0123456789" && rest[0] != '*' && (n == "*" || Decimal(n))
    ensures ReadAfterPoint(n + rest, args) ==
            (if n == "*" then Max(Wrapped(TakeInt(args), 0x1_0000_0000), 0) else ValueOf(n) % 0x1_0000_0000,
             rest, AfterStar(n, args))
  {
    hide ParseNumber, ValueOf, Wrapped;
    SignedIsWrapped(TakeInt(args), NO_FLAGS);
    if n == "" {
      assert n + rest == rest;
      EmptyValue();
    } else if n == "*" {
      assert (n + rest)[0] == '*' && (n + rest)[1..] == rest;
    } else {
      assert (n + rest)[0] == n[0] && n[0] in "0123456789";
      ValueIsRead(n, rest);
    }
  }

  function ReadAfterPoint(s: string, args: seq<Arg>): (nat, string, seq<Arg>) {
    if IsDigit(At(s)) then (ParseNumber(s, 0).0, ParseNumber(s, 0).1, args)
    else if At(s) == '*' then (Max(ToSigned(TakeInt(args), NO_FLAGS), 0), s[1..], Others(args))
    else (0, s, args)
  }

  lemma WithPoint(d: Directive, s: string)
    requires d.rest != "" && d.rest[0] == '.' && d.rest[1..] == s && d.precision == 0
    ensures var r := ReadAfterPoint(s, d.args);
            ParsePrecision(d) == d.(flags := d.flags.(precision := true), precision := r.0, rest := r.1, args := r.2)
  {
  }

  lemma LengthIsRead(l: string, rest: string, d: Directive)
    requires IsLength(l) && rest != "" && rest[0] !in "hljzt" && d.rest == l + rest
    requires d.flags == Lengthened(d.flags, "")
    ensures ParseLength(d) == d.(flags := Lengthened(d.flags, l), rest := rest)
  {
    if l == "" {
      assert l + rest == rest;
    } else if |l| == 1 {
      assert (l + rest)[0] == l[0] && (l + rest)[1..] == rest;
    } else {
      assert (l + rest)[0] == l[0] && (l + rest)[1] == l[1] && (l + rest)[1..][0] == l[1];
      assert (l + rest)[1..][1..] == rest;
    }
  }

  /** Everything that is written between '%' and a specifier is read as what it says. */
  lemma DirectiveIsRead(fl: string, w: string, p: string, l: string, rest: string, args: seq<Arg>)
    requires forall i :: 0 <= i < |fl| ==> fl[i] in "0-+ #"
    requires IsWidth(w) && IsPrecision(p) && IsLength(l) && rest != "" && IsSpecifier(rest[0])
    ensures var n, args' := WidthOf(w, args), AfterStar(w, args);
            var f := Lengthened(FlagsOf(fl), l);
            ParseDirective(fl + (w + (p + (l + rest))), args) ==
            Directive(f.(left := f.left || n < 0, precision := p != ""), if n < 0 then -n else n,
                      PrecisionOf(p, args'), rest, AfterStar(p, args'))
  {
    hide ParseFlags, ParseWidth, ParsePrecision, ParseLength, FlagsOf, WidthOf, PrecisionOf, IsWidth, IsPrecision,
      AfterStar;
    var atL, atP := l + rest, p + (l + rest);
    FirstOf(l, rest);
    FirstOfPrecision(p, atL);
    FirstOfWidth(w, atP);
    FlagsAreRead(fl, w + atP, NO_FLAGS);
    OnlyFlags(fl);
    WidthIsRead(w, atP, FlagsOf(fl), args);
    var d := ParseWidth(w + atP, FlagsOf(fl), args);
    PrecisionIsRead(p, atL, d);
    LengthIsRead(l, rest, ParsePrecision(d));
  }

  lemma OnlyFlags(fl: string)
    ensures Both(NO_FLAGS, FlagsOf(fl)) == FlagsOf(fl) == Lengthened(FlagsOf(fl), "") && !FlagsOf(fl).precision
  {
  }

  lemma FirstOf(l: string, rest: string)
    requires IsLength(l) && rest != "" && IsSpecifier(rest[0])
    ensures var c := (l + rest)[0]; c !in "0123456789" && c != '*' && c != '.' && c !in "0-+ #"
  {
    if l != "" { assert (l + rest)[0] == l[0]; } else { assert l + rest == rest; }
  }

  lemma FirstOfPrecision(p: string, rest: string)
    requires IsPrecision(p) && rest != "" && rest[0] !in "0123456789" && rest[0] != '*' && rest[0] !in "0-+ #"
    ensures var c := (p + rest)[0]; c !in "0123456789" && c != '*' && c !in "0-+ #"
  {
    if p != "" { assert (p + rest)[0] == '.'; } else { assert p + rest == rest; }
  }

  lemma FirstOfWidth(w: string, rest: string)
    requires IsWidth(w) && rest != "" && rest[0] !in "0-+ #"
    ensures (w + rest)[0] !in "0-+ #"
  {
    if w != "" { assert (w + rest)[0] == w[0]; } else { assert w + rest == rest; }
  }

  /** The text of a format that starts with a directive. */
  lemma SpelledText(fl: string, w: string, p: string, l: string, c: char, tail: string, args: seq<Arg>)
    requires forall i :: 0 <= i < |fl| ==> fl[i] in "0-+ #"
    requires IsWidth(w) && IsPrecision(p) && IsLength(l) && IsSpecifier(c)
    ensures var n, args' := WidthOf(w, args), AfterStar(w, args);
            var f := Lengthened(FlagsOf(fl), l).(precision := p != "");
            var d := Directive(f.(left := f.left || n < 0), if n < 0 then -n else n, PrecisionOf(p, args'),
                               [c] + tail, AfterStar(p, args'));
            Text("%" + (fl + (w + (p + (l + ([c] + tail))))), args)
            == Convert(d, c) + Text(tail, if c in "diuxXobcsp" && d.args != [] then d.args[1..] else d.args)
  {
    hide Text, Convert, FlagsOf, WidthOf, PrecisionOf, Lengthened, AfterStar, IsWidth, IsPrecision, IsLength;
    var s := fl + (w + (p + (l + ([c] + tail))));
    DirectiveIsRead(fl, w, p, l, [c] + tail, args);
    TextOfFirst(s, ParseDirective(s, args), c, tail, args);
  }

  lemma TextOfFirst(s: string, d: Directive, c: char, tail: string, args: seq<Arg>)
    requires d == ParseDirective(s, args) && d.rest == [c] + tail
    ensures Text("%" + s, args)
         == Convert(d, c) + Text(tail, if c in "diuxXobcsp" && d.args != [] then d.args[1..] else d.args)
  {
    hide Convert, ParseDirective;
    assert ("%" + s)[0] == '%' && ("%" + s)[1..] == s && ([c] + tail)[1..] == tail;
  }

  /** Characters in front of a directive are put out as they are. */
  lemma {:induction false} LiteralText(s: string, tail: string, args: seq<Arg>)
    requires '%' !in s
    ensures Text(s + tail, args) == s + Text(tail, args)
    decreases |s|
  {
    hide ParseDirective, Convert, ArgsAfter;
    if s == "" {
      assert s + tail == tail;
    } else {
      assert (s + tail)[0] == s[0] && (s + tail)[1..] == s[1..] + tail;
      LiteralText(s[1..], tail, args);
    }
  }

  /** Arguments are taken from the front. */
  lemma ArgumentTaken(v: int, s: string, more: seq<Arg>)
    requires NUL !in s
    ensures TakeInt([Int(v)] + more) == v && TakeStr([Str(s)] + more) == s
  {
    StringEnds(s, "");
  }

  /** A string argument ends at its terminator, or where the model ends it. */
  lemma {:induction false} StringEnds(s: string, tail: string)
    requires NUL !in s
    ensures CString(s) == s && CString(s + ['\0'] + tail) == s
    decreases |s|
  {
    var t := s + ['\0'] + tail;
    if s == "" {
      assert t[0] == NUL;
    } else {
      assert t[0] == s[0] && t[1..] == s[1..] + ['\0'] + tail;
      StringEnds(s[1..], tail);
    }
  }

  // ---------- lengths ----------

  /** How many values the type of an argument has. */
  function Values(l: string): (n: nat)
    ensures n > 0
  {
    if l == "hh" then 0x100 else if l == "h" then 0x1_0000 else if l == "" then 0x1_0000_0000
    else 0x1_0000_0000_0000_0000
  }

  /** A length and a specifier show the argument as a number of that type. */
  lemma LengthReadsBack(l: string, c: char, v: int)
    requires IsLength(l) && (c == 'd' || c == 'u' || c == 'x')
    ensures ReadInt(Text("%" + (l + [c]), [Int(v)]), if c == 'x' then 16 else 10)
         == if c == 'd' then Wrapped(v, Values(l)) else v % Values(l)
  {
    var d := PlainDirective(l, c, v);
    PlainText(l, c, v);
    SignedIsWrapped(v, d.flags);
    SameNumber(v, d.flags, IntFlags(d.flags, c));
    PrintfReadBack.ConversionReadsBack(d, c);
    hide Convert, Text, ReadInt, Wrapped;
  }

  function PlainDirective(l: string, c: char, v: int): Directive {
    Directive(Lengthened(NO_FLAGS, l), 0, 0, [c], [Int(v)])
  }

  lemma PlainText(l: string, c: char, v: int)
    requires IsLength(l) && (c == 'd' || c == 'u' || c == 'x')
    ensures Text("%" + (l + [c]), [Int(v)]) == Convert(PlainDirective(l, c, v), c)
  {
    hide Convert, ParseDirective;
    EmptyValue();
    assert FlagsOf("") == NO_FLAGS;
    DirectiveIsRead("", "", "", l, [c], [Int(v)]);
    var s := l + [c];
    assert "" + ("" + ("" + s)) == s;
    assert ("%" + s)[0] == '%' && ("%" + s)[1..] == s && [c][1..] == "";
  }

  /** Signed numbers of every length read back as the argument wrapped to 32, 64, 16 and 8 bits. */
  lemma DecimalLengths(v: int)
    ensures ReadInt(Text("%d", [Int(v)]), 10) == Wrapped(v, 0x1_0000_0000)
    ensures ReadInt(Text("%ld", [Int(v)]), 10) == Wrapped(v, 0x1_0000_0000_0000_0000)
    ensures ReadInt(Text("%lld", [Int(v)]), 10) == Wrapped(v, 0x1_0000_0000_0000_0000)
    ensures ReadInt(Text("%zd", [Int(v)]), 10) == Wrapped(v, 0x1_0000_0000_0000_0000)
    ensures ReadInt(Text("%jd", [Int(v)]), 10) == Wrapped(v, 0x1_0000_0000_0000_0000)
    ensures ReadInt(Text("%td", [Int(v)]), 10) == Wrapped(v, 0x1_0000_0000_0000_0000)
    ensures ReadInt(Text("%hd", [Int(v)]), 10) == Wrapped(v, 0x1_0000)
    ensures ReadInt(Text("%hhd", [Int(v)]), 10) == Wrapped(v, 0x100)
  {
    hide Text, ReadInt, Wrapped;
    LengthReadsBack("", 'd', v);
    assert "%" + ("" + "d") == "%d";
    LengthReadsBack("l", 'd', v);
    assert "%" + ("l" + "d") == "%ld";
    LengthReadsBack("ll", 'd', v);
    assert "%" + ("ll" + "d") == "%lld";
    LengthReadsBack("z", 'd', v);
    assert "%" + ("z" + "d") == "%zd";
    LengthReadsBack("j", 'd', v);
    assert "%" + ("j" + "d") == "%jd";
    LengthReadsBack("t", 'd', v);
    assert "%" + ("t" + "d") == "%td";
    LengthReadsBack("h", 'd', v);
    assert "%" + ("h" + "d") == "%hd";
    LengthReadsBack("hh", 'd', v);
    assert "%" + ("hh" + "d") == "%hhd";
  }

  /** Unsigned numbers of every length read back as the argument modulo the number of values. */
  lemma UnsignedLengths(v: int)
    ensures ReadInt(Text("%u", [Int(v)]), 10) == v % 0x1_0000_0000
    ensures ReadInt(Text("%lu", [Int(v)]), 10) == v % 0x1_0000_0000_0000_0000
    ensures ReadInt(Text("%llu", [Int(v)]), 10) == v % 0x1_0000_0000_0000_0000
    ensures ReadInt(Text("%zu", [Int(v)]), 10) == v % 0x1_0000_0000_0000_0000
    ensures ReadInt(Text("%ju", [Int(v)]), 10) == v % 0x1_0000_0000_0000_0000
    ensures ReadInt(Text("%tu", [Int(v)]), 10) == v % 0x1_0000_0000_0000_0000
    ensures ReadInt(Text("%hu", [Int(v)]), 10) == v % 0x1_0000
    ensures ReadInt(Text("%hhu", [Int(v)]), 10) == v % 0x100
  {
    hide Text, ReadInt, Wrapped;
    LengthReadsBack("", 'u', v);
    assert "%" + ("" + "u") == "%u";
    LengthReadsBack("l", 'u', v);
    assert "%" + ("l" + "u") == "%lu";
    LengthReadsBack("ll", 'u', v);
    assert "%" + ("ll" + "u") == "%llu";
    LengthReadsBack("z", 'u', v);
    assert "%" + ("z" + "u") == "%zu";
    LengthReadsBack("j", 'u', v);
    assert "%" + ("j" + "u") == "%ju";
    LengthReadsBack("t", 'u', v);
    assert "%" + ("t" + "u") == "%tu";
    LengthReadsBack("h", 'u', v);
    assert "%" + ("h" + "u") == "%hu";
    LengthReadsBack("hh", 'u', v);
    assert "%" + ("hh" + "u") == "%hhu";
  }

  /** The same for hexadecimal numbers. */
  lemma HexadecimalLengths(v: int)
    ensures ReadInt(Text("%x", [Int(v)]), 16) == v % 0x1_0000_0000
    ensures ReadInt(Text("%lx", [Int(v)]), 16) == v % 0x1_0000_0000_0000_0000
    ensures ReadInt(Text("%llx", [Int(v)]), 16) == v % 0x1_0000_0000_0000_0000
    ensures ReadInt(Text("%zx", [Int(v)]), 16) == v % 0x1_0000_0000_0000_0000
    ensures ReadInt(Text("%jx", [Int(v)]), 16) == v % 0x1_0000_0000_0000_0000
    ensures ReadInt(Text("%tx", [Int(v)]), 16) == v % 0x1_0000_0000_0000_0000
    ensures ReadInt(Text("%hx", [Int(v)]), 16) == v % 0x1_0000
    ensures ReadInt(Text("%hhx", [Int(v)]), 16) == v % 0x100
  {
    hide Text, ReadInt, Wrapped;
    LengthReadsBack("", 'x', v);
    assert "%" + ("" + "x") == "%x";
    LengthReadsBack("l", 'x', v);
    assert "%" + ("l" + "x") == "%lx";
    LengthReadsBack("ll", 'x', v);
    assert "%" + ("ll" + "x") == "%llx";
    LengthReadsBack("z", 'x', v);
    assert "%" + ("z" + "x") == "%zx";
    LengthReadsBack("j", 'x', v);
    assert "%" + ("j" + "x") == "%jx";
    LengthReadsBack("t", 'x', v);
    assert "%" + ("t" + "x") == "%tx";
    LengthReadsBack("h", 'x', v);
    assert "%" + ("h" + "x") == "%hx";
    LengthReadsBack("hh", 'x', v);
    assert "%" + ("hh" + "x") == "%hhx";
  }
}
