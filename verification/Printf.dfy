/** printf over integer, %c and %s conversions: the text a format stands for, and the engine that writes it through a
    bounded sink (kernel/support/printf.c). */
module Printf {
  import opened PrintfNumbers

  datatype Arg = Int(value: int) | Str(text: string)

  const NUL := '\0'

  /** va_arg. An argument that is missing or of another type reads as 0 or "". */
  function TakeInt(args: seq<Arg>): int {
    if args != [] && args[0].Int? then args[0].value else 0
  }

  function TakeStr(args: seq<Arg>): string {
    if args != [] && args[0].Str? then CString(args[0].text) else ""
  }

  function Others(args: seq<Arg>): seq<Arg> {
    if args == [] then [] else args[1..]
  }

  /** A string up to its terminator. */
  function CString(s: string): string {
    if s == "" || s[0] == NUL then "" else [s[0]] + CString(s[1..])
  }

  // ---------- the integer types ----------

  const TWO8 := 0x100
  const TWO16 := 0x1_0000
  const TWO32 := 0x1_0000_0000
  const TWO64 := 0x1_0000_0000_0000_0000

  function Unsigned(v: int, f: Flags): nat {
    if f.isLongLong || f.isLong then v % TWO64
    else if f.isChar then v % TWO8
    else if f.isShort then v % TWO16
    else v % TWO32
  }

  /** Conversion to the signed type of the length flags. */
  function ToSigned(v: int, f: Flags): int {
    var u := Unsigned(v, f);
    if f.isLongLong || f.isLong then (if u < TWO64 / 2 then u else u - TWO64)
    else if f.isChar then (if u < TWO8 / 2 then u else u - TWO8)
    else if f.isShort then (if u < TWO16 / 2 then u else u - TWO16)
    else (if u < TWO32 / 2 then u else u - TWO32)
  }

  // ---------- the parts of a directive ----------

  predicate IsDigit(c: char) {
    '0' <= c <= '9'
  }

  predicate IsFlag(c: char) {
    c == '0' || c == '-' || c == '+' || c == ' ' || c == '#'
  }

  function SetFlag(f: Flags, c: char): Flags {
    if c == '0' then f.(zeropad := true) else if c == '-' then f.(left := true) else if c == '+' then f.(plus := true)
    else if c == ' ' then f.(space := true) else f.(hash := true)
  }

  /** The character at the format pointer; the terminator beyond the end. */
  function At(s: string): char {
    if s == "" then NUL else s[0]
  }

  function ParseFlags(s: string, f: Flags): (r: (Flags, string))
    ensures |r.1| <= |s|
  {
    if !IsFlag(At(s)) then (f, s) else ParseFlags(s[1..], SetFlag(f, s[0]))
  }

  /** _atoi, on unsigned int. */
  function ParseNumber(s: string, n: nat): (r: (nat, string))
    ensures |r.1| <= |s|
  {
    if !IsDigit(At(s)) then (n, s) else ParseNumber(s[1..], (n * 10 + (s[0] - '0') as nat) % TWO32)
  }

  datatype Directive = Directive(flags: Flags, width: nat, precision: nat, rest: string, args: seq<Arg>)

  function ParseWidth(s: string, f: Flags, args: seq<Arg>): (d: Directive)
    ensures |d.rest| <= |s| && d.precision == 0
  {
    if IsDigit(At(s)) then
      var (n, rest) := ParseNumber(s, 0);
      Directive(f, n, 0, rest, args)
    else if At(s) == '*' then
      var w := ToSigned(TakeInt(args), NO_FLAGS);
      Directive(if w < 0 then f.(left := true) else f, if w < 0 then Negative(w) else w, 0, s[1..], Others(args))
    else Directive(f, 0, 0, s, args)
  }

  function Negative(w: int): nat
    requires w < 0
  {
    -w
  }

  function ParsePrecision(d: Directive): (e: Directive)
    ensures |e.rest| <= |d.rest| && (d.precision == 0 ==> e.flags.precision || e.precision == 0)
  {
    if At(d.rest) != '.' then d
    else
      var f, s := d.flags.(precision := true), d.rest[1..];
      if IsDigit(At(s)) then
        var (n, rest) := ParseNumber(s, 0);
        d.(flags := f, precision := n, rest := rest)
      else if At(s) == '*' then
        var p := ToSigned(TakeInt(d.args), NO_FLAGS);
        d.(flags := f, precision := if p > 0 then p else 0, rest := s[1..], args := Others(d.args))
      else d.(flags := f, rest := s)
  }

  function ParseLength(d: Directive): (e: Directive)
    ensures |e.rest| <= |d.rest| && e.precision == d.precision && e.flags.precision == d.flags.precision
  {
    var c, f := At(d.rest), d.flags;
    if c == 'l' then
      var s := d.rest[1..];
      if At(s) == 'l' then d.(flags := f.(isLong := true, isLongLong := true), rest := s[1..])
      else d.(flags := f.(isLong := true), rest := s)
    else if c == 'h' then
      var s := d.rest[1..];
      if At(s) == 'h' then d.(flags := f.(isShort := true, isChar := true), rest := s[1..])
      else d.(flags := f.(isShort := true), rest := s)
    else if c == 't' || c == 'j' || c == 'z' then d.(flags := f.(isLong := true), rest := d.rest[1..])
    else d
  }

  /** Everything between '%' and the specifier, at which `rest` starts. */
  function ParseDirective(s: string, args: seq<Arg>): (d: Directive)
    ensures |d.rest| <= |s| && (d.flags.precision || d.precision == 0)
  {
    var (f, rest) := ParseFlags(s, NO_FLAGS);
    ParseLength(ParsePrecision(ParseWidth(rest, f, args)))
  }

  // ---------- the text of a conversion ----------

  predicate IsInteger(c: char) {
    c == 'd' || c == 'i' || c == 'u' || c == 'x' || c == 'X' || c == 'o' || c == 'b'
  }

  predicate IsSigned(c: char) {
    c == 'd' || c == 'i'
  }

  predicate IsFloat(c: char) {
    c == 'f' || c == 'F' || c == 'e' || c == 'E' || c == 'g' || c == 'G'
  }

  function BaseOf(c: char): (b: nat)
    ensures IsBase(b)
  {
    if c == 'x' || c == 'X' then 16 else if c == 'o' then 8 else if c == 'b' then 2 else 10
  }

  predicate SameLength(f: Flags, g: Flags) {
    f.isChar == g.isChar && f.isShort == g.isShort && f.isLong == g.isLong && f.isLongLong == g.isLongLong
  }

  /** No hash for the decimal format. */
  function ForBase(f: Flags, base: nat): (g: Flags)
    ensures g == f.(hash := f.hash && base != 10)
  {
    if base == 10 then f.(hash := false) else f
  }

  function ForCase(f: Flags, c: char): (g: Flags)
    ensures g == f.(uppercase := f.uppercase || c == 'X')
  {
    if c == 'X' then f.(uppercase := true) else f
  }

  /** No plus or space flag for unsigned conversions. */
  function ForSign(f: Flags, c: char): (g: Flags)
    ensures g == f.(plus := f.plus && IsSigned(c), space := f.space && IsSigned(c))
  {
    if IsSigned(c) then f else f.(plus := false, space := false)
  }

  /** No zeros in front when a precision is given. */
  function ForPrecision(f: Flags): (g: Flags)
    ensures g == f.(zeropad := f.zeropad && !f.precision)
  {
    if f.precision then f.(zeropad := false) else f
  }

  /** The flags of an integer conversion after the specifier is known. */
  function IntFlags(f: Flags, c: char): (g: Flags)
    ensures g.left == f.left && g.zeropad == (f.zeropad && !f.precision) && g.precision == f.precision
    ensures g.hash == (f.hash && BaseOf(c) != 10) && g.uppercase == (f.uppercase || c == 'X')
    ensures g.plus == (f.plus && IsSigned(c)) && g.space == (f.space && IsSigned(c))
    ensures SameLength(f, g)
  {
    ForPrecision(ForSign(ForCase(ForBase(f, BaseOf(c)), c), c))
  }

  /** The number an integer conversion prints: its size and whether it is negative. */
  function Magnitude(v: int, f: Flags, c: char): nat {
    if IsSigned(c) then (if ToSigned(v, f) < 0 then Negative(ToSigned(v, f)) else ToSigned(v, f)) else Unsigned(v, f)
  }

  predicate IsNegative(v: int, f: Flags, c: char) {
    IsSigned(c) && ToSigned(v, f) < 0
  }

  function Padded(f: Flags, s: string, width: nat): string {
    var spaces := Repeat(' ', PrintfNumbers.Minus(width, |s|));
    if f.left then s + spaces else spaces + s
  }

  function Shortened(f: Flags, s: string, precision: nat): string {
    if f.precision && precision < |s| then s[..precision] else s
  }

  /** The low byte of an int as a character. */
  function ToChar(v: int): char {
    (v % TWO8) as char
  }

  function Convert(d: Directive, c: char): string {
    if IsInteger(c) then
      var f, v := IntFlags(d.flags, c), TakeInt(d.args);
      IntText(f, Magnitude(v, f, c), IsNegative(v, f, c), BaseOf(c), d.precision, d.width)
    else if c == 'c' then Padded(d.flags, [ToChar(TakeInt(d.args))], d.width)
    else if c == 's' then Padded(d.flags, Shortened(d.flags, TakeStr(d.args), d.precision), d.width)
    else if c == 'p' then
      IntText(d.flags.(zeropad := true, uppercase := true), TakeInt(d.args) % TWO64, false, 16, d.precision, 16)
    else [c]
  }

  function ArgsAfter(d: Directive, c: char): seq<Arg> {
    if IsInteger(c) || c == 'c' || c == 's' || c == 'p' then Others(d.args) else d.args
  }

  /** The text a format stands for. */
  function Text(s: string, args: seq<Arg>): string
    decreases |s|
  {
    if s == "" then ""
    else if s[0] != '%' then [s[0]] + Text(s[1..], args)
    else
      var d := ParseDirective(s[1..], args);
      if d.rest == "" then ""
      else Convert(d, d.rest[0]) + Text(d.rest[1..], ArgsAfter(d, d.rest[0]))
  }

  /** No terminator inside the format, no directive that is cut off by its end, and none for floating point. */
  predicate Whole(s: string, args: seq<Arg>)
    decreases |s|
  {
    if s == "" then true
    else if s[0] != '%' then s[0] != NUL && Whole(s[1..], args)
    else
      var d := ParseDirective(s[1..], args);
      d.rest != "" && d.rest[0] != NUL && !IsFloat(d.rest[0]) && Whole(d.rest[1..], ArgsAfter(d, d.rest[0]))
  }
}
