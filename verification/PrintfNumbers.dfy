/** How printf turns an integer into text: digits generated backwards into a buffer of 32 characters, padding, sign;
    and what reading the text back gives (kernel/support/printf.c). */
module PrintfNumbers {

  /** PRINTF_NTOA_BUFFER_SIZE */
  const NTOA_SIZE := 32

  datatype Flags = Flags(zeropad: bool, left: bool, plus: bool, space: bool, hash: bool, uppercase: bool,
                         isChar: bool, isShort: bool, isLong: bool, isLongLong: bool, precision: bool)

  const NO_FLAGS := Flags(false, false, false, false, false, false, false, false, false, false, false)

  predicate IsBase(base: nat) {
    base == 2 || base == 8 || base == 10 || base == 16
  }

  function Mul(base: nat, n: nat): nat
    requires IsBase(base)
  {
    if base == 2 then 2 * n else if base == 8 then 8 * n else if base == 10 then 10 * n else 16 * n
  }

  function Div(n: nat, base: nat): nat
    requires IsBase(base)
  {
    if base == 2 then n / 2 else if base == 8 then n / 8 else if base == 10 then n / 10 else n / 16
  }

  function Mod(n: nat, base: nat): (r: nat)
    requires IsBase(base)
    ensures r < base && n == Mul(base, Div(n, base)) + r
  {
    if base == 2 then n % 2 else if base == 8 then n % 8 else if base == 10 then n % 10 else n % 16
  }

  // ---------- digits ----------

  function DigitChar(d: nat, uppercase: bool): char
    requires d < 16
  {
    if d < 10 then '0' + d as char else (if uppercase then 'A' else 'a') + (d - 10) as char
  }

  /** The value of a digit in either case; 16 for other characters. */
  function DigitValue(c: char): nat {
    if '0' <= c <= '9' then (c - '0') as nat
    else if 'a' <= c <= 'f' then (c - 'a') as nat + 10
    else if 'A' <= c <= 'F' then (c - 'A') as nat + 10
    else 16
  }

  predicate IsDigitOf(c: char, base: nat) {
    DigitValue(c) < base <= 16
  }

  lemma DigitRead(d: nat, uppercase: bool)
    requires d < 16
    ensures DigitValue(DigitChar(d, uppercase)) == d
  {
  }

  /** The digits of a number, the lowest first, at most `room` of them, at least one if there is room. */
  function LowDigits(value: nat, base: nat, uppercase: bool, room: nat): (s: string)
    requires IsBase(base)
    ensures |s| <= room && (room > 0 ==> |s| > 0)
    decreases room
  {
    if room == 0 then ""
    else
      var q := Div(value, base);
      [DigitChar(Mod(value, base), uppercase)] + (if q == 0 then "" else LowDigits(q, base, uppercase, room - 1))
  }

  /** The number that digits spell, the lowest first. */
  function LowValue(s: string, base: nat): nat
    requires IsBase(base)
  {
    if s == "" then 0 else DigitValue(s[0]) + Mul(base, LowValue(s[1..], base))
  }

  /** The number has at most `room` digits. */
  predicate Fits(value: nat, base: nat, room: nat)
    requires IsBase(base)
    decreases room
  {
    if room == 0 then value == 0 else Fits(Div(value, base), base, room - 1)
  }

  lemma {:induction false} DigitsValue(value: nat, base: nat, uppercase: bool, room: nat)
    requires IsBase(base)
    ensures LowValue(LowDigits(value, base, uppercase, room), base) <= value
    ensures LowValue(LowDigits(value, base, uppercase, room), base) == value <==> Fits(value, base, room)
    decreases room
  {
    if room > 0 {
      var q := Div(value, base);
      var rest := if q == 0 then "" else LowDigits(q, base, uppercase, room - 1);
      OneDigit(value, base, uppercase, rest);
      if q == 0 {
        ZeroFits(base, room - 1);
      } else {
        DigitsValue(q, base, uppercase, room - 1);
      }
    }
  }

  lemma OneDigit(value: nat, base: nat, uppercase: bool, rest: string)
    requires IsBase(base)
    ensures LowValue([DigitChar(Mod(value, base), uppercase)] + rest, base) ==
            Mod(value, base) + Mul(base, LowValue(rest, base))
  {
    DigitRead(Mod(value, base), uppercase);
    assert ([DigitChar(Mod(value, base), uppercase)] + rest)[1..] == rest;
  }

  lemma {:induction false} DigitsAreDigits(value: nat, base: nat, uppercase: bool, room: nat)
    requires IsBase(base)
    ensures AllDigits(LowDigits(value, base, uppercase, room), base)
    decreases room
  {
    if room > 0 {
      DigitRead(Mod(value, base), uppercase);
      if Div(value, base) != 0 { DigitsAreDigits(Div(value, base), base, uppercase, room - 1); }
    }
  }

  lemma {:induction false} ZeroFits(base: nat, room: nat)
    requires IsBase(base)
    ensures Fits(0, base, room)
    decreases room
  {
    if room > 0 { ZeroFits(base, room - 1); }
  }

  // ---------- padding and sign ----------

  function Repeat(c: char, n: nat): (s: string)
    ensures |s| == n && forall i :: 0 <= i < n ==> s[i] == c
  {
    seq(n, i => c)
  }

  function Minus(a: int, b: int): nat {
    if a > b then a - b else 0
  }

  function Min(a: int, b: int): int {
    if a < b then a else b
  }

  /** The field width without the place for a sign, when it is to be filled with zeros. */
  function InnerWidth(f: Flags, negative: bool, width: nat): nat {
    if !f.left && width > 0 && f.zeropad && (negative || f.plus || f.space) then width - 1 else width
  }

  /** The zeros that are appended to the buffer. */
  function Zeros(f: Flags, len: nat, prec: nat, innerWidth: nat): nat {
    if f.left then 0
    else
      var filled := len + Minus(Min(prec, NTOA_SIZE), len);
      filled - len + (if f.zeropad then Minus(Min(innerWidth, NTOA_SIZE), filled) else 0)
  }

  /** The prefix for '#'. */
  function Hashed(f: Flags, s: string, base: nat, prec: nat, innerWidth: nat): (r: string)
    requires |s| <= NTOA_SIZE
    ensures |r| <= NTOA_SIZE
  {
    if !f.hash then s
    else
      var len := |s|;
      var drop := if !f.precision && len > 0 && (len == prec || len == innerWidth) then
                    (if len > 1 && base == 16 then 2 else 1)
                  else 0;
      var t := s[..len - drop];
      var u := if base == 16 && |t| < NTOA_SIZE then t + [if f.uppercase then 'X' else 'x']
               else if base == 2 && |t| < NTOA_SIZE then t + ['b'] else t;
      if |u| < NTOA_SIZE then u + ['0'] else u
  }

  function Signed(f: Flags, s: string, negative: bool): (r: string)
    requires |s| <= NTOA_SIZE
    ensures |r| <= NTOA_SIZE
  {
    if |s| == NTOA_SIZE then s
    else if negative then s + ['-'] else if f.plus then s + ['+'] else if f.space then s + [' '] else s
  }

  function Reverse(s: string): (r: string)
    ensures |r| == |s| && forall i :: 0 <= i < |s| ==> r[i] == s[|s| - 1 - i]
  {
    seq(|s|, i requires 0 <= i < |s| => s[|s| - 1 - i])
  }

  /** A buffer, the last character first, in a field. */
  function Field(f: Flags, s: string, width: nat): string {
    (if !f.left && !f.zeropad then Repeat(' ', Minus(width, |s|)) else "") + Reverse(s) +
    (if f.left then Repeat(' ', Minus(width, |s|)) else "")
  }

  /** The buffer that is put into the field, lowest digit first. */
  function Formatted(f: Flags, digits: string, negative: bool, base: nat, prec: nat, width: nat): (r: string)
    requires |digits| <= NTOA_SIZE
    ensures |r| <= NTOA_SIZE
  {
    var inner := InnerWidth(f, negative, width);
    var padded := digits + Repeat('0', Zeros(f, |digits|, prec, inner));
    Signed(f, Hashed(f, padded, base, prec, inner), negative)
  }

  /** The digits of a value; none for 0 when a precision is given. */
  function DigitBuffer(f: Flags, value: nat, base: nat): (s: string)
    requires IsBase(base)
    ensures |s| <= NTOA_SIZE
  {
    if f.precision && value == 0 then "" else LowDigits(value, base, f.uppercase, NTOA_SIZE)
  }

  /** What an integer conversion prints. */
  function IntText(f: Flags, value: nat, negative: bool, base: nat, prec: nat, width: nat): string
    requires IsBase(base)
  {
    var g := if value == 0 then f.(hash := false) else f;
    Field(g, Formatted(g, DigitBuffer(g, value, base), negative, base, prec, width), InnerWidth(g, negative, width))
  }

  // ---------- reading back ----------

  /** The number that digits spell, the highest first, after those that spell acc. */
  function Horner(t: string, base: nat, acc: nat): nat
    requires IsBase(base)
  {
    if t == "" then acc else Horner(t[1..], base, Mul(base, acc) + DigitValue(t[0]))
  }

  /** Digits as far as there are any. */
  function ReadDigits(t: string, base: nat, acc: nat): nat
    requires IsBase(base)
  {
    if t == "" || !IsDigitOf(t[0], base) then acc else ReadDigits(t[1..], base, Mul(base, acc) + DigitValue(t[0]))
  }

  function Negated(n: int): int {
    -n
  }

  /** Spaces, a sign, digits. */
  function ReadInt(t: string, base: nat): int
    requires IsBase(base)
  {
    if t == "" then 0
    else if t[0] == ' ' then ReadInt(t[1..], base)
    else if t[0] == '-' then Negated(ReadDigits(t[1..], base, 0))
    else if t[0] == '+' then ReadDigits(t[1..], base, 0)
    else ReadDigits(t, base, 0)
  }

  predicate AllDigits(s: string, base: nat) {
    forall i :: 0 <= i < |s| ==> IsDigitOf(s[i], base)
  }

  lemma {:induction false} HornerAppend(t: string, c: char, base: nat, acc: nat)
    requires IsBase(base)
    ensures Horner(t + [c], base, acc) == Mul(base, Horner(t, base, acc)) + DigitValue(c)
    decreases |t|
  {
    if t == "" {
      assert t + [c] == [c] && [c][1..] == "";
    } else {
      assert (t + [c])[1..] == t[1..] + [c];
      HornerAppend(t[1..], c, base, Mul(base, acc) + DigitValue(t[0]));
    }
  }

  lemma {:induction false} HornerReverse(s: string, base: nat)
    requires IsBase(base)
    ensures Horner(Reverse(s), base, 0) == LowValue(s, base)
  {
    if s != "" {
      assert Reverse(s) == Reverse(s[1..]) + [s[0]];
      HornerReverse(s[1..], base);
      HornerAppend(Reverse(s[1..]), s[0], base, 0);
    }
  }

  lemma {:induction false} ReadAll(t: string, tail: string, base: nat, acc: nat)
    requires IsBase(base) && AllDigits(t, base) && (tail == "" || !IsDigitOf(tail[0], base))
    ensures ReadDigits(t + tail, base, acc) == Horner(t, base, acc)
    decreases |t|
  {
    if t == "" {
      assert t + tail == tail;
    } else {
      assert (t + tail)[1..] == t[1..] + tail;
      ReadAll(t[1..], tail, base, Mul(base, acc) + DigitValue(t[0]));
    }
  }

  lemma {:induction false} ReadSpaces(n: nat, t: string, base: nat)
    requires IsBase(base)
    ensures ReadInt(Repeat(' ', n) + t, base) == ReadInt(t, base)
  {
    if n == 0 {
      assert Repeat(' ', 0) + t == t;
    } else {
      assert (Repeat(' ', n) + t)[1..] == Repeat(' ', n - 1) + t;
      ReadSpaces(n - 1, t, base);
    }
  }

  /** Zeros in front do not change the number. */
  lemma {:induction false} ZerosInFront(s: string, n: nat, base: nat)
    requires IsBase(base)
    ensures LowValue(s + Repeat('0', n), base) == LowValue(s, base)
    decreases |s|, n
  {
    if s != "" {
      assert (s + Repeat('0', n))[1..] == s[1..] + Repeat('0', n);
      ZerosInFront(s[1..], n, base);
    } else if n > 0 {
      assert (s + Repeat('0', n))[1..] == s + Repeat('0', n - 1);
      ZerosInFront(s, n - 1, base);
    } else {
      assert s + Repeat('0', 0) == "";
    }
  }

  /** Reading back what a field shows. */
  lemma ReadField(f: Flags, digits: string, negative: bool, base: nat, width: nat)
    requires IsBase(base) && AllDigits(digits, base) && |digits| <= NTOA_SIZE
    ensures ReadInt(Field(f, Signed(f, digits, negative), width), base)
         == if negative && |digits| < NTOA_SIZE then Negated(LowValue(digits, base)) else LowValue(digits, base)
  {
    var s := Signed(f, digits, negative);
    var front := if !f.left && !f.zeropad then Minus(width, |s|) else 0;
    var back := if f.left then Repeat(' ', Minus(width, |s|)) else "";
    HornerReverse(digits, base);
    ReadAll(Reverse(digits), back, base, 0);
    assert Repeat(' ', 0) == "";
    assert Field(f, s, width) == Repeat(' ', front) + (Reverse(s) + back);
    ReadSpaces(front, Reverse(s) + back, base);
    if s == digits {
      ReadUnsigned(Reverse(digits), back, base);
    } else {
      ReadSigned(digits, s[|s| - 1], back, base);
    }
  }

  lemma ReadSigned(digits: string, sign: char, back: string, base: nat)
    requires IsBase(base) && AllDigits(digits, base) && forall i :: 0 <= i < |back| ==> back[i] == ' '
    requires sign == '-' || sign == '+' || sign == ' '
    ensures var n := ReadDigits(Reverse(digits) + back, base, 0);
            ReadInt(Reverse(digits + [sign]) + back, base) == if sign == '-' then Negated(n) else n
  {
    var t := Reverse(digits);
    assert Reverse(digits + [sign]) == [sign] + t;
    assert [sign] + t + back == [sign] + (t + back);
    assert ([sign] + (t + back))[1..] == t + back;
    if sign == ' ' { ReadUnsigned(t, back, base); }
  }

  lemma ReadUnsigned(t: string, back: string, base: nat)
    requires IsBase(base) && AllDigits(t, base) && forall i :: 0 <= i < |back| ==> back[i] == ' '
    ensures ReadInt(t + back, base) == ReadDigits(t + back, base, 0)
  {
    if t == "" {
      assert t + back == back;
      ReadBlanks(back, base);
    } else {
      assert IsDigitOf((t + back)[0], base);
    }
  }

  lemma {:induction false} ReadBlanks(back: string, base: nat)
    requires IsBase(base) && forall i :: 0 <= i < |back| ==> back[i] == ' '
    ensures ReadInt(back, base) == 0 == ReadDigits(back, base, 0)
  {
    if back != "" { ReadBlanks(back[1..], base); }
  }

  /** The length of the number with its zeros, before the sign. */
  function PaddedLength(f: Flags, value: nat, negative: bool, base: nat, prec: nat, width: nat): nat
    requires IsBase(base)
  {
    var len := |DigitBuffer(f, value, base)|;
    len + Zeros(f, len, prec, InnerWidth(f, negative, width))
  }

  /** Reading back what an integer conversion prints. */
  lemma ReadText(f: Flags, value: nat, negative: bool, base: nat, prec: nat, width: nat)
    requires IsBase(base) && !f.hash
    ensures ReadInt(IntText(f, value, negative, base, prec, width), base)
         == (var v := LowValue(DigitBuffer(f, value, base), base);
             if negative && PaddedLength(f, value, negative, base, prec, width) < NTOA_SIZE then Negated(v) else v)
  {
    var digits := DigitBuffer(f, value, base);
    var inner := InnerWidth(f, negative, width);
    var n := Zeros(f, |digits|, prec, inner);
    DigitsAreDigits(value, base, f.uppercase, NTOA_SIZE);
    ZerosInFront(digits, n, base);
    ZerosAreDigits(digits, n, base);
    FormattedPlain(f, digits, negative, base, prec, width);
    ReadField(f, digits + Repeat('0', n), negative, base, inner);
  }

  lemma ZerosAreDigits(s: string, n: nat, base: nat)
    requires IsBase(base) && AllDigits(s, base)
    ensures AllDigits(s + Repeat('0', n), base)
  {
    assert IsDigitOf('0', base);
  }

  lemma FormattedPlain(f: Flags, digits: string, negative: bool, base: nat, prec: nat, width: nat)
    requires !f.hash && |digits| <= NTOA_SIZE
    ensures f.(hash := false) == f
    ensures var n := Zeros(f, |digits|, prec, InnerWidth(f, negative, width));
            |digits| + n <= NTOA_SIZE &&
            Formatted(f, digits, negative, base, prec, width) == Signed(f, digits + Repeat('0', n), negative)
  {
  }

  lemma DigitBufferValue(f: Flags, value: nat, base: nat)
    requires IsBase(base)
    ensures LowValue(DigitBuffer(f, value, base), base) <= value
    ensures LowValue(DigitBuffer(f, value, base), base) == value <==> Fits(value, base, NTOA_SIZE)
  {
    DigitsValue(value, base, f.uppercase, NTOA_SIZE);
    ZeroFits(base, NTOA_SIZE);
  }

  /** Without '#', a printed integer reads back as itself exactly if its digits fit the buffer of 32 characters and,
      when it is negative, digits and zeros leave room for the sign. */
  lemma ParseBack(f: Flags, value: nat, negative: bool, base: nat, prec: nat, width: nat)
    requires IsBase(base) && !f.hash && (negative ==> value > 0)
    ensures ReadInt(IntText(f, value, negative, base, prec, width), base) ==
            (if negative then Negated(value) else value) <==>
            Fits(value, base, NTOA_SIZE) &&
            (negative ==> PaddedLength(f, value, negative, base, prec, width) < NTOA_SIZE)
  {
    ReadText(f, value, negative, base, prec, width);
    DigitBufferValue(f, value, base);
  }

  function Pow2(n: nat): nat {
    if n == 0 then 1 else 2 * Pow2(n - 1)
  }

  /** A number below 2^bits has few digits: at least three bits go into each. */
  lemma {:induction false} FewDigits(value: nat, base: nat, uppercase: bool, bits: nat, room: nat, size: nat)
    requires IsBase(base) && base >= 8 && value < Pow2(bits) && bits <= 3 * room && room > 0
    ensures Fits(value, base, room) && |LowDigits(value, base, uppercase, size)| <= room
    decreases room
  {
    var q := Div(value, base);
    if bits >= 3 {
      assert Pow2(bits) == 2 * Pow2(bits - 1) && Pow2(bits - 1) == 2 * Pow2(bits - 2) &&
        Pow2(bits - 2) == 2 * Pow2(bits - 3);
    }
    assert q < if bits >= 3 then Pow2(bits - 3) else 1;
    if room == 1 {
      assert bits <= 3 && q == 0;
    } else {
      var left := if bits >= 3 then bits - 3 else 0;
      FewDigits(q, base, uppercase, left, room - 1, if size > 0 then size - 1 else 0);
    }
  }
}
