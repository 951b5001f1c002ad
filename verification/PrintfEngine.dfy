/** The printf engine as it runs: digits go backwards into a small buffer, characters go one by one to a sink that
    stores what fits, and the format pointer moves on (kernel/support/printf.c). */
module PrintfEngine {
  import opened PrintfNumbers
  import opened Printf

  class Printer {
    const buffer: array<char>
    const maxlen: nat
    /** The buffer is not NULL. */
    const toBuffer: bool
    var idx: nat
    /** All characters put out so far, and what the buffer held before. */
    ghost var text: string
    ghost const before: seq<char>

    ghost predicate Valid()
      reads this, buffer
    {
      maxlen <= buffer.Length == |before| && idx == |text| &&
      forall i :: 0 <= i < buffer.Length ==>
        buffer[i] == if toBuffer && i < idx && i < maxlen then text[i] else before[i]
    }

    constructor (buffer: array<char>, maxlen: nat, toBuffer: bool)
      requires maxlen <= buffer.Length
      ensures Valid() && this.buffer == buffer && this.maxlen == maxlen && this.toBuffer == toBuffer && text == "" &&
              before == buffer[..]
    {
      this.buffer, this.maxlen, this.toBuffer := buffer, maxlen, toBuffer;
      idx, text, before := 0, "", buffer[..];
    }

    /** out(c, buffer, idx++, maxlen) with _out_buffer or _out_null. */
    method Out(c: char)
      requires Valid()
      modifies this`idx, this`text, buffer
      ensures Valid() && text == old(text) + [c]
    {
      if toBuffer && idx < maxlen {
        buffer[idx] := c;
      }
      idx, text := idx + 1, text + [c];
    }

    /** Spaces from `from` up to the field width. */
    method OutSpaces(from: nat, width: nat)
      requires Valid()
      modifies this`idx, this`text, buffer
      ensures Valid() && text == old(text) + Repeat(' ', PrintfNumbers.Minus(width, from))
    {
      var i := from;
      while i < width
        invariant Valid() && from <= i && (i <= width || i == from)
        invariant text == old(text) + Repeat(' ', i - from)
      {
        Out(' ');
        i := i + 1;
      }
    }

    /** _out_rev */
    method OutRev(buf: array<char>, len: nat, width: nat, f: Flags)
      requires Valid() && buf != buffer && len <= buf.Length
      modifies this`idx, this`text, buffer
      ensures Valid() && text == old(text) + Field(f, buf[..len], width)
    {
      ghost var start, s := text, buf[..len];
      var startIdx := idx;
      if !f.left && !f.zeropad {
        OutSpaces(len, width);
      }
      ghost var front := text;
      var n := len;
      while n > 0
        invariant Valid() && 0 <= n <= len && buf[..len] == s
        invariant text == front + Reverse(s)[..len - n]
      {
        n := n - 1;
        Out(buf[n]);
      }
      assert Reverse(s)[..len] == Reverse(s);
      if f.left {
        ghost var k := 0;
        while idx - startIdx < width
          invariant Valid() && idx == startIdx + len + k && 0 <= k <= PrintfNumbers.Minus(width, len)
          invariant text == front + Reverse(s) + Repeat(' ', k)
        {
          Out(' ');
          k := k + 1;
        }
      }
      assert front == start + (if !f.left && !f.zeropad then Repeat(' ', PrintfNumbers.Minus(width, len)) else "");
    }

    /** The loops of _ntoa_format that pad with zeros. */
    method PadZeros(buf: array<char>, count: nat, prec: nat, width: nat, f: Flags) returns (len: nat)
      requires buf.Length == NTOA_SIZE && count <= NTOA_SIZE
      modifies buf
      ensures len == count + Zeros(f, count, prec, width) <= NTOA_SIZE
      ensures buf[..len] == old(buf[..count]) + Repeat('0', len - count)
    {
      len := count;
      if !f.left {
        while len < prec && len < NTOA_SIZE
          invariant count <= len <= count + PrintfNumbers.Minus(Min(prec, NTOA_SIZE), count)
          invariant buf[..len] == old(buf[..count]) + Repeat('0', len - count)
        {
          buf[len] := '0';
          assert buf[..len + 1] == buf[..len] + ['0'];
          len := len + 1;
        }
        ghost var filled := len;
        while f.zeropad && len < width && len < NTOA_SIZE
          invariant filled <= len <=
                    filled + (if f.zeropad then PrintfNumbers.Minus(Min(width, NTOA_SIZE), filled) else 0)
          invariant buf[..len] == old(buf[..count]) + Repeat('0', len - count)
        {
          buf[len] := '0';
          assert buf[..len + 1] == buf[..len] + ['0'];
          len := len + 1;
        }
      }
    }

    method Push(buf: array<char>, len: nat, c: char) returns (n: nat)
      requires buf.Length == NTOA_SIZE && len < NTOA_SIZE
      modifies buf
      ensures n == len + 1 && buf[..n] == old(buf[..len]) + [c]
    {
      buf[len] := c;
      n := len + 1;
      assert buf[..n] == buf[..len] + [c];
    }

    /** The part of _ntoa_format for '#'. */
    method AddHash(buf: array<char>, count: nat, base: nat, prec: nat, width: nat, f: Flags) returns (len: nat)
      requires buf.Length == NTOA_SIZE && count <= NTOA_SIZE
      modifies buf
      ensures len <= NTOA_SIZE && buf[..len] == Hashed(f, old(buf[..count]), base, prec, width)
    {
      len := count;
      if f.hash {
        if !f.precision && len > 0 && (len == prec || len == width) {
          len := len - 1;
          if len > 0 && base == 16 {
            len := len - 1;
          }
        }
        assert buf[..len] == buf[..count][..len];
        if base == 16 && !f.uppercase && len < NTOA_SIZE {
          len := Push(buf, len, 'x');
        } else if base == 16 && f.uppercase && len < NTOA_SIZE {
          len := Push(buf, len, 'X');
        } else if base == 2 && len < NTOA_SIZE {
          len := Push(buf, len, 'b');
        }
        if len < NTOA_SIZE {
          len := Push(buf, len, '0');
        }
      }
    }

    method AddSign(buf: array<char>, count: nat, negative: bool, f: Flags) returns (len: nat)
      requires buf.Length == NTOA_SIZE && count <= NTOA_SIZE
      modifies buf
      ensures len <= NTOA_SIZE && buf[..len] == Signed(f, old(buf[..count]), negative)
    {
      len := count;
      if len < NTOA_SIZE {
        if negative {
          len := Push(buf, len, '-');
        } else if f.plus {
          len := Push(buf, len, '+');
        } else if f.space {
          len := Push(buf, len, ' ');
        }
      }
    }

    /** Zeros, prefix and sign behind the digits. */
    method Format(buf: array<char>, count: nat, negative: bool, base: nat, prec: nat, width: nat,
                  f: Flags)
      returns (len: nat)
      requires buf.Length == NTOA_SIZE && count <= NTOA_SIZE
      modifies buf
      ensures len <= NTOA_SIZE && count + Zeros(f, count, prec, width) <= NTOA_SIZE
      ensures var padded := old(buf[..count]) + Repeat('0', Zeros(f, count, prec, width));
              buf[..len] == Signed(f, Hashed(f, padded, base, prec, width), negative)
    {
      len := PadZeros(buf, count, prec, width, f);
      len := AddHash(buf, len, base, prec, width, f);
      len := AddSign(buf, len, negative, f);
    }

    /** _ntoa_format */
    method NtoaFormat(buf: array<char>, count: nat, negative: bool, base: nat, prec: nat, fieldWidth: nat, f: Flags)
      requires Valid() && buf != buffer && buf.Length == NTOA_SIZE && count <= NTOA_SIZE
      modifies this`idx, this`text, buffer, buf
      ensures Valid()
      ensures text == old(text) + Field(f, Formatted(f, old(buf[..count]), negative, base, prec, fieldWidth),
                                        InnerWidth(f, negative, fieldWidth))
    {
      var width := fieldWidth;
      if !f.left {
        if width != 0 && f.zeropad && (negative || f.plus || f.space) {
          width := width - 1;
        }
      }
      var len := Format(buf, count, negative, base, prec, width, f);
      OutRev(buf, len, width, f);
    }

    /** _ntoa_long and _ntoa_long_long */
    method NtoaLong(number: nat, negative: bool, base: nat, prec: nat, width: nat, flags: Flags)
      requires Valid() && IsBase(base)
      modifies this`idx, this`text, buffer
      ensures Valid() && text == old(text) + IntText(flags, number, negative, base, prec, width)
    {
      var buf := new char[NTOA_SIZE];
      var f := if number == 0 then flags.(hash := false) else flags;
      var len := 0;
      if !f.precision || number != 0 {
        len := Digits(buf, number, base, f);
      }
      assert buf[..len] == DigitBuffer(f, number, base);
      NtoaFormat(buf, len, negative, base, prec, width, f);
    }

    /** The digits loop: the lowest digit first. */
    method Digits(buf: array<char>, number: nat, base: nat, f: Flags) returns (len: nat)
      requires buf.Length == NTOA_SIZE && IsBase(base)
      modifies buf
      ensures len <= NTOA_SIZE && buf[..len] == LowDigits(number, base, f.uppercase, NTOA_SIZE)
    {
      var value := number;
      len := 0;
      var more := true;
      NothingBefore(buf[..0], LowDigits(number, base, f.uppercase, NTOA_SIZE));
      while more
        invariant 0 <= len <= NTOA_SIZE && (more ==> len < NTOA_SIZE)
        invariant more ==>
                    LowDigits(number, base, f.uppercase, NTOA_SIZE) ==
                    buf[..len] + LowDigits(value, base, f.uppercase, NTOA_SIZE - len)
        invariant !more ==> LowDigits(number, base, f.uppercase, NTOA_SIZE) == buf[..len]
        decreases NTOA_SIZE - len, more
      {
        ghost var pre, room := buf[..len], NTOA_SIZE - len;
        var digit := Mod(value, base);
        var c := if digit < 10 then '0' + digit as char else (if f.uppercase then 'A' else 'a') + (digit - 10) as char;
        len := Push(buf, len, c);
        MoreDigits(pre, value, base, f.uppercase, room);
        value := Div(value, base);
        more := value != 0 && len < NTOA_SIZE;
      }
    }

    // ---------- _vsnprintf ----------

    /** The conversion of an integer. */
    method PutInteger(d: Directive, c: char)
      requires Valid() && IsInteger(c)
      modifies this`idx, this`text, buffer
      ensures Valid() && text == old(text) + Convert(d, c)
    {
      var f, base := EvalIntFlags(d.flags, c);
      var size, negative := EvalInteger(TakeInt(d.args), f, c);
      NtoaLong(size, negative, base, d.precision, d.width, f);
    }

    /** %c: spaces before or after one character. */
    method PutChar(f: Flags, width: nat, c: char)
      requires Valid()
      modifies this`idx, this`text, buffer
      ensures Valid() && text == old(text) + Padded(f, [c], width)
    {
      ghost var spaces := Repeat(' ', PrintfNumbers.Minus(width, 1));
      if !f.left {
        OutSpaces(1, width);
      }
      Out(c);
      if f.left {
        OutSpaces(1, width);
        assert old(text) + [c] + spaces == old(text) + ([c] + spaces);
      } else {
        assert old(text) + spaces + [c] == old(text) + (spaces + [c]);
      }
    }

    /** %s */
    method PutString(f: Flags, width: nat, maxCount: nat, str: string)
      requires Valid() && (f.precision || maxCount == 0)
      modifies this`idx, this`text, buffer
      ensures Valid() && text == old(text) + Padded(f, Shortened(f, str, maxCount), width)
    {
      ghost var shown := Shortened(f, str, maxCount);
      var l := if maxCount != 0 && maxCount < |str| then maxCount else |str|;
      if f.precision {
        l := if l < maxCount then l else maxCount;
      }
      ghost var spaces := Repeat(' ', PrintfNumbers.Minus(width, l));
      if !f.left {
        OutSpaces(l, width);
      }
      ghost var front := text;
      var p, precision := 0, maxCount;
      while p < |str| && (!f.precision || precision > 0)
        invariant Valid() && 0 <= p <= |str| && text == front + str[..p]
        invariant f.precision ==> 0 <= precision == maxCount - p
        decreases |str| - p
      {
        Out(str[p]);
        p := p + 1;
        if f.precision { precision := precision - 1; }
      }
      assert str[..p] == shown;
      if f.left {
        OutSpaces(l, width);
        assert old(text) + shown + spaces == old(text) + (shown + spaces);
      } else {
        assert old(text) + spaces + shown == old(text) + (spaces + shown);
      }
    }

    /** The conversion at a specifier. */
    method PutConversion(d: Directive, c: char)
      requires Valid() && !IsFloat(c) && (d.flags.precision || d.precision == 0)
      modifies this`idx, this`text, buffer
      ensures Valid() && text == old(text) + Convert(d, c)
    {
      if IsInteger(c) {
        PutInteger(d, c);
      } else if c == 'c' {
        PutChar(d.flags, d.width, ToChar(TakeInt(d.args)));
      } else if c == 's' {
        PutString(d.flags, d.width, d.precision, TakeStr(d.args));
      } else if c == 'p' {
        NtoaLong(TakeInt(d.args) % TWO64, false, 16, d.precision, 16, d.flags.(zeropad := true, uppercase := true));
      } else {
        Out(c);
      }
    }

    /** _vsnprintf: writes the text of the format, as far as it fits, and a terminator; returns the length of the
        text. */
    method Vsnprintf(format: string, arguments: seq<Arg>) returns (length: nat)
      requires Valid() && idx == 0 && Whole(format, arguments)
      modifies this`idx, this`text, buffer
      ensures length == |Text(format, arguments)|
      ensures toBuffer && maxlen > 0 ==>
                var n := Min(maxlen - 1, length);
                buffer[..n] == Text(format, arguments)[..n] && buffer[n] == NUL &&
                (forall i :: length < i < buffer.Length || maxlen <= i < buffer.Length ==> buffer[i] == before[i])
      ensures !toBuffer || maxlen == 0 ==> buffer[..] == before
    {
      var s, args := format, arguments;
      assert "" + Text(format, arguments) == Text(format, arguments);
      while s != ""
        invariant Valid() && Whole(s, args) && text + Text(s, args) == Text(format, arguments)
        decreases |s|
      {
        if s[0] != '%' {
          assert text + ([s[0]] + Text(s[1..], args)) == text + [s[0]] + Text(s[1..], args);
          Out(s[0]);
          s := s[1..];
          continue;
        }
        var d := EvalDirective(s[1..], args);
        ghost var t, later := Convert(d, d.rest[0]), Text(d.rest[1..], ArgsAfter(d, d.rest[0]));
        assert text + (t + later) == text + t + later;
        PutConversion(d, d.rest[0]);
        s, args := d.rest[1..], ArgsAfter(d, d.rest[0]);
      }
      assert text + "" == text;
      length := idx;
      Terminate();
    }

    /** The terminator goes behind the text, or over the last character that fits. */
    method Terminate()
      requires Valid()
      modifies buffer
      ensures toBuffer && maxlen > 0 ==>
                var n := Min(maxlen - 1, idx);
                buffer[..n] == text[..n] && buffer[n] == NUL &&
                (forall i :: idx < i < buffer.Length || maxlen <= i < buffer.Length ==> buffer[i] == before[i])
      ensures !toBuffer || maxlen == 0 ==> buffer[..] == before
    {
      if toBuffer {
        var at := if idx < maxlen then idx else maxlen - 1;
        if 0 <= at < maxlen {
          buffer[at] := NUL;
        }
      }
    }
  }

  lemma NothingBefore(s: string, t: string)
    requires |s| == 0
    ensures s + t == t
  {
  }

  lemma MoreDigits(pre: string, value: nat, base: nat, uppercase: bool, room: nat)
    requires IsBase(base) && room > 0
    ensures pre + LowDigits(value, base, uppercase, room)
         == pre + [DigitChar(Mod(value, base), uppercase)] +
            (if Div(value, base) == 0 || room == 1 then "" else LowDigits(Div(value, base), base, uppercase, room - 1))
  {
    var c := [DigitChar(Mod(value, base), uppercase)];
    var rest := if Div(value, base) == 0 then "" else LowDigits(Div(value, base), base, uppercase, room - 1);
    assert room == 1 ==> rest == "";
    assert LowDigits(value, base, uppercase, room) == c + rest;
    assert pre + (c + rest) == pre + c + rest;
  }

  // ---------- reading the format ----------

  /** The loop over the flags. */
  method EvalFlags(format: string) returns (f: Flags, s: string)
    ensures (f, s) == ParseFlags(format, NO_FLAGS)
  {
    f, s := NO_FLAGS, format;
    var n := 1;
    while n != 0
      invariant n == 0 ==> !IsFlag(At(s))
      invariant ParseFlags(s, f) == ParseFlags(format, NO_FLAGS)
      decreases |s|, n
    {
      n := 0;
      if IsFlag(At(s)) {
        f, s, n := SetFlag(f, s[0]), s[1..], 1;
      }
    }
  }

  /** _atoi */
  method Atoi(str: string) returns (i: nat, s: string)
    ensures (i, s) == ParseNumber(str, 0)
  {
    i, s := 0, str;
    while IsDigit(At(s))
      invariant ParseNumber(s, i) == ParseNumber(str, 0)
      decreases |s|
    {
      i, s := (i * 10 + (s[0] - '0') as nat) % TWO32, s[1..];
    }
  }

  /** Base and flags, when the specifier is known. */
  method EvalIntFlags(flags: Flags, c: char) returns (f: Flags, base: nat)
    requires IsInteger(c)
    ensures f == IntFlags(flags, c) && base == BaseOf(c)
  {
    base := 10;
    if c == 'x' || c == 'X' {
      base := 16;
    } else if c == 'o' {
      base := 8;
    } else if c == 'b' {
      base := 2;
    }
    f := ForBase(flags, base);
    f := ForCase(f, c);
    f := ForSign(f, c);
    f := ForPrecision(f);
  }

  /** The number and its sign. */
  method EvalInteger(arg: int, f: Flags, c: char) returns (size: nat, negative: bool)
    requires IsInteger(c)
    ensures size == Magnitude(arg, f, c) && negative == IsNegative(arg, f, c)
  {
    if c == 'i' || c == 'd' {
      var value := ToSigned(arg, f);
      size := if value > 0 then value else 0 - value;
      negative := value < 0;
    } else {
      size, negative := Unsigned(arg, f), false;
    }
  }

  /** The width field. */
  method EvalWidth(str: string, flags: Flags, args: seq<Arg>) returns (d: Directive)
    ensures d == ParseWidth(str, flags, args)
  {
    d := Directive(flags, 0, 0, str, args);
    if IsDigit(At(str)) {
      var width, s := Atoi(str);
      d := d.(width := width, rest := s);
    } else if At(str) == '*' {
      var w := ToSigned(TakeInt(args), NO_FLAGS);
      if w < 0 {
        d := d.(flags := flags.(left := true), width := 0 - w);
      } else {
        d := d.(width := w);
      }
      d := d.(rest := str[1..], args := Others(args));
    }
  }

  /** The precision field. */
  method EvalPrecision(d: Directive) returns (e: Directive)
    ensures e == ParsePrecision(d)
  {
    e := d;
    if At(d.rest) == '.' {
      e := e.(flags := e.flags.(precision := true), rest := d.rest[1..]);
      if IsDigit(At(e.rest)) {
        var precision, s := Atoi(e.rest);
        e := e.(precision := precision, rest := s);
      } else if At(e.rest) == '*' {
        var prec := ToSigned(TakeInt(e.args), NO_FLAGS);
        e := e.(precision := if prec > 0 then prec else 0, rest := e.rest[1..], args := Others(e.args));
      }
    }
  }

  /** Flags, width, precision and length. */
  method EvalDirective(str: string, args: seq<Arg>) returns (d: Directive)
    ensures d == ParseDirective(str, args)
  {
    var f, s := EvalFlags(str);
    d := EvalWidth(s, f, args);
    d := EvalPrecision(d);
    d := ParseLength(d);
  }
}
