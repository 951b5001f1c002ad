/** Base64 as in RFC 4648 sections 3.5, 4 and 5, and the decoder of the development interface, which accepts exactly the
    canonical texts (kernel/net/avs_dev_api.c). */
module Base64 {
  import opened Bytes

  datatype Variant = Std | UrlSafe | Imap

  const PAD: byte := 61

  /** A group of six bits. */
  type sextet = x: int | 0 <= x < 64

  // ---------- the alphabet ----------

  function Char62(v: Variant): byte {
    if v == UrlSafe then 45 else 43
  }

  function Char63(v: Variant): byte {
    match v
    case Std => 47
    case UrlSafe => 95
    case Imap => 44
  }

  /** base64_tables */
  function Letter(v: Variant, i: sextet): (c: byte)
    ensures Reverse(v, c) == i
  {
    if i < 26 then 65 + i else if i < 52 then 97 + (i - 26) else if i < 62 then 48 + (i - 52)
    else if i == 62 then Char62(v) else Char63(v)
  }

  /** base64_rev_maps */
  function Reverse(v: Variant, c: byte): (i: int)
    ensures -1 <= i < 64
  {
    if 65 <= c <= 90 then c - 65 else if 97 <= c <= 122 then c - 97 + 26 else if 48 <= c <= 57 then c - 48 + 52
    else if c == Char62(v) then 62 else if c == Char63(v) then 63 else -1
  }

  lemma ReverseIsLetter(v: Variant, c: byte)
    ensures Reverse(v, c) >= 0 ==> Letter(v, Reverse(v, c)) == c
    ensures Reverse(v, PAD) == -1
  {
  }

  /** The alphabets as they are printed (tables 1 and 2 of RFC 4648, and section 5.1.3 of RFC 3501). */
  function Alphabet(v: Variant): (s: string)
    ensures |s| == 64
  {
    "ABCDEFGHIJKLMNOPQRSTUVWXYZ" + "abcdefghijklmnopqrstuvwxyz" + "0123456789" +
    if v == Std then "+/" else if v == UrlSafe then "-_" else "+,"
  }

  /** Letter i of the tables is letter i of the alphabet. */
  lemma LetterIsPrinted(v: Variant, i: sextet)
    ensures Letter(v, i) == Alphabet(v)[i] as int
  {
    var last := if v == Std then "+/" else if v == UrlSafe then "-_" else "+,";
    FourParts("ABCDEFGHIJKLMNOPQRSTUVWXYZ", "abcdefghijklmnopqrstuvwxyz", "0123456789", last, i);
    if i < 26 { UpperCase(i); } else if i < 52 { LowerCase(i - 26); } else if i < 62 { Figure(i - 52); }
  }

  lemma FourParts(a: string, b: string, c: string, d: string, i: nat)
    requires |a| == |b| == 26 && |c| == 10 && i < 62 + |d|
    ensures (a + b + c + d)[i] ==
            if i < 26 then a[i] else if i < 52 then b[i - 26] else if i < 62 then c[i - 52] else d[i - 62]
  {
  }

  lemma UpperCase(i: nat)
    requires i < 26
    ensures "ABCDEFGHIJKLMNOPQRSTUVWXYZ"[i] as int == 65 + i
  {
  }

  lemma LowerCase(i: nat)
    requires i < 26
    ensures "abcdefghijklmnopqrstuvwxyz"[i] as int == 97 + i
  {
  }

  lemma Figure(i: nat)
    requires i < 10
    ensures "0123456789"[i] as int == 48 + i
  {
  }

  // ---------- the encoder of the RFC ----------

  /** The four groups of six bits in three bytes. */
  function Group0(x: byte): sextet {
    x / 4
  }

  function Group1(x: byte, y: byte): sextet {
    var low: int := x % 4;
    low * 16 + y / 16
  }

  function Group2(y: byte, z: byte): sextet {
    var low: int := y % 16;
    low * 4 + z / 64
  }

  function Group3(z: byte): sextet {
    z % 64
  }

  /** The three bytes in four groups. */
  function Byte0(a: sextet, b: sextet): byte {
    var high: int := a;
    high * 4 + b / 16
  }

  function Byte1(b: sextet, c: sextet): byte {
    var high: int := b % 16;
    high * 16 + c / 4
  }

  function Byte2(c: sextet, d: sextet): byte {
    var high: int := c % 4;
    high * 64 + d
  }

  lemma Split16(high: nat, low: nat)
    requires low < 16
    ensures (high * 16 + low) / 16 == high && (high * 16 + low) % 16 == low
  {
  }

  lemma Split4(high: nat, low: nat)
    requires low < 4
    ensures (high * 4 + low) / 4 == high && (high * 4 + low) % 4 == low
  {
  }

  lemma Split64(high: nat, low: nat)
    requires low < 64
    ensures (high * 64 + low) / 64 == high && (high * 64 + low) % 64 == low
  {
  }

  /** Bytes from groups from bytes. */
  lemma BytesBack(x: byte, y: byte, z: byte)
    ensures Byte0(Group0(x), Group1(x, y)) == x && Byte1(Group1(x, y), Group2(y, z)) == y &&
            Byte2(Group2(y, z), Group3(z)) == z
  {
    Split16(x % 4, y / 16);
    Split4(y % 16, z / 64);
  }

  /** Groups from bytes from groups. */
  lemma GroupsBack(a: sextet, b: sextet, c: sextet, d: sextet)
    ensures Group0(Byte0(a, b)) == a && Group1(Byte0(a, b), Byte1(b, c)) == b
    ensures Group2(Byte1(b, c), Byte2(c, d)) == c && Group3(Byte2(c, d)) == d
  {
    Split4(a, b / 16);
    Split16(b % 16, c / 4);
    Split64(c % 4, d);
  }

  function Padding(padding: bool, n: nat): (s: seq<byte>)
    ensures |s| == if padding then n else 0
  {
    if padding then seq(n, i => PAD) else []
  }

  function Encode(s: seq<byte>, padding: bool, v: Variant): seq<byte> {
    if |s| == 0 then []
    else if |s| == 1 then [Letter(v, Group0(s[0])), Letter(v, Group1(s[0], 0))] + Padding(padding, 2)
    else if |s| == 2 then
      [Letter(v, Group0(s[0])), Letter(v, Group1(s[0], s[1])), Letter(v, Group2(s[1], 0))] + Padding(padding, 1)
    else Quad(v, s[0], s[1], s[2]) + Encode(s[3..], padding, v)
  }

  function Quad(v: Variant, x: byte, y: byte, z: byte): (q: seq<byte>)
    ensures |q| == 4
  {
    [Letter(v, Group0(x)), Letter(v, Group1(x, y)), Letter(v, Group2(y, z)), Letter(v, Group3(z))]
  }

  // ---------- the decoder ----------

  /** What the letters of a text say, six bits each with the highest first, is what the bytes say, eight bits each with
      the highest first; one or two last bytes are followed by zero bits, and by two or one pad characters. */
  lemma EncodedBits(s: seq<byte>, padding: bool, v: Variant)
    ensures var e := Encode(s, padding, v);
            (s == [] ==> e == []) &&
            (|s| == 1 ==> |e| == (if padding then 4 else 2) &&
                          0x40 * Reverse(v, e[0]) + Reverse(v, e[1]) == 0x10 * (s[0] as int) &&
                          (padding ==> e[2..] == [61, 61])) &&
            (|s| == 2 ==> |e| == (if padding then 4 else 3) &&
                          0x1000 * Reverse(v, e[0]) + 0x40 * Reverse(v, e[1]) + Reverse(v, e[2])
                          == 0x400 * (s[0] as int) + 4 * (s[1] as int) &&
                          (padding ==> e[3..] == [61])) &&
            (|s| >= 3 ==> |e| >= 4 && e[4..] == Encode(s[3..], padding, v) &&
                          0x4_0000 * Reverse(v, e[0]) + 0x1000 * Reverse(v, e[1]) + 0x40 * Reverse(v, e[2]) +
                          Reverse(v, e[3]) == 0x1_0000 * (s[0] as int) + 0x100 * (s[1] as int) + s[2])
  {
    hide Letter, Reverse, Group0, Group1, Group2, Group3;
    if |s| == 1 {
      GroupBits(s[0], 0, 0);
    } else if |s| == 2 {
      GroupBits(s[0], s[1], 0);
    } else if |s| >= 3 {
      GroupBits(s[0], s[1], s[2]);
      assert (Quad(v, s[0], s[1], s[2]) + Encode(s[3..], padding, v))[4..] == Encode(s[3..], padding, v);
    }
  }

  lemma GroupBits(x: byte, y: byte, z: byte)
    ensures 0x4_0000 * (Group0(x) as int) + 0x1000 * (Group1(x, y) as int) + 0x40 * (Group2(y, z) as int) + Group3(z)
         == 0x1_0000 * (x as int) + 0x100 * (y as int) + z
    ensures Group3(0) == 0 && (z == 0 ==> Group3(z) == 0) && (y == 0 && z == 0 ==> Group2(y, z) == 0)
  {
    assert x == 4 * (x / 4) + x % 4 && y == 16 * (y / 16) + y % 16 && z == 64 * (z / 64) + z % 64;
  }

  datatype Decoded = Bytes(data: seq<byte>) | Invalid

  /** A last group of two or three characters, without its padding. */
  function DecodeTail(s: seq<byte>, v: Variant): Decoded
    requires |s| == 2 || |s| == 3
  {
    if |s| == 2 then LastTwo(Reverse(v, s[0]), Reverse(v, s[1]))
    else LastThree(Reverse(v, s[0]), Reverse(v, s[1]), Reverse(v, s[2]))
  }

  /** The bits that are left over must be zero. */
  function LastTwo(a: int, b: int): Decoded
    requires a < 64 && b < 64
  {
    if a < 0 || b < 0 || b % 16 != 0 then Invalid else Bytes([Byte0(a, b)])
  }

  function LastThree(a: int, b: int, c: int): Decoded
    requires a < 64 && b < 64 && c < 64
  {
    if a < 0 || b < 0 || c < 0 || c % 4 != 0 then Invalid else Bytes([Byte0(a, b), Byte1(b, c)])
  }

  function After(front: seq<byte>, d: Decoded): Decoded {
    if d == Invalid then Invalid else Bytes(front + d.data)
  }

  predicate AllLetters(s: seq<byte>, v: Variant)
    requires |s| >= 4
  {
    Reverse(v, s[0]) >= 0 && Reverse(v, s[1]) >= 0 && Reverse(v, s[2]) >= 0 && Reverse(v, s[3]) >= 0
  }

  function Unquad(v: Variant, s: seq<byte>): (t: seq<byte>)
    requires |s| >= 4 && AllLetters(s, v)
    ensures |t| == 3
  {
    var a, b, c, d := Reverse(v, s[0]), Reverse(v, s[1]), Reverse(v, s[2]), Reverse(v, s[3]);
    [Byte0(a, b), Byte1(b, c), Byte2(c, d)]
  }

  function Decode(s: seq<byte>, padding: bool, v: Variant): Decoded {
    if |s| >= 4 then
      if AllLetters(s, v) then
        After(Unquad(v, s), Decode(s[4..], padding, v))
      else if !padding || |s| != 4 || s[3] != PAD then Invalid
      else DecodeTail(s[..if s[2] == PAD then 2 else 3], v)
    else if |s| == 0 then Bytes([])
    else if padding || |s| == 1 then Invalid
    else DecodeTail(s, v)
  }

  /** How many bytes the decoder writes: an invalid last group may have cost a byte before it is seen to be invalid. */
  function Written(s: seq<byte>, padding: bool, v: Variant): nat {
    if |s| >= 4 then
      if AllLetters(s, v) then 3 + Written(s[4..], padding, v)
      else if !padding || |s| != 4 || s[3] != PAD then 0
      else TailWritten(s[..if s[2] == PAD then 2 else 3], v)
    else if |s| == 0 || padding || |s| == 1 then 0
    else TailWritten(s, v)
  }

  function TailWritten(s: seq<byte>, v: Variant): nat
    requires |s| == 2 || |s| == 3
  {
    var d := DecodeTail(s, v);
    if d.Bytes? then |d.data| else 1
  }

  /** For a valid text it writes what the text decodes to and no more. */
  lemma {:induction false} WrittenIsData(s: seq<byte>, padding: bool, v: Variant)
    requires Decode(s, padding, v).Bytes?
    ensures Written(s, padding, v) == |Decode(s, padding, v).data|
  {
    if |s| >= 4 && AllLetters(s, v) { WrittenIsData(s[4..], padding, v); }
  }

  lemma LettersAreNotPad(v: Variant, i: sextet)
    ensures Letter(v, i) != PAD
  {
    ReverseIsLetter(v, PAD);
  }

  /** The letters of four groups have these groups. */
  lemma UnquadLetters(v: Variant, a: sextet, b: sextet, c: sextet, d: sextet, rest: seq<byte>)
    ensures var s := [Letter(v, a), Letter(v, b), Letter(v, c), Letter(v, d)] + rest;
            AllLetters(s, v) && Unquad(v, s) == [Byte0(a, b), Byte1(b, c), Byte2(c, d)] && s[4..] == rest
  {
  }

  lemma QuadUnquad(v: Variant, s: seq<byte>)
    requires |s| >= 4 && AllLetters(s, v)
    ensures var t := Unquad(v, s); Quad(v, t[0], t[1], t[2]) == s[..4]
  {
    GroupsBack(Reverse(v, s[0]), Reverse(v, s[1]), Reverse(v, s[2]), Reverse(v, s[3]));
    forall k | 0 <= k < 4 ensures Letter(v, Reverse(v, s[k])) == s[k] { ReverseIsLetter(v, s[k]); }
  }

  /** Decoding undoes encoding. */
  lemma {:induction false} DecodeEncode(s: seq<byte>, padding: bool, v: Variant)
    ensures Decode(Encode(s, padding, v), padding, v) == Bytes(s)
  {
    if |s| >= 3 {
      DecodeEncode(s[3..], padding, v);
      BytesBack(s[0], s[1], s[2]);
      UnquadLetters(v, Group0(s[0]), Group1(s[0], s[1]), Group2(s[1], s[2]), Group3(s[2]), Encode(s[3..], padding, v));
      assert [s[0], s[1], s[2]] + s[3..] == s;
    } else if |s| > 0 {
      DecodeShort(s, padding, v);
    }
  }

  lemma DecodeShort(s: seq<byte>, padding: bool, v: Variant)
    requires |s| == 1 || |s| == 2
    ensures Decode(Encode(s, padding, v), padding, v) == Bytes(s)
  {
    var text := Encode(s, padding, v);
    var front := text[..|s| + 1];
    ReverseIsLetter(v, PAD);
    if |s| == 1 {
      TailOfLetters(v, Group0(s[0]), Group1(s[0], 0), 0);
      LastTwoOf(s[0]);
      assert front == [Letter(v, Group0(s[0])), Letter(v, Group1(s[0], 0))];
      assert padding ==> text[2] == PAD && text[3] == PAD;
      assert !padding ==> text == front;
    } else {
      TailOfLetters(v, Group0(s[0]), Group1(s[0], s[1]), Group2(s[1], 0));
      LastThreeOf(s[0], s[1]);
      assert front == [Letter(v, Group0(s[0])), Letter(v, Group1(s[0], s[1])), Letter(v, Group2(s[1], 0))];
      LettersAreNotPad(v, Group2(s[1], 0));
      assert padding ==> text[3] == PAD;
      assert !padding ==> text == front;
    }
  }

  /** The values of the letters of a last group. */
  lemma TailOfLetters(v: Variant, a: sextet, b: sextet, c: sextet)
    ensures DecodeTail([Letter(v, a), Letter(v, b)], v) == LastTwo(a, b)
    ensures DecodeTail([Letter(v, a), Letter(v, b), Letter(v, c)], v) == LastThree(a, b, c)
  {
  }

  lemma LastTwoOf(x: byte)
    ensures LastTwo(Group0(x), Group1(x, 0)) == Bytes([x])
  {
    Byte0Back(x, 0);
    Group1Low(x);
  }

  lemma LastThreeOf(x: byte, y: byte)
    ensures LastThree(Group0(x), Group1(x, y), Group2(y, 0)) == Bytes([x, y])
  {
    BytesBack(x, y, 0);
    Group2Low(y);
  }

  lemma Byte0Back(x: byte, y: byte)
    ensures Byte0(Group0(x), Group1(x, y)) == x
  {
    BytesBack(x, y, 0);
  }

  lemma Group1Low(x: byte)
    ensures Group1(x, 0) % 16 == 0
  {
    Split16(x % 4, 0);
  }

  lemma Group2Low(y: byte)
    ensures Group2(y, 0) % 4 == 0
  {
    Split4(y % 16, 0);
  }

  lemma TailIsEncoded(s: seq<byte>, padding: bool, v: Variant)
    requires (|s| == 2 || |s| == 3) && DecodeTail(s, v).Bytes?
    ensures Encode(DecodeTail(s, v).data, padding, v) == s + Padding(padding, 4 - |s|)
  {
    ReverseIsLetter(v, s[0]);
    ReverseIsLetter(v, s[1]);
    var a, b := Reverse(v, s[0]), Reverse(v, s[1]);
    if |s| == 3 {
      ReverseIsLetter(v, s[2]);
      GroupsOfThree(a, b, Reverse(v, s[2]));
    } else {
      GroupsOfTwo(a, b);
    }
  }

  lemma GroupsOfTwo(a: sextet, b: sextet)
    requires b % 16 == 0
    ensures Group0(Byte0(a, b)) == a && Group1(Byte0(a, b), 0) == b
  {
    GroupsBack(a, b, 0, 0);
    Remainder16(b);
  }

  lemma GroupsOfThree(a: sextet, b: sextet, c: sextet)
    requires c % 4 == 0
    ensures Group0(Byte0(a, b)) == a && Group1(Byte0(a, b), Byte1(b, c)) == b && Group2(Byte1(b, c), 0) == c
  {
    GroupsBack(a, b, c, 0);
    Remainder4(c);
  }

  lemma Remainder4(c: sextet)
    requires c % 4 == 0
    ensures Byte2(c, 0) == 0
  {
  }

  lemma Remainder16(b: sextet)
    requires b % 16 == 0
    ensures Byte1(b, 0) == 0
  {
  }

  /** Only canonical text is accepted: what is accepted is the encoding of what it decodes to. */
  lemma {:induction false} AcceptedIsEncoded(s: seq<byte>, padding: bool, v: Variant)
    requires Decode(s, padding, v).Bytes?
    ensures Encode(Decode(s, padding, v).data, padding, v) == s
  {
    if |s| >= 4 && AllLetters(s, v) {
      AcceptedIsEncoded(s[4..], padding, v);
      QuadInFront(s, Decode(s[4..], padding, v).data, padding, v);
    } else if |s| > 0 {
      LastIsEncoded(s, padding, v);
    }
  }

  /** Four letters in front of what is encoded. */
  lemma QuadInFront(s: seq<byte>, later: seq<byte>, padding: bool, v: Variant)
    requires |s| >= 4 && AllLetters(s, v) && Encode(later, padding, v) == s[4..]
    ensures Encode(Unquad(v, s) + later, padding, v) == s
  {
    var front := Unquad(v, s);
    QuadUnquad(v, s);
    assert (front + later)[3..] == later;
    assert s == s[..4] + s[4..];
  }

  /** The last group, padded or not. */
  lemma LastIsEncoded(s: seq<byte>, padding: bool, v: Variant)
    requires |s| > 0 && (|s| >= 4 ==> !AllLetters(s, v)) && Decode(s, padding, v).Bytes?
    ensures Encode(Decode(s, padding, v).data, padding, v) == s
  {
    if |s| >= 4 {
      var n := if s[2] == PAD then 2 else 3;
      TailIsEncoded(s[..n], padding, v);
      assert s == s[..n] + Padding(padding, 4 - n);
    } else {
      TailIsEncoded(s, padding, v);
      assert s + [] == s;
    }
  }

  /** A text decodes to some bytes exactly if it is their encoding. */
  lemma DecodesExactly(s: seq<byte>, padding: bool, v: Variant, data: seq<byte>)
    ensures Decode(s, padding, v) == Bytes(data) <==> s == Encode(data, padding, v)
  {
    DecodeEncode(data, padding, v);
    if Decode(s, padding, v).Bytes? { AcceptedIsEncoded(s, padding, v); }
  }

  /** base64_decode. The value of four characters is negative as soon as one of them is no letter. */
  method Base64Decode(src: seq<byte>, dst: array<byte>, withPadding: bool, v: Variant) returns (n: int)
    requires dst.Length >= Written(src, withPadding, v)
    modifies dst
    ensures n >= 0 ==> n <= dst.Length && src == Encode(dst[..n], withPadding, v)
    ensures n < 0 ==> n == -1 && forall data :: src != Encode(data, withPadding, v)
  {
    var result := DecodeInto(src, dst, withPadding, v);
    n := result;
    forall data ensures Decode(src, withPadding, v) == Bytes(data) <==> src == Encode(data, withPadding, v) {
      DecodesExactly(src, withPadding, v, data);
    }
  }

  /** Its loop and its tail. */
  method DecodeInto(src: seq<byte>, dst: array<byte>, withPadding: bool, v: Variant) returns (n: int)
    requires dst.Length >= Written(src, withPadding, v)
    modifies dst
    ensures n == -1 || 0 <= n <= dst.Length
    ensures Decode(src, withPadding, v) == if n == -1 then Invalid else Bytes(dst[..n])
  {
    var s, srclen, padding := src, |src|, withPadding;
    n := 0;
    AfterNothing(Decode(src, withPadding, v));
    assert dst[..0] == [];
    while srclen >= 4
      invariant srclen == |s| && padding == withPadding && 0 <= n && n + Written(s, withPadding, v) <= dst.Length
      invariant Decode(src, withPadding, v) == After(dst[..n], Decode(s, withPadding, v))
    {
      var a, b, c, d := Reverse(v, s[0]), Reverse(v, s[1]), Reverse(v, s[2]), Reverse(v, s[3]);
      if a < 0 || b < 0 || c < 0 || d < 0 {
        if !padding || srclen != 4 || s[3] != PAD { return -1; }
        n := Tail(s[..if s[2] == PAD then 2 else 3], dst, n, v);
        return;
      }
      AfterTwice(dst[..n], Unquad(v, s), Decode(s[4..], withPadding, v));
      PutQuad(dst, n, a, b, c, d);
      s := s[4..];
      srclen := srclen - 4;
      n := n + 3;
    }
    if srclen == 0 { return; }
    if padding || srclen == 1 { return -1; }
    n := Tail(s, dst, n, v);
  }

  /** Three bytes from four letters. */
  method PutQuad(dst: array<byte>, n: nat, a: sextet, b: sextet, c: sextet, d: sextet)
    requires n + 3 <= dst.Length
    modifies dst
    ensures dst[..n + 3] == old(dst[..n]) + [Byte0(a, b), Byte1(b, c), Byte2(c, d)]
  {
    var x: int, y: int, z: int := a, b, c;
    var val := x * 0x4_0000 + y * 0x1000 + z * 0x40 + d;
    QuadValue(a, b, c, d);
    dst[n], dst[n + 1], dst[n + 2] := val / 0x1_0000, val / 0x100 % 0x100, val % 0x100;
  }

  lemma AfterNothing(d: Decoded)
    ensures After([], d) == d
  {
    if d.Bytes? { assert [] + d.data == d.data; }
  }

  lemma AfterTwice(a: seq<byte>, b: seq<byte>, d: Decoded)
    ensures After(a, After(b, d)) == After(a + b, d)
  {
    if d.Bytes? { Regroup(a, b, d.data); }
  }

  /** The value of four groups, byte by byte. */
  lemma QuadValue(a: sextet, b: sextet, c: sextet, d: sextet)
    ensures var x, y, z: int := a, b, c;
            var val := x * 0x4_0000 + y * 0x1000 + z * 0x40 + d;
            val / 0x1_0000 == Byte0(a, b) && val / 0x100 % 0x100 == Byte1(b, c) && val % 0x100 == Byte2(c, d)
  {
    var x, y, z: int := a, b, c;
    var val := x * 0x4_0000 + y * 0x1000 + z * 0x40 + d;
    var b0, b1, b2 := Byte0(a, b), Byte1(b, c), Byte2(c, d);
    var p: int, q: int, r: int := b0, b1, b2;
    assert val == p * 0x1_0000 + q * 0x100 + r;
    ThreeBytes(p, q, r);
  }

  lemma ThreeBytes(p: nat, q: nat, r: nat)
    requires q < 0x100 && r < 0x100
    ensures var val := p * 0x1_0000 + q * 0x100 + r; val / 0x1_0000 == p && val / 0x100 % 0x100 == q && val % 0x100 == r
  {
    var val := p * 0x1_0000 + q * 0x100 + r;
    assert val == (p * 0x100 + q) * 0x100 + r;
  }

  lemma TwoValue(a: sextet, b: sextet)
    ensures var x, y: int := a, b;
            var val := x * 0x1000 + y * 0x40;
            val / 0x400 % 0x100 == Byte0(a, b) && (val % 0x400 == 0 <==> b % 16 == 0)
  {
    var x, y: int := a, b;
    var q, r := y / 16, y % 16;
    var val := x * 0x1000 + y * 0x40;
    var first: int := Byte0(a, b);
    assert val == first * 0x400 + r * 0x40;
    Split1024(first, r * 0x40);
  }

  lemma Split1024(high: nat, low: nat)
    requires low < 0x400
    ensures (high * 0x400 + low) / 0x400 == high && (high * 0x400 + low) % 0x400 == low
  {
  }

  lemma ThreeValue(a: sextet, b: sextet, c: sextet)
    ensures var x, y, z: int := a, b, c;
            var val := x * 0x1000 + y * 0x40 + z;
            val / 4 % 0x100 == Byte1(b, c) && (val % 4 == 0 <==> c % 4 == 0)
  {
    var x, y, z: int := a, b, c;
    var val := x * 0x1000 + y * 0x40 + z;
    var first: int, second: int := Byte0(a, b), Byte1(b, c);
    assert val == (first * 0x100 + second) * 4 + z % 4;
    Split4(first * 0x100 + second, z % 4);
    Split256(first, second);
  }

  lemma Split256(high: nat, low: nat)
    requires low < 0x100
    ensures (high * 0x100 + low) / 0x100 == high && (high * 0x100 + low) % 0x100 == low
  {
  }

  /** The value of the last two characters: negative as soon as one of them is no letter. */
  method TwoChars(a: int, b: int) returns (val: int, first: byte)
    requires -1 <= a < 64 && -1 <= b < 64
    ensures (val < 0 <==> a < 0 || b < 0) && (val < 0 ==> val <= -64)
    ensures a >= 0 && b >= 0 ==>
              val == a * 0x1000 + b * 0x40 && first == Byte0(a, b) && (val % 0x400 == 0 <==> b % 16 == 0)
  {
    val := if b < 0 then -64 else a * 0x1000 + b * 0x40;
    first := val / 0x400 % 0x100;
    if a >= 0 && b >= 0 { TwoValue(a, b); }
  }

  /** The end of base64_decode: the last two or three characters. */
  method Tail(s: seq<byte>, dst: array<byte>, at: nat, v: Variant) returns (n: int)
    requires (|s| == 2 || |s| == 3) && at + TailWritten(s, v) <= dst.Length
    modifies dst
    ensures n == -1 || 0 <= n <= dst.Length
    ensures (if n == -1 then Invalid else Bytes(dst[..n])) == After(old(dst[..at]), DecodeTail(s, v))
  {
    var a, b := Reverse(v, s[0]), Reverse(v, s[1]);
    var val, first := TwoChars(a, b);
    dst[at] := first;
    n := at + 1;
    assert dst[..n] == old(dst[..at]) + [first];
    if |s| == 2 {
      if val < 0 || val % 0x400 != 0 { return -1; }
    } else {
      var c := Reverse(v, s[2]);
      if a >= 0 && b >= 0 && c >= 0 { ThreeValue(a, b, c); }
      val := if c < 0 then -1 else val + c;
      if val < 0 || val % 4 != 0 { return -1; }
      dst[at + 1] := val / 4 % 0x100;
      n := at + 2;
      assert dst[..n] == old(dst[..at]) + [first, dst[at + 1]];
    }
  }
}
