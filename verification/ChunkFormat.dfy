/** The chunks of a PNG file: length, type, data and CRC (section 5.3 of ISO/IEC 15948:2003), what the emitted bytes of
    a list of chunks are, and what a reader makes of a file. The CRC is a fold of a step that is left open. */
module ChunkFormat {
  import opened Bytes

  type u32 = x: int | 0 <= x < 0x1_0000_0000

  /** spng_u32max */
  const MAX_LENGTH := 0x7fff_ffff

  const SIGNATURE: seq<byte> := [137, 80, 78, 71, 13, 10, 26, 10]
  const IHDR: seq<byte> := [73, 72, 68, 82]
  const IDAT: seq<byte> := [73, 68, 65, 84]
  const IEND: seq<byte> := [73, 69, 78, 68]

  type Step = (u32, byte) -> u32

  datatype Chunk = Chunk(kind: seq<byte>, data: seq<byte>)

  predicate Legal(c: Chunk) {
    |c.kind| == 4 && |c.data| <= MAX_LENGTH
  }

  predicate AllLegal(cs: seq<Chunk>) {
    forall i :: 0 <= i < |cs| ==> Legal(cs[i])
  }

  // ---------- numbers ----------

  lemma FourBytes(n: u32)
    ensures Number([n / 0x100_0000, n / 0x1_0000 % 0x100, n / 0x100 % 0x100, n % 0x100]) == n
  {
    var n1, n2, n3 := n / 0x100, n / 0x1_0000, n / 0x100_0000;
    assert n1 / 0x100 == n2 && n2 / 0x100 == n3 && n3 < 0x100;
  }

  /** The four bytes of a number, the highest first. */
  ghost function U32(n: u32): (s: seq<byte>)
    ensures |s| == 4 && n == Number(s)
  {
    FourBytes(n);
    var s :| |s| == 4 && n == Number(s);
    s
  }

  /** write_u32 */
  function WriteU32(n: u32): (s: seq<byte>)
    ensures s == U32(n)
  {
    FourBytes(n);
    var s := [n / 0x100_0000, n / 0x1_0000 % 0x100, n / 0x100 % 0x100, n % 0x100];
    SameNumber(s, U32(n));
    s
  }

  /** read_u32 */
  function Number(s: seq<byte>): u32
    requires |s| == 4
  {
    U16(U16(U16(s[0], s[1]), s[2]), s[3])
  }

  /** Different byte strings are different numbers; so writing the number that was read gives the bytes back. */
  lemma SameNumber(s: seq<byte>, t: seq<byte>)
    requires |s| == |t| == 4 && Number(s) == Number(t)
    ensures s == t
  {
    assert s[3] == t[3] && s[2] == t[2] && s[1] == t[1] && s[0] == t[0];
  }

  /** A number is written with its highest byte first. */
  lemma NumberBytes(s: seq<byte>)
    requires |s| == 4
    ensures Number(s) == 0x100_0000 * (s[0] as int) + 0x1_0000 * (s[1] as int) + 0x100 * (s[2] as int) + s[3]
  {
  }

  // ---------- the CRC ----------

  /** crc32( c, s, |s| ) */
  function Crc(step: Step, c: u32, s: seq<byte>): u32 {
    if s == [] then c else step(Crc(step, c, s[..|s| - 1]), s[|s| - 1])
  }

  /** The CRC may be computed piece by piece. */
  lemma {:induction false} CrcPieces(step: Step, c: u32, s: seq<byte>, t: seq<byte>)
    ensures Crc(step, c, s + t) == Crc(step, Crc(step, c, s), t)
    decreases |t|
  {
    if t == [] {
      assert s + t == s;
    } else {
      var n := |t| - 1;
      assert (s + t)[..|s + t| - 1] == s + t[..n];
      CrcPieces(step, c, s, t[..n]);
    }
  }

  /** The CRC of a chunk covers its type and its data. */
  function ChunkCrc(step: Step, c: Chunk): u32 {
    Crc(step, Crc(step, 0, c.kind), c.data)
  }

  // ---------- what is written ----------

  ghost function Header(kind: seq<byte>, length: u32): seq<byte> {
    U32(length) + kind
  }

  ghost function Wire(step: Step, c: Chunk): (s: seq<byte>)
    requires Legal(c)
    ensures |s| == |c.data| + 12
  {
    Header(c.kind, |c.data|) + c.data + U32(ChunkCrc(step, c))
  }

  /** The bytes of a chunk: its length, its type, its data, and the CRC of type and data. */
  lemma WireBytes(step: Step, c: Chunk)
    requires Legal(c)
    ensures var s, n := Wire(step, c), |c.data|;
            |s| == n + 12 && Number(s[..4]) == n && s[4..8] == c.kind && s[8..8 + n] == c.data &&
            Number(s[8 + n..]) == Crc(step, 0, c.kind + c.data)
  {
    var n := |c.data|;
    WireParts(U32(n), c.kind, c.data, U32(ChunkCrc(step, c)));
    CrcPieces(step, 0, c.kind, c.data);
  }

  lemma WireParts(a: seq<byte>, b: seq<byte>, c: seq<byte>, d: seq<byte>)
    requires |a| == |b| == |d| == 4
    ensures var s, n := a + b + c + d, |c|;
            s[..4] == a && s[4..8] == b && s[8..8 + n] == c && s[8 + n..] == d
  {
  }

  ghost function Emit(step: Step, cs: seq<Chunk>): seq<byte>
    requires AllLegal(cs)
  {
    if cs == [] then [] else Wire(step, cs[0]) + Emit(step, cs[1..])
  }

  lemma {:induction false} EmitSplit(step: Step, a: seq<Chunk>, b: seq<Chunk>)
    requires AllLegal(a) && AllLegal(b)
    ensures AllLegal(a + b) && Emit(step, a + b) == Emit(step, a) + Emit(step, b)
  {
    if a == [] {
      assert a + b == b;
    } else {
      assert (a + b)[1..] == a[1..] + b;
      EmitSplit(step, a[1..], b);
      Regroup(Wire(step, a[0]), Emit(step, a[1..]), Emit(step, b));
    }
  }

  lemma EmitOne(step: Step, c: Chunk)
    requires Legal(c)
    ensures Emit(step, [c]) == Wire(step, c)
  {
    assert [c][1..] == [];
  }

  // ---------- what is read ----------

  datatype Action = Error | Discard | Use

  /** What the reader does about wrong CRCs. SPNG_CRC_DISCARD cannot be set for critical chunks. */
  datatype Policy = Policy(critical: Action, ancillary: Action)

  predicate Sensible(p: Policy) {
    p.critical != Discard
  }

  predicate Critical(kind: seq<byte>)
    requires |kind| == 4
  {
    kind[0] / 32 % 2 == 0
  }

  /** skip_crc as read_header sets it: the reader computes no CRC for this chunk. The first chunk of a file is not read
      by read_header, and its CRC is always computed. */
  predicate Skips(p: Policy, kind: seq<byte>)
    requires |kind| == 4
  {
    (Critical(kind) && p.critical == Use) || p.ancillary == Use
  }

  datatype Verdict = Keep | Drop | Refuse

  /** What becomes of a chunk, given its true CRC and the one in the file. */
  function Judge(p: Policy, skip: bool, kind: seq<byte>, actual: u32, stored: u32): Verdict
    requires |kind| == 4
  {
    if skip || actual == stored then Keep
    else
      match if Critical(kind) then p.critical else p.ancillary
      case Use => Keep
      case Discard => if Critical(kind) then Refuse else Drop
      case Error => Refuse
  }

  /** A chunk is critical if bit 5 of the first byte of its type is clear, and ancillary if it is set. A wrong CRC that
      is not skipped is used, or the chunk is dropped or refused, as the policy for its kind says. Critical chunks are
      never dropped. */
  lemma Judgement(p: Policy, skip: bool, kind: seq<byte>, actual: u32, stored: u32)
    requires |kind| == 4
    ensures var bit5 := kind[0] % 64 >= 32;
            var action := if bit5 then p.ancillary else p.critical;
            var v := Judge(p, skip, kind, actual, stored);
            Critical(kind) == !bit5 &&
            (v == Keep <==> skip || actual == stored || action == Use) &&
            (v == Drop <==> !skip && actual != stored && bit5 && action == Discard) &&
            (Skips(p, kind) <==> p.ancillary == Use || (!bit5 && p.critical == Use))
  {
    var q, r := kind[0] / 64, kind[0] % 64;
    assert kind[0] == 64 * q + r;
  }

  datatype ReadError = EIoEof | EChunkCrc | EChunkStdlen | EChunkSize | ESignature | EIhdrSize | ENoIhdr

  datatype Parsed = Chunks(kept: seq<Chunk>, rest: seq<byte>) | Unreadable(error: ReadError)

  function Prefixed(verdict: Verdict, c: Chunk, p: Parsed): Parsed {
    if p.Chunks? && verdict == Keep then p.(kept := [c] + p.kept) else p
  }

  /** What comes after the header of a chunk, up to the end of IEND. */
  function Parse(step: Step, p: Policy, skip: bool, kind: seq<byte>, length: u32, s: seq<byte>): Parsed
    requires |kind| == 4
    decreases |s|, 2
  {
    if |s| < length then Unreadable(EIoEof) else ParseCrc(step, p, skip, Chunk(kind, s[..length]), s[length..])
  }

  /** What comes after the data of a chunk. */
  function ParseCrc(step: Step, p: Policy, skip: bool, c: Chunk, s: seq<byte>): Parsed
    requires |c.kind| == 4
    decreases |s|, 1
  {
    if |s| < 4 then Unreadable(EIoEof)
    else
      var verdict := Judge(p, skip, c.kind, ChunkCrc(step, c), Number(s[..4]));
      if verdict == Refuse then Unreadable(EChunkCrc) else Prefixed(verdict, c, ParseNext(step, p, s[4..]))
  }

  /** The next header and what follows it. */
  function ParseNext(step: Step, p: Policy, s: seq<byte>): Parsed
    decreases |s|, 0
  {
    if |s| < 8 then Unreadable(EIoEof)
    else
      var length, kind := Number(s[..4]), s[4..8];
      if length > MAX_LENGTH then Unreadable(EChunkStdlen)
      else if kind == IEND then ParseEnd(step, p, kind, length, s[8..])
      else Parse(step, p, Skips(p, kind), kind, length, s[8..])
  }

  /** What is wrong with a header: it is cut off, its length has bit 31 set, or it is an IEND with data. */
  lemma BadHeaders(step: Step, p: Policy, s: seq<byte>)
    ensures |s| < 8 ==> ParseNext(step, p, s) == Unreadable(EIoEof)
    ensures |s| >= 8 && s[0] >= 0x80 ==> ParseNext(step, p, s) == Unreadable(EChunkStdlen)
    ensures |s| >= 8 && s[0] < 0x80 && s[4..8] == [73, 69, 78, 68] && s[..4] != [0, 0, 0, 0] ==>
              ParseNext(step, p, s) == Unreadable(EChunkSize)
  {
    if |s| >= 8 {
      NumberBytes(s[..4]);
      if s[..4] != [0, 0, 0, 0] { assert s[..4] == [s[0], s[1], s[2], s[3]]; }
    }
  }

  /** After the header of IEND: it has no data, and its CRC is judged like any other. */
  function ParseEnd(step: Step, p: Policy, kind: seq<byte>, length: u32, s: seq<byte>): Parsed
    requires |kind| == 4
  {
    if length != 0 then Unreadable(EChunkSize)
    else if |s| < 4 then Unreadable(EIoEof)
    else if Judge(p, Skips(p, kind), kind, ChunkCrc(step, Chunk(kind, [])), Number(s[..4])) == Refuse then
      Unreadable(EChunkCrc)
    else Chunks([], s[4..])
  }

  datatype Option<+T> = None | Some(value: T)

  /** What is wrong with the first 29 bytes of a file: the signature, and IHDR without its CRC. */
  function StartError(s: seq<byte>): (e: Option<ReadError>)
    ensures e.None? ==> |s| >= 29
  {
    if |s| < 29 then Some(EIoEof)
    else if s[..8] != SIGNATURE then Some(ESignature)
    else if Number(s[8..12]) != 13 then Some(EIhdrSize)
    else if s[12..16] != IHDR then Some(ENoIhdr)
    else None
  }

  /** A whole file, as far as its chunks go. */
  function ParseFile(step: Step, p: Policy, s: seq<byte>): Parsed {
    if StartError(s).Some? then Unreadable(StartError(s).value)
    else ParseCrc(step, p, false, Chunk(s[12..16], s[16..29]), s[29..])
  }

  /** A file starts well if its first bytes are the signature, the length 13 and the type IHDR; the first thing that is
      wrong is the error. */
  lemma StartBytes(s: seq<byte>)
    ensures var e := StartError(s);
            if |s| < 29 then e == Some(EIoEof)
            else if s[..8] != [137, 80, 78, 71, 13, 10, 26, 10] then e == Some(ESignature)
            else if s[8..12] != [0, 0, 0, 13] then e == Some(EIhdrSize)
            else if s[12..16] != [73, 72, 68, 82] then e == Some(ENoIhdr)
            else e == None
  {
    if |s| >= 29 && Number(s[8..12]) == 13 {
      SameNumber(s[8..12], [0, 0, 0, 13]);
    }
  }

  lemma StartParts(s: seq<byte>)
    requires |s| >= 29
    ensures var t := s[..29];
            t[..8] == s[..8] && t[8..12] == s[8..12] && t[12..16] == s[12..16] && t[16..29] == s[16..29]
  {
  }

  lemma IhdrIsNotIend(kind: seq<byte>)
    ensures kind == IHDR ==> kind != IEND && kind != IDAT
  {
    assert IHDR[1] != IEND[1] && IHDR[1] != IDAT[1];
  }

  /** No chunk of a list is called IEND. */
  predicate NoEnd(cs: seq<Chunk>) {
    forall i :: 0 <= i < |cs| ==> cs[i].kind != IEND
  }

  /** What follows the first header of the emitted chunks cs, and then `tail`. */
  ghost function AfterHeader(step: Step, cs: seq<Chunk>, tail: seq<byte>): seq<byte>
    requires AllLegal(cs) && |cs| > 0
  {
    cs[0].data + (U32(ChunkCrc(step, cs[0])) + AfterCrc(step, cs[1..], tail))
  }

  ghost function AfterCrc(step: Step, cs: seq<Chunk>, tail: seq<byte>): seq<byte>
    requires AllLegal(cs)
  {
    Emit(step, cs) + tail
  }

  /** After the CRC of a chunk comes the header of the next, and what is after that. */
  lemma NextHeader(step: Step, cs: seq<Chunk>, tail: seq<byte>)
    requires AllLegal(cs)
    ensures AfterCrc(step, cs, tail)
         == if cs == [] then tail else Header(cs[0].kind, |cs[0].data|) + AfterHeader(step, cs, tail)
  {
    if cs == [] {
      assert [] + tail == tail;
    } else {
      var c := cs[0];
      Regroup5(Header(c.kind, |c.data|), c.data, U32(ChunkCrc(step, c)), Emit(step, cs[1..]), tail);
    }
  }

  lemma Regroup5(a: seq<byte>, b: seq<byte>, c: seq<byte>, d: seq<byte>, e: seq<byte>)
    ensures a + b + c + d + e == a + (b + (c + (d + e)))
  {
  }

  lemma HeaderParts(kind: seq<byte>, length: u32, s: seq<byte>)
    requires |kind| == 4
    ensures var t := Header(kind, length) + s; t[..4] == U32(length) && t[4..8] == kind && t[8..] == s
  {
  }

  lemma CrcParts(crc: seq<byte>, s: seq<byte>)
    requires |crc| == 4
    ensures (crc + s)[..4] == crc && (crc + s)[4..] == s
  {
  }

  lemma DataParts(data: seq<byte>, s: seq<byte>)
    ensures (data + s)[..|data|] == data && (data + s)[|data|..] == s
  {
  }

  /** Reading a chunk with its CRC. */
  lemma ParseChunk(step: Step, p: Policy, skip: bool, c: Chunk, crc: u32, t: seq<byte>)
    requires Legal(c)
    ensures var verdict := Judge(p, skip, c.kind, ChunkCrc(step, c), crc);
            Parse(step, p, skip, c.kind, |c.data|, c.data + (U32(crc) + t)) ==
            if verdict == Refuse then Unreadable(EChunkCrc) else Prefixed(verdict, c, ParseNext(step, p, t))
  {
    DataParts(c.data, U32(crc) + t);
    CrcParts(U32(crc), t);
  }

  /** Reading a header. */
  lemma ParseHeader(step: Step, p: Policy, kind: seq<byte>, length: u32, s: seq<byte>)
    requires |kind| == 4 && length <= MAX_LENGTH
    ensures ParseNext(step, p, Header(kind, length) + s)
         == if kind == IEND then ParseEnd(step, p, kind, length, s)
            else Parse(step, p, Skips(p, kind), kind, length, s)
  {
    HeaderParts(kind, length, s);
  }

  /** The last chunk of a file, and what comes after it. */
  ghost function EndChunk(step: Step, end: seq<byte>, rest: seq<byte>): seq<byte> {
    Header(end, 0) + (U32(ChunkCrc(step, Chunk(end, []))) + rest)
  }

  lemma ParseEndChunk(step: Step, p: Policy, end: seq<byte>, rest: seq<byte>)
    requires end == IEND && |end| == 4
    ensures ParseNext(step, p, EndChunk(step, end, rest)) == Chunks([], rest)
  {
    var crc := U32(ChunkCrc(step, Chunk(end, [])));
    ParseHeader(step, p, end, 0, crc + rest);
    CrcParts(crc, rest);
  }

  /** Whatever the policy, all emitted chunks are recovered. */
  lemma {:induction false} EmittedIsParsed(step: Step, p: Policy, skip: bool, cs: seq<Chunk>, end: seq<byte>,
                                           rest: seq<byte>)
    requires AllLegal(cs) && NoEnd(cs) && |cs| > 0 && end == IEND && |end| == 4
    ensures Parse(step, p, skip, cs[0].kind, |cs[0].data|, AfterHeader(step, cs, EndChunk(step, end, rest))) ==
            Chunks(cs, rest)
    decreases |cs|
  {
    hide Parse, ParseNext, EndChunk, AfterCrc;
    var c, more := cs[0], cs[1..];
    var tail := EndChunk(step, end, rest);
    ParseChunk(step, p, skip, c, ChunkCrc(step, c), AfterCrc(step, more, tail));
    NextHeader(step, more, tail);
    if more == [] {
      ParseEndChunk(step, p, end, rest);
    } else {
      ParseHeader(step, p, more[0].kind, |more[0].data|, AfterHeader(step, more, tail));
      EmittedIsParsed(step, p, Skips(p, more[0].kind), more, end, rest);
    }
    assert [c] + more == cs;
  }

  const STRICT := Policy(Error, Error)

  /** A reader that minds every CRC accepts nothing else: what it accepts was emitted from the chunks it returns and the
      last chunk. */
  lemma {:induction false} ParsedWasEmitted(step: Step, kind: seq<byte>, length: u32, s: seq<byte>)
    requires |kind| == 4 && length <= MAX_LENGTH && kind != IEND && Parse(step, STRICT, false, kind, length, s).Chunks?
    ensures var r := Parse(step, STRICT, false, kind, length, s);
            AllLegal(r.kept) && NoEnd(r.kept) && |r.kept| > 0 && r.kept[0].kind == kind &&
            |r.kept[0].data| == length && s == AfterHeader(step, r.kept, EndChunk(step, IEND, r.rest))
    decreases |s|, 1
  {
    var c := Chunk(kind, s[..length]);
    CrcWasEmitted(step, c, s[length..]);
    var t := s[length..][4..];
    NextWasEmitted(step, t);
    var more := ParseNext(step, STRICT, t);
    assert s == s[..length] + s[length..];
    assert ([c] + more.kept)[1..] == more.kept;
  }

  lemma CrcWasEmitted(step: Step, c: Chunk, s: seq<byte>)
    requires |c.kind| == 4 && ParseCrc(step, STRICT, false, c, s).Chunks?
    ensures |s| >= 4 && s == U32(ChunkCrc(step, c)) + s[4..] && ParseNext(step, STRICT, s[4..]).Chunks?
    ensures ParseCrc(step, STRICT, false, c, s) == Prefixed(Keep, c, ParseNext(step, STRICT, s[4..]))
  {
    SameNumber(U32(ChunkCrc(step, c)), s[..4]);
  }

  lemma {:induction false} NextWasEmitted(step: Step, s: seq<byte>)
    requires ParseNext(step, STRICT, s).Chunks?
    ensures var r := ParseNext(step, STRICT, s);
            AllLegal(r.kept) && NoEnd(r.kept) && s == AfterCrc(step, r.kept, EndChunk(step, IEND, r.rest))
    decreases |s|, 0
  {
    var length, kind := Number(s[..4]), s[4..8];
    HeaderWasEmitted(s);
    if kind == IEND {
      LastWasEmitted(step, kind, length, s[8..]);
      NextHeader(step, [], EndChunk(step, kind, s[8..][4..]));
    } else {
      ParsedWasEmitted(step, kind, length, s[8..]);
      var r := Parse(step, STRICT, false, kind, length, s[8..]);
      NextHeader(step, r.kept, EndChunk(step, IEND, r.rest));
    }
  }

  lemma HeaderWasEmitted(s: seq<byte>)
    requires |s| >= 8
    ensures s == Header(s[4..8], Number(s[..4])) + s[8..]
  {
    SameNumber(U32(Number(s[..4])), s[..4]);
  }

  lemma LastWasEmitted(step: Step, end: seq<byte>, length: u32, s: seq<byte>)
    requires |end| == 4 && ParseEnd(step, STRICT, end, length, s).Chunks?
    ensures length == 0 && |s| >= 4 && s == U32(ChunkCrc(step, Chunk(end, []))) + s[4..]
    ensures ParseEnd(step, STRICT, end, length, s) == Chunks([], s[4..])
  {
    SameNumber(U32(ChunkCrc(step, Chunk(end, []))), s[..4]);
  }

  /** Reading with every CRC minded is exactly the inverse of emitting. */
  lemma ParsesExactly(step: Step, kind: seq<byte>, length: u32, s: seq<byte>, cs: seq<Chunk>, rest: seq<byte>)
    requires |kind| == 4 && length <= MAX_LENGTH && kind != IEND
    ensures Parse(step, STRICT, false, kind, length, s) == Chunks(cs, rest) <==>
            AllLegal(cs) && NoEnd(cs) && |cs| > 0 && cs[0].kind == kind && |cs[0].data| == length &&
            s == AfterHeader(step, cs, EndChunk(step, IEND, rest))
  {
    if Parse(step, STRICT, false, kind, length, s).Chunks? { ParsedWasEmitted(step, kind, length, s); }
    if AllLegal(cs) && NoEnd(cs) && |cs| > 0 {
      EmittedIsParsed(step, STRICT, false, cs, IEND, rest);
    }
  }

  // ---------- files with any CRCs ----------

  /** A chunk and the CRC that the file gives it. */
  datatype Stored = Stored(chunk: Chunk, crc: u32)

  /** The chunks of a file: the last one, and no other, is IEND. */
  predicate Ended(cs: seq<Stored>) {
    |cs| > 0 && (forall i :: 0 <= i < |cs| ==> Legal(cs[i].chunk)) &&
    (forall i :: 0 <= i < |cs| - 1 ==> cs[i].chunk.kind != IEND) &&
    cs[|cs| - 1].chunk.kind == IEND && cs[|cs| - 1].chunk.data == []
  }

  /** What follows the first header of a file with these chunks, and then `rest`. */
  ghost function AfterStored(cs: seq<Stored>, rest: seq<byte>): seq<byte>
    requires |cs| > 0 && forall i :: 0 <= i < |cs| ==> Legal(cs[i].chunk)
    decreases |cs|
  {
    cs[0].chunk.data + (U32(cs[0].crc) +
                        if |cs| == 1 then rest
                        else
                          assert Legal(cs[1].chunk);
                          Header(cs[1].chunk.kind, |cs[1].chunk.data|) + AfterStored(cs[1..], rest))
  }

  function Outcome(step: Step, p: Policy, skip: bool, s: Stored): Verdict
    requires |s.chunk.kind| == 4
  {
    Judge(p, skip, s.chunk.kind, ChunkCrc(step, s.chunk), s.crc)
  }

  /** Whether the CRC of chunk i is skipped, if that of the first chunk is or is not. */
  predicate SkipsAt(p: Policy, skip: bool, cs: seq<Stored>, i: nat)
    requires i < |cs| && |cs[i].chunk.kind| == 4
  {
    if i == 0 then skip else Skips(p, cs[i].chunk.kind)
  }

  predicate Refuses(step: Step, p: Policy, skip: bool, cs: seq<Stored>)
    requires Ended(cs)
  {
    exists i :: 0 <= i < |cs| && Outcome(step, p, SkipsAt(p, skip, cs, i), cs[i]) == Refuse
  }

  /** The chunks before IEND that are kept. */
  function Kept(step: Step, p: Policy, skip: bool, cs: seq<Stored>): seq<Chunk>
    requires Ended(cs)
    decreases |cs|
  {
    if |cs| == 1 then []
    else (if Outcome(step, p, skip, cs[0]) == Keep then [cs[0].chunk] else []) +
         Kept(step, p, Skips(p, cs[1].chunk.kind), cs[1..])
  }

  /** Such a file is read, without the chunks that are dropped, exactly if no chunk is refused. */
  lemma {:induction false} StoredIsParsed(step: Step, p: Policy, skip: bool, cs: seq<Stored>, rest: seq<byte>)
    requires Ended(cs) && |cs| > 1
    ensures Parse(step, p, skip, cs[0].chunk.kind, |cs[0].chunk.data|, AfterStored(cs, rest))
         == if Refuses(step, p, skip, cs) then Unreadable(EChunkCrc) else Chunks(Kept(step, p, skip, cs), rest)
    decreases |cs|
  {
    var c, more := cs[0].chunk, cs[1..];
    var kind, length, s := more[0].chunk.kind, |more[0].chunk.data|, AfterStored(more, rest);
    var next := Skips(p, kind);
    ParseChunk(step, p, skip, c, cs[0].crc, Header(kind, length) + s);
    ParseHeader(step, p, kind, length, s);
    RefusesNext(step, p, skip, cs);
    if |more| == 1 {
      EndIsParsed(step, p, more, rest);
    } else {
      StoredIsParsed(step, p, next, more, rest);
    }
  }

  lemma EndIsParsed(step: Step, p: Policy, cs: seq<Stored>, rest: seq<byte>)
    requires Ended(cs) && |cs| == 1
    ensures var kind := cs[0].chunk.kind;
            ParseEnd(step, p, kind, 0, AfterStored(cs, rest)) ==
            if Refuses(step, p, Skips(p, kind), cs) then Unreadable(EChunkCrc) else Chunks([], rest)
  {
    var e := cs[0];
    assert e.chunk == Chunk(e.chunk.kind, []);
    assert AfterStored(cs, rest) == U32(e.crc) + rest;
    CrcParts(U32(e.crc), rest);
    assert Refuses(step, p, Skips(p, e.chunk.kind), cs) <==>
           Outcome(step, p, SkipsAt(p, Skips(p, e.chunk.kind), cs, 0), cs[0]) == Refuse;
  }

  lemma RefusesNext(step: Step, p: Policy, skip: bool, cs: seq<Stored>)
    requires Ended(cs) && |cs| > 1
    ensures Ended(cs[1..])
    ensures Refuses(step, p, skip, cs) <==>
            Outcome(step, p, skip, cs[0]) == Refuse || Refuses(step, p, Skips(p, cs[1].chunk.kind), cs[1..])
  {
    var more := cs[1..];
    assert forall i :: 0 <= i < |more| ==> more[i] == cs[i + 1];
    forall i | 0 <= i < |more|
      ensures Outcome(step, p, SkipsAt(p, Skips(p, cs[1].chunk.kind), more, i), more[i])
           == Outcome(step, p, SkipsAt(p, skip, cs, i + 1), cs[i + 1])
    {
    }
    if i :| 0 <= i < |cs| && Outcome(step, p, SkipsAt(p, skip, cs, i), cs[i]) == Refuse {
      if i > 0 { assert more[i - 1] == cs[i]; }
    }
    assert SkipsAt(p, skip, cs, 0) == skip;
  }

  /** A policy that refuses critical chunks with a wrong CRC, and a file with such a chunk that starts with a critical
      one: it is accepted all the same, exactly when ancillary chunks are to be used as they are and the CRC of the
      first chunk, which is never skipped, is right. */
  lemma CriticalUnchecked(step: Step, p: Policy, cs: seq<Stored>, k: nat, rest: seq<byte>)
    requires Ended(cs) && |cs| > 1 && k < |cs| && p.critical == Error && Critical(cs[0].chunk.kind)
    requires Critical(cs[k].chunk.kind) && cs[k].crc != ChunkCrc(step, cs[k].chunk)
    ensures Parse(step, p, false, cs[0].chunk.kind, |cs[0].chunk.data|, AfterStored(cs, rest)).Chunks? <==>
            p.ancillary == Use && cs[0].crc == ChunkCrc(step, cs[0].chunk)
  {
    StoredIsParsed(step, p, false, cs, rest);
    assert Outcome(step, p, SkipsAt(p, false, cs, 0), cs[0]) == Refuse <==> cs[0].crc != ChunkCrc(step, cs[0].chunk);
    if p.ancillary != Use { assert Outcome(step, p, SkipsAt(p, false, cs, k), cs[k]) == Refuse; }
  }

  /** So a wrong CRC of the first chunk is always noticed. */
  lemma FirstIsChecked(step: Step, p: Policy, cs: seq<Stored>, rest: seq<byte>)
    requires Ended(cs) && |cs| > 1 && p.critical == Error && Critical(cs[0].chunk.kind)
    requires cs[0].crc != ChunkCrc(step, cs[0].chunk)
    ensures Parse(step, p, false, cs[0].chunk.kind, |cs[0].chunk.data|, AfterStored(cs, rest)) == Unreadable(EChunkCrc)
  {
    StoredIsParsed(step, p, false, cs, rest);
    assert Outcome(step, p, SkipsAt(p, false, cs, 0), cs[0]) == Refuse;
  }

  /** For example IHDR, then PLTE with any wrong CRC, then IEND. */
  lemma CorruptedIsAccepted(step: Step, ihdr: Chunk, plte: Chunk, wrong: u32, end: seq<byte>, rest: seq<byte>)
    requires Legal(ihdr) && Legal(plte) && ihdr.kind == IHDR && plte.kind == [80, 76, 84, 69]
    requires end == IEND && |end| == 4 && wrong != ChunkCrc(step, plte)
    ensures var cs := [Stored(ihdr, ChunkCrc(step, ihdr)), Stored(plte, wrong),
                       Stored(Chunk(end, []), ChunkCrc(step, Chunk(end, [])))];
            Ended(cs) &&
            Parse(step, Policy(Error, Use), false, ihdr.kind, |ihdr.data|, AfterStored(cs, rest)).Chunks? &&
            !Parse(step, STRICT, false, ihdr.kind, |ihdr.data|, AfterStored(cs, rest)).Chunks?
  {
    var cs := [Stored(ihdr, ChunkCrc(step, ihdr)), Stored(plte, wrong),
               Stored(Chunk(end, []), ChunkCrc(step, Chunk(end, [])))];
    assert ihdr.kind[1] != IEND[1] && plte.kind[0] != IEND[0];
    CriticalUnchecked(step, Policy(Error, Use), cs, 1, rest);
    CriticalUnchecked(step, STRICT, cs, 1, rest);
  }
}
