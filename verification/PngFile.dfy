/** From the rows of an image to the bytes of a file and back: the chunk layer composed with the image layer. */
module PngFile {
  import opened Bytes
  import opened ChunkFormat
  import opened ChunkWriter
  import opened ChunkReader
  import FilterChoice
  import ImageCodec
  import ImageHeader
  import ImageStream
  import ImageRoundTrip
  import RowOrder

  /** The data of the IDAT chunks of a file. */
  function IdatPayload(cs: seq<Chunk>): seq<byte> {
    if cs == [] then [] else (if cs[0].kind == IDAT then cs[0].data else []) + IdatPayload(cs[1..])
  }

  predicate NoIdat(cs: seq<Chunk>) {
    forall i :: 0 <= i < |cs| ==> cs[i].kind != IDAT
  }

  lemma {:induction false} PayloadSplit(a: seq<Chunk>, b: seq<Chunk>)
    ensures IdatPayload(a + b) == IdatPayload(a) + IdatPayload(b)
  {
    if a == [] {
      assert a + b == b;
    } else {
      assert (a + b)[1..] == a[1..] + b;
      PayloadSplit(a[1..], b);
      Regroup(if a[0].kind == IDAT then a[0].data else [], IdatPayload(a[1..]), IdatPayload(b));
    }
  }

  lemma {:induction false} NoPayload(cs: seq<Chunk>)
    requires NoIdat(cs)
    ensures IdatPayload(cs) == []
  {
    if cs != [] { NoPayload(cs[1..]); }
  }

  lemma {:induction false} AllPayload(cs: seq<Chunk>)
    requires AllIdat(cs)
    ensures IdatPayload(cs) == Payload(cs) && NoEnd(cs)
  {
    if cs != [] {
      AllPayload(cs[1..]);
      assert forall i :: 0 < i < |cs| ==> cs[i] == cs[1..][i - 1];
    }
  }

  /** The pieces of a stream are IDAT chunks that hold the stream. */
  lemma {:induction false} PiecesHoldStream(s: seq<byte>)
    ensures AllIdat(IdatChunks(s)) && Payload(IdatChunks(s)) == s
  {
    if |s| < WRITE_SIZE {
      assert IdatChunks(s) == [Chunk(IDAT, s)];
      assert [Chunk(IDAT, s)][1..] == [];
    } else {
      var t := s[WRITE_SIZE..];
      PiecesHoldStream(t);
      assert IdatChunks(s) == [Chunk(IDAT, s[..WRITE_SIZE])] + IdatChunks(t);
      assert IdatChunks(s)[1..] == IdatChunks(t);
    }
  }

  /** The pieces hold 8192 bytes each, and the last one what is left, which may be nothing. */
  lemma {:induction false} PieceSizes(s: seq<byte>, full: nat, left: nat, i: nat)
    requires |s| == 8192 * full + left && left < 8192 && i <= full
    ensures |IdatChunks(s)| == full + 1
    ensures IdatChunks(s)[i]
         == Chunk([73, 68, 65, 84], if i < full then s[8192 * i..8192 * i + 8192] else s[8192 * i..])
    decreases full
  {
    PiecesFromFront(s);
    if full > 0 {
      hide IdatChunks;
      PieceSizes(s[8192..], full - 1, left, if i > 0 then i - 1 else 0);
      if i > 0 { SliceOfRest(s, 8192, 8192 * i); }
    }
  }

  lemma PiecesFromFront(s: seq<byte>)
    ensures IdatChunks(s) == if |s| < 8192 then [Chunk([73, 68, 65, 84], s)]
                             else [Chunk([73, 68, 65, 84], s[..8192])] + IdatChunks(s[8192..])
  {
  }

  lemma SliceOfRest(s: seq<byte>, n: nat, at: nat)
    requires n <= at <= |s|
    ensures s[n..][at - n..] == s[at..] && (at + n <= |s| ==> s[n..][at - n..at] == s[at..at + n])
  {
  }

  /** The chunks of an image file, IEND not included. */
  function FileChunks(before: seq<Chunk>, stream: seq<byte>, after: seq<Chunk>): seq<Chunk> {
    before + IdatChunks(stream) + after
  }

  /** What is recovered from an emitted file, after its first chunk header. */
  lemma FileIsParsed(step: Step, p: Policy, before: seq<Chunk>, stream: seq<byte>, after: seq<Chunk>, end: seq<byte>,
                     rest: seq<byte>)
    requires AllLegal(before) && AllLegal(after) && NoEnd(before) && NoEnd(after) && NoIdat(before) && NoIdat(after)
    requires end == IEND && |end| == 4
    ensures var cs := FileChunks(before, stream, after);
            |cs| > 0 && AllLegal(cs) && IdatPayload(cs) == stream &&
            Parse(step, p, false, cs[0].kind, |cs[0].data|, AfterHeader(step, cs, EndChunk(step, end, rest))) ==
            Chunks(cs, rest)
  {
    var idat := IdatChunks(stream);
    PiecesHoldStream(stream);
    AllPayload(idat);
    PayloadSplit(before + idat, after);
    PayloadSplit(before, idat);
    NoPayload(before);
    NoPayload(after);
    assert [] + stream + [] == stream;
    EmittedIsParsed(step, p, false, FileChunks(before, stream, after), end, rest);
  }

  /** An image that is encoded, cut into chunks, written, read, parsed and decoded is the same image: for every header,
      format, filter choice, CRC, CRC policy and other chunks around it. */
  lemma FileRoundTrip(step: Step, p: Policy, before: seq<Chunk>, after: seq<Chunk>, end: seq<byte>, rest: seq<byte>,
                      h: ImageHeader.Header, order: ImageStream.Order, choices: FilterChoice.Choices, img: seq<byte>,
                      out: seq<byte>)
    requires AllLegal(before) && AllLegal(after) && NoEnd(before) && NoEnd(after) && NoIdat(before) && NoIdat(after)
    requires end == IEND && |end| == 4
    requires |img| == |out| == ImageStream.ImageSize(h) && ImageRoundTrip.ReadyFor(h, out)
    ensures var cs := FileChunks(before, ImageStream.Encode(h, order, choices, img), after);
            |cs| > 0 && AllLegal(cs) &&
            var file := Parse(step, p, false, cs[0].kind, |cs[0].data|,
                              AfterHeader(step, cs, EndChunk(step, end, rest)));
            file.Chunks? && file.rest == rest &&
            var d := ImageStream.Decode(h, order, IdatPayload(file.kept), out);
            d.Decoded? && d.rest == [] && |d.out| == |img| &&
            (forall x, y :: 0 <= x < h.width && 0 <= y < h.height ==> ImageRoundTrip.SamePixel(h, img, d.out, x, y)) &&
            (!(h.interlaced && h.SubByte()) ==> d.out == img)
  {
    var stream := ImageStream.Encode(h, order, choices, img);
    FileIsParsed(step, p, before, stream, after, end, rest);
    ImageRoundTrip.RoundTrip(h, order, choices, img, out, []);
    assert stream + [] == stream;
  }

  // ---------- the header ----------

  /** The data of IHDR. */
  function IhdrData(h: ImageHeader.Header): (s: seq<byte>)
    ensures |s| == 13
  {
    WriteU32(h.width) + WriteU32(h.height) + [h.bitDepth, h.colorType, 0, 0, if h.interlaced then 1 else 0]
  }

  /** The header in the data of IHDR, if check_ihdr accepts it. */
  function HeaderOf(data: seq<byte>): Option<ImageHeader.Header>
    requires |data| == 13
  {
    var h := ImageHeader.Ihdr(Number(data[..4]), Number(data[4..8]), data[8], data[9], data[12] == 1);
    if h.Valid() && data[10] == 0 && data[11] == 0 && data[12] <= 1 then Some(h) else None
  }

  /** The thirteen bytes of the data of IHDR (section 11.2.2 of ISO/IEC 15948:2003). */
  lemma IhdrBytes(h: ImageHeader.Header)
    ensures var s := IhdrData(h);
            0x100_0000 * (s[0] as int) + 0x1_0000 * (s[1] as int) + 0x100 * (s[2] as int) + s[3] == h.width &&
            0x100_0000 * (s[4] as int) + 0x1_0000 * (s[5] as int) + 0x100 * (s[6] as int) + s[7] == h.height &&
            s[8] == h.bitDepth && s[9] == h.colorType && s[10] == 0 && s[11] == 0 &&
            s[12] == if h.interlaced then 1 else 0
  {
    NumberBytes(WriteU32(h.width));
    NumberBytes(WriteU32(h.height));
  }

  /** Exactly the headers of the standard are accepted: dimensions from 1 to 2^31 - 1, the depths that go with the
      color type, compression and filter method 0 and interlace method 0 or 1 (table 11.1 of ISO/IEC 15948:2003). */
  lemma HeaderAccepted(s: seq<byte>)
    requires |s| == 13
    ensures var w, y, depth, color := Number(s[..4]), Number(s[4..8]), s[8], s[9];
            HeaderOf(s).Some? <==>
            1 <= w < 0x8000_0000 && 1 <= y < 0x8000_0000 && s[10] == 0 && s[11] == 0 && s[12] <= 1 &&
            ((color == 0 && depth in {1, 2, 4, 8, 16}) || (color == 3 && depth in {1, 2, 4, 8}) ||
             ((color == 2 || color == 4 || color == 6) && depth in {8, 16}))
  {
  }

  /** Every header is read back. */
  lemma HeaderIsRead(h: ImageHeader.Header)
    ensures HeaderOf(IhdrData(h)) == Some(h)
  {
    var w, y := WriteU32(h.width), WriteU32(h.height);
    var s := [h.bitDepth, h.colorType, 0, 0, if h.interlaced then 1 else 0];
    assert IhdrData(h) == w + y + s;
    assert (w + y + s)[..4] == w && (w + y + s)[4..8] == y && (w + y + s)[8..] == s;
    assert h == ImageHeader.Ihdr(h.width, h.height, h.bitDepth, h.colorType, h.interlaced);
  }

  // ---------- the bytes of a file ----------

  /** The bytes of a file: the signature, IHDR, other chunks, and what ends it. */
  ghost function FileOf(step: Step, signature: seq<byte>, ihdr: Chunk, more: seq<Chunk>, tail: seq<byte>): seq<byte>
    requires Legal(ihdr) && AllLegal(more)
  {
    signature + (Wire(step, ihdr) + AfterCrc(step, more, tail))
  }

  /** The parts of a file up to the header of the second chunk. */
  lemma FileStart(step: Step, signature: seq<byte>, ihdr: Chunk, more: seq<Chunk>, tail: seq<byte>)
    requires signature == SIGNATURE && |signature| == 8 && ihdr.kind == IHDR && |ihdr.data| == 13
    requires Legal(ihdr) && AllLegal(more) && |more| > 0
    ensures var s, first := FileOf(step, signature, ihdr, more, tail), more[0];
            StartError(s).None? && s[12..16] == ihdr.kind && s[16..29] == ihdr.data &&
            |s| >= 41 && Number(s[29..33]) == ChunkCrc(step, ihdr) && Number(s[33..37]) == |first.data| &&
            s[37..41] == first.kind && s[41..] == AfterHeader(step, more, tail)
  {
    NextHeader(step, more, tail);
    FlatStart(signature, U32(|ihdr.data|), ihdr.kind, ihdr.data, U32(ChunkCrc(step, ihdr)), U32(|more[0].data|),
              more[0].kind, AfterHeader(step, more, tail));
  }

  lemma FlatStart(a: seq<byte>, b: seq<byte>, c: seq<byte>, d: seq<byte>, e: seq<byte>, f: seq<byte>, g: seq<byte>,
                  rest: seq<byte>)
    requires |a| == 8 && |b| == |c| == |e| == |f| == |g| == 4 && |d| == 13
    ensures var s := a + (b + c + d + e + (f + g + rest));
            |s| >= 41 && s[..8] == a && s[8..12] == b && s[12..16] == c && s[16..29] == d && s[29..33] == e &&
            s[33..37] == f && s[37..41] == g && s[41..] == rest
  {
  }

  lemma FourParts(a: seq<byte>, b: seq<byte>, c: seq<byte>, d: seq<byte>)
    ensures a + b + c + d == a + (b + (c + d))
  {
  }

  /** A whole file is parsed back, as far as its chunks go. */
  lemma WholeFileIsParsed(step: Step, p: Policy, signature: seq<byte>, ihdr: Chunk, more: seq<Chunk>, end: seq<byte>,
                          rest: seq<byte>)
    requires signature == SIGNATURE && |signature| == 8 && ihdr.kind == IHDR && |ihdr.data| == 13
    requires Legal(ihdr) && AllLegal(more) && |more| > 0 && NoEnd(more) && end == IEND && |end| == 4
    ensures ParseFile(step, p, FileOf(step, signature, ihdr, more, EndChunk(step, end, rest)))
         == Chunks([ihdr] + more, rest)
  {
    hide Parse, EndChunk, StartError;
    var tail := EndChunk(step, end, rest);
    var s, cs := FileOf(step, signature, ihdr, more, tail), [ihdr] + more;
    FileStart(step, signature, ihdr, more, tail);
    IhdrIsNotIend(ihdr.kind);
    assert cs[1..] == more;
    EmittedIsParsed(step, p, false, cs, end, rest);
    FourParts(Header(ihdr.kind, 13), ihdr.data, U32(ChunkCrc(step, ihdr)), AfterCrc(step, more, tail));
    assert s == signature + (Header(ihdr.kind, 13) + AfterHeader(step, cs, tail));
    FromData(signature, Header(ihdr.kind, 13), AfterHeader(step, cs, tail));
    FileFromData(step, p, s);
  }

  lemma FromData(a: seq<byte>, b: seq<byte>, c: seq<byte>)
    requires |a| == |b| == 8
    ensures (a + (b + c))[16..] == c
  {
  }

  lemma FileFromData(step: Step, p: Policy, s: seq<byte>)
    requires StartError(s).None?
    ensures ParseFile(step, p, s) == Parse(step, p, false, s[12..16], 13, s[16..])
  {
    assert s[16..][..13] == s[16..29] && s[16..][13..] == s[29..];
  }

  // ---------- the running writer and reader ----------

  function Joined(rows: seq<seq<byte>>): seq<byte> {
    if rows == [] then [] else Joined(rows[..|rows| - 1]) + rows[|rows| - 1]
  }

  function Total(lens: seq<nat>): nat {
    if lens == [] then 0 else Total(lens[..|lens| - 1]) + lens[|lens| - 1]
  }

  /** The signature and IHDR. */
  method WriteStart(step: Step, streaming: bool, h: ImageHeader.Header) returns (w: Writer)
    ensures fresh(w) && fresh(w.buf) && w.Valid() && w.step == step
    ensures w.Emitted() == SIGNATURE + Wire(step, Chunk(IHDR, IhdrData(h)))
  {
    w := new Writer(step, streaming);
    var status := w.WriteData(SIGNATURE);
    assert [] + SIGNATURE == SIGNATURE;
    status := w.WriteChunk(IHDR, IhdrData(h));
  }

  /** write_idat_bytes for every row, and finish_idat. */
  method WriteIdat(w: Writer, rows: seq<seq<byte>>)
    requires w.Valid() && forall i :: 0 <= i < |rows| ==> rows[i] != []
    modifies w, w.buf
    ensures w.Valid() && (w.buf == old(w.buf) || fresh(w.buf))
    ensures w.Emitted() == old(w.Emitted()) + Emit(w.step, IdatChunks(Joined(rows)))
  {
    ghost var pre := w.Emitted();
    w.StartIdat();
    for i := 0 to |rows|
      invariant (w.buf == old(w.buf) || fresh(w.buf)) && w.InIdat(pre, Joined(rows[..i]))
    {
      assert rows[..i + 1][..i] == rows[..i];
      var status := w.WriteIdatBytes(rows[i], pre, Joined(rows[..i]));
    }
    assert rows[..|rows|] == rows;
    var status := w.FinishIdat(pre, Joined(rows));
  }

  /** The file of an image whose rows are written one by one. */
  method WriteFile(step: Step, streaming: bool, h: ImageHeader.Header, rows: seq<seq<byte>>) returns (file: seq<byte>)
    requires forall i :: 0 <= i < |rows| ==> rows[i] != []
    ensures file == FileOf(step, SIGNATURE, Chunk(IHDR, IhdrData(h)), IdatChunks(Joined(rows)), IEND_CHUNK)
  {
    var w := WriteStart(step, streaming, h);
    WriteIdat(w, rows);
    file := WriteEnd(w, SIGNATURE, Chunk(IHDR, IhdrData(h)), IdatChunks(Joined(rows)));
  }

  method WriteEnd(w: Writer, ghost signature: seq<byte>, ghost ihdr: Chunk, ghost idat: seq<Chunk>)
    returns (file: seq<byte>)
    requires Legal(ihdr) && AllLegal(idat)
    requires w.Valid() && w.Emitted() == signature + Wire(w.step, ihdr) + Emit(w.step, idat)
    modifies w, w.buf
    ensures file == FileOf(w.step, signature, ihdr, idat, IEND_CHUNK)
  {
    ghost var a, b := Wire(w.step, ihdr), Emit(w.step, idat);
    var status := w.WriteIend();
    file := if w.streaming then w.sent else w.buf[..w.encoded];
    FourParts(signature, a, b, IEND_CHUNK);
  }

  /** read_scanline_bytes for each length, from a reader that has read the header of the first IDAT chunk. */
  method ReadRows(r: Reader, lens: seq<nat>, ghost stream: seq<byte>) returns (rows: seq<seq<byte>>)
    requires r.InIdat([]) && r.availIn == [] && r.IdatLeft([]) == IdatBytes(stream, EIdatTooShort) &&
             Total(lens) == |stream|
    modifies r
    ensures |rows| == |lens| && Joined(rows) == stream
    ensures forall i :: 0 <= i < |rows| ==> |rows[i]| == lens[i]
  {
    rows := [];
    ghost var read := [];
    while |rows| < |lens|
      invariant |rows| <= |lens| && r.InIdat(read) && Between(r, read, rows, stream)
      invariant forall i :: 0 <= i < |rows| ==> |rows[i]| == lens[i]
      invariant |Joined(rows)| == Total(lens[..|rows|])
    {
      TotalNext(lens, |rows|);
      var row;
      row, read := ReadOneRow(r, lens[|rows|], read, rows, stream);
      rows := rows + [row];
    }
    assert lens[..|lens|] == lens;
    assert Joined(rows) == stream[..|Joined(rows)|];
  }

  /** The rows so far and what is still to come are the stream. */
  ghost predicate Between(r: Reader, read: seq<byte>, rows: seq<seq<byte>>, stream: seq<byte>)
    reads r
    requires r.Valid()
  {
    var b := r.IdatLeft(read);
    Joined(rows) + (r.availIn + b.data) == stream && b.end == EIdatTooShort
  }

  method ReadOneRow(r: Reader, len: nat, ghost read: seq<byte>, ghost rows: seq<seq<byte>>, ghost stream: seq<byte>)
    returns (row: seq<byte>, ghost read': seq<byte>)
    requires r.InIdat(read) && Between(r, read, rows, stream) && |Joined(rows)| + len <= |stream|
    modifies r
    ensures r.InIdat(read') && |row| == len && |Joined(rows + [row])| == |Joined(rows)| + len
    ensures Between(r, read', rows + [row], stream)
  {
    var status;
    status, row, read' := r.ReadScanlineBytes(len, read);
    JoinedOneMore(rows, row, r.availIn + r.IdatLeft(read').data);
  }

  /** The reader behind the header of the first IDAT chunk, and the data of IHDR. */
  method OpenFile(step: Step, policy: Policy, streaming: bool, file: seq<byte>, ghost signature: seq<byte>,
                  ghost ihdr: Chunk, ghost idat: seq<Chunk>, ghost end: seq<byte>, ghost endLength: u32,
                  ghost rest: seq<byte>)
    returns (r: Reader, data: seq<byte>)
    requires Sensible(policy) && signature == SIGNATURE && |signature| == 8 && ihdr.kind == IHDR && |ihdr.data| == 13
    requires Legal(ihdr) && AllLegal(idat) && AllIdat(idat) && |idat| > 0
    requires |end| == 4 && end != IDAT && endLength <= MAX_LENGTH
    requires file == FileOf(step, signature, ihdr, idat, Header(end, endLength) + rest)
    ensures fresh(r) && data == ihdr.data
    ensures r.InIdat([]) && r.availIn == [] && r.IdatLeft([]) == IdatBytes(Payload(idat), EIdatTooShort)
  {
    hide FileOf, StartError, AfterHeader;
    ghost var tail := Header(end, endLength) + rest;
    FileStart(step, signature, ihdr, idat, tail);
    r := new Reader(step, policy, streaming, file);
    var status, discard;
    status, data := r.ReadIhdr();
    CutAfter(file, r.Unread());
    status, discard := r.ReadHeader(data);
    ChunksAhead(step, policy, streaming, r.skipCrc, idat, end, endLength, rest);
  }

  lemma CutAfter(s: seq<byte>, t: seq<byte>)
    requires |s| >= 41 && t == s[29..]
    ensures t[..4] == s[29..33] && t[4..8] == s[33..37] && t[8..12] == s[37..41] && t[12..] == s[41..]
  {
  }

  /** The bytes that end a file are the header of a chunk without data, and a CRC. */
  lemma IendParts() returns (end: seq<byte>, endLength: u32, rest: seq<byte>)
    ensures end == IEND && |end| == 4 && endLength <= MAX_LENGTH && IEND_CHUNK == Header(end, endLength) + rest
  {
    end, endLength, rest := IEND, 0, IEND_CRC;
    assert Header(IEND, 0) == IEND_LENGTH + IEND by { SameNumber(IEND_LENGTH, U32(0)); }
  }

  lemma IendIsNotIdat(kind: seq<byte>)
    ensures kind == IEND ==> kind != IDAT
  {
    assert IEND[1] != IDAT[1];
  }

  lemma TotalNext(lens: seq<nat>, n: nat)
    requires n < |lens|
    ensures Total(lens[..n + 1]) == Total(lens[..n]) + lens[n] && Total(lens[..n]) + lens[n] <= Total(lens)
  {
    TotalGrows(lens, n + 1);
    assert lens[..n + 1][..n] == lens[..n];
  }

  lemma {:induction false} TotalGrows(lens: seq<nat>, n: nat)
    requires n <= |lens|
    ensures Total(lens[..n]) <= Total(lens)
    decreases |lens|
  {
    if n == |lens| {
      assert lens[..n] == lens;
    } else {
      assert lens[..|lens| - 1][..n] == lens[..n];
      TotalGrows(lens[..|lens| - 1], n);
    }
  }

  lemma JoinedOneMore(rows: seq<seq<byte>>, row: seq<byte>, left: seq<byte>)
    ensures Joined(rows + [row]) == Joined(rows) + row && Joined(rows + [row]) + left == Joined(rows) + (row + left)
  {
    assert (rows + [row])[..|rows|] == rows;
    Regroup(Joined(rows), row, left);
  }

  /** The header and the stream that are read are those that were written, however the stream was cut for writing and
      for reading, whichever way the file is written and read, and whatever is done about CRCs. */
  method Transfer(step: Step, policy: Policy, toStream: bool, fromStream: bool, h: ImageHeader.Header,
                  rows: seq<seq<byte>>, lens: seq<nat>)
    returns (loaded: Option<ImageHeader.Header>, out: seq<seq<byte>>)
    requires Sensible(policy) && Total(lens) == |Joined(rows)| && forall i :: 0 <= i < |rows| ==> rows[i] != []
    ensures loaded == Some(h) && |out| == |lens| && Joined(out) == Joined(rows)
    ensures forall i :: 0 <= i < |out| ==> |out[i]| == lens[i]
  {
    var file := WriteFile(step, toStream, h, rows);
    var r;
    r, loaded := LoadStart(step, policy, fromStream, file, h, Joined(rows));
    out := ReadRows(r, lens, Joined(rows));
  }

  /** The header of a file that was written, and the reader in front of its stream. */
  method LoadStart(step: Step, policy: Policy, streaming: bool, file: seq<byte>, ghost h: ImageHeader.Header,
                   ghost stream: seq<byte>)
    returns (r: Reader, loaded: Option<ImageHeader.Header>)
    requires Sensible(policy)
    requires file == FileOf(step, SIGNATURE, Chunk(IHDR, IhdrData(h)), IdatChunks(stream), IEND_CHUNK)
    ensures fresh(r) && r.InIdat([]) && r.availIn == [] && r.IdatLeft([]) == IdatBytes(stream, EIdatTooShort)
    ensures loaded == Some(h)
  {
    PiecesHoldStream(stream);
    HeaderIsRead(h);
    ghost var end, endLength, rest := IendParts();
    IendIsNotIdat(end);
    var data;
    r, data := OpenFile(step, policy, streaming, file, SIGNATURE, Chunk(IHDR, IhdrData(h)), IdatChunks(stream),
                        end, endLength, rest);
    loaded := HeaderOf(data);
  }

  // ---------- the rows that are written and read ----------

  /** What encode_scanline writes for each row, from row p on: its filter byte and its bytes. */
  function WriteLengths(h: ImageHeader.Header, p: RowOrder.Pos): (lens: seq<nat>)
    requires RowOrder.IsRow(h, p)
    ensures forall i :: 0 <= i < |lens| ==> lens[i] > 0
    decreases 7 - p.pass, h.SubHeight(p.pass) - p.idx
  {
    RowOrder.NextIsLeast(h, p);
    [1 + ImageStream.RowLength(h, p)] +
    match RowOrder.NextRow(h, p)
    case End => []
    case Row(q) => WriteLengths(h, q)
  }

  /** What read_scanline reads for each row, from row p on: its bytes, and the filter byte of the next row. */
  function ReadLengths(h: ImageHeader.Header, p: RowOrder.Pos): seq<nat>
    requires RowOrder.IsRow(h, p)
    decreases 7 - p.pass, h.SubHeight(p.pass) - p.idx
  {
    RowOrder.NextIsLeast(h, p);
    match RowOrder.NextRow(h, p)
    case End => [ImageStream.RowLength(h, p)]
    case Row(q) => [ImageStream.RowLength(h, p) + 1] + ReadLengths(h, q)
  }

  lemma {:induction false} TotalFront(n: nat, lens: seq<nat>)
    ensures Total([n] + lens) == n + Total(lens)
    decreases |lens|
  {
    if lens == [] {
      assert [n] + lens == [n] && [n][..0] == [];
    } else {
      var k := |lens| - 1;
      assert ([n] + lens)[..k + 1] == [n] + lens[..k];
      TotalFront(n, lens[..k]);
    }
  }

  lemma StreamLength(h: ImageHeader.Header, order: ImageStream.Order, choices: FilterChoice.Choices, img: seq<byte>,
                     p: RowOrder.Pos)
    requires |img| == ImageStream.ImageSize(h) && RowOrder.IsRow(h, p)
    ensures RowOrder.NextRow(h, p).Row? ==> RowOrder.IsRow(h, RowOrder.NextRow(h, p).pos)
    ensures |ImageStream.EncodeFrom(h, order, choices, img, p)|
         == 1 + ImageStream.RowLength(h, p) +
            match RowOrder.NextRow(h, p)
            case End => 0
            case Row(q) => |ImageStream.EncodeFrom(h, order, choices, img, q)|
  {
    RowOrder.NextIsLeast(h, p);
  }

  /** Both add up to the length of the stream, given the first filter byte. */
  lemma {:induction false} LengthsAddUp(h: ImageHeader.Header, order: ImageStream.Order, choices: FilterChoice.Choices,
                                        img: seq<byte>, p: RowOrder.Pos)
    requires |img| == ImageStream.ImageSize(h) && RowOrder.IsRow(h, p)
    ensures var n := |ImageStream.EncodeFrom(h, order, choices, img, p)|;
            Total(WriteLengths(h, p)) == n && 1 + Total(ReadLengths(h, p)) == n
    decreases 7 - p.pass, h.SubHeight(p.pass) - p.idx
  {
    hide ImageStream.EncodeFrom, ImageStream.RowLength, ImageStream.ImageSize;
    StreamLength(h, order, choices, img, p);
    var n := ImageStream.RowLength(h, p);
    match RowOrder.NextRow(h, p)
    case End =>
      TotalFront(1 + n, []);
      TotalFront(n, []);
      assert [n] + [] == [n] && [1 + n] + [] == [1 + n];
    case Row(q) =>
      LengthsAddUp(h, order, choices, img, q);
      TotalFront(1 + n, WriteLengths(h, q));
      TotalFront(n + 1, ReadLengths(h, q));
  }

  /** A stream in pieces of the given lengths. */
  method Cut(s: seq<byte>, lens: seq<nat>) returns (pieces: seq<seq<byte>>)
    requires Total(lens) == |s|
    ensures |pieces| == |lens| && Joined(pieces) == s && forall i :: 0 <= i < |lens| ==> |pieces[i]| == lens[i]
  {
    pieces := [];
    var at := 0;
    while |pieces| < |lens|
      invariant |pieces| <= |lens| && at == Total(lens[..|pieces|]) <= |s| && Joined(pieces) == s[..at]
      invariant forall i :: 0 <= i < |pieces| ==> |pieces[i]| == lens[i]
    {
      var n := lens[|pieces|];
      TotalNext(lens, |pieces|);
      var piece := s[at..at + n];
      JoinedOneMore(pieces, piece, []);
      assert s[..at] + piece == s[..at + n];
      pieces, at := pieces + [piece], at + n;
    }
    assert lens[..|lens|] == lens && s[..at] == s;
  }

  /** The running encoder, chunk writer, chunk reader and decoder one after the other, row by row as the source writes
      and reads them: the header and every pixel come back, whichever way the file is written and read, unless a
      scanline width does not fit. */
  method SaveAndLoad(step: Step, policy: Policy, toStream: bool, fromStream: bool, h: ImageHeader.Header,
                     order: ImageStream.Order, choices: FilterChoice.Choices, img: seq<byte>, out: array<byte>)
    returns (complete: bool, loaded: Option<ImageHeader.Header>)
    requires Sensible(policy) && |img| == out.Length == ImageStream.ImageSize(h) && ImageRoundTrip.ReadyFor(h, out[..])
    modifies out
    ensures !complete <==> exists p :: 0 <= p < 7 && ImageHeader.SubimageOf(h, p).scanlineWidth > 0xFFFF_FFFF
    ensures complete ==> loaded == Some(h)
    ensures complete ==> forall x, y :: 0 <= x < h.width && 0 <= y < h.height ==>
              ImageRoundTrip.SamePixel(h, img, out[..], x, y)
    ensures complete && !(h.interlaced && h.SubByte()) ==> out[..] == img
  {
    loaded := None;
    var status, stream := ImageCodec.EncodeWhole(h, order, choices, img);
    if status == ImageCodec.Overflow { return false, loaded; }
    var idat;
    loaded, idat := SaveAndLoadStream(step, policy, toStream, fromStream, h, order, choices, img, stream);
    ImageRoundTrip.RoundTrip(h, order, choices, img, out[..], []);
    assert stream + [] == stream;
    var decoded, unread := ImageCodec.DecodeWhole(loaded.value, order, idat, out);
    return true, loaded;
  }

  method SaveAndLoadStream(step: Step, policy: Policy, toStream: bool, fromStream: bool, h: ImageHeader.Header,
                           ghost order: ImageStream.Order, ghost choices: FilterChoice.Choices, ghost img: seq<byte>,
                           stream: seq<byte>)
    returns (loaded: Option<ImageHeader.Header>, idat: seq<byte>)
    requires Sensible(policy) && |img| == ImageStream.ImageSize(h)
    requires stream == ImageStream.Encode(h, order, choices, img)
    ensures loaded == Some(h) && idat == stream
  {
    RowOrder.FirstIsRow(h);
    LengthsAddUp(h, order, choices, img, RowOrder.FIRST);
    var rows := Cut(stream, WriteLengths(h, RowOrder.FIRST));
    TotalFront(1, ReadLengths(h, RowOrder.FIRST));
    var pieces;
    loaded, pieces := Transfer(step, policy, toStream, fromStream, h, rows, [1] + ReadLengths(h, RowOrder.FIRST));
    idat := Joined(pieces);
  }
}
