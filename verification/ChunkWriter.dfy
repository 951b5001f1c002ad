/** The chunk writer of the PNG encoder, on a growing buffer or on a stream that takes at most 8192 bytes at a time
    (kernel/lib/spng.c). */
module ChunkWriter {
  import opened Bytes
  import opened ChunkFormat

  /** SPNG_WRITE_SIZE */
  const WRITE_SIZE := 8192

  const IEND_LENGTH: seq<byte> := [0, 0, 0, 0]
  const IEND_CRC: seq<byte> := [174, 66, 96, 130]
  const IEND_CHUNK := IEND_LENGTH + IEND + IEND_CRC

  /** The bytes of write_iend are an empty IEND chunk exactly if the CRC of its type is the expected one. */
  lemma IendIsChunk(step: Step)
    ensures IEND_CHUNK == Wire(step, Chunk(IEND, [])) <==> Crc(step, 0, IEND) == Number(IEND_CRC)
  {
    IendBytes();
    EmptyChunk(step, IEND, IEND_CRC, IEND_CHUNK);
  }

  lemma IendBytes()
    ensures IEND_CHUNK == Header(IEND, 0) + IEND_CRC == [0, 0, 0, 0, 73, 69, 78, 68, 174, 66, 96, 130]
  {
    assert Header(IEND, 0) == IEND_LENGTH + IEND by { SameNumber(IEND_LENGTH, U32(0)); }
  }

  lemma EmptyChunk(step: Step, kind: seq<byte>, stored: seq<byte>, chunk: seq<byte>)
    requires |kind| == |stored| == 4 && chunk == Header(kind, 0) + stored
    ensures chunk == Wire(step, Chunk(kind, [])) <==> Crc(step, 0, kind) == Number(stored)
  {
    WireOfEmpty(step, kind);
    OnlyCrcFits(Header(kind, 0), stored, Crc(step, 0, kind));
  }

  lemma WireOfEmpty(step: Step, kind: seq<byte>)
    requires |kind| == 4
    ensures Wire(step, Chunk(kind, [])) == Header(kind, 0) + U32(Crc(step, 0, kind))
  {
    assert Header(kind, 0) + [] == Header(kind, 0);
  }

  lemma OnlyCrcFits(front: seq<byte>, stored: seq<byte>, crc: u32)
    requires |stored| == 4
    ensures front + stored == front + U32(crc) <==> crc == Number(stored)
  {
    SameFront(front, stored, U32(crc));
    if Number(stored) == crc { SameNumber(stored, U32(crc)); }
  }

  lemma SameFront(a: seq<byte>, b: seq<byte>, c: seq<byte>)
    ensures a + b == a + c <==> b == c
  {
    assert (a + b)[|a|..] == b && (a + c)[|a|..] == c;
  }

  datatype WriteStatus = Written | EInternal | EZlib

  function Max(a: nat, b: nat): nat {
    if a > b then a else b
  }

  /** A size doubled until it is enough: less than twice what is required, unless it was enough from the start. */
  function Doubled(size: nat, required: nat): (n: nat)
    requires size > 0
    ensures n >= size && n >= required && (n == size || n < 2 * required)
    decreases required - size
  {
    if size >= required then size else Doubled(size * 2, required)
  }

  class Writer {
    const step: Step
    const streaming: bool
    /** The buffer of the output: stream_buf or out_png. */
    var buf: array<byte>
    /** stream_buf_size or out_png_size. */
    var bufSize: nat
    /** bytes_encoded */
    var encoded: nat
    /** What write_fn was given. */
    var sent: seq<byte>
    /** The open chunk. */
    var kind: seq<byte>
    var length: u32
    var crc: u32
    /** avail_out of the deflate stream: the room left in the open IDAT chunk. */
    var availOut: nat

    ghost predicate Valid()
      reads this
    {
      |kind| == 4 && bufSize <= buf.Length &&
      if streaming then encoded == |sent| && (buf.Length <= bufSize || buf.Length <= WRITE_SIZE + 12)
      else encoded <= bufSize == buf.Length
    }

    /** Everything written so far. */
    ghost function Emitted(): seq<byte>
      reads this, buf
      requires Valid()
    {
      if streaming then sent else buf[..encoded]
    }

    /** Where the open chunk is put together. */
    function Base(): nat
      reads this
    {
      if streaming then 0 else encoded
    }

    constructor (step: Step, streaming: bool)
      ensures Valid() && this.step == step && this.streaming == streaming && Emitted() == [] && fresh(buf)
    {
      this.step, this.streaming := step, streaming;
      buf, bufSize, encoded, sent := new byte[0], 0, 0, [];
      kind, length, crc, availOut := [0, 0, 0, 0], 0, 0, 0;
    }

    /** spng__realloc to a larger size. */
    method Realloc(size: nat)
      requires Valid() && size >= buf.Length
      modifies this`buf
      ensures fresh(buf) && buf.Length == size && buf[..old(buf.Length)] == old(buf[..])
    {
      var bigger := new byte[size];
      var was := buf;
      for i := 0 to was.Length
        invariant bigger[..i] == was[..i]
      {
        bigger[i] := was[i];
      }
      assert was[..was.Length] == was[..];
      buf := bigger;
    }

    /** require_bytes */
    method RequireBytes(bytes: nat)
      requires Valid()
      modifies this`buf, this`bufSize
      ensures Valid() && Base() + bytes <= bufSize && (buf == old(buf) || fresh(buf)) && Emitted() == old(Emitted())
      ensures bufSize == if Base() + bytes <= old(bufSize) then old(bufSize)
                         else if streaming then bytes
                         else Doubled(Max(old(bufSize), WRITE_SIZE * 2), encoded + bytes)
    {
      if streaming {
        if bytes > bufSize {
          var newSize := bufSize;
          if newSize < WRITE_SIZE + 12 { newSize := WRITE_SIZE + 12; }
          if newSize < bytes { newSize := bytes; }
          Realloc(newSize);
          bufSize := bytes;
        }
        return;
      }
      var required := encoded + bytes;
      if required > bufSize {
        var newSize := bufSize;
        if newSize < WRITE_SIZE * 2 { newSize := WRITE_SIZE * 2; }
        while newSize < required
          invariant newSize >= WRITE_SIZE * 2 && newSize >= bufSize
          invariant Doubled(newSize, required) == Doubled(Max(bufSize, WRITE_SIZE * 2), required)
          decreases required - newSize
        {
          newSize := newSize * 2;
        }
        ghost var was := buf[..encoded];
        Realloc(newSize);
        assert buf[..encoded] == was;
        bufSize := newSize;
      }
    }

    // ---------- one chunk ----------

    /** The open chunk has room for its length, with header and CRC, and its CRC covers its type so far. */
    ghost predicate Open()
      reads this
    {
      Valid() && length <= MAX_LENGTH && Base() + length + 12 <= bufSize && crc == Crc(step, 0, kind)
    }

    /** The data of the open chunk. */
    ghost function Data(): (s: seq<byte>)
      reads this, buf
      requires Open()
      ensures |s| == length
    {
      buf[Base() + 8..Base() + 8 + length]
    }

    /** memcpy into the buffer. */
    method Put(at: nat, s: seq<byte>)
      requires at + |s| <= buf.Length
      modifies buf
      ensures buf[at..at + |s|] == s
      ensures forall k :: 0 <= k < at || at + |s| <= k < buf.Length ==> buf[k] == old(buf[k])
    {
      for i := 0 to |s|
        invariant forall k :: 0 <= k < buf.Length ==> buf[k] == if at <= k < at + i then s[k - at] else old(buf[k])
      {
        buf[at + i] := s[i];
      }
    }

    /** write_header: starts a chunk; its data goes to the returned place. */
    method WriteHeader(chunkKind: seq<byte>, chunkLength: nat) returns (status: WriteStatus, data: nat)
      requires Valid() && |chunkKind| == 4
      modifies this
      ensures availOut == old(availOut)
      ensures status == (if chunkLength > MAX_LENGTH then EInternal else Written)
      ensures status == EInternal ==> Valid() && buf == old(buf) && Emitted() == old(Emitted())
      ensures status == Written ==>
                Open() && (buf == old(buf) || fresh(buf)) && kind == chunkKind && length == chunkLength &&
                data == Base() + 8 && Emitted() == old(Emitted())
    {
      if chunkLength > MAX_LENGTH { return EInternal, 0; }
      RequireBytes(chunkLength + 12);
      crc := Crc(step, 0, chunkKind);
      kind, length := chunkKind, chunkLength;
      return Written, Base() + 8;
    }

    /** trim_chunk */
    method TrimChunk(newLength: nat) returns (status: WriteStatus)
      requires Open()
      modifies this`length
      ensures Open() && Emitted() == old(Emitted())
      ensures status == (if newLength > old(length) then EInternal else Written)
      ensures length == (if newLength > old(length) then old(length) else newLength)
    {
      if newLength > MAX_LENGTH || newLength > length { return EInternal; }
      length := newLength;
      return Written;
    }

    /** finish_chunk: fills in the header and the CRC and sends the chunk. */
    method FinishChunk() returns (status: WriteStatus)
      requires Open()
      modifies this, buf
      ensures status == Written && Valid() && buf == old(buf) && availOut == old(availOut)
      ensures Emitted() == old(Emitted()) + Wire(step, Chunk(old(kind), old(Data())))
    {
      ghost var before, c := Emitted(), Chunk(kind, Data());
      Seal(c);
      ghost var wire := Wire(step, c);
      if streaming {
        SendPieces(0, length + 12);
        assert buf[0..length + 12] == wire;
      } else {
        assert buf[..encoded] + buf[encoded..encoded + length + 12] == buf[..encoded + length + 12];
        encoded := encoded + length;
        encoded := encoded + 12;
      }
      status := Written;
    }

    /** Puts header and CRC around the data of the open chunk. */
    method Seal(ghost c: Chunk)
      requires Open() && c == Chunk(kind, Data())
      modifies this`crc, buf
      ensures buf[Base()..Base() + length + 12] == Wire(step, c)
      ensures buf[..Base()] == old(buf[..Base()])
    {
      SealFront(Base(), length, kind, Data());
      var base, n := Base(), length;
      assert buf[base + 8..base + 8 + n] == c.data by {
        assert buf[base + 8..base + 8 + n] == buf[base..base + 8 + n][8..];
      }
      crc := Crc(step, crc, buf[base + 8..base + 8 + n]);
      SealBack(base + 8 + n, WriteU32(crc), base, Header(kind, n) + c.data);
    }

    method SealFront(base: nat, n: u32, chunkKind: seq<byte>, ghost data: seq<byte>)
      requires base + 8 + n <= buf.Length && |chunkKind| == 4 && buf[base + 8..base + 8 + n] == data
      modifies buf
      ensures buf[base..base + 8 + n] == Header(chunkKind, n) + data
      ensures buf[..base] == old(buf[..base])
    {
      var number := WriteU32(n);
      Put(base, number);
      Put(base + 4, chunkKind);
      assert buf[base..base + 4] == number;
      assert buf[base + 8..base + 8 + n] == data;
      ThreeParts(buf[..], base, number, chunkKind, data);
    }

    method SealBack(at: nat, number: seq<byte>, ghost base: nat, ghost front: seq<byte>)
      requires base <= at && at + |number| <= buf.Length && buf[base..at] == front
      modifies buf
      ensures buf[base..at + |number|] == front + number
      ensures buf[..base] == old(buf[..base])
    {
      Put(at, number);
      assert buf[base..at] == front;
      TwoParts(buf[..], base, front, number);
    }

    /** The loop of finish_chunk in streaming mode. */
    method SendPieces(at: nat, bytes: nat)
      requires Valid() && streaming && at + bytes <= buf.Length
      modifies this`sent, this`encoded
      ensures Valid() && sent == old(sent) + buf[at..at + bytes]
    {
      var ptr, bytesLeft, len := at, bytes, 0;
      while bytesLeft > 0
        invariant Valid() && at <= ptr && 0 <= len && 0 <= bytesLeft && ptr + len + bytesLeft == at + bytes
        invariant sent == old(sent) + buf[at..ptr + len]
      {
        ptr := ptr + len;
        len := WRITE_SIZE;
        if len > bytesLeft { len := bytesLeft; }
        sent := sent + buf[ptr..ptr + len];
        encoded := encoded + len;
        assert buf[at..ptr] + buf[ptr..ptr + len] == buf[at..ptr + len];
        bytesLeft := bytesLeft - len;
      }
    }

    /** write_chunk. Both modes emit the same bytes. */
    method WriteChunk(chunkKind: seq<byte>, data: seq<byte>) returns (status: WriteStatus)
      requires Valid() && |chunkKind| == 4
      modifies this, buf
      ensures Valid() && (buf == old(buf) || fresh(buf)) && availOut == old(availOut)
      ensures status == (if |data| > MAX_LENGTH then EInternal else Written)
      ensures Emitted() == old(Emitted()) + (if |data| > MAX_LENGTH then [] else Wire(step, Chunk(chunkKind, data)))
    {
      ghost var before := Emitted();
      var at;
      status, at := WriteHeader(chunkKind, |data|);
      if status != Written {
        assert before + [] == before;
        return;
      }
      Put(at, data);
      assert Data() == data;
      assert Emitted() == before;
      status := FinishChunk();
    }

    /** write_data: bytes as they are. */
    method WriteData(data: seq<byte>) returns (status: WriteStatus)
      requires Valid()
      modifies this, buf
      ensures Valid() && (buf == old(buf) || fresh(buf))
      ensures status == (if streaming && |data| > WRITE_SIZE then EInternal else Written)
      ensures Emitted() == if status == Written then old(Emitted()) + data else old(Emitted())
    {
      status := Written;
      ghost var before := Emitted();
      if |data| == 0 {
        assert before + data == before;
        return;
      }
      if streaming {
        if |data| > WRITE_SIZE { return EInternal; }
        sent := sent + data;
      } else {
        RequireBytes(|data|);
        Put(encoded, data);
        assert buf[..encoded] == before && buf[..encoded + |data|] == buf[..encoded] + buf[encoded..encoded + |data|];
      }
      encoded := encoded + |data|;
    }

    /** write_iend: with a CRC that was computed beforehand. */
    method WriteIend() returns (status: WriteStatus)
      requires Valid()
      modifies this, buf
      ensures Valid() && (buf == old(buf) || fresh(buf)) && status == Written &&
              Emitted() == old(Emitted()) + IEND_CHUNK
    {
      status := WriteData(IEND_CHUNK);
    }

    // ---------- the IDAT chunks ----------

    /** Of the stream s all full pieces are written behind `pre`, and the rest is in the open chunk. */
    ghost predicate InIdat(pre: seq<byte>, s: seq<byte>)
      reads this, buf
    {
      Open() && kind == IDAT && length == WRITE_SIZE && 0 < availOut <= WRITE_SIZE &&
      Emitted() == pre + Emit(step, FullPieces(s)) && Pending() == Tail(s)
    }

    ghost function Pending(): seq<byte>
      reads this, buf
      requires Open() && length == WRITE_SIZE && availOut <= WRITE_SIZE
    {
      buf[Base() + 8..Base() + 8 + (WRITE_SIZE - availOut)]
    }

    /** The start of the IDAT chunks in spng_encode_image. */
    method StartIdat()
      requires Valid()
      modifies this
      ensures (buf == old(buf) || fresh(buf)) && InIdat(old(Emitted()), [])
    {
      availOut := WRITE_SIZE;
      var status, data := WriteHeader(IDAT, availOut);
    }

    /** write_idat_bytes, with deflate passing its input on as it is. */
    method WriteIdatBytes(scanline: seq<byte>, ghost pre: seq<byte>, ghost s: seq<byte>) returns (status: WriteStatus)
      requires InIdat(pre, s)
      modifies this, buf
      ensures (buf == old(buf) || fresh(buf)) && InIdat(pre, s + scanline)
      ensures status == if scanline == [] then EZlib else Written
    {
      if scanline == [] {
        assert s + scanline == s;
        return EZlib;
      }
      var rest := scanline;
      ghost var done := s;
      while rest != []
        invariant buf == old(buf) || fresh(buf)
        invariant InIdat(pre, done) && done + rest == s + scanline
        decreases |rest|
      {
        var n := if |rest| < availOut then |rest| else availOut;
        Deflate(rest[..n], pre, done);
        MoveBytes(done, rest, n);
        done := done + rest[..n];
        rest := rest[n..];
      }
      assert done + [] == done;
      status := Written;
    }

    /** One turn of the loop: bytes that fit the open chunk; a full chunk is finished and the next one is started. */
    method Deflate(bytes: seq<byte>, ghost pre: seq<byte>, ghost s: seq<byte>)
      requires InIdat(pre, s) && 0 < |bytes| <= availOut
      modifies this, buf
      ensures (buf == old(buf) || fresh(buf)) && InIdat(pre, s + bytes)
    {
      Fill(bytes);
      if availOut == 0 {
        PieceIsFull(bytes, pre, s);
      } else {
        MoreBytes(s, bytes);
      }
    }

    method PieceIsFull(ghost bytes: seq<byte>, ghost pre: seq<byte>, ghost s: seq<byte>)
      requires Open() && kind == IDAT && length == WRITE_SIZE && availOut == 0 && 0 < |bytes|
      requires Emitted() == pre + Emit(step, FullPieces(s)) && Pending() == Tail(s) + bytes
      modifies this, buf
      ensures (buf == old(buf) || fresh(buf)) && InIdat(pre, s + bytes)
    {
      hide FullPieces, Tail, Emit;
      FillPiece(s, bytes);
      NextPiece(pre, FullPieces(s), Chunk(IDAT, Tail(s) + bytes));
      availOut := WRITE_SIZE;
    }

    /** A full chunk is finished, and the next one is started. */
    method NextPiece(ghost pre: seq<byte>, ghost cs: seq<Chunk>, ghost c: Chunk)
      requires Open() && length == WRITE_SIZE && c == Chunk(kind, Data()) && kind == IDAT && AllLegal(cs)
      requires Emitted() == pre + Emit(step, cs)
      modifies this, buf
      ensures Open() && (buf == old(buf) || fresh(buf)) && length == WRITE_SIZE && kind == IDAT
      ensures AllLegal(cs + [c]) && Emitted() == pre + Emit(step, cs + [c])
    {
      var status := FinishChunk();
      AppendWire(step, pre, cs, c);
      var data;
      status, data := WriteHeader(IDAT, WRITE_SIZE);
    }

    method Fill(bytes: seq<byte>)
      requires Open() && length == WRITE_SIZE && |bytes| <= availOut <= WRITE_SIZE
      modifies this`availOut, buf
      ensures Open() && availOut == old(availOut) - |bytes| && Pending() == old(Pending()) + bytes &&
              Emitted() == old(Emitted())
    {
      var at := Base() + 8 + (WRITE_SIZE - availOut);
      ghost var pending := Pending();
      Put(at, bytes);
      availOut := availOut - |bytes|;
      assert buf[Base() + 8..at] == pending;
      TwoParts(buf[..], Base() + 8, pending, bytes);
    }

    /** finish_idat: the last chunk has whatever is left, perhaps nothing. */
    method FinishIdat(ghost pre: seq<byte>, ghost s: seq<byte>) returns (status: WriteStatus)
      requires InIdat(pre, s)
      modifies this, buf
      ensures status == Written && Valid() && buf == old(buf) && Emitted() == pre + Emit(step, IdatChunks(s))
    {
      ghost var c := Chunk(IDAT, Tail(s));
      status := TrimChunk(WRITE_SIZE - availOut);
      assert Data() == c.data;
      status := FinishChunk();
      AppendWire(step, pre, FullPieces(s), c);
    }
  }

  lemma AppendWire(step: Step, pre: seq<byte>, cs: seq<Chunk>, c: Chunk)
    requires AllLegal(cs) && Legal(c)
    ensures AllLegal(cs + [c]) && pre + Emit(step, cs) + Wire(step, c) == pre + Emit(step, cs + [c])
  {
    EmitSplit(step, cs, [c]);
    EmitOne(step, c);
    Regroup(pre, Emit(step, cs), Wire(step, c));
  }

  lemma MoveBytes(s: seq<byte>, t: seq<byte>, n: nat)
    requires n <= |t|
    ensures (s + t[..n]) + t[n..] == s + t
  {
  }

  // ---------- the pieces of a stream ----------

  function FullPieces(s: seq<byte>): (cs: seq<Chunk>)
    ensures AllLegal(cs)
  {
    if |s| < WRITE_SIZE then [] else [Chunk(IDAT, s[..WRITE_SIZE])] + FullPieces(s[WRITE_SIZE..])
  }

  function Tail(s: seq<byte>): (t: seq<byte>)
    ensures |t| < WRITE_SIZE
  {
    if |s| < WRITE_SIZE then s else Tail(s[WRITE_SIZE..])
  }

  /** The stream in pieces of 8192 bytes and a shorter last one. */
  function IdatChunks(s: seq<byte>): (cs: seq<Chunk>)
    ensures AllLegal(cs) && |cs| > 0
  {
    FullPieces(s) + [Chunk(IDAT, Tail(s))]
  }

  lemma {:induction false} MoreBytes(s: seq<byte>, t: seq<byte>)
    requires |Tail(s)| + |t| < WRITE_SIZE
    ensures FullPieces(s + t) == FullPieces(s) && Tail(s + t) == Tail(s) + t
  {
    if |s| >= WRITE_SIZE {
      assert (s + t)[..WRITE_SIZE] == s[..WRITE_SIZE] && (s + t)[WRITE_SIZE..] == s[WRITE_SIZE..] + t;
      MoreBytes(s[WRITE_SIZE..], t);
    }
  }

  lemma {:induction false} FillPiece(s: seq<byte>, t: seq<byte>)
    requires |Tail(s)| + |t| == WRITE_SIZE
    ensures FullPieces(s + t) == FullPieces(s) + [Chunk(IDAT, Tail(s) + t)] && Tail(s + t) == []
  {
    if |s| >= WRITE_SIZE {
      assert (s + t)[..WRITE_SIZE] == s[..WRITE_SIZE] && (s + t)[WRITE_SIZE..] == s[WRITE_SIZE..] + t;
      FillPiece(s[WRITE_SIZE..], t);
    } else {
      assert (s + t)[..WRITE_SIZE] == s + t && (s + t)[WRITE_SIZE..] == [];
    }
  }

  lemma ThreeParts(s: seq<byte>, at: nat, a: seq<byte>, b: seq<byte>, c: seq<byte>)
    requires at + |a| + |b| + |c| <= |s| && s[at..at + |a|] == a
    requires s[at + |a|..at + |a| + |b|] == b && s[at + |a| + |b|..at + |a| + |b| + |c|] == c
    ensures s[at..at + |a| + |b| + |c|] == a + b + c
  {
    TwoParts(s, at, a, b);
    TwoParts(s, at, a + b, c);
  }

  lemma TwoParts(s: seq<byte>, at: nat, a: seq<byte>, b: seq<byte>)
    requires at + |a| + |b| <= |s| && s[at..at + |a|] == a && s[at + |a|..at + |a| + |b|] == b
    ensures s[at..at + |a| + |b|] == a + b
  {
  }
}
