/** The chunk reader of the PNG decoder, on a buffer or on a stream that is asked for at most 8192 bytes at a time
    (kernel/lib/spng.c). */
module ChunkReader {
  import opened Bytes
  import opened ChunkFormat

  /** SPNG_READ_SIZE */
  const READ_SIZE := 8192

  datatype ReadStatus = Fine | Discarded | EInternal | EIdatTooShort | Failure(error: ReadError)

  class Reader {
    const step: Step
    const policy: Policy
    const streaming: bool
    const input: seq<byte>
    /** bytes_read */
    var pos: nat
    /** The current chunk: its type and length, how much of its data is left, and the CRC of what was read. */
    var kind: seq<byte>
    var length: u32
    var bytesLeft: u32
    var actualCrc: u32
    var skipCrc: bool
    /** Bytes of the IDAT stream that were read but not inflated yet. */
    var availIn: seq<byte>

    ghost predicate Valid()
      reads this
    {
      Sensible(policy) && |kind| == 4 && pos <= |input| && bytesLeft <= length <= MAX_LENGTH
    }

    ghost function Unread(): seq<byte>
      reads this
      requires Valid()
    {
      input[pos..]
    }

    /** The CRC covers the type of the current chunk and `read` of its data. */
    ghost predicate Covers(read: seq<byte>)
      reads this
    {
      skipCrc || actualCrc == Crc(step, Crc(step, 0, kind), read)
    }

    /** A new context, with everything cleared. */
    constructor (step: Step, policy: Policy, streaming: bool, input: seq<byte>)
      requires Sensible(policy)
      ensures Valid() && this.step == step && this.policy == policy && this.streaming == streaming
      ensures Unread() == input && !skipCrc && bytesLeft == 0 && availIn == []
    {
      this.step, this.policy, this.streaming, this.input := step, policy, streaming, input;
      kind, length, bytesLeft, pos := [0, 0, 0, 0], 0, 0, 0;
      actualCrc, skipCrc, availIn := 0, false, [];
    }

    /** read_ihdr, up to the data of IHDR, whose CRC is not skipped whatever the policy. */
    method ReadIhdr() returns (status: ReadStatus, data: seq<byte>)
      requires Valid() && !skipCrc && bytesLeft == 0
      modifies this`pos, this`kind, this`length, this`actualCrc
      ensures Valid() && !skipCrc && bytesLeft == 0
      ensures var s := old(Unread());
              if StartError(s).Some? then status == Failure(StartError(s).value)
              else
                status == Fine && Unread() == s[29..] && kind == s[12..16] && length == 13 &&
                data == s[16..29] && Covers(data)
    {
      ghost var s := Unread();
      data := [];
      var start;
      status, start := ReadData(29);
      if status != Fine { return; }
      StartParts(s);
      if start[..8] != SIGNATURE { return Failure(ESignature), data; }
      if Number(start[8..12]) != 13 { return Failure(EIhdrSize), data; }
      if start[12..16] != IHDR { return Failure(ENoIhdr), data; }
      kind, length, data := start[12..16], 13, start[16..29];
      CrcPieces(step, 0, kind, data);
      assert start[12..29] == kind + data;
      actualCrc := Crc(step, 0, start[12..29]);
    }

    /** read_fn and read_data: the next bytes, or none. A stream is not asked for more than 8192. */
    method ReadData(bytes: nat) returns (status: ReadStatus, data: seq<byte>)
      requires Valid()
      modifies this`pos
      ensures Valid()
      ensures if bytes == 0 then status == Fine && data == [] && pos == old(pos)
              else if streaming && bytes > READ_SIZE then status == EInternal && pos == old(pos)
              else if bytes > |old(Unread())| then status == Failure(EIoEof) && pos == old(pos)
              else status == Fine && data == old(Unread())[..bytes] && Unread() == old(Unread())[bytes..]
    {
      if bytes == 0 { return Fine, []; }
      if streaming && bytes > READ_SIZE { return EInternal, []; }
      if bytes > |input| - pos { return Failure(EIoEof), []; }
      data := input[pos..pos + bytes];
      pos := pos + bytes;
      status := Fine;
    }

    /** read_and_check_crc */
    method ReadAndCheckCrc(ghost data: seq<byte>) returns (status: ReadStatus)
      requires Valid() && Covers(data)
      modifies this`pos
      ensures Valid()
      ensures |old(Unread())| < 4 ==> status == Failure(EIoEof)
      ensures |old(Unread())| >= 4 ==>
                Unread() == old(Unread())[4..] &&
                var stored := Number(old(Unread())[..4]);
                status == match Judge(policy, skipCrc, kind, ChunkCrc(step, Chunk(kind, data)), stored)
                          case Keep => Fine
                          case Drop => Discarded
                          case Refuse => Failure(EChunkCrc)
    {
      var bytes;
      status, bytes := ReadData(4);
      if status != Fine { return; }
      var stored := Number(bytes);
      if skipCrc { return Fine; }
      if actualCrc != stored {
        if Critical(kind) {
          if policy.critical == Use { return Fine; }
        } else {
          if policy.ancillary == Use { return Fine; }
          if policy.ancillary == Discard { return Discarded; }
        }
        return Failure(EChunkCrc);
      }
      return Fine;
    }

    /** read_header: the CRC of the current chunk and the header of the next. */
    method ReadHeader(ghost data: seq<byte>) returns (status: ReadStatus, discard: bool)
      requires Valid() && Covers(data)
      modifies this`pos, this`kind, this`length, this`bytesLeft, this`actualCrc, this`skipCrc
      ensures Valid()
      ensures status == Fine ==> bytesLeft == length && Covers([]) && skipCrc == Skips(policy, kind)
      ensures var s := old(Unread());
              if |s| < 4 then status == Failure(EIoEof)
              else
                var actual := ChunkCrc(step, Chunk(old(kind), data));
                var verdict := Judge(policy, old(skipCrc), old(kind), actual, Number(s[..4]));
                if verdict == Refuse then status == Failure(EChunkCrc)
                else if |s| < 12 then status == Failure(EIoEof)
                else if Number(s[4..8]) > MAX_LENGTH then status == Failure(EChunkStdlen)
                else
                  status == Fine && discard == (verdict == Drop) &&
                  kind == s[8..12] && length == Number(s[4..8]) && Unread() == s[12..]
    {
      ghost var s := Unread();
      discard := false;
      status := ReadAndCheckCrc(data);
      if status != Fine {
        if status == Discarded { discard := true; } else { return; }
      }
      var bytes;
      status, bytes := ReadData(8);
      if status != Fine { return; }
      assert bytes == s[4..12];
      var newLength, newKind := Number(bytes[..4]), bytes[4..];
      assert bytes[..4] == s[4..8] && newKind == s[8..12];
      if newLength > MAX_LENGTH { return Failure(EChunkStdlen), discard; }
      kind, length, bytesLeft := newKind, newLength, newLength;
      if Critical(kind) && policy.critical == Use {
        skipCrc := true;
      } else if policy.ancillary == Use {
        skipCrc := true;
      } else {
        skipCrc := false;
      }
      if !skipCrc {
        actualCrc := Crc(step, 0, []);
        actualCrc := Crc(step, actualCrc, kind);
      }
    }

    /** read_chunk_bytes */
    method ReadChunkBytes(bytes: nat, ghost read: seq<byte>) returns (status: ReadStatus, data: seq<byte>)
      requires Valid() && Covers(read)
      modifies this`pos, this`bytesLeft, this`actualCrc
      ensures Valid()
      ensures if bytes == 0 || bytes > old(bytesLeft) || (streaming && bytes > READ_SIZE) then status == EInternal
              else if bytes > |old(Unread())| then status == Failure(EIoEof)
              else status == Fine && data == old(Unread())[..bytes] && Unread() == old(Unread())[bytes..] &&
                   bytesLeft == old(bytesLeft) - bytes && Covers(read + data)
    {
      if bytesLeft == 0 || bytes == 0 { return EInternal, []; }
      if bytes > bytesLeft { return EInternal, []; }
      status, data := ReadData(bytes);
      if status != Fine { return; }
      if !skipCrc {
        CrcPieces(step, Crc(step, 0, kind), read, data);
        actualCrc := Crc(step, actualCrc, data);
      }
      bytesLeft := bytesLeft - bytes;
    }

    /** The next piece of a chunk. */
    method TakePiece(len: nat, ghost read: seq<byte>) returns (piece: seq<byte>)
      requires Valid() && Covers(read) && len <= bytesLeft && len <= |input| - pos
      modifies this`pos, this`bytesLeft, this`actualCrc
      ensures Valid() && piece == old(Unread())[..len] && Unread() == old(Unread())[len..]
      ensures bytesLeft == old(bytesLeft) - len && Covers(read + piece)
    {
      piece := input[pos..pos + len];
      pos := pos + len;
      if !skipCrc {
        CrcPieces(step, Crc(step, 0, kind), read, piece);
        actualCrc := Crc(step, actualCrc, piece);
      }
      bytesLeft := bytesLeft - len;
    }

    method TakeMore(len: nat, ghost read: seq<byte>, ghost s: seq<byte>, out: seq<byte>) returns (more: seq<byte>)
      requires Valid() && Covers(read + out) && len <= bytesLeft && len <= |input| - pos
      requires |out| <= |s| && out == s[..|out|] && Unread() == s[|out|..]
      modifies this`pos, this`bytesLeft, this`actualCrc
      ensures Valid() && |out| + len == |more| <= |s| && more == s[..|more|] && Unread() == s[|more|..]
      ensures bytesLeft == old(bytesLeft) - len && Covers(read + more)
    {
      var piece := TakePiece(len, read + out);
      Onwards(s, |out|, len);
      Regroup(read, out, piece);
      more := out + piece;
    }

    /** read_chunk_bytes2: in pieces, if from a stream. */
    method ReadChunkBytes2(count: nat, ghost read: seq<byte>) returns (status: ReadStatus, out: seq<byte>)
      requires Valid() && Covers(read)
      modifies this`pos, this`bytesLeft, this`actualCrc
      ensures Valid()
      ensures if count == 0 || count > old(bytesLeft) then status == EInternal
              else if count > |old(Unread())| then status == Failure(EIoEof)
              else status == Fine && out == old(Unread())[..count] && Unread() == old(Unread())[count..] &&
                   bytesLeft == old(bytesLeft) - count && Covers(read + out)
    {
      out := [];
      if bytesLeft == 0 || count == 0 { return EInternal, out; }
      if count > bytesLeft { return EInternal, out; }
      ghost var s := Unread();
      var bytes, len := count, count;
      if streaming && len > READ_SIZE { len := READ_SIZE; }
      assert read + out == read;
      while bytes > 0
        invariant Valid() && 0 <= bytes <= count && |out| == count - bytes && (bytes > 0 ==> len > 0)
        invariant |out| <= |s| && out == s[..|out|] && Unread() == s[|out|..]
        invariant bytesLeft == old(bytesLeft) - |out| && Covers(read + out)
      {
        if len > bytes { len := bytes; }
        if len > |input| - pos { return Failure(EIoEof), out; }
        out := TakeMore(len, read, s, out);
        bytes := bytes - len;
        len := READ_SIZE;
      }
      status := Fine;
    }

    /** The data of the current chunk. */
    method ReadAll() returns (status: ReadStatus, data: seq<byte>)
      requires Valid() && bytesLeft == length && Covers([])
      modifies this`pos, this`bytesLeft, this`actualCrc
      ensures Valid()
      ensures if |old(Unread())| < length then status == Failure(EIoEof)
              else
                status == Fine && data == old(Unread())[..length] && Unread() == old(Unread())[length..] && Covers(data)
    {
      status, data := Fine, [];
      if bytesLeft > 0 {
        status, data := ReadChunkBytes2(bytesLeft, []);
        assert [] + data == data;
      }
    }

    /** The CRC of the current chunk, the next header, and the data of that chunk unless it is IEND. */
    method NextChunk(c: Chunk) returns (status: ReadStatus, discard: bool, next: Chunk)
      requires Valid() && c.kind == kind && Covers(c.data)
      modifies this`pos, this`kind, this`length, this`bytesLeft, this`actualCrc, this`skipCrc
      ensures Valid()
      ensures var r, verdict := ParseCrc(step, policy, old(skipCrc), c, old(Unread())), if discard then Drop else Keep;
              if status != Fine then r.Unreadable? && status == Failure(r.error)
              else if kind == IEND then
                |Unread()| < |old(Unread())| && Covers([]) && skipCrc == Skips(policy, kind) &&
                r == Prefixed(verdict, c, ParseEnd(step, policy, kind, length, Unread()))
              else
                |Unread()| < |old(Unread())| && next.kind == kind && Covers(next.data) &&
                r == Prefixed(verdict, c, ParseCrc(step, policy, skipCrc, next, Unread()))
    {
      next := c;
      CrcParsed(step, policy, skipCrc, c, Unread());
      status, discard := ReadHeader(c.data);
      if status != Fine || kind == IEND { return; }
      var data;
      status, data := ReadAll();
      next := Chunk(kind, data);
    }

    /** The end of read_non_idat_chunks: IEND has no data, and its CRC is judged like any other. */
    method ReadEnd() returns (status: ReadStatus)
      requires Valid() && Covers([]) && skipCrc == Skips(policy, kind)
      modifies this`pos
      ensures Valid()
      ensures var r := ParseEnd(step, policy, kind, length, old(Unread()));
              if r.Unreadable? then status == Failure(r.error) else status == Fine && r == Chunks([], Unread())
    {
      if length != 0 { return Failure(EChunkSize); }
      status := ReadAndCheckCrc([]);
      if status == Discarded { status := Fine; }
    }

    /** The loop of read_non_idat_chunks over chunks that are kept as they are: each is stored when its data has been
        read, and taken back when its CRC turns out wrong and is to be discarded. `first` has been read. */
    method ReadChunks(first: Chunk) returns (status: ReadStatus, kept: seq<Chunk>)
      requires Valid() && first.kind == kind != IEND && Covers(first.data)
      modifies this`pos, this`kind, this`length, this`bytesLeft, this`actualCrc, this`skipCrc
      ensures var r := ParseCrc(step, policy, old(skipCrc), first, old(Unread()));
              if r.Unreadable? then status == Failure(r.error)
              else status == Fine && Valid() && kept == r.kept && Unread() == r.rest
    {
      ghost var whole, front := ParseCrc(step, policy, skipCrc, first, Unread()), [];
      var c := first;
      status, kept := Fine, [first];
      AfterNone(whole);
      while kind != IEND
        invariant Valid() && status == Fine
        invariant if kind == IEND then
                    Covers([]) && skipCrc == Skips(policy, kind) &&
                    whole == After(kept, ParseEnd(step, policy, kind, length, Unread()))
                  else
                    c.kind == kind && Covers(c.data) && kept == front + [c] &&
                    whole == After(front, ParseCrc(step, policy, skipCrc, c, Unread()))
        decreases |Unread()|
      {
        var discard, next;
        status, discard, next := NextChunk(c);
        if status != Fine { return; }
        if discard { kept := kept[..|kept| - 1]; }
        assert kept == if discard then front else front + [c];
        AfterOne(front, if discard then Drop else Keep, c,
                 if kind == IEND then ParseEnd(step, policy, kind, length, Unread())
                 else ParseCrc(step, policy, skipCrc, next, Unread()));
        front := kept;
        if kind != IEND {
          c := next;
          kept := kept + [c];
        }
      }
      status := ReadEnd();
      AfterEnd(kept, Unread());
    }

    /** A whole file. */
    method ReadPng() returns (status: ReadStatus, kept: seq<Chunk>)
      requires Valid() && !skipCrc && bytesLeft == 0
      modifies this`pos, this`kind, this`length, this`bytesLeft, this`actualCrc, this`skipCrc
      ensures var r := ParseFile(step, policy, old(Unread()));
              if r.Unreadable? then status == Failure(r.error)
              else status == Fine && Valid() && kept == r.kept && Unread() == r.rest
    {
      var data;
      kept := [];
      status, data := ReadIhdr();
      if status != Fine { return; }
      IhdrIsNotIend(kind);
      status, kept := ReadChunks(Chunk(kind, data));
    }

    // ---------- the IDAT stream ----------

    /** Among the IDAT chunks, with `read` read of the current one; without a stream a chunk is read at once. */
    ghost predicate InIdat(read: seq<byte>)
      reads this
    {
      Valid() && Covers(read) && (streaming || bytesLeft == 0 || bytesLeft == length)
    }

    /** What is still to come of the IDAT stream. */
    ghost function IdatLeft(read: seq<byte>): IdatBytes
      reads this
      requires Valid()
    {
      IdatAhead(step, policy, streaming, skipCrc, kind, read, bytesLeft, Unread())
    }

    /** The header of the next IDAT chunk, unless the stream ends here. */
    method NextIdat(ghost read: seq<byte>) returns (status: ReadStatus)
      requires InIdat(read) && kind == IDAT && bytesLeft == 0
      modifies this`pos, this`kind, this`length, this`bytesLeft, this`actualCrc, this`skipCrc
      ensures if status == Fine then InIdat([]) && kind == IDAT && IdatLeft([]) == old(IdatLeft(read)) &&
              |Unread()| < |old(Unread())|
              else old(IdatLeft(read)) == IdatBytes([], status)
    {
      ghost var s := Unread();
      var discard;
      status, discard := ReadHeader(read);
      if |s| >= 12 { HeaderAt(s, 0, s); }
      if status != Fine { return; }
      assert old(IdatLeft(read)) == IdatLeft([]);
      if kind != IDAT { return EIdatTooShort; }
    }

    /** read_idat_bytes: at least one byte of the IDAT stream, or the error at its end, whatever the file holds. */
    method ReadIdatBytes(ghost read: seq<byte>) returns (status: ReadStatus, data: seq<byte>, ghost read': seq<byte>)
      requires InIdat(read)
      modifies this`pos, this`kind, this`length, this`bytesLeft, this`actualCrc, this`skipCrc
      ensures var was := old(IdatLeft(read));
              if was.data == [] then status == was.end
              else status == Fine && |data| > 0 && InIdat(read') && was == Preceded(data, IdatLeft(read'))
    {
      read', data := read, [];
      if kind != IDAT { return EIdatTooShort, data, read'; }
      while bytesLeft == 0
        invariant InIdat(read') && kind == IDAT && IdatLeft(read') == old(IdatLeft(read))
        decreases |Unread()|
      {
        status := NextIdat(read');
        if status != Fine { return; }
        read' := [];
      }
      var len;
      if streaming {
        len := READ_SIZE;
        if len > bytesLeft { len := bytesLeft; }
      } else {
        len := length;
      }
      assert len == Piece(streaming, bytesLeft);
      status, data := ReadChunkBytes(len, read');
      read' := read' + data;
    }

    /** read_scanline_bytes, with inflate passing its input on as it is: the next `len` bytes of the IDAT stream,
        however it is cut into chunks and reads, or the error at its end. */
    method ReadScanlineBytes(len: nat, ghost read: seq<byte>)
      returns (status: ReadStatus, dest: seq<byte>, ghost read': seq<byte>)
      requires InIdat(read)
      modifies this`availIn, this`pos, this`kind, this`length, this`bytesLeft, this`actualCrc, this`skipCrc
      ensures var was := Preceded(old(availIn), old(IdatLeft(read)));
              if len > |was.data| then status == was.end
              else status == Fine && InIdat(read') && |dest| == len &&
                   was == Preceded(dest, Preceded(availIn, IdatLeft(read')))
    {
      read', dest := read, [];
      ghost var was := Preceded(availIn, IdatLeft(read));
      assert was == Preceded([], was);
      while |dest| < len
        invariant |dest| <= len && InIdat(read') && was == Preceded(dest, Preceded(availIn, IdatLeft(read')))
        decreases len - |dest|, |IdatLeft(read').data|
      {
        if availIn != [] {
          var n := if |availIn| < len - |dest| then |availIn| else len - |dest|;
          MoveFront(dest, availIn, IdatLeft(read'), n);
          dest := dest + availIn[..n];
          availIn := availIn[n..];
        } else {
          var data;
          assert Preceded(availIn, IdatLeft(read')) == IdatLeft(read');
          status, data, read' := ReadIdatBytes(read');
          if status != Fine { return; }
          availIn := data;
        }
      }
      status := Fine;
    }
  }

  lemma Onwards(s: seq<byte>, n: nat, len: nat)
    requires n + len <= |s|
    ensures s[n..][..len] == s[n..n + len] && s[n..][len..] == s[n + len..] && s[..n] + s[n..n + len] == s[..n + len]
  {
  }

  // ---------- what the IDAT stream is ----------

  /** The bytes of the IDAT stream up to its end, and how it ends. */
  datatype IdatBytes = IdatBytes(data: seq<byte>, end: ReadStatus)

  function Preceded(data: seq<byte>, b: IdatBytes): IdatBytes {
    b.(data := data + b.data)
  }

  lemma MoveFront(a: seq<byte>, b: seq<byte>, c: IdatBytes, n: nat)
    requires n <= |b|
    ensures Preceded(a, Preceded(b, c)) == Preceded(a + b[..n], Preceded(b[n..], c))
  {
    assert a + (b + c.data) == (a + b[..n]) + (b[n..] + c.data);
  }

  /** How much of a chunk is read at once. */
  function Piece(streaming: bool, left: nat): nat {
    if streaming && left > READ_SIZE then READ_SIZE else left
  }

  /** What any bytes `s` hold of the IDAT stream, if `left` bytes of the current chunk are still to be read: the data
      up to a header of another kind, a wrong CRC, a length out of range, or the end of the file. */
  function IdatAhead(step: Step, policy: Policy, streaming: bool, skip: bool, kind: seq<byte>, read: seq<byte>,
                     left: nat, s: seq<byte>)
    : (b: IdatBytes)
    requires |kind| == 4
    ensures b.end != Fine
    decreases |s|
  {
    if kind != IDAT then IdatBytes([], EIdatTooShort)
    else if left > 0 then
      var n := Piece(streaming, left);
      if |s| < n then IdatBytes([], Failure(EIoEof))
      else Preceded(s[..n], IdatAhead(step, policy, streaming, skip, kind, read + s[..n], left - n, s[n..]))
    else if |s| < 4 then IdatBytes([], Failure(EIoEof))
    else if Judge(policy, skip, kind, ChunkCrc(step, Chunk(kind, read)), Number(s[..4])) == Refuse then
      IdatBytes([], Failure(EChunkCrc))
    else if |s| < 12 then IdatBytes([], Failure(EIoEof))
    else if Number(s[4..8]) > MAX_LENGTH then IdatBytes([], Failure(EChunkStdlen))
    else IdatAhead(step, policy, streaming, Skips(policy, s[8..12]), s[8..12], [], Number(s[4..8]), s[12..])
  }

  predicate AllIdat(cs: seq<Chunk>) {
    forall i :: 0 <= i < |cs| ==> cs[i].kind == IDAT
  }

  /** The data of a list of chunks. */
  function Payload(cs: seq<Chunk>): seq<byte> {
    if cs == [] then [] else cs[0].data + Payload(cs[1..])
  }

  /** One piece of a chunk. */
  lemma PieceAhead(step: Step, policy: Policy, streaming: bool, skip: bool, kind: seq<byte>, read: seq<byte>,
                   left: nat, s: seq<byte>, piece: seq<byte>, later: seq<byte>)
    requires |kind| == 4 && kind == IDAT && 0 < left && Piece(streaming, left) <= |s|
    requires piece == s[..Piece(streaming, left)] && later == s[Piece(streaming, left)..]
    ensures IdatAhead(step, policy, streaming, skip, kind, read, left, s)
         == Preceded(piece, IdatAhead(step, policy, streaming, skip, kind, read + piece, left - |piece|, later))
  {
  }

  /** The data of a chunk comes before what follows it. */
  lemma {:induction false} DataAhead(step: Step, policy: Policy, streaming: bool, skip: bool, kind: seq<byte>,
                                     read: seq<byte>, data: seq<byte>, s: seq<byte>)
    requires |kind| == 4 && kind == IDAT
    ensures IdatAhead(step, policy, streaming, skip, kind, read, |data|, data + s)
         == Preceded(data, IdatAhead(step, policy, streaming, skip, kind, read + data, 0, s))
    decreases |data|
  {
    hide IdatAhead;
    if data == [] {
      assert data + s == s && read + data == read;
    } else {
      var n := Piece(streaming, |data|);
      SplitFront(data, s, n);
      PieceAhead(step, policy, streaming, skip, kind, read, |data|, data + s, data[..n], data[n..] + s);
      DataAhead(step, policy, streaming, skip, kind, read + data[..n], data[n..], s);
      assert read + data[..n] + data[n..] == read + data && data[..n] + data[n..] == data;
      var b := IdatAhead(step, policy, streaming, skip, kind, read + data, 0, s);
      assert data[..n] + (data[n..] + b.data) == data + b.data;
    }
  }

  lemma SplitFront(s: seq<byte>, t: seq<byte>, n: nat)
    requires n <= |s|
    ensures (s + t)[..n] == s[..n] && (s + t)[n..] == s[n..] + t
  {
  }

  lemma FileParts(crc: seq<byte>, number: seq<byte>, kind: seq<byte>, s: seq<byte>)
    requires |crc| == |number| == |kind| == 4
    ensures var t := crc + (number + kind + s);
            |t| >= 12 && t[..4] == crc && t[4..8] == number && t[8..12] == kind && t[12..] == s
  {
  }

  /** After a chunk with its CRC comes the next. */
  lemma HeaderAhead(step: Step, policy: Policy, streaming: bool, skip: bool, c: Chunk, kind: seq<byte>, length: u32,
                    s: seq<byte>)
    requires c.kind == IDAT && |c.kind| == |kind| == 4 && length <= MAX_LENGTH
    ensures IdatAhead(step, policy, streaming, skip, c.kind, c.data, 0,
                      U32(ChunkCrc(step, c)) + (Header(kind, length) + s))
         == IdatAhead(step, policy, streaming, Skips(policy, kind), kind, [], length, s)
  {
    FileParts(U32(ChunkCrc(step, c)), U32(length), kind, s);
  }

  /** The IDAT chunks of an emitted file hold the whole stream, and it ends at the next header. */
  lemma {:induction false} ChunksAhead(step: Step, policy: Policy, streaming: bool, skip: bool, cs: seq<Chunk>,
                                       end: seq<byte>, endLength: u32, rest: seq<byte>)
    requires AllLegal(cs) && AllIdat(cs) && |cs| > 0 && |end| == 4 && end != IDAT && endLength <= MAX_LENGTH
    ensures IdatAhead(step, policy, streaming, skip, cs[0].kind, [], |cs[0].data|,
                      AfterHeader(step, cs, Header(end, endLength) + rest))
         == IdatBytes(Payload(cs), EIdatTooShort)
    decreases |cs|
  {
    var c, more, tail := cs[0], cs[1..], Header(end, endLength) + rest;
    var next := U32(ChunkCrc(step, c)) + AfterCrc(step, more, tail);
    DataAhead(step, policy, streaming, skip, c.kind, [], c.data, next);
    assert [] + c.data == c.data;
    NextHeader(step, more, tail);
    if more == [] {
      HeaderAhead(step, policy, streaming, skip, c, end, endLength, rest);
    } else {
      var kind := more[0].kind;
      HeaderAhead(step, policy, streaming, skip, c, kind, |more[0].data|, AfterHeader(step, more, tail));
      ChunksAhead(step, policy, streaming, Skips(policy, kind), more, end, endLength, rest);
    }
  }

  /** The next header, as a part of what followed the previous one. */
  lemma HeaderAt(s: seq<byte>, n: nat, t: seq<byte>)
    requires n <= |s| && t == s[n..]
    ensures |t| >= 4 ==> t[..4] == s[n..n + 4] && t[4..] == s[n + 4..]
    ensures |t| >= 12 ==> t[4..8] == s[n + 4..][..4] && t[8..12] == s[n + 4..][4..8] && t[12..] == s[n + 4..][8..]
  {
  }

  /** What follows the data of a chunk, in its parts. */
  lemma CrcParsed(step: Step, p: Policy, skip: bool, c: Chunk, s: seq<byte>)
    requires |c.kind| == 4
    ensures var r := ParseCrc(step, p, skip, c, s);
            if |s| < 4 then r == Unreadable(EIoEof)
            else
              var verdict := Judge(p, skip, c.kind, ChunkCrc(step, c), Number(s[..4]));
              if verdict == Refuse then r == Unreadable(EChunkCrc)
              else if |s| < 12 then r == Unreadable(EIoEof)
              else if Number(s[4..8]) > MAX_LENGTH then r == Unreadable(EChunkStdlen)
              else
                var kind, length, t := s[8..12], Number(s[4..8]), s[12..];
                r == Prefixed(verdict, c, if kind == IEND then ParseEnd(step, p, kind, length, t)
                                          else Parse(step, p, Skips(p, kind), kind, length, t))
  {
    if |s| >= 12 { HeaderAt(s, 0, s); }
  }

  /** What is parsed after some chunks have been kept. */
  function After(kept: seq<Chunk>, p: Parsed): Parsed {
    if p.Chunks? then p.(kept := kept + p.kept) else p
  }

  lemma AfterNone(p: Parsed)
    ensures After([], p) == p
  {
    if p.Chunks? { assert [] + p.kept == p.kept; }
  }

  lemma AfterEnd(kept: seq<Chunk>, rest: seq<byte>)
    ensures After(kept, Chunks([], rest)) == Chunks(kept, rest)
  {
    assert kept + [] == kept;
  }

  lemma AfterOne(kept: seq<Chunk>, verdict: Verdict, c: Chunk, p: Parsed)
    requires verdict != Refuse
    ensures After(kept, Prefixed(verdict, c, p)) == After(if verdict == Keep then kept + [c] else kept, p)
  {
    if p.Chunks? && verdict == Keep { assert kept + ([c] + p.kept) == kept + [c] + p.kept; }
  }
}
