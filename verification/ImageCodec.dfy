/** The row loops of the PNG encoder and decoder as they run, on buffers that are rewritten in place,
    proved against the specification of the stream (kernel/lib/spng.c). Deflate is the identity. */
module ImageCodec {
  import opened Bytes
  import opened ScanlineFilter
  import opened FilterChoice
  import opened ByteOrder
  import opened Simd
  import opened Pixels
  import opened Interlace
  import opened ImageHeader
  import opened RowOrder
  import StreamSize
  import opened ImageStream
  import Adam7

  /** A row with pixels is at least a byte long. */
  lemma RowNotEmpty(h: Header, p: Pos)
    requires IsRow(h, p)
    ensures RowLength(h, p) >= 1
  {
    PixelBytesPositive(h);
    var w := h.SubWidth(p.pass);
    RowIsWide(h, w);
    assert Holds(FormatOf(h), RowLength(h, p), 0);
  }

  /** The scanline buffers of a context: long enough for the widest pass and 32 bytes more. */
  ghost predicate BufferFits(h: Header, a: array<byte>) {
    forall p :: IsRow(h, p) ==> RowLength(h, p) + 1 <= a.Length
  }

  lemma WidestFits(h: Header, layout: Layout, p: Pos)
    requires IsLayoutOf(h, layout) && IsRow(h, p)
    ensures RowLength(h, p) + 1 <= layout.sub[layout.widestPass].scanlineWidth
  {
    assert SubimageOf(h, p.pass).scanlineWidth == RowLength(h, p) + 1;
  }

  lemma ImageStart(h: Header, p: Pos)
    requires IsRow(h, p)
    ensures LineNumber(h, p) * h.ImageWidth() == LineStart(h, LineNumber(h, p))
  {
    OffsetIsProduct(LineNumber(h, p), h.ImageWidth());
  }

  /** The row that has just been coded is the row above of the next, unless a new pass begins. */
  lemma NextAbove(h: Header, order: Order, img: seq<byte>, p: Pos)
    requires |img| == ImageSize(h) && IsRow(h, p)
    ensures var next := NextRow(h, p);
            next.Row? ==> IsRow(h, next.pos) &&
                          (next.pos.idx > 0 ==> RowLength(h, next.pos) == RowLength(h, p) &&
                                                RowAbove(h, order, img, next.pos) == StreamRow(h, order, img, p))
  {
    NextIsLeast(h, p);
  }

  class Encoder {
    const h: Header
    const order: Order
    const choices: Choices
    const ri: RowInfo
    ghost const buffers: set<object>
    var scanline: array<byte>
    var prevScanline: array<byte>
    var filteredScanline: array<byte>
    /** What has been given to deflate. */
    var stream: seq<byte>

    ghost predicate Valid()
      reads this, ri
    {
      ri.h == h && ri.Valid() && ri !in buffers && this !in buffers && Distinct3() &&
      BufferFits(h, scanline) && BufferFits(h, prevScanline) && BufferFits(h, filteredScanline)
    }

    ghost predicate Distinct3()
      reads this
    {
      scanline in buffers && prevScanline in buffers && filteredScanline in buffers &&
      scanline != prevScanline && scanline != filteredScanline && prevScanline != filteredScanline
    }

    ghost function Position(): Pos
      reads this, ri
      requires Valid()
      ensures IsRow(h, Position())
    {
      ri.Position()
    }

    constructor (header: Header, order: Order, choices: Choices, layout: Layout)
      requires IsLayoutOf(header, layout)
      ensures Valid() && h == header && this.order == order && this.choices == choices && Position() == FIRST &&
              stream == []
      ensures fresh(buffers) && fresh(ri)
    {
      h, this.order, this.choices := header, order, choices;
      ri := new RowInfo(header, layout.lastPass);
      var size := layout.sub[layout.widestPass].scanlineWidth + 32;
      var a, b, c := new byte[size], new byte[size], new byte[size];
      scanline, prevScanline, filteredScanline, stream := a, b, c, [];
      buffers := {a, b, c};
      forall p | IsRow(header, p) ensures RowLength(header, p) + 1 <= size { WidestFits(header, layout, p); }
    }

    /** The previous scanline, as far as it is looked at, is the row above in the order of the stream. */
    ghost predicate HoldsAbove(img: seq<byte>)
      reads this, ri, prevScanline
      requires Valid() && |img| == ImageSize(h)
    {
      Position().idx > 0 ==> prevScanline[..RowLength(h, Position())] == RowAbove(h, order, img, Position())
    }

    /** encode_scanline, with the row already in `scanline`: converts, filters and emits it, and moves to the next
        row. */
    method EncodeScanline(ghost img: seq<byte>) returns (eoi: bool)
      requires Valid() && |img| == ImageSize(h) && HoldsAbove(img)
      requires scanline[..RowLength(h, Position())] == PixelRow(h, img, Position())
      modifies this, ri, buffers
      ensures stream == old(stream) + EncodedRow(h, order, choices, img, old(Position()))
      ensures eoi <==> NextRow(h, old(Position())).End?
      ensures !eoi ==> Valid() && HoldsAbove(img) && Position() == NextRow(h, old(Position())).pos
    {
      FilterAndEmit(h.RowBytes(h.SubWidth(ri.pass)), img);
      eoi := Advance(img);
    }

    /** Makes the current row the row above, and moves the cursor. */
    method Advance(ghost img: seq<byte>) returns (eoi: bool)
      requires Valid() && |img| == ImageSize(h)
      requires scanline[..RowLength(h, Position())] == StreamRow(h, order, img, Position())
      modifies this`scanline, this`prevScanline, ri
      ensures eoi <==> NextRow(h, old(Position())).End?
      ensures !eoi ==> Valid() && HoldsAbove(img) && Next.Row(Position()) == NextRow(h, old(Position()))
    {
      ghost var p := Position();
      var t := prevScanline;
      prevScanline := scanline;
      scanline := t;
      NextAbove(h, order, img, p);
      eoi := ri.Update();
    }

    /** The part of encode_scanline before the buffers are exchanged. */
    method FilterAndEmit(n: nat, ghost img: seq<byte>)
      requires Valid() && |img| == ImageSize(h) && HoldsAbove(img) && n == RowLength(h, Position())
      requires scanline[..n] == PixelRow(h, img, Position())
      modifies this`stream, buffers
      ensures Valid() && scanline[..n] == StreamRow(h, order, img, Position())
      ensures stream == old(stream) + EncodedRow(h, order, choices, img, Position())
    {
      ConvertRow(n, img);
      ClearAbove(n, img);
      PixelBytesPositive(h);
      RowNotEmpty(h, Position());
      ghost var above := RowAbove(h, order, img, Position());
      SamePrevSameResult(choices, h.PixelBytes(), prevScanline[..], above, scanline[..n]);
      ChosenIsLegal(choices, h.PixelBytes(), above, scanline[..n]);
      var filter := GetBestFilter(prevScanline, scanline, n + 1, h.PixelBytes(), choices);
      ghost var expected := FilterRow(filter, h.PixelBytes(), prevScanline[..], scanline[..n]);
      assert EncodedRow(h, order, choices, img, Position()) == [filter] + expected;
      if filter == 0 {
        FilterNone(h.PixelBytes(), prevScanline[..], scanline[..n]);
        stream := stream + ([filter] + scanline[..n]);
      } else {
        var status := FilterScanline(filteredScanline, prevScanline, scanline, n + 1, h.PixelBytes(), filter);
        assert filteredScanline[..n] == expected;
        stream := stream + ([filter] + filteredScanline[..n]);
      }
    }

    /** Brings the row into the order of the stream. */
    method ConvertRow(n: nat, ghost img: seq<byte>)
      requires Valid() && |img| == ImageSize(h) && HoldsAbove(img) && n == RowLength(h, Position())
      requires scanline[..n] == PixelRow(h, img, Position())
      modifies scanline
      ensures HoldsAbove(img) && scanline[..n] == StreamRow(h, order, img, Position())
    {
      if h.bitDepth == 16 && order != RAW {
        U16RowToBigEndian(scanline, n);
      }
    }

    /** Above the first row of a pass there are zeros; they are only written when a filter may look at them. */
    method ClearAbove(n: nat, ghost img: seq<byte>)
      requires Valid() && |img| == ImageSize(h) && HoldsAbove(img) && n == RowLength(h, Position())
      modifies prevScanline
      ensures RequiresPrevious(choices) ==> prevScanline[..n] == RowAbove(h, order, img, Position())
    {
      if ri.scanlineIdx == 0 && RequiresPrevious(choices) {
        Clear(prevScanline, n + 1);
        assert prevScanline[..n] == prevScanline[..n + 1][..n] == Zeros(n);
      }
    }

    /** encode_row: moves the pixels of the current row from the image to `scanline` and encodes them. */
    method EncodeRow(img: seq<byte>) returns (eoi: bool)
      requires Valid() && |img| == ImageSize(h) && HoldsAbove(img)
      modifies this, ri, buffers
      ensures stream == old(stream) + EncodedRow(h, order, choices, img, old(Position()))
      ensures eoi <==> NextRow(h, old(Position())).End?
      ensures !eoi ==> Valid() && HoldsAbove(img) && Position() == NextRow(h, old(Position())).pos
    {
      LoadRow(img);
      eoi := EncodeScanline(img);
    }

    method LoadRow(img: seq<byte>)
      requires Valid() && |img| == ImageSize(h) && HoldsAbove(img)
      modifies scanline
      ensures Valid() && HoldsAbove(img) && scanline[..RowLength(h, Position())] == PixelRow(h, img, Position())
    {
      ghost var p := Position();
      ghost var above := prevScanline[..];
      ImageStart(h, p);
      var off, width, pass := ri.rowNum * h.ImageWidth(), h.ImageWidth(), ri.pass;
      assert off == LineStart(h, LineNumber(h, p));
      if h.WholeRow(pass) {
        WholeRowLength(h, p);
        CopyInto(scanline, 0, img[off..off + width]);
      } else {
        PassColumnsFit(h, pass);
        RowIsWide(h, h.SubWidth(pass));
        var w := h.SubWidth(pass);
        if h.SubByte() {
          InterlacePacked(h.bitDepth, Adam7.XStart(pass), Adam7.XDelta(pass), w, h.RowBytes(w), img, off, width,
                          scanline, PassColumns(pass));
        } else {
          WholePixels(h, w);
          InterlaceBytes(h.PixelBytes(), Adam7.XStart(pass), Adam7.XDelta(pass), w, img, off, width, scanline,
                         PassColumns(pass));
        }
      }
      assert prevScanline[..] == above;
    }

    /** The loop of spng_encode_image. */
    method EncodeImage(img: seq<byte>)
      requires Valid() && Position() == FIRST && stream == [] && |img| == ImageSize(h)
      modifies this, ri, buffers
      ensures stream == Encode(h, order, choices, img)
    {
      ghost var total, todo := Encode(h, order, choices, img), EncodeFrom(h, order, choices, img, FIRST);
      var eoi := false;
      while !eoi
        invariant !eoi ==> Valid() && HoldsAbove(img) && todo == EncodeFrom(h, order, choices, img, Position())
        invariant eoi ==> todo == []
        invariant total == stream + todo
        decreases |todo|, !eoi
      {
        ghost var row, rest := FirstRow(h, order, choices, img, Position());
        Regroup(stream, row, rest);
        eoi := EncodeRow(img);
        todo := rest;
      }
      assert stream + todo == stream;
    }
  }

  /** The first row of what is to be encoded, and the rest. */
  lemma FirstRow(h: Header, order: Order, choices: Choices, img: seq<byte>, p: Pos)
    returns (row: seq<byte>, rest: seq<byte>)
    requires |img| == ImageSize(h) && IsRow(h, p)
    ensures row == EncodedRow(h, order, choices, img, p) && EncodeFrom(h, order, choices, img, p) == row + rest
    ensures NextRow(h, p).End? ==> rest == []
    ensures NextRow(h, p).Row? ==>
              IsRow(h, NextRow(h, p).pos) && rest == EncodeFrom(h, order, choices, img, NextRow(h, p).pos)
  {
    NextIsLeast(h, p);
    row := EncodedRow(h, order, choices, img, p);
    rest := match NextRow(h, p) case End => [] case Row(q) => EncodeFrom(h, order, choices, img, q);
  }

  lemma FilterNone(bpp: nat, prev: seq<byte>, row: seq<byte>)
    requires 0 < bpp && |row| <= |prev|
    ensures FilterRow(NONE, bpp, prev, row) == row
  {
  }

  // ---------- decoding ----------

  /** `after` is `before` with x at `off`. */
  ghost predicate Copied(before: seq<byte>, after: seq<byte>, off: nat, x: seq<byte>) {
    off + |x| <= |before| && after == before[..off] + x + before[off + |x|..]
  }

  datatype RowStatus = RowOk | EndOfImage | RowError(error: DecodeError)

  /** The last row of the last pass is where the cursor ends. */
  lemma LastRowEnds(h: Header, p: Pos, last: nat)
    requires IsRow(h, p) && IsLastPass(h, last)
    ensures NextRow(h, p).End? <==> p.idx == h.SubHeight(p.pass) - 1 && p.pass == last
  {
    NothingAfterLast(h, last);
    if p.pass < last {
      assert NonEmpty(h, last);
    }
  }

  /** What the row inverses for three- and four-byte pixels rely on. */
  lemma RowsForSimd(h: Header, p: Pos)
    requires IsRow(h, p)
    ensures h.PixelBytes() > 0 && (h.PixelBytes() in {3, 4} ==> RowLength(h, p) % h.PixelBytes() == 0)
  {
    PixelBytesPositive(h);
    if !h.SubByte() { WholePixels(h, h.SubWidth(p.pass)); }
  }

  /** The buffer of the row above may hold anything where the filter does not look. */
  lemma SameDefilter(h: Header, n: nat, idx: nat, filter: nat, above: seq<byte>, prev: seq<byte>, y: seq<byte>)
    requires |y| == n <= |prev| && (idx > 0 ==> |above| == n && prev[..n] == above)
    requires idx == 0 && filter > SUB ==> prev[..n] == Zeros(n)
    ensures h.PixelBytes() > 0
    ensures DefilterRow(filter, h.PixelBytes(), prev, y)
         == DefilterRow(filter, h.PixelBytes(), if idx == 0 then Zeros(n) else above, y)
  {
    PixelBytesPositive(h);
    var expected := if idx == 0 then Zeros(n) else above;
    assert expected[..n] == expected;
    if filter <= SUB {
      PrevUnused(filter, h.PixelBytes(), prev, expected, y);
    } else {
      PrevPrefix(filter, h.PixelBytes(), prev, expected, y);
    }
  }

  class Decoder {
    const h: Header
    const order: Order
    const ri: RowInfo
    const input: seq<byte>
    ghost const buffers: set<object>
    const row: array<byte>
    var scanline: array<byte>
    var prevScanline: array<byte>
    /** How much of the inflated input has been read. */
    var at: nat
    /** The filter byte of the current row, which has been read already. */
    var filter: byte
    /** SPNG_STATE_EOI. */
    var ended: bool

    ghost predicate Valid()
      reads this, ri
    {
      ri.h == h && ri.Valid() && ri !in buffers && this !in buffers &&
      row in buffers && scanline in buffers && prevScanline in buffers &&
      row != scanline && row != prevScanline && scanline != prevScanline &&
      BufferFits(h, scanline) && BufferFits(h, prevScanline) && row.Length == h.ImageWidth() &&
      at <= |input| && filter <= PAETH
    }

    ghost function Position(): Pos
      reads this, ri
      requires Valid()
      ensures IsRow(h, Position())
    {
      ri.Position()
    }

    /** What is left of the stream, with plain framing. */
    ghost function Unread(): seq<byte>
      reads this
      requires at <= |input|
    {
      input[at..]
    }

    /** spng_decode_image up to the first row: buffers, position, and the first filter byte. */
    constructor (header: Header, order: Order, layout: Layout, input: seq<byte>)
      requires IsLayoutOf(header, layout) && |input| >= 1 && input[0] <= PAETH
      ensures Valid() && h == header && this.order == order && this.input == input && Position() == FIRST
      ensures at == 1 && filter == input[0] && !ended
      ensures fresh(buffers) && fresh(ri)
    {
      h, this.order, this.input := header, order, input;
      ri := new RowInfo(header, layout.lastPass);
      var size := layout.sub[layout.widestPass].scanlineWidth + 32;
      var a, b, c := new byte[size], new byte[size], new byte[header.ImageWidth()];
      scanline, prevScanline, row, at, filter, ended := a, b, c, 1, input[0], false;
      buffers := {a, b, c};
      forall p | IsRow(header, p) ensures RowLength(header, p) + 1 <= size { WidestFits(header, layout, p); }
    }

    ghost predicate HoldsAbove(above: seq<byte>)
      reads this, ri, prevScanline
      requires Valid()
    {
      Position().idx > 0 ==> prevScanline[..RowLength(h, Position())] == above
    }

    /** read_scanline_bytes: the next `len` bytes of the stream. */
    method ReadScanlineBytes(len: nat) returns (ok: bool)
      requires at <= |input| && len <= scanline.Length
      modifies this`at, scanline
      ensures ok <==> len <= |old(Unread())|
      ensures ok ==> at == old(at) + len && at <= |input| && scanline[..len] == old(Unread())[..len]
    {
      if at + len > |input| { return false; }
      CopyInto(scanline, 0, input[at..at + len]);
      at := at + len;
      return true;
    }

    /** read_scanline: reads and restores the current row; reads the filter byte of the next. */
    method ReadScanline(ghost above: seq<byte>) returns (status: RowStatus)
      requires Valid() && HoldsAbove(above) && (Position().idx > 0 ==> |above| == RowLength(h, Position()))
      modifies this`at, this`filter, scanline, prevScanline
      ensures var o := ShiftedStep(h, order, old(filter), old(Unread()), old(Position()), above);
              if o.RowFailed? then status == RowError(o.error)
              else status == RowOk && Valid() && Position() == old(Position()) &&
                   |o.row| <= scanline.Length && scanline[..|o.row|] == o.row &&
                   Unread() == o.rest && (o.InnerRow? ==> filter == o.filter)
    {
      ghost var r := Unread();
      var n := h.RowBytes(h.SubWidth(ri.pass));
      var nextFilter;
      status, nextFilter := ReadRow(n);
      if status != RowOk { return; }
      RestoreScanline(n, r[..n], above);
      filter := nextFilter;
    }

    /** The first half of read_scanline: the bytes of the row, and the filter byte of the next row if there is one. */
    method ReadRow(n: nat) returns (status: RowStatus, nextFilter: byte)
      requires Valid() && n == RowLength(h, Position())
      modifies this`at, scanline
      ensures var r, shift := old(Unread()), if NextRow(h, old(Position())).End? then 0 else 1;
              if |r| < n + shift then status == RowError(EIdatTooShort)
              else if shift == 1 && r[n] > PAETH then status == RowError(EFilterByte)
              else status == RowOk && at == old(at) + n + shift <= |input| && scanline[..n] == r[..n] &&
                   nextFilter == (if shift == 1 then r[n] else 0)
    {
      ghost var r := Unread();
      LastRowEnds(h, Position(), ri.lastPass);
      nextFilter := 0;
      if ri.scanlineIdx == h.SubHeight(ri.pass) - 1 && ri.pass == ri.lastPass {
        var ok := ReadScanlineBytes(n);
        if !ok { status := RowError(EIdatTooShort); return; }
      } else {
        var ok := ReadScanlineBytes(n + 1);
        if !ok { status := RowError(EIdatTooShort); return; }
        nextFilter := scanline[n];
        assert scanline[n] == scanline[..n + 1][n] && scanline[..n] == scanline[..n + 1][..n];
        if nextFilter > PAETH { status := RowError(EFilterByte); return; }
      }
      status := RowOk;
    }

    /** The second half of read_scanline: clears the row above if there is none, converts and restores. */
    method RestoreScanline(n: nat, ghost x: seq<byte>, ghost above: seq<byte>)
      requires Valid() && HoldsAbove(above) && n == RowLength(h, Position()) == |x|
      requires (Position().idx > 0 ==> |above| == n) && scanline[..n] == x
      modifies scanline, prevScanline
      ensures scanline[..n] == RestoredRow(h, order, Position(), filter, above, x)
    {
      ClearAbove(n);
      ConvertRow(n, x);
      RowsForSimd(h, Position());
      SameDefilter(h, n, Position().idx, filter, above, prevScanline[..], scanline[..n]);
      var status := DefilterScanline(prevScanline, scanline, n + 1, h.PixelBytes(), filter);
    }

    method ClearAbove(n: nat)
      requires Valid() && n == RowLength(h, Position())
      modifies prevScanline
      ensures Position().idx == 0 && filter > SUB ==> prevScanline[..n] == Zeros(n)
      ensures Position().idx > 0 ==> prevScanline[..] == old(prevScanline[..])
    {
      if ri.scanlineIdx == 0 && filter > 1 {
        Clear(prevScanline, n + 1);
        assert prevScanline[..n] == prevScanline[..n + 1][..n] == Zeros(n);
      }
    }

    method ConvertRow(n: nat, ghost x: seq<byte>)
      requires Valid() && n == RowLength(h, Position()) == |x| && scanline[..n] == x
      modifies scanline
      ensures scanline[..n] == Convert(h, order, x)
    {
      if h.bitDepth == 16 && order != RAW {
        U16RowToHost(scanline, n);
      }
    }

    /** spng_decode_scanline for the formats PNG and RAW: the restored row goes to `dest`, and the cursor moves on. */
    method DecodeScanline(dest: array<byte>, off: nat, ghost above: seq<byte>) returns (status: RowStatus)
      requires Valid() && HoldsAbove(above) && (Position().idx > 0 ==> |above| == RowLength(h, Position()))
      requires dest != scanline && dest != prevScanline
      requires off + RowLength(h, Position()) <= dest.Length
      modifies this, ri, scanline, prevScanline, dest
      ensures var o := ShiftedStep(h, order, old(filter), old(Unread()), old(Position()), above);
              if o.RowFailed? then status == RowError(o.error)
              else Copied(old(dest[..]), dest[..], off, o.row) && at <= |input| && Unread() == o.rest &&
                   (o.LastRow? ==> status == EndOfImage && ended) &&
                   (o.InnerRow? ==> status == RowOk && ended == old(ended) && Valid() && filter == o.filter &&
                                    Next.Row(Position()) == NextRow(h, old(Position())) && HoldsAbove(o.row))
    {
      ghost var p := Position();
      var n := h.RowBytes(h.SubWidth(ri.pass));
      status := ReadScanline(above);
      if status != RowOk { return; }
      ghost var x := scanline[..n];
      CopyInto(dest, off, scanline[..n]);
      status := Advance(n, x);
    }

    /** Makes the restored row the row above, and moves the cursor. */
    method Advance(n: nat, ghost x: seq<byte>) returns (status: RowStatus)
      requires Valid() && n == RowLength(h, Position()) && scanline[..n] == x
      modifies this`scanline, this`prevScanline, this`ended, ri
      ensures status == if NextRow(h, old(Position())).End? then EndOfImage else RowOk
      ensures status == EndOfImage ==> ended
      ensures status == RowOk ==>
                ended == old(ended) && Valid() && Next.Row(Position()) == NextRow(h, old(Position())) && HoldsAbove(x)
    {
      ghost var p := Position();
      var t := prevScanline;
      prevScanline := scanline;
      scanline := t;
      NextIsLeast(h, p);
      var eoi := ri.Update();
      if eoi { ended := true; }
      status := if eoi then EndOfImage else RowOk;
    }
    /** spng_decode_row: decodes the current row and puts its pixels in their places.
        After an interlaced row it reports the end of the image only when it is called again. */
    method DecodeRow(out: array<byte>, ghost above: seq<byte>) returns (status: RowStatus)
      requires out !in buffers && out.Length == ImageSize(h) && at <= |input|
      requires !ended ==> Valid() && HoldsAbove(above) && (Position().idx > 0 ==> |above| == RowLength(h, Position()))
      modifies this, ri, buffers, out
      ensures old(ended) ==> status == EndOfImage && ended && at == old(at) && out[..] == old(out[..])
      ensures !old(ended) ==>
                var p := old(Position());
                var o := ShiftedStep(h, order, old(filter), old(Unread()), p, above);
                if o.RowFailed? then status == RowError(o.error)
                else out[..] == PlaceRow(h, old(out[..]), p, o.row) && at <= |input| && Unread() == o.rest &&
                     !status.RowError? && (status == EndOfImage ==> ended) && (ended <==> o.LastRow?) &&
                     (o.InnerRow? ==>
                        Valid() && filter == o.filter && Next.Row(Position()) == NextRow(h, p) && HoldsAbove(o.row))
    {
      if ended { return EndOfImage; }
      if h.WholeRow(ri.pass) {
        status := DecodeWholeRow(out, above);
      } else {
        status := DecodeSubimageRow(out, above);
      }
    }

    method DecodeWholeRow(out: array<byte>, ghost above: seq<byte>) returns (status: RowStatus)
      requires out !in buffers && out.Length == ImageSize(h) && Valid() && HoldsAbove(above) && !ended
      requires (Position().idx > 0 ==> |above| == RowLength(h, Position())) && h.WholeRow(Position().pass)
      modifies this, ri, buffers, out
      ensures var p := old(Position());
              var o := ShiftedStep(h, order, old(filter), old(Unread()), p, above);
              if o.RowFailed? then status == RowError(o.error)
              else out[..] == PlaceRow(h, old(out[..]), p, o.row) && at <= |input| && Unread() == o.rest &&
                   !status.RowError? && (status == EndOfImage ==> ended) && (ended <==> o.LastRow?) &&
                   (o.InnerRow? ==>
                      Valid() && filter == o.filter && Next.Row(Position()) == NextRow(h, p) && HoldsAbove(o.row))
    {
      hide RestoredRow, NextRow;
      ImageStart(h, Position());
      WholeRowLength(h, Position());
      status := DecodeScanline(out, ri.rowNum * h.ImageWidth(), above);
    }

    method DecodeSubimageRow(out: array<byte>, ghost above: seq<byte>) returns (status: RowStatus)
      requires out !in buffers && out.Length == ImageSize(h) && Valid() && HoldsAbove(above) && !ended
      requires (Position().idx > 0 ==> |above| == RowLength(h, Position())) && !h.WholeRow(Position().pass)
      modifies this, ri, buffers, out
      ensures var p := old(Position());
              var o := ShiftedStep(h, order, old(filter), old(Unread()), p, above);
              if o.RowFailed? then status == RowError(o.error)
              else out[..] == PlaceRow(h, old(out[..]), p, o.row) && at <= |input| && Unread() == o.rest &&
                   status == RowOk && (ended <==> o.LastRow?) &&
                   (o.InnerRow? ==>
                      Valid() && filter == o.filter && Next.Row(Position()) == NextRow(h, p) && HoldsAbove(o.row))
    {
      ghost var p, o := Position(), ShiftedStep(h, order, filter, Unread(), Position(), above);
      ImageStart(h, p);
      SubimageRowFits(h, p);
      var off, pass := ri.rowNum * h.ImageWidth(), ri.pass;
      status := DecodeScanline(row, 0, above);
      if status.RowError? { return; }
      assert row[..RowLength(h, p)] == o.row;
      PlaceSubimageRow(p, pass, out, off, o.row);
      return RowOk;
    }

    /** The loops of spng_decode_row. */
    method PlaceSubimageRow(ghost p: Pos, pass: nat, out: array<byte>, off: nat, ghost scan: seq<byte>)
      requires IsRow(h, p) && p.pass == pass && !h.WholeRow(pass) && out != row && out.Length == ImageSize(h)
      requires off == LineStart(h, LineNumber(h, p)) && RowLength(h, p) <= row.Length && row[..RowLength(h, p)] == scan
      modifies out
      ensures out[..] == PlaceRow(h, old(out[..]), p, scan)
    {
      PixelBytesPositive(h);
      PassColumnsFit(h, pass);
      RowIsWide(h, h.SubWidth(pass));
      var w, n, width := h.SubWidth(pass), h.RowBytes(h.SubWidth(pass)), h.ImageWidth();
      if h.SubByte() {
        DeinterlacePacked(h.bitDepth, Adam7.XStart(pass), Adam7.XDelta(pass), w, n, row, out, off, width,
                          PassColumns(pass));
      } else {
        DeinterlaceBytes(h.PixelBytes(), Adam7.XStart(pass), Adam7.XDelta(pass), w, n, row, out, off, width,
                         PassColumns(pass));
      }
    }

    /** The loop of spng_decode_image. */
    method DecodeImage(out: array<byte>) returns (status: RowStatus)
      requires Valid() && Position() == FIRST && at == 1 && |input| >= 1 && filter == input[0] && !ended
      requires out !in buffers && out.Length == ImageSize(h)
      modifies this, ri, buffers, out
      ensures status == match Decode(h, order, input, old(out[..]))
                        case Failed(e) => RowError(e)
                        case Decoded(_, _) => EndOfImage
      ensures status == EndOfImage ==>
                at <= |input| && Decode(h, order, input, old(out[..])) == Decoded(out[..], Unread())
    {
      ghost var plain, above := Decode(h, order, input, out[..]), [];
      assert input == [filter] + Unread();
      status := RowOk;
      while status == RowOk
        invariant !status.RowError? ==> at <= |input|
        invariant status.RowError? ==> plain == Failed(status.error)
        invariant !status.RowError? && ended ==> plain == Decoded(out[..], Unread())
        invariant !status.RowError? && !ended ==>
                    status == RowOk && Valid() && HoldsAbove(above) &&
                      (Position().idx > 0 ==> |above| == RowLength(h, Position())) &&
                    plain == DecodeFrom(h, order, [filter] + Unread(), Position(), above, out[..])
        decreases status == RowOk, |input| - at, !ended
      {
        ghost var o := RowFailed(EIdatTooShort);
        if !ended {
          o := ShiftedStep(h, order, filter, Unread(), Position(), above);
          ShiftedFraming(h, order, filter, Unread(), Position(), above, out[..]);
          InnerFollows(h, order, filter, Unread(), Position(), above);
        }
        status := DecodeRow(out, above);
        if o.InnerRow? { above := o.row; }
      }
    }
  }

  /** After an inner row comes another row, with less of the stream to read. */
  lemma InnerFollows(h: Header, order: Order, filter: byte, r: seq<byte>, p: Pos, above: seq<byte>)
    requires IsRow(h, p) && (p.idx > 0 ==> |above| == RowLength(h, p))
    ensures var o := ShiftedStep(h, order, filter, r, p, above);
            o.InnerRow? ==> |o.rest| < |r| && IsRow(h, NextRow(h, p).pos) &&
                            (NextRow(h, p).pos.idx > 0 ==> |o.row| == RowLength(h, NextRow(h, p).pos))
  {
    NextIsLeast(h, p);
  }

  /** A subimage row fits a row buffer of the image's width. */
  lemma SubimageRowFits(h: Header, p: Pos)
    requires IsRow(h, p)
    ensures RowLength(h, p) <= h.ImageWidth()
  {
    if h.interlaced {
      RowBytesMonotone(h, h.SubWidth(p.pass), h.width);
    }
  }

  // ---------- whole images ----------

  datatype CodecStatus = Complete | Rejected(error: DecodeError) | Overflow

  /** spng_encode_image: the layout, the buffers and all rows. */
  method EncodeWhole(h: Header, order: Order, choices: Choices, img: seq<byte>)
    returns (status: CodecStatus, stream: seq<byte>)
    requires |img| == ImageSize(h)
    ensures status == Overflow <==> exists p :: 0 <= p < 7 && SubimageOf(h, p).scanlineWidth > 0xFFFF_FFFF
    ensures status == Complete || status == Overflow
    ensures status == Complete ==> stream == Encode(h, order, choices, img)
    ensures status == Complete ==>
              var bits := if h.colorType == 2 then 3 * h.bitDepth
                          else if h.colorType == 4 then 2 * h.bitDepth
                          else if h.colorType == 6 then 4 * h.bitDepth
                          else h.bitDepth;
              |stream| == StreamSize.ImageBytes(bits, h.width, h.height, h.interlaced)
  {
    var layout := CalculateSubimages(h);
    if layout.EOverflow? { return Overflow, []; }
    StreamSize.EncodedHasSize(h, order, choices, img);
    var e := new Encoder(h, order, choices, layout);
    e.EncodeImage(img);
    return Complete, e.stream;
  }

  /** spng_decode_image: the layout, the first filter byte, the buffers and all rows. */
  method DecodeWhole(h: Header, order: Order, input: seq<byte>, out: array<byte>)
    returns (status: CodecStatus, unread: seq<byte>)
    requires out.Length == ImageSize(h)
    modifies out
    ensures status == Overflow <==> exists p :: 0 <= p < 7 && SubimageOf(h, p).scanlineWidth > 0xFFFF_FFFF
    ensures status != Overflow ==>
              var d := Decode(h, order, input, old(out[..]));
              if d.Failed? then status == Rejected(d.error)
              else status == Complete && out[..] == d.out && unread == d.rest
    ensures status == Complete ==>
              |unread| <= |input| && StreamSize.HasSize(h, |input| - |unread|) &&
              unread == input[|input| - |unread|..]
  {
    unread := [];
    var layout := CalculateSubimages(h);
    if layout.EOverflow? { return Overflow, unread; }
    FirstIsRow(h);
    StreamSize.DecodedHasSize(h, order, input, out[..]);
    if |input| == 0 { return Rejected(EIdatTooShort), unread; }
    if input[0] > PAETH { return Rejected(EFilterByte), unread; }
    var d := new Decoder(h, order, layout, input);
    var row := d.DecodeImage(out);
    if row.RowError? { return Rejected(row.error), unread; }
    return Complete, input[d.at..];
  }
}
