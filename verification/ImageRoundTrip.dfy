/** Encoding an image and decoding the stream returns every pixel. */
module ImageRoundTrip {
  import opened Bytes
  import opened ScanlineFilter
  import opened FilterChoice
  import opened ByteOrder
  import opened Pixels
  import opened Interlace
  import opened ImageHeader
  import opened RowOrder
  import opened ImageStream
  import opened ImageCodec
  import Adam7

  // ---------- one row ----------

  /** The restored row is the row that was encoded, whatever filter the encoder chose. */
  lemma RestoredIsPixelRow(h: Header, order: Order, img: seq<byte>, p: Pos, filter: nat, above: seq<byte>)
    requires |img| == ImageSize(h) && IsRow(h, p)
    requires p.idx > 0 ==> above == PixelRow(h, img, Pos(p.pass, p.idx - 1))
    ensures h.PixelBytes() > 0
    ensures RestoredRow(h, order, p, filter, above,
                        FilterRow(filter, h.PixelBytes(), RowAbove(h, order, img, p), StreamRow(h, order, img, p)))
         == PixelRow(h, img, p)
  {
    PixelBytesPositive(h);
    var bpp, row, prev := h.PixelBytes(), StreamRow(h, order, img, p), RowAbove(h, order, img, p);
    var x := FilterRow(filter, bpp, prev, row);
    DefilterFilter(filter, bpp, prev, row);
    if Swaps(h, order) {
      WholePixels(h, h.SubWidth(p.pass));
      SwapCommutesWithDefilter(filter, bpp, prev, x);
      SwapTwice(PixelRow(h, img, p));
      SwapZeros(|x|);
      if p.idx > 0 { SwapTwice(above); }
    }
  }

  // ---------- one pixel ----------

  /** The row that a pixel is coded in. */
  function Owner(h: Header, x: nat, y: nat): Pos {
    if h.interlaced then Pos(Adam7.PassOf(x, y), Adam7.RowOf(x, y)) else Pos(0, y)
  }

  lemma OwnerIsRow(h: Header, x: nat, y: nat)
    requires x < h.width && y < h.height
    ensures IsRow(h, Owner(h, x, y)) && LineNumber(h, Owner(h, x, y)) == y
    ensures h.interlaced ==> Adam7.ColumnOf(x, y) < h.SubWidth(Adam7.PassOf(x, y))
    ensures h.interlaced ==> x == Adam7.X(Adam7.PassOf(x, y), Adam7.ColumnOf(x, y))
  {
    if h.interlaced {
      Adam7.Partition(h.width, h.height, x, y);
    }
  }

  /** The columns of a row own its pixels. */
  lemma ColumnOwner(h: Header, p: Pos, k: nat)
    requires IsRow(h, p) && h.interlaced && k < h.SubWidth(p.pass)
    ensures Adam7.X(p.pass, k) < h.width && Owner(h, Adam7.X(p.pass, k), LineNumber(h, p)) == p
    ensures Adam7.ColumnOf(Adam7.X(p.pass, k), LineNumber(h, p)) == k
  {
    Adam7.SubWidthCounts(p.pass, h.width, k);
    Adam7.PlaceHasPass(p.pass, k, p.idx);
  }

  /** All pixels of a line that is coded whole have the same owner. */
  lemma WholeLineOwner(h: Header, p: Pos, x: nat)
    requires IsRow(h, p) && h.WholeRow(p.pass) && x < h.width
    ensures Owner(h, x, LineNumber(h, p)) == p
  {
    if h.interlaced {
      assert Adam7.X(6, x) == x;
      Adam7.PlaceHasPass(6, x, p.idx);
    }
  }

  lemma LineHolds(h: Header, img: seq<byte>, x: nat, y: nat)
    requires |img| == ImageSize(h) && x < h.width && y < h.height
    ensures Holds(FormatOf(h), |Line(h, img, y)|, x)
  {
    RowIsWide(h, h.width);
  }

  /** The value of part j of pixel (x, y). */
  function PixelPart(h: Header, img: seq<byte>, x: nat, y: nat, j: nat): byte
    requires |img| == ImageSize(h) && x < h.width && y < h.height && j < FormatOf(h).Parts()
  {
    LineHolds(h, img, x, y);
    Part(FormatOf(h), Line(h, img, y), x, j)
  }

  ghost predicate SamePixel(h: Header, img: seq<byte>, out: seq<byte>, x: nat, y: nat)
    requires |img| == |out| == ImageSize(h) && x < h.width && y < h.height
  {
    forall j :: 0 <= j < FormatOf(h).Parts() ==> PixelPart(h, out, x, y, j) == PixelPart(h, img, x, y, j)
  }

  /** No bit of a packed pixel is set. */
  ghost predicate BlankPixel(h: Header, out: seq<byte>, x: nat, y: nat)
    requires |out| == ImageSize(h) && x < h.width && y < h.height
  {
    h.SubByte() ==> PixelPart(h, out, x, y, 0) == 0
  }

  /** Before an interlaced row is placed, its pixels must be blank. */
  ghost predicate RowIsBlank(h: Header, out: seq<byte>, p: Pos)
    requires |out| == ImageSize(h)
  {
    h.interlaced ==>
      forall x, y :: 0 <= x < h.width && 0 <= y < h.height && Owner(h, x, y) == p ==> BlankPixel(h, out, x, y)
  }

  /** Placing a row sets the pixels it owns. */
  lemma PlacedPixel(h: Header, img: seq<byte>, out: seq<byte>, p: Pos, x: nat, y: nat)
    requires |img| == |out| == ImageSize(h) && IsRow(h, p) && x < h.width && y < h.height
    requires RowIsBlank(h, out, p) && Owner(h, x, y) == p
    ensures SamePixel(h, img, PlaceRow(h, out, p, PixelRow(h, img, p)), x, y)
  {
    OwnerIsRow(h, x, y);
    var out' := PlaceRow(h, out, p, PixelRow(h, img, p));
    if h.WholeRow(p.pass) {
      LineAfterSet(h, out, y, PixelRow(h, img, p), y);
    } else {
      PassColumnsFit(h, p.pass);
      RowIsWide(h, h.SubWidth(p.pass));
      var f, col, w, c := FormatOf(h), PassColumns(p.pass), h.SubWidth(p.pass), Adam7.ColumnOf(x, y);
      var line, target, scan := Line(h, img, y), Line(h, out, y), PixelRow(h, img, p);
      BlankColumns(h, out, p);
      LineAfterSet(h, out, y, Deposit(f, target, col, w, scan, w), y);
      forall j | 0 <= j < f.Parts() ensures PixelPart(h, out', x, y, j) == PixelPart(h, img, x, y, j) {
        DepositPuts(f, target, col, w, scan, w, c, j);
        ExtractedPart(f, line, col, w, RowLength(h, p), w, c, j);
      }
    }
  }

  lemma BlankColumns(h: Header, out: seq<byte>, p: Pos)
    requires |out| == ImageSize(h) && IsRow(h, p) && h.interlaced && RowIsBlank(h, out, p)
    ensures Columns(FormatOf(h), PassColumns(p.pass), h.SubWidth(p.pass), h.ImageWidth())
    ensures forall k :: 0 <= k < h.SubWidth(p.pass) ==>
              Blank(FormatOf(h), Line(h, out, LineNumber(h, p)), PassColumns(p.pass)(k))
  {
    PassColumnsFit(h, p.pass);
    forall k | 0 <= k < h.SubWidth(p.pass)
      ensures Blank(FormatOf(h), Line(h, out, LineNumber(h, p)), PassColumns(p.pass)(k))
    {
      ColumnOwner(h, p, k);
      assert BlankPixel(h, out, Adam7.X(p.pass, k), LineNumber(h, p));
    }
  }

  /** Placing a row keeps the pixels it does not own. */
  lemma KeptPixel(h: Header, img: seq<byte>, out: seq<byte>, p: Pos, x: nat, y: nat, j: nat)
    requires |img| == |out| == ImageSize(h) && IsRow(h, p) && x < h.width && y < h.height && j < FormatOf(h).Parts()
    requires RowIsBlank(h, out, p) && Owner(h, x, y) != p
    ensures PixelPart(h, PlaceRow(h, out, p, PixelRow(h, img, p)), x, y, j) == PixelPart(h, out, x, y, j)
  {
    var y0, row := LineNumber(h, p), PixelRow(h, img, p);
    if h.WholeRow(p.pass) {
      LineAfterSet(h, out, y0, row, y);
      WholeLineOwner(h, p, x);
    } else {
      PassColumnsFit(h, p.pass);
      RowIsWide(h, h.SubWidth(p.pass));
      var f, col, w := FormatOf(h), PassColumns(p.pass), h.SubWidth(p.pass);
      var target := Line(h, out, y0);
      LineAfterSet(h, out, y0, Deposit(f, target, col, w, row, w), y);
      if y == y0 {
        BlankColumns(h, out, p);
        LineHolds(h, out, x, y);
        forall k | 0 <= k < w ensures col(k) != x {
          ColumnOwner(h, p, k);
        }
        DepositKeeps(f, target, col, w, row, w, x, j);
      }
    }
  }

  // ---------- the whole image ----------

  /** Lines that are coded without interlacing. */
  predicate WholeLine(h: Header, y: nat) {
    h.WholeRow(Owner(h, 0, y).pass)
  }

  /** All rows before `limit` are in place, and the pixels of the others are blank if the image is interlaced. */
  ghost predicate Agrees(h: Header, img: seq<byte>, out: seq<byte>, limit: Pos)
    requires |img| == |out| == ImageSize(h)
  {
    (forall x, y :: 0 <= x < h.width && 0 <= y < h.height ==>
       if Less(Owner(h, x, y), limit) then SamePixel(h, img, out, x, y)
       else h.interlaced ==> BlankPixel(h, out, x, y)) &&
    (forall y :: 0 <= y < h.height && WholeLine(h, y) && Less(Owner(h, 0, y), limit) ==>
     Line(h, out, y) == Line(h, img, y))
  }

  /** The row after p, or a position after all rows. */
  function After(h: Header, p: Pos): Pos
    requires IsRow(h, p)
  {
    match NextRow(h, p)
    case End => Pos(7, 0)
    case Row(q) => q
  }

  /** The rows before the next row are p and the rows before p. */
  lemma BeforeAfter(h: Header, p: Pos, q: Pos)
    requires IsRow(h, p) && IsRow(h, q)
    ensures Less(q, After(h, p)) <==> Less(q, p) || q == p
  {
    NextIsLeast(h, p);
  }

  lemma PlaceAgrees(h: Header, img: seq<byte>, out: seq<byte>, p: Pos)
    requires |img| == |out| == ImageSize(h) && IsRow(h, p) && Agrees(h, img, out, p)
    ensures Agrees(h, img, PlaceRow(h, out, p, PixelRow(h, img, p)), After(h, p))
  {
    var out', limit := PlaceRow(h, out, p, PixelRow(h, img, p)), After(h, p);
    forall x, y | 0 <= x < h.width && 0 <= y < h.height
      ensures if Less(Owner(h, x, y), limit) then SamePixel(h, img, out', x, y)
              else h.interlaced ==> BlankPixel(h, out', x, y)
    {
      OwnerIsRow(h, x, y);
      BeforeAfter(h, p, Owner(h, x, y));
      if Owner(h, x, y) == p {
        PlacedPixel(h, img, out, p, x, y);
      } else {
        forall j | 0 <= j < FormatOf(h).Parts() ensures PixelPart(h, out', x, y, j) == PixelPart(h, out, x, y, j) {
          KeptPixel(h, img, out, p, x, y, j);
        }
      }
    }
    forall y | 0 <= y < h.height && WholeLine(h, y) && Less(Owner(h, 0, y), limit)
      ensures Line(h, out', y) == Line(h, img, y)
    {
      OwnerIsRow(h, 0, y);
      BeforeAfter(h, p, Owner(h, 0, y));
      PlacedLine(h, img, out, p, y);
    }
  }

  /** Placing a row keeps the other lines, and sets its line if that is coded whole. */
  lemma PlacedLine(h: Header, img: seq<byte>, out: seq<byte>, p: Pos, y: nat)
    requires |img| == |out| == ImageSize(h) && IsRow(h, p) && y < h.height && WholeLine(h, y)
    ensures Line(h, PlaceRow(h, out, p, PixelRow(h, img, p)), y)
         == if Owner(h, 0, y) == p then Line(h, img, y) else Line(h, out, y)
  {
    OwnerIsRow(h, 0, y);
    var y0, row := LineNumber(h, p), PixelRow(h, img, p);
    if h.WholeRow(p.pass) {
      LineAfterSet(h, out, y0, row, y);
      WholeLineOwner(h, p, 0);
    } else {
      PassColumnsFit(h, p.pass);
      RowIsWide(h, h.SubWidth(p.pass));
      ColumnOwner(h, p, 0);
      OtherPass(h, p, y);
      LineAfterSet(h, out, y0, Deposit(FormatOf(h), Line(h, out, y0), PassColumns(p.pass), h.SubWidth(p.pass), row,
                                       h.SubWidth(p.pass)), y);
    }
  }

  /** A line that is coded whole is in no other pass. */
  lemma OtherPass(h: Header, p: Pos, y: nat)
    requires IsRow(h, p) && !h.WholeRow(p.pass) && WholeLine(h, y)
    ensures LineNumber(h, p) != y
  {
    Adam7.PlaceHasPass(p.pass, 0, p.idx);
    Adam7.Parts(y);
  }

  /** Decoding the encoding of row p gives its pixels, and leaves the encoding of the rows after it. */
  lemma RowRoundTrip(h: Header, order: Order, choices: Choices, img: seq<byte>, p: Pos, above: seq<byte>,
                     out: seq<byte>, rest: seq<byte>)
    requires |img| == |out| == ImageSize(h) && IsRow(h, p)
    requires p.idx > 0 ==> above == PixelRow(h, img, Pos(p.pass, p.idx - 1))
    ensures NextRow(h, p).Row? ==>
              IsRow(h, NextRow(h, p).pos) &&
              (NextRow(h, p).pos.idx > 0 ==> RowLength(h, NextRow(h, p).pos) == RowLength(h, p))
    ensures DecodeFrom(h, order, EncodeFrom(h, order, choices, img, p) + rest, p, above, out)
         == (var row := PixelRow(h, img, p);
             if NextRow(h, p).End? then Decoded(PlaceRow(h, out, p, row), rest)
             else DecodeFrom(h, order, EncodeFrom(h, order, choices, img, NextRow(h, p).pos) + rest, NextRow(h, p).pos,
                             row,
                             PlaceRow(h, out, p, row)))
  {
    var filter, x, later := EncodeStep(h, order, choices, img, p);
    RestoredIsPixelRow(h, order, img, p, filter, above);
    Regroup([filter] + x, later, rest);
    DecodeStep(h, order, filter, x, later + rest, p, above, out);
    if NextRow(h, p).End? { assert later + rest == rest; }
  }

  lemma NextIsAfter(h: Header, p: Pos)
    requires IsRow(h, p)
    ensures NextRow(h, p).End? ==> After(h, p) == Pos(7, 0)
    ensures NextRow(h, p).Row? ==>
              (var q := NextRow(h, p).pos;
               IsRow(h, q) && q == After(h, p) && (q.idx > 0 ==> q.pass == p.pass && q.idx - 1 == p.idx) &&
                 p.pass <= q.pass)
  {
    NextIsLeast(h, p);
  }

  /** Decoding what was encoded from row p on completes the image and consumes exactly that. */
  lemma {:induction false} RoundTripFrom(h: Header, order: Order, choices: Choices, img: seq<byte>, p: Pos,
                                         above: seq<byte>, out: seq<byte>, rest: seq<byte>)
    requires |img| == |out| == ImageSize(h) && IsRow(h, p) && Agrees(h, img, out, p)
    requires p.idx > 0 ==> above == PixelRow(h, img, Pos(p.pass, p.idx - 1))
    ensures var d := DecodeFrom(h, order, EncodeFrom(h, order, choices, img, p) + rest, p, above, out);
            d.Decoded? && d.rest == rest && |d.out| == |img| && Agrees(h, img, d.out, Pos(7, 0))
    decreases 7 - p.pass, h.SubHeight(p.pass) - p.idx
  {
    hide EncodeFrom, DecodeFrom, PixelRow, Agrees;
    var row := PixelRow(h, img, p);
    PlaceAgrees(h, img, out, p);
    RowRoundTrip(h, order, choices, img, p, above, out, rest);
    NextIsAfter(h, p);
    if NextRow(h, p).Row? {
      var q := NextRow(h, p).pos;
      RoundTripFrom(h, order, choices, img, q, row, PlaceRow(h, out, p, row), rest);
    }
  }

  /** The encoding of one row, and the rest. */
  lemma EncodeStep(h: Header, order: Order, choices: Choices, img: seq<byte>, p: Pos)
    returns (filter: byte, x: seq<byte>, later: seq<byte>)
    requires |img| == ImageSize(h) && IsRow(h, p)
    ensures filter <= PAETH && h.PixelBytes() > 0
    ensures x == FilterRow(filter, h.PixelBytes(), RowAbove(h, order, img, p), StreamRow(h, order, img, p))
    ensures EncodeFrom(h, order, choices, img, p) == [filter] + x + later
    ensures NextRow(h, p).Row? ==> IsRow(h, NextRow(h, p).pos)
    ensures later == match NextRow(h, p) case End => [] case Row(q) => EncodeFrom(h, order, choices, img, q)
  {
    PixelBytesPositive(h);
    NextIsLeast(h, p);
    var above, row := RowAbove(h, order, img, p), StreamRow(h, order, img, p);
    ChosenIsLegal(choices, h.PixelBytes(), above, row);
    filter := BestFilter(choices, h.PixelBytes(), above, row);
    x := FilterRow(filter, h.PixelBytes(), above, row);
    later := match NextRow(h, p) case End => [] case Row(q) => EncodeFrom(h, order, choices, img, q);
  }

  /** The image may be decoded into `out`: for interlaced images of packed samples, out must be zero. */
  predicate ReadyFor(h: Header, out: seq<byte>) {
    h.interlaced && h.SubByte() ==> forall i :: 0 <= i < |out| ==> out[i] == 0
  }

  /** A whole image survives: every pixel is returned, for every size, depth, filter choice, format and
      interlace method. Unless packed samples are interlaced, so are the padding bits, hence all bytes. */
  lemma RoundTrip(h: Header, order: Order, choices: Choices, img: seq<byte>, out: seq<byte>, rest: seq<byte>)
    requires |img| == |out| == ImageSize(h) && ReadyFor(h, out)
    ensures var d := Decode(h, order, Encode(h, order, choices, img) + rest, out);
            d.Decoded? && d.rest == rest && |d.out| == |img| &&
            (forall x, y :: 0 <= x < h.width && 0 <= y < h.height ==> SamePixel(h, img, d.out, x, y)) &&
            (!(h.interlaced && h.SubByte()) ==> d.out == img)
  {
    FirstIsRow(h);
    StartAgrees(h, img, out);
    RoundTripFrom(h, order, choices, img, FIRST, [], out, rest);
    var d := Decode(h, order, Encode(h, order, choices, img) + rest, out);
    forall x, y | 0 <= x < h.width && 0 <= y < h.height ensures SamePixel(h, img, d.out, x, y) {
      OwnerIsRow(h, x, y);
    }
    if !(h.interlaced && h.SubByte()) {
      forall y | 0 <= y < h.height ensures Line(h, d.out, y) == Line(h, img, y) {
        OwnerIsRow(h, 0, y);
        SameLine(h, img, d.out, y);
      }
      SameLinesSameImage(h, d.out, img);
    }
  }

  lemma StartAgrees(h: Header, img: seq<byte>, out: seq<byte>)
    requires |img| == |out| == ImageSize(h) && ReadyFor(h, out)
    ensures Agrees(h, img, out, FIRST)
  {
    forall x, y | 0 <= x < h.width && 0 <= y < h.height
      ensures h.interlaced ==> BlankPixel(h, out, x, y)
    {
      if h.interlaced && h.SubByte() {
        LineHolds(h, out, x, y);
        ZerosBlank(FormatOf(h), Line(h, out, y), x);
      }
    }
  }

  lemma SameLine(h: Header, img: seq<byte>, out: seq<byte>, y: nat)
    requires |img| == |out| == ImageSize(h) && y < h.height && !(h.interlaced && h.SubByte())
    requires IsRow(h, Owner(h, 0, y)) && Agrees(h, img, out, Pos(7, 0))
    requires forall x :: 0 <= x < h.width ==> SamePixel(h, img, out, x, y)
    ensures Line(h, out, y) == Line(h, img, y)
  {
    if !WholeLine(h, y) {
      PixelBytesPositive(h);
      WholePixels(h, h.width);
      RowIsWide(h, h.width);
      forall x, j | 0 <= x < h.width && 0 <= j < h.PixelBytes()
        ensures Part(FormatOf(h), Line(h, out, y), x, j) == Part(FormatOf(h), Line(h, img, y), x, j)
      {
        assert SamePixel(h, img, out, x, y);
        assert PixelPart(h, out, x, y, j) == PixelPart(h, img, x, y, j);
      }
      SamePixelsSameRow(h.PixelBytes(), h.width, Line(h, out, y), Line(h, img, y));
    }
  }

  /** The same for the running encoder and decoder. */
  method EncodeAndDecode(h: Header, order: Order, choices: Choices, img: seq<byte>,
                         out: array<byte>)
    returns (complete: bool)
    requires |img| == out.Length == ImageSize(h) && ReadyFor(h, out[..])
    modifies out
    ensures !complete <==> exists p :: 0 <= p < 7 && SubimageOf(h, p).scanlineWidth > 0xFFFF_FFFF
    ensures complete ==> forall x, y :: 0 <= x < h.width && 0 <= y < h.height ==> SamePixel(h, img, out[..], x, y)
    ensures complete && !(h.interlaced && h.SubByte()) ==> out[..] == img
  {
    var status, stream := EncodeWhole(h, order, choices, img);
    if status == Overflow { return false; }
    RoundTrip(h, order, choices, img, out[..], []);
    assert stream + [] == stream;
    var decoded, unread := DecodeWhole(h, order, stream, out);
    return true;
  }
}
