/** The byte stream of an image, as specification: what encoding writes and what decoding reads,
    with plain framing (a filter byte, then its row) and deflate as the identity (kernel/lib/spng.c). */
module ImageStream {
  import opened Bytes
  import opened ScanlineFilter
  import opened FilterChoice
  import opened ByteOrder
  import opened Pixels
  import opened Interlace
  import opened ImageHeader
  import opened RowOrder

  /** SPNG_FMT_PNG has samples in the host's order, SPNG_FMT_RAW in the order of the stream. */
  datatype Order = PNG | RAW

  // ---------- rows of an image ----------

  /** image_size. */
  function ImageSize(h: Header): nat {
    Offset(h.height, h.ImageWidth())
  }

  /** The position of image row y: `row_num * image_width`. */
  function LineStart(h: Header, y: nat): (o: nat)
    requires y < h.height
    ensures o + h.ImageWidth() <= ImageSize(h)
  {
    Apart(y, h.height, h.ImageWidth());
    Offset(y, h.ImageWidth())
  }

  function Line(h: Header, img: seq<byte>, y: nat): (r: seq<byte>)
    requires |img| == ImageSize(h) && y < h.height
    ensures |r| == h.ImageWidth()
  {
    img[LineStart(h, y)..LineStart(h, y) + h.ImageWidth()]
  }

  function SetLine(h: Header, img: seq<byte>, y: nat, row: seq<byte>): (r: seq<byte>)
    requires |img| == ImageSize(h) && y < h.height && |row| == h.ImageWidth()
    ensures |r| == |img|
  {
    img[..LineStart(h, y)] + row + img[LineStart(h, y) + h.ImageWidth()..]
  }

  lemma LineAfterSet(h: Header, img: seq<byte>, y: nat, row: seq<byte>, y': nat)
    requires |img| == ImageSize(h) && y < h.height && y' < h.height && |row| == h.ImageWidth()
    ensures Line(h, SetLine(h, img, y, row), y') == if y' == y then row else Line(h, img, y')
  {
    if y' < y { Apart(y', y, h.ImageWidth()); }
    if y < y' { Apart(y, y', h.ImageWidth()); }
    SpliceSlice(img, LineStart(h, y), row, LineStart(h, y'));
  }

  /** The rows of an image follow each other. */
  lemma LinesInOrder(h: Header, img: seq<byte>, y: nat)
    requires |img| == ImageSize(h) && y < h.height
    ensures var n := h.RowBytes(h.width);
            |img| == h.height * n && 0 <= y * n <= y * n + n <= |img| && Line(h, img, y) == img[y * n..y * n + n]
  {
    hide Ihdr.RowBytes, Offset;
    OffsetIsProduct(h.height, h.ImageWidth());
    OffsetIsProduct(y, h.ImageWidth());
    var start := LineStart(h, y);
  }

  /** Replacing |v| bytes changes that slice and no other. */
  lemma SpliceSlice(row: seq<byte>, at: nat, v: seq<byte>, at': nat)
    requires at + |v| <= |row| && at' + |v| <= |row|
    requires at == at' || at + |v| <= at' || at' + |v| <= at
    ensures (row[..at] + v + row[at + |v|..])[at'..at' + |v|] == if at' == at then v else row[at'..at' + |v|]
  {
    if |v| == 0 {
      assert row[at'..at'] == [] == v;
    }
  }

  /** Images are equal when all their lines are. */
  lemma SameLinesSameImage(h: Header, img: seq<byte>, img': seq<byte>)
    requires |img| == |img'| == ImageSize(h)
    requires forall y :: 0 <= y < h.height ==> Line(h, img, y) == Line(h, img', y)
    ensures img == img'
  {
    forall i | 0 <= i < |img| ensures img[i] == img'[i] {
      if h.ImageWidth() == 0 { OffsetIsProduct(h.height, 0); assert false; }
      var y, j := PixelOfByte(h.ImageWidth(), h.height, i);
      assert img[i] == Line(h, img, y)[j] && img'[i] == Line(h, img', y)[j];
    }
  }

  // ---------- rows of a subimage ----------

  function RowLength(h: Header, p: Pos): nat {
    h.RowBytes(h.SubWidth(p.pass))
  }

  lemma WholeRowLength(h: Header, p: Pos)
    requires IsRow(h, p) && h.WholeRow(p.pass)
    ensures RowLength(h, p) == h.ImageWidth()
  {
  }

  function LineNumber(h: Header, p: Pos): (y: nat)
    requires IsRow(h, p)
    ensures y < h.height
  {
    ImageRowInside(h, p);
    h.ImageRow(p.pass, p.idx)
  }

  /** The pixels of row p in the caller's byte order. */
  ghost function PixelRow(h: Header, img: seq<byte>, p: Pos): (r: seq<byte>)
    requires |img| == ImageSize(h) && IsRow(h, p)
    ensures |r| == RowLength(h, p)
  {
    var line := Line(h, img, LineNumber(h, p));
    if h.WholeRow(p.pass) then
      WholeRowLength(h, p);
      line
    else
      PassColumnsFit(h, p.pass);
      RowIsWide(h, h.SubWidth(p.pass));
      var w := h.SubWidth(p.pass);
      Extract(FormatOf(h), line, PassColumns(p.pass), w, RowLength(h, p), w)
  }

  /** Both conversions exchange the bytes of 16-bit samples. */
  predicate Swaps(h: Header, order: Order) {
    h.bitDepth == 16 && order == PNG
  }

  function Convert(h: Header, order: Order, row: seq<byte>): (r: seq<byte>)
    ensures |r| == |row|
  {
    if Swaps(h, order) then SwapPairs(row) else row
  }

  /** Only 16-bit samples of the format PNG are converted: the two bytes of each trade places. */
  lemma Converted(h: Header, order: Order, row: seq<byte>, i: nat)
    requires 2 * i + 1 < |row|
    ensures var r := Convert(h, order, row);
            if h.bitDepth == 16 && order == PNG then r[2 * i] == row[2 * i + 1] && r[2 * i + 1] == row[2 * i]
            else r == row
  {
  }

  /** Row p as it is filtered: in the byte order of the stream. */
  ghost function StreamRow(h: Header, order: Order, img: seq<byte>, p: Pos): (r: seq<byte>)
    requires |img| == ImageSize(h) && IsRow(h, p)
    ensures |r| == RowLength(h, p)
  {
    Convert(h, order, PixelRow(h, img, p))
  }

  /** The row above row p in its pass; zero above the first. */
  ghost function RowAbove(h: Header, order: Order, img: seq<byte>, p: Pos): (r: seq<byte>)
    requires |img| == ImageSize(h) && IsRow(h, p)
    ensures |r| == RowLength(h, p)
  {
    if p.idx == 0 then Zeros(RowLength(h, p)) else StreamRow(h, order, img, Pos(p.pass, p.idx - 1))
  }

  // ---------- encoding ----------

  ghost function EncodedRow(h: Header, order: Order, choices: Choices, img: seq<byte>, p: Pos): (r: seq<byte>)
    requires |img| == ImageSize(h) && IsRow(h, p)
    ensures |r| == 1 + RowLength(h, p)
  {
    PixelBytesPositive(h);
    var above, row := RowAbove(h, order, img, p), StreamRow(h, order, img, p);
    ChosenIsLegal(choices, h.PixelBytes(), above, row);
    var filter := BestFilter(choices, h.PixelBytes(), above, row);
    [filter] + FilterRow(filter, h.PixelBytes(), above, row)
  }

  /** The stream from row p on. */
  ghost function EncodeFrom(h: Header, order: Order, choices: Choices, img: seq<byte>, p: Pos): seq<byte>
    requires |img| == ImageSize(h) && IsRow(h, p)
    decreases 7 - p.pass, h.SubHeight(p.pass) - p.idx
  {
    NextIsLeast(h, p);
    EncodedRow(h, order, choices, img, p) +
    match NextRow(h, p)
    case End => []
    case Row(q) => EncodeFrom(h, order, choices, img, q)
  }

  /** The stream of a whole image. */
  ghost function Encode(h: Header, order: Order, choices: Choices, img: seq<byte>): seq<byte>
    requires |img| == ImageSize(h)
  {
    FirstIsRow(h);
    EncodeFrom(h, order, choices, img, FIRST)
  }

  // ---------- decoding ----------

  datatype DecodeError = EFilterByte | EIdatTooShort

  /** The image and what is left of the stream, or an error. */
  datatype Decoding = Decoded(out: seq<byte>, rest: seq<byte>) | Failed(error: DecodeError)

  /** Row p restored from its bytes x, given the restored row above in the caller's order. */
  ghost function RestoredRow(h: Header, order: Order, p: Pos, filter: nat, above: seq<byte>,
                             x: seq<byte>): (r: seq<byte>)
    requires IsRow(h, p) && |x| == RowLength(h, p) && (p.idx > 0 ==> |above| == |x|)
    ensures |r| == |x|
  {
    PixelBytesPositive(h);
    DefilterRow(filter, h.PixelBytes(), if p.idx == 0 then Zeros(|x|) else above, Convert(h, order, x))
  }

  /** The image after row p is put in its place. */
  ghost function PlaceRow(h: Header, out: seq<byte>, p: Pos, row: seq<byte>): (r: seq<byte>)
    requires |out| == ImageSize(h) && IsRow(h, p) && |row| == RowLength(h, p)
    ensures |r| == |out|
  {
    var y := LineNumber(h, p);
    if h.WholeRow(p.pass) then
      WholeRowLength(h, p);
      SetLine(h, out, y, row)
    else
      PassColumnsFit(h, p.pass);
      RowIsWide(h, h.SubWidth(p.pass));
      var w := h.SubWidth(p.pass);
      SetLine(h, out, y, Deposit(FormatOf(h), Line(h, out, y), PassColumns(p.pass), w, row, w))
  }

  ghost function DecodeFrom(h: Header, order: Order, s: seq<byte>, p: Pos, above: seq<byte>,
                            out: seq<byte>): (r: Decoding)
    requires |out| == ImageSize(h) && IsRow(h, p) && (p.idx > 0 ==> |above| == RowLength(h, p))
    ensures r.Decoded? ==> |r.out| == |out|
    decreases 7 - p.pass, h.SubHeight(p.pass) - p.idx
  {
    NextIsLeast(h, p);
    var n := RowLength(h, p);
    if |s| == 0 then Failed(EIdatTooShort)
    else if s[0] > PAETH then Failed(EFilterByte)
    else if |s| < 1 + n then Failed(EIdatTooShort)
    else
      var row := RestoredRow(h, order, p, s[0], above, s[1..1 + n]);
      var out' := PlaceRow(h, out, p, row);
      match NextRow(h, p)
      case End => Decoded(out', s[1 + n..])
      case Row(q) => DecodeFrom(h, order, s[1 + n..], q, row, out')
  }

  /** Decoding of a whole image into `out`. */
  ghost function Decode(h: Header, order: Order, s: seq<byte>, out: seq<byte>): Decoding
    requires |out| == ImageSize(h)
  {
    FirstIsRow(h);
    DecodeFrom(h, order, s, FIRST, [], out)
  }

  /** The decoding of one row, and the rest. */
  lemma DecodeStep(h: Header, order: Order, filter: byte, x: seq<byte>, later: seq<byte>, p: Pos, above: seq<byte>,
                   out: seq<byte>)
    requires |out| == ImageSize(h) && IsRow(h, p) && |x| == RowLength(h, p) && (p.idx > 0 ==> |above| == |x|)
    requires filter <= PAETH
    ensures NextRow(h, p).Row? ==>
              IsRow(h, NextRow(h, p).pos) && (NextRow(h, p).pos.idx > 0 ==> RowLength(h, NextRow(h, p).pos) == |x|)
    ensures var row := RestoredRow(h, order, p, filter, above, x);
            DecodeFrom(h, order, [filter] + x + later, p, above, out)
            == match NextRow(h, p)
               case End => Decoded(PlaceRow(h, out, p, row), later)
               case Row(q) => DecodeFrom(h, order, later, q, row, PlaceRow(h, out, p, row))
  {
    NextIsLeast(h, p);
    var s := [filter] + x + later;
    assert s[1..1 + |x|] == x && s[1 + |x|..] == later;
  }

  // ---------- shifted framing ----------

  /** What comes of reading a row, whose filter byte is known, together with the filter byte of the next row. */
  datatype RowOutcome =
    | RowFailed(error: DecodeError)
    | LastRow(row: seq<byte>, rest: seq<byte>)
    | InnerRow(row: seq<byte>, filter: byte, rest: seq<byte>)

  ghost predicate OutcomeOf(h: Header, p: Pos, o: RowOutcome)
    requires IsRow(h, p)
  {
    (o.LastRow? ==> |o.row| == RowLength(h, p)) &&
    (o.InnerRow? ==> |o.row| == RowLength(h, p) && NextRow(h, p).Row?)
  }

  ghost function ShiftedStep(h: Header, order: Order, filter: byte, r: seq<byte>, p: Pos,
                             above: seq<byte>): (o: RowOutcome)
    requires IsRow(h, p) && (p.idx > 0 ==> |above| == RowLength(h, p))
    ensures OutcomeOf(h, p, o)
  {
    var n := RowLength(h, p);
    if NextRow(h, p).End? then
      if |r| < n then RowFailed(EIdatTooShort)
      else LastRow(RestoredRow(h, order, p, filter, above, r[..n]), r[n..])
    else if |r| < n + 1 then RowFailed(EIdatTooShort)
    else if r[n] > PAETH then RowFailed(EFilterByte)
    else InnerRow(RestoredRow(h, order, p, filter, above, r[..n]), r[n], r[n + 1..])
  }

  /** The decoding that the outcome of row p leads to, in plain framing. */
  ghost function Continue(h: Header, order: Order, p: Pos, out: seq<byte>, o: RowOutcome): Decoding
    requires |out| == ImageSize(h) && IsRow(h, p) && OutcomeOf(h, p, o)
  {
    NextIsLeast(h, p);
    match o
    case RowFailed(e) => Failed(e)
    case LastRow(row, rest) => Decoded(PlaceRow(h, out, p, row), rest)
    case InnerRow(row, f, rest) => DecodeFrom(h, order, [f] + rest, NextRow(h, p).pos, row, PlaceRow(h, out, p, row))
  }

  /** Reading each row together with the filter byte of the next one, the last row without, finds the same rows,
      ends at the same place and fails in the same way as reading each filter byte with its own row. */
  lemma ShiftedFraming(h: Header, order: Order, filter: byte, r: seq<byte>, p: Pos, above: seq<byte>, out: seq<byte>)
    requires |out| == ImageSize(h) && IsRow(h, p) && filter <= PAETH && (p.idx > 0 ==> |above| == RowLength(h, p))
    ensures DecodeFrom(h, order, [filter] + r, p, above, out)
         == Continue(h, order, p, out, ShiftedStep(h, order, filter, r, p, above))
  {
    var n := RowLength(h, p);
    if |r| < n {
      FramingShort(h, order, filter, r, p, above, out);
    } else {
      RowAndRest(filter, r, n);
      FramingLong(h, order, filter, r[..n], r[n..], p, above, out);
    }
  }

  /** What is read when the row is there. */
  lemma StepCases(h: Header, order: Order, filter: byte, x: seq<byte>, later: seq<byte>, p: Pos, above: seq<byte>)
    requires IsRow(h, p) && |x| == RowLength(h, p) && (p.idx > 0 ==> |above| == |x|)
    ensures ShiftedStep(h, order, filter, x + later, p, above)
         == (var row := RestoredRow(h, order, p, filter, above, x);
             if NextRow(h, p).End? then LastRow(row, later)
             else if |later| == 0 then RowFailed(EIdatTooShort)
             else if later[0] > PAETH then RowFailed(EFilterByte)
             else InnerRow(row, later[0], later[1..]))
  {
    var r, n := x + later, |x|;
    assert r[..n] == x && r[n..] == later;
    if |later| > 0 { assert r[n] == later[0] && r[n + 1..] == later[1..]; }
  }

  lemma FramingLong(h: Header, order: Order, filter: byte, x: seq<byte>, later: seq<byte>, p: Pos, above: seq<byte>,
                    out: seq<byte>)
    requires |out| == ImageSize(h) && IsRow(h, p) && filter <= PAETH && |x| == RowLength(h, p) &&
             (p.idx > 0 ==> |above| == |x|)
    ensures DecodeFrom(h, order, [filter] + x + later, p, above, out)
         == Continue(h, order, p, out, ShiftedStep(h, order, filter, x + later, p, above))
  {
    StepCases(h, order, filter, x, later, p, above);
    FramingStep(h, order, filter, x, later, p, above, out);
    if |later| > 0 { assert [later[0]] + later[1..] == later; }
  }

  lemma FramingShort(h: Header, order: Order, filter: byte, r: seq<byte>, p: Pos, above: seq<byte>, out: seq<byte>)
    requires |out| == ImageSize(h) && IsRow(h, p) && filter <= PAETH && (p.idx > 0 ==> |above| == RowLength(h, p))
    requires |r| < RowLength(h, p)
    ensures DecodeFrom(h, order, [filter] + r, p, above, out) == Failed(EIdatTooShort)
  {
  }

  /** The step for a row that is there, from what follows it. */
  lemma FramingStep(h: Header, order: Order, filter: byte, x: seq<byte>, later: seq<byte>, p: Pos, above: seq<byte>,
                    out: seq<byte>)
    requires |out| == ImageSize(h) && IsRow(h, p) && filter <= PAETH && |x| == RowLength(h, p) &&
             (p.idx > 0 ==> |above| == |x|)
    ensures var row := RestoredRow(h, order, p, filter, above, x);
            var d := DecodeFrom(h, order, [filter] + x + later, p, above, out);
            if NextRow(h, p).End? then d == Decoded(PlaceRow(h, out, p, row), later)
            else if |later| == 0 then d == Failed(EIdatTooShort)
            else if later[0] > PAETH then d == Failed(EFilterByte)
            else
              IsRow(h, NextRow(h, p).pos) &&
              (NextRow(h, p).pos.idx > 0 ==> RowLength(h, NextRow(h, p).pos) == |x|) &&
              d == DecodeFrom(h, order, later, NextRow(h, p).pos, row, PlaceRow(h, out, p, row))
  {
    NextIsLeast(h, p);
    DecodeStep(h, order, filter, x, later, p, above, out);
    if NextRow(h, p).Row? {
      var row := RestoredRow(h, order, p, filter, above, x);
      InnerFilterByte(h, order, later, NextRow(h, p).pos, row, PlaceRow(h, out, p, row));
    }
  }

  lemma RowAndRest(filter: byte, r: seq<byte>, n: nat)
    requires n <= |r|
    ensures [filter] + r == [filter] + r[..n] + r[n..] && r == r[..n] + r[n..]
  {
  }

  /** What decoding does with the filter byte of a row. */
  lemma InnerFilterByte(h: Header, order: Order, s: seq<byte>, p: Pos, above: seq<byte>, out: seq<byte>)
    requires |out| == ImageSize(h) && IsRow(h, p) && (p.idx > 0 ==> |above| == RowLength(h, p))
    ensures |s| == 0 ==> DecodeFrom(h, order, s, p, above, out) == Failed(EIdatTooShort)
    ensures |s| > 0 && s[0] > PAETH ==> DecodeFrom(h, order, s, p, above, out) == Failed(EFilterByte)
    ensures |s| > 0 ==> s == [s[0]] + s[1..]
  {
  }
}
