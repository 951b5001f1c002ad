/** The length of the stream of an image, from its dimensions alone (kernel/lib/spng.c). */
module StreamSize {
  import opened Bytes
  import opened FilterChoice
  import opened ImageHeader
  import opened ImageStream
  import opened RowOrder
  import opened ScanlineFilter
  import Adam7

  /** The bytes of `rows` rows of w pixels of `bits` bits, each row after a filter byte; nothing if there are no
      pixels. */
  function PassBytes(bits: nat, w: nat, rows: nat): nat {
    if w == 0 then 0 else rows * (1 + (bits * w + 7) / 8)
  }

  /** The bytes of all rows of an image: one pass, or the seven passes of Adam7. */
  function ImageBytes(bits: nat, width: nat, height: nat, interlaced: bool): nat {
    if !interlaced then PassBytes(bits, width, height)
    else
      PassBytes(bits, (width + 7) / 8, (height + 7) / 8) + PassBytes(bits, (width + 3) / 8, (height + 7) / 8) +
      PassBytes(bits, (width + 3) / 4, (height + 3) / 8) + PassBytes(bits, (width + 1) / 4, (height + 3) / 4) +
      PassBytes(bits, (width + 1) / 2, (height + 1) / 4) + PassBytes(bits, width / 2, (height + 1) / 2) +
      PassBytes(bits, width, height / 2)
  }

  /** A stream of n bytes has the length for the header. */
  predicate HasSize(h: Ihdr, n: nat) {
    (h.colorType == 0 || h.colorType == 3 ==> n == ImageBytes(h.bitDepth, h.width, h.height, h.interlaced)) &&
    (h.colorType == 2 ==> n == ImageBytes(3 * h.bitDepth, h.width, h.height, h.interlaced)) &&
    (h.colorType == 4 ==> n == ImageBytes(2 * h.bitDepth, h.width, h.height, h.interlaced)) &&
    (h.colorType == 6 ==> n == ImageBytes(4 * h.bitDepth, h.width, h.height, h.interlaced))
  }

  /** The bytes of the passes from `pass` on. */
  function PassesFrom(h: Ihdr, pass: nat): nat
    requires pass <= 7
    decreases 7 - pass
  {
    if pass == 7 then 0
    else PassBytes(Bits(h, 1), h.SubWidth(pass), h.SubHeight(pass)) + PassesFrom(h, pass + 1)
  }

  /** The bytes of the rows from row p on. */
  function RowsLeft(h: Ihdr, p: Pos): nat
    requires IsRow(h, p)
  {
    PassBytes(Bits(h, 1), h.SubWidth(p.pass), h.SubHeight(p.pass) - p.idx) + PassesFrom(h, p.pass + 1)
  }

  lemma {:induction false} EmptyPassesSkipped(h: Ihdr, pass: nat)
    requires pass <= 7
    ensures PassesFrom(h, pass) == PassesFrom(h, PassFrom(h, pass))
    decreases 7 - pass
  {
    if pass < 7 && !NonEmpty(h, pass) {
      EmptyPassesSkipped(h, pass + 1);
    }
  }

  /** One row less. */
  lemma RowTaken(bits: nat, w: nat, rows: nat)
    requires w > 0 && rows > 0
    ensures PassBytes(bits, w, rows) == 1 + (bits * w + 7) / 8 + PassBytes(bits, w, rows - 1)
    ensures rows == 1 ==> PassBytes(bits, w, rows - 1) == 0
  {
    var n := 1 + (bits * w + 7) / 8;
    assert rows * n == n + (rows - 1) * n;
  }

  lemma RowLengthIs(h: Header, p: Pos)
    requires IsRow(h, p)
    ensures RowLength(h, p) == (Bits(h, 1) * h.SubWidth(p.pass) + 7) / 8
  {
  }

  lemma RowsLeftStep(h: Header, p: Pos)
    requires IsRow(h, p)
    ensures NextRow(h, p).Row? ==> IsRow(h, NextRow(h, p).pos)
    ensures RowsLeft(h, p)
         == 1 + RowLength(h, p) + if NextRow(h, p).Row? then RowsLeft(h, NextRow(h, p).pos) else 0
  {
    hide PassBytes, RowLength, Bits, Ihdr.SubWidth, Ihdr.SubHeight, PassesFrom;
    NextIsLeast(h, p);
    RowLengthIs(h, p);
    RowTaken(Bits(h, 1), h.SubWidth(p.pass), h.SubHeight(p.pass) - p.idx);
    if p.idx + 1 < h.SubHeight(p.pass) {
    } else {
      PassTaken(h, p.pass + 1);
    }
  }

  /** The bytes of the passes from `pass` on are those of the rows from the next row on. */
  lemma PassTaken(h: Header, pass: nat)
    requires pass <= 7
    ensures var q := PassFrom(h, pass);
            PassesFrom(h, pass) == if q == 7 then 0 else RowsLeft(h, Pos(q, 0))
  {
    hide PassBytes, Bits;
    EmptyPassesSkipped(h, pass);
  }

  /** Encoding from row p on writes the bytes of the rows left. */
  lemma {:induction false} EncodedSize(h: Header, order: Order, choices: Choices, img: seq<byte>, p: Pos)
    requires |img| == ImageSize(h) && IsRow(h, p)
    ensures |EncodeFrom(h, order, choices, img, p)| == RowsLeft(h, p)
    decreases 7 - p.pass, h.SubHeight(p.pass) - p.idx
  {
    hide RowsLeft, RowLength, ImageSize;
    NextIsLeast(h, p);
    RowsLeftStep(h, p);
    if NextRow(h, p).Row? {
      EncodedSize(h, order, choices, img, NextRow(h, p).pos);
    }
  }

  /** A successful decoding from row p on takes the bytes of the rows left. */
  lemma {:induction false} DecodedSize(h: Header, order: Order, s: seq<byte>, p: Pos, above: seq<byte>, out: seq<byte>)
    requires |out| == ImageSize(h) && IsRow(h, p) && (p.idx > 0 ==> |above| == RowLength(h, p))
    ensures var d := DecodeFrom(h, order, s, p, above, out);
            d.Decoded? ==> RowsLeft(h, p) <= |s| && d.rest == s[RowsLeft(h, p)..]
    decreases 7 - p.pass, h.SubHeight(p.pass) - p.idx
  {
    hide RowsLeft, ImageSize, RestoredRow, PlaceRow, RowLength, LineNumber, NextRow;
    NextIsLeast(h, p);
    RowsLeftStep(h, p);
    var n := RowLength(h, p);
    if |s| > n && s[0] <= 4 {
      assert [s[0]] + s[1..1 + n] + s[1 + n..] == s;
      DecodeStep(h, order, s[0], s[1..1 + n], s[1 + n..], p, above, out);
      if NextRow(h, p).Row? {
        var row := RestoredRow(h, order, p, s[0], above, s[1..1 + n]);
        DecodedSize(h, order, s[1 + n..], NextRow(h, p).pos, row, PlaceRow(h, out, p, row));
      }
    }
  }

  /** The seven passes, with the subimage sizes written out. */
  lemma SevenPasses(h: Ihdr)
    requires h.interlaced
    ensures PassesFrom(h, 0) == ImageBytes(Bits(h, 1), h.width, h.height, true)
  {
    hide PassBytes;
    SixPasses(h);
    assert PassesFrom(h, 0) == PassBytes(Bits(h, 1), h.SubWidth(0), h.SubHeight(0)) + PassesFrom(h, 1);
  }

  lemma SixPasses(h: Ihdr)
    requires h.interlaced
    ensures PassesFrom(h, 1)
         == PassBytes(Bits(h, 1), (h.width + 3) / 8, (h.height + 7) / 8) +
            PassBytes(Bits(h, 1), (h.width + 3) / 4, (h.height + 3) / 8) +
            PassBytes(Bits(h, 1), (h.width + 1) / 4, (h.height + 3) / 4) +
            PassBytes(Bits(h, 1), (h.width + 1) / 2, (h.height + 1) / 4) +
            PassBytes(Bits(h, 1), h.width / 2, (h.height + 1) / 2) +
            PassBytes(Bits(h, 1), h.width, h.height / 2)
  {
    hide PassBytes;
    assert PassesFrom(h, 7) == 0;
    assert PassesFrom(h, 6) == PassBytes(Bits(h, 1), h.width, h.height / 2);
    assert PassesFrom(h, 5) == PassBytes(Bits(h, 1), h.width / 2, (h.height + 1) / 2) + PassesFrom(h, 6);
    assert PassesFrom(h, 4) == PassBytes(Bits(h, 1), (h.width + 1) / 2, (h.height + 1) / 4) + PassesFrom(h, 5);
    assert PassesFrom(h, 3) == PassBytes(Bits(h, 1), (h.width + 1) / 4, (h.height + 3) / 4) + PassesFrom(h, 4);
    assert PassesFrom(h, 2) == PassBytes(Bits(h, 1), (h.width + 3) / 4, (h.height + 3) / 8) + PassesFrom(h, 3);
  }

  lemma OnePass(h: Ihdr)
    requires !h.interlaced
    ensures PassesFrom(h, 0) == ImageBytes(Bits(h, 1), h.width, h.height, false)
  {
    hide Bits;
    assert PassesFrom(h, 7) == PassesFrom(h, 6) == PassesFrom(h, 5) == PassesFrom(h, 4) == 0;
    assert PassesFrom(h, 1) == PassesFrom(h, 2) == PassesFrom(h, 3) == 0;
  }

  lemma SampleBits(h: Header)
    ensures Bits(h, 1) == if h.colorType == 2 then 3 * h.bitDepth else if h.colorType == 4 then 2 * h.bitDepth
                          else if h.colorType == 6 then 4 * h.bitDepth else h.bitDepth
  {
  }

  lemma RowsOfImage(h: Header)
    ensures IsRow(h, FIRST) && HasSize(h, RowsLeft(h, FIRST))
  {
    hide PassBytes, ImageBytes, Bits;
    FirstIsRow(h);
    SampleBits(h);
    assert RowsLeft(h, FIRST) == PassesFrom(h, 0);
    if h.interlaced { SevenPasses(h); } else { OnePass(h); }
  }

  /** The stream of an image has the length that its dimensions give. */
  lemma EncodedHasSize(h: Header, order: Order, choices: Choices, img: seq<byte>)
    requires |img| == ImageSize(h)
    ensures HasSize(h, |Encode(h, order, choices, img)|)
  {
    RowsOfImage(h);
    EncodedSize(h, order, choices, img, FIRST);
  }

  /** A successful decoding takes that many bytes from the front of the stream. */
  lemma DecodedHasSize(h: Header, order: Order, s: seq<byte>, out: seq<byte>)
    requires |out| == ImageSize(h)
    ensures var d := Decode(h, order, s, out);
            d.Decoded? ==> |d.rest| <= |s| && HasSize(h, |s| - |d.rest|) && d.rest == s[|s| - |d.rest|..]
  {
    RowsOfImage(h);
    DecodedSize(h, order, s, FIRST, [], out);
  }

  /** The bytes between a byte and its left neighbour. */
  predicate HasDistance(h: Ihdr, d: nat) {
    d > 0 &&
    (h.colorType == 2 ==> 8 * d == 3 * h.bitDepth) && (h.colorType == 4 ==> 8 * d == 2 * h.bitDepth) &&
    (h.colorType == 6 ==> 8 * d == 4 * h.bitDepth) &&
    (h.colorType == 0 || h.colorType == 3 ==> if h.bitDepth < 8 then d == 1 else 8 * d == h.bitDepth)
  }

  /** Each row is coded as its filter type and the filtered bytes, and restored, with the left neighbour at the distance
      of the header. */
  lemma CodedRow(h: Header, order: Order, choices: Choices, img: seq<byte>, p: Pos, d: nat)
    requires |img| == ImageSize(h) && IsRow(h, p) && HasDistance(h, d)
    ensures var e := EncodedRow(h, order, choices, img, p);
            e != [] && e[0] <= 4 &&
            e[1..] == FilterRow(e[0], d, RowAbove(h, order, img, p), StreamRow(h, order, img, p))
    ensures forall f: byte, above, x :: |x| == |above| == RowLength(h, p) && (p.idx == 0 ==> above == Zeros(|x|)) ==>
              RestoredRow(h, order, p, f, above, x) == DefilterRow(f, d, above, Convert(h, order, x))
  {
    hide HasDistance, RowAbove, StreamRow, FilterRow, DefilterRow, RowLength, IsRow, BestFilter, Ihdr.PixelBytes;
    DistanceIs(h, d);
    ChosenIsLegal(choices, d, RowAbove(h, order, img, p), StreamRow(h, order, img, p));
  }

  lemma DistanceIs(h: Header, d: nat)
    requires HasDistance(h, d)
    ensures d == h.PixelBytes() > 0
  {
    PixelSizes(h);
  }
}
