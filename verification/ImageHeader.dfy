/** The image header and the sizes derived from it (kernel/lib/spng.c). */
module ImageHeader {
  import opened Samples
  import opened Pixels
  import opened Interlace
  import Adam7

  const UINT32_MAX := 0xFFFF_FFFF
  const MAX_DIMENSION := 0x7FFF_FFFF

  /** num_channels. */
  function Channels(colorType: nat): nat {
    if colorType == 2 then 3
    else if colorType == 4 then 2
    else if colorType == 6 then 4
    else if colorType == 0 || colorType == 3 then 1
    else 0
  }

  datatype Ihdr = Ihdr(width: nat, height: nat, bitDepth: nat, colorType: nat, interlaced: bool) {

    /** check_ihdr. */
    predicate Valid() {
      1 <= width <= MAX_DIMENSION && 1 <= height <= MAX_DIMENSION &&
      if colorType == 0 then bitDepth in {1, 2, 4, 8, 16}
      else if colorType == 3 then bitDepth in {1, 2, 4, 8}
      else colorType in {2, 4, 6} && bitDepth in {8, 16}
    }

    predicate SubByte() {
      bitDepth < 8
    }

    /** bytes_per_pixel: the distance between neighbouring bytes for the filters, and the pixel size. */
    function PixelBytes(): nat {
      if SubByte() then 1 else Channels(colorType) * (bitDepth / 8)
    }

    /** calculate_scanline_width, less the filter byte. */
    function RowBytes(w: nat): nat {
      (Channels(colorType) * bitDepth * w + 15) / 8 - 1
    }

    function SubWidth(pass: nat): nat {
      if interlaced then Adam7.SubWidth(pass, width) else if pass == 0 then width else 0
    }

    function SubHeight(pass: nat): nat {
      if interlaced then Adam7.SubHeight(pass, height) else if pass == 0 then height else 0
    }

    /** image_width for the formats PNG and RAW. */
    function ImageWidth(): nat {
      RowBytes(width)
    }

    /** The row of the image that row idx of a subimage belongs to. */
    function ImageRow(pass: nat, idx: nat): nat {
      if interlaced then Adam7.Y(pass, idx) else idx
    }

    /** Rows of the whole image width that are moved without interlacing. */
    predicate WholeRow(pass: nat) {
      !interlaced || pass == 6
    }
  }

  type Header = h: Ihdr | h.Valid() witness Ihdr(1, 1, 8, 0, false)

  lemma PixelBytesPositive(h: Ihdr)
    requires h.Valid()
    ensures h.PixelBytes() in {1, 2, 3, 4, 6, 8}
    ensures h.SubByte() <==> IsPacked(h.bitDepth)
    ensures h.SubByte() ==> Channels(h.colorType) == 1
    ensures h.bitDepth == 16 ==> h.PixelBytes() % 2 == 0
  {
    assert 8 / 8 == 1 && 16 / 8 == 2;
  }

  /** The bytes of a row of w pixels without its filter byte: whole bytes for the types with several samples a pixel,
      and the least number of bytes that hold the bits of the row for grayscale and palette. */
  lemma RowSizes(h: Ihdr, w: nat)
    requires h.Valid()
    ensures h.colorType == 2 ==> h.RowBytes(w) == w * 3 * h.bitDepth / 8
    ensures h.colorType == 4 ==> h.RowBytes(w) == w * 2 * h.bitDepth / 8
    ensures h.colorType == 6 ==> h.RowBytes(w) == w * 4 * h.bitDepth / 8
    ensures h.colorType in {0, 3} ==> 8 * (h.RowBytes(w) - 1) < h.bitDepth * w <= 8 * h.RowBytes(w)
  {
    if h.colorType == 2 { WholeSamples(3, h.bitDepth, w); }
    else if h.colorType == 4 { WholeSamples(2, h.bitDepth, w); }
    else if h.colorType == 6 { WholeSamples(4, h.bitDepth, w); }
  }

  lemma WholeSamples(c: nat, depth: nat, w: nat)
    requires depth == 8 || depth == 16
    ensures w * c * depth / 8 == (c * depth * w + 15) / 8 - 1
  {
    var n := w * c;
    assert c * depth * w == n * depth;
  }

  /** The distance between neighbouring bytes for the filters: the bytes of a pixel, and one for packed pixels. */
  lemma PixelSizes(h: Ihdr)
    requires h.Valid()
    ensures h.colorType == 2 ==> h.PixelBytes() == if h.bitDepth == 16 then 6 else 3
    ensures h.colorType == 4 ==> h.PixelBytes() == if h.bitDepth == 16 then 4 else 2
    ensures h.colorType == 6 ==> h.PixelBytes() == if h.bitDepth == 16 then 8 else 4
    ensures h.colorType in {0, 3} ==> h.PixelBytes() == if h.bitDepth == 16 then 2 else 1
  {
    assert 8 / 8 == 1 && 16 / 8 == 2;
  }

  function FormatOf(h: Header): PixelFormat {
    PixelBytesPositive(h);
    if h.SubByte() then Packed(h.bitDepth) else Whole(h.PixelBytes())
  }

  /** Rows of byte-sized samples hold whole pixels and nothing else. */
  lemma WholePixels(h: Ihdr, w: nat)
    requires h.Valid() && !h.SubByte()
    ensures h.RowBytes(w) == Offset(w, h.PixelBytes())
    ensures h.RowBytes(w) % h.PixelBytes() == 0
    ensures h.PixelBytes() % 2 == 0 ==> h.RowBytes(w) % 2 == 0
  {
    PixelBytesPositive(h);
    var pb := h.PixelBytes();
    assert Channels(h.colorType) * h.bitDepth == 8 * pb;
    EightTimes(pb, w);
    Multiple(w, pb);
    OffsetIsProduct(w, pb);
  }

  lemma EightTimes(pb: nat, w: nat)
    ensures (8 * pb * w + 15) / 8 - 1 == w * pb
  {
    assert 8 * pb * w == 8 * (w * pb);
  }

  lemma Multiple(q: nat, m: nat)
    requires m in {1, 2, 3, 4, 6, 8}
    ensures q * m % m == 0 && (m % 2 == 0 ==> q * m % 2 == 0)
  {
    if m == 1 { assert q * m == q; }
    else if m == 2 { assert q * m == q * 2; Adam7.By2(q, 0); }
    else if m == 3 { assert q * m == q * 3; By3(q); }
    else if m == 4 { assert q * m == q * 4; Adam7.By4(q, 0); Adam7.By2(2 * q, 0); }
    else if m == 6 { assert q * m == q * 6; By6(q); Adam7.By2(3 * q, 0); }
    else { assert q * m == q * 8; Adam7.By8(q, 0); Adam7.By2(4 * q, 0); }
  }

  lemma By3(q: nat)
    ensures q * 3 % 3 == 0
  {
  }

  lemma By6(q: nat)
    ensures q * 6 % 6 == 0
  {
  }

  /** Every sample of a packed row lies in one of its bytes. */
  lemma PackedFits(h: Ihdr, w: nat, x: nat)
    requires h.Valid() && h.SubByte() && x < w
    ensures IsPacked(h.bitDepth) && ByteOf(h.bitDepth, x) < h.RowBytes(w)
  {
    PixelBytesPositive(h);
    ByteAndSlot(h.bitDepth, x);
    if h.bitDepth == 1 {} else if h.bitDepth == 2 {} else {}
  }

  /** A row for w pixels holds w pixels. */
  lemma RowIsWide(h: Header, w: nat)
    ensures Wide(FormatOf(h), w, h.RowBytes(w))
  {
    forall x | 0 <= x < w ensures Holds(FormatOf(h), h.RowBytes(w), x) {
      PixelBytesPositive(h);
      if h.SubByte() {
        PackedFits(h, w, x);
      } else {
        WholePixels(h, w);
        Apart(x, w, h.PixelBytes());
      }
    }
  }

  /** The image columns of a pass. */
  function PassColumns(pass: nat): (col: nat -> nat)
    ensures Strides(col, Adam7.XStart(pass), Adam7.XDelta(pass))
  {
    (k: nat) => Adam7.X(pass, k)
  }

  /** The columns of a pass lie inside the image, each at its own place. */
  lemma PassColumnsFit(h: Header, pass: nat)
    requires h.interlaced && pass < 7
    ensures Columns(FormatOf(h), PassColumns(pass), h.SubWidth(pass), h.ImageWidth())
    ensures Distinct(PassColumns(pass), h.SubWidth(pass))
  {
    var col, w := PassColumns(pass), h.SubWidth(pass);
    RowIsWide(h, h.width);
    forall k | 0 <= k < w ensures Holds(FormatOf(h), h.ImageWidth(), col(k)) {
      Adam7.SubWidthCounts(pass, h.width, k);
    }
    forall j, k | 0 <= j < k < w ensures col(j) != col(k) {
      Adam7.PlaceHasPass(pass, j, 0);
      Adam7.PlaceHasPass(pass, k, 0);
    }
  }

  /** No row of a subimage is longer than a row of the image. */
  lemma RowBytesMonotone(h: Ihdr, w: nat, w': nat)
    requires w <= w'
    ensures h.RowBytes(w) <= h.RowBytes(w')
  {
    var c := Channels(h.colorType) * h.bitDepth;
    assert c * w <= c * w' by {
      assert c * w' == c * w + c * (w' - w);
    }
  }

  datatype Subimage = Subimage(width: nat, height: nat, scanlineWidth: nat)

  /** What the layout holds for a pass: a pass without pixels gets no scanline width. */
  function SubimageOf(h: Ihdr, pass: nat): Subimage {
    Subimage(h.SubWidth(pass), h.SubHeight(pass), if NonEmpty(h, pass) then h.RowBytes(h.SubWidth(pass)) + 1 else 0)
  }

  datatype Layout = Layout(sub: seq<Subimage>, widestPass: nat, lastPass: nat) | EOverflow

  /** The pass has at least one row. */
  predicate NonEmpty(h: Ihdr, pass: nat) {
    h.SubWidth(pass) > 0 && h.SubHeight(pass) > 0
  }

  /** The sizes of all passes, a pass with pixels that has the widest scanline, and the last pass with pixels. */
  ghost predicate IsLayoutOf(h: Ihdr, layout: Layout) {
    layout.Layout? && |layout.sub| == 7 &&
    (forall p :: 0 <= p < 7 ==> layout.sub[p] == SubimageOf(h, p)) &&
    layout.widestPass < 7 && NonEmpty(h, layout.widestPass) &&
    (forall p :: 0 <= p < 7 ==> SubimageOf(h, p).scanlineWidth <= SubimageOf(h, layout.widestPass).scanlineWidth) &&
    IsLastPass(h, layout.lastPass)
  }

  ghost predicate IsLastPass(h: Ihdr, last: nat) {
    last < 7 && NonEmpty(h, last) && forall p :: last < p < 7 ==> !NonEmpty(h, p)
  }

  // ---------- the width of a scanline ----------

  const SIZE_MAX := 0xFFFF_FFFF_FFFF_FFFF

  datatype Width = Width(n: nat) | TooWide | NoWidth

  /** The bits of w pixels. */
  function Bits(h: Ihdr, w: nat): nat {
    Channels(h.colorType) * h.bitDepth * w
  }

  /** calculate_scanline_width: the filter byte and the least number of bytes that hold the bits of the row, unless that
      does not fit `uint32_t`. */
  function ScanlineWidth(h: Ihdr, w: nat): (r: Width)
    ensures r == NoWidth <==> w == 0
    ensures r == TooWide <==> w > 0 && Bits(h, w) > 8 * 0xFFFF_FFFE
    ensures r.Width? ==> 8 * (r.n - 2) < Bits(h, w) <= 8 * (r.n - 1)
  {
    if w == 0 then NoWidth
    else
      var depth := Channels(h.colorType) * h.bitDepth;
      FitsProduct(depth, w, SIZE_MAX);
      if depth > SIZE_MAX / w || depth * w + 15 > SIZE_MAX then TooWide
      else
        var n := (depth * w + 15) / 8;
        if n > UINT32_MAX then TooWide else Width(n)
  }

  /** The test before a multiplication that must not overflow. */
  lemma FitsProduct(a: nat, b: nat, max: nat)
    requires b > 0
    ensures a > max / b <==> a * b > max
  {
    var q := max / b;
    assert max == q * b + max % b;
    if a > q {
      Product(q + 1, a, b);
      assert (q + 1) * b == q * b + b;
    } else {
      Product(a, q, b);
    }
  }

  lemma Product(a: nat, a': nat, b: nat)
    requires a <= a'
    ensures a * b <= a' * b
  {
    assert a' * b == a * b + (a' - a) * b;
  }

  lemma ScanlineWidthIs(h: Ihdr, w: nat)
    ensures var r := ScanlineWidth(h, w);
            (r.Width? ==> r.n == h.RowBytes(w) + 1) && (r == TooWide ==> h.RowBytes(w) + 1 > UINT32_MAX)
  {
    var b := Bits(h, w);
    assert h.RowBytes(w) == (b + 15) / 8 - 1;
  }

  // ---------- the layout of all passes ----------

  /** The layout when the passes before i have been looked at. */
  ghost predicate SizedUpTo(h: Ihdr, sub: seq<Subimage>, widest: nat, last: nat, i: nat) {
    |sub| == 7 && widest < 7 && last < 7 && i <= 7 &&
    (forall p :: 0 <= p < i ==> sub[p] == SubimageOf(h, p) && SubimageOf(h, p).scanlineWidth <= UINT32_MAX) &&
    (forall p :: i <= p < 7 ==> sub[p] == Subimage(h.SubWidth(p), h.SubHeight(p), 0)) &&
    (forall p :: 0 <= p < i ==> sub[p].scanlineWidth <= sub[widest].scanlineWidth) &&
    NonEmpty(h, widest) && (widest == 0 || widest < i) &&
    NonEmpty(h, last) && (last == 0 || last < i) && forall p :: last < p < i ==> !NonEmpty(h, p)
  }

  /** A pass without pixels changes nothing. */
  lemma SizedEmpty(h: Ihdr, sub: seq<Subimage>, widest: nat, last: nat, i: nat)
    requires SizedUpTo(h, sub, widest, last, i) && i < 7 && !NonEmpty(h, i)
    ensures SizedUpTo(h, sub, widest, last, i + 1)
  {
    assert SubimageOf(h, i) == sub[i];
  }

  /** A pass with pixels is the last so far, and the widest if it is wider than the widest so far. */
  lemma SizedNext(h: Ihdr, sub: seq<Subimage>, widest: nat, last: nat, i: nat, n: nat)
    requires SizedUpTo(h, sub, widest, last, i) && i < 7 && NonEmpty(h, i)
    requires n == SubimageOf(h, i).scanlineWidth <= UINT32_MAX
    ensures var sub' := sub[i := sub[i].(scanlineWidth := n)];
            SizedUpTo(h, sub', if sub'[widest].scanlineWidth < n then i else widest, i, i + 1)
  {
    var sub' := sub[i := sub[i].(scanlineWidth := n)];
    assert SubimageOf(h, i) == sub'[i];
  }

  /** calculate_subimages: sizes, the pass with the widest scanline and the last pass with pixels.
      Fails exactly when the scanline of some non-empty pass does not fit `uint32_t`. */
  method CalculateSubimages(h: Ihdr) returns (layout: Layout)
    requires h.Valid()
    ensures layout.EOverflow? <==> exists p :: 0 <= p < 7 && SubimageOf(h, p).scanlineWidth > 0xFFFF_FFFF
    ensures layout.Layout? ==> IsLayoutOf(h, layout)
  {
    var sub := seq(7, p requires 0 <= p < 7 => Subimage(h.SubWidth(p), h.SubHeight(p), 0));
    FirstPassNonEmpty(h);
    var widest, last := 0, 0;
    for i := 0 to 7
      invariant SizedUpTo(h, sub, widest, last, i)
    {
      if sub[i].width == 0 || sub[i].height == 0 {
        SizedEmpty(h, sub, widest, last, i);
        continue;
      }
      var r := ScanlineWidth(h, sub[i].width);
      ScanlineWidthIs(h, sub[i].width);
      if r.TooWide? {
        assert SubimageOf(h, i).scanlineWidth > UINT32_MAX;
        return EOverflow;
      }
      SizedNext(h, sub, widest, last, i, r.n);
      sub := sub[i := sub[i].(scanlineWidth := r.n)];
      if sub[widest].scanlineWidth < sub[i].scanlineWidth { widest := i; }
      last := i;
    }
    return Layout(sub, widest, last);
  }

  lemma FirstPassNonEmpty(h: Ihdr)
    requires h.Valid()
    ensures NonEmpty(h, 0)
  {
  }
}
