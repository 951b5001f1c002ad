/** Moving the pixels of one row between an image and a subimage (kernel/lib/spng.c).
    The image column of column k of the subimage is a parameter here; Adam7.X gives it. */
module Interlace {
  import opened Bytes
  import opened Samples
  import opened Pixels

  /** Where the columns of a subimage w pixels wide lie in a row of `len` bytes. */
  ghost predicate Columns(f: PixelFormat, col: nat -> nat, w: nat, len: nat) {
    forall k :: 0 <= k < w ==> Holds(f, len, col(k))
  }

  /** Different columns of the subimage lie in different columns of the image. */
  ghost predicate Distinct(col: nat -> nat, w: nat) {
    forall j, k :: 0 <= j < k < w ==> col(j) != col(k)
  }

  ghost predicate Wide(f: PixelFormat, w: nat, len: nat) {
    forall k :: 0 <= k < w ==> Holds(f, len, k)
  }

  /** The first k pixels of the subimage row of n bytes that `row` contributes to. */
  ghost function Extract(f: PixelFormat, row: seq<byte>, col: nat -> nat, w: nat, n: nat, k: nat): (r: seq<byte>)
    requires Columns(f, col, w, |row|) && Wide(f, w, n) && k <= w
    ensures |r| == n
  {
    if k == 0 then Zeros(n)
    else PutPixel(f, Extract(f, row, col, w, n, k - 1), k - 1, GetPixel(f, row, col(k - 1)))
  }

  /** `row` with the first k pixels of the subimage row `scan` put in their places. */
  ghost function Deposit(f: PixelFormat, row: seq<byte>, col: nat -> nat, w: nat, scan: seq<byte>,
                         k: nat): (r: seq<byte>)
    requires Columns(f, col, w, |row|) && Wide(f, w, |scan|) && k <= w
    ensures |r| == |row|
  {
    if k == 0 then row
    else PutPixel(f, Deposit(f, row, col, w, scan, k - 1), col(k - 1), GetPixel(f, scan, k - 1))
  }

  lemma ExtractNext(f: PixelFormat, row: seq<byte>, col: nat -> nat, w: nat, n: nat, k: nat)
    requires Columns(f, col, w, |row|) && Wide(f, w, n) && k < w
    ensures Holds(f, n, k) && Holds(f, |row|, col(k))
    ensures Extract(f, row, col, w, n, k + 1) == PutPixel(f, Extract(f, row, col, w, n, k), k, GetPixel(f, row, col(k)))
  {
  }

  lemma DepositNext(f: PixelFormat, row: seq<byte>, col: nat -> nat, w: nat, scan: seq<byte>, k: nat)
    requires Columns(f, col, w, |row|) && Wide(f, w, |scan|) && k < w
    ensures Holds(f, |row|, col(k)) && Holds(f, |scan|, k)
    ensures Deposit(f, row, col, w, scan, k + 1) ==
            PutPixel(f, Deposit(f, row, col, w, scan, k), col(k), GetPixel(f, scan, k))
  {
  }

  /** Copying pixel y of one row to the blank place x of another. */
  lemma CopyPixel(f: PixelFormat, done: seq<byte>, x: nat, row: seq<byte>, y: nat, x': nat, j: nat)
    requires Holds(f, |done|, x) && Holds(f, |done|, x') && Holds(f, |row|, y) && Blank(f, done, x) && j < f.Parts()
    ensures Part(f, PutPixel(f, done, x, GetPixel(f, row, y)), x', j)
         == if x' == x then Part(f, row, y, j) else Part(f, done, x', j)
  {
    PartAfterPut(f, done, x, GetPixel(f, row, y), x', j);
  }

  /** Nothing is there where no pixel was put yet. */
  lemma {:induction false} ExtractBlank(f: PixelFormat, row: seq<byte>, col: nat -> nat, w: nat, n: nat, k: nat, x: nat)
    requires Columns(f, col, w, |row|) && Wide(f, w, n) && k <= x < w
    ensures Holds(f, n, x) && Blank(f, Extract(f, row, col, w, n, k), x)
    decreases k
  {
    hide Part, PutPixel, GetPixel;
    assert Holds(f, n, x);
    if k == 0 {
      ZerosBlank(f, Zeros(n), x);
    } else {
      ExtractBlank(f, row, col, w, n, k - 1, k - 1);
      ExtractBlank(f, row, col, w, n, k - 1, x);
      ExtractNext(f, row, col, w, n, k - 1);
      CopyPixel(f, Extract(f, row, col, w, n, k - 1), k - 1, row, col(k - 1), x, 0);
    }
  }

  /** The extracted row holds the pixels of the pass. */
  lemma {:induction false} ExtractedPart(f: PixelFormat, row: seq<byte>, col: nat -> nat, w: nat, n: nat, k: nat,
                                         x: nat, j: nat)
    requires Columns(f, col, w, |row|) && Wide(f, w, n) && x < k <= w && j < f.Parts()
    ensures Holds(f, n, x) && Holds(f, |row|, col(x))
    ensures Part(f, Extract(f, row, col, w, n, k), x, j) == Part(f, row, col(x), j)
    decreases k
  {
    hide Part, PutPixel, GetPixel;
    ExtractBlank(f, row, col, w, n, k - 1, k - 1);
    if x < k - 1 { ExtractedPart(f, row, col, w, n, k - 1, x, j); }
    ExtractNext(f, row, col, w, n, k - 1);
    CopyPixel(f, Extract(f, row, col, w, n, k - 1), k - 1, row, col(k - 1), x, j);
  }

  /** Depositing over blank places keeps every pixel outside the first k places. */
  lemma {:induction false} DepositKeeps(f: PixelFormat, row: seq<byte>, col: nat -> nat, w: nat, scan: seq<byte>,
                                        k: nat, x: nat, j: nat)
    requires Columns(f, col, w, |row|) && Wide(f, w, |scan|) && Distinct(col, w)
    requires k <= w && Holds(f, |row|, x) && j < f.Parts()
    requires forall i :: 0 <= i < w ==> Blank(f, row, col(i))
    requires forall i :: 0 <= i < k ==> col(i) != x
    ensures Part(f, Deposit(f, row, col, w, scan, k), x, j) == Part(f, row, x, j)
    decreases k
  {
    hide Part, PutPixel, GetPixel;
    if k > 0 {
      var done, at := Deposit(f, row, col, w, scan, k - 1), col(k - 1);
      DepositKeeps(f, row, col, w, scan, k - 1, at, 0);
      DepositKeeps(f, row, col, w, scan, k - 1, x, j);
      DepositNext(f, row, col, w, scan, k - 1);
      CopyPixel(f, done, at, scan, k - 1, x, j);
    }
  }

  /** Depositing over blank places puts every pixel in its place. */
  lemma {:induction false} DepositPuts(f: PixelFormat, row: seq<byte>, col: nat -> nat, w: nat, scan: seq<byte>, k: nat,
                                       x: nat, j: nat)
    requires Columns(f, col, w, |row|) && Wide(f, w, |scan|) && Distinct(col, w) && x < k <= w && j < f.Parts()
    requires forall i :: 0 <= i < w ==> Blank(f, row, col(i))
    ensures Holds(f, |row|, col(x)) && Holds(f, |scan|, x)
    ensures Part(f, Deposit(f, row, col, w, scan, k), col(x), j) == Part(f, scan, x, j)
    decreases k
  {
    hide Part, PutPixel, GetPixel;
    var done, at := Deposit(f, row, col, w, scan, k - 1), col(k - 1);
    DepositKeeps(f, row, col, w, scan, k - 1, at, 0);
    DepositNext(f, row, col, w, scan, k - 1);
    CopyPixel(f, done, at, scan, k - 1, col(x), j);
    if x < k - 1 {
      DepositPuts(f, row, col, w, scan, k - 1, x, j);
    }
  }

  // ---------- the loops ----------

  /** memcpy. */
  method CopyInto(dest: array<byte>, at: nat, src: seq<byte>)
    requires at + |src| <= dest.Length
    modifies dest
    ensures dest[..] == old(dest[..])[..at] + src + old(dest[..])[at + |src|..]
  {
    for i := 0 to |src|
      invariant dest[..at] == old(dest[..at]) && dest[at + i..] == old(dest[at + i..])
      invariant dest[at..at + i] == src[..i]
    {
      dest[at + i] := src[i];
    }
    assert dest[..] == dest[..at] + dest[at..at + |src|] + dest[at + |src|..];
  }

  /** memset to zero. */
  method Clear(a: array<byte>, n: nat)
    requires n <= a.Length
    modifies a
    ensures a[..n] == Zeros(n) && a[n..] == old(a[n..])
  {
    for i := 0 to n
      invariant forall k :: 0 <= k < i ==> a[k] == 0
      invariant a[n..] == old(a[n..])
    {
      a[i] := 0;
    }
  }

  /** `a[at] |= v`. */
  method OrInto(a: array<byte>, at: nat, v: byte)
    requires at < a.Length
    modifies a
    ensures a[..] == old(a[..])[at := OrByte(old(a[..])[at], v)]
  {
    a[at] := OrByte(a[at], v);
  }

  /** The columns of a pass in closed form, as the loops compute them. */
  ghost predicate Strides(col: nat -> nat, start: nat, delta: nat) {
    forall k: nat :: col(k) == start + k * delta
  }

  /** encode_row for packed samples: gather the samples of a pass from the image row at `off`.
      The scanline has room for one byte more than the row. */
  method InterlacePacked(depth: nat, start: nat, delta: nat, w: nat, n: nat, img: seq<byte>, off: nat, len: nat,
                         scanline: array<byte>, ghost col: nat -> nat)
    requires IsPacked(depth) && Strides(col, start, delta) && off + len <= |img| && n + 1 <= scanline.Length
    requires Columns(Packed(depth), col, w, len) && Wide(Packed(depth), w, n)
    modifies scanline
    ensures scanline[..n] == Extract(Packed(depth), img[off..off + len], col, w, n, w)
  {
    ghost var f, row := Packed(depth), img[off..off + len];
    Clear(scanline, n + 1);
    assert scanline[..n] == Zeros(n);
    var at, shift := 0, 8 - depth;
    for k := 0 to w
      invariant scanline[..n] == Extract(f, row, col, w, n, k)
      invariant at == ByteOf(depth, k) && shift == Shift(depth, k)
    {
      GatherSample(depth, k, start + k * delta, at, shift, w, n, img, off, len, scanline, col);
      ShiftNext(depth, k);
      if shift >= depth {
        shift := shift - depth;
      } else {
        shift, at := 8 - depth, at + 1;
      }
    }
  }

  /** One sample of encode_row. */
  method GatherSample(depth: nat, ghost k: nat, x: nat, at: nat, shift: nat, ghost w: nat, ghost n: nat, img: seq<byte>,
                      off: nat,
                      ghost len: nat, scanline: array<byte>, ghost col: nat -> nat)
    requires IsPacked(depth) && off + len <= |img| && n <= scanline.Length
    requires Columns(Packed(depth), col, w, len) && Wide(Packed(depth), w, n)
    requires k < w && x == col(k) && at == ByteOf(depth, k) && shift == Shift(depth, k)
    requires scanline[..n] == Extract(Packed(depth), img[off..off + len], col, w, n, k)
    modifies scanline
    ensures scanline[..n] == Extract(Packed(depth), img[off..off + len], col, w, n, k + 1)
  {
    ghost var f, row, before := Packed(depth), img[off..off + len], scanline[..n];
    assert Holds(f, len, col(k)) && Holds(f, n, k);
    assert row[ByteOf(depth, x)] == img[off + ByteOf(depth, x)];
    ShiftFormula(depth, x);
    var sample := ShiftOut(depth, img[off + ByteOf(depth, x)], 8 - depth - x * depth % 8);
    ShiftLeftFits(depth, sample, k);
    assert Extract(f, row, col, w, n, k + 1) == OrSample(depth, before, k, sample);
    OrInto(scanline, at, ShiftLeft(sample, shift));
  }

  /** encode_row for whole bytes. */
  method InterlaceBytes(size: nat, start: nat, delta: nat, w: nat, img: seq<byte>, off: nat, len: nat,
                        scanline: array<byte>, ghost col: nat -> nat)
    requires size > 0 && Strides(col, start, delta) && off + len <= |img| && Offset(w, size) <= scanline.Length
    requires Columns(Whole(size), col, w, len) && Wide(Whole(size), w, Offset(w, size))
    modifies scanline
    ensures scanline[..Offset(w, size)] == Extract(Whole(size), img[off..off + len], col, w, Offset(w, size), w)
  {
    ghost var f, row := Whole(size), img[off..off + len];
    for k := 0 to w
      invariant Offset(k, size) <= Offset(w, size)
      invariant scanline[..Offset(k, size)] == Extract(f, row, col, w, Offset(w, size), k)[..Offset(k, size)]
    {
      GatherPixel(size, k, start + k * delta, w, img, off, len, scanline, col);
    }
  }

  /** One memcpy of encode_row. */
  method GatherPixel(size: nat, k: nat, x: nat, ghost w: nat, img: seq<byte>, off: nat, ghost len: nat,
                     scanline: array<byte>, ghost col: nat -> nat)
    requires size > 0 && off + len <= |img| && Offset(w, size) <= scanline.Length && k < w && x == col(k)
    requires Columns(Whole(size), col, w, len) && Wide(Whole(size), w, Offset(w, size))
    requires Offset(k, size) <= Offset(w, size)
    requires scanline[..Offset(k, size)]
          == Extract(Whole(size), img[off..off + len], col, w, Offset(w, size), k)[..Offset(k, size)]
    modifies scanline
    ensures Offset(k + 1, size) <= Offset(w, size)
    ensures scanline[..Offset(k + 1, size)]
         == Extract(Whole(size), img[off..off + len], col, w, Offset(w, size), k + 1)[..Offset(k + 1, size)]
  {
    ghost var f, row := Whole(size), img[off..off + len];
    assert Holds(f, len, col(k)) && Holds(f, Offset(w, size), k);
    var pixel := img[off + Offset(x, size)..off + Offset(x, size) + size];
    GetWholeIsSlice(size, row, x);
    assert pixel == row[Offset(x, size)..Offset(x, size) + size];
    ghost var done := Extract(f, row, col, w, Offset(w, size), k);
    PutWholeIsCopy(size, done, k, pixel);
    PrefixGrows(done, Offset(k, size), pixel);
    PrefixGrows(scanline[..], Offset(k, size), pixel);
    CopyInto(scanline, Offset(k, size), pixel);
  }

  lemma PrefixGrows(r: seq<byte>, at: nat, v: seq<byte>)
    requires at + |v| <= |r|
    ensures (r[..at] + v + r[at + |v|..])[..at + |v|] == r[..at] + v
  {
  }

  /** spng_decode_row for packed samples: scatter the samples of a subimage row into the image row at `off`. */
  method DeinterlacePacked(depth: nat, start: nat, delta: nat, w: nat, n: nat, row: array<byte>,
                           out: array<byte>, off: nat, len: nat, ghost col: nat -> nat)
    requires IsPacked(depth) && Strides(col, start, delta) && off + len <= out.Length && n <= row.Length && row != out
    requires Columns(Packed(depth), col, w, len) && Wide(Packed(depth), w, n)
    modifies out
    ensures out[..] == old(out[..off]) + Deposit(Packed(depth), old(out[off..off + len]), col, w, row[..n], w) +
            old(out[off + len..])
  {
    ghost var f := Packed(depth);
    ghost var scan, before, target, after := row[..n], out[..off], out[off..off + len], out[off + len..];
    var iter := new SampleIterator(depth, row);
    for k := 0 to w
      invariant fresh(iter) && iter.Valid() && iter.index == k && iter.samples == row && iter.depth == depth
      invariant row[..n] == scan
      invariant out[..] == before + Deposit(f, target, col, w, scan, k) + after
    {
      assert Holds(f, n, k);
      var sample := iter.GetSample();
      assert sample == SampleAt(depth, scan, k);
      ScatterSample(depth, k, start + k * delta, sample, w, out, off, col, before, target, scan, after);
    }
  }

  /** One sample of spng_decode_row. */
  method ScatterSample(depth: nat, ghost k: nat, x: nat, sample: byte, ghost w: nat, out: array<byte>, off: nat,
                       ghost col: nat -> nat, ghost before: seq<byte>, ghost target: seq<byte>, ghost scan: seq<byte>,
                         ghost after: seq<byte>)
    requires IsPacked(depth) && Columns(Packed(depth), col, w, |target|) && Wide(Packed(depth), w, |scan|)
    requires k < w && x == col(k) && Holds(Packed(depth), |scan|, k) && sample == SampleAt(depth, scan, k) &&
             |before| == off
    requires out[..] == before + Deposit(Packed(depth), target, col, w, scan, k) + after
    modifies out
    ensures out[..] == before + Deposit(Packed(depth), target, col, w, scan, k + 1) + after
  {
    ghost var f := Packed(depth);
    assert Holds(f, |target|, col(k));
    ghost var done := Deposit(f, target, col, w, scan, k);
    ShiftFormula(depth, x);
    ShiftLeftFits(depth, sample, x);
    var shift, at := 8 - depth - x * depth % 8, ByteOf(depth, x);
    assert Deposit(f, target, col, w, scan, k + 1) == OrSample(depth, done, x, sample);
    UpdateInside(before, done, after, at, OrByte(done[at], ShiftLeft(sample, shift)));
    OrInto(out, off + at, ShiftLeft(sample, shift));
  }

  /** spng_decode_row for whole bytes. */
  method DeinterlaceBytes(size: nat, start: nat, delta: nat, w: nat, n: nat, row: array<byte>,
                          out: array<byte>, off: nat, len: nat, ghost col: nat -> nat)
    requires size > 0 && Strides(col, start, delta) && off + len <= out.Length && n <= row.Length && row != out
    requires Columns(Whole(size), col, w, len) && Wide(Whole(size), w, n)
    modifies out
    ensures out[..] == old(out[..off]) + Deposit(Whole(size), old(out[off..off + len]), col, w, row[..n], w) +
            old(out[off + len..])
  {
    ghost var f := Whole(size);
    ghost var scan, before, target, after := row[..n], out[..off], out[off..off + len], out[off + len..];
    assert Deposit(f, target, col, w, scan, 0) == target;
    hide Deposit;
    for k := 0 to w
      invariant row[..n] == scan
      invariant out[..] == before + Deposit(f, target, col, w, scan, k) + after
    {
      ScatterPixel(size, k, start + k * delta, w, row, out, off, col, before, target, scan, after);
    }
  }

  /** One memcpy of spng_decode_row. */
  method ScatterPixel(size: nat, k: nat, x: nat, ghost w: nat, row: array<byte>, out: array<byte>, off: nat,
                      ghost col: nat -> nat,
                      ghost before: seq<byte>, ghost target: seq<byte>, ghost scan: seq<byte>, ghost after: seq<byte>)
    requires size > 0 && Columns(Whole(size), col, w, |target|) && Wide(Whole(size), w, |scan|) && k < w && x == col(k)
    requires row != out && |scan| <= row.Length && row[..|scan|] == scan && |before| == off
    requires out[..] == before + Deposit(Whole(size), target, col, w, scan, k) + after
    modifies out
    ensures out[..] == before + Deposit(Whole(size), target, col, w, scan, k + 1) + after
  {
    hide Deposit;
    assert Holds(Whole(size), |scan|, k);
    var pixel := row[Offset(k, size)..Offset(k, size) + size];
    assert pixel == row[..|scan|][Offset(k, size)..Offset(k, size) + size];
    ScatterStep(size, k, w, col, before, target, scan, after);
    CopyInto(out, off + Offset(x, size), pixel);
  }

  /** A pixel copied to its place is one more pixel deposited. */
  lemma ScatterStep(size: nat, k: nat, w: nat, col: nat -> nat, before: seq<byte>, target: seq<byte>, scan: seq<byte>,
                    after: seq<byte>)
    requires size > 0 && Columns(Whole(size), col, w, |target|) && Wide(Whole(size), w, |scan|) && k < w
    ensures Holds(Whole(size), |target|, col(k)) && Holds(Whole(size), |scan|, k)
    ensures var pixel := scan[Offset(k, size)..Offset(k, size) + size];
            var all, at := before + Deposit(Whole(size), target, col, w, scan, k) + after,
              |before| + Offset(col(k), size);
            all[..at] + pixel + all[at + size..] == before + Deposit(Whole(size), target, col, w, scan, k + 1) + after
  {
    var f, x := Whole(size), col(k);
    assert Holds(f, |target|, x) && Holds(f, |scan|, k);
    var pixel := scan[Offset(k, size)..Offset(k, size) + size];
    hide Part, PutPixel, GetPixel;
    GetWholeIsSlice(size, scan, k);
    DepositNext(f, target, col, w, scan, k);
    SplicePixel(size, Deposit(f, target, col, w, scan, k), x, pixel, before, after);
  }

  lemma SplicePixel(size: nat, done: seq<byte>, x: nat, pixel: seq<byte>, before: seq<byte>, after: seq<byte>)
    requires size > 0 && Holds(Whole(size), |done|, x) && |pixel| == size
    ensures var all, at := before + done + after, |before| + Offset(x, size);
            all[..at] + pixel + all[at + size..] == before + PutPixel(Whole(size), done, x, pixel) + after
  {
    PutWholeIsCopy(size, done, x, pixel);
    SpliceInside(before, done, after, Offset(x, size), pixel);
  }

  lemma UpdateInside(before: seq<byte>, done: seq<byte>, after: seq<byte>, at: nat, v: byte)
    requires at < |done|
    ensures (before + done + after)[|before| + at] == done[at]
    ensures (before + done + after)[|before| + at := v] == before + done[at := v] + after
  {
  }

  lemma SpliceInside(before: seq<byte>, done: seq<byte>, after: seq<byte>, at: nat, v: seq<byte>)
    requires at + |v| <= |done|
    ensures var all, off := before + done + after, |before|;
            all[..off + at] + v + all[off + at + |v|..] == before + (done[..at] + v + done[at + |v|..]) + after
  {
  }
}
