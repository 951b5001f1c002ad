/** The scalar row filters of the PNG codec and their inverses (kernel/lib/spng.c). */
module ScanlineFilter {
  import opened Bytes

  const NONE := 0
  const SUB := 1
  const UP := 2
  const AVERAGE := 3
  const PAETH := 4

  datatype Status = Ok | EInternal | EFilter

  function Abs(x: int): nat {
    if x < 0 then -x else x
  }

  /** The Paeth predictor; every intermediate value fits in `int16_t`. */
  function Paeth(a: byte, b: byte, c: byte): byte {
    var p := a + b - c;
    var pa, pb, pc := Abs(p - a), Abs(p - b), Abs(p - c);
    if pa <= pb && pa <= pc then a
    else if pb <= pc then b
    else c
  }

  /** What the `switch` on the filter type adds to or subtracts from a byte.
      Type 0, and any type above 4, predicts nothing. */
  function Predict(filter: nat, a: byte, b: byte, c: byte): byte {
    if filter == SUB then a
    else if filter == UP then b
    else if filter == AVERAGE then (a + b) / 2
    else if filter == PAETH then Paeth(a, b, c)
    else 0
  }

  /** The byte one pixel to the left of position i; zero in the first pixel. */
  function Left(row: seq<byte>, bpp: nat, i: nat): byte
    requires i <= |row| && 0 < bpp
  {
    if i >= bpp then row[i - bpp] else 0
  }

  /** The prediction for byte i of a row, of which `row[..i]` is already known. */
  function PredictAt(filter: nat, bpp: nat, prev: seq<byte>, row: seq<byte>, i: nat): byte
    requires 0 < bpp && i <= |row| && i < |prev|
  {
    Predict(filter, Left(row, bpp, i), prev[i], Left(prev, bpp, i))
  }

  function FilterRow(filter: nat, bpp: nat, prev: seq<byte>, row: seq<byte>): (r: seq<byte>)
    requires 0 < bpp && |row| <= |prev|
    ensures |r| == |row|
  {
    seq(|row|, i requires 0 <= i < |row| => Minus(row[i], PredictAt(filter, bpp, prev, row, i)))
  }

  /** The row whose filtered form is `x`: each byte needs the bytes restored before it. */
  function DefilterRow(filter: nat, bpp: nat, prev: seq<byte>, x: seq<byte>): (r: seq<byte>)
    requires 0 < bpp && |x| <= |prev|
    ensures |r| == |x|
  {
    if x == [] then []
    else
      var n := |x| - 1;
      var done := DefilterRow(filter, bpp, prev, x[..n]);
      done + [Plus(x[n], PredictAt(filter, bpp, prev, done, n))]
  }

  /** The defining equation of a restored row, byte by byte. */
  ghost predicate Restores(filter: nat, bpp: nat, prev: seq<byte>, x: seq<byte>, row: seq<byte>)
    requires 0 < bpp && |x| <= |prev|
  {
    |row| == |x| &&
    forall i :: 0 <= i < |x| ==> row[i] == Plus(x[i], PredictAt(filter, bpp, prev, row, i))
  }

  lemma {:induction false} DefilterRestores(filter: nat, bpp: nat, prev: seq<byte>, x: seq<byte>)
    requires 0 < bpp && |x| <= |prev|
    ensures Restores(filter, bpp, prev, x, DefilterRow(filter, bpp, prev, x))
  {
    if x != [] {
      var n := |x| - 1;
      DefilterRestores(filter, bpp, prev, x[..n]);
      var done, row := DefilterRow(filter, bpp, prev, x[..n]), DefilterRow(filter, bpp, prev, x);
      forall i | 0 <= i < |x| ensures row[i] == Plus(x[i], PredictAt(filter, bpp, prev, row, i)) {
        assert Left(row, bpp, i) == Left(done, bpp, i);
        if i < n { assert row[i] == done[i] && x[..n][i] == x[i]; }
      }
    }
  }

  /** The distance of p from v is not greater than that from w. */
  ghost predicate AsNear(p: int, v: int, w: int) {
    (p - v <= p - w || p - v <= w - p) && (v - p <= p - w || v - p <= w - p)
  }

  /** No number of the three is nearer to p than v is. */
  ghost predicate Nearest(p: int, v: int, a: int, b: int, c: int) {
    AsNear(p, v, a) && AsNear(p, v, b) && AsNear(p, v, c)
  }

  /** What each filter type adds, modulo 256, to a coded byte: nothing, the byte on the left, the byte above, the
      truncated average of both, and the first of the bytes on the left, above and above on the left that is nearest to
      left + above - above left. Bytes left of the row are zero. */
  lemma AddedByte(filter: nat, bpp: nat, prev: seq<byte>, x: seq<byte>, i: nat)
    requires 0 < bpp && i < |x| <= |prev|
    ensures var row := DefilterRow(filter, bpp, prev, x);
            var a: int := if i >= bpp then row[i - bpp] else 0;
            var b: int := prev[i];
            var c: int := if i >= bpp then prev[i - bpp] else 0;
            var added := (row[i] as int - x[i]) % 256;
            (filter == 0 || filter > 4 ==> added == 0) &&
            (filter == 1 ==> added == a) &&
            (filter == 2 ==> added == b) &&
            (filter == 3 ==> 2 * added <= a + b <= 2 * added + 1) &&
            (filter == 4 ==> Nearest(a + b - c, added, a, b, c) &&
                             (Nearest(a + b - c, a, a, b, c) ==> added == a) &&
                             (!Nearest(a + b - c, a, a, b, c) && Nearest(a + b - c, b, a, b, c) ==> added == b) &&
                             (added == a || added == b || added == c))
  {
    DefilterRestores(filter, bpp, prev, x);
    var row := DefilterRow(filter, bpp, prev, x);
    var a, c := Left(row, bpp, i), Left(prev, bpp, i);
    assert row[i] == Plus(x[i], Predict(filter, a, prev[i], c));
    PlusAdds(x[i], Predict(filter, a, prev[i], c));
    PaethIsFirstNearest(a, prev[i], c);
  }

  lemma PaethIsFirstNearest(a: byte, b: byte, c: byte)
    ensures var p, n := a as int + b - c, Paeth(a, b, c);
            Nearest(p, n, a, b, c) && (n == a || n == b || n == c) &&
            (Nearest(p, a, a, b, c) ==> n == a) &&
            (!Nearest(p, a, a, b, c) && Nearest(p, b, a, b, c) ==> n == b)
  {
  }

  lemma PlusAdds(x: byte, n: byte)
    ensures (Plus(x, n) as int - x) % 256 == n
  {
  }

  /** Only one row satisfies the defining equation. */
  lemma {:induction false} RestoresUnique(filter: nat, bpp: nat, prev: seq<byte>, x: seq<byte>, row: seq<byte>)
    requires 0 < bpp && |x| <= |prev|
    requires Restores(filter, bpp, prev, x, row)
    ensures row == DefilterRow(filter, bpp, prev, x)
  {
    if x != [] {
      var n := |x| - 1;
      forall i | 0 <= i < n ensures row[..n][i] == Plus(x[..n][i], PredictAt(filter, bpp, prev, row[..n], i)) {
        assert row[i] == Plus(x[i], PredictAt(filter, bpp, prev, row, i));
        assert Left(row[..n], bpp, i) == Left(row, bpp, i);
      }
      RestoresUnique(filter, bpp, prev, x[..n], row[..n]);
      assert Left(row[..n], bpp, n) == Left(row, bpp, n);
      assert row == row[..n] + [row[n]];
    }
  }

  /** Restoring the filtered form of a row gives the row back, for every filter type, pixel size and row. */
  lemma DefilterFilter(filter: nat, bpp: nat, prev: seq<byte>, row: seq<byte>)
    requires 0 < bpp && |row| <= |prev|
    ensures DefilterRow(filter, bpp, prev, FilterRow(filter, bpp, prev, row)) == row
  {
    RestoresUnique(filter, bpp, prev, FilterRow(filter, bpp, prev, row), row);
  }

  /** Filtering a restored row gives back what was on the stream. */
  lemma FilterDefilter(filter: nat, bpp: nat, prev: seq<byte>, x: seq<byte>)
    requires 0 < bpp && |x| <= |prev|
    ensures FilterRow(filter, bpp, prev, DefilterRow(filter, bpp, prev, x)) == x
  {
    DefilterRestores(filter, bpp, prev, x);
    var row := DefilterRow(filter, bpp, prev, x);
    assert forall i :: 0 <= i < |x| ==> FilterRow(filter, bpp, prev, row)[i] == x[i];
  }

  /** Types 0 and 1 never look at the previous row, so it need not be cleared for them. */
  lemma {:induction false} PrevUnused(filter: nat, bpp: nat, prev: seq<byte>, prev': seq<byte>, x: seq<byte>)
    requires 0 < bpp && |x| <= |prev| && |x| <= |prev'| && filter <= SUB
    ensures FilterRow(filter, bpp, prev, x) == FilterRow(filter, bpp, prev', x)
    ensures DefilterRow(filter, bpp, prev, x) == DefilterRow(filter, bpp, prev', x)
  {
    assert forall i :: 0 <= i < |x| ==> FilterRow(filter, bpp, prev, x)[i] == FilterRow(filter, bpp, prev', x)[i];
    if x != [] {
      PrevUnused(filter, bpp, prev, prev', x[..|x| - 1]);
    }
  }

  /** Only the first |x| bytes of the previous row matter. */
  lemma {:induction false} PrevPrefix(filter: nat, bpp: nat, prev: seq<byte>, prev': seq<byte>, x: seq<byte>)
    requires 0 < bpp && |x| <= |prev| && |x| <= |prev'| && prev[..|x|] == prev'[..|x|]
    ensures FilterRow(filter, bpp, prev, x) == FilterRow(filter, bpp, prev', x)
    ensures DefilterRow(filter, bpp, prev, x) == DefilterRow(filter, bpp, prev', x)
  {
    assert forall i :: 0 <= i < |x| ==> prev[i] == prev[..|x|][i] == prev'[..|x|][i] == prev'[i];
    assert forall i :: 0 <= i < |x| ==> FilterRow(filter, bpp, prev, x)[i] == FilterRow(filter, bpp, prev', x)[i];
    if x != [] {
      var n := |x| - 1;
      assert prev[..n] == prev[..|x|][..n] == prev'[..n];
      PrevPrefix(filter, bpp, prev, prev', x[..n]);
    }
  }

  /** filter_scanline: `width` counts the filter byte. */
  method FilterScanline(filtered: array<byte>, prev: array<byte>, scanline: array<byte>,
                        width: nat, bpp: nat, filter: nat)
    returns (status: Status)
    requires 0 < bpp && filtered != prev && filtered != scanline
    requires width <= filtered.Length + 1 && width <= prev.Length + 1 && width <= scanline.Length + 1
    modifies filtered
    ensures status == if width <= 1 then EInternal else if filter > PAETH then EFilter else Ok
    ensures status == Ok && filter != NONE ==>
              filtered[..] == FilterRow(filter, bpp, prev[..], scanline[..width - 1]) + old(filtered[width - 1..])
    ensures status != Ok || filter == NONE ==> filtered[..] == old(filtered[..])
  {
    if width <= 1 { return EInternal; }
    if filter > PAETH { return EFilter; }
    if filter == NONE { return Ok; }
    var n := width - 1;
    ghost var row := scanline[..n];
    for i := 0 to n
      invariant forall k :: 0 <= k < i ==> filtered[k] == FilterRow(filter, bpp, prev[..], row)[k]
      invariant forall k :: i <= k < filtered.Length ==> filtered[k] == old(filtered[k])
    {
      var a, b, c := 0, prev[i], 0;
      if i >= bpp {
        a, c := scanline[i - bpp], prev[i - bpp];
      }
      filtered[i] := Minus(scanline[i], Predict(filter, a, b, c));
    }
    return Ok;
  }

  /** The generic loop of defilter_scanline: restores `scanline[..n]` in place. */
  method DefilterGeneric(prev: array<byte>, scanline: array<byte>, n: nat, bpp: nat, filter: nat)
    requires 0 < bpp && prev != scanline && n <= prev.Length && n <= scanline.Length
    modifies scanline
    ensures scanline[..] == DefilterRow(filter, bpp, prev[..], old(scanline[..n])) + old(scanline[n..])
  {
    ghost var x := scanline[..n];
    ghost var p := prev[..];
    for i := 0 to n
      invariant scanline[..i] == DefilterRow(filter, bpp, p, x[..i])
      invariant scanline[i..] == old(scanline[i..])
      invariant prev[..] == p
    {
      var a, b, c := 0, prev[i], 0;
      if i >= bpp {
        a, c := scanline[i - bpp], prev[i - bpp];
      }
      ghost var done := scanline[..i];
      assert scanline[i] == old(scanline[i..])[0] == x[i];
      assert PredictAt(filter, bpp, p, done, i) == Predict(filter, a, b, c);
      assert x[..i + 1][..i] == x[..i];
      scanline[i] := Plus(scanline[i], Predict(filter, a, b, c));
      assert scanline[..i + 1] == done + [scanline[i]];
      assert old(scanline[i..])[1..] == old(scanline[i + 1..]);
    }
    assert x[..n] == x;
  }
}
