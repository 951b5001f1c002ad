/** Pixels of a row: a packed sample, or a group of whole bytes. */
module Pixels {
  import opened Bytes
  import opened Samples

  /** How pixels lie in a row: samples of `depth` bits packed into bytes, or `size` bytes each. */
  datatype Format = Packed(depth: nat) | Whole(size: nat) {
    predicate Valid() {
      if Packed? then IsPacked(depth) else size > 0
    }

    /** The number of values that make up a pixel. */
    function Parts(): nat {
      if Packed? then 1 else size
    }
  }

  type PixelFormat = f: Format | f.Valid() witness Whole(1)

  /** The first byte of pixel x. */
  function Offset(x: nat, size: nat): nat {
    if x == 0 then 0 else Offset(x - 1, size) + size
  }

  lemma {:induction false} OffsetIsProduct(x: nat, size: nat)
    ensures Offset(x, size) == x * size
  {
    if x > 0 {
      OffsetIsProduct(x - 1, size);
    }
  }

  lemma {:induction false} Apart(x: nat, x': nat, size: nat)
    requires x < x'
    ensures Offset(x, size) + size <= Offset(x', size)
  {
    if x + 1 < x' {
      Apart(x, x' - 1, size);
    }
  }

  /** A row of `len` bytes is long enough to hold column x. */
  predicate Holds(f: PixelFormat, len: nat, x: nat) {
    if f.Packed? then ByteOf(f.depth, x) < len else Offset(x, f.size) + f.size <= len
  }

  /** Part j of the pixel at column x. */
  function Part(f: PixelFormat, row: seq<byte>, x: nat, j: nat): byte
    requires Holds(f, |row|, x) && j < f.Parts()
  {
    if f.Packed? then SampleAt(f.depth, row, x) else row[Offset(x, f.size) + j]
  }

  /** The values that can be put at a pixel. */
  predicate IsPixel(f: PixelFormat, v: seq<byte>) {
    |v| == f.Parts() && (f.Packed? ==> v[0] < Range(f.depth))
  }

  function GetPixel(f: PixelFormat, row: seq<byte>, x: nat): (v: seq<byte>)
    requires Holds(f, |row|, x)
    ensures IsPixel(f, v) && forall j :: 0 <= j < |v| ==> v[j] == Part(f, row, x, j)
  {
    seq(f.Parts(), j requires 0 <= j < f.Parts() => Part(f, row, x, j))
  }

  /** Packed samples are or-ed in, whole bytes are copied. */
  function PutPixel(f: PixelFormat, row: seq<byte>, x: nat, v: seq<byte>): (r: seq<byte>)
    requires Holds(f, |row|, x) && IsPixel(f, v)
    ensures |r| == |row|
  {
    if f.Packed? then OrSample(f.depth, row, x, v[0])
    else
      var at := Offset(x, f.size);
      seq(|row|, i requires 0 <= i < |row| => if at <= i < at + f.size then v[i - at] else row[i])
  }

  /** The same as a copy of v over part of the row. */
  lemma PutWholeIsCopy(size: nat, row: seq<byte>, x: nat, v: seq<byte>)
    requires size > 0 && Holds(Whole(size), |row|, x) && |v| == size
    ensures PutPixel(Whole(size), row, x, v) == row[..Offset(x, size)] + v + row[Offset(x, size) + size..]
  {
  }

  lemma GetWholeIsSlice(size: nat, row: seq<byte>, x: nat)
    requires size > 0 && Holds(Whole(size), |row|, x)
    ensures GetPixel(Whole(size), row, x) == row[Offset(x, size)..Offset(x, size) + size]
  {
  }

  /** The place of a packed sample must be zero before a sample is or-ed in. */
  predicate Blank(f: PixelFormat, row: seq<byte>, x: nat)
    requires Holds(f, |row|, x)
  {
    f.Packed? ==> Part(f, row, x, 0) == 0
  }

  /** A pixel put at a blank place is read back, and no other pixel changes. */
  lemma PartAfterPut(f: PixelFormat, row: seq<byte>, x: nat, v: seq<byte>, x': nat, j: nat)
    requires Holds(f, |row|, x) && Holds(f, |row|, x') && IsPixel(f, v) && Blank(f, row, x) && j < f.Parts()
    ensures Part(f, PutPixel(f, row, x, v), x', j) == if x' == x then v[j] else Part(f, row, x', j)
  {
    if f.Packed? {
      SampleAfterOr(f.depth, row, x, v[0], x');
    } else {
      if x' < x { Apart(x', x, f.size); }
      if x < x' { Apart(x, x', f.size); }
    }
  }

  lemma ZerosBlank(f: PixelFormat, row: seq<byte>, x: nat)
    requires Holds(f, |row|, x) && forall i :: 0 <= i < |row| ==> row[i] == 0
    ensures Blank(f, row, x)
  {
    if f.Packed? {
      ZeroSample(f.depth, row, x);
    }
  }

  /** Rows of whole bytes are determined by their pixels. */
  lemma SamePixelsSameRow(size: nat, w: nat, row: seq<byte>, row': seq<byte>)
    requires size > 0 && |row| == |row'| == Offset(w, size)
    requires forall x :: 0 <= x < w ==> Holds(Whole(size), |row|, x)
    requires forall x, j :: 0 <= x < w && 0 <= j < size ==>
               Part(Whole(size), row, x, j) == Part(Whole(size), row', x, j)
    ensures row == row'
  {
    forall i | 0 <= i < |row| ensures row[i] == row'[i] {
      var x, j := PixelOfByte(size, w, i);
      assert Part(Whole(size), row, x, j) == Part(Whole(size), row', x, j);
    }
  }

  /** The pixel and the part that byte i of a row of whole bytes belongs to. */
  lemma {:induction false} PixelOfByte(size: nat, w: nat, i: nat) returns (x: nat, j: nat)
    requires size > 0 && i < Offset(w, size)
    ensures x < w && j < size && i == Offset(x, size) + j
  {
    if i >= Offset(w - 1, size) {
      x, j := w - 1, i - Offset(w - 1, size);
    } else {
      x, j := PixelOfByte(size, w - 1, i);
    }
  }
}
