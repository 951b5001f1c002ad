/** The SSE2 forms of the row inverses for pixels of three and four bytes (kernel/lib/spng.c).
    A register is modelled by the four lanes that are used: of bytes, or of signed 16-bit numbers.
    The three-byte forms load four bytes and store three, so their fourth lane holds a foreign byte. */
module Simd {
  import opened Bytes
  import opened ScanlineFilter

  type int16 = x: int | -0x8000 <= x < 0x8000

  // ---------- one lane of each instruction ----------

  function Wrap16(x: int): int16 {
    (x + 0x8000) % 0x1_0000 - 0x8000
  }

  /** The rounding average of _mm_avg_epu8. */
  function RoundingAverage(a: byte, b: byte): byte {
    (a + b + 1) / 2
  }

  /** The lowest bit of `a ^ b`. */
  function LowBitOfXor(a: byte, b: byte): byte {
    (a + b) % 2
  }

  /** The result of a comparison: all bits set, or none. */
  function Mask(c: bool): int16 {
    if c then -1 else 0
  }

  /** Exclusive or with a mask: the complement of x, or x. */
  function XorMask(x: int16, mask: int16): int16 {
    if mask == -1 then -1 - x else x
  }

  function Min16(x: int16, y: int16): int16 {
    if x < y then x else y
  }

  /** abs_i16: flip the bits of negative lanes, then subtract the mask. */
  function Abs16(x: int16): int16 {
    var isNegative := Mask(x < 0);
    Wrap16(XorMask(x, isNegative) - isNegative)
  }

  /** if_then_else: the bits of t where the mask is set and those of e elsewhere. */
  function Select(mask: int16, t: int16, e: int16): int16 {
    if mask == -1 then t else e
  }

  /** _mm_add_epi8 seen from a 16-bit lane: the two bytes of the lane are added without a carry between them. */
  function AddBytes(x: int16, y: int16): int16 {
    Wrap16((x % 256 + y % 256) % 256 + (x / 256 + y / 256) % 256 * 256)
  }

  /** _mm_packus_epi16: unsigned saturation. */
  function Saturate(x: int16): byte {
    if x < 0 then 0 else if x > 255 then 255 else x
  }

  function AverageLane(a: byte, b: byte): byte {
    Minus(RoundingAverage(a, b), LowBitOfXor(a, b))
  }

  function PaethLane(a: int16, b: int16, c: int16): int16 {
    var pa := Wrap16(b - c);
    var pb := Wrap16(a - c);
    var pc := Wrap16(pa + pb);
    var pa', pb', pc' := Abs16(pa), Abs16(pb), Abs16(pc);
    var smallest := Min16(pc', Min16(pa', pb'));
    Select(Mask(smallest == pa'), a, Select(Mask(smallest == pb'), b, c))
  }

  /** Rounding up and then subtracting the lost bit truncates. */
  lemma AverageLaneTruncates(a: byte, b: byte)
    ensures AverageLane(a, b) <= (a + b) / 2 < AverageLane(a, b) + 1
    ensures 2 * AverageLane(a, b) <= a + b <= 2 * AverageLane(a, b) + 1
    ensures AverageLane(a, b) == Predict(AVERAGE, a, b, 0)
  {
    assert (a + b) % 2 == 0 || (a + b) % 2 == 1;
  }

  lemma Abs16IsAbs(x: int16)
    requires -510 <= x <= 510
    ensures Abs16(x) == Abs(x)
  {
  }

  /** The 16-bit lanes choose as the scalar predictor does, ties included: a before b before c. */
  lemma PaethLaneIsPaeth(a: byte, b: byte, c: byte)
    ensures PaethLane(a, b, c) == Paeth(a, b, c)
  {
    assert Wrap16(b - c) == b - c && Wrap16(a - c) == a - c;
    assert Wrap16(b - c + (a - c)) == b - c + (a - c);
    Abs16IsAbs(b - c);
    Abs16IsAbs(a - c);
    Abs16IsAbs(b - c + (a - c));
  }

  /** Adding a predictor byte-wise and packing is the wrapping byte addition. */
  lemma PackedSum(x: byte, y: byte)
    ensures Saturate(AddBytes(x, y)) == Plus(x, y)
    ensures AddBytes(x, y) == Plus(x, y)
  {
    assert x / 256 == 0 && y / 256 == 0;
  }

  // ---------- registers ----------

  /** The four byte lanes, and the four 16-bit lanes, of a register that are used. */
  datatype Bytes4 = Bytes4(l0: byte, l1: byte, l2: byte, l3: byte) {
    function Lane(j: nat): byte
      requires j < 4
    {
      if j == 0 then l0 else if j == 1 then l1 else if j == 2 then l2 else l3
    }
  }

  datatype Words4 = Words4(l0: int16, l1: int16, l2: int16, l3: int16)

  const ZERO := Bytes4(0, 0, 0, 0)

  function Add8(x: Bytes4, y: Bytes4): Bytes4 {
    Bytes4(Plus(x.l0, y.l0), Plus(x.l1, y.l1), Plus(x.l2, y.l2), Plus(x.l3, y.l3))
  }

  /** _mm_unpacklo_epi8 with zero: each byte becomes a 16-bit lane. */
  function Unpack(x: Bytes4): Words4 {
    Words4(x.l0, x.l1, x.l2, x.l3)
  }

  function Pack(x: Words4): Bytes4 {
    Bytes4(Saturate(x.l0), Saturate(x.l1), Saturate(x.l2), Saturate(x.l3))
  }

  function Average(a: Bytes4, b: Bytes4): Bytes4 {
    Bytes4(AverageLane(a.l0, b.l0), AverageLane(a.l1, b.l1), AverageLane(a.l2, b.l2), AverageLane(a.l3, b.l3))
  }

  function Nearest(a: Words4, b: Words4, c: Words4): Words4 {
    Words4(PaethLane(a.l0, b.l0, c.l0), PaethLane(a.l1, b.l1, c.l1),
           PaethLane(a.l2, b.l2, c.l2), PaethLane(a.l3, b.l3, c.l3))
  }

  /** One step of the Paeth loops: add the chosen neighbour to each byte of e. */
  function PaethStep(e: Words4, a: Words4, b: Words4, c: Words4): Words4 {
    var n := Nearest(a, b, c);
    Words4(AddBytes(e.l0, n.l0), AddBytes(e.l1, n.l1), AddBytes(e.l2, n.l2), AddBytes(e.l3, n.l3))
  }

  lemma AverageLanes(a: Bytes4, b: Bytes4, e: Bytes4, j: nat)
    requires j < 4
    ensures Add8(e, Average(a, b)).Lane(j) == Plus(e.Lane(j), Predict(AVERAGE, a.Lane(j), b.Lane(j), 0))
  {
    AverageLaneTruncates(a.Lane(j), b.Lane(j));
  }

  /** The scalar result in every lane. */
  function PaethBytes(e: Bytes4, a: Bytes4, b: Bytes4, c: Bytes4): Bytes4 {
    Bytes4(Plus(e.l0, Paeth(a.l0, b.l0, c.l0)), Plus(e.l1, Paeth(a.l1, b.l1, c.l1)),
           Plus(e.l2, Paeth(a.l2, b.l2, c.l2)), Plus(e.l3, Paeth(a.l3, b.l3, c.l3)))
  }

  /** The body of the Paeth loops, on unpacked registers, computes the scalar result in every lane. */
  method PaethRegisters(e: Words4, a: Words4, b: Words4, c: Words4, ghost e8: Bytes4, ghost a8: Bytes4,
                        ghost b8: Bytes4, ghost c8: Bytes4)
    returns (d: Words4)
    requires e == Unpack(e8) && a == Unpack(a8) && b == Unpack(b8) && c == Unpack(c8)
    ensures d == Unpack(PaethBytes(e8, a8, b8, c8)) && Pack(d) == PaethBytes(e8, a8, b8, c8)
  {
    d := PaethStep(e, a, b, c);
    hide PaethLane, Paeth, AddBytes, Saturate;
    PaethLaneIsPaeth(a8.l0, b8.l0, c8.l0);
    PaethLaneIsPaeth(a8.l1, b8.l1, c8.l1);
    PaethLaneIsPaeth(a8.l2, b8.l2, c8.l2);
    PaethLaneIsPaeth(a8.l3, b8.l3, c8.l3);
    PackedSum(e8.l0, Paeth(a8.l0, b8.l0, c8.l0));
    PackedSum(e8.l1, Paeth(a8.l1, b8.l1, c8.l1));
    PackedSum(e8.l2, Paeth(a8.l2, b8.l2, c8.l2));
    PackedSum(e8.l3, Paeth(a8.l3, b8.l3, c8.l3));
  }

  function Load4(s: seq<byte>, at: nat): Bytes4
    requires at + 4 <= |s|
  {
    Bytes4(s[at], s[at + 1], s[at + 2], s[at + 3])
  }

  function Load3(s: seq<byte>, at: nat): Bytes4
    requires at + 3 <= |s|
  {
    Bytes4(s[at], s[at + 1], s[at + 2], 0)
  }

  /** `row'` is `row` with the first n lanes of x at `at`. */
  ghost predicate Stored(x: Bytes4, n: nat, at: nat, row: seq<byte>, row': seq<byte>)
    requires n <= 4
  {
    |row'| == |row| && at + n <= |row| &&
    (forall i :: 0 <= i < |row| && !(at <= i < at + n) ==> row'[i] == row[i]) &&
    (forall j :: 0 <= j < n ==> row'[at + j] == x.Lane(j))
  }

  method Store3(row: array<byte>, at: nat, x: Bytes4)
    requires at + 3 <= row.Length
    modifies row
    ensures Stored(x, 3, at, old(row[..]), row[..])
  {
    row[at], row[at + 1], row[at + 2] := x.l0, x.l1, x.l2;
  }

  method Store4(row: array<byte>, at: nat, x: Bytes4)
    requires at + 4 <= row.Length
    modifies row
    ensures Stored(x, 4, at, old(row[..]), row[..])
  {
    row[at], row[at + 1], row[at + 2], row[at + 3] := x.l0, x.l1, x.l2, x.l3;
  }

  // ---------- what the loops keep ----------

  /** The first `done` bytes of `row` are restored; the rest is still as on the stream. */
  ghost predicate Restored(filter: nat, bpp: nat, prev: seq<byte>, x: seq<byte>, row: seq<byte>, done: nat)
    requires 0 < bpp && |x| <= |prev|
  {
    done <= |x| <= |row| &&
    (forall i :: 0 <= i < done ==> row[i] == Plus(x[i], PredictAt(filter, bpp, prev, row, i))) &&
    (forall i :: done <= i < |x| ==> row[i] == x[i])
  }

  /** `at` is the start of the row, or at least one pixel into it. */
  ghost predicate AtPixel(bpp: nat, at: nat) {
    at == 0 || bpp <= at
  }

  /** The first bpp lanes are the pixel of `s` that ends at `at`, or zero at the start of the row. */
  ghost predicate HoldsPixel(d: Bytes4, bpp: nat, s: seq<byte>, at: nat)
    requires 0 < bpp <= 4 && at <= |s|
  {
    forall j :: 0 <= j < bpp ==> d.Lane(j) == if at < bpp then 0 else s[at - bpp + j]
  }

  /** The first bpp lanes are the pixel of `s` that starts at `at`. */
  ghost predicate HoldsNext(d: Bytes4, bpp: nat, s: seq<byte>, at: nat)
    requires 0 < bpp <= 4 && at + bpp <= |s|
  {
    forall j :: 0 <= j < bpp ==> d.Lane(j) == s[at + j]
  }

  /** The bytes a pixel must be given. */
  ghost predicate PixelFor(d: Bytes4, filter: nat, bpp: nat, prev: seq<byte>, x: seq<byte>, row: seq<byte>, at: nat)
    requires 0 < bpp <= 4 && |x| <= |prev| && |x| <= |row| && at + bpp <= |x|
  {
    forall j :: 0 <= j < bpp ==>
      d.Lane(j) == Plus(x[at + j], Predict(filter, Left(row, bpp, at + j), prev[at + j], Left(prev, bpp, at + j)))
  }

  /** Storing the right bytes for the next pixel extends the restored part by one pixel. */
  lemma StorePixel(d: Bytes4, filter: nat, bpp: nat, prev: seq<byte>, x: seq<byte>,
                   row: seq<byte>, row': seq<byte>, at: nat)
    requires 0 < bpp <= 4 && |x| <= |prev| && at + bpp <= |x|
    requires Restored(filter, bpp, prev, x, row, at)
    requires PixelFor(d, filter, bpp, prev, x, row, at)
    requires Stored(d, bpp, at, row, row')
    ensures row'[|x|..] == row[|x|..]
    ensures Restored(filter, bpp, prev, x, row', at + bpp)
    ensures HoldsPixel(d, bpp, row', at + bpp)
  {
    forall i | 0 <= i < at + bpp
      ensures row'[i] == Plus(x[i], PredictAt(filter, bpp, prev, row', i))
    {
      assert Left(row', bpp, i) == Left(row, bpp, i);
      if i < at {
        assert row[i] == Plus(x[i], PredictAt(filter, bpp, prev, row, i));
      } else {
        var j := i - at;
        assert row'[at + j] == d.Lane(j);
      }
    }
  }

  /** What a loop over pixels keeps: `row` is restored up to `at`, and d is the pixel just restored. */
  ghost predicate Progress(filter: nat, bpp: nat, prev: seq<byte>, x: seq<byte>, tail: seq<byte>,
                           row: seq<byte>, at: nat, d: Bytes4)
    requires 0 < bpp <= 4 && |x| <= |prev|
  {
    Restored(filter, bpp, prev, x, row, at) && AtPixel(bpp, at) && HoldsPixel(d, bpp, row, at) && row[|x|..] == tail
  }

  lemma RestoredWhole(filter: nat, bpp: nat, prev: seq<byte>, x: seq<byte>, row: seq<byte>)
    requires 0 < bpp && |x| <= |prev|
    requires Restored(filter, bpp, prev, x, row, |x|)
    ensures row[..|x|] == DefilterRow(filter, bpp, prev, x)
  {
    forall i | 0 <= i < |x|
      ensures row[..|x|][i] == Plus(x[i], PredictAt(filter, bpp, prev, row[..|x|], i))
    {
      assert Left(row[..|x|], bpp, i) == Left(row, bpp, i);
      assert row[i] == Plus(x[i], PredictAt(filter, bpp, prev, row, i));
    }
    RestoresUnique(filter, bpp, prev, x, row[..|x|]);
  }

  // ---------- Sub ----------

  lemma SubPixel(a: Bytes4, e: Bytes4, bpp: nat, prev: seq<byte>, x: seq<byte>, row: seq<byte>, at: nat)
    requires 0 < bpp <= 4 && |x| <= |prev| && |x| <= |row| && at + bpp <= |x| && AtPixel(bpp, at)
    requires HoldsPixel(a, bpp, row, at) && HoldsNext(e, bpp, x, at)
    ensures PixelFor(Add8(e, a), SUB, bpp, prev, x, row, at)
  {
    forall j | 0 <= j < bpp
      ensures Add8(e, a).Lane(j) == Plus(x[at + j], Left(row, bpp, at + j))
    {
      assert Add8(e, a).Lane(j) == Plus(e.Lane(j), a.Lane(j));
    }
  }

  lemma SubStep(a: Bytes4, e: Bytes4, bpp: nat, prev: seq<byte>, x: seq<byte>, tail: seq<byte>,
                row: seq<byte>, row': seq<byte>, at: nat)
    requires 0 < bpp <= 4 && |x| <= |prev| && at + bpp <= |x|
    requires Progress(SUB, bpp, prev, x, tail, row, at, a) && HoldsNext(e, bpp, row, at)
    requires Stored(Add8(e, a), bpp, at, row, row')
    ensures Progress(SUB, bpp, prev, x, tail, row', at + bpp, Add8(e, a))
  {
    SubPixel(a, e, bpp, prev, x, row, at);
    StorePixel(Add8(e, a), SUB, bpp, prev, x, row, row', at);
  }

  method DefilterSub3(rowbytes: nat, row: array<byte>, ghost prev: seq<byte>)
    requires rowbytes % 3 == 0 && rowbytes <= row.Length && rowbytes <= |prev|
    modifies row
    ensures row[..] == DefilterRow(SUB, 3, prev, old(row[..][..rowbytes])) + old(row[..][rowbytes..])
  {
    ghost var x, tail := row[..][..rowbytes], row[..][rowbytes..];
    var at, rb := 0, rowbytes;
    ghost var left := rowbytes / 3;
    var d := ZERO;
    while rb >= 4
      invariant at + rb == rowbytes && rb == 3 * left
      invariant Progress(SUB, 3, prev, x, tail, row[..], at, d)
      decreases rb
    {
      ghost var before := row[..];
      var a := d;
      var e := Load4(row[..], at);
      d := Add8(e, a);
      Store3(row, at, d);
      SubStep(a, e, 3, prev, x, tail, before, row[..], at);
      at, rb := at + 3, rb - 3;
      left := left - 1;
    }
    if rb > 0 {
      ghost var before := row[..];
      var a := d;
      var e := Load3(row[..], at);
      d := Add8(e, a);
      Store3(row, at, d);
      SubStep(a, e, 3, prev, x, tail, before, row[..], at);
    }
    RestoredWhole(SUB, 3, prev, x, row[..]);
  }

  method DefilterSub4(rowbytes: nat, row: array<byte>, ghost prev: seq<byte>)
    requires rowbytes % 4 == 0 && rowbytes <= row.Length && rowbytes <= |prev|
    modifies row
    ensures row[..] == DefilterRow(SUB, 4, prev, old(row[..][..rowbytes])) + old(row[..][rowbytes..])
  {
    ghost var x, tail := row[..][..rowbytes], row[..][rowbytes..];
    var at, rb := 0, rowbytes + 4;
    ghost var left := rowbytes / 4 + 1;
    var d := ZERO;
    while rb > 4
      invariant at + rb == rowbytes + 4 && rb == 4 * left && rb >= 4
      invariant Progress(SUB, 4, prev, x, tail, row[..], at, d)
      decreases rb
    {
      ghost var before := row[..];
      var a := d;
      var e := Load4(row[..], at);
      d := Add8(e, a);
      Store4(row, at, d);
      SubStep(a, e, 4, prev, x, tail, before, row[..], at);
      at, rb := at + 4, rb - 4;
      left := left - 1;
    }
    RestoredWhole(SUB, 4, prev, x, row[..]);
  }

  // ---------- Average ----------

  lemma AveragePixel(a: Bytes4, b: Bytes4, e: Bytes4, bpp: nat, prev: seq<byte>, x: seq<byte>, row: seq<byte>, at: nat)
    requires 0 < bpp <= 4 && |x| <= |prev| && |x| <= |row| && at + bpp <= |x| && AtPixel(bpp, at)
    requires HoldsPixel(a, bpp, row, at) && HoldsNext(b, bpp, prev, at) && HoldsNext(e, bpp, x, at)
    ensures PixelFor(Add8(e, Average(a, b)), AVERAGE, bpp, prev, x, row, at)
  {
    forall j | 0 <= j < bpp
      ensures Add8(e, Average(a, b)).Lane(j) == Plus(x[at + j], (Left(row, bpp, at + j) + prev[at + j]) / 2)
    {
      AverageLanes(a, b, e, j);
      assert a.Lane(j) == Left(row, bpp, at + j);
    }
  }

  lemma AverageStep(a: Bytes4, b: Bytes4, e: Bytes4, bpp: nat, prev: seq<byte>, x: seq<byte>, tail: seq<byte>,
                row: seq<byte>, row': seq<byte>, at: nat)
    requires 0 < bpp <= 4 && |x| <= |prev| && at + bpp <= |x|
    requires Progress(AVERAGE, bpp, prev, x, tail, row, at, a) && HoldsNext(e, bpp, row, at)
    requires HoldsNext(b, bpp, prev, at)
    requires Stored(Add8(e, Average(a, b)), bpp, at, row, row')
    ensures Progress(AVERAGE, bpp, prev, x, tail, row', at + bpp, Add8(e, Average(a, b)))
  {
    AveragePixel(a, b, e, bpp, prev, x, row, at);
    StorePixel(Add8(e, Average(a, b)), AVERAGE, bpp, prev, x, row, row', at);
  }

  method DefilterAvg3(rowbytes: nat, row: array<byte>, prev: array<byte>)
    requires rowbytes % 3 == 0 && rowbytes <= row.Length && rowbytes <= prev.Length && row != prev
    modifies row
    ensures row[..] == DefilterRow(AVERAGE, 3, prev[..], old(row[..][..rowbytes])) + old(row[..][rowbytes..])
  {
    hide Average, PredictAt, DefilterRow;
    ghost var x, tail, p := row[..][..rowbytes], row[..][rowbytes..], prev[..];
    var at, rb := 0, rowbytes;
    ghost var left := rowbytes / 3;
    var d := ZERO;
    while rb >= 4
      invariant at + rb == rowbytes && rb == 3 * left && prev[..] == p
      invariant Progress(AVERAGE, 3, p, x, tail, row[..], at, d)
      decreases rb
    {
      ghost var before := row[..];
      var b, a := Load4(prev[..], at), d;
      var e := Load4(row[..], at);
      d := Add8(e, Average(a, b));
      Store3(row, at, d);
      AverageStep(a, b, e, 3, p, x, tail, before, row[..], at);
      at, rb := at + 3, rb - 3;
      left := left - 1;
    }
    if rb > 0 {
      ghost var before := row[..];
      var b, a := Load3(prev[..], at), d;
      var e := Load3(row[..], at);
      d := Add8(e, Average(a, b));
      Store3(row, at, d);
      AverageStep(a, b, e, 3, p, x, tail, before, row[..], at);
    }
    RestoredWhole(AVERAGE, 3, p, x, row[..]);
  }

  method DefilterAvg4(rowbytes: nat, row: array<byte>, prev: array<byte>)
    requires rowbytes % 4 == 0 && rowbytes <= row.Length && rowbytes <= prev.Length && row != prev
    modifies row
    ensures row[..] == DefilterRow(AVERAGE, 4, prev[..], old(row[..][..rowbytes])) + old(row[..][rowbytes..])
  {
    hide Average, PredictAt, DefilterRow;
    ghost var x, tail, p := row[..][..rowbytes], row[..][rowbytes..], prev[..];
    var at, rb := 0, rowbytes + 4;
    ghost var left := rowbytes / 4 + 1;
    var d := ZERO;
    while rb > 4
      invariant at + rb == rowbytes + 4 && rb == 4 * left && rb >= 4 && prev[..] == p
      invariant Progress(AVERAGE, 4, p, x, tail, row[..], at, d)
      decreases rb
    {
      ghost var before := row[..];
      var b, a := Load4(prev[..], at), d;
      var e := Load4(row[..], at);
      d := Add8(e, Average(a, b));
      Store4(row, at, d);
      AverageStep(a, b, e, 4, p, x, tail, before, row[..], at);
      at, rb := at + 4, rb - 4;
      left := left - 1;
    }
    RestoredWhole(AVERAGE, 4, p, x, row[..]);
  }

  // ---------- Paeth ----------

  lemma PaethPixel(a: Bytes4, b: Bytes4, c: Bytes4, e: Bytes4, bpp: nat,
                   prev: seq<byte>, x: seq<byte>, row: seq<byte>, at: nat)
    requires 0 < bpp <= 4 && |x| <= |prev| && |x| <= |row| && at + bpp <= |x| && AtPixel(bpp, at)
    requires HoldsPixel(a, bpp, row, at) && HoldsPixel(c, bpp, prev, at)
    requires HoldsNext(b, bpp, prev, at) && HoldsNext(e, bpp, x, at)
    ensures PixelFor(PaethBytes(e, a, b, c), PAETH, bpp, prev, x, row, at)
    ensures HoldsPixel(b, bpp, prev, at + bpp)
  {
    forall j | 0 <= j < bpp
      ensures PaethBytes(e, a, b, c).Lane(j)
           == Plus(x[at + j], Paeth(Left(row, bpp, at + j), prev[at + j], Left(prev, bpp, at + j)))
    {
      assert PaethBytes(e, a, b, c).Lane(j) == Plus(e.Lane(j), Paeth(a.Lane(j), b.Lane(j), c.Lane(j)));
      assert a.Lane(j) == Left(row, bpp, at + j) && c.Lane(j) == Left(prev, bpp, at + j);
    }
  }

  lemma PaethStepKeeps(a: Bytes4, b: Bytes4, c: Bytes4, e: Bytes4, d: Bytes4, bpp: nat, prev: seq<byte>, x: seq<byte>,
                       tail: seq<byte>, row: seq<byte>, row': seq<byte>, at: nat)
    requires 0 < bpp <= 4 && |x| <= |prev| && at + bpp <= |x|
    requires Progress(PAETH, bpp, prev, x, tail, row, at, a) && HoldsNext(e, bpp, row, at)
    requires HoldsNext(b, bpp, prev, at) && HoldsPixel(c, bpp, prev, at)
    requires d == PaethBytes(e, a, b, c) && Stored(d, bpp, at, row, row')
    ensures Progress(PAETH, bpp, prev, x, tail, row', at + bpp, d)
    ensures HoldsPixel(b, bpp, prev, at + bpp)
  {
    PaethPixel(a, b, c, e, bpp, prev, x, row, at);
    StorePixel(d, PAETH, bpp, prev, x, row, row', at);
  }

  method DefilterPaeth3(rowbytes: nat, row: array<byte>, prev: array<byte>)
    requires rowbytes % 3 == 0 && rowbytes <= row.Length && rowbytes <= prev.Length && row != prev
    modifies row
    ensures row[..] == DefilterRow(PAETH, 3, prev[..], old(row[..][..rowbytes])) + old(row[..][rowbytes..])
  {
    hide PaethBytes, PredictAt, DefilterRow;
    ghost var x, tail, p := row[..][..rowbytes], row[..][rowbytes..], prev[..];
    var at, rb := 0, rowbytes;
    ghost var left := rowbytes / 3;
    var b, d := Unpack(ZERO), Unpack(ZERO);
    ghost var b8, d8 := ZERO, ZERO;
    while rb >= 4
      invariant at + rb == rowbytes && rb == 3 * left && prev[..] == p
      invariant Progress(PAETH, 3, p, x, tail, row[..], at, d8) && d == Unpack(d8)
      invariant HoldsPixel(b8, 3, p, at) && b == Unpack(b8)
      decreases rb
    {
      ghost var before := row[..];
      ghost var a8, c8 := d8, b8;
      var c, a := b, d;
      b8 := Load4(prev[..], at);
      b := Unpack(Load4(prev[..], at));
      var e := Load4(row[..], at);
      d8 := PaethBytes(e, a8, b8, c8);
      d := PaethRegisters(Unpack(e), a, b, c, e, a8, b8, c8);
      Store3(row, at, Pack(d));
      PaethStepKeeps(a8, b8, c8, e, d8, 3, p, x, tail, before, row[..], at);
      at, rb := at + 3, rb - 3;
      left := left - 1;
    }
    if rb > 0 {
      ghost var before := row[..];
      ghost var a8, c8 := d8, b8;
      var c, a := b, d;
      b8 := Load3(prev[..], at);
      b := Unpack(Load3(prev[..], at));
      var e := Load3(row[..], at);
      d8 := PaethBytes(e, a8, b8, c8);
      d := PaethRegisters(Unpack(e), a, b, c, e, a8, b8, c8);
      Store3(row, at, Pack(d));
      PaethStepKeeps(a8, b8, c8, e, d8, 3, p, x, tail, before, row[..], at);
    }
    RestoredWhole(PAETH, 3, p, x, row[..]);
  }

  method DefilterPaeth4(rowbytes: nat, row: array<byte>, prev: array<byte>)
    requires rowbytes % 4 == 0 && rowbytes <= row.Length && rowbytes <= prev.Length && row != prev
    modifies row
    ensures row[..] == DefilterRow(PAETH, 4, prev[..], old(row[..][..rowbytes])) + old(row[..][rowbytes..])
  {
    hide PaethBytes, PredictAt, DefilterRow;
    ghost var x, tail, p := row[..][..rowbytes], row[..][rowbytes..], prev[..];
    var at, rb := 0, rowbytes + 4;
    ghost var left := rowbytes / 4 + 1;
    var b, d := Unpack(ZERO), Unpack(ZERO);
    ghost var b8, d8 := ZERO, ZERO;
    while rb > 4
      invariant at + rb == rowbytes + 4 && rb == 4 * left && rb >= 4 && prev[..] == p
      invariant Progress(PAETH, 4, p, x, tail, row[..], at, d8) && d == Unpack(d8)
      invariant HoldsPixel(b8, 4, p, at) && b == Unpack(b8)
      decreases rb
    {
      ghost var before := row[..];
      ghost var a8, c8 := d8, b8;
      var c, a := b, d;
      b8 := Load4(prev[..], at);
      b := Unpack(Load4(prev[..], at));
      var e := Load4(row[..], at);
      d8 := PaethBytes(e, a8, b8, c8);
      d := PaethRegisters(Unpack(e), a, b, c, e, a8, b8, c8);
      Store4(row, at, Pack(d));
      PaethStepKeeps(a8, b8, c8, e, d8, 4, p, x, tail, before, row[..], at);
      at, rb := at + 4, rb - 4;
      left := left - 1;
    }
    RestoredWhole(PAETH, 4, p, x, row[..]);
  }

  // ---------- the dispatcher ----------

  /** defilter_scanline: `width` counts the filter byte. Rows of three- and four-byte pixels are whole pixels. */
  method DefilterScanline(prev: array<byte>, scanline: array<byte>, width: nat, bpp: nat, filter: nat)
    returns (status: Status)
    requires 0 < bpp && prev != scanline && width <= prev.Length + 1 && width <= scanline.Length + 1
    requires bpp in {3, 4} && width > 0 ==> (width - 1) % bpp == 0
    modifies scanline
    ensures status == if width == 0 then EInternal else if bpp in {3, 4} && filter > PAETH then EFilter else Ok
    ensures status == Ok ==>
              scanline[..] == DefilterRow(filter, bpp, prev[..], old(scanline[..width - 1])) +
                old(scanline[width - 1..])
    ensures status != Ok ==> scanline[..] == old(scanline[..])
  {
    if width == 0 { return EInternal; }
    var n := width - 1;
    if filter == NONE {
      NoFilter(NONE, bpp, prev[..], scanline[..n]);
      return Ok;
    }
    if filter != UP && bpp == 4 {
      if filter == SUB { DefilterSub4(n, scanline, prev[..]); }
      else if filter == AVERAGE { DefilterAvg4(n, scanline, prev); }
      else if filter == PAETH { DefilterPaeth4(n, scanline, prev); }
      else { return EFilter; }
      return Ok;
    }
    if filter != UP && bpp == 3 {
      if filter == SUB { DefilterSub3(n, scanline, prev[..]); }
      else if filter == AVERAGE { DefilterAvg3(n, scanline, prev); }
      else if filter == PAETH { DefilterPaeth3(n, scanline, prev); }
      else { return EFilter; }
      return Ok;
    }
    if filter == UP {
      DefilterUp(n, scanline, prev, bpp);
      return Ok;
    }
    DefilterGeneric(prev, scanline, n, bpp, filter);
    return Ok;
  }

  lemma {:induction false} NoFilter(filter: nat, bpp: nat, prev: seq<byte>, x: seq<byte>)
    requires 0 < bpp && |x| <= |prev| && (filter == NONE || filter > PAETH)
    ensures DefilterRow(filter, bpp, prev, x) == x
  {
    assert Restores(filter, bpp, prev, x, x);
    RestoresUnique(filter, bpp, prev, x, x);
  }

  method DefilterUp(bytes: nat, row: array<byte>, prev: array<byte>, ghost bpp: nat)
    requires 0 < bpp && bytes <= row.Length && bytes <= prev.Length && row != prev
    modifies row
    ensures row[..] == DefilterRow(UP, bpp, prev[..], old(row[..][..bytes])) + old(row[..][bytes..])
  {
    ghost var x, tail, p := row[..][..bytes], row[..][bytes..], prev[..];
    for i := 0 to bytes
      invariant prev[..] == p && Restored(UP, bpp, p, x, row[..], i)
      invariant row[..][bytes..] == tail
    {
      row[i] := Plus(row[i], prev[i]);
    }
    RestoredWhole(UP, bpp, p, x, row[..]);
  }
}
