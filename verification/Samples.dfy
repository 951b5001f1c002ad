/** Samples of 1, 2 and 4 bits packed into bytes, most significant first (kernel/lib/spng.c). */
module Samples {
  import opened Bytes

  /** Bitwise or. */
  function Or(a: nat, b: nat): nat
    decreases a + b
  {
    if a == 0 then b
    else if b == 0 then a
    else 2 * Or(a / 2, b / 2) + if a % 2 == 1 || b % 2 == 1 then 1 else 0
  }

  function Pow(base: nat, n: nat): nat {
    if n == 0 then 1 else base * Pow(base, n - 1)
  }

  lemma {:induction false} OrBound(a: nat, b: nat, n: nat)
    requires a < Pow(2, n) && b < Pow(2, n)
    ensures Or(a, b) < Pow(2, n)
  {
    if a != 0 && b != 0 {
      OrBound(a / 2, b / 2, n - 1);
    }
  }

  /** Bit by bit from the lowest. */
  lemma OrBits(a: nat, b: nat)
    ensures Or(a, b) % 2 == 1 <==> a % 2 == 1 || b % 2 == 1
    ensures Or(a, b) / 2 == Or(a / 2, b / 2)
  {
    if a != 0 && b != 0 {
      var bit := if a % 2 == 1 || b % 2 == 1 then 1 else 0;
      assert Or(a, b) == 2 * Or(a / 2, b / 2) + bit;
    }
  }

  /** Bitwise or of two bytes. */
  function OrByte(a: byte, b: byte): byte {
    assert Pow(2, 8) == 256 by {
      assert Pow(2, 2) == 4 && Pow(2, 4) == 4 * Pow(2, 2) && Pow(2, 6) == 4 * Pow(2, 4);
    }
    OrBound(a, b, 8);
    Or(a, b)
  }

  /** No bit is set in both numbers. */
  ghost predicate Disjoint(a: nat, b: nat)
    decreases b
  {
    b == 0 || (!(a % 2 == 1 && b % 2 == 1) && Disjoint(a / 2, b / 2))
  }

  lemma {:induction false} OrOfDisjoint(a: nat, b: nat)
    requires Disjoint(a, b)
    ensures Or(a, b) == a + b
    decreases b
  {
    if a != 0 && b != 0 {
      OrOfDisjoint(a / 2, b / 2);
    }
  }

  /** The bit depths for which several samples share a byte. */
  predicate IsPacked(depth: nat) {
    depth in {1, 2, 4}
  }

  /** The number of values of a sample. */
  function Range(depth: nat): nat
    requires IsPacked(depth)
  {
    if depth == 1 then 2 else if depth == 2 then 4 else 16
  }

  /** samples_per_byte. */
  function PerByte(depth: nat): (n: nat)
    requires IsPacked(depth)
    ensures n == 8 / depth
  {
    if depth == 1 then 8 else if depth == 2 then 4 else 2
  }

  /** The byte, and the slot in it counted from the left, that hold the sample at column x. */
  function ByteOf(depth: nat, x: nat): nat
    requires IsPacked(depth)
    decreases x
  {
    if x < PerByte(depth) then 0 else 1 + ByteOf(depth, x - PerByte(depth))
  }

  function SlotOf(depth: nat, x: nat): (j: nat)
    requires IsPacked(depth)
    ensures j < PerByte(depth)
    decreases x
  {
    if x < PerByte(depth) then x else SlotOf(depth, x - PerByte(depth))
  }

  lemma {:induction false} ByteAndSlot(depth: nat, x: nat)
    requires IsPacked(depth)
    ensures ByteOf(depth, x) == x / PerByte(depth) && SlotOf(depth, x) == x % PerByte(depth)
    decreases x
  {
    if x >= PerByte(depth) {
      ByteAndSlot(depth, x - PerByte(depth));
      if depth == 1 {} else if depth == 2 {} else {}
    }
  }

  lemma {:induction false} SameByteAndSlot(depth: nat, x: nat, x': nat)
    requires IsPacked(depth) && ByteOf(depth, x) == ByteOf(depth, x') && SlotOf(depth, x) == SlotOf(depth, x')
    ensures x == x'
    decreases x
  {
    if x >= PerByte(depth) && x' >= PerByte(depth) {
      SameByteAndSlot(depth, x - PerByte(depth), x' - PerByte(depth));
    }
  }

  /** Digit i, counted from the least significant, of b in the base of the samples. */
  function Digit(depth: nat, b: nat, i: nat): nat
    requires IsPacked(depth)
    decreases i
  {
    if i == 0 then b % Range(depth) else Digit(depth, b / Range(depth), i - 1)
  }

  lemma DivOfSum(depth: nat, b: nat, c: nat)
    requires IsPacked(depth)
    ensures (b + Range(depth) * c) / Range(depth) == b / Range(depth) + c
    ensures (b + Range(depth) * c) % Range(depth) == b % Range(depth)
  {
    if depth == 1 {} else if depth == 2 {} else {}
  }

  /** Filling a zero digit sets that digit and leaves the others. */
  lemma {:induction false} FillDigit(depth: nat, b: nat, v: nat, i: nat, j: nat)
    requires IsPacked(depth) && v < Range(depth) && Digit(depth, b, i) == 0
    ensures Digit(depth, b + v * Pow(Range(depth), i), j) == if i == j then v else Digit(depth, b, j)
    decreases i
  {
    var d := Range(depth);
    if i == 0 {
      assert v * Pow(d, 0) == v;
      assert (b + v) / d == b / d && (b + v) % d == v by { if depth == 1 {} else if depth == 2 {} else {} }
    } else {
      var c := v * Pow(d, i - 1);
      assert v * Pow(d, i) == d * c by { Shuffle(v, d, Pow(d, i - 1)); }
      DivOfSum(depth, b, c);
      if j > 0 {
        FillDigit(depth, b / d, v, i - 1, j - 1);
      }
    }
  }

  lemma Shuffle(a: nat, b: nat, c: nat)
    ensures a * (b * c) == b * (a * c)
  {
  }

  lemma {:induction false} DisjointFromZeroDigit(depth: nat, b: nat, v: nat, i: nat)
    requires IsPacked(depth) && v < Range(depth) && Digit(depth, b, i) == 0
    ensures Disjoint(b, v * Pow(Range(depth), i))
    decreases i
  {
    var d := Range(depth);
    if i == 0 {
      assert v * Pow(d, 0) == v;
      DisjointBase(depth, b, v);
    } else {
      var c := v * Pow(d, i - 1);
      assert v * Pow(d, i) == d * c by { Shuffle(v, d, Pow(d, i - 1)); }
      DisjointFromZeroDigit(depth, b / d, v, i - 1);
      DisjointShift(depth, b, c);
    }
  }

  lemma DisjointBase(depth: nat, b: nat, v: nat)
    requires IsPacked(depth) && v < Range(depth) && b % Range(depth) == 0
    ensures Disjoint(b, v)
  {
    if depth == 1 {
    } else if depth == 2 {
      assert b / 2 % 2 == 0 && v / 2 / 2 == 0;
      assert Disjoint(b / 2, v / 2);
    } else {
      assert b / 2 % 2 == 0 && b / 2 / 2 % 2 == 0 && b / 2 / 2 / 2 % 2 == 0 && v / 2 / 2 / 2 / 2 == 0;
      assert Disjoint(b / 2 / 2 / 2, v / 2 / 2 / 2);
      assert Disjoint(b / 2 / 2, v / 2 / 2);
      assert Disjoint(b / 2, v / 2);
    }
  }

  lemma DoubleDisjoint(b: nat, c: nat)
    requires Disjoint(b / 2, c)
    ensures Disjoint(b, 2 * c)
  {
  }

  lemma DisjointShift(depth: nat, b: nat, c: nat)
    requires IsPacked(depth) && Disjoint(b / Range(depth), c)
    ensures Disjoint(b, Range(depth) * c)
  {
    if depth == 1 {
      DoubleDisjoint(b, c);
    } else if depth == 2 {
      assert b / 2 / 2 == b / 4;
      DoubleDisjoint(b / 2, c);
      DoubleDisjoint(b, 2 * c);
    } else {
      assert b / 2 / 2 / 2 / 2 == b / 16;
      DoubleDisjoint(b / 2 / 2 / 2, c);
      DoubleDisjoint(b / 2 / 2, 2 * c);
      DoubleDisjoint(b / 2, 4 * c);
      DoubleDisjoint(b, 8 * c);
    }
  }

  // ---------- the shifts of the source ----------

  function ShiftRight(b: nat, n: nat): (r: nat)
    ensures r <= b
    decreases n
  {
    if n == 0 then b else ShiftRight(b / 2, n - 1)
  }

  function ShiftLeft(v: nat, n: nat): nat
    decreases n
  {
    if n == 0 then v else ShiftLeft(2 * v, n - 1)
  }

  lemma {:induction false} ShiftLeftIsProduct(v: nat, n: nat)
    ensures ShiftLeft(v, n) == v * Pow(2, n)
    decreases n
  {
    if n > 0 {
      ShiftLeftIsProduct(2 * v, n - 1);
      Shuffle(v, 2, Pow(2, n - 1));
    }
  }

  /** get_sample: `(byte >> shift) & mask`. */
  function ShiftOut(depth: nat, b: byte, shift: nat): byte
    requires IsPacked(depth)
  {
    ShiftRight(b, shift) % Range(depth)
  }

  /** The digit in slot j of a byte, counted from the left. */
  function SlotDigit(depth: nat, slot: nat): nat
    requires IsPacked(depth) && slot < PerByte(depth)
  {
    PerByte(depth) - 1 - slot
  }

  /** The shift that brings the sample at x to the bottom of its byte. */
  function Shift(depth: nat, x: nat): (s: nat)
    requires IsPacked(depth)
    ensures s <= 8 - depth
  {
    var i := SlotDigit(depth, SlotOf(depth, x));
    if depth == 1 then i else if depth == 2 then 2 * i else 4 * i
  }

  /** The source computes it as `initial_shift - x * bit_depth % 8`. */
  lemma ShiftFormula(depth: nat, x: nat)
    requires IsPacked(depth)
    ensures 8 - depth - x * depth % 8 == Shift(depth, x)
  {
    ByteAndSlot(depth, x);
    if depth == 1 {
    } else if depth == 2 {
      TimesMod(x / 4, 2 * (x % 4));
    } else {
      TimesMod(x / 2, 4 * (x % 2));
    }
  }

  lemma TimesMod(q: nat, r: nat)
    requires r < 8
    ensures (8 * q + r) % 8 == r
  {
  }

  lemma {:induction false} ShiftByDepth(depth: nat, b: nat, n: nat)
    requires IsPacked(depth)
    ensures ShiftRight(b, n + depth) == ShiftRight(b / Range(depth), n)
  {
    if depth == 1 {
    } else if depth == 2 {
      assert ShiftRight(b, n + 2) == ShiftRight(b / 2, n + 1) == ShiftRight(b / 2 / 2, n);
      assert b / 2 / 2 == b / 4;
    } else {
      assert ShiftRight(b, n + 4) == ShiftRight(b / 2, n + 3);
      assert ShiftRight(b / 2, n + 3) == ShiftRight(b / 2 / 2, n + 2);
      assert ShiftRight(b / 2 / 2, n + 2) == ShiftRight(b / 2 / 2 / 2, n + 1) == ShiftRight(b / 2 / 2 / 2 / 2, n);
      assert b / 2 / 2 / 2 / 2 == b / 16;
    }
  }

  lemma {:induction false} DigitIsShift(depth: nat, b: nat, i: nat)
    requires IsPacked(depth)
    ensures ShiftRight(b, depth * i) % Range(depth) == Digit(depth, b, i)
    decreases i
  {
    if i > 0 {
      assert depth * i == depth * (i - 1) + depth;
      ShiftByDepth(depth, b, depth * (i - 1));
      DigitIsShift(depth, b / Range(depth), i - 1);
    }
  }

  lemma {:induction false} PowOfDigit(depth: nat, i: nat)
    requires IsPacked(depth)
    ensures Pow(2, depth * i) == Pow(Range(depth), i)
    decreases i
  {
    if i > 0 {
      var n := depth * (i - 1);
      assert depth * i == n + depth;
      PowOfDigit(depth, i - 1);
      assert Pow(2, n + 1) == 2 * Pow(2, n);
      if depth >= 2 { assert Pow(2, n + 2) == 2 * Pow(2, n + 1); }
      if depth == 4 { assert Pow(2, n + 3) == 2 * Pow(2, n + 2) && Pow(2, n + 4) == 2 * Pow(2, n + 3); }
    }
  }

  /** A sample shifted to its place fits the byte. */
  lemma ShiftLeftFits(depth: nat, v: nat, x: nat)
    requires IsPacked(depth) && v < Range(depth)
    ensures ShiftLeft(v, Shift(depth, x)) < 256
  {
    var i := SlotDigit(depth, SlotOf(depth, x));
    ShiftLeftIsProduct(v, Shift(depth, x));
    PowOfDigit(depth, i);
    PowBound(depth, v, i, PerByte(depth) - 1);
    assert Pow(2, 8) == 256 by {
      assert Pow(2, 2) == 4 && Pow(2, 4) == 4 * Pow(2, 2) && Pow(2, 6) == 4 * Pow(2, 4);
    }
    PowOfDigit(depth, PerByte(depth));
  }

  lemma {:induction false} PowBound(depth: nat, v: nat, i: nat, n: nat)
    requires IsPacked(depth) && v < Range(depth) && i <= n
    ensures v * Pow(Range(depth), i) < Pow(Range(depth), n + 1)
    decreases n
  {
    var d := Range(depth);
    PowPositive(d, n);
    assert Pow(d, n + 1) == d * Pow(d, n);
    if i == n {
      LessTimes(v, d, Pow(d, n));
    } else {
      PowBound(depth, v, i, n - 1);
      LessTimes(0, d - 1, Pow(d, n));
      assert d * Pow(d, n) == (d - 1) * Pow(d, n) + Pow(d, n);
    }
  }

  lemma {:induction false} PowPositive(base: nat, n: nat)
    requires base > 0
    ensures Pow(base, n) > 0
  {
    if n > 0 {
      PowPositive(base, n - 1);
      LessTimes(0, base, Pow(base, n - 1));
    }
  }

  lemma LessTimes(a: nat, b: nat, m: nat)
    requires a < b && m > 0
    ensures a * m < b * m
  {
  }

  // ---------- samples of a row ----------

  /** The sample at column x of a row. */
  function SampleAt(depth: nat, row: seq<byte>, x: nat): byte
    requires IsPacked(depth) && ByteOf(depth, x) < |row|
  {
    ShiftOut(depth, row[ByteOf(depth, x)], Shift(depth, x))
  }

  /** Samples lie in a byte from the highest bits to the lowest. */
  lemma SampleBits(depth: nat, row: seq<byte>, x: nat)
    requires depth == 1 || depth == 2 || depth == 4
    requires x / (8 / depth) < |row|
    ensures ByteOf(depth, x) < |row|
    ensures depth == 1 ==>
              var b, j := row[x / 8], x % 8;
              SampleAt(1, row, x) == (if j == 0 then b / 128 else if j == 1 then b / 64 else if j == 2 then b / 32
                                      else if j == 3 then b / 16 else if j == 4 then b / 8 else if j == 5 then b / 4
                                      else if j == 6 then b / 2 else b) % 2
    ensures depth == 2 ==>
              var b, j := row[x / 4], x % 4;
              SampleAt(2, row, x) == (if j == 0 then b / 64 else if j == 1 then b / 16 else if j == 2 then b / 4
                                      else b) % 4
    ensures depth == 4 ==>
              var b := row[x / 2];
              SampleAt(4, row, x) == (if x % 2 == 0 then b / 16 else b) % 16
  {
    ByteAndSlot(depth, x);
    var b := row[ByteOf(depth, x)];
    Halved(b, Shift(depth, x));
  }

  /** Shifting right by up to seven bits. */
  lemma Halved(b: nat, n: nat)
    requires n < 8
    ensures ShiftRight(b, n) == if n == 0 then b else if n == 1 then b / 2 else if n == 2 then b / 4
                                else if n == 3 then b / 8 else if n == 4 then b / 16 else if n == 5 then b / 32
                                else if n == 6 then b / 64 else b / 128
    decreases n
  {
    if n > 0 { Halved(b / 2, n - 1); }
  }

  /** `row[x / samples_per_byte] |= v << shift`. */
  function OrSample(depth: nat, row: seq<byte>, x: nat, v: byte): (r: seq<byte>)
    requires IsPacked(depth) && ByteOf(depth, x) < |row| && v < Range(depth)
    ensures |r| == |row|
  {
    ShiftLeftFits(depth, v, x);
    var at := ByteOf(depth, x);
    row[at := OrByte(row[at], ShiftLeft(v, Shift(depth, x)))]
  }

  /** Writing a sample where the row holds a zero sample sets it and changes no other sample. */
  lemma SampleAfterOr(depth: nat, row: seq<byte>, x: nat, v: byte, x': nat)
    requires IsPacked(depth) && ByteOf(depth, x) < |row| && ByteOf(depth, x') < |row| && v < Range(depth)
    requires SampleAt(depth, row, x) == 0
    ensures SampleAt(depth, OrSample(depth, row, x, v), x') == if x' == x then v else SampleAt(depth, row, x')
  {
    var i, j := SlotDigit(depth, SlotOf(depth, x)), SlotDigit(depth, SlotOf(depth, x'));
    if ByteOf(depth, x') == ByteOf(depth, x) {
      ShiftLeftFits(depth, v, x);
      ByteAfterOr(depth, row[ByteOf(depth, x)], i, Shift(depth, x), v, j, Shift(depth, x'));
      if i == j {
        SameByteAndSlot(depth, x, x');
      }
    } else {
      assert OrSample(depth, row, x, v)[ByteOf(depth, x')] == row[ByteOf(depth, x')];
    }
  }

  lemma ByteAfterOr(depth: nat, b: byte, i: nat, s: nat, v: byte, j: nat, t: nat)
    requires IsPacked(depth) && v < Range(depth) && s == depth * i && t == depth * j
    requires ShiftOut(depth, b, s) == 0 && ShiftLeft(v, s) < 256
    ensures ShiftOut(depth, OrByte(b, ShiftLeft(v, s)), t) == if i == j then v else ShiftOut(depth, b, t)
  {
    PowOfDigit(depth, i);
    ShiftLeftIsProduct(v, s);
    DigitIsShift(depth, b, i);
    DisjointFromZeroDigit(depth, b, v, i);
    OrOfDisjoint(b, v * Pow(Range(depth), i));
    FillDigit(depth, b, v, i, j);
    DigitIsShift(depth, b, j);
    DigitIsShift(depth, b + v * Pow(Range(depth), i), j);
  }

  lemma ZeroSample(depth: nat, row: seq<byte>, x: nat)
    requires IsPacked(depth) && ByteOf(depth, x) < |row| && row[ByteOf(depth, x)] == 0
    ensures SampleAt(depth, row, x) == 0
  {
    assert ShiftRight(0, Shift(depth, x)) == 0;
  }

  /** How the shift and the byte position move from one sample to the next. */
  lemma {:induction false} ShiftNext(depth: nat, x: nat)
    requires IsPacked(depth)
    ensures Shift(depth, x) >= depth ==>
              Shift(depth, x + 1) == Shift(depth, x) - depth && ByteOf(depth, x + 1) == ByteOf(depth, x)
    ensures Shift(depth, x) < depth ==>
              Shift(depth, x + 1) == 8 - depth && ByteOf(depth, x + 1) == ByteOf(depth, x) + 1
    decreases x
  {
    if x >= PerByte(depth) {
      ShiftNext(depth, x - PerByte(depth));
    } else if x + 1 == PerByte(depth) {
      assert SlotOf(depth, x + 1) == SlotOf(depth, 0) == 0 && ByteOf(depth, x + 1) == 1 + ByteOf(depth, 0);
    }
  }

  /** struct spng__iter: a position in a packed row. */
  class SampleIterator {
    const depth: nat
    const samples: array<byte>
    var at: nat
    var shift: nat
    ghost var index: nat

    ghost predicate Valid()
      reads this
    {
      IsPacked(depth) && at == ByteOf(depth, index) && shift == Shift(depth, index)
    }

    /** spng__iter_init. */
    constructor (bitDepth: nat, row: array<byte>)
      requires IsPacked(bitDepth)
      ensures Valid() && depth == bitDepth && samples == row && index == 0
    {
      depth, samples := bitDepth, row;
      at, shift, index := 0, 8 - bitDepth, 0;
    }

    /** get_sample. */
    method GetSample() returns (x: byte)
      requires Valid() && at < samples.Length
      modifies this
      ensures Valid() && index == old(index) + 1
      ensures x == SampleAt(depth, samples[..], old(index))
    {
      x := ShiftOut(depth, samples[at], shift);
      ShiftNext(depth, index);
      if shift >= depth {
        shift := shift - depth;
      } else {
        shift, at := 8 - depth, at + 1;
      }
      index := index + 1;
    }
  }
}
