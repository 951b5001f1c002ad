/** Conversion of rows of 16-bit samples between host order and the big-endian order of a PNG
    stream, on a little-endian host (kernel/lib/spng.c). */
module ByteOrder {
  import opened Bytes
  import opened ScanlineFilter

  /** The position whose byte lands on i when the two bytes of every whole sample are exchanged. */
  function Partner(i: nat, n: nat): (j: nat)
    requires i < n
    ensures j < n
  {
    if i % 2 == 1 then i - 1 else if i + 1 < n then i + 1 else i
  }

  function SwapPairs(s: seq<byte>): (r: seq<byte>)
    ensures |r| == |s|
  {
    seq(|s|, i requires 0 <= i < |s| => s[Partner(i, |s|)])
  }

  lemma SwapTwice(s: seq<byte>)
    ensures SwapPairs(SwapPairs(s)) == s
  {
    forall i | 0 <= i < |s| ensures SwapPairs(SwapPairs(s))[i] == s[i] {
      assert SwapPairs(SwapPairs(s))[i] == SwapPairs(s)[Partner(i, |s|)];
    }
  }

  /** The value of sample k of a row in big-endian order, and of one in the host's order. */
  function BigEndian(s: seq<byte>, k: nat): nat
    requires 2 * k + 1 < |s|
  {
    U16(s[2 * k], s[2 * k + 1])
  }

  function LittleEndian(s: seq<byte>, k: nat): nat
    requires 2 * k + 1 < |s|
  {
    U16(s[2 * k + 1], s[2 * k])
  }

  /** Exchanging the bytes is the conversion in both directions: it keeps the value of every sample. */
  lemma SwapConverts(s: seq<byte>, k: nat)
    requires 2 * k + 1 < |s|
    ensures LittleEndian(SwapPairs(s), k) == BigEndian(s, k)
    ensures BigEndian(SwapPairs(s), k) == LittleEndian(s, k)
  {
    assert Partner(2 * k, |s|) == 2 * k + 1 && Partner(2 * k + 1, |s|) == 2 * k;
  }

  lemma U16Bytes(high: byte, low: byte)
    ensures U16(high, low) / 256 == high && U16(high, low) % 256 == low
  {
  }

  /** The first `pairs` samples of `row` are those of `was` with their bytes exchanged. */
  ghost predicate SwappedUpTo(was: seq<byte>, row: seq<byte>, pairs: nat) {
    |row| == |was| && 2 * pairs <= |row| &&
    (forall k :: 0 <= k < pairs ==> row[2 * k] == was[2 * k + 1] && row[2 * k + 1] == was[2 * k]) &&
    (forall k :: 2 * pairs <= k < |row| ==> row[k] == was[k])
  }

  lemma SwappedAll(was: seq<byte>, row: seq<byte>, size: nat)
    requires size <= |was| && SwappedUpTo(was, row, size / 2)
    ensures row == SwapPairs(was[..size]) + was[size..]
  {
    forall i | 0 <= i < size ensures row[i] == SwapPairs(was[..size])[i] {
      var k := i / 2;
      if i < 2 * (size / 2) {
        assert row[2 * k] == was[2 * k + 1] && row[2 * k + 1] == was[2 * k];
      }
    }
  }

  /** u16_row_to_host: each sample is read as big-endian and stored in the host's order. */
  method U16RowToHost(row: array<byte>, size: nat)
    requires size <= row.Length
    modifies row
    ensures row[..] == SwapPairs(old(row[..])[..size]) + old(row[..])[size..]
  {
    ghost var was := row[..];
    var n := size / 2;
    for i := 0 to n
      invariant SwappedUpTo(was, row[..], i)
    {
      var sample := U16(row[2 * i], row[2 * i + 1]);
      U16Bytes(row[2 * i], row[2 * i + 1]);
      row[2 * i], row[2 * i + 1] := sample % 256, sample / 256;
    }
    SwappedAll(was, row[..], size);
  }

  /** u16_row_to_bigendian: each sample is read in the host's order and written as big-endian. */
  method U16RowToBigEndian(row: array<byte>, size: nat)
    requires size <= row.Length
    modifies row
    ensures row[..] == SwapPairs(old(row[..])[..size]) + old(row[..])[size..]
  {
    ghost var was := row[..];
    var n := size / 2;
    for i := 0 to n
      invariant SwappedUpTo(was, row[..], i)
    {
      var sample := U16(row[2 * i + 1], row[2 * i]);
      U16Bytes(row[2 * i + 1], row[2 * i]);
      row[2 * i], row[2 * i + 1] := sample / 256, sample % 256;
    }
    SwappedAll(was, row[..], size);
  }

  /** In rows of whole 16-bit samples, with pixels of whole samples, the neighbour of the partner
      is the partner of the neighbour. */
  lemma LeftOfSwapped(s: seq<byte>, bpp: nat, i: nat)
    requires 0 < bpp && bpp % 2 == 0 && |s| % 2 == 0 && i < |s|
    ensures Left(SwapPairs(s), bpp, i) == Left(s, bpp, Partner(i, |s|))
  {
    var h := bpp / 2;
    assert bpp == 2 * h;
    var q, r := i / 2, i % 2;
    assert i == 2 * q + r;
    if i >= bpp {
      assert (i - bpp) % 2 == r by { assert i - bpp == 2 * (q - h) + r; }
    }
  }

  /** Converting a row before it is restored, against a previous row already converted, gives the
      same row as restoring it first and converting it after. */
  lemma SwapCommutesWithDefilter(filter: nat, bpp: nat, prev: seq<byte>, x: seq<byte>)
    requires 0 < bpp && bpp % 2 == 0 && |x| % 2 == 0 && |x| == |prev|
    ensures DefilterRow(filter, bpp, SwapPairs(prev), SwapPairs(x)) == SwapPairs(DefilterRow(filter, bpp, prev, x))
  {
    var row := DefilterRow(filter, bpp, prev, x);
    DefilterRestores(filter, bpp, prev, x);
    forall i | 0 <= i < |x|
      ensures SwapPairs(row)[i] == Plus(SwapPairs(x)[i], PredictAt(filter, bpp, SwapPairs(prev), SwapPairs(row), i))
    {
      var j := Partner(i, |x|);
      assert row[j] == Plus(x[j], PredictAt(filter, bpp, prev, row, j));
      LeftOfSwapped(row, bpp, i);
      LeftOfSwapped(prev, bpp, i);
    }
    RestoresUnique(filter, bpp, SwapPairs(prev), SwapPairs(x), SwapPairs(row));
  }

  /** A zero row is the same in both orders. */
  lemma SwapZeros(n: nat)
    ensures SwapPairs(Zeros(n)) == Zeros(n)
  {
  }
}
