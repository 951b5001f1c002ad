/** The choice of a row filter by the sum of the filtered bytes' magnitudes (kernel/lib/spng.c). */
module FilterChoice {
  import opened Bytes
  import opened ScanlineFilter

  const INT32_MAX := 0x7FFF_FFFF

  /** The set of enabled filters: flag `1 << (i + 3)` enables filter i. No other bits are accepted. */
  type Choices = c: bv8 | c & 7 == 0

  function Flag(i: nat): bv8
    requires i < 5
  {
    if i == 0 then 8 else if i == 1 then 16 else if i == 2 then 32 else if i == 3 then 64 else 128
  }

  predicate Enabled(choices: Choices, i: nat)
    requires i < 5
  {
    choices & Flag(i) != 0
  }

  /** How far a filtered byte is from zero, modulo 256. */
  function Magnitude(x: byte): (m: nat)
    ensures m <= x && m <= 256 - x && (m == x || m == 256 - x)
  {
    128 - Abs(x - 128)
  }

  function Total(s: seq<byte>): (t: nat)
    ensures t <= 128 * |s|
  {
    if s == [] then 0 else Total(s[..|s| - 1]) + Magnitude(s[|s| - 1])
  }

  lemma TotalNext(s: seq<byte>, i: nat)
    requires i < |s|
    ensures Total(s[..i + 1]) == Total(s[..i]) + Magnitude(s[i])
  {
    assert s[..i + 1][..i] == s[..i];
  }

  /** The score of a filter: rows too long to be summed in `int32_t` score INT32_MAX. */
  function Score(filter: nat, bpp: nat, prev: seq<byte>, row: seq<byte>): (s: nat)
    requires 0 < bpp && |row| <= |prev|
    ensures s <= INT32_MAX
  {
    if |row| > INT32_MAX / 128 then INT32_MAX else Total(FilterRow(filter, bpp, prev, row))
  }

  /** Rows of up to 16777215 bytes score the sum of their filtered bytes' magnitudes, and longer ones 2^31 - 1. */
  lemma ScoreIs(filter: nat, bpp: nat, prev: seq<byte>, row: seq<byte>)
    requires 0 < bpp && |row| <= |prev|
    ensures Score(filter, bpp, prev, row)
         == if |row| > 16777215 then 0x7FFF_FFFF else Total(FilterRow(filter, bpp, prev, row))
  {
    assert 0x7FFF_FFFF / 128 == 16777215;
  }

  /** filter_sum. The running sum never leaves `int32_t`. */
  method FilterSum(prev: array<byte>, scanline: array<byte>, size: nat, bpp: nat, filter: nat)
    returns (score: int)
    requires 0 < bpp && size <= prev.Length && size <= scanline.Length
    ensures score == Score(filter, bpp, prev[..], scanline[..size])
  {
    if size > INT32_MAX / 128 { return INT32_MAX; }
    ghost var f := FilterRow(filter, bpp, prev[..], scanline[..size]);
    var sum := 0;
    for i := 0 to size
      invariant sum == Total(f[..i]) && 0 <= sum <= 128 * i <= INT32_MAX
    {
      var a, b, c := 0, prev[i], 0;
      if i >= bpp {
        a, c := scanline[i - bpp], prev[i - bpp];
      }
      var x: int := Minus(scanline[i], Predict(filter, a, b, c));
      assert x == f[i];
      TotalNext(f, i);
      sum := sum + (128 - Abs(x - 128));
    }
    assert f[..size] == f;
    return sum;
  }

  /** The best of filters i, i + 1, ..., 4 and its score, when `best` with `score` is the best of those before. */
  function BestFrom(i: nat, best: nat, score: nat, choices: Choices, bpp: nat, prev: seq<byte>, row: seq<byte>)
    : (nat, nat)
    requires i <= 5 && 0 < bpp && |row| <= |prev|
    decreases 5 - i
  {
    if i == 5 then (best, score)
    else if Enabled(choices, i) && Score(i, bpp, prev, row) < score then
      BestFrom(i + 1, i, Score(i, bpp, prev, row), choices, bpp, prev, row)
    else BestFrom(i + 1, best, score, choices, bpp, prev, row)
  }

  /** The filter an encoder uses for a row. */
  function BestFilter(choices: Choices, bpp: nat, prev: seq<byte>, row: seq<byte>): nat
    requires 0 < bpp && |row| <= |prev|
  {
    if choices == 0 then NONE
    else if choices == 8 then NONE
    else if choices == 16 then SUB
    else if choices == 32 then UP
    else if choices == 64 then AVERAGE
    else if choices == 128 then PAETH
    else BestFrom(0, NONE, INT32_MAX, choices, bpp, prev, row).0
  }

  /** get_best_filter. */
  method GetBestFilter(prev: array<byte>, scanline: array<byte>, width: nat, bpp: nat, choices: Choices)
    returns (filter: nat)
    requires 0 < bpp && 0 < width <= prev.Length + 1 && width <= scanline.Length + 1
    ensures filter == BestFilter(choices, bpp, prev[..], scanline[..width - 1])
  {
    if choices == 0 { return NONE; }
    var size := width - 1;
    if choices & (choices - 1) == 0 {
      SingleFlag(choices);
      for i := 0 to 5
        invariant i > 0 ==> choices != 8
        invariant i > 1 ==> choices != 16
        invariant i > 2 ==> choices != 32
        invariant i > 3 ==> choices != 64
        invariant i > 4 ==> choices != 128
      {
        if choices == Flag(i) { return i; }
      }
      assert false;
    }
    var best, bestScore := 0, INT32_MAX;
    ghost var p, row := prev[..], scanline[..size];
    for i := 0 to 5
      invariant 0 <= bestScore
      invariant BestFrom(i, best, bestScore, choices, bpp, p, row) == BestFrom(0, NONE, INT32_MAX, choices, bpp, p, row)
    {
      if choices & Flag(i) != 0 {
        var sum := FilterSum(prev, scanline, size, bpp, i);
        var score := Abs(sum);
        if score < bestScore {
          best, bestScore := i, score;
        }
      }
    }
    SeveralFlags(choices);
    return best;
  }

  lemma SingleFlag(c: Choices)
    requires c != 0 && c & (c - 1) == 0
    ensures c in {8, 16, 32, 64, 128}
  {
  }

  lemma SeveralFlags(c: Choices)
    requires c != 0 && c & (c - 1) != 0
    ensures c !in {8, 16, 32, 64, 128}
  {
  }

  /** The filter and score found so far: none, or an enabled filter with its score. */
  ghost predicate Candidate(best: nat, score: nat, choices: Choices, bpp: nat, prev: seq<byte>, row: seq<byte>)
    requires 0 < bpp && |row| <= |prev|
  {
    (best == NONE && score == INT32_MAX) ||
    (best < 5 && Enabled(choices, best) && score == Score(best, bpp, prev, row) < INT32_MAX)
  }

  /** No enabled filter scores less than the one returned. */
  lemma {:induction false} BestFromIsLeast(i: nat, best: nat, score: nat, choices: Choices, bpp: nat, prev: seq<byte>,
                                           row: seq<byte>)
    requires i <= 5 && 0 < bpp && |row| <= |prev|
    requires Candidate(best, score, choices, bpp, prev, row)
    ensures var r := BestFrom(i, best, score, choices, bpp, prev, row);
            Candidate(r.0, r.1, choices, bpp, prev, row) && r.1 <= score && (r.1 == score ==> r.0 == best) &&
            (r.1 < score ==> i <= r.0) &&
            (forall k :: i <= k < 5 && Enabled(choices, k) ==> r.1 <= Score(k, bpp, prev, row)) &&
            forall k :: i <= k < r.0 && r.1 < score && Enabled(choices, k) ==> r.1 < Score(k, bpp, prev, row)
    decreases 5 - i
  {
    hide Score, Enabled;
    if i < 5 {
      if Enabled(choices, i) && Score(i, bpp, prev, row) < score {
        BestFromIsLeast(i + 1, i, Score(i, bpp, prev, row), choices, bpp, prev, row);
      } else {
        BestFromIsLeast(i + 1, best, score, choices, bpp, prev, row);
      }
    }
  }

  /** With several filters enabled, an enabled filter of least score is chosen whenever the scores can be computed. */
  lemma BestFilterIsLeast(choices: Choices, bpp: nat, prev: seq<byte>, row: seq<byte>)
    requires 0 < bpp && |row| <= |prev| && choices & (choices - 1) != 0
    requires exists k :: 0 <= k < 5 && Enabled(choices, k) && Score(k, bpp, prev, row) < INT32_MAX
    ensures var r := BestFilter(choices, bpp, prev, row);
            r < 5 && Enabled(choices, r) &&
            forall k :: 0 <= k < 5 && Enabled(choices, k) ==> Score(r, bpp, prev, row) <= Score(k, bpp, prev, row)
  {
    NotSingle(choices);
    BestFromIsLeast(0, NONE, INT32_MAX, choices, bpp, prev, row);
  }

  /** Exactly: a single enabled filter is taken as it is; of several the first of least score, or None if no score is
      below 2^31 - 1. */
  lemma BestFilterIsFirst(choices: Choices, bpp: nat, prev: seq<byte>, row: seq<byte>, k: nat)
    requires 0 < bpp && |row| <= |prev| && k < 5
    ensures choices == 0 ==> BestFilter(choices, bpp, prev, row) == 0
    ensures choices == (if k == 0 then 8 else if k == 1 then 16 else if k == 2 then 32 else if k == 3 then 64 else 128)
            ==> BestFilter(choices, bpp, prev, row) == k
    ensures var r := BestFilter(choices, bpp, prev, row);
            choices & (choices - 1) != 0 && Enabled(choices, k) && Score(k, bpp, prev, row) < 0x7FFF_FFFF ==>
              r < 5 && Enabled(choices, r) && Score(r, bpp, prev, row) <= Score(k, bpp, prev, row) &&
              (k < r ==> Score(r, bpp, prev, row) < Score(k, bpp, prev, row))
    ensures choices & (choices - 1) != 0 &&
            (forall j :: 0 <= j < 5 && Enabled(choices, j) ==> Score(j, bpp, prev, row) == 0x7FFF_FFFF) ==>
              BestFilter(choices, bpp, prev, row) == 0
  {
    if choices & (choices - 1) != 0 {
      NotSingle(choices);
      BestFromIsLeast(0, NONE, INT32_MAX, choices, bpp, prev, row);
    }
  }

  lemma NotSingle(c: Choices)
    requires c & (c - 1) != 0
    ensures c !in {0, 8, 16, 32, 64, 128}
  {
  }

  /** Whatever the scores, a filter that needs the previous row is only returned if it was enabled. */
  lemma ChosenIsLegal(choices: Choices, bpp: nat, prev: seq<byte>, row: seq<byte>)
    requires 0 < bpp && |row| <= |prev|
    ensures var r := BestFilter(choices, bpp, prev, row);
            r <= PAETH && (r >= UP ==> Enabled(choices, r))
  {
    if choices !in {0, 8, 16, 32, 64, 128} {
      BestFromIsLeast(0, NONE, INT32_MAX, choices, bpp, prev, row);
    }
  }

  /** Rows that filter to the same bytes under every enabled filter get the same choice. */
  lemma SameScoresSameChoice(choices: Choices, bpp: nat, prev: seq<byte>, prev': seq<byte>, row: seq<byte>)
    requires 0 < bpp && |row| <= |prev| && |row| <= |prev'|
    requires forall k :: 0 <= k < 5 && Enabled(choices, k) ==>
               FilterRow(k, bpp, prev, row) == FilterRow(k, bpp, prev', row)
    ensures BestFilter(choices, bpp, prev, row) == BestFilter(choices, bpp, prev', row)
  {
    SameScoresFrom(0, NONE, INT32_MAX, choices, bpp, prev, prev', row);
  }

  lemma {:induction false} SameScoresFrom(i: nat, best: nat, score: nat, choices: Choices, bpp: nat,
                                          prev: seq<byte>, prev': seq<byte>, row: seq<byte>)
    requires i <= 5 && 0 < bpp && |row| <= |prev| && |row| <= |prev'|
    requires forall k :: 0 <= k < 5 && Enabled(choices, k) ==>
               FilterRow(k, bpp, prev, row) == FilterRow(k, bpp, prev', row)
    ensures BestFrom(i, best, score, choices, bpp, prev, row) == BestFrom(i, best, score, choices, bpp, prev', row)
    decreases 5 - i
  {
    if i < 5 {
      if Enabled(choices, i) {
        assert Score(i, bpp, prev, row) == Score(i, bpp, prev', row);
        SameScoresFrom(i + 1, i, Score(i, bpp, prev, row), choices, bpp, prev, prev', row);
      }
      SameScoresFrom(i + 1, best, score, choices, bpp, prev, prev', row);
    }
  }

  /** Whether a filter that looks at the row above is enabled: Up, Average or Paeth. */
  predicate RequiresPrevious(choices: Choices) {
    choices & 224 != 0
  }

  lemma NoPreviousMeansLow(choices: Choices, k: nat)
    requires k < 5 && !RequiresPrevious(choices) && Enabled(choices, k)
    ensures k <= SUB
  {
  }

  /** The row above may hold anything beyond the row's length, and anything at all if no enabled filter looks at it:
      the choice and the filtered bytes are the same. */
  lemma SamePrevSameResult(choices: Choices, bpp: nat, prev: seq<byte>, prev': seq<byte>, row: seq<byte>)
    requires 0 < bpp && |row| <= |prev| && |row| <= |prev'|
    requires !RequiresPrevious(choices) || prev[..|row|] == prev'[..|row|]
    ensures var f := BestFilter(choices, bpp, prev, row);
            f == BestFilter(choices, bpp, prev', row) && FilterRow(f, bpp, prev, row) == FilterRow(f, bpp, prev', row)
  {
    forall k | 0 <= k < 5 && Enabled(choices, k)
      ensures FilterRow(k, bpp, prev, row) == FilterRow(k, bpp, prev', row)
    {
      if RequiresPrevious(choices) {
        PrevPrefix(k, bpp, prev, prev', row);
      } else {
        NoPreviousMeansLow(choices, k);
        PrevUnused(k, bpp, prev, prev', row);
      }
    }
    SameScoresSameChoice(choices, bpp, prev, prev', row);
    ChosenIsLegal(choices, bpp, prev, row);
    var f := BestFilter(choices, bpp, prev, row);
    if f <= SUB {
      PrevUnused(f, bpp, prev, prev', row);
    }
  }
}
