/** The order in which the rows of an image are coded (update_row_info, kernel/lib/spng.c). */
module RowOrder {
  import opened ImageHeader
  import Adam7

  /** Row idx of a pass. */
  datatype Pos = Pos(pass: nat, idx: nat)

  datatype Next = Row(pos: Pos) | End

  predicate IsRow(h: Ihdr, p: Pos) {
    p.pass < 7 && NonEmpty(h, p.pass) && p.idx < h.SubHeight(p.pass)
  }

  predicate Less(p: Pos, q: Pos) {
    p.pass < q.pass || (p.pass == q.pass && p.idx < q.idx)
  }

  /** The first non-empty pass from `pass` on, or 7. */
  function PassFrom(h: Ihdr, pass: nat): (q: nat)
    requires pass <= 7
    ensures pass <= q <= 7 && (q < 7 ==> NonEmpty(h, q)) && forall p :: pass <= p < q ==> !NonEmpty(h, p)
    decreases 7 - pass
  {
    if pass == 7 || NonEmpty(h, pass) then pass else PassFrom(h, pass + 1)
  }

  const FIRST := Pos(0, 0)

  function NextRow(h: Ihdr, p: Pos): Next
    requires p.pass < 7
  {
    if p.idx + 1 < h.SubHeight(p.pass) then Row(Pos(p.pass, p.idx + 1))
    else
      var q := PassFrom(h, p.pass + 1);
      if q == 7 then End else Row(Pos(q, 0))
  }

  lemma FirstIsRow(h: Ihdr)
    requires h.Valid()
    ensures IsRow(h, FIRST)
  {
    FirstPassNonEmpty(h);
  }

  /** The next row is the least row after the current one, so no row is skipped or visited twice,
      and the end is announced only after the last. */
  lemma NextIsLeast(h: Ihdr, p: Pos)
    requires IsRow(h, p)
    ensures NextRow(h, p).Row? ==>
              IsRow(h, NextRow(h, p).pos) && Less(p, NextRow(h, p).pos) &&
              forall q :: IsRow(h, q) && Less(p, q) ==> q == NextRow(h, p).pos || Less(NextRow(h, p).pos, q)
    ensures NextRow(h, p).End? ==> forall q :: IsRow(h, q) ==> !Less(p, q)
  {
  }

  /** All rows from p on, in the order of the cursor. */
  function RowsFrom(h: Ihdr, p: Pos): seq<Pos>
    requires IsRow(h, p)
    decreases 7 - p.pass, h.SubHeight(p.pass) - p.idx
  {
    NextIsLeast(h, p);
    [p] + match NextRow(h, p)
          case End => []
          case Row(q) => RowsFrom(h, q)
  }

  /** The cursor visits exactly the rows of the non-empty passes, each once, pass by pass from top to bottom. */
  lemma {:induction false} VisitsEachRowOnce(h: Ihdr, p: Pos)
    requires IsRow(h, p)
    ensures var s := RowsFrom(h, p);
            (forall q :: q in s <==> IsRow(h, q) && !Less(q, p)) &&
            (forall i, j :: 0 <= i < j < |s| ==> Less(s[i], s[j]))
    decreases 7 - p.pass, h.SubHeight(p.pass) - p.idx
  {
    NextIsLeast(h, p);
    match NextRow(h, p)
    case End =>
      assert RowsFrom(h, p) == [p];
    case Row(n) =>
      VisitsEachRowOnce(h, n);
      var s, t := RowsFrom(h, p), RowsFrom(h, n);
      assert s == [p] + t;
      forall q ensures q in s <==> IsRow(h, q) && !Less(q, p) {
        assert q in s <==> q == p || q in t;
      }
      forall x | x in t ensures Less(p, x) {
        assert !Less(x, n);
      }
      InFront(p, t);
  }

  lemma InFront(p: Pos, t: seq<Pos>)
    requires forall i, j :: 0 <= i < j < |t| ==> Less(t[i], t[j])
    requires forall x :: x in t ==> Less(p, x)
    ensures var s := [p] + t; forall i, j :: 0 <= i < j < |s| ==> Less(s[i], s[j])
  {
    var s := [p] + t;
    forall i, j | 0 <= i < j < |s| ensures Less(s[i], s[j]) {
      assert s[j] == t[j - 1] && s[j] in t;
      if i > 0 { assert s[i] == t[i - 1]; }
    }
  }

  lemma NothingAfterLast(h: Ihdr, last: nat)
    requires IsLastPass(h, last)
    ensures PassFrom(h, last + 1) == 7 && forall p :: 0 <= p < 7 && NonEmpty(h, p) ==> p <= last
  {
  }

  /** The row of the image that a visited row belongs to is inside the image. */
  lemma ImageRowInside(h: Ihdr, p: Pos)
    requires IsRow(h, p)
    ensures h.ImageRow(p.pass, p.idx) < h.height
  {
    if h.interlaced {
      Adam7.SubHeightCounts(p.pass, h.height, p.idx);
    }
  }

  /** The row_info part of a codec context. */
  class RowInfo {
    const h: Ihdr
    const lastPass: nat
    var pass: nat
    var scanlineIdx: nat
    var rowNum: nat

    function Position(): Pos
      reads this
    {
      Pos(pass, scanlineIdx)
    }

    ghost predicate LastPassIsLast() {
      h.Valid() && IsLastPass(h, lastPass)
    }

    ghost predicate Valid()
      reads this
    {
      LastPassIsLast() && IsRow(h, Position()) && rowNum == h.ImageRow(pass, scanlineIdx)
    }

    /** The start of an image: the first row of the first pass that has pixels. */
    constructor (header: Ihdr, last: nat)
      requires header.Valid() && IsLastPass(header, last)
      ensures h == header && lastPass == last && Valid() && Position() == FIRST && rowNum == h.ImageRow(0, 0)
    {
      h, lastPass := header, last;
      var first := 0;
      while header.SubWidth(first) == 0 || header.SubHeight(first) == 0
        invariant first <= last && forall p :: 0 <= p < first ==> !NonEmpty(header, p)
        decreases last - first
      {
        first := first + 1;
      }
      FirstPassNonEmpty(header);
      pass, scanlineIdx := first, 0;
      rowNum := if header.interlaced then Adam7.YStart(first) else 0;
    }

    /** update_row_info; the result says whether the image has ended (SPNG_EOI). */
    method Update() returns (eoi: bool)
      requires Valid()
      modifies this
      ensures eoi <==> NextRow(h, old(Position())).End?
      ensures eoi ==> Position() == old(Position()) && rowNum == old(rowNum)
      ensures !eoi ==> Valid() && Position() == NextRow(h, old(Position())).pos
    {
      if scanlineIdx == h.SubHeight(pass) - 1 {
        NothingAfterLast(h, lastPass);
        if pass == lastPass { return true; }
        scanlineIdx := 0;
        pass := pass + 1;
        ghost var next := PassFrom(h, pass);
        while (h.SubWidth(pass) == 0 || h.SubHeight(pass) == 0) && pass < lastPass
          invariant pass <= lastPass && scanlineIdx == 0 && PassFrom(h, pass) == next
          decreases lastPass - pass
        {
          assert !NonEmpty(h, pass);
          pass := pass + 1;
        }
        assert NonEmpty(h, pass) && next == pass;
      } else {
        rowNum := rowNum + 1;
        scanlineIdx := scanlineIdx + 1;
      }
      if h.interlaced {
        rowNum := Adam7.YStart(pass) + scanlineIdx * Adam7.YDelta(pass);
      }
      return false;
    }
  }
}
