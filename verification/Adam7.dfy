/** The subimages of an interlaced PNG and the order in which their rows are visited (kernel/lib/spng.c). */
module Adam7 {

  function XStart(pass: nat): nat {
    if pass == 1 then 4 else if pass == 3 then 2 else if pass == 5 then 1 else 0
  }

  function YStart(pass: nat): nat {
    if pass == 2 then 4 else if pass == 4 then 2 else if pass == 6 then 1 else 0
  }

  function XDelta(pass: nat): nat {
    if pass <= 1 then 8 else if pass <= 3 then 4 else if pass <= 5 then 2 else 1
  }

  function YDelta(pass: nat): nat {
    if pass <= 2 then 8 else if pass <= 4 then 4 else 2
  }

  /** Image column of column c of a subimage, and image row of its row r. */
  function X(pass: nat, c: nat): nat {
    XStart(pass) + c * XDelta(pass)
  }

  function Y(pass: nat, r: nat): nat {
    YStart(pass) + r * YDelta(pass)
  }

  /** The subimage sizes as calculate_subimages computes them. */
  function SubWidth(pass: nat, width: nat): nat {
    if pass == 0 then (width + 7) / 8
    else if pass == 1 then (width + 3) / 8
    else if pass == 2 then (width + 3) / 4
    else if pass == 3 then (width + 1) / 4
    else if pass == 4 then (width + 1) / 2
    else if pass == 5 then width / 2
    else width
  }

  function SubHeight(pass: nat, height: nat): nat {
    if pass == 0 then (height + 7) / 8
    else if pass == 1 then (height + 7) / 8
    else if pass == 2 then (height + 3) / 8
    else if pass == 3 then (height + 3) / 4
    else if pass == 4 then (height + 1) / 4
    else if pass == 5 then (height + 1) / 2
    else height / 2
  }

  /** The computed width is the number of columns the start and delta tables place inside the image. */
  lemma SubWidthCounts(pass: nat, width: nat, c: nat)
    requires pass < 7
    ensures c < SubWidth(pass, width) <==> X(pass, c) < width
  {
    if pass <= 1 {} else if pass <= 3 {} else {}
  }

  lemma SubHeightCounts(pass: nat, height: nat, r: nat)
    requires pass < 7
    ensures r < SubHeight(pass, height) <==> Y(pass, r) < height
  {
    if pass <= 2 {} else if pass <= 4 {} else {}
  }

  /** The place of a coordinate in a tile of eight: odd, twice an odd number, four. */
  predicate Odd(n: nat) {
    var r := n % 8;
    r == 1 || r == 3 || r == 5 || r == 7
  }

  predicate TwiceOdd(n: nat) {
    n % 8 == 2 || n % 8 == 6
  }

  predicate Four(n: nat) {
    n % 8 == 4
  }

  /** The subimage that a pixel belongs to. */
  function PassOf(x: nat, y: nat): nat {
    if Odd(y) then 6
    else if Odd(x) then 5
    else if TwiceOdd(y) then 4
    else if TwiceOdd(x) then 3
    else if Four(y) then 2
    else if Four(x) then 1
    else 0
  }

  /** The passes of the pixels in each tile of eight by eight, as the PNG standard draws them (section 8.2 of ISO/IEC
      15948:2003), with passes counted from 0. */
  lemma PassOfTile(x: nat, y: nat)
    ensures var r, c := y % 8, x % 8;
            PassOf(x, y) == (if r == 0 then [0, 5, 3, 5, 1, 5, 3, 5] else if r == 4 then [2, 5, 3, 5, 2, 5, 3, 5]
                             else if r == 2 || r == 6 then [4, 5, 4, 5, 4, 5, 4, 5]
                             else [6, 6, 6, 6, 6, 6, 6, 6])[c]
  {
  }

  function ColumnOf(x: nat, y: nat): nat {
    x / XDelta(PassOf(x, y))
  }

  function RowOf(x: nat, y: nat): nat {
    y / YDelta(PassOf(x, y))
  }

  lemma By2(q: nat, r: nat)
    requires r < 2
    ensures (2 * q + r) / 2 == q && (2 * q + r) % 2 == r
  {
  }

  lemma By4(q: nat, r: nat)
    requires r < 4
    ensures (4 * q + r) / 4 == q && (4 * q + r) % 4 == r
  {
  }

  lemma By8(q: nat, r: nat)
    requires r < 8
    ensures (8 * q + r) / 8 == q && (8 * q + r) % 8 == r
  {
  }

  /** Halves and quarters of a number from its eighths. */
  lemma Parts(n: nat)
    ensures var q, r := n / 8, n % 8;
            n == 8 * q + r && n / 4 == 2 * q + (if r >= 4 then 1 else 0) &&
            n / 2 == 4 * q + (if r >= 6 then 3 else if r >= 4 then 2 else if r >= 2 then 1 else 0)
    ensures n % 2 == 1 <==> Odd(n)
  {
    var q, r := n / 8, n % 8;
    if r >= 4 { By4(2 * q + 1, r - 4); } else { By4(2 * q, r); }
    if r >= 6 { By2(4 * q + 3, r - 6); } else if r >= 4 { By2(4 * q + 2, r - 4); }
    else if r >= 2 { By2(4 * q + 1, r - 2); } else { By2(4 * q, r); }
  }

  lemma Owner(x: nat, y: nat)
    ensures X(PassOf(x, y), ColumnOf(x, y)) == x && Y(PassOf(x, y), RowOf(x, y)) == y
  {
    OwnerColumn(x, y);
    OwnerRow(x, y);
  }

  lemma OwnerColumn(x: nat, y: nat)
    ensures X(PassOf(x, y), ColumnOf(x, y)) == x
  {
    Parts(x);
    var p := PassOf(x, y);
    if p <= 1 {
      assert X(p, x / 8) == XStart(p) + 8 * (x / 8);
    } else if p <= 3 {
      assert X(p, x / 4) == XStart(p) + 4 * (x / 4);
    } else if p <= 5 {
      assert X(p, x / 2) == XStart(p) + 2 * (x / 2);
    }
  }

  lemma OwnerRow(x: nat, y: nat)
    ensures Y(PassOf(x, y), RowOf(x, y)) == y
  {
    Parts(y);
    var p := PassOf(x, y);
    if p <= 2 {
      assert Y(p, y / 8) == YStart(p) + 8 * (y / 8);
    } else if p <= 4 {
      assert Y(p, y / 4) == YStart(p) + 4 * (y / 4);
    } else {
      assert Y(p, y / 2) == YStart(p) + 2 * (y / 2);
    }
  }

  lemma Of8(c: nat, start: nat)
    requires start == 0 || start == 4
    ensures var n := start + 8 * c; n % 8 == start && n / 8 == c
  {
    By8(c, start);
  }

  lemma Of4(c: nat, start: nat)
    requires start == 0 || start == 2
    ensures var n := start + 4 * c; n / 4 == c && (if start == 2 then TwiceOdd(n) else n % 8 == 0 || n % 8 == 4)
  {
    By4(c, start);
    var q, r := c / 2, c % 2;
    assert start + 4 * c == 8 * q + (4 * r + start);
    By8(q, 4 * r + start);
  }

  lemma Of2(c: nat, start: nat)
    requires start <= 1
    ensures var n := start + 2 * c; n / 2 == c && (Odd(n) <==> start == 1)
  {
    By2(c, start);
    var q, r := c / 4, c % 4;
    assert start + 2 * c == 8 * q + (2 * r + start);
    By8(q, 2 * r + start);
  }

  /** What the tables make of a column. */
  lemma ColumnPlace(pass: nat, c: nat)
    requires pass < 7
    ensures var x := X(pass, c);
            if pass <= 1 then x % 8 == 4 * pass && x / 8 == c
            else if pass <= 3 then !Odd(x) && (TwiceOdd(x) <==> pass == 3) && x / 4 == c
            else if pass <= 5 then (Odd(x) <==> pass == 5) && x / 2 == c
            else x == c
  {
    if pass <= 1 {
      assert X(pass, c) == XStart(pass) + 8 * c;
      Of8(c, XStart(pass));
    } else if pass <= 3 {
      assert X(pass, c) == XStart(pass) + 4 * c;
      Of4(c, XStart(pass));
    } else if pass <= 5 {
      assert X(pass, c) == XStart(pass) + 2 * c;
      Of2(c, XStart(pass));
    }
  }

  /** What the tables make of a row. */
  lemma RowPlace(pass: nat, r: nat)
    requires pass < 7
    ensures var y := Y(pass, r);
            if pass <= 2 then y % 8 == (if pass == 2 then 4 else 0) && y / 8 == r
            else if pass <= 4 then !Odd(y) && (TwiceOdd(y) <==> pass == 4) && y / 4 == r
            else (Odd(y) <==> pass == 6) && y / 2 == r
  {
    if pass <= 2 {
      assert Y(pass, r) == YStart(pass) + 8 * r;
      Of8(r, YStart(pass));
    } else if pass <= 4 {
      assert Y(pass, r) == YStart(pass) + 4 * r;
      Of4(r, YStart(pass));
    } else {
      assert Y(pass, r) == YStart(pass) + 2 * r;
      Of2(r, YStart(pass));
    }
  }

  /** A pixel placed by the tables has its place's pass. */
  lemma PlaceHasPass(pass: nat, c: nat, r: nat)
    requires pass < 7
    ensures PassOf(X(pass, c), Y(pass, r)) == pass
    ensures ColumnOf(X(pass, c), Y(pass, r)) == c && RowOf(X(pass, c), Y(pass, r)) == r
  {
    ColumnPlace(pass, c);
    RowPlace(pass, r);
  }

  /** Every pixel of the image has exactly one (pass, column, row), and it lies inside that subimage. */
  lemma Partition(width: nat, height: nat, x: nat, y: nat)
    requires x < width && y < height
    ensures var p, c, r := PassOf(x, y), ColumnOf(x, y), RowOf(x, y);
            p < 7 && c < SubWidth(p, width) && r < SubHeight(p, height) && X(p, c) == x && Y(p, r) == y
    ensures forall p, c, r :: 0 <= p < 7 && 0 <= c && 0 <= r && X(p, c) == x && Y(p, r) == y ==>
              p == PassOf(x, y) && c == ColumnOf(x, y) && r == RowOf(x, y)
  {
    Owner(x, y);
    SubWidthCounts(PassOf(x, y), width, ColumnOf(x, y));
    SubHeightCounts(PassOf(x, y), height, RowOf(x, y));
    forall p, c, r | 0 <= p < 7 && 0 <= c && 0 <= r && X(p, c) == x && Y(p, r) == y
      ensures p == PassOf(x, y) && c == ColumnOf(x, y) && r == RowOf(x, y)
    {
      PlaceHasPass(p, c, r);
    }
  }

  function Area(pass: nat, width: nat, height: nat): nat {
    SubWidth(pass, width) * SubHeight(pass, height)
  }

  lemma Halves(n: nat)
    ensures (n + 7) / 8 + (n + 3) / 8 == (n + 3) / 4
    ensures (n + 3) / 4 + (n + 1) / 4 == (n + 1) / 2
    ensures (n + 1) / 2 + n / 2 == n
  {
    HalvesOf8(n / 8, n % 8);
    HalvesOf4(n / 4, n % 4);
  }

  lemma HalvesOf8(q: nat, r: nat)
    requires r < 8
    ensures (8 * q + r + 7) / 8 + (8 * q + r + 3) / 8 == (8 * q + r + 3) / 4
  {
    assert (8 * q + r + 7) / 8 == q + (r + 7) / 8;
    assert (8 * q + r + 3) / 8 == q + (r + 3) / 8;
    assert (8 * q + r + 3) / 4 == 2 * q + (r + 3) / 4;
  }

  lemma HalvesOf4(q: nat, r: nat)
    requires r < 4
    ensures (4 * q + r + 3) / 4 + (4 * q + r + 1) / 4 == (4 * q + r + 1) / 2
  {
    assert (4 * q + r + 3) / 4 == q + (r + 3) / 4;
    assert (4 * q + r + 1) / 4 == q + (r + 1) / 4;
    assert (4 * q + r + 1) / 2 == 2 * q + (r + 1) / 2;
  }

  /** The subimages have as many pixels as the image: each pass doubles the columns or the rows of those before it. */
  lemma AreasSum(width: nat, height: nat)
    ensures Area(0, width, height) + Area(1, width, height) + Area(2, width, height) + Area(3, width, height)
            + Area(4, width, height) + Area(5, width, height) + Area(6, width, height) == width * height
  {
    Halves(width);
    Halves(height);
    var x0, x1, x3, x5 := (width + 7) / 8, (width + 3) / 8, (width + 1) / 4, width / 2;
    var y0, y2, y4, y6 := (height + 7) / 8, (height + 3) / 8, (height + 1) / 4, height / 2;
    assert Area(0, width, height) == x0 * y0 && Area(1, width, height) == x1 * y0;
    assert Area(2, width, height) == (x0 + x1) * y2;
    assert Area(3, width, height) == x3 * (y0 + y2);
    assert Area(4, width, height) == (x0 + x1 + x3) * y4;
    assert Area(5, width, height) == x5 * (y0 + y2 + y4);
    assert Area(6, width, height) == (x0 + x1 + x3 + x5) * y6;
    Telescope(x0, x1, x3, x5, y0, y2, y4, y6);
  }

  lemma Telescope(x0: nat, x1: nat, x3: nat, x5: nat, y0: nat, y2: nat, y4: nat, y6: nat)
    ensures x0 * y0 + x1 * y0 + (x0 + x1) * y2 + x3 * (y0 + y2) + (x0 + x1 + x3) * y4 + x5 * (y0 + y2 + y4)
            + (x0 + x1 + x3 + x5) * y6 == (x0 + x1 + x3 + x5) * (y0 + y2 + y4 + y6)
  {
    var w, h := x0 + x1 + x3 + x5, y0 + y2 + y4;
    Distribute(h, y6, w);
    Distribute(x0 + x1 + x3, x5, h);
    Distribute(y0 + y2, y4, x0 + x1 + x3);
    Distribute(x0 + x1, x3, y0 + y2);
    Distribute(y0, y2, x0 + x1);
    Distribute(x0, x1, y0);
  }

  lemma Distribute(a: nat, b: nat, n: nat)
    ensures a * n + b * n == (a + b) * n
    ensures n * a + n * b == n * (a + b)
    ensures a * n == n * a && b * n == n * b
  {
  }
}
