/**
 * Coordinate mapping of the collision grid: cells and cell rectangles,
 * clamping onto the grid, world positions to cells, and the row-major
 * enumeration of a cell rectangle that `FillList` produces.
 */
module Cells {

  import Lists

  /** An XNA `Point`: a cell coordinate, or a cell-count size. */
  datatype Point = Point(x: int, y: int)

  /** An XNA `Rectangle` in cell coordinates: a location and a size. */
  datatype Rectangle = Rectangle(location: Point, size: Point)

  /** An XNA `Vector2`: a world position. */
  datatype Vector2 = Vector2(x: real, y: real)

  /** A world-space axis-aligned box, given by its two corners. */
  datatype Rect = Rect(topLeft: Vector2, bottomRight: Vector2)

  /** The cell counts of a grid, `NumberOfCellsX` by `NumberOfCellsY`. */
  datatype Extent = Extent(numberOfCellsX: int, numberOfCellsY: int)
  {
    predicate Ok() { numberOfCellsX >= 1 && numberOfCellsY >= 1 }
  }

  predicate InBounds(p: Point, e: Extent)
  {
    0 <= p.x < e.numberOfCellsX && 0 <= p.y < e.numberOfCellsY
  }

  /** The last cell a rectangle covers: `Location + Size - (1, 1)`. */
  function Corner(r: Rectangle): Point
  {
    Point(r.location.x + r.size.x - 1, r.location.y + r.size.y - 1)
  }

  /** The cells a rectangle covers, as a predicate. */
  predicate Covers(r: Rectangle, p: Point)
  {
    r.location.x <= p.x < r.location.x + r.size.x &&
    r.location.y <= p.y < r.location.y + r.size.y
  }

  function Abs(v: int): nat { if v < 0 then -v else v }

  /** One axis of `Clamp(Point)`: the upper bound is applied first, then the lower. */
  function ClampAxis(v: int, n: int): (r: int)
    ensures n >= 1 ==> 0 <= r < n
    ensures 0 <= v < n ==> r == v
  {
    var a := if v >= n then n - 1 else v;
    if a < 0 then 0 else a
  }

  /** `Clamp(Point)`: any cell coordinate onto the grid. */
  function Clamp(p: Point, e: Extent): (r: Point)
    ensures e.Ok() ==> InBounds(r, e)
    ensures InBounds(p, e) ==> r == p
  {
    Point(ClampAxis(p.x, e.numberOfCellsX), ClampAxis(p.y, e.numberOfCellsY))
  }

  /** Clamping picks the in-range coordinate nearest to the input. */
  lemma ClampNearest(v: int, n: int, w: int)
    requires n >= 1 && 0 <= w < n
    ensures Abs(v - ClampAxis(v, n)) <= Abs(v - w)
  {
  }

  lemma ClampIdempotent(p: Point, e: Extent)
    requires e.Ok()
    ensures Clamp(Clamp(p, e), e) == Clamp(p, e)
  {
  }

  lemma ClampMonotone(a: int, b: int, n: int)
    requires a <= b
    ensures ClampAxis(a, n) <= ClampAxis(b, n)
  {
  }

  /**
   * `Clamp(Rectangle)`: both corners are clamped on their own and the size
   * is recomputed from the clamped corners.
   */
  function ClampRect(r: Rectangle, e: Extent): (q: Rectangle)
    ensures q.location == Clamp(r.location, e)
    ensures Corner(q) == Clamp(Corner(r), e)
  {
    var tl := Clamp(r.location, e);
    var br := Clamp(Corner(r), e);
    Rectangle(tl, Point(br.x - tl.x + 1, br.y - tl.y + 1))
  }

  /** A non-empty rectangle stays non-empty and lies on the grid once clamped, wherever it was. */
  lemma ClampRectNonEmpty(r: Rectangle, e: Extent)
    requires e.Ok() && r.size.x >= 1 && r.size.y >= 1
    ensures ClampRect(r, e).size.x >= 1 && ClampRect(r, e).size.y >= 1
    ensures InBounds(ClampRect(r, e).location, e) && InBounds(Corner(ClampRect(r, e)), e)
  {
    ClampMonotone(r.location.x, Corner(r).x, e.numberOfCellsX);
    ClampMonotone(r.location.y, Corner(r).y, e.numberOfCellsY);
  }

  /** The C# `(int)` conversion of a float: truncation toward zero. */
  function Trunc(v: real): (r: int)
    ensures v >= 0.0 ==> 0 <= r && r as real <= v < r as real + 1.0
    ensures v < 0.0 ==> r <= 0 && r as real - 1.0 < v <= r as real
  {
    if v >= 0.0 then v.Floor else -((-v).Floor)
  }

  lemma TruncMonotone(a: real, b: real)
    requires a <= b
    ensures Trunc(a) <= Trunc(b)
  {
  }

  /** Truncation and flooring differ only on (-1, 0) and so agree once clamped. */
  lemma ClampTruncIsClampFloor(v: real, n: int)
    ensures ClampAxis(Trunc(v), n) == ClampAxis(v.Floor, n)
  {
    if v < 0.0 {
      assert v.Floor < 0;
      assert Trunc(v) <= 0;
      if Trunc(v) == 0 {
        assert ClampAxis(0, n) == 0;
      }
    }
  }

  lemma DivMonotone(a: real, b: real, c: real)
    requires a <= b && c > 0.0
    ensures a / c <= b / c
  {
    assert b / c - a / c == (b - a) / c;
  }

  /** `Cell(Vector2)`: the (unclamped) cell containing a world position. */
  function Cell(position: Vector2, cellWidth: real, cellHeight: real): Point
    requires cellWidth > 0.0 && cellHeight > 0.0
  {
    Point(Trunc(position.x / cellWidth), Trunc(position.y / cellHeight))
  }

  /** `Rectangle(Rect)`: the cell rectangle from the cell of one corner to the cell of the other. */
  function RectangleOf(rect: Rect, cellWidth: real, cellHeight: real): (r: Rectangle)
    requires cellWidth > 0.0 && cellHeight > 0.0
    ensures r.location == Cell(rect.topLeft, cellWidth, cellHeight)
    ensures Corner(r) == Cell(rect.bottomRight, cellWidth, cellHeight)
  {
    var tl := Cell(rect.topLeft, cellWidth, cellHeight);
    var br := Cell(rect.bottomRight, cellWidth, cellHeight);
    Rectangle(tl, Point(br.x - tl.x + 1, br.y - tl.y + 1))
  }

  /** A box whose top-left corner is not beyond its bottom-right one covers at least one cell. */
  lemma RectangleOfNonEmpty(rect: Rect, cellWidth: real, cellHeight: real)
    requires cellWidth > 0.0 && cellHeight > 0.0
    requires rect.topLeft.x <= rect.bottomRight.x && rect.topLeft.y <= rect.bottomRight.y
    ensures RectangleOf(rect, cellWidth, cellHeight).size.x >= 1
    ensures RectangleOf(rect, cellWidth, cellHeight).size.y >= 1
  {
    DivMonotone(rect.topLeft.x, rect.bottomRight.x, cellWidth);
    DivMonotone(rect.topLeft.y, rect.bottomRight.y, cellHeight);
    TruncMonotone(rect.topLeft.x / cellWidth, rect.bottomRight.x / cellWidth);
    TruncMonotone(rect.topLeft.y / cellHeight, rect.bottomRight.y / cellHeight);
  }

  // ----- FillList: the cells of a rectangle, rows outer, columns inner -----

  /** The first `w` cells of row `y`, starting at column `x0`. */
  function Row(x0: int, y: int, w: int): seq<Point>
    decreases w
  {
    if w <= 0 then [] else Row(x0, y, w - 1) + [Point(x0 + w - 1, y)]
  }

  /** The first `h` rows of `r`, each `r.size.x` cells wide. */
  function Rows(r: Rectangle, h: int): seq<Point>
    decreases h
  {
    if h <= 0 then [] else Rows(r, h - 1) + Row(r.location.x, r.location.y + h - 1, r.size.x)
  }

  /** One more step of the inner loop of `FillList`. */
  lemma RowStep(x0: int, y: int, w: int)
    requires w >= 0
    ensures Row(x0, y, w + 1) == Row(x0, y, w) + [Point(x0 + w, y)]
  {
  }

  /** One more step of the outer loop of `FillList`. */
  lemma RowsStep(r: Rectangle, h: int)
    requires h >= 0
    ensures Rows(r, h + 1) == Rows(r, h) + Row(r.location.x, r.location.y + h, r.size.x)
  {
  }

  /** All cells of `r` in row-major order. */
  function Span(r: Rectangle): seq<Point>
  {
    Rows(r, r.size.y)
  }

  lemma {:induction false} RowMembers(x0: int, y: int, w: int)
    ensures forall p :: p in Row(x0, y, w) <==> p.y == y && x0 <= p.x < x0 + w
    ensures |Row(x0, y, w)| == if w <= 0 then 0 else w
    decreases w
  {
    if w > 0 {
      RowMembers(x0, y, w - 1);
    }
  }

  lemma {:induction false} RowAt(x0: int, y: int, w: int, k: int)
    requires 0 <= k < w
    ensures |Row(x0, y, w)| == w && Row(x0, y, w)[k] == Point(x0 + k, y)
    decreases w
  {
    RowMembers(x0, y, w);
    if k < w - 1 {
      RowAt(x0, y, w - 1, k);
    }
  }

  lemma {:induction false} RowNoDup(x0: int, y: int, w: int)
    ensures Lists.NoDup(Row(x0, y, w))
    decreases w
  {
    if w > 0 {
      RowNoDup(x0, y, w - 1);
      RowMembers(x0, y, w - 1);
      Lists.AppendNoDup(Row(x0, y, w - 1), Point(x0 + w - 1, y));
    }
  }

  lemma {:induction false} RowsMembers(r: Rectangle, h: int)
    ensures forall p :: p in Rows(r, h) <==>
      r.location.x <= p.x < r.location.x + r.size.x && r.location.y <= p.y < r.location.y + h
    decreases h
  {
    if h > 0 {
      RowsMembers(r, h - 1);
      RowMembers(r.location.x, r.location.y + h - 1, r.size.x);
    }
  }

  lemma {:induction false} RowsNoDup(r: Rectangle, h: int)
    ensures Lists.NoDup(Rows(r, h))
    decreases h
  {
    if h > 0 {
      var a := Rows(r, h - 1);
      var b := Row(r.location.x, r.location.y + h - 1, r.size.x);
      RowsNoDup(r, h - 1);
      RowNoDup(r.location.x, r.location.y + h - 1, r.size.x);
      RowsMembers(r, h - 1);
      RowMembers(r.location.x, r.location.y + h - 1, r.size.x);
      Lists.ConcatNoDup(a, b);
    }
  }

  lemma {:induction false} RowsLength(r: Rectangle, h: int)
    ensures |Rows(r, h)| == if h <= 0 || r.size.x <= 0 then 0 else h * r.size.x
    decreases h
  {
    if h > 0 {
      RowsLength(r, h - 1);
      RowMembers(r.location.x, r.location.y + h - 1, r.size.x);
      if r.size.x > 0 {
        assert h * r.size.x == (h - 1) * r.size.x + r.size.x;
      }
    }
  }

  /** The k-th cell of the first `h` rows is in row `k / w` and column `k % w`. */
  lemma {:induction false} RowsAt(r: Rectangle, h: int, k: int)
    requires r.size.x >= 1 && 0 <= k < h * r.size.x
    ensures |Rows(r, h)| == h * r.size.x
    ensures Rows(r, h)[k] == Point(r.location.x + k % r.size.x, r.location.y + k / r.size.x)
    decreases h
  {
    var w := r.size.x;
    RowsLength(r, h);
    RowsLength(r, h - 1);
    if k < (h - 1) * w {
      RowsAt(r, h - 1, k);
    } else {
      var j := k - (h - 1) * w;
      assert 0 <= j < w;
      RowAt(r.location.x, r.location.y + h - 1, w, j);
      DivModUnique(k, w, h - 1, j);
    }
  }

  lemma DivModUnique(k: int, w: int, q: int, j: int)
    requires w >= 1 && 0 <= j < w && k == q * w + j
    ensures k / w == q && k % w == j
  {
    var q', j' := k / w, k % w;
    assert k == q' * w + j';
    var d := q - q';
    assert d * w == j' - j;
    if d >= 1 {
      MulAtLeast(d, w);
    } else if d <= -1 {
      MulAtLeast(-d, w);
    }
  }

  lemma MulAtLeast(a: int, w: int)
    requires a >= 1 && w >= 1
    ensures a * w >= w
  {
    assert a * w == (a - 1) * w + w;
  }

  /** The cells of `Span(r)` are exactly those `r` covers. */
  lemma SpanMembers(r: Rectangle)
    ensures forall p :: p in Span(r) <==> Covers(r, p)
  {
    RowsMembers(r, r.size.y);
  }

  /** `FillList` yields each cell once. */
  lemma SpanNoDup(r: Rectangle)
    ensures Lists.NoDup(Span(r))
  {
    RowsNoDup(r, r.size.y);
  }

  /** `FillList` yields `Size.X * Size.Y` cells (none for a degenerate rectangle). */
  lemma SpanLength(r: Rectangle)
    ensures |Span(r)| == if r.size.x >= 1 && r.size.y >= 1 then r.size.x * r.size.y else 0
  {
    RowsLength(r, r.size.y);
  }

  /** `FillList` order: the k-th cell is in row `k / Size.X`, column `k % Size.X`. */
  lemma SpanAt(r: Rectangle, k: int)
    requires r.size.x >= 1 && r.size.y >= 1 && 0 <= k < r.size.x * r.size.y
    ensures |Span(r)| == r.size.x * r.size.y
    ensures Span(r)[k] == Point(r.location.x + k % r.size.x, r.location.y + k / r.size.x)
  {
    RowsAt(r, r.size.y, k);
  }

  /** Every cell `FillList` yields for a clamped rectangle lies on the grid, whatever the input. */
  lemma ClampedSpanInBounds(r: Rectangle, e: Extent)
    requires e.Ok()
    ensures forall p :: p in Span(ClampRect(r, e)) ==> InBounds(p, e)
  {
    SpanMembers(ClampRect(r, e));
  }

  /** The clamped rectangle of a non-empty rectangle contains its clamped location. */
  lemma ClampedSpanNonEmpty(r: Rectangle, e: Extent)
    requires e.Ok() && r.size.x >= 1 && r.size.y >= 1
    ensures Clamp(r.location, e) in Span(ClampRect(r, e))
  {
    ClampRectNonEmpty(r, e);
    SpanMembers(ClampRect(r, e));
  }

  /** On a 10 x 10 grid, cell (15, -3) is clamped onto (9, 0). */
  lemma ClampExample()
    ensures Clamp(Point(15, -3), Extent(10, 10)) == Point(9, 0)
  {
  }

  /** With 10 x 10 world-unit cells, the box (5, 5)-(25, 25) covers the 3 x 3 cells (0, 0)-(2, 2). */
  lemma RegionExample()
    ensures RectangleOf(Rect(Vector2(5.0, 5.0), Vector2(25.0, 25.0)), 10.0, 10.0)
      == Rectangle(Point(0, 0), Point(3, 3))
    ensures ClampRect(Rectangle(Point(0, 0), Point(3, 3)), Extent(10, 10))
      == Rectangle(Point(0, 0), Point(3, 3))
    ensures |Span(Rectangle(Point(0, 0), Point(3, 3)))| == 9
  {
    assert 5.0 / 10.0 == 0.5;
    assert 25.0 / 10.0 == 2.5;
    SpanLength(Rectangle(Point(0, 0), Point(3, 3)));
  }
}
