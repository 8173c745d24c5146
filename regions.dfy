/**
 * The region composer: every rectangle, box or position operation of the
 * grid is a single-cell operation applied to each cell `FillList` yields,
 * in that order.
 */
module Regions {

  import opened Lists
  import opened Cells
  import opened Index

  /** The cells `FillList(aabb)` puts in `lop`: those of the clamped rectangle, row-major. */
  function Region(aabb: Rectangle, e: Extent): seq<Point>
  {
    Span(ClampRect(aabb, e))
  }

  /** `FillList` yields each cell of the clamped rectangle exactly once, and only cells on the grid. */
  lemma RegionFacts(aabb: Rectangle, e: Extent)
    requires e.Ok()
    ensures NoDup(Region(aabb, e))
    ensures forall p :: p in Region(aabb, e) <==> Covers(ClampRect(aabb, e), p)
    ensures forall p :: p in Region(aabb, e) ==> InBounds(p, e)
  {
    SpanNoDup(ClampRect(aabb, e));
    SpanMembers(ClampRect(aabb, e));
    ClampedSpanInBounds(aabb, e);
  }

  // ----- queries over a cell list -----

  /** `Get(Rectangle)`: the buckets of the cells, concatenated in order, duplicates kept. */
  function GetAll<T>(s: State<T>, e: Extent, cells: seq<Point>): seq<T>
    decreases |cells|
  {
    if cells == [] then [] else Get(s, e, cells[0]) + GetAll(s, e, cells[1..])
  }

  /** One step of the `Get(Rectangle)` loop: the next bucket moves from the rest onto the accumulated result. */
  lemma GetAllStep<T>(acc: seq<T>, s: State<T>, e: Extent, cells: seq<Point>, i: int)
    requires 0 <= i < |cells|
    ensures acc + GetAll(s, e, cells[i..]) == (acc + Get(s, e, cells[i])) + GetAll(s, e, cells[i + 1..])
  {
    assert cells[i..][1..] == cells[i + 1..];
    AppendAssoc(acc, Get(s, e, cells[i]), GetAll(s, e, cells[i + 1..]));
  }

  /** `First(Rectangle)`: the first cell-level hit in scan order. */
  function FirstAll<T>(s: State<T>, e: Extent, cells: seq<Point>): Option<T>
    decreases |cells|
  {
    if cells == [] then None
    else if First(s, e, cells[0]).Some? then First(s, e, cells[0])
    else FirstAll(s, e, cells[1..])
  }

  /** `IsEmpty(Rectangle)`: every cell is empty. */
  predicate AllEmpty<T>(s: State<T>, e: Extent, cells: seq<Point>)
  {
    forall k | 0 <= k < |cells| :: IsEmpty(s, e, cells[k])
  }

  /** How many of the cells hold `x` in their bucket. */
  function Hits<T>(s: State<T>, e: Extent, cells: seq<Point>, x: T): nat
    decreases |cells|
  {
    if cells == [] then 0
    else (if x in Get(s, e, cells[0]) then 1 else 0) + Hits(s, e, cells[1..], x)
  }

  /** An item is in the region result exactly when some cell of the region holds it. */
  lemma {:induction false} GetAllMembers<T>(s: State<T>, e: Extent, cells: seq<Point>, x: T)
    ensures x in GetAll(s, e, cells) <==> exists k :: 0 <= k < |cells| && x in Get(s, e, cells[k])
    decreases |cells|
  {
    if cells != [] {
      GetAllMembers(s, e, cells[1..], x);
      if x in GetAll(s, e, cells[1..]) {
        var k :| 0 <= k < |cells[1..]| && x in Get(s, e, cells[1..][k]);
        assert cells[1..][k] == cells[k + 1];
      }
      if exists k :: 0 <= k < |cells| && x in Get(s, e, cells[k]) {
        var k :| 0 <= k < |cells| && x in Get(s, e, cells[k]);
        if k > 0 {
          assert cells[1..][k - 1] == cells[k];
        }
      }
    }
  }

  /** The region result is not deduplicated: an item appears once per cell of the region holding it. */
  lemma {:induction false} GetAllCount<T>(s: State<T>, e: Extent, cells: seq<Point>, x: T)
    requires Valid(s, e)
    ensures multiset(GetAll(s, e, cells))[x] == Hits(s, e, cells, x)
    decreases |cells|
  {
    if cells != [] {
      GetAllCount(s, e, cells[1..], x);
      BucketNoDup(s, e, Clamp(cells[0], e));
      NoDupCount(Get(s, e, cells[0]), x);
      assert multiset(GetAll(s, e, cells)) == multiset(Get(s, e, cells[0])) + multiset(GetAll(s, e, cells[1..]));
    }
  }

  /** The first hit of the scan is the head of the region result, and none exactly when that is empty. */
  lemma {:induction false} FirstAllIsHead<T>(s: State<T>, e: Extent, cells: seq<Point>)
    ensures FirstAll(s, e, cells) == if GetAll(s, e, cells) == [] then None else Some(GetAll(s, e, cells)[0])
    decreases |cells|
  {
    if cells != [] {
      FirstAllIsHead(s, e, cells[1..]);
    }
  }

  /** `IsEmpty(Rectangle)` holds exactly when `Get(Rectangle)` is empty and `First(Rectangle)` is none. */
  lemma {:induction false} AllEmptyIff<T>(s: State<T>, e: Extent, cells: seq<Point>)
    ensures AllEmpty(s, e, cells) <==> GetAll(s, e, cells) == []
    ensures AllEmpty(s, e, cells) <==> FirstAll(s, e, cells) == None
    decreases |cells|
  {
    FirstAllIsHead(s, e, cells);
    if cells != [] {
      AllEmptyIff(s, e, cells[1..]);
      assert AllEmpty(s, e, cells) <==> IsEmpty(s, e, cells[0]) && AllEmpty(s, e, cells[1..]) by {
        if AllEmpty(s, e, cells) {
          forall k | 0 <= k < |cells[1..]| ensures IsEmpty(s, e, cells[1..][k]) {
            assert cells[1..][k] == cells[k + 1];
          }
        }
        if IsEmpty(s, e, cells[0]) && AllEmpty(s, e, cells[1..]) {
          forall k | 0 <= k < |cells| ensures IsEmpty(s, e, cells[k]) {
            if k > 0 {
              assert cells[1..][k - 1] == cells[k];
            }
          }
        }
      }
    }
  }

  // ----- mutators over a cell list -----

  /** The loop of `Add(T, Rectangle)`: `Add(T, Point)` on each cell in turn. */
  function AddAll<T>(s: State<T>, e: Extent, item: T, cells: seq<Point>): State<T>
    decreases |cells|
  {
    if cells == [] then s else AddAll(Add(s, e, item, cells[0]), e, item, cells[1..])
  }

  /** The loop of `Remove(Rectangle)`: `Remove(Point)` on each cell in turn. */
  function RemoveAll<T>(s: State<T>, e: Extent, cells: seq<Point>): State<T>
    decreases |cells|
  {
    if cells == [] then s else RemoveAll(RemoveCell(s, e, cells[0]), e, cells[1..])
  }

  /** `Move(T, Rectangle)`: `Remove(T)`, then the loop of `Add(T, Rectangle)`. */
  function MoveAll<T>(s: State<T>, e: Extent, item: T, cells: seq<Point>): State<T>
  {
    AddAll(RemoveItem(s, item), e, item, cells)
  }

  /** Every listed on-grid cell that lacks the item gets it appended once; no other bucket changes. */
  lemma {:induction false} AddAllBuckets<T>(s: State<T>, e: Extent, item: T, cells: seq<Point>)
    requires PoolsEmpty(s)
    requires forall k | 0 <= k < |cells| :: InBounds(cells[k], e)
    ensures PoolsEmpty(AddAll(s, e, item, cells))
    ensures forall d :: Bucket(AddAll(s, e, item, cells), d) == (if d in cells && item !in Bucket(s, d) then Bucket(s, d) + [item] else Bucket(s, d))
    decreases |cells|
  {
    if cells != [] {
      var c := cells[0];
      var s1 := Add(s, e, item, c);
      AddBuckets(s, e, item, c);
      forall k | 0 <= k < |cells[1..]| ensures InBounds(cells[1..][k], e) {
        assert cells[1..][k] == cells[k + 1];
      }
      AddAllBuckets(s1, e, item, cells[1..]);
      assert Clamp(c, e) == c;
      forall d ensures Bucket(AddAll(s, e, item, cells), d) == (if d in cells && item !in Bucket(s, d) then Bucket(s, d) + [item] else Bucket(s, d)) {
        if d == c {
          assert item in Bucket(s1, d);
        }
      }
    }
  }

  /** The item's cell list gains exactly the listed on-grid cells; no other item's list changes. */
  lemma {:induction false} AddAllCells<T>(s: State<T>, e: Extent, item: T, cells: seq<Point>)
    requires PoolsEmpty(s)
    requires forall k | 0 <= k < |cells| :: InBounds(cells[k], e)
    ensures forall d :: d in CellsOf(AddAll(s, e, item, cells), item) <==> (d in CellsOf(s, item) || d in cells)
    ensures forall j :: j != item ==> CellsOf(AddAll(s, e, item, cells), j) == CellsOf(s, j)
    decreases |cells|
  {
    if cells != [] {
      var c := cells[0];
      var s1 := Add(s, e, item, c);
      AddBuckets(s, e, item, c);
      AddCells(s, e, item, c);
      forall k | 0 <= k < |cells[1..]| ensures InBounds(cells[1..][k], e) {
        assert cells[1..][k] == cells[k + 1];
      }
      AddAllCells(s1, e, item, cells[1..]);
      assert Clamp(c, e) == c;
      assert forall d :: d in cells <==> d == c || d in cells[1..];
    }
  }

  /** Adding an item to on-grid cells keeps the index consistent. */
  lemma {:induction false} AddAllValid<T>(s: State<T>, e: Extent, item: T, cells: seq<Point>)
    requires Valid(s, e)
    requires forall k | 0 <= k < |cells| :: InBounds(cells[k], e)
    ensures Valid(AddAll(s, e, item, cells), e)
    decreases |cells|
  {
    if cells != [] {
      assert Valid(Add(s, e, item, cells[0]), e) by {
        AddEffect(s, e, item, cells[0]);
      }
      forall k | 0 <= k < |cells[1..]| ensures InBounds(cells[1..][k], e) {
        assert cells[1..][k] == cells[k + 1];
      }
      AddAllValid(Add(s, e, item, cells[0]), e, item, cells[1..]);
    }
  }

  /**
   * Adding an item to on-grid cells appends it once to each of their buckets
   * that lacks it, adds those cells to its list, changes no other item, and
   * keeps the index consistent.
   */
  lemma AddAllEffect<T>(s: State<T>, e: Extent, item: T, cells: seq<Point>)
    requires Valid(s, e)
    requires forall k | 0 <= k < |cells| :: InBounds(cells[k], e)
    ensures Valid(AddAll(s, e, item, cells), e)
    ensures forall d :: Bucket(AddAll(s, e, item, cells), d) == (if d in cells && item !in Bucket(s, d) then Bucket(s, d) + [item] else Bucket(s, d))
    ensures forall d :: d in CellsOf(AddAll(s, e, item, cells), item) <==> (d in CellsOf(s, item) || d in cells)
    ensures forall j :: j != item ==> CellsOf(AddAll(s, e, item, cells), j) == CellsOf(s, j)
  {
    AddAllValid(s, e, item, cells);
    AddAllBuckets(s, e, item, cells);
    AddAllCells(s, e, item, cells);
  }

  /** After adding to a list of on-grid cells, the item is in each of their buckets exactly once. */
  lemma AddAllOnce<T>(s: State<T>, e: Extent, item: T, cells: seq<Point>)
    requires Valid(s, e)
    requires forall k | 0 <= k < |cells| :: InBounds(cells[k], e)
    ensures forall c | c in cells :: multiset(Bucket(AddAll(s, e, item, cells), c))[item] == 1
  {
    var r := AddAll(s, e, item, cells);
    AddAllEffect(s, e, item, cells);
    forall c | c in cells ensures multiset(Bucket(r, c))[item] == 1 {
      BucketNoDup(r, e, c);
      NoDupCount(Bucket(r, c), item);
    }
  }

  /** One step of `AddAllAppends`: adding to an on-grid cell appends that cell to the item's list unless present. */
  lemma AddOneCell<T>(s: State<T>, e: Extent, item: T, c: Point)
    requires PoolsEmpty(s) && InBounds(c, e)
    ensures PoolsEmpty(Add(s, e, item, c))
    ensures CellsOf(Add(s, e, item, c), item) == if c in CellsOf(s, item) then CellsOf(s, item) else CellsOf(s, item) + [c]
  {
    AddBuckets(s, e, item, c);
    AddCells(s, e, item, c);
    assert Clamp(c, e) == c;
  }

  /** Adding to distinct on-grid cells none of which the item holds appends exactly those cells, in order. */
  lemma {:induction false} AddAllAppends<T>(s: State<T>, e: Extent, item: T, cells: seq<Point>)
    requires PoolsEmpty(s) && NoDup(cells)
    requires forall c | c in cells :: InBounds(c, e) && c !in CellsOf(s, item)
    ensures CellsOf(AddAll(s, e, item, cells), item) == CellsOf(s, item) + cells
    decreases |cells|
  {
    if cells != [] {
      var c := cells[0];
      var s1 := Add(s, e, item, c);
      AddOneCell(s, e, item, c);
      NoDupTail(cells);
      AddAllAppends(s1, e, item, cells[1..]);
      AppendHead(CellsOf(s, item), cells);
    }
  }


  /**
   * Removing a list of on-grid cells empties each of their buckets, leaves
   * every other bucket alone, filters exactly those cells out of every
   * item's list (keeping the order of the rest), and keeps the index
   * consistent.
   */
  lemma {:induction false} RemoveAllEffect<T>(s: State<T>, e: Extent, cells: seq<Point>)
    requires Valid(s, e)
    requires forall k | 0 <= k < |cells| :: InBounds(cells[k], e)
    ensures Valid(RemoveAll(s, e, cells), e)
    ensures forall d :: Bucket(RemoveAll(s, e, cells), d) == if d in cells then [] else Bucket(s, d)
    ensures forall j :: CellsOf(RemoveAll(s, e, cells), j) == Without(CellsOf(s, j), cells)
    decreases |cells|
  {
    if cells == [] {
      forall j ensures CellsOf(s, j) == Without(CellsOf(s, j), []) {
        WithoutNone(CellsOf(s, j), []);
      }
    } else {
      var c := cells[0];
      var s1 := RemoveCell(s, e, c);
      RemoveCellEffect(s, e, c);
      assert Clamp(c, e) == c;
      forall k | 0 <= k < |cells[1..]| ensures InBounds(cells[1..][k], e) {
        assert cells[1..][k] == cells[k + 1];
      }
      RemoveAllEffect(s1, e, cells[1..]);
      forall j ensures NoDup(CellsOf(s, j)) {
        CellsNoDup(s, e, j);
      }
      RemoveStepCells(s, s1, RemoveAll(s1, e, cells[1..]), cells);
    }
  }

  /** One step of `RemoveAllEffect`: taking out the head cell, then the rest, filters out every listed cell. */
  lemma RemoveStepCells<T>(s: State<T>, s1: State<T>, r: State<T>, cells: seq<Point>)
    requires cells != []
    requires forall j :: NoDup(CellsOf(s, j))
    requires forall j :: CellsOf(s1, j) == RemoveFirst(CellsOf(s, j), cells[0])
    requires forall j :: CellsOf(r, j) == Without(CellsOf(s1, j), cells[1..])
    ensures forall j :: CellsOf(r, j) == Without(CellsOf(s, j), cells)
  {
    assert [cells[0]] + cells[1..] == cells;
    forall j ensures CellsOf(r, j) == Without(CellsOf(s, j), cells) {
      RemoveFirstIsWithout(CellsOf(s, j), cells[0]);
      WithoutWithout(CellsOf(s, j), [cells[0]], cells[1..]);
    }
  }

  /** After removing a list of cells, an item still occupies a cell exactly when it did and the cell is not listed. */
  lemma RemoveAllCells<T>(s: State<T>, e: Extent, cells: seq<Point>, item: T, d: Point)
    requires Valid(s, e)
    requires forall k | 0 <= k < |cells| :: InBounds(cells[k], e)
    ensures d in CellsOf(RemoveAll(s, e, cells), item) <==> (d in CellsOf(s, item) && d !in cells)
  {
    RemoveAllEffect(s, e, cells);
    WithoutMembers(CellsOf(s, item), cells, d);
  }

  /** After `Move(T, Rectangle)` the item's cell list is exactly the distinct on-grid cells, in order; others are unchanged. */
  lemma MoveAllEffect<T>(s: State<T>, e: Extent, item: T, cells: seq<Point>)
    requires Valid(s, e) && NoDup(cells)
    requires forall k | 0 <= k < |cells| :: InBounds(cells[k], e)
    ensures Valid(MoveAll(s, e, item, cells), e)
    ensures CellsOf(MoveAll(s, e, item, cells), item) == cells
    ensures forall d :: item in Bucket(MoveAll(s, e, item, cells), d) <==> d in cells
    ensures forall j :: j != item ==> CellsOf(MoveAll(s, e, item, cells), j) == CellsOf(s, j)
  {
    var s1 := RemoveItem(s, item);
    RemoveItemEffect(s, e, item);
    AddAllEffect(s1, e, item, cells);
    AddAllAppends(s1, e, item, cells);
    var r := MoveAll(s, e, item, cells);
    forall d ensures item in Bucket(r, d) <==> d in cells {
      ValidElim(r, e);
    }
  }

  /** `Move(T, Rectangle)` of an untracked item is a plain `Add(T, Rectangle)`. */
  lemma MoveAllUntracked<T>(s: State<T>, e: Extent, item: T, cells: seq<Point>)
    requires item !in s.items
    ensures MoveAll(s, e, item, cells) == AddAll(s, e, item, cells)
  {
  }

  // ----- rectangle, box and position forms -----

  /** `Add(T, Rectangle)`: the item is in every cell of the clamped rectangle exactly once and its list holds each. */
  lemma AddRectangleEffect<T>(s: State<T>, e: Extent, item: T, aabb: Rectangle)
    requires Valid(s, e)
    ensures Valid(AddAll(s, e, item, Region(aabb, e)), e)
    ensures forall p | p in Region(aabb, e) ::
      multiset(Bucket(AddAll(s, e, item, Region(aabb, e)), p))[item] == 1 &&
      p in CellsOf(AddAll(s, e, item, Region(aabb, e)), item)
  {
    RegionFacts(aabb, e);
    AddAllEffect(s, e, item, Region(aabb, e));
    AddAllOnce(s, e, item, Region(aabb, e));
  }

  /** `Remove(Rectangle)`: every cell of the clamped rectangle is empty afterwards and nothing outside it changes. */
  lemma RemoveRectangleEffect<T>(s: State<T>, e: Extent, aabb: Rectangle)
    requires Valid(s, e)
    ensures Valid(RemoveAll(s, e, Region(aabb, e)), e)
    ensures forall p :: Covers(ClampRect(aabb, e), p) ==> IsEmpty(RemoveAll(s, e, Region(aabb, e)), e, p)
    ensures forall p :: !Covers(ClampRect(aabb, e), p) ==> Bucket(RemoveAll(s, e, Region(aabb, e)), p) == Bucket(s, p)
  {
    RegionFacts(aabb, e);
    RemoveAllEffect(s, e, Region(aabb, e));
  }

  /** `Move(T, Rectangle)`: the item's cells become exactly the cells of the clamped rectangle, row-major. */
  lemma MoveRectangleEffect<T>(s: State<T>, e: Extent, item: T, aabb: Rectangle)
    requires Valid(s, e)
    ensures Valid(MoveAll(s, e, item, Region(aabb, e)), e)
    ensures CellsOf(MoveAll(s, e, item, Region(aabb, e)), item) == Region(aabb, e)
    ensures forall p :: item in Bucket(MoveAll(s, e, item, Region(aabb, e)), p) <==> Covers(ClampRect(aabb, e), p)
  {
    RegionFacts(aabb, e);
    MoveAllEffect(s, e, item, Region(aabb, e));
  }

  /** `Add(T, Vector2)` puts the item in an on-grid cell, however far outside the grid the position lies. */
  lemma AddPositionOnGrid<T>(s: State<T>, e: Extent, cellWidth: real, cellHeight: real, item: T, position: Vector2)
    requires Valid(s, e) && cellWidth > 0.0 && cellHeight > 0.0
    ensures InBounds(Clamp(Cell(position, cellWidth, cellHeight), e), e)
    ensures item in Get(Add(s, e, item, Cell(position, cellWidth, cellHeight)), e, Cell(position, cellWidth, cellHeight))
  {
    AddEffect(s, e, item, Cell(position, cellWidth, cellHeight));
  }

  /** The cells a box operation visits are exactly those between the clamped cells of its two corners. */
  lemma RectRegion(aabb: Rect, e: Extent, cellWidth: real, cellHeight: real)
    requires e.Ok() && cellWidth > 0.0 && cellHeight > 0.0
    ensures forall p :: p in Region(RectangleOf(aabb, cellWidth, cellHeight), e) <==>
      (Clamp(Cell(aabb.topLeft, cellWidth, cellHeight), e).x <= p.x <= Clamp(Cell(aabb.bottomRight, cellWidth, cellHeight), e).x &&
       Clamp(Cell(aabb.topLeft, cellWidth, cellHeight), e).y <= p.y <= Clamp(Cell(aabb.bottomRight, cellWidth, cellHeight), e).y)
  {
    RegionFacts(RectangleOf(aabb, cellWidth, cellHeight), e);
  }

  /** `Add(T, Rect)` with a well-formed box registers the item in at least one on-grid cell, even off the grid. */
  lemma AddRectOnGrid<T>(s: State<T>, e: Extent, cellWidth: real, cellHeight: real, item: T, aabb: Rect)
    requires Valid(s, e) && cellWidth > 0.0 && cellHeight > 0.0
    requires aabb.topLeft.x <= aabb.bottomRight.x && aabb.topLeft.y <= aabb.bottomRight.y
    ensures var p := Clamp(Cell(aabb.topLeft, cellWidth, cellHeight), e);
      InBounds(p, e) &&
      item in Bucket(AddAll(s, e, item, Region(RectangleOf(aabb, cellWidth, cellHeight), e)), p)
  {
    var r := RectangleOf(aabb, cellWidth, cellHeight);
    RectangleOfNonEmpty(aabb, cellWidth, cellHeight);
    ClampedSpanNonEmpty(r, e);
    AddRectangleEffect(s, e, item, r);
    NoDupCount(Bucket(AddAll(s, e, item, Region(r, e)), Clamp(r.location, e)), item);
    BucketNoDup(AddAll(s, e, item, Region(r, e)), e, Clamp(r.location, e));
  }
}
