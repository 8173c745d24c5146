/**
 * The `CollisionGrid<T>` object: its dictionaries, pools and scratch lists
 * are fields that the methods update in place, with the loops of the
 * original. Every method is proved against the value-level operations of
 * `Index` and `Regions`: its new state is that operation applied to its old
 * state, and the index invariant `Valid` is kept.
 */
module CollisionGrid {

  import opened Lists
  import opened Cells
  import Index
  import Regions

  class CollisionGrid<T(==)> {

    const width: real
    const height: real
    const cellWidth: real
    const cellHeight: real
    const numberOfCellsX: int
    const numberOfCellsY: int

    /** `Grid`: cell to bucket. */
    var grid: map<Point, seq<T>>
    /** `Items`: item to the cells it occupies. */
    var items: map<T, seq<Point>>
    /** `ListOfPointQueue`: emptied cell lists kept for reuse. */
    var listOfPointQueue: seq<seq<Point>>
    /** `ListOfItemQueue`: emptied buckets kept for reuse. */
    var listOfItemQueue: seq<seq<T>>
    /** `lop`: the cells of the last `FillList`. */
    var lop: seq<Point>
    /** `result`: the buffer `Get(Rectangle)` collects into. */
    var result: seq<T>
    /** Set by `Dispose`, after which the object must not be used. */
    ghost var disposed: bool

    /** The dictionaries and pools as one value. */
    function State(): Index.State<T>
      reads this`grid, this`items, this`listOfPointQueue, this`listOfItemQueue
    {
      Index.State(grid, items, listOfPointQueue, listOfItemQueue)
    }

    function Dims(): Extent
    {
      Extent(numberOfCellsX, numberOfCellsY)
    }

    ghost predicate Valid()
      reads this`disposed, this`grid, this`items, this`listOfPointQueue, this`listOfItemQueue
    {
      !disposed && cellWidth > 0.0 && cellHeight > 0.0 && Index.Valid(State(), Dims())
    }

    constructor(width: real, height: real, numberOfCellsX: int, numberOfCellsY: int)
      requires width > 0.0 && height > 0.0
      requires numberOfCellsX >= 1 && numberOfCellsY >= 1
      ensures Valid()
      ensures this.width == width && this.height == height
      ensures this.numberOfCellsX == numberOfCellsX && this.numberOfCellsY == numberOfCellsY
      ensures cellWidth == width / numberOfCellsX as real && cellHeight == height / numberOfCellsY as real
      ensures State() == Index.Empty() && lop == [] && result == []
    {
      this.width := width;
      this.height := height;
      this.numberOfCellsX := numberOfCellsX;
      this.numberOfCellsY := numberOfCellsY;
      cellWidth := width / numberOfCellsX as real;
      cellHeight := height / numberOfCellsY as real;
      items := map[];
      grid := map[];
      listOfPointQueue := [];
      listOfItemQueue := [];
      lop := [];
      result := [];
      disposed := false;
      new;
      Index.EmptyValid<T>(Dims());
    }

    // ----- CollisionGrid.cs -----

    /** `Get(T)`: the cells the item occupies, in the order they were added; none for an untracked item. */
    method GetCells(item: T) returns (r: seq<Point>)
      requires Valid()
      ensures r == Index.CellsOf(State(), item)
      ensures item !in items ==> r == []
      ensures forall c :: c in r <==> item in Index.Bucket(State(), c)
    {
      if item in items {
        r := items[item];
      } else {
        r := [];
      }
      Index.ValidElim(State(), Dims());
    }

    /** `Remove(T)`: the item leaves every cell of its list, then it is untracked and its list pooled. */
    method RemoveItem(item: T)
      requires Valid()
      modifies this`grid, this`items, this`listOfPointQueue, this`listOfItemQueue
      ensures Valid()
      ensures State() == Index.RemoveItem(old(State()), item)
    {
      Index.RemoveItemEffect(State(), Dims(), item);
      if item !in items {
        return;
      }
      var pl := items[item];
      var i := 0;
      while i < |pl|
        invariant 0 <= i <= |pl|
        invariant items == old(items) && listOfPointQueue == old(listOfPointQueue)
        invariant Index.RemoveFromGridAll(State(), item, pl[i..]) == Index.RemoveFromGridAll(old(State()), item, pl)
      {
        assert pl[i..][1..] == pl[i + 1..];
        RemoveFromGrid(item, pl[i]);
        i := i + 1;
      }
      listOfPointQueue := listOfPointQueue + [[]];
      items := items - {item};
    }

    /** `RemoveFromGrid`: one bucket loses the item; a bucket left empty is pooled and its key dropped. */
    method RemoveFromGrid(item: T, cell: Point)
      modifies this`grid, this`listOfItemQueue
      ensures State() == Index.RemoveFromGrid(old(State()), item, cell)
    {
      if cell in grid {
        var tl := RemoveFirst(grid[cell], item);
        if |tl| == 0 {
          listOfItemQueue := listOfItemQueue + [tl];
          grid := grid - {cell};
        } else {
          grid := grid[cell := tl];
        }
      }
    }

    /** `AllItems()`: every tracked item, and only items that are in some bucket. */
    method AllItems() returns (r: set<T>)
      requires Valid()
      ensures r == Index.AllItems(State())
      ensures forall i :: i in r <==> exists c :: i in Index.Bucket(State(), c)
    {
      r := items.Keys;
      forall i ensures i in r <==> exists c :: i in Index.Bucket(State(), c) {
        Index.AllItemsOccupy(State(), Dims(), i);
      }
    }

    /** `AllOccupiedCells()`: the cells with a bucket entry, all on the grid, covering every non-empty bucket. */
    method AllOccupiedCells() returns (r: set<Point>)
      requires Valid()
      ensures r == Index.AllOccupiedCells(State())
      ensures forall c :: Index.Bucket(State(), c) != [] ==> c in r
      ensures forall c :: c in r ==> InBounds(c, Dims())
    {
      r := grid.Keys;
      forall c ensures Index.Bucket(State(), c) != [] ==> c in r {
        Index.AllOccupiedCellsCover(State(), Dims(), c);
      }
    }

    /** `Dispose()`: empties and releases the dictionaries and pools; the object is unusable afterwards. */
    method Dispose()
      requires Valid()
      modifies this
      ensures disposed && !Valid()
      ensures State() == Index.Empty()
    {
      listOfPointQueue := [];
      listOfItemQueue := [];
      grid := map[];
      items := map[];
      disposed := true;
    }

    // ----- CollisionGrid.Point.cs -----

    /** `Get(Point)`: the bucket of the clamped cell, each item once, in insertion order. */
    method Get(cell: Point) returns (r: seq<T>)
      requires Valid()
      ensures r == Index.Get(State(), Dims(), cell)
      ensures NoDup(r)
      ensures forall x :: x in r <==> Clamp(cell, Dims()) in Index.CellsOf(State(), x)
    {
      var c := Clamp(cell, Dims());
      if c in grid {
        r := grid[c];
      } else {
        r := [];
      }
      forall x ensures x in r <==> Clamp(cell, Dims()) in Index.CellsOf(State(), x) {
        Index.GetMembers(State(), Dims(), cell, x);
      }
      Index.BucketNoDup(State(), Dims(), c);
    }

    /** The first item of the clamped cell's bucket, or none; the grid has no such public member of its own. */
    method First(cell: Point) returns (r: Index.Option<T>)
      requires Valid()
      ensures r == Index.First(State(), Dims(), cell)
      ensures r.None? <==> Index.Get(State(), Dims(), cell) == []
    {
      var b := Get(cell);
      if b == [] {
        r := Index.None;
      } else {
        r := Index.Some(b[0]);
      }
    }

    /** Whether the clamped cell's bucket is empty; the grid has no such public member of its own. */
    method IsEmpty(cell: Point) returns (b: bool)
      requires Valid()
      ensures b == Index.IsEmpty(State(), Dims(), cell)
      ensures b <==> forall x :: Clamp(cell, Dims()) !in Index.CellsOf(State(), x)
    {
      var l := Get(cell);
      b := l == [];
      if !b {
        assert Clamp(cell, Dims()) in Index.CellsOf(State(), l[0]);
      }
    }

    /** `Add(T, Point)`: the item joins the clamped cell's bucket and that cell joins its list, each at most once. */
    method Add(item: T, cell: Point)
      requires Valid()
      modifies this`grid, this`items, this`listOfPointQueue, this`listOfItemQueue
      ensures Valid()
      ensures State() == Index.Add(old(State()), Dims(), item, cell)
    {
      ghost var s := State();
      assert Index.Valid(Index.Add(s, Dims(), item, cell), Dims()) by {
        Index.AddEffect(s, Dims(), item, cell);
      }
      var c := Clamp(cell, Dims());
      AddToGrid(item, c);
      AddToItems(item, c);
    }

    /** `AddToGrid`: appends the item to the cell's bucket unless present; a missing bucket comes from the pool. */
    method AddToGrid(item: T, cell: Point)
      modifies this`grid, this`listOfItemQueue
      ensures State() == Index.AddToGrid(old(State()), item, cell)
    {
      if cell in grid {
        var l := grid[cell];
        if item !in l {
          grid := grid[cell := l + [item]];
        }
      } else {
        var l: seq<T>;
        if |listOfItemQueue| > 0 {
          l := listOfItemQueue[0];
          listOfItemQueue := listOfItemQueue[1..];
        } else {
          l := [];
        }
        if item !in l {
          l := l + [item];
        }
        grid := grid[cell := l];
      }
    }

    /** `AddToItems`: appends the cell to the item's list unless present; a new item's list comes from the pool. */
    method AddToItems(item: T, cell: Point)
      modifies this`items, this`listOfPointQueue
      ensures State() == Index.AddToItems(old(State()), item, cell)
    {
      if item !in items {
        var pl: seq<Point>;
        if |listOfPointQueue| > 0 {
          pl := listOfPointQueue[0];
          listOfPointQueue := listOfPointQueue[1..];
        } else {
          pl := [];
        }
        pl := pl + [cell];
        items := items[item := pl];
      } else {
        var pl := items[item];
        if cell !in pl {
          items := items[item := pl + [cell]];
        }
      }
    }

    /** `Remove(Point)`: every occupant of the clamped cell loses that cell, then the bucket is cleared. */
    method Remove(cell: Point)
      requires Valid()
      modifies this`grid, this`items, this`listOfPointQueue
      ensures Valid()
      ensures State() == Index.RemoveCell(old(State()), Dims(), cell)
    {
      assert Index.Valid(Index.RemoveCell(State(), Dims(), cell), Dims()) by {
        Index.RemoveCellEffect(State(), Dims(), cell);
      }
      var c := Clamp(cell, Dims());
      var l := if c in grid then grid[c] else [];
      assert l == Index.Bucket(State(), c);
      var i := 0;
      while i < |l|
        invariant 0 <= i <= |l|
        invariant grid == old(grid) && listOfItemQueue == old(listOfItemQueue)
        invariant Index.DetachAll(State(), c, l[i..]) == Index.DetachAll(old(State()), c, l)
      {
        assert l[i..][1..] == l[i + 1..];
        Detach(c, l[i]);
        i := i + 1;
      }
      if c in grid {
        grid := grid[c := []];
      }
    }

    /** One step of `Remove(Point)`: the cell leaves the item's list; an item left with no cells is untracked and its list pooled. */
    method Detach(cell: Point, item: T)
      modifies this`items, this`listOfPointQueue
      ensures State() == Index.Detach(old(State()), cell, item)
    {
      if item in items {
        var pl := RemoveFirst(items[item], cell);
        if |pl| == 0 {
          listOfPointQueue := listOfPointQueue + [pl];
          items := items - {item};
        } else {
          items := items[item := pl];
        }
      }
    }

    /** `Move(T, Point)`: `Remove(T)`, then `Add(T, Point)`. */
    method Move(item: T, cell: Point)
      requires Valid()
      modifies this`grid, this`items, this`listOfPointQueue, this`listOfItemQueue
      ensures Valid()
      ensures State() == Index.Move(old(State()), Dims(), item, cell)
    {
      RemoveItem(item);
      Add(item, cell);
    }

    // ----- CollisionGrid.Rectangle.cs -----

    /** `FillList`: the cells of the clamped rectangle into `lop`, rows outer and columns inner. */
    method FillList(aabb: Rectangle)
      modifies this`lop
      ensures lop == Regions.Region(aabb, Dims())
    {
      var r := ClampRect(aabb, Dims());
      lop := [];
      var y := 0;
      while y < r.size.y
        invariant 0 <= y && (y <= r.size.y || y == 0)
        invariant lop == Rows(r, y)
      {
        var x := 0;
        while x < r.size.x
          invariant 0 <= x && (x <= r.size.x || x == 0)
          invariant lop == Rows(r, y) + Row(r.location.x, r.location.y + y, x)
        {
          RowStep(r.location.x, r.location.y + y, x);
          lop := lop + [Point(r.location.x + x, r.location.y + y)];
          x := x + 1;
        }
        assert Row(r.location.x, r.location.y + y, x) == Row(r.location.x, r.location.y + y, r.size.x);
        RowsStep(r, y);
        y := y + 1;
      }
      assert Rows(r, y) == Rows(r, r.size.y);
    }

    /** `Get(Rectangle)`: the buckets of the clamped rectangle's cells, concatenated in scan order. */
    method GetRectangle(aabb: Rectangle) returns (r: seq<T>)
      requires Valid()
      modifies this`lop, this`result
      ensures lop == Regions.Region(aabb, Dims())
      ensures r == result == Regions.GetAll(State(), Dims(), lop)
    {
      FillList(aabb);
      result := [];
      ghost var s := State();
      var i := 0;
      while i < |lop|
        invariant 0 <= i <= |lop|
        invariant lop == Regions.Region(aabb, Dims())
        invariant result + Regions.GetAll(s, Dims(), lop[i..]) == Regions.GetAll(s, Dims(), lop)
      {
        var g := Get(lop[i]);
        Regions.GetAllStep(result, s, Dims(), lop, i);
        result := result + g;
        i := i + 1;
      }
      assert lop[i..] == [];
      r := result;
    }

    /** `First(Rectangle)`: the first hit in scan order, or none. */
    method FirstRectangle(aabb: Rectangle) returns (r: Index.Option<T>)
      requires Valid()
      modifies this`lop, this`result
      ensures lop == Regions.Region(aabb, Dims()) && result == []
      ensures r == Regions.FirstAll(State(), Dims(), lop)
    {
      FillList(aabb);
      result := [];
      ghost var s := State();
      var i := 0;
      while i < |lop|
        invariant 0 <= i <= |lop|
        invariant lop == Regions.Region(aabb, Dims())
        invariant result == []
        invariant Regions.FirstAll(s, Dims(), lop[i..]) == Regions.FirstAll(s, Dims(), lop)
      {
        assert lop[i..][1..] == lop[i + 1..];
        var content := First(lop[i]);
        if content.Some? {
          return content;
        }
        i := i + 1;
      }
      return Index.None;
    }

    /** `Add(T, Rectangle)`: `Add(T, Point)` on every cell of the clamped rectangle. */
    method AddRectangle(item: T, aabb: Rectangle)
      requires Valid()
      modifies this`grid, this`items, this`listOfPointQueue, this`listOfItemQueue, this`lop
      ensures Valid()
      ensures lop == Regions.Region(aabb, Dims())
      ensures State() == Regions.AddAll(old(State()), Dims(), item, lop)
    {
      FillList(aabb);
      var i := 0;
      while i < |lop|
        invariant 0 <= i <= |lop|
        invariant Valid() && lop == Regions.Region(aabb, Dims())
        invariant Regions.AddAll(State(), Dims(), item, lop[i..]) == Regions.AddAll(old(State()), Dims(), item, lop)
      {
        assert lop[i..][1..] == lop[i + 1..];
        Add(item, lop[i]);
        i := i + 1;
      }
    }

    /** `Remove(Rectangle)`: `Remove(Point)` on every cell of the clamped rectangle. */
    method RemoveRectangle(aabb: Rectangle)
      requires Valid()
      modifies this`grid, this`items, this`listOfPointQueue, this`lop
      ensures Valid()
      ensures lop == Regions.Region(aabb, Dims())
      ensures State() == Regions.RemoveAll(old(State()), Dims(), lop)
    {
      FillList(aabb);
      var i := 0;
      while i < |lop|
        invariant 0 <= i <= |lop|
        invariant Valid() && lop == Regions.Region(aabb, Dims())
        invariant Regions.RemoveAll(State(), Dims(), lop[i..]) == Regions.RemoveAll(old(State()), Dims(), lop)
      {
        assert lop[i..][1..] == lop[i + 1..];
        Remove(lop[i]);
        i := i + 1;
      }
    }

    /** `Move(T, Rectangle)`: `Remove(T)`, then `Add(T, Point)` on every cell of the clamped rectangle. */
    method MoveRectangle(item: T, aabb: Rectangle)
      requires Valid()
      modifies this`grid, this`items, this`listOfPointQueue, this`listOfItemQueue, this`lop
      ensures Valid()
      ensures lop == Regions.Region(aabb, Dims())
      ensures State() == Regions.MoveAll(old(State()), Dims(), item, lop)
    {
      RemoveItem(item);
      ghost var removed := State();
      FillList(aabb);
      var i := 0;
      while i < |lop|
        invariant 0 <= i <= |lop|
        invariant Valid() && lop == Regions.Region(aabb, Dims())
        invariant Regions.AddAll(State(), Dims(), item, lop[i..]) == Regions.AddAll(removed, Dims(), item, lop)
      {
        assert lop[i..][1..] == lop[i + 1..];
        Add(item, lop[i]);
        i := i + 1;
      }
    }

    /** `IsEmpty(Rectangle)`: whether every cell of the clamped rectangle is empty, stopping at the first that is not. */
    method IsEmptyRectangle(aabb: Rectangle) returns (b: bool)
      requires Valid()
      modifies this`lop
      ensures lop == Regions.Region(aabb, Dims())
      ensures b == Regions.AllEmpty(State(), Dims(), lop)
    {
      FillList(aabb);
      ghost var s := State();
      var i := 0;
      while i < |lop|
        invariant 0 <= i <= |lop|
        invariant lop == Regions.Region(aabb, Dims())
        invariant forall k | 0 <= k < i :: Index.IsEmpty(s, Dims(), lop[k])
      {
        var em := IsEmpty(lop[i]);
        if !em {
          return false;
        }
        i := i + 1;
      }
      return true;
    }

    // ----- CollisionGrid.Vector2.cs -----

    /** `Get(Vector2)`: the bucket of the cell holding the position, clamped onto the grid. */
    method GetPosition(position: Vector2) returns (r: seq<T>)
      requires Valid()
      ensures r == Index.Get(State(), Dims(), Cell(position, cellWidth, cellHeight))
    {
      r := Get(Cell(position, cellWidth, cellHeight));
    }

    /** `First(Vector2)`. */
    method FirstPosition(position: Vector2) returns (r: Index.Option<T>)
      requires Valid()
      ensures r == Index.First(State(), Dims(), Cell(position, cellWidth, cellHeight))
    {
      r := First(Cell(position, cellWidth, cellHeight));
    }

    /** `Add(T, Vector2)`. */
    method AddPosition(item: T, position: Vector2)
      requires Valid()
      modifies this`grid, this`items, this`listOfPointQueue, this`listOfItemQueue
      ensures Valid()
      ensures State() == Index.Add(old(State()), Dims(), item, Cell(position, cellWidth, cellHeight))
    {
      Add(item, Cell(position, cellWidth, cellHeight));
    }

    /** `Remove(Vector2)`. */
    method RemovePosition(position: Vector2)
      requires Valid()
      modifies this`grid, this`items, this`listOfPointQueue
      ensures Valid()
      ensures State() == Index.RemoveCell(old(State()), Dims(), Cell(position, cellWidth, cellHeight))
    {
      Remove(Cell(position, cellWidth, cellHeight));
    }

    /** `Move(T, Vector2)`. */
    method MovePosition(item: T, position: Vector2)
      requires Valid()
      modifies this`grid, this`items, this`listOfPointQueue, this`listOfItemQueue
      ensures Valid()
      ensures State() == Index.Move(old(State()), Dims(), item, Cell(position, cellWidth, cellHeight))
    {
      Move(item, Cell(position, cellWidth, cellHeight));
    }

    /** `IsEmpty(Vector2)`. */
    method IsEmptyPosition(position: Vector2) returns (b: bool)
      requires Valid()
      ensures b == Index.IsEmpty(State(), Dims(), Cell(position, cellWidth, cellHeight))
    {
      b := IsEmpty(Cell(position, cellWidth, cellHeight));
    }

    // ----- CollisionGrid.Rect.cs -----

    /** `Get(Rect)`: `Get(Rectangle)` on the cell rectangle spanned by the box's corners. */
    method GetRect(aabb: Rect) returns (r: seq<T>)
      requires Valid()
      modifies this`lop, this`result
      ensures lop == Regions.Region(RectangleOf(aabb, cellWidth, cellHeight), Dims())
      ensures r == Regions.GetAll(State(), Dims(), lop)
    {
      r := GetRectangle(RectangleOf(aabb, cellWidth, cellHeight));
    }

    /** `Add(T, Rect)`. */
    method AddRect(item: T, aabb: Rect)
      requires Valid()
      modifies this`grid, this`items, this`listOfPointQueue, this`listOfItemQueue, this`lop
      ensures Valid()
      ensures lop == Regions.Region(RectangleOf(aabb, cellWidth, cellHeight), Dims())
      ensures State() == Regions.AddAll(old(State()), Dims(), item, lop)
    {
      AddRectangle(item, RectangleOf(aabb, cellWidth, cellHeight));
    }

    /** `Remove(Rect)`. */
    method RemoveRect(aabb: Rect)
      requires Valid()
      modifies this`grid, this`items, this`listOfPointQueue, this`lop
      ensures Valid()
      ensures lop == Regions.Region(RectangleOf(aabb, cellWidth, cellHeight), Dims())
      ensures State() == Regions.RemoveAll(old(State()), Dims(), lop)
    {
      RemoveRectangle(RectangleOf(aabb, cellWidth, cellHeight));
    }

    /** `Move(T, Rect)`. */
    method MoveRect(item: T, aabb: Rect)
      requires Valid()
      modifies this`grid, this`items, this`listOfPointQueue, this`listOfItemQueue, this`lop
      ensures Valid()
      ensures lop == Regions.Region(RectangleOf(aabb, cellWidth, cellHeight), Dims())
      ensures State() == Regions.MoveAll(old(State()), Dims(), item, lop)
    {
      MoveRectangle(item, RectangleOf(aabb, cellWidth, cellHeight));
    }
  }
}
