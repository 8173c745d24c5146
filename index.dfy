/**
 * The bidirectional cell/item index of the collision grid, on values: the
 * dictionaries `Grid` (cell to bucket) and `Items` (item to cell list), the
 * two queues of emptied lists kept for reuse, and the single-cell
 * operations. An absent `Grid` or `Items` key stands for an empty list.
 */
module Index {

  import opened Lists
  import opened Cells

  datatype Option<T> = None | Some(value: T)

  /** `Grid`, `Items`, `ListOfPointQueue` and `ListOfItemQueue`; each pooled list is a value. */
  datatype State<T> = State(
    grid: map<Point, seq<T>>,
    items: map<T, seq<Point>>,
    pointPool: seq<seq<Point>>,
    itemPool: seq<seq<T>>)

  function Empty<T>(): State<T>
  {
    State(map[], map[], [], [])
  }

  /** The bucket of a cell; empty when the cell has no entry. */
  function Bucket<T>(s: State<T>, c: Point): seq<T>
  {
    if c in s.grid then s.grid[c] else []
  }

  /** The cell list of an item; empty when the item is untracked. */
  function CellsOf<T>(s: State<T>, i: T): seq<Point>
  {
    if i in s.items then s.items[i] else []
  }

  /** Every list waiting in either pool is empty. */
  ghost predicate PoolsEmpty<T>(s: State<T>)
  {
    (forall k | 0 <= k < |s.pointPool| :: s.pointPool[k] == []) &&
    (forall k | 0 <= k < |s.itemPool| :: s.itemPool[k] == [])
  }

  /** An item is in a cell's bucket exactly when the cell is in the item's list. */
  ghost predicate Linked<T>(s: State<T>)
  {
    (forall c, i | c in s.grid && i in s.grid[c] :: i in s.items && c in s.items[i]) &&
    (forall i, c | i in s.items && c in s.items[i] :: c in s.grid && i in s.grid[c])
  }

  ghost predicate Valid<T>(s: State<T>, e: Extent)
  {
    && e.Ok()
    && (forall c | c in s.grid :: InBounds(c, e) && NoDup(s.grid[c]))
    && (forall i | i in s.items :: s.items[i] != [] && NoDup(s.items[i]))
    && Linked(s)
    && PoolsEmpty(s)
  }

  /** `Valid`, stated on buckets and cell lists, absent keys included. */
  lemma ValidElim<T>(s: State<T>, e: Extent)
    requires Valid(s, e)
    ensures forall c :: NoDup(Bucket(s, c))
    ensures forall i :: NoDup(CellsOf(s, i))
    ensures forall c, i :: i in Bucket(s, c) <==> c in CellsOf(s, i)
  {
  }

  lemma ValidIntro<T>(s: State<T>, e: Extent)
    requires e.Ok() && PoolsEmpty(s)
    requires forall c | c in s.grid :: InBounds(c, e)
    requires forall i | i in s.items :: s.items[i] != []
    requires forall c :: NoDup(Bucket(s, c))
    requires forall i :: NoDup(CellsOf(s, i))
    requires forall c, i :: i in Bucket(s, c) <==> c in CellsOf(s, i)
    ensures Valid(s, e)
  {
    forall c | c in s.grid ensures NoDup(s.grid[c]) {
      assert Bucket(s, c) == s.grid[c];
    }
    forall i | i in s.items ensures NoDup(s.items[i]) {
      assert CellsOf(s, i) == s.items[i];
    }
    forall c, i | c in s.grid && i in s.grid[c] ensures i in s.items && c in s.items[i] {
      assert i in Bucket(s, c);
      assert c in CellsOf(s, i);
    }
    forall i, c | i in s.items && c in s.items[i] ensures c in s.grid && i in s.grid[c] {
      assert c in CellsOf(s, i);
      assert i in Bucket(s, c);
    }
  }

  lemma EmptyValid<T>(e: Extent)
    requires e.Ok()
    ensures Valid(Empty<T>(), e)
  {
  }

  lemma BucketNoDup<T>(s: State<T>, e: Extent, c: Point)
    requires Valid(s, e)
    ensures NoDup(Bucket(s, c))
  {
  }

  lemma CellsNoDup<T>(s: State<T>, e: Extent, i: T)
    requires Valid(s, e)
    ensures NoDup(CellsOf(s, i))
  {
  }

  lemma LinkedAt<T>(s: State<T>, e: Extent, c: Point, i: T)
    requires Valid(s, e)
    ensures i in Bucket(s, c) <==> c in CellsOf(s, i)
  {
  }

  // ----- queries -----

  /** `Get(Point)`: the bucket of the clamped cell, in insertion order. */
  function Get<T>(s: State<T>, e: Extent, cell: Point): seq<T>
  {
    Bucket(s, Clamp(cell, e))
  }

  /** `First(Point)`: the earliest item of the clamped cell's bucket, or none. */
  function First<T>(s: State<T>, e: Extent, cell: Point): (r: Option<T>)
    ensures r == None <==> Get(s, e, cell) == []
    ensures r.Some? ==> r.value in Get(s, e, cell)
  {
    var b := Get(s, e, cell);
    if b == [] then None else Some(b[0])
  }

  /** `IsEmpty(Point)`. */
  predicate IsEmpty<T>(s: State<T>, e: Extent, cell: Point)
  {
    Get(s, e, cell) == []
  }

  /** `AllItems()`: the keys of `Items`. */
  function AllItems<T>(s: State<T>): set<T>
  {
    s.items.Keys
  }

  /** `AllOccupiedCells()`: the keys of `Grid`. */
  function AllOccupiedCells<T>(s: State<T>): set<Point>
  {
    s.grid.Keys
  }

  /** An item is in a cell's bucket exactly when its cell list names that cell. */
  lemma GetMembers<T>(s: State<T>, e: Extent, cell: Point, x: T)
    requires Valid(s, e)
    ensures x in Get(s, e, cell) <==> Clamp(cell, e) in CellsOf(s, x)
    ensures NoDup(Get(s, e, cell))
  {
    BucketNoDup(s, e, Clamp(cell, e));
  }

  /** The tracked items are exactly those present in some bucket. */
  lemma AllItemsOccupy<T>(s: State<T>, e: Extent, i: T)
    requires Valid(s, e)
    ensures i in AllItems(s) <==> exists c :: i in Bucket(s, c)
  {
    if i in s.items {
      var c := s.items[i][0];
      assert c in CellsOf(s, i);
      assert i in Bucket(s, c);
    }
  }

  /** Every cell with a non-empty bucket is reported, and every reported cell is on the grid. */
  lemma AllOccupiedCellsCover<T>(s: State<T>, e: Extent, c: Point)
    requires Valid(s, e)
    ensures Bucket(s, c) != [] ==> c in AllOccupiedCells(s)
    ensures c in AllOccupiedCells(s) ==> InBounds(c, e)
  {
  }

  // ----- Add -----

  /**
   * `AddToGrid`: appends the item to the cell's bucket unless already there;
   * an absent bucket is taken from `ListOfItemQueue` when it is non-empty.
   */
  function AddToGrid<T>(s: State<T>, item: T, c: Point): (r: State<T>)
    ensures r.items == s.items && r.pointPool == s.pointPool
    ensures c in r.grid && item in r.grid[c] && r.grid == s.grid[c := r.grid[c]]
    ensures PoolsEmpty(s) ==> r.grid[c] == if item in Bucket(s, c) then Bucket(s, c) else Bucket(s, c) + [item]
  {
    if c in s.grid then
      if item in s.grid[c] then s else s.(grid := s.grid[c := s.grid[c] + [item]])
    else
      var l := if |s.itemPool| > 0 then s.itemPool[0] else [];
      var pool := if |s.itemPool| > 0 then s.itemPool[1..] else s.itemPool;
      s.(grid := s.grid[c := if item in l then l else l + [item]], itemPool := pool)
  }

  /**
   * `AddToItems`: appends the cell to the item's list unless already there;
   * a new item's list is taken from `ListOfPointQueue` when it is non-empty.
   */
  function AddToItems<T>(s: State<T>, item: T, c: Point): (r: State<T>)
    ensures r.grid == s.grid && r.itemPool == s.itemPool
    ensures item in r.items && c in r.items[item] && r.items == s.items[item := r.items[item]]
    ensures PoolsEmpty(s) ==> r.items[item] == if c in CellsOf(s, item) then CellsOf(s, item) else CellsOf(s, item) + [c]
  {
    if item !in s.items then
      var pl := if |s.pointPool| > 0 then s.pointPool[0] else [];
      var pool := if |s.pointPool| > 0 then s.pointPool[1..] else s.pointPool;
      s.(items := s.items[item := pl + [c]], pointPool := pool)
    else if c in s.items[item] then s
    else s.(items := s.items[item := s.items[item] + [c]])
  }

  /** `Add(T, Point)`. */
  function Add<T>(s: State<T>, e: Extent, item: T, cell: Point): State<T>
  {
    var c := Clamp(cell, e);
    AddToItems(AddToGrid(s, item, c), item, c)
  }

  /** A new item's cell list is exactly the one cell, and a non-empty pool gives up one list. */
  lemma AddToItemsNew<T>(s: State<T>, e: Extent, item: T, c: Point)
    requires Valid(s, e) && item !in s.items
    ensures CellsOf(AddToItems(s, item, c), item) == [c]
    ensures |AddToItems(s, item, c).pointPool| == if |s.pointPool| > 0 then |s.pointPool| - 1 else 0
  {
    if |s.pointPool| > 0 {
      assert s.pointPool[0] == [];
    }
  }

  /** `Add` changes only the clamped cell's bucket, by appending the item when absent. */
  lemma AddBuckets<T>(s: State<T>, e: Extent, item: T, cell: Point)
    requires PoolsEmpty(s)
    ensures forall d :: Bucket(Add(s, e, item, cell), d) == (if d == Clamp(cell, e) && item !in Bucket(s, d) then Bucket(s, d) + [item] else Bucket(s, d))
    ensures Add(s, e, item, cell).grid.Keys == s.grid.Keys + {Clamp(cell, e)}
    ensures PoolsEmpty(Add(s, e, item, cell))
  {
    var c := Clamp(cell, e);
    if c !in s.grid && |s.itemPool| > 0 {
      assert s.itemPool[0] == [];
    }
  }

  /** `Add` changes only the item's cell list, by appending the clamped cell when absent. */
  lemma AddCells<T>(s: State<T>, e: Extent, item: T, cell: Point)
    requires PoolsEmpty(s)
    ensures forall j :: CellsOf(Add(s, e, item, cell), j) == (if j == item && Clamp(cell, e) !in CellsOf(s, j) then CellsOf(s, j) + [Clamp(cell, e)] else CellsOf(s, j))
    ensures Add(s, e, item, cell).items.Keys == s.items.Keys + {item}
  {
    var c := Clamp(cell, e);
    if item !in s.items && |s.pointPool| > 0 {
      assert s.pointPool[0] == [];
    }
  }

  /**
   * `Add` appends the item to the clamped cell's bucket and the clamped cell
   * to the item's list, each only when absent, changes nothing else, and
   * keeps the index consistent.
   */
  lemma AddEffect<T>(s: State<T>, e: Extent, item: T, cell: Point)
    requires Valid(s, e)
    ensures Valid(Add(s, e, item, cell), e)
    ensures forall d :: Bucket(Add(s, e, item, cell), d) == (if d == Clamp(cell, e) && item !in Bucket(s, d) then Bucket(s, d) + [item] else Bucket(s, d))
    ensures forall j :: CellsOf(Add(s, e, item, cell), j) == (if j == item && Clamp(cell, e) !in CellsOf(s, j) then CellsOf(s, j) + [Clamp(cell, e)] else CellsOf(s, j))
    ensures Add(s, e, item, cell).grid.Keys == s.grid.Keys + {Clamp(cell, e)}
    ensures Add(s, e, item, cell).items.Keys == s.items.Keys + {item}
  {
    var c := Clamp(cell, e);
    var s2 := Add(s, e, item, cell);
    AddBuckets(s, e, item, cell);
    AddCells(s, e, item, cell);
    ValidElim(s, e);
    AddLinked(s, s2, item, c);
    ValidIntro(s2, e);
  }

  /** Appending the item to one bucket and that cell to the item's list keeps both lists duplicate-free and linked. */
  lemma AddLinked<T>(s: State<T>, r: State<T>, item: T, c: Point)
    requires forall d :: NoDup(Bucket(s, d))
    requires forall j :: NoDup(CellsOf(s, j))
    requires forall d, j :: j in Bucket(s, d) <==> d in CellsOf(s, j)
    requires forall d :: Bucket(r, d) == (if d == c && item !in Bucket(s, d) then Bucket(s, d) + [item] else Bucket(s, d))
    requires forall j :: CellsOf(r, j) == (if j == item && c !in CellsOf(s, j) then CellsOf(s, j) + [c] else CellsOf(s, j))
    ensures forall d :: NoDup(Bucket(r, d))
    ensures forall j :: NoDup(CellsOf(r, j))
    ensures forall d, j :: j in Bucket(r, d) <==> d in CellsOf(r, j)
  {
    forall d ensures NoDup(Bucket(r, d)) {
      if d == c && item !in Bucket(s, c) {
        AppendNoDup(Bucket(s, c), item);
      }
    }
    forall j ensures NoDup(CellsOf(r, j)) {
      if j == item && c !in CellsOf(s, item) {
        AppendNoDup(CellsOf(s, item), c);
      }
    }
    forall d, j ensures j in Bucket(r, d) <==> d in CellsOf(r, j) {
      assert j in Bucket(s, d) <==> d in CellsOf(s, j);
    }
  }


  /** After `Add`, the item occurs once in the clamped cell's bucket and that cell once in its list. */
  lemma AddOnce<T>(s: State<T>, e: Extent, item: T, cell: Point)
    requires Valid(s, e)
    ensures multiset(Get(Add(s, e, item, cell), e, cell))[item] == 1
    ensures multiset(CellsOf(Add(s, e, item, cell), item))[Clamp(cell, e)] == 1
  {
    var s' := Add(s, e, item, cell);
    AddEffect(s, e, item, cell);
    BucketNoDup(s', e, Clamp(cell, e));
    CellsNoDup(s', e, item);
    NoDupCount(Bucket(s', Clamp(cell, e)), item);
    NoDupCount(CellsOf(s', item), Clamp(cell, e));
  }

  /** Adding the same item to the same cell twice is the same as adding it once. */
  lemma AddIdempotent<T>(s: State<T>, e: Extent, item: T, cell: Point)
    ensures Add(Add(s, e, item, cell), e, item, cell) == Add(s, e, item, cell)
  {
    var c := Clamp(cell, e);
    var s1 := Add(s, e, item, cell);
    assert c in s1.grid && item in s1.grid[c];
    assert item in s1.items && c in s1.items[item];
  }

  /** Which pooled lists are reused is invisible: the dictionaries after `Add` do not depend on the pools. */
  lemma AddPoolTransparent<T>(s: State<T>, t: State<T>, e: Extent, item: T, cell: Point)
    requires PoolsEmpty(s) && PoolsEmpty(t)
    requires s.grid == t.grid && s.items == t.items
    ensures Add(s, e, item, cell).grid == Add(t, e, item, cell).grid
    ensures Add(s, e, item, cell).items == Add(t, e, item, cell).items
  {
    var c := Clamp(cell, e);
    assert AddToGrid(s, item, c).grid == AddToGrid(t, item, c).grid by {
      if c !in s.grid && |s.itemPool| > 0 { assert s.itemPool[0] == []; }
      if c !in t.grid && |t.itemPool| > 0 { assert t.itemPool[0] == []; }
    }
    if item !in s.items && |s.pointPool| > 0 { assert s.pointPool[0] == []; }
    if item !in t.items && |t.pointPool| > 0 { assert t.pointPool[0] == []; }
  }


  // ----- Remove(T) -----

  /**
   * `RemoveFromGrid`: deletes the item from the cell's bucket; a bucket left
   * empty goes to `ListOfItemQueue` and its key is dropped.
   */
  function RemoveFromGrid<T>(s: State<T>, item: T, c: Point): (r: State<T>)
    ensures r.items == s.items && r.pointPool == s.pointPool
    ensures forall d :: Bucket(r, d) == if d == c then RemoveFirst(Bucket(s, c), item) else Bucket(s, d)
    ensures r.grid.Keys <= s.grid.Keys
    ensures PoolsEmpty(s) ==> PoolsEmpty(r)
  {
    if c in s.grid then
      var tl := RemoveFirst(s.grid[c], item);
      if |tl| == 0 then s.(grid := s.grid - {c}, itemPool := s.itemPool + [tl])
      else s.(grid := s.grid[c := tl])
    else s
  }

  /** A bucket that `RemoveFromGrid` empties is pooled and its key removed; otherwise the pool is untouched. */
  lemma RemoveFromGridPools<T>(s: State<T>, item: T, c: Point)
    ensures c in s.grid && RemoveFirst(s.grid[c], item) == [] ==>
      c !in RemoveFromGrid(s, item, c).grid && RemoveFromGrid(s, item, c).itemPool == s.itemPool + [[]]
    ensures !(c in s.grid && RemoveFirst(s.grid[c], item) == []) ==>
      RemoveFromGrid(s, item, c).grid.Keys == s.grid.Keys && RemoveFromGrid(s, item, c).itemPool == s.itemPool
  {
  }

  /** The loop of `Remove(T)` over the item's cell list. */
  function RemoveFromGridAll<T>(s: State<T>, item: T, cells: seq<Point>): State<T>
    decreases |cells|
  {
    if cells == [] then s else RemoveFromGridAll(RemoveFromGrid(s, item, cells[0]), item, cells[1..])
  }

  /** The loop of `Remove(T)` touches only `Grid` and `ListOfItemQueue`, adds no key, and pools only empty lists. */
  lemma {:induction false} RemoveFromGridAllFrame<T>(s: State<T>, item: T, cells: seq<Point>)
    ensures RemoveFromGridAll(s, item, cells).items == s.items
    ensures RemoveFromGridAll(s, item, cells).pointPool == s.pointPool
    ensures RemoveFromGridAll(s, item, cells).grid.Keys <= s.grid.Keys
    ensures PoolsEmpty(s) ==> PoolsEmpty(RemoveFromGridAll(s, item, cells))
    decreases |cells|
  {
    if cells != [] {
      RemoveFromGridAllFrame(RemoveFromGrid(s, item, cells[0]), item, cells[1..]);
    }
  }

  /** Over distinct cells, the loop of `Remove(T)` deletes the item once from each listed bucket and from no other. */
  lemma {:induction false} RemoveFromGridAllEffect<T>(s: State<T>, item: T, cells: seq<Point>)
    requires NoDup(cells)
    ensures forall d :: Bucket(RemoveFromGridAll(s, item, cells), d) == (if d in cells then RemoveFirst(Bucket(s, d), item) else Bucket(s, d))
    decreases |cells|
  {
    if cells != [] {
      NoDupTail(cells);
      var s1 := RemoveFromGrid(s, item, cells[0]);
      var r := RemoveFromGridAll(s1, item, cells[1..]);
      RemoveFromGridAllEffect(s1, item, cells[1..]);
      assert r == RemoveFromGridAll(s, item, cells);
      forall d ensures Bucket(r, d) == (if d in cells then RemoveFirst(Bucket(s, d), item) else Bucket(s, d)) {
        assert d in cells <==> d == cells[0] || d in cells[1..];
        assert d == cells[0] ==> d !in cells[1..];
      }
    }
  }


  /** `Remove(T)`: the item leaves every bucket of its list, then its list is cleared and pooled. */
  function RemoveItem<T>(s: State<T>, item: T): State<T>
  {
    if item !in s.items then s
    else
      var s1 := RemoveFromGridAll(s, item, s.items[item]);
      s1.(items := s1.items - {item}, pointPool := s1.pointPool + [[]])
  }

  /** `Remove(T)` takes the item out of every bucket, untracks it, and keeps every pooled list empty. */
  lemma RemoveItemShape<T>(s: State<T>, e: Extent, item: T)
    requires Valid(s, e)
    ensures forall c :: Bucket(RemoveItem(s, item), c) == RemoveFirst(Bucket(s, c), item)
    ensures forall j :: CellsOf(RemoveItem(s, item), j) == if j == item then [] else CellsOf(s, j)
    ensures RemoveItem(s, item).items.Keys == s.items.Keys - {item}
    ensures RemoveItem(s, item).grid.Keys <= s.grid.Keys
    ensures PoolsEmpty(RemoveItem(s, item))
  {
    RemoveItemFrame(s, item);
    RemoveItemBuckets(s, e, item);
  }

  /** `Remove(T)` deletes the item once from every bucket: from those its list names by the loop, and from the others because it is not there. */
  lemma RemoveItemBuckets<T>(s: State<T>, e: Extent, item: T)
    requires Valid(s, e)
    ensures forall c :: Bucket(RemoveItem(s, item), c) == RemoveFirst(Bucket(s, c), item)
  {
    if item in s.items {
      var pl := s.items[item];
      CellsNoDup(s, e, item);
      RemoveFromGridAllEffect(s, item, pl);
      var s1 := RemoveFromGridAll(s, item, pl);
      forall c ensures Bucket(RemoveItem(s, item), c) == RemoveFirst(Bucket(s, c), item) {
        assert Bucket(RemoveItem(s, item), c) == Bucket(s1, c);
        if c !in pl {
          LinkedAt(s, e, c, item);
        }
      }
    } else {
      forall c ensures Bucket(RemoveItem(s, item), c) == RemoveFirst(Bucket(s, c), item) {
        LinkedAt(s, e, c, item);
      }
    }
  }

  /** `Remove(T)` clears exactly the item's cell list and, for a tracked item, pools one empty list. */
  lemma RemoveItemFrame<T>(s: State<T>, item: T)
    ensures forall j :: CellsOf(RemoveItem(s, item), j) == if j == item then [] else CellsOf(s, j)
    ensures RemoveItem(s, item).items.Keys == s.items.Keys - {item}
    ensures RemoveItem(s, item).grid.Keys <= s.grid.Keys
    ensures PoolsEmpty(s) ==> PoolsEmpty(RemoveItem(s, item))
    ensures item in s.items ==> RemoveItem(s, item).pointPool == s.pointPool + [[]]
  {
    if item in s.items {
      RemoveFromGridAllFrame(s, item, s.items[item]);
    }
  }

  /** Taking one item out of every bucket and untracking it keeps the index consistent. */
  lemma UntrackedValid<T>(s: State<T>, r: State<T>, e: Extent, item: T)
    requires Valid(s, e) && PoolsEmpty(r) && r.grid.Keys <= s.grid.Keys
    requires r.items.Keys == s.items.Keys - {item}
    requires forall c :: Bucket(r, c) == RemoveFirst(Bucket(s, c), item)
    requires forall j :: CellsOf(r, j) == if j == item then [] else CellsOf(s, j)
    ensures Valid(r, e)
  {
    ValidElim(s, e);
    UntrackedLinked(s, r, item);
    forall i | i in r.items ensures r.items[i] != [] {
      assert r.items[i] == CellsOf(r, i) == CellsOf(s, i) == s.items[i];
    }
    ValidIntro(r, e);
  }

  /** Taking one item out of every bucket and clearing its list keeps the buckets duplicate-free and linked. */
  lemma UntrackedLinked<T>(s: State<T>, r: State<T>, item: T)
    requires forall c :: NoDup(Bucket(s, c))
    requires forall d, j :: j in Bucket(s, d) <==> d in CellsOf(s, j)
    requires forall c :: Bucket(r, c) == RemoveFirst(Bucket(s, c), item)
    requires forall j :: CellsOf(r, j) == if j == item then [] else CellsOf(s, j)
    ensures forall c :: NoDup(Bucket(r, c))
    ensures forall d, j :: j in Bucket(r, d) <==> d in CellsOf(r, j)
  {
    forall c ensures NoDup(Bucket(r, c)) {
      RemoveFirstNoDup(Bucket(s, c), item);
    }
    forall d, j ensures j in Bucket(r, d) <==> d in CellsOf(r, j) {
      RemoveFirstNoDup(Bucket(s, d), item);
      if j == item {
        assert item !in Bucket(r, d);
        assert CellsOf(r, j) == [];
      } else {
        assert j in Bucket(r, d) <==> j in Bucket(s, d);
        assert CellsOf(r, j) == CellsOf(s, j);
        assert j in Bucket(s, d) <==> d in CellsOf(s, j);
      }
    }
  }


  /**
   * `Remove(T)` leaves an untracked item's grid alone; otherwise the item is
   * untracked and in no bucket afterwards, one empty list joins
   * `ListOfPointQueue`, every other item keeps its cells, and the index stays
   * consistent.
   */
  lemma RemoveItemEffect<T>(s: State<T>, e: Extent, item: T)
    requires Valid(s, e)
    ensures item !in s.items ==> RemoveItem(s, item) == s
    ensures Valid(RemoveItem(s, item), e)
    ensures RemoveItem(s, item).items.Keys == s.items.Keys - {item}
    ensures forall c :: Bucket(RemoveItem(s, item), c) == RemoveFirst(Bucket(s, c), item)
    ensures forall c :: item !in Bucket(RemoveItem(s, item), c)
    ensures forall j :: j != item ==> CellsOf(RemoveItem(s, item), j) == CellsOf(s, j)
    ensures item in s.items ==> RemoveItem(s, item).pointPool == s.pointPool + [[]]
  {
    RemoveItemShape(s, e, item);
    RemoveItemFrame(s, item);
    UntrackedValid(s, RemoveItem(s, item), e, item);
    forall c ensures item !in Bucket(RemoveItem(s, item), c) {
      BucketNoDup(s, e, c);
      RemoveFirstNoDup(Bucket(s, c), item);
    }
  }

  // ----- Remove(Point) -----

  /** One step of `Remove(Point)`: the cell leaves the item's list; an item left with no cells is dropped and its list pooled. */
  function Detach<T>(s: State<T>, c: Point, i: T): (r: State<T>)
    ensures r.grid == s.grid && r.itemPool == s.itemPool
    ensures PoolsEmpty(s) ==> PoolsEmpty(r)
    ensures r.pointPool == if i in s.items && RemoveFirst(s.items[i], c) == [] then s.pointPool + [[]] else s.pointPool
  {
    if i in s.items then
      var pl := RemoveFirst(s.items[i], c);
      if |pl| == 0 then s.(pointPool := s.pointPool + [pl], items := s.items - {i})
      else s.(items := s.items[i := pl])
    else s
  }

  /** One step of `Remove(Point)` takes the cell off one item's list, untracks it when the list runs empty, and pools exactly the lists of items it untracks. */
  lemma DetachEffect<T>(s: State<T>, c: Point, i: T)
    ensures forall j :: CellsOf(Detach(s, c, i), j) == (if j == i then RemoveFirst(CellsOf(s, i), c) else CellsOf(s, j))
    ensures forall j :: j in Detach(s, c, i).items <==> (j in s.items && (j == i ==> CellsOf(Detach(s, c, i), j) != []))
    ensures Detach(s, c, i).pointPool == s.pointPool + (if i in s.items && i !in Detach(s, c, i).items then [[]] else [])
  {
    var r := Detach(s, c, i);
    forall j ensures CellsOf(r, j) == (if j == i then RemoveFirst(CellsOf(s, i), c) else CellsOf(s, j)) {
      if j != i {
        assert j in r.items <==> j in s.items;
      }
    }
  }

  /** The loop of `Remove(Point)` over the bucket. */
  function DetachAll<T>(s: State<T>, c: Point, l: seq<T>): State<T>
    decreases |l|
  {
    if l == [] then s else DetachAll(Detach(s, c, l[0]), c, l[1..])
  }

  /** Over distinct occupants, the loop of `Remove(Point)` takes the cell off each one's list and untracks those left empty. */
  lemma {:induction false} DetachAllEffect<T>(s: State<T>, c: Point, l: seq<T>)
    requires NoDup(l)
    ensures DetachAll(s, c, l).grid == s.grid && DetachAll(s, c, l).itemPool == s.itemPool
    ensures forall j :: CellsOf(DetachAll(s, c, l), j) == (if j in l then RemoveFirst(CellsOf(s, j), c) else CellsOf(s, j))
    ensures forall j :: j in DetachAll(s, c, l).items <==> (j in s.items && (j in l ==> CellsOf(DetachAll(s, c, l), j) != []))
    ensures PoolsEmpty(s) ==> PoolsEmpty(DetachAll(s, c, l))
  {
    DetachAllFrame(s, c, l);
    DetachAllCells(s, c, l);
  }

  /** The loop of `Remove(Point)` leaves the grid and `ListOfItemQueue` alone and pools only empty lists. */
  lemma {:induction false} DetachAllFrame<T>(s: State<T>, c: Point, l: seq<T>)
    ensures DetachAll(s, c, l).grid == s.grid && DetachAll(s, c, l).itemPool == s.itemPool
    ensures PoolsEmpty(s) ==> PoolsEmpty(DetachAll(s, c, l))
    decreases |l|
  {
    if l != [] {
      DetachAllFrame(Detach(s, c, l[0]), c, l[1..]);
    }
  }

  /** Over distinct occupants, each listed item loses the cell once, is untracked when left empty, and no one else changes. */
  lemma {:induction false} DetachAllCells<T>(s: State<T>, c: Point, l: seq<T>)
    requires NoDup(l)
    ensures forall j :: CellsOf(DetachAll(s, c, l), j) == (if j in l then RemoveFirst(CellsOf(s, j), c) else CellsOf(s, j))
    ensures forall j :: j in DetachAll(s, c, l).items <==> (j in s.items && (j in l ==> CellsOf(DetachAll(s, c, l), j) != []))
    decreases |l|
  {
    if l != [] {
      NoDupTail(l);
      var s1 := Detach(s, c, l[0]);
      var r := DetachAll(s1, c, l[1..]);
      DetachEffect(s, c, l[0]);
      DetachAllCells(s1, c, l[1..]);
      assert r == DetachAll(s, c, l);
      forall j ensures CellsOf(r, j) == (if j in l then RemoveFirst(CellsOf(s, j), c) else CellsOf(s, j))
        && (j in r.items <==> (j in s.items && (j in l ==> CellsOf(r, j) != [])))
      {
        assert j in l <==> j == l[0] || j in l[1..];
        assert j == l[0] ==> j !in l[1..];
      }
    }
  }

  /** `Remove(Point)`: every occupant of the clamped cell loses that cell, then the bucket is cleared in place. */
  function RemoveCell<T>(s: State<T>, e: Extent, cell: Point): State<T>
  {
    var c := Clamp(cell, e);
    var s1 := DetachAll(s, c, Bucket(s, c));
    if c in s1.grid then s1.(grid := s1.grid[c := []]) else s1
  }

  /** `Remove(Point)` empties only the clamped cell's bucket and takes that cell off every item's list. */
  lemma RemoveCellShape<T>(s: State<T>, e: Extent, cell: Point)
    requires Valid(s, e)
    ensures forall d :: Bucket(RemoveCell(s, e, cell), d) == if d == Clamp(cell, e) then [] else Bucket(s, d)
    ensures forall j :: CellsOf(RemoveCell(s, e, cell), j) == RemoveFirst(CellsOf(s, j), Clamp(cell, e))
    ensures forall j :: j in RemoveCell(s, e, cell).items <==> (j in s.items && (j in Bucket(s, Clamp(cell, e)) ==> CellsOf(RemoveCell(s, e, cell), j) != []))
    ensures RemoveCell(s, e, cell).grid.Keys == s.grid.Keys
    ensures PoolsEmpty(RemoveCell(s, e, cell))
  {
    DetachAllFrame(s, Clamp(cell, e), Bucket(s, Clamp(cell, e)));
    RemoveCellBuckets(s, e, cell);
    RemoveCellCells(s, e, cell);
    RemoveCellItems(s, e, cell);
  }

  /** `Remove(Point)` empties the clamped cell's bucket, leaves every other bucket alone, and keeps the grid's cells. */
  lemma RemoveCellBuckets<T>(s: State<T>, e: Extent, cell: Point)
    ensures forall d :: Bucket(RemoveCell(s, e, cell), d) == if d == Clamp(cell, e) then [] else Bucket(s, d)
    ensures RemoveCell(s, e, cell).grid.Keys == s.grid.Keys
  {
    DetachAllFrame(s, Clamp(cell, e), Bucket(s, Clamp(cell, e)));
  }

  /** After `Remove(Point)` an occupant of the clamped cell stays tracked exactly when it still has cells; others keep their tracking. */
  lemma RemoveCellItems<T>(s: State<T>, e: Extent, cell: Point)
    requires Valid(s, e)
    ensures forall j :: j in RemoveCell(s, e, cell).items <==> (j in s.items && (j in Bucket(s, Clamp(cell, e)) ==> CellsOf(RemoveCell(s, e, cell), j) != []))
  {
    var c := Clamp(cell, e);
    BucketNoDup(s, e, c);
    DetachAllCells(s, c, Bucket(s, c));
    assert RemoveCell(s, e, cell).items == DetachAll(s, c, Bucket(s, c)).items;
  }

  /** `Remove(Point)` takes the clamped cell off every item's list, those outside its bucket included, where it never was. */
  lemma RemoveCellCells<T>(s: State<T>, e: Extent, cell: Point)
    requires Valid(s, e)
    ensures forall j :: CellsOf(RemoveCell(s, e, cell), j) == RemoveFirst(CellsOf(s, j), Clamp(cell, e))
  {
    var c := Clamp(cell, e);
    var l := Bucket(s, c);
    BucketNoDup(s, e, c);
    DetachAllCells(s, c, l);
    forall j ensures CellsOf(RemoveCell(s, e, cell), j) == RemoveFirst(CellsOf(s, j), c) {
      assert CellsOf(RemoveCell(s, e, cell), j) == CellsOf(DetachAll(s, c, l), j);
      if j !in l {
        LinkedAt(s, e, c, j);
      }
    }
  }

  /** How many of the listed items `Remove(Point)` leaves with no cells: those whose list is just the cell. */
  function Emptied<T>(s: State<T>, c: Point, l: seq<T>): nat
    decreases |l|
  {
    if l == [] then 0
    else (if l[0] in s.items && RemoveFirst(s.items[l[0]], c) == [] then 1 else 0) + Emptied(s, c, l[1..])
  }

  /** `n` empty lists. */
  function Blanks<X>(n: nat): (r: seq<seq<X>>)
    ensures |r| == n && forall k | 0 <= k < n :: r[k] == []
  {
    if n == 0 then [] else [[]] + Blanks(n - 1)
  }

  /** A step of `Remove(Point)` for one item does not change how many of the other items it will empty. */
  lemma {:induction false} EmptiedFrame<T>(s: State<T>, c: Point, i: T, l: seq<T>)
    requires i !in l
    ensures Emptied(Detach(s, c, i), c, l) == Emptied(s, c, l)
    decreases |l|
  {
    if l != [] {
      assert l[0] != i;
      assert l[0] in Detach(s, c, i).items <==> l[0] in s.items;
      assert l[0] in s.items ==> Detach(s, c, i).items[l[0]] == s.items[l[0]];
      EmptiedFrame(s, c, i, l[1..]);
    }
  }

  /** Over distinct occupants, the loop of `Remove(Point)` pools one empty list per occupant it leaves with no cells. */
  lemma {:induction false} DetachAllPool<T>(s: State<T>, c: Point, l: seq<T>)
    requires NoDup(l)
    ensures DetachAll(s, c, l).pointPool == s.pointPool + Blanks(Emptied(s, c, l))
    decreases |l|
  {
    if l == [] {
      assert s.pointPool + Blanks(0) == s.pointPool;
    } else {
      NoDupTail(l);
      var s1 := Detach(s, c, l[0]);
      DetachAllPool(s1, c, l[1..]);
      EmptiedFrame(s, c, l[0], l[1..]);
      var b := if l[0] in s.items && RemoveFirst(s.items[l[0]], c) == [] then 1 else 0;
      var m := Emptied(s, c, l[1..]);
      assert s1.pointPool == s.pointPool + Blanks(b);
      assert Blanks<Point>(b) + Blanks(m) == Blanks(b + m);
      AppendAssoc(s.pointPool, Blanks(b), Blanks(m));
    }
  }

  /** `Remove(Point)` pools one empty list for every occupant of the clamped cell it leaves with no cells, and nothing else. */
  lemma RemoveCellPool<T>(s: State<T>, e: Extent, cell: Point)
    requires Valid(s, e)
    ensures RemoveCell(s, e, cell).pointPool == s.pointPool + Blanks(Emptied(s, Clamp(cell, e), Bucket(s, Clamp(cell, e))))
  {
    var c := Clamp(cell, e);
    BucketNoDup(s, e, c);
    DetachAllPool(s, c, Bucket(s, c));
  }

  /** Emptying one bucket and taking its cell off every item's list keeps the index consistent. */
  lemma ClearedValid<T>(s: State<T>, r: State<T>, e: Extent, c: Point)
    requires Valid(s, e) && PoolsEmpty(r) && r.grid.Keys == s.grid.Keys
    requires forall d :: Bucket(r, d) == if d == c then [] else Bucket(s, d)
    requires forall j :: CellsOf(r, j) == RemoveFirst(CellsOf(s, j), c)
    requires forall j :: j in r.items <==> (j in s.items && (j in Bucket(s, c) ==> CellsOf(r, j) != []))
    ensures Valid(r, e)
  {
    ValidElim(s, e);
    ClearedLinked(s, r, c);
    forall j | j in r.items ensures r.items[j] != [] {
      assert CellsOf(r, j) == r.items[j];
      if j !in Bucket(s, c) {
        assert CellsOf(s, j) == s.items[j];
      }
    }
    ValidIntro(r, e);
  }

  /** Emptying one bucket and taking its cell off every list keeps the lists duplicate-free and linked. */
  lemma ClearedLinked<T>(s: State<T>, r: State<T>, c: Point)
    requires forall j :: NoDup(CellsOf(s, j))
    requires forall d, j :: j in Bucket(s, d) <==> d in CellsOf(s, j)
    requires forall d :: Bucket(r, d) == if d == c then [] else Bucket(s, d)
    requires forall j :: CellsOf(r, j) == RemoveFirst(CellsOf(s, j), c)
    ensures forall j :: NoDup(CellsOf(r, j))
    ensures forall d, j :: j in Bucket(r, d) <==> d in CellsOf(r, j)
  {
    forall j ensures NoDup(CellsOf(r, j)) {
      RemoveFirstNoDup(CellsOf(s, j), c);
    }
    forall d, j ensures j in Bucket(r, d) <==> d in CellsOf(r, j) {
      RemoveFirstNoDup(CellsOf(s, j), c);
      if d == c {
        assert Bucket(r, d) == [];
        assert c !in CellsOf(r, j);
      } else {
        assert Bucket(r, d) == Bucket(s, d);
        assert d in CellsOf(r, j) <==> d in CellsOf(s, j);
        assert j in Bucket(s, d) <==> d in CellsOf(s, j);
      }
    }
  }


  /**
   * After `Remove(Point)` the clamped cell's bucket is empty, every other
   * bucket is unchanged, each item loses exactly that cell, an item left with
   * no cells is untracked and one empty list is pooled for it, and the index
   * stays consistent.
   */
  lemma RemoveCellEffect<T>(s: State<T>, e: Extent, cell: Point)
    requires Valid(s, e)
    ensures Valid(RemoveCell(s, e, cell), e)
    ensures Bucket(RemoveCell(s, e, cell), Clamp(cell, e)) == []
    ensures forall d :: d != Clamp(cell, e) ==> Bucket(RemoveCell(s, e, cell), d) == Bucket(s, d)
    ensures forall j :: CellsOf(RemoveCell(s, e, cell), j) == RemoveFirst(CellsOf(s, j), Clamp(cell, e))
    ensures forall j :: j in RemoveCell(s, e, cell).items <==> (j in s.items && CellsOf(RemoveCell(s, e, cell), j) != [])
    ensures RemoveCell(s, e, cell).grid.Keys == s.grid.Keys
    ensures RemoveCell(s, e, cell).pointPool == s.pointPool + Blanks(Emptied(s, Clamp(cell, e), Bucket(s, Clamp(cell, e))))
  {
    RemoveCellShape(s, e, cell);
    RemoveCellPool(s, e, cell);
    ClearedValid(s, RemoveCell(s, e, cell), e, Clamp(cell, e));
  }

  // ----- Move(T, Point) -----

  /** `Move(T, Point)`: `Remove(T)` then `Add(T, Point)`. */
  function Move<T>(s: State<T>, e: Extent, item: T, cell: Point): State<T>
  {
    Add(RemoveItem(s, item), e, item, cell)
  }

  /**
   * After `Move` the item occupies exactly the clamped cell, once; every
   * other item keeps its cells and its bucket memberships.
   */
  lemma MoveEffect<T>(s: State<T>, e: Extent, item: T, cell: Point)
    requires Valid(s, e)
    ensures Valid(Move(s, e, item, cell), e)
    ensures CellsOf(Move(s, e, item, cell), item) == [Clamp(cell, e)]
    ensures forall d :: item in Bucket(Move(s, e, item, cell), d) <==> d == Clamp(cell, e)
    ensures multiset(Bucket(Move(s, e, item, cell), Clamp(cell, e)))[item] == 1
  {
    var s1 := RemoveItem(s, item);
    assert Valid(s1, e) && CellsOf(s1, item) == [] && forall d :: item !in Bucket(s1, d) by {
      RemoveItemEffect(s, e, item);
    }
    AddEffect(s1, e, item, cell);
    AddOnce(s1, e, item, cell);
  }

  /** `Move(T, Point)` leaves every other item where it was. */
  lemma MoveOthers<T>(s: State<T>, e: Extent, item: T, cell: Point)
    requires Valid(s, e)
    ensures forall j :: j != item ==> CellsOf(Move(s, e, item, cell), j) == CellsOf(s, j)
    ensures forall d, j :: j != item ==> (j in Bucket(Move(s, e, item, cell), d) <==> j in Bucket(s, d))
  {
    var s1 := RemoveItem(s, item);
    RemoveItemShape(s, e, item);
    AddBuckets(s1, e, item, cell);
    AddCells(s1, e, item, cell);
    OthersKept(s, s1, Move(s, e, item, cell), item);
  }

  /** Deleting an item from every bucket and then appending it somewhere leaves every other item's memberships as they were. */
  lemma OthersKept<T>(s: State<T>, s1: State<T>, r: State<T>, item: T)
    requires forall d :: Bucket(s1, d) == RemoveFirst(Bucket(s, d), item)
    requires forall d :: Bucket(r, d) == Bucket(s1, d) || Bucket(r, d) == Bucket(s1, d) + [item]
    ensures forall d, j :: j != item ==> (j in Bucket(r, d) <==> j in Bucket(s, d))
  {
    forall d, j | j != item ensures j in Bucket(r, d) <==> j in Bucket(s, d) {
      RemoveFirstOthers(Bucket(s, d), item, j);
      assert j in Bucket(r, d) <==> j in Bucket(s1, d);
    }
  }

  /** `Move(T, Point)` of an untracked item is a plain `Add(T, Point)`. */
  lemma MoveUntracked<T>(s: State<T>, e: Extent, item: T, cell: Point)
    requires item !in s.items
    ensures Move(s, e, item, cell) == Add(s, e, item, cell)
  {
  }

  /** After `Add(i, c1)` and then `Move(i, c2)` onto another cell, the cell of c1 lacks i and that of c2 holds it once. */
  lemma AddThenMove<T>(s: State<T>, e: Extent, item: T, c1: Point, c2: Point)
    requires Valid(s, e) && Clamp(c1, e) != Clamp(c2, e)
    ensures item !in Get(Move(Add(s, e, item, c1), e, item, c2), e, c1)
    ensures multiset(Get(Move(Add(s, e, item, c1), e, item, c2), e, c2))[item] == 1
  {
    AddEffect(s, e, item, c1);
    MoveEffect(Add(s, e, item, c1), e, item, c2);
  }
}
