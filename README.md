# CollisionGrid in Dafny

A model of `CollisionGrid<T>`. It is a uniform-grid spatial index for games. The world is cut into `NumberOfCellsX` by `NumberOfCellsY` cells, and items are registered in the cells they overlap. The index keeps two dictionaries in step:

- `Grid` maps a cell to its bucket, a list of items.
- `Items` maps an item to the list of cells it occupies.

Emptied lists from either dictionary go into one of two queues, `ListOfPointQueue` and `ListOfItemQueue`. `AddToItems` reuses lists from `ListOfPointQueue`; the source never takes a list back out of `ListOfItemQueue`. Every query or update can name its place in four ways:

- a cell (`Point`);
- a cell rectangle (`Rectangle`);
- a world position (`Vector2`);
- a world box (`Rect`).

Positions and boxes are turned into cells and cell rectangles. Anything off the grid is clamped onto the border cells.

The project has four value-level modules and one class:

- `lists.dfy` (`Lists`): the two `List<T>` behaviours the grid relies on.
  - `NoDup`: no duplicates.
  - `RemoveFirst`: `List<T>.Remove`, which deletes the first occurrence.
  - `Without`: filtering a list.
- `cells.dfy` (`Cells`): points, rectangles, positions and boxes.
  - `Clamp(Point)` and `Clamp(Rectangle)`.
  - Truncating `Cell(Vector2)` and `Rectangle(Rect)`.
  - `Span`, the row-major cell order that `FillList` produces.
- `index.dfy` (`Index`): the single-cell operations, as functions on a `State` value.
  - `State` holds the two dictionaries and the two pools.
  - The index invariant `Valid`:
    - an item is in a cell's bucket exactly when the cell is in the item's list;
    - no list holds a duplicate;
    - every tracked item has at least one cell;
    - every key of `Grid` is on the grid;
    - every pooled list is empty.
  - The lemmas about each operation.
- `regions.dfy` (`Regions`): the rectangle-level operations, as folds of the cell-level ones over the cells of `FillList`, with their lemmas.
- `collision_grid.dfy` (`CollisionGrid`): the class `CollisionGrid<T>`.
  - The dictionaries, pools and scratch lists `lop` and `result` are fields that its methods update in place, with the source's loops.
  - Each public method other than `Dispose` requires and ensures `Valid()`. The private helpers `AddToGrid`, `AddToItems`, `RemoveFromGrid`, `Detach` and `FillList` state only their new state; `Dispose` ensures `!Valid()`.
  - Each method's new state is the matching `Index` or `Regions` function of its old state. So every lemma about those functions applies to the object.

Points where the model departs from the code, or where the code departs from the usual description of the grid:

- **Rectangle queries keep duplicates.** `Get(Rectangle)` concatenates the cell buckets without removing duplicates. An item that covers k cells of the range appears k times (`Regions.GetAllCount`).
- **`Remove(Point)` keeps the cell's key.** It clears the bucket in place but leaves its `Grid` key. So `AllOccupiedCells()` can list a cell whose bucket is empty, while `RemoveFromGrid` does drop the key it empties.
- **The field names differ by file.** `CollisionGrid.Point.cs` writes `grid`, `items` and `listOfPointQueue`, while `CollisionGrid.cs` writes `Grid`, `Items` and `ListOfPointQueue`. Both spellings name the same state here.
- **Missing cells.** `Get(Point)`, `Remove(Point)` and `AddToGrid` index `grid[...]` directly, which throws for a cell without an entry. Yet `RemoveFromGrid` deletes entries. The model departs from the code here: it reads a missing entry as an empty bucket, and its `AddToGrid` creates a missing bucket, taking a list from `ListOfItemQueue` when one is waiting. The source's `AddToGrid` allocates nothing.
- **`First(Point)` and `IsEmpty(Point)` are defined here.** The class calls both but the files do not contain them. They are defined as the head of the clamped cell's bucket (or none) and as "that bucket is empty".
- **`First` returns an `Option`.** The source signals "nothing found" with `default(T)`, which a real item can equal.

## Model

| member | source | states |
|---|---|---|
| Lists.RemoveFirst | CollisionGrid/CollisionGrid.cs:102 | `List<T>.Remove` takes one occurrence of the element out of the multiset of the list; a list without it is unchanged |
| Lists.RemoveFirstNoDup | CollisionGrid/CollisionGrid.cs:102 | on a duplicate-free list, `Remove(x)` leaves no `x`, keeps every other element and stays duplicate-free |
| Lists.RemoveFirstIsWithout | CollisionGrid/CollisionGrid.Point.cs:99 | on a duplicate-free list, `Remove(x)` equals filtering `x` out |
| Lists.WithoutWithout | CollisionGrid/CollisionGrid.Rectangle.cs:105-108 | taking one set of cells off a list and then another equals taking off both at once |
| Lists.WithoutMembers | CollisionGrid/CollisionGrid.Rectangle.cs:105-108 | an element survives filtering exactly when it was in the list and not filtered out |
| Cells.ClampAxis | CollisionGrid/CollisionGrid.cs:148-156 | with at least one cell the clamped coordinate is on the grid; an on-grid coordinate is unchanged |
| Cells.Clamp | CollisionGrid/CollisionGrid.cs:146-168 | with cell counts at least 1 the result is on the grid; an on-grid cell is returned unchanged |
| Cells.ClampIdempotent | CollisionGrid/CollisionGrid.cs:146-168 | clamping twice is clamping once |
| Cells.ClampNearest | CollisionGrid/CollisionGrid.cs:148-156 | the clamped coordinate is the on-grid coordinate nearest the input |
| Cells.ClampMonotone | CollisionGrid/CollisionGrid.cs:148-156 | clamping keeps the order of coordinates |
| Cells.ClampExample | CollisionGrid/CollisionGrid.Point.cs:40 | on a 10 by 10 grid, cell (15, -3) is clamped to (9, 0) |
| Cells.ClampRect | CollisionGrid/CollisionGrid.cs:138-144 | the clamped rectangle runs from the clamped location to the clamped last cell |
| Cells.ClampRectNonEmpty | CollisionGrid/CollisionGrid.cs:138-144 | a rectangle of size at least 1 stays at least 1 wide and high once clamped, and both of its corner cells are on the grid, even when it lies wholly off the grid |
| Cells.Trunc | CollisionGrid/CollisionGrid.cs:135 | the `(int)` conversion rounds toward zero: it is the floor for non-negative values and the ceiling for negative ones |
| Cells.TruncMonotone | CollisionGrid/CollisionGrid.cs:135 | truncation keeps the order of values |
| Cells.ClampTruncIsClampFloor | CollisionGrid/CollisionGrid.cs:135 | once clamped, truncation and flooring give the same coordinate |
| Cells.RectangleOf | CollisionGrid/CollisionGrid.cs:125-131 | `Rectangle(Rect)` starts at the cell of the top-left corner and ends at the cell of the bottom-right one |
| Cells.RectangleOfNonEmpty | CollisionGrid/CollisionGrid.cs:125-136 | a box whose top-left corner is not past its bottom-right corner gives a cell rectangle of size at least 1 on both axes |
| Cells.RegionExample | CollisionGrid/CollisionGrid.cs:125-144 | a 5..25 box with 10-unit cells spans cells 0..2 on both axes, which clamp to themselves on a 10 by 10 grid (9 cells) |
| Cells.RowMembers | CollisionGrid/CollisionGrid.Rectangle.cs:31-34 | the inner loop of `FillList` yields exactly the cells of one row between its first and last column |
| Cells.RowAt | CollisionGrid/CollisionGrid.Rectangle.cs:31-34 | the k-th cell of a row has column `X + k` |
| Cells.RowNoDup | CollisionGrid/CollisionGrid.Rectangle.cs:31-34 | a row holds no cell twice |
| Cells.RowsMembers | CollisionGrid/CollisionGrid.Rectangle.cs:29-35 | the first h rows hold exactly the covered cells of those rows |
| Cells.RowsNoDup | CollisionGrid/CollisionGrid.Rectangle.cs:29-35 | the first h rows hold no cell twice |
| Cells.RowsLength | CollisionGrid/CollisionGrid.Rectangle.cs:29-35 | the first h rows hold `h * Size.X` cells (none when either is not positive) |
| Cells.RowsAt | CollisionGrid/CollisionGrid.Rectangle.cs:29-35 | the k-th cell is at column `X + k mod Size.X`, row `Y + k div Size.X` |
| Cells.SpanMembers | CollisionGrid/CollisionGrid.Rectangle.cs:25-36 | the cells enumerated are exactly the cells the rectangle covers |
| Cells.SpanNoDup | CollisionGrid/CollisionGrid.Rectangle.cs:25-36 | no cell is enumerated twice |
| Cells.SpanLength | CollisionGrid/CollisionGrid.Rectangle.cs:25-36 | `Size.X * Size.Y` cells for a non-empty rectangle, none for an empty one |
| Cells.SpanAt | CollisionGrid/CollisionGrid.Rectangle.cs:25-36 | row-major order: y outer, x inner |
| Cells.ClampedSpanInBounds | CollisionGrid/CollisionGrid.Rectangle.cs:27-35 | every cell of a clamped rectangle is on the grid |
| Cells.ClampedSpanNonEmpty | CollisionGrid/CollisionGrid.Rectangle.cs:27-35 | a clamped non-empty rectangle enumerates at least its clamped location |
| Index.ValidElim | CollisionGrid/CollisionGrid.cs:35-38 | the index invariant read on buckets and cell lists, missing keys included: no duplicates, and membership is two-way |
| Index.ValidIntro | CollisionGrid/CollisionGrid.cs:35-38 | the index invariant from those facts, on-grid keys, non-empty cell lists and empty pools |
| Index.EmptyValid | CollisionGrid/CollisionGrid.cs:40-54 | the freshly constructed index satisfies the invariant |
| Index.BucketNoDup | CollisionGrid/CollisionGrid.Point.cs:46-53 | no bucket holds an item twice |
| Index.CellsNoDup | CollisionGrid/CollisionGrid.Point.cs:74-77 | no cell list holds a cell twice |
| Index.LinkedAt | CollisionGrid/CollisionGrid.cs:35-36 | an item is in a cell's bucket exactly when that cell is in its cell list |
| Index.First | CollisionGrid/CollisionGrid.Rectangle.cs:67 | none exactly when the clamped cell's bucket is empty; otherwise an item of that bucket |
| Index.GetMembers | CollisionGrid/CollisionGrid.Point.cs:22-28 | `Get(Point)` holds exactly the items whose cell lists name the clamped cell, each once |
| Index.AllItemsOccupy | CollisionGrid/CollisionGrid.cs:115-118 | the tracked items are exactly the items in some bucket |
| Index.AllOccupiedCellsCover | CollisionGrid/CollisionGrid.cs:120-123 | every non-empty bucket's cell is listed, and every listed cell is on the grid |
| Index.AddToGrid | CollisionGrid/CollisionGrid.Point.cs:46-53 | afterwards the cell has a bucket holding the item and no other bucket changed; with a pool of empty lists the bucket is the old one plus the item unless it was there; touches neither `Items` nor `ListOfPointQueue` |
| Index.AddToItems | CollisionGrid/CollisionGrid.Point.cs:55-79 | afterwards the item is tracked with the cell in its list and no other item's list changed; with a pool of empty lists the list is the old one plus the cell unless it was there; touches neither `Grid` nor `ListOfItemQueue` |
| Index.AddToItemsNew | CollisionGrid/CollisionGrid.Point.cs:59-70 | a new item's cell list is exactly the one cell, and a non-empty `ListOfPointQueue` gives up one list |
| Index.AddBuckets | CollisionGrid/CollisionGrid.Point.cs:36-53 | `Add(T, Point)` appends the item to the clamped cell's bucket unless it is already there, changes no other bucket, and adds that cell's key |
| Index.AddCells | CollisionGrid/CollisionGrid.Point.cs:36-79 | `Add(T, Point)` appends the clamped cell to the item's list unless present, changes no other item's list, and tracks the item |
| Index.AddEffect | CollisionGrid/CollisionGrid.Point.cs:36-79 | `Add(T, Point)` keeps the index invariant, with the bucket and cell-list effects above |
| Index.AddLinked | CollisionGrid/CollisionGrid.Point.cs:46-79 | inserting the item into a bucket together with the cell into its list keeps both lists duplicate-free and membership two-way |
| Index.AddOnce | CollisionGrid/CollisionGrid.Point.cs:36-53 | after `Add(T, Point)` the item occurs exactly once in the clamped bucket and the cell exactly once in its list |
| Index.AddIdempotent | CollisionGrid/CollisionGrid.Point.cs:46-79 | adding the same item at the same cell twice is adding it once |
| Index.AddPoolTransparent | CollisionGrid/CollisionGrid.Point.cs:59-70 | with pools of empty lists only, how many lists wait in a pool does not change what `Add` stores |
| Index.RemoveFromGrid | CollisionGrid/CollisionGrid.cs:96-113 | only the named bucket loses the item (once); `Items` and `ListOfPointQueue` are untouched, no key is added, pools stay empty lists |
| Index.RemoveFromGridPools | CollisionGrid/CollisionGrid.cs:103-111 | a bucket left empty is pooled and its key dropped; otherwise the keys and `ListOfItemQueue` are unchanged |
| Index.RemoveFromGridAllFrame | CollisionGrid/CollisionGrid.cs:85-88 | the loop of `Remove(T)` touches neither `Items` nor `ListOfPointQueue`, adds no key and pools only empty lists |
| Index.RemoveFromGridAllEffect | CollisionGrid/CollisionGrid.cs:85-88 | over distinct cells, the loop deletes the item once from every listed bucket and from none other |
| Index.RemoveItemFrame | CollisionGrid/CollisionGrid.cs:74-94 | `Remove(T)` empties the item's cell list, untracks it, leaves other lists, pools only empty lists, and for a tracked item adds exactly one empty list to `ListOfPointQueue` |
| Index.RemoveItemShape | CollisionGrid/CollisionGrid.cs:74-113 | `Remove(T)` deletes the item from every bucket, clears its cell list and keeps the pools empty |
| Index.RemoveItemBuckets | CollisionGrid/CollisionGrid.cs:85-88 | `Remove(T)` deletes the item once from every bucket: the listed ones by the loop, the others because, by the invariant, it is not there |
| Index.UntrackedValid | CollisionGrid/CollisionGrid.cs:74-113 | removing an item from every bucket and untracking it keeps the index invariant |
| Index.UntrackedLinked | CollisionGrid/CollisionGrid.cs:74-113 | removing an item on both sides keeps buckets duplicate-free and membership two-way |
| Index.RemoveItemEffect | CollisionGrid/CollisionGrid.cs:74-113 | `Remove(T)` of an untracked item changes nothing; otherwise the invariant holds, the item is in no bucket and no key, and other items keep their cell lists; a tracked item's removal pools exactly one empty list in `ListOfPointQueue` |
| Index.Detach | CollisionGrid/CollisionGrid.Point.cs:95-105 | takes one cell off one item's list, without touching `Grid` or `ListOfItemQueue`; `ListOfPointQueue` gains one empty list exactly when the item's list runs empty, and is unchanged otherwise |
| Index.DetachEffect | CollisionGrid/CollisionGrid.Point.cs:95-105 | the item's list loses the cell; an item left with no cells is untracked, and exactly then one empty list is pooled; other items are untouched |
| Index.DetachAllEffect | CollisionGrid/CollisionGrid.Point.cs:93-106 | over a duplicate-free bucket, each occupant's list loses the cell, emptied occupants are untracked, nobody else changes |
| Index.DetachAllFrame | CollisionGrid/CollisionGrid.Point.cs:93-106 | the loop of `Remove(Point)` leaves `Grid` and `ListOfItemQueue` alone and pools only empty lists |
| Index.DetachAllCells | CollisionGrid/CollisionGrid.Point.cs:93-106 | over distinct occupants, each listed item loses the cell once and is untracked when left with none; unlisted items are untouched |
| Index.EmptiedFrame | CollisionGrid/CollisionGrid.Point.cs:95-105 | detaching one item does not change which of the other items the loop will leave with no cells |
| Index.DetachAllPool | CollisionGrid/CollisionGrid.Point.cs:93-106 | over distinct occupants, the loop pools one empty list per occupant whose list is just the cell, and nothing else |
| Index.RemoveCellShape | CollisionGrid/CollisionGrid.Point.cs:86-110 | computes the buckets, cell lists, keys and pools after `Remove(Point)` |
| Index.RemoveCellBuckets | CollisionGrid/CollisionGrid.Point.cs:91-108 | `Remove(Point)` empties the clamped bucket in place, keeps every other bucket and every key |
| Index.RemoveCellCells | CollisionGrid/CollisionGrid.Point.cs:93-106 | `Remove(Point)` takes the clamped cell off every item's list; items outside the bucket, by the invariant, never held it |
| Index.RemoveCellItems | CollisionGrid/CollisionGrid.Point.cs:93-106 | an occupant of the clamped cell stays tracked exactly when it keeps a cell; other items keep their tracking |
| Index.RemoveCellPool | CollisionGrid/CollisionGrid.Point.cs:100-103 | `ListOfPointQueue` gains one empty list for every occupant `Remove(Point)` leaves with no cells |
| Index.ClearedValid | CollisionGrid/CollisionGrid.Point.cs:86-110 | clearing a bucket and taking its cell off every list keeps the invariant |
| Index.ClearedLinked | CollisionGrid/CollisionGrid.Point.cs:86-110 | the same step keeps the cell lists duplicate-free and membership two-way |
| Index.RemoveCellEffect | CollisionGrid/CollisionGrid.Point.cs:86-110 | after `Remove(Point)` the clamped bucket is empty, others are unchanged, every item loses exactly that cell, items left with no cells are untracked with one empty list pooled for each, the keys stay, the invariant holds |
| Index.MoveEffect | CollisionGrid/CollisionGrid.Point.cs:118-125 | after `Move(T, Point)` the item's list is exactly the clamped cell and the item is in that bucket once and in no other |
| Index.MoveOthers | CollisionGrid/CollisionGrid.Point.cs:118-125 | `Move(T, Point)` changes no other item's cell list or bucket membership |
| Index.OthersKept | CollisionGrid/CollisionGrid.Point.cs:118-125 | removing the item everywhere and adding it somewhere leaves other items' memberships unchanged |
| Index.MoveUntracked | CollisionGrid/CollisionGrid.Point.cs:112-125 | moving an untracked item is adding it |
| Index.AddThenMove | CollisionGrid/CollisionGrid.Point.cs:118-125 | after add at one cell and move to another, the item is gone from the first and at the second once |
| Regions.RegionFacts | CollisionGrid/CollisionGrid.Rectangle.cs:25-36 | `FillList` lists each cell of the clamped rectangle exactly once, and only cells on the grid |
| Regions.GetAllMembers | CollisionGrid/CollisionGrid.Rectangle.cs:38-50 | an item is in `Get(Rectangle)` exactly when it is in the bucket of some listed cell |
| Regions.GetAllCount | CollisionGrid/CollisionGrid.Rectangle.cs:38-50 | an item occurs in `Get(Rectangle)` as many times as there are listed cells whose bucket holds it |
| Regions.FirstAllIsHead | CollisionGrid/CollisionGrid.Rectangle.cs:59-75 | `First(Rectangle)` is the head of `Get(Rectangle)`, or none when that is empty |
| Regions.AllEmptyIff | CollisionGrid/CollisionGrid.Rectangle.cs:131-145 | every cell empty, `Get(Rectangle)` empty and `First(Rectangle)` none are equivalent |
| Regions.AddAllBuckets | CollisionGrid/CollisionGrid.Rectangle.cs:83-93 | adding over on-grid cells appends the item once to each listed bucket lacking it and changes no other |
| Regions.AddAllCells | CollisionGrid/CollisionGrid.Rectangle.cs:83-93 | the item's cells become its old cells plus the listed ones; other items keep their lists |
| Regions.AddAllValid | CollisionGrid/CollisionGrid.Rectangle.cs:83-93 | adding over on-grid cells keeps the invariant |
| Regions.AddAllEffect | CollisionGrid/CollisionGrid.Rectangle.cs:83-93 | the three facts above together |
| Regions.AddAllOnce | CollisionGrid/CollisionGrid.Rectangle.cs:83-93 | the item occurs exactly once in the bucket of every listed cell |
| Regions.AddOneCell | CollisionGrid/CollisionGrid.Point.cs:74-77 | one `Add` at an on-grid cell appends that cell to the item's list unless present |
| Regions.AddAllAppends | CollisionGrid/CollisionGrid.Rectangle.cs:124-127 | adding new, distinct, on-grid cells appends them to the item's list in order |
| Regions.RemoveAllEffect | CollisionGrid/CollisionGrid.Rectangle.cs:100-110 | removing over on-grid cells empties exactly their buckets, filters them out of every cell list, and keeps the invariant |
| Regions.RemoveStepCells | CollisionGrid/CollisionGrid.Rectangle.cs:105-108 | one `Remove(Point)` followed by the rest of the fold filters out all the cells |
| Regions.RemoveAllCells | CollisionGrid/CollisionGrid.Rectangle.cs:100-110 | a cell is left in an item's list exactly when it was there and was not removed |
| Regions.MoveAllEffect | CollisionGrid/CollisionGrid.Rectangle.cs:118-129 | over distinct on-grid cells, the item's list becomes those cells in order, it is in exactly their buckets, other items keep their lists, the invariant holds |
| Regions.MoveAllUntracked | CollisionGrid/CollisionGrid.Rectangle.cs:112-129 | moving an untracked item onto a rectangle is adding it there |
| Regions.AddRectangleEffect | CollisionGrid/CollisionGrid.Rectangle.cs:83-93 | after `Add(T, Rectangle)` the item is once in each bucket of the clamped rectangle and each of those cells is in its list |
| Regions.RemoveRectangleEffect | CollisionGrid/CollisionGrid.Rectangle.cs:100-110 | after `Remove(Rectangle)` every covered cell is empty and every other bucket is unchanged |
| Regions.MoveRectangleEffect | CollisionGrid/CollisionGrid.Rectangle.cs:118-129 | after `Move(T, Rectangle)` the item's cells are exactly the clamped rectangle's, row-major, and it is in exactly those buckets |
| Regions.AddPositionOnGrid | CollisionGrid/CollisionGrid.Vector2.cs:50-56 | `Add(T, Vector2)` puts the item in an on-grid cell for any position |
| Regions.RectRegion | CollisionGrid/CollisionGrid.Rect.cs:21-68 | a box operation visits exactly the cells between the clamped cells of its two corners |
| Regions.AddRectOnGrid | CollisionGrid/CollisionGrid.Rect.cs:35-41 | `Add(T, Rect)` with a well-formed box registers the item in at least one on-grid cell, even from off the grid |
| CollisionGrid.CollisionGrid.constructor | CollisionGrid/CollisionGrid.cs:40-54 | stores the dimensions, cell sizes `Width / NumberOfCellsX` and `Height / NumberOfCellsY`, and an empty index that satisfies the invariant |
| CollisionGrid.CollisionGrid.GetCells | CollisionGrid/CollisionGrid.cs:56-68 | `Get(T)` returns the item's cell list, empty when untracked, and it names exactly the cells whose buckets hold the item |
| CollisionGrid.CollisionGrid.RemoveItem | CollisionGrid/CollisionGrid.cs:74-94 | the loop over the cell list computes `Index.RemoveItem` of the old state and keeps the invariant |
| CollisionGrid.CollisionGrid.RemoveFromGrid | CollisionGrid/CollisionGrid.cs:96-113 | the new state is `Index.RemoveFromGrid` of the old |
| CollisionGrid.CollisionGrid.AllItems | CollisionGrid/CollisionGrid.cs:115-118 | exactly the items present in some bucket |
| CollisionGrid.CollisionGrid.AllOccupiedCells | CollisionGrid/CollisionGrid.cs:120-123 | the `Grid` keys: every non-empty bucket's cell, all on the grid |
| CollisionGrid.CollisionGrid.Dispose | CollisionGrid/CollisionGrid.cs:170-183 | empties both dictionaries and both pools and marks the object unusable |
| CollisionGrid.CollisionGrid.Get | CollisionGrid/CollisionGrid.Point.cs:22-28 | the clamped cell's bucket in insertion order, duplicate-free, holding exactly the items whose lists name that cell |
| CollisionGrid.CollisionGrid.First | CollisionGrid/CollisionGrid.Rectangle.cs:67 | the head of the clamped cell's bucket; none exactly when it is empty |
| CollisionGrid.CollisionGrid.IsEmpty | CollisionGrid/CollisionGrid.Rectangle.cs:138 | true exactly when no item's cell list names the clamped cell |
| CollisionGrid.CollisionGrid.Add | CollisionGrid/CollisionGrid.Point.cs:36-44 | the new state is `Index.Add` of the old, and the invariant is kept |
| CollisionGrid.CollisionGrid.AddToGrid | CollisionGrid/CollisionGrid.Point.cs:46-53 | the new state is `Index.AddToGrid` of the old |
| CollisionGrid.CollisionGrid.AddToItems | CollisionGrid/CollisionGrid.Point.cs:55-79 | the new state is `Index.AddToItems` of the old |
| CollisionGrid.CollisionGrid.Remove | CollisionGrid/CollisionGrid.Point.cs:86-110 | the loop over the bucket and the clearing compute `Index.RemoveCell` of the old state and keep the invariant |
| CollisionGrid.CollisionGrid.Detach | CollisionGrid/CollisionGrid.Point.cs:95-105 | the new state is `Index.Detach` of the old |
| CollisionGrid.CollisionGrid.Move | CollisionGrid/CollisionGrid.Point.cs:118-125 | the new state is `Index.Move` of the old, and the invariant is kept |
| CollisionGrid.CollisionGrid.FillList | CollisionGrid/CollisionGrid.Rectangle.cs:25-36 | the nested loops leave in `lop` exactly the row-major cells of the clamped rectangle |
| CollisionGrid.CollisionGrid.GetRectangle | CollisionGrid/CollisionGrid.Rectangle.cs:38-50 | `result` and the answer are the buckets of the `lop` cells concatenated in order |
| CollisionGrid.CollisionGrid.FirstRectangle | CollisionGrid/CollisionGrid.Rectangle.cs:59-75 | the first present `First(Point)` over `lop`, or none |
| CollisionGrid.CollisionGrid.AddRectangle | CollisionGrid/CollisionGrid.Rectangle.cs:83-93 | the new state is `Regions.AddAll` over `lop`, and the invariant is kept |
| CollisionGrid.CollisionGrid.RemoveRectangle | CollisionGrid/CollisionGrid.Rectangle.cs:100-110 | the new state is `Regions.RemoveAll` over `lop`, and the invariant is kept |
| CollisionGrid.CollisionGrid.MoveRectangle | CollisionGrid/CollisionGrid.Rectangle.cs:118-129 | the new state is `Regions.MoveAll` over `lop`, and the invariant is kept |
| CollisionGrid.CollisionGrid.IsEmptyRectangle | CollisionGrid/CollisionGrid.Rectangle.cs:131-145 | true exactly when every cell of `lop` is empty |
| CollisionGrid.CollisionGrid.GetPosition | CollisionGrid/CollisionGrid.Vector2.cs:21-27 | `Get(Point)` at the position's cell |
| CollisionGrid.CollisionGrid.FirstPosition | CollisionGrid/CollisionGrid.Vector2.cs:36-42 | `First(Point)` at the position's cell |
| CollisionGrid.CollisionGrid.AddPosition | CollisionGrid/CollisionGrid.Vector2.cs:50-56 | `Add(T, Point)` at the position's cell |
| CollisionGrid.CollisionGrid.RemovePosition | CollisionGrid/CollisionGrid.Vector2.cs:63-69 | `Remove(Point)` at the position's cell |
| CollisionGrid.CollisionGrid.MovePosition | CollisionGrid/CollisionGrid.Vector2.cs:77-83 | `Move(T, Point)` to the position's cell |
| CollisionGrid.CollisionGrid.IsEmptyPosition | CollisionGrid/CollisionGrid.Vector2.cs:85-91 | `IsEmpty(Point)` at the position's cell |
| CollisionGrid.CollisionGrid.GetRect | CollisionGrid/CollisionGrid.Rect.cs:21-27 | `Get(Rectangle)` over the cell rectangle of the box |
| CollisionGrid.CollisionGrid.AddRect | CollisionGrid/CollisionGrid.Rect.cs:35-41 | `Add(T, Rectangle)` over the cell rectangle of the box |
| CollisionGrid.CollisionGrid.RemoveRect | CollisionGrid/CollisionGrid.Rect.cs:48-54 | `Remove(Rectangle)` over the cell rectangle of the box |
| CollisionGrid.CollisionGrid.MoveRect | CollisionGrid/CollisionGrid.Rect.cs:62-68 | `Move(T, Rectangle)` over the cell rectangle of the box |

## Left out

- The `lock (lockObject)` blocks: the model is single-threaded, and every public method is one atomic step.
- IEEE single-precision arithmetic. `CellWidth`, `CellHeight` and positions are reals. The `(int)` conversion is exact truncation toward zero, without float rounding, NaN, infinities or an out-of-range `int` result.
- 32-bit wrap-around of `Point` arithmetic: cell coordinates and sizes are unbounded integers.
- The constructor requires `width` and `height` to be positive as well as both cell counts to be at least 1. The source checks none of these. Without them, division by zero or a zero cell size would give infinite or NaN cell coordinates.
- The `Console.Out.WriteLine` debug line in `RemoveFromGrid`.
- Reference identity of pooled lists. Lists are values, so a pool holds empty lists and the invariant says so. Which list object is reused cannot show in the model (`Index.AddPoolTransparent`).
- `Dispose` sets the dictionaries and queues to `null`. The model empties them and sets a ghost `disposed` flag instead; every other method requires the flag to be clear.
- The throwing paths of `grid[...]` on a missing cell in `Get(Point)`, `Remove(Point)` and `AddToGrid`: a missing cell is an empty bucket instead.
- `Index.AddToGrid` creates a missing bucket, reusing a list from `ListOfItemQueue` when one is waiting; the source throws there and never dequeues that queue.
- `First(Rectangle)` and `First(Vector2)` return an option instead of `default(T)`. The source's test `content.Equals(default(T))` skips a real item equal to `default(T)` and throws when `default(T)` is `null`; neither behaviour is modelled.
- `Width`, `Height` and the other properties are read-only `const` fields; their private setters are used only by the constructor.
- The XNA `Point`, `Rectangle` and `Vector2` types and the `Rect` box type are their values only.
- The MonoGame demo program that uses the grid is not part of this model.
