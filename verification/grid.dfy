/** The grid container (`Grid<T>`) and its cell record (`GridNode`).

    A grid is a dense `width × height` table indexed `[x][y]`, filled once by a
    factory at construction. Reads outside the table yield `None` (the source's
    `default`, i.e. null). The per-flag setters of a node emit one change
    notification each; here a setter returns the updated grid together with the
    notifications it emitted, in order.
 */
module Grids {

  datatype Option<T> = None | Some(value: T)

  /** An integer grid coordinate (the source's `int2`). */
  datatype Cell = Cell(x: int, y: int)

  /** `a` comes before `b` in the x-then-y scan order. */
  predicate ScanBefore(a: Cell, b: Cell)
  {
    a.x < b.x || (a.x == b.x && a.y < b.y)
  }

  datatype Grid<T> = Grid(width: int, height: int, cells: seq<seq<T>>)

  /** The shape every constructed grid has. */
  predicate Valid<T>(g: Grid<T>)
  {
    && g.width >= 0
    && g.height >= 0
    && |g.cells| == g.width
    && forall x :: 0 <= x < |g.cells| ==> |g.cells[x]| == g.height
  }

  predicate InRange<T>(g: Grid<T>, x: int, y: int)
  {
    0 <= x < g.width && 0 <= y < g.height
  }

  function GetWidth<T>(g: Grid<T>): int
  {
    g.width
  }

  function GetHeight<T>(g: Grid<T>): int
  {
    g.height
  }

  /** Bounds-checked read: the cell's object in range, `None` outside. */
  function GetValue<T>(g: Grid<T>, x: int, y: int): (r: Option<T>)
    requires Valid(g)
    ensures r.Some? <==> InRange(g, x, y)
    ensures r.Some? ==> r.value == g.cells[x][y]
  {
    if 0 <= x && 0 <= y && x < g.width && y < g.height then Some(g.cells[x][y]) else None
  }

  /** The constructor. Width and height are stored as given; a negative one makes
      the array allocation fail (modelled as `None`), zero is accepted. Every
      cell is filled by the factory with its own coordinates. */
  function Create<T>(width: int, height: int, make: (int, int) -> T): (r: Option<Grid<T>>)
    ensures r.Some? <==> width >= 0 && height >= 0
    ensures r.Some? ==> Valid(r.value)
    ensures r.Some? ==> GetWidth(r.value) == width && GetHeight(r.value) == height
    ensures r.Some? ==> forall x, y :: 0 <= x < width && 0 <= y < height ==>
                          GetValue(r.value, x, y) == Some(make(x, y))
    ensures r.Some? ==> forall x, y :: !(0 <= x < width && 0 <= y < height) ==>
                          GetValue(r.value, x, y) == None
  {
    if width < 0 || height < 0 then None
    else Some(Grid(width, height, seq(width, x => seq(height, y => make(x, y)))))
  }

  /** One cell's flags, and the coordinates it was created with. */
  datatype GridNode = GridNode(x: int, y: int, walkable: bool, cliff: bool)

  /** A fresh node is neither walkable nor a cliff. */
  function NewNode(x: int, y: int): (n: GridNode)
    ensures n.x == x && n.y == y
    ensures !n.walkable && !n.cliff
  {
    GridNode(x, y, false, false)
  }

  type NavGrid = Grid<GridNode>

  /** The payload of `OnGridObjectChanged`. */
  datatype ChangeEvent = ChangeEvent(x: int, y: int)

  /** A grid after a mutation, with the notifications the mutation emitted. */
  datatype Notified = Notified(grid: NavGrid, events: seq<ChangeEvent>)

  /** Raising the change event for `(x, y)`; the source does no range check here. */
  function TriggerGridObjectChanged(x: int, y: int): ChangeEvent
  {
    ChangeEvent(x, y)
  }

  /** Every node sits at the coordinates it was created with. */
  predicate Placed(g: NavGrid)
    requires Valid(g)
  {
    forall x, y :: 0 <= x < g.width && 0 <= y < g.height ==> g.cells[x][y].x == x && g.cells[x][y].y == y
  }

  function Put(g: NavGrid, x: int, y: int, n: GridNode): (r: NavGrid)
    requires Valid(g) && InRange(g, x, y)
    ensures Valid(r) && r.width == g.width && r.height == g.height
    ensures GetValue(r, x, y) == Some(n)
    ensures forall i, j :: (i != x || j != y) ==> GetValue(r, i, j) == GetValue(g, i, j)
  {
    g.(cells := g.cells[x := g.cells[x][y := n]])
  }

  /** `grid.GetValue(x, y)?.SetIsWalkable(value)`: in range, only the walkable
      flag of that node changes and exactly one notification carrying the node's
      own coordinates is emitted; out of range nothing happens. */
  function SetIsWalkable(g: NavGrid, x: int, y: int, value: bool): (r: Notified)
    requires Valid(g)
    ensures Valid(r.grid) && r.grid.width == g.width && r.grid.height == g.height
    ensures InRange(g, x, y) ==>
              && GetValue(r.grid, x, y) == Some(g.cells[x][y].(walkable := value))
              && r.events == [ChangeEvent(g.cells[x][y].x, g.cells[x][y].y)]
    ensures forall i, j :: (i != x || j != y) ==> GetValue(r.grid, i, j) == GetValue(g, i, j)
    ensures !InRange(g, x, y) ==> r.grid == g && r.events == []
    ensures Placed(g) ==> Placed(r.grid)
    ensures Placed(g) && InRange(g, x, y) ==> r.events == [ChangeEvent(x, y)]
  {
    if InRange(g, x, y) then
      var n := g.cells[x][y];
      Notified(Put(g, x, y, n.(walkable := value)), [TriggerGridObjectChanged(n.x, n.y)])
    else
      Notified(g, [])
  }

  /** `grid.GetValue(x, y)?.SetIsCliff(value)`, the same shape for the cliff flag. */
  function SetIsCliff(g: NavGrid, x: int, y: int, value: bool): (r: Notified)
    requires Valid(g)
    ensures Valid(r.grid) && r.grid.width == g.width && r.grid.height == g.height
    ensures InRange(g, x, y) ==>
              && GetValue(r.grid, x, y) == Some(g.cells[x][y].(cliff := value))
              && r.events == [ChangeEvent(g.cells[x][y].x, g.cells[x][y].y)]
    ensures forall i, j :: (i != x || j != y) ==> GetValue(r.grid, i, j) == GetValue(g, i, j)
    ensures !InRange(g, x, y) ==> r.grid == g && r.events == []
    ensures Placed(g) ==> Placed(r.grid)
    ensures Placed(g) && InRange(g, x, y) ==> r.events == [ChangeEvent(x, y)]
  {
    if InRange(g, x, y) then
      var n := g.cells[x][y];
      Notified(Put(g, x, y, n.(cliff := value)), [TriggerGridObjectChanged(n.x, n.y)])
    else
      Notified(g, [])
  }

  /** A grid built with the `NewNode` factory starts placed and all-false. */
  lemma FreshNavGrid(width: int, height: int)
    requires width >= 0 && height >= 0
    ensures Placed(Create(width, height, NewNode).value)
    ensures forall x, y :: 0 <= x < width && 0 <= y < height ==>
              var n := GetValue(Create(width, height, NewNode).value, x, y).value;
              !n.walkable && !n.cliff
  {
    var g := Create(width, height, NewNode).value;
    forall x, y | 0 <= x < width && 0 <= y < height
      ensures g.cells[x][y].x == x && g.cells[x][y].y == y
    {
      assert GetValue(g, x, y) == Some(NewNode(x, y));
    }
  }

  /** The setters do not keep `cliff ⇒ walkable`: marking a non-walkable node
      as a cliff leaves it a non-walkable cliff. */
  lemma CliffSetterIgnoresWalkable(g: NavGrid, x: int, y: int)
    requires Valid(g) && InRange(g, x, y) && !g.cells[x][y].walkable
    ensures var n := GetValue(SetIsCliff(g, x, y, true).grid, x, y).value;
            n.cliff && !n.walkable
  {
  }
}
