/** The A* search of `PathfindingManager.FindPathJob`.

    The search runs over a flat array of `w × h` path nodes, node `(x, y)` at
    index `x + y·w`. Moves go to the eight neighbours at octile cost 10 / 14;
    the open and closed sets are plain index lists; the node to expand is the
    first one of minimal f-cost in the open list; a neighbour is updated when
    the new cost is no larger than its current one. The path is read back from
    the goal through the predecessor indices, so it runs goal → start.
 */
module Search {
  import opened Grids

  const MoveStraightCost: nat := 10
  const MoveDiagonalCost: nat := 14

  function Abs(n: int): nat
  {
    if n < 0 then -n else n
  }

  function Min(a: int, b: int): int
  {
    if a <= b then a else b
  }

  function Max(a: int, b: int): int
  {
    if a <= b then b else a
  }

  // ---------------------------------------------------------------- costs

  /** `CalculateDistanceCost`: diagonal moves while both axes still differ,
      straight moves for the rest. */
  function CalculateDistanceCost(a: Cell, b: Cell): nat
  {
    var dx := Abs(a.x - b.x);
    var dy := Abs(a.y - b.y);
    MoveDiagonalCost * Min(dx, dy) + MoveStraightCost * Abs(dx - dy)
  }

  /** The same cost as ten times the Chebyshev distance plus four times the
      shorter axis. */
  lemma DistanceOctile(a: Cell, b: Cell)
    ensures CalculateDistanceCost(a, b) ==
            10 * Max(Abs(a.x - b.x), Abs(a.y - b.y)) + 4 * Min(Abs(a.x - b.x), Abs(a.y - b.y))
  {
  }

  lemma DistanceSymmetric(a: Cell, b: Cell)
    ensures CalculateDistanceCost(a, b) == CalculateDistanceCost(b, a)
  {
  }

  lemma DistanceZero(a: Cell, b: Cell)
    ensures CalculateDistanceCost(a, b) == 0 <==> a == b
  {
  }

  /** The cost never exceeds the cost through a third cell, so the heuristic
      `h = cost to the goal` is consistent. */
  lemma DistanceTriangle(a: Cell, b: Cell, c: Cell)
    ensures CalculateDistanceCost(a, c) <= CalculateDistanceCost(a, b) + CalculateDistanceCost(b, c)
  {
    DistanceAsOct(a, b);
    DistanceAsOct(b, c);
    DistanceAsOct(a, c);
    AbsTriangle(a.x, b.x, c.x);
    AbsTriangle(a.y, b.y, c.y);
    OctTriangle(Abs(a.x - c.x), Abs(a.y - c.y), Abs(a.x - b.x), Abs(a.y - b.y), Abs(b.x - c.x), Abs(b.y - c.y));
  }

  lemma AbsTriangle(p: int, q: int, r: int)
    ensures Abs(p - r) <= Abs(p - q) + Abs(q - r)
  {
  }

  lemma OctTriangle(x: int, y: int, x1: int, y1: int, x2: int, y2: int)
    requires 0 <= x <= x1 + x2 && 0 <= y <= y1 + y2
    ensures Oct(x, y) <= Oct(x1, y1) + Oct(x2, y2)
  {
    OctMonotone(x, y, x1 + x2, y1 + y2);
    OctSubadditive(x1, y1, x2, y2);
  }

  /** The octile cost of axis differences `x` and `y`, in a form that is
      visibly monotone and subadditive. */
  function Oct(x: int, y: int): int
  {
    7 * (x + y) + 3 * Abs(x - y)
  }

  lemma DistanceAsOct(a: Cell, b: Cell)
    ensures CalculateDistanceCost(a, b) == Oct(Abs(a.x - b.x), Abs(a.y - b.y))
  {
  }

  lemma OctMonotone(x: int, y: int, x': int, y': int)
    requires 0 <= x <= x' && 0 <= y <= y'
    ensures Oct(x, y) <= Oct(x', y')
  {
  }

  lemma OctSubadditive(x1: int, y1: int, x2: int, y2: int)
    ensures Oct(x1 + x2, y1 + y2) <= Oct(x1, y1) + Oct(x2, y2)
  {
  }

  /** The eight neighbour offsets, in the order the search tries them:
      left, right, up, down, left-down, left-up, right-down, right-up. */
  const Offsets: seq<Cell> := [Cell(-1, 0), Cell(1, 0), Cell(0, 1), Cell(0, -1),
                               Cell(-1, -1), Cell(-1, 1), Cell(1, -1), Cell(1, 1)]

  /** `b` is one of the eight neighbours of `a`. */
  predicate IsStep(a: Cell, b: Cell)
  {
    Cell(b.x - a.x, b.y - a.y) in Offsets
  }

  /** The offsets are exactly the eight non-zero moves of at most one cell per
      axis, each listed once. */
  lemma OffsetsAreTheNeighbours()
    ensures |Offsets| == 8
    ensures forall i, j :: 0 <= i < j < 8 ==> Offsets[i] != Offsets[j]
    ensures forall d: Cell :: d in Offsets <==> -1 <= d.x <= 1 && -1 <= d.y <= 1 && d != Cell(0, 0)
  {
  }

  /** A move costs 10 along an axis and 14 diagonally. */
  lemma StepCost(a: Cell, b: Cell)
    requires IsStep(a, b)
    ensures CalculateDistanceCost(a, b) == if a.x == b.x || a.y == b.y then MoveStraightCost else MoveDiagonalCost
  {
  }

  // ---------------------------------------------------------------- indices

  /** The product `a·b`, by recursion on `b`. The index arithmetic is stated
      with it so that the solver treats a product of two variables as a term
      of its own; `MulIsProduct` connects it to `*` where a proof needs that. */
  function Mul(a: int, b: int): int
    decreases Abs(b)
  {
    if b == 0 then 0 else if b > 0 then Mul(a, b - 1) + a else Mul(a, b + 1) - a
  }

  lemma {:induction false} MulIsProduct(a: int, b: int)
    ensures Mul(a, b) == a * b
    decreases Abs(b)
  {
    if b > 0 {
      MulIsProduct(a, b - 1);
    } else if b < 0 {
      MulIsProduct(a, b + 1);
    }
  }

  /** `x + y * gridWidth`. */
  function CalculateIndex(x: int, y: int, gridWidth: int): int
  {
    x + Mul(y, gridWidth)
  }

  predicate IsPositionInGrid(p: Cell, w: int, h: int)
  {
    p.x >= 0 && p.y >= 0 && p.x < w && p.y < h
  }

  lemma MulMonotone(a: int, b: int, w: int)
    requires a <= b && w >= 0
    ensures a * w <= b * w
  {
    MulNonNegative(b - a, w);
    assert (b - a) * w == b * w - a * w;
  }

  lemma MulNonNegative(a: int, w: int)
    requires a >= 0 && w >= 0
    ensures a * w >= 0
  {
  }

  /** Euclidean division by `w` undoes `q·w + r`. */
  lemma DivModUnique(k: int, w: int, q: int, r: int)
    requires w > 0 && 0 <= r < w && k == q * w + r
    ensures k / w == q && k % w == r
  {
    var q', r' := k / w, k % w;
    assert q' * w + r' == q * w + r;
    if q' < q {
      assert (q' + 1) * w == q' * w + w;
      MulMonotone(q' + 1, q, w);
    } else if q' > q {
      assert (q + 1) * w == q * w + w;
      MulMonotone(q + 1, q', w);
    }
  }

  /** An in-grid cell's index lies in `[0, w·h)`. */
  lemma IndexOfCell(x: int, y: int, w: int, h: int)
    requires IsPositionInGrid(Cell(x, y), w, h)
    ensures 0 <= CalculateIndex(x, y, w) < Mul(w, h)
  {
    MulIsProduct(y, w);
    MulIsProduct(w, h);
    MulMonotone(y + 1, h, w);
    assert (y + 1) * w == y * w + w;
    MulNonNegative(y, w);
  }

  /** An in-grid cell's index gives the cell back as `(index % w, index / w)`. */
  lemma CellOfIndexOfCell(x: int, y: int, w: int, h: int)
    requires IsPositionInGrid(Cell(x, y), w, h)
    ensures CalculateIndex(x, y, w) % w == x && CalculateIndex(x, y, w) / w == y
  {
    MulIsProduct(y, w);
    DivModUnique(CalculateIndex(x, y, w), w, y, x);
  }

  lemma PositiveFactor(w: int, h: int)
    requires w >= 0 && h >= 0 && Mul(w, h) > 0
    ensures w > 0
  {
    MulIsProduct(w, h);
  }

  /** Every index of `[0, w·h)` is the index of an in-grid cell. */
  lemma CellOfIndex(k: int, w: int, h: int)
    requires w >= 0 && h >= 0 && 0 <= k < Mul(w, h)
    ensures w > 0 && IsPositionInGrid(Cell(k % w, k / w), w, h)
    ensures CalculateIndex(k % w, k / w, w) == k
  {
    PositiveFactor(w, h);
    MulIsProduct(w, h);
    QuotientBelow(k, w, h);
    MulIsProduct(k / w, w);
  }

  lemma QuotientBelow(k: int, w: int, h: int)
    requires w > 0 && h >= 0 && 0 <= k < w * h
    ensures 0 <= k / w < h && k == k / w * w + k % w
  {
    var q := k / w;
    assert k == q * w + k % w;
    if q < 0 {
      MulMonotone(q, -1, w);
    } else {
      MulMonotone(q + 1, h, w);
      assert (q + 1) * w == q * w + w;
    }
  }

  /** Distinct in-grid cells have distinct indices. */
  lemma IndexInjective(a: Cell, b: Cell, w: int, h: int)
    requires IsPositionInGrid(a, w, h) && IsPositionInGrid(b, w, h)
    requires CalculateIndex(a.x, a.y, w) == CalculateIndex(b.x, b.y, w)
    ensures a == b
  {
    CellOfIndexOfCell(a.x, a.y, w, h);
    CellOfIndexOfCell(b.x, b.y, w, h);
  }

  // ---------------------------------------------------------------- nodes

  /** `gCost`, where `int.MaxValue` (not reached yet) is kept apart from the
      finite costs, so that every finite cost compares below it. */
  datatype Cost = Infinite | Finite(n: nat)

  predicate AtMost(t: nat, c: Cost)
  {
    c.Infinite? || t <= c.n
  }

  datatype PathNode = PathNode(x: int, y: int, index: int, previous: int,
                               g: Cost, h: int, f: int, walkable: bool)

  function Pos(n: PathNode): Cell
  {
    Cell(n.x, n.y)
  }

  /** `PathNode.CalculateFCost`: only the f-cost changes, to g + h. */
  function CalculateFCost(node: PathNode): (r: PathNode)
    requires node.g.Finite?
    ensures r.(f := node.f) == node
    ensures r.g.Finite? && r.f == r.g.n + r.h
  {
    node.(f := node.g.n + node.h)
  }

  /** The node `GetPathNodeArray` makes for `(x, y)`. */
  function FreshNode(grid: NavGrid, x: int, y: int): PathNode
    requires Valid(grid) && InRange(grid, x, y)
  {
    PathNode(x, y, CalculateIndex(x, y, grid.width), -1, Infinite, 0, 0, grid.cells[x][y].walkable)
  }

  /** Every node sits at its own index, and its coordinates are the in-grid
      cell that index stands for. */
  ghost predicate Layout(nodes: seq<PathNode>, w: int, h: int)
  {
    && w >= 0 && h >= 0 && |nodes| == Mul(w, h)
    && forall k :: 0 <= k < |nodes| ==>
         && nodes[k].index == k
         && IsPositionInGrid(Pos(nodes[k]), w, h)
         && CalculateIndex(nodes[k].x, nodes[k].y, w) == k
  }

  /** `GetPathNodeArray`: one fresh node per cell, stored at the cell's index;
      it is not reached, has no predecessor and takes the cell's walkability. */
  function GetPathNodeArray(grid: NavGrid): (nodes: seq<PathNode>)
    requires Valid(grid)
    ensures |nodes| == Mul(grid.width, grid.height)
    ensures forall x, y :: InRange(grid, x, y) ==>
              0 <= CalculateIndex(x, y, grid.width) < |nodes| &&
              nodes[CalculateIndex(x, y, grid.width)] == FreshNode(grid, x, y)
  {
    var w, h := grid.width, grid.height;
    MulIsProduct(w, h);
    MulNonNegative(w, h);
    var nodes := seq(Mul(w, h), k requires 0 <= k < Mul(w, h) => CellOfIndex(k, w, h); FreshNode(grid, k % w, k / w));
    assert forall x, y :: InRange(grid, x, y) ==>
             0 <= CalculateIndex(x, y, w) < |nodes| && nodes[CalculateIndex(x, y, w)] == FreshNode(grid, x, y) by {
      forall x, y | InRange(grid, x, y)
        ensures 0 <= CalculateIndex(x, y, w) < |nodes| && nodes[CalculateIndex(x, y, w)] == FreshNode(grid, x, y)
      {
        IndexOfCell(x, y, w, h);
        CellOfIndexOfCell(x, y, w, h);
      }
    }
    nodes
  }

  /** The array satisfies the layout the search relies on, and no node of it
      has been reached. */
  lemma GetPathNodeArrayLayout(grid: NavGrid)
    requires Valid(grid)
    ensures Layout(GetPathNodeArray(grid), grid.width, grid.height)
    ensures forall k :: 0 <= k < |GetPathNodeArray(grid)| ==>
              GetPathNodeArray(grid)[k].g == Infinite && GetPathNodeArray(grid)[k].previous == -1
  {
    var nodes := GetPathNodeArray(grid);
    var w, h := grid.width, grid.height;
    forall k | 0 <= k < |nodes|
      ensures nodes[k].index == k && IsPositionInGrid(Pos(nodes[k]), w, h) && CalculateIndex(nodes[k].x, nodes[k].y, w) == k
    {
      CellOfIndex(k, w, h);
      assert InRange(grid, k % w, k / w);
    }
  }

  // ---------------------------------------------------------------- lists

  predicate Distinct(s: seq<int>)
  {
    forall i, j :: 0 <= i < j < |s| ==> s[i] != s[j]
  }

  predicate Within(s: seq<int>, n: int)
  {
    forall i :: 0 <= i < |s| ==> 0 <= s[i] < n
  }

  /** A list of distinct indices below `n` has at most `n` entries. */
  lemma {:induction false} DistinctBound(s: seq<int>, n: int)
    requires n >= 0 && Distinct(s) && Within(s, n)
    ensures |s| <= n
    decreases |s|
  {
    if |s| > 0 {
      var m := s[|s| - 1];
      // Rename the largest value `n - 1` to `m`, then drop the last entry.
      var t := seq(|s| - 1, i requires 0 <= i < |s| - 1 => if s[i] == n - 1 then m else s[i]);
      assert |t| == |s| - 1;
      assert Within(t, n - 1) by {
        forall i | 0 <= i < |t|
          ensures 0 <= t[i] < n - 1
        {
          assert s[i] != m;
        }
      }
      assert Distinct(t) by {
        forall i, j | 0 <= i < j < |t|
          ensures t[i] != t[j]
        {
          assert s[i] != m && s[j] != m;
        }
      }
      DistinctBound(t, n - 1);
    }
  }

  /** The loop that takes the current node off the open list: `RemoveAt` the
      first occurrence of `v`. `RemoveFirstKeepsOrder` shows which entry goes
      and that the others keep their order. */
  function RemoveFirst(s: seq<int>, v: int): (r: seq<int>)
    ensures v !in s ==> r == s
    ensures v in s ==> |r| == |s| - 1
    ensures forall x :: x in r ==> x in s
    ensures forall x :: x in s && x != v ==> x in r
    ensures Distinct(s) ==> Distinct(r) && v !in r
  {
    if |s| == 0 then []
    else if s[0] == v then s[1..]
    else
      var rest := RemoveFirst(s[1..], v);
      assert Distinct(s) ==> Distinct(s[1..]) && s[0] !in s[1..];
      [s[0]] + rest
  }

  /** The position of the first occurrence of `v` in `s`. */
  function FirstIndex(s: seq<int>, v: int): (i: nat)
    requires v in s
    ensures i < |s| && s[i] == v && v !in s[..i]
  {
    if s[0] == v then 0 else FirstIndex(s[1..], v) + 1
  }

  /** Removing `v` cuts out exactly its first occurrence and leaves every
      other entry in its place and order. */
  lemma {:induction false} RemoveFirstKeepsOrder(s: seq<int>, v: int)
    requires v in s
    ensures RemoveFirst(s, v) == s[..FirstIndex(s, v)] + s[FirstIndex(s, v) + 1..]
  {
    if s[0] != v {
      var i := FirstIndex(s[1..], v);
      RemoveFirstKeepsOrder(s[1..], v);
      ConsAroundIndex(s, i);
    }
  }

  /** Putting the head back on `s[1..]` with one entry cut out cuts the same
      entry, one place further on, out of `s`. */
  lemma ConsAroundIndex(s: seq<int>, i: nat)
    requires i + 1 < |s|
    ensures [s[0]] + (s[1..][..i] + s[1..][i + 1..]) == s[..i + 1] + s[i + 2..]
  {
    assert [s[0]] + s[1..][..i] == s[..i + 1];
    assert s[1..][i + 1..] == s[i + 2..];
  }

  // ---------------------------------------------------------------- pop-min

  /** `GetLowestCostFNodeIndex`: the index stored in the first open node of
      minimal f-cost (the comparison is strict, so earlier entries win ties).
      The position `at` of that entry in the open list is returned as well. */
  method GetLowestCostFNodeIndex(open: seq<int>, nodes: seq<PathNode>) returns (r: int, at: nat)
    requires |open| > 0 && Within(open, |nodes|)
    ensures at < |open| && r == nodes[open[at]].index
    ensures forall i :: 0 <= i < |open| ==> nodes[open[at]].f <= nodes[open[i]].f
    ensures forall i :: 0 <= i < at ==> nodes[open[i]].f > nodes[open[at]].f
  {
    var lowest := nodes[open[0]];
    at := 0;
    var i := 1;
    while i < |open|
      invariant 1 <= i <= |open| && at < i
      invariant lowest == nodes[open[at]]
      invariant forall j :: 0 <= j < i ==> lowest.f <= nodes[open[j]].f
      invariant forall j :: 0 <= j < at ==> nodes[open[j]].f > lowest.f
    {
      var test := nodes[open[i]];
      if test.f < lowest.f {
        lowest := test;
        at := i;
      }
      i := i + 1;
    }
    r := lowest.index;
  }

  // ---------------------------------------------------------------- search state

  /** The fields the search never writes agree with the array it was given,
      and every heuristic is the cost to the goal position. */
  ghost predicate Frame(nodes0: seq<PathNode>, nodes: seq<PathNode>, end: Cell, w: int, h: int)
  {
    && Layout(nodes0, w, h)
    && |nodes| == |nodes0|
    && forall k :: 0 <= k < |nodes| ==>
         && Pos(nodes[k]) == Pos(nodes0[k])
         && nodes[k].index == nodes0[k].index
         && nodes[k].walkable == nodes0[k].walkable
         && nodes[k].h == CalculateDistanceCost(Pos(nodes[k]), end)
  }

  /** Open and closed lists hold distinct node indices and share none. */
  ghost predicate Lists(open: seq<int>, closed: seq<int>, n: int)
  {
    && Within(open, n) && Within(closed, n)
    && Distinct(open) && Distinct(closed)
    && forall k :: k in open ==> k !in closed
  }

  /** Node `k` was reached from its predecessor: a closed neighbour with a
      finite cost, `k` costs the predecessor's cost plus the move, and `k`
      is walkable. */
  ghost predicate Link(nodes: seq<PathNode>, k: int)
    requires 0 <= k < |nodes|
  {
    var p := nodes[k].previous;
    && 0 <= p < |nodes|
    && nodes[p].g.Finite? && nodes[k].g.Finite?
    && nodes[k].g.n == nodes[p].g.n + CalculateDistanceCost(Pos(nodes[p]), Pos(nodes[k]))
    && IsStep(Pos(nodes[p]), Pos(nodes[k]))
    && nodes[k].walkable
  }

  ghost predicate Linked(nodes: seq<PathNode>, closed: seq<int>, k: int)
    requires 0 <= k < |nodes|
  {
    Link(nodes, k) && nodes[k].previous in closed
  }

  /** Every node with a predecessor is linked to a closed one. */
  ghost predicate AllLinked(nodes: seq<PathNode>, closed: seq<int>)
  {
    forall k {:trigger Linked(nodes, closed, k)} ::
      0 <= k < |nodes| && nodes[k].previous != -1 ==> Linked(nodes, closed, k)
  }

  ghost predicate AllFinite(nodes: seq<PathNode>, list: seq<int>)
    requires Within(list, |nodes|)
  {
    forall i :: 0 <= i < |list| ==> nodes[list[i]].g.Finite?
  }

  /** A reached node is the start or has a predecessor, and its f-cost is g + h. */
  ghost predicate Reached(nodes: seq<PathNode>, s: int)
  {
    forall k :: 0 <= k < |nodes| && nodes[k].g.Finite? ==>
      (k == s || nodes[k].previous != -1) && nodes[k].f == nodes[k].g.n + nodes[k].h
  }

  /** The cost bookkeeping of the search. */
  ghost predicate Costs(nodes: seq<PathNode>, open: seq<int>, closed: seq<int>, s: int)
    requires Within(open, |nodes|) && Within(closed, |nodes|) && 0 <= s < |nodes|
  {
    && AllFinite(nodes, open) && AllFinite(nodes, closed)
    && nodes[s].g == Finite(0) && nodes[s].previous == -1
    && (s in closed || (open == [s] && closed == []))
    && AllLinked(nodes, closed)
    && Reached(nodes, s)
  }

  ghost predicate Inv(nodes0: seq<PathNode>, nodes: seq<PathNode>, open: seq<int>, closed: seq<int>,
                      s: int, end: Cell, w: int, h: int)
  {
    && Frame(nodes0, nodes, end, w, h)
    && 0 <= s < |nodes|
    && Lists(open, closed, |nodes|)
    && Costs(nodes, open, closed, s)
  }

  // ---------------------------------------------------------------- relaxation

  datatype Frontier = Frontier(nodes: seq<PathNode>, open: seq<int>)

  /** The tests of the neighbour loop in `FindPathJob.Execute` for one offset: the neighbour lies in the
      grid, is not closed, is walkable, and the cost through `current` is no
      larger than its own. */
  predicate Improves(nodes: seq<PathNode>, closed: seq<int>, current: PathNode, offset: Cell, w: int, h: int)
    requires w >= 0 && h >= 0 && |nodes| == Mul(w, h) && current.g.Finite?
  {
    var p := Cell(current.x + offset.x, current.y + offset.y);
    if !IsPositionInGrid(p, w, h) then false
    else
      IndexOfCell(p.x, p.y, w, h);
      var k := CalculateIndex(p.x, p.y, w);
      && k !in closed
      && nodes[k].walkable
      && AtMost(current.g.n + CalculateDistanceCost(Pos(current), p), nodes[k].g)
  }

  /** One pass of the neighbour loop of `FindPathJob.Execute` for `offset`, from the
      expanded node `c` whose copy is `current`. When the neighbour passes
      the tests it gets `c` as predecessor, the new cost and f = g + h, and is
      appended to the open list unless already there; otherwise nothing
      changes. No other node changes. */
  function Relax(nodes: seq<PathNode>, open: seq<int>, closed: seq<int>, c: int, current: PathNode,
                 offset: Cell, w: int, h: int): (r: Frontier)
    requires w >= 0 && h >= 0 && |nodes| == Mul(w, h) && current.g.Finite?
    ensures |r.nodes| == |nodes|
    ensures !Improves(nodes, closed, current, offset, w, h) ==> r == Frontier(nodes, open)
    ensures Improves(nodes, closed, current, offset, w, h) ==>
              var p := Cell(current.x + offset.x, current.y + offset.y);
              var k := CalculateIndex(p.x, p.y, w);
              && 0 <= k < |nodes|
              && r.nodes[k].(f := nodes[k].f) ==
                   nodes[k].(previous := c, g := Finite(current.g.n + CalculateDistanceCost(Pos(current), p)))
              && r.nodes[k].f == r.nodes[k].g.n + r.nodes[k].h
              && r.nodes == nodes[k := r.nodes[k]]
              && r.open == if nodes[k].index in open then open else open + [nodes[k].index]
  {
    if !Improves(nodes, closed, current, offset, w, h) then Frontier(nodes, open)
    else
      var p := Cell(current.x + offset.x, current.y + offset.y);
      IndexOfCell(p.x, p.y, w, h);
      var k := CalculateIndex(p.x, p.y, w);
      var tentative := current.g.n + CalculateDistanceCost(Pos(current), p);
      var updated := CalculateFCost(nodes[k].(previous := c, g := Finite(tentative)));
      Frontier(nodes[k := updated], if updated.index in open then open else open + [updated.index])
  }

  /** A link survives any change that leaves the node and every closed node as
      they were, and any growth of the closed list. */
  lemma LinkedKept(nodes: seq<PathNode>, nodes': seq<PathNode>, closed: seq<int>, closed': seq<int>, j: int)
    requires 0 <= j < |nodes| == |nodes'| && Within(closed, |nodes|)
    requires Linked(nodes, closed, j) && nodes'[j] == nodes[j]
    requires forall i :: 0 <= i < |closed| ==> nodes'[closed[i]] == nodes[closed[i]]
    requires forall i :: i in closed ==> i in closed'
    ensures Linked(nodes', closed', j)
  {
    var p := nodes[j].previous;
    assert p in closed;
    var i :| 0 <= i < |closed| && closed[i] == p;
    assert nodes'[p] == nodes[p];
  }

  /** Writing a node that keeps its coordinates, index, walkability and
      heuristic keeps the frame. */
  lemma FrameUpdate(nodes0: seq<PathNode>, nodes: seq<PathNode>, end: Cell, w: int, h: int, k: int, node: PathNode)
    requires Frame(nodes0, nodes, end, w, h) && 0 <= k < |nodes|
    requires Pos(node) == Pos(nodes[k]) && node.index == nodes[k].index
    requires node.walkable == nodes[k].walkable && node.h == nodes[k].h
    ensures Frame(nodes0, nodes[k := node], end, w, h)
  {
  }

  /** Adding a node that is not closed to the open list, unless it is there. */
  lemma ListsAdd(open: seq<int>, closed: seq<int>, n: int, k: int)
    requires Lists(open, closed, n) && 0 <= k < n && k !in closed
    ensures Lists(if k in open then open else open + [k], closed, n)
  {
  }

  lemma AllLinkedUpdate(nodes: seq<PathNode>, closed: seq<int>, k: int, node: PathNode)
    requires Within(closed, |nodes|) && AllLinked(nodes, closed)
    requires 0 <= k < |nodes| && k !in closed
    requires node.previous in closed && Link(nodes[k := node], k)
    ensures AllLinked(nodes[k := node], closed)
  {
    var nodes' := nodes[k := node];
    forall i | 0 <= i < |closed|
      ensures nodes'[closed[i]] == nodes[closed[i]]
    {
      assert closed[i] != k;
    }
    forall j | 0 <= j < |nodes'| && nodes'[j].previous != -1
      ensures Linked(nodes', closed, j)
    {
      if j != k {
        LinkedKept(nodes, nodes', closed, closed, j);
      }
    }
  }

  lemma AllFiniteUpdate(nodes: seq<PathNode>, list: seq<int>, k: int, node: PathNode, add: bool)
    requires Within(list, |nodes|) && AllFinite(nodes, list)
    requires 0 <= k < |nodes| && node.g.Finite?
    ensures Within(if add then list + [k] else list, |nodes|)
    ensures AllFinite(nodes[k := node], if add then list + [k] else list)
  {
    var list' := if add then list + [k] else list;
    forall i | 0 <= i < |list'|
      ensures 0 <= list'[i] < |nodes| && nodes[k := node][list'[i]].g.Finite?
    {
      if i < |list| {
        assert list'[i] == list[i];
      }
    }
  }

  lemma ReachedUpdate(nodes: seq<PathNode>, s: int, k: int, node: PathNode)
    requires Reached(nodes, s) && 0 <= k < |nodes|
    requires node.previous != -1 && node.g.Finite? && node.f == node.g.n + node.h
    ensures Reached(nodes[k := node], s)
  {
  }

  /** The cost bookkeeping survives writing a non-closed node `k` that is
      linked to a closed node. */
  lemma CostsUpdate(nodes: seq<PathNode>, open: seq<int>, closed: seq<int>, s: int, k: int, node: PathNode)
    requires Within(open, |nodes|) && Within(closed, |nodes|) && 0 <= s < |nodes|
    requires Costs(nodes, open, closed, s) && closed != []
    requires 0 <= k < |nodes| && k !in closed
    requires node.previous in closed && node.g.Finite? && node.f == node.g.n + node.h
    requires Link(nodes[k := node], k)
    ensures Within(if k in open then open else open + [k], |nodes|)
    ensures Costs(nodes[k := node], if k in open then open else open + [k], closed, s)
  {
    assert s in closed;
    ReachedUpdate(nodes, s, k, node);
    AllLinkedUpdate(nodes, closed, k, node);
    AllFiniteUpdate(nodes, open, k, node, k !in open);
    AllFiniteUpdate(nodes, closed, k, node, false);
  }

  /** An accepted update of neighbour `k` (at cell `p`) from the expanded
      node `c` keeps the search state consistent. */
  lemma ImproveKeepsInv(nodes0: seq<PathNode>, nodes: seq<PathNode>, open: seq<int>, closed: seq<int>,
                        s: int, end: Cell, w: int, h: int, c: int, p: Cell, k: int, node: PathNode, r: Frontier)
    requires 0 <= c < |nodes| && c in closed && nodes[c].g.Finite?
    requires IsPositionInGrid(p, w, h) && k == CalculateIndex(p.x, p.y, w) && 0 <= k < |nodes|
    requires k !in closed && nodes[k].walkable && IsStep(Pos(nodes[c]), p)
    requires node.(f := nodes[k].f) ==
               nodes[k].(previous := c, g := Finite(nodes[c].g.n + CalculateDistanceCost(Pos(nodes[c]), p)))
    requires node.g.Finite? && node.f == node.g.n + node.h
    requires r == Frontier(nodes[k := node], if k in open then open else open + [k])
    ensures r.nodes[c] == nodes[c]
    ensures Inv(nodes0, nodes, open, closed, s, end, w, h) ==> Inv(nodes0, r.nodes, r.open, closed, s, end, w, h)
  {
    if Inv(nodes0, nodes, open, closed, s, end, w, h) {
      IndexInjective(Pos(nodes0[k]), p, w, h);
      FrameUpdate(nodes0, nodes, end, w, h, k, node);
      ListsAdd(open, closed, |nodes|, k);
      assert Link(nodes[k := node], k) by {
        assert c != k;
      }
      CostsUpdate(nodes, open, closed, s, k, node);
    }
  }

  /** The neighbour loop keeps the search state consistent. */
  lemma RelaxKeepsInv(nodes0: seq<PathNode>, nodes: seq<PathNode>, open: seq<int>, closed: seq<int>,
                      s: int, end: Cell, w: int, h: int, ci: int, current: PathNode, offset: Cell)
    requires Inv(nodes0, nodes, open, closed, s, end, w, h)
    requires 0 <= ci < |closed| && current == nodes[closed[ci]] && offset in Offsets
    ensures current.g.Finite?
    ensures var r := Relax(nodes, open, closed, closed[ci], current, offset, w, h);
            Inv(nodes0, r.nodes, r.open, closed, s, end, w, h) && r.nodes[closed[ci]] == current
  {
    if Improves(nodes, closed, current, offset, w, h) {
      var p := Cell(current.x + offset.x, current.y + offset.y);
      IndexOfCell(p.x, p.y, w, h);
      RelaxImprovesKeepsInv(nodes0, nodes, open, closed, s, end, w, h, ci, current, offset);
    }
  }

  /** The accepting case of `RelaxKeepsInv`. */
  lemma RelaxImprovesKeepsInv(nodes0: seq<PathNode>, nodes: seq<PathNode>, open: seq<int>, closed: seq<int>,
                              s: int, end: Cell, w: int, h: int, ci: int, current: PathNode, offset: Cell)
    requires w >= 0 && h >= 0 && |nodes| == Mul(w, h) && current.g.Finite?
    requires 0 <= ci < |closed| && 0 <= closed[ci] < |nodes| && current == nodes[closed[ci]]
    requires offset in Offsets && Improves(nodes, closed, current, offset, w, h)
    requires var p := Cell(current.x + offset.x, current.y + offset.y);
             0 <= CalculateIndex(p.x, p.y, w) < |nodes| &&
             nodes[CalculateIndex(p.x, p.y, w)].index == CalculateIndex(p.x, p.y, w)
    ensures var r := Relax(nodes, open, closed, closed[ci], current, offset, w, h);
            r.nodes[closed[ci]] == current &&
            (Inv(nodes0, nodes, open, closed, s, end, w, h) ==> Inv(nodes0, r.nodes, r.open, closed, s, end, w, h))
  {
    var c := closed[ci];
    var p := Cell(current.x + offset.x, current.y + offset.y);
    IndexOfCell(p.x, p.y, w, h);
    var k := CalculateIndex(p.x, p.y, w);
    RelaxAccepts(nodes, open, closed, c, current, offset, w, h);
    var r := Relax(nodes, open, closed, c, current, offset, w, h);
    ImproveKeepsInv(nodes0, nodes, open, closed, s, end, w, h, c, p, k, r.nodes[k], r);
  }

  /** The accepting case of `Relax`, in the shape `ImproveKeepsInv` takes:
      one node written, and its index added to the open list unless there. */
  lemma RelaxAccepts(nodes: seq<PathNode>, open: seq<int>, closed: seq<int>, c: int, current: PathNode,
                     offset: Cell, w: int, h: int)
    requires w >= 0 && h >= 0 && |nodes| == Mul(w, h) && current.g.Finite?
    requires offset in Offsets && Improves(nodes, closed, current, offset, w, h)
    requires var p := Cell(current.x + offset.x, current.y + offset.y);
             0 <= CalculateIndex(p.x, p.y, w) < |nodes| &&
             nodes[CalculateIndex(p.x, p.y, w)].index == CalculateIndex(p.x, p.y, w)
    ensures var p := Cell(current.x + offset.x, current.y + offset.y);
            var k := CalculateIndex(p.x, p.y, w);
            var r := Relax(nodes, open, closed, c, current, offset, w, h);
            && IsPositionInGrid(p, w, h) && 0 <= k < |nodes| && k !in closed && nodes[k].walkable
            && IsStep(Pos(current), p)
            && r == Frontier(nodes[k := r.nodes[k]], if k in open then open else open + [k])
  {
    var p := Cell(current.x + offset.x, current.y + offset.y);
    var k := CalculateIndex(p.x, p.y, w);
    var r := Relax(nodes, open, closed, c, current, offset, w, h);
    assert Cell(p.x - current.x, p.y - current.y) == offset;
    assert r.nodes == nodes[k := r.nodes[k]];
  }

  /** Moving the expanded node from the open to the closed list keeps the
      search state consistent. */
  lemma CloseKeepsInv(nodes0: seq<PathNode>, nodes: seq<PathNode>, open: seq<int>, closed: seq<int>,
                      s: int, end: Cell, w: int, h: int, at: nat)
    requires Inv(nodes0, nodes, open, closed, s, end, w, h) && at < |open|
    ensures Inv(nodes0, nodes, RemoveFirst(open, open[at]), closed + [open[at]], s, end, w, h)
  {
    var c := open[at];
    var open', closed' := RemoveFirst(open, c), closed + [c];
    ListsClose(open, closed, |nodes|, at);
    CostsClose(nodes, open, closed, s, at);
  }

  lemma ListsClose(open: seq<int>, closed: seq<int>, n: int, at: nat)
    requires Lists(open, closed, n) && at < |open|
    ensures Lists(RemoveFirst(open, open[at]), closed + [open[at]], n)
  {
    var c := open[at];
    var open', closed' := RemoveFirst(open, c), closed + [c];
    assert c !in closed;
    forall i | 0 <= i < |open'|
      ensures 0 <= open'[i] < n
    {
      assert open'[i] in open;
    }
    forall k | k in open'
      ensures k !in closed'
    {
      assert k in open && k != c;
    }
  }

  lemma CostsClose(nodes: seq<PathNode>, open: seq<int>, closed: seq<int>, s: int, at: nat)
    requires Within(open, |nodes|) && Within(closed, |nodes|) && 0 <= s < |nodes|
    requires Costs(nodes, open, closed, s) && at < |open|
    ensures Within(RemoveFirst(open, open[at]), |nodes|) && Within(closed + [open[at]], |nodes|)
    ensures Costs(nodes, RemoveFirst(open, open[at]), closed + [open[at]], s)
  {
    var c := open[at];
    var open', closed' := RemoveFirst(open, c), closed + [c];
    forall i | 0 <= i < |open'|
      ensures 0 <= open'[i] < |nodes| && nodes[open'[i]].g.Finite?
    {
      assert open'[i] in open;
      var i' :| 0 <= i' < |open| && open[i'] == open'[i];
    }
    assert s in closed' by {
      if s !in closed {
        assert open == [s];
      }
    }
    forall j | 0 <= j < |nodes| && nodes[j].previous != -1
      ensures Linked(nodes, closed', j)
    {
      LinkedKept(nodes, nodes, closed, closed', j);
    }
  }

  // ---------------------------------------------------------------- path

  /** The summed move costs along a goal-to-start path, each move taken from
      the later (predecessor) entry to the earlier one. */
  function PathCost(path: seq<Cell>): nat
  {
    if |path| < 2 then 0 else CalculateDistanceCost(path[1], path[0]) + PathCost(path[1..])
  }

  lemma {:induction false} PathCostAppend(path: seq<Cell>, c: Cell)
    requires |path| >= 1
    ensures PathCost(path + [c]) == PathCost(path) + CalculateDistanceCost(c, path[|path| - 1])
    decreases |path|
  {
    if |path| >= 2 {
      assert (path + [c])[1..] == path[1..] + [c];
      PathCostAppend(path[1..], c);
    }
  }

  /** The cell `c` is in the node array and its node is walkable. */
  predicate WalkableAt(nodes: seq<PathNode>, c: Cell, w: int)
  {
    0 <= CalculateIndex(c.x, c.y, w) < |nodes| && nodes[CalculateIndex(c.x, c.y, w)].walkable
  }

  /** What a finished search leaves for the read-back: every node sits at
      the in-grid cell of its index; the start costs 0 and has no predecessor;
      every node with a predecessor is linked to it; and the start is the only
      reached node without one. */
  ghost predicate Chain(nodes: seq<PathNode>, s: int, w: int, h: int)
  {
    && 0 <= s < |nodes| && nodes[s].g == Finite(0) && nodes[s].previous == -1
    && (forall k :: 0 <= k < |nodes| ==>
          IsPositionInGrid(Pos(nodes[k]), w, h) && CalculateIndex(nodes[k].x, nodes[k].y, w) == k)
    && (forall k :: 0 <= k < |nodes| && nodes[k].previous != -1 ==> Link(nodes, k))
    && (forall k :: 0 <= k < |nodes| && nodes[k].g.Finite? && nodes[k].previous == -1 ==> k == s)
  }

  lemma InvChain(nodes0: seq<PathNode>, nodes: seq<PathNode>, open: seq<int>, closed: seq<int>,
                 s: int, end: Cell, w: int, h: int)
    requires Inv(nodes0, nodes, open, closed, s, end, w, h)
    ensures Chain(nodes, s, w, h)
  {
    forall k | 0 <= k < |nodes|
      ensures IsPositionInGrid(Pos(nodes[k]), w, h) && CalculateIndex(nodes[k].x, nodes[k].y, w) == k
    {
      assert Pos(nodes[k]) == Pos(nodes0[k]);
    }
    forall k | 0 <= k < |nodes| && nodes[k].previous != -1
      ensures Link(nodes, k)
    {
      assert Linked(nodes, closed, k);
    }
  }

  /** The state of the read-back after reaching node `ci`. */
  ghost predicate ReadBack(nodes: seq<PathNode>, endNode: PathNode, e: int, path: seq<Cell>, ci: int, w: int, h: int)
  {
    && 0 <= ci < |nodes| && nodes[ci].g.Finite? && endNode.g.Finite?
    && |path| >= 1 && path[0] == Pos(endNode) && path[|path| - 1] == Pos(nodes[ci])
    && (|path| == 1 ==> ci == e)
    && (forall i :: 0 <= i < |path| ==> IsPositionInGrid(path[i], w, h))
    && (forall i :: 0 <= i < |path| - 1 ==> IsStep(path[i + 1], path[i]) && WalkableAt(nodes, path[i], w))
    && endNode.g.n == PathCost(path) + nodes[ci].g.n
  }

  /** One step of the read-back: follow the predecessor of `ci`, whose cost
      is strictly lower. */
  lemma ReadBackStep(nodes: seq<PathNode>, endNode: PathNode, e: int, s: int, path: seq<Cell>, ci: int, w: int, h: int)
    requires Chain(nodes, s, w, h) && ReadBack(nodes, endNode, e, path, ci, w, h)
    requires nodes[ci].previous != -1
    ensures var p := nodes[ci].previous;
            && 0 <= p < |nodes| && nodes[p].g.Finite? && nodes[p].g.n < nodes[ci].g.n
            && ReadBack(nodes, endNode, e, path + [Pos(nodes[p])], p, w, h)
  {
    var p := nodes[ci].previous;
    assert Link(nodes, ci);
    DistanceZero(Pos(nodes[p]), Pos(nodes[ci]));
    PathCostAppend(path, Pos(nodes[p]));
    assert WalkableAt(nodes, Pos(nodes[ci]), w);
    assert IsPositionInGrid(Pos(nodes[p]), w, h);
    var path' := path + [Pos(nodes[p])];
    forall i | 0 <= i < |path'| - 1
      ensures IsStep(path'[i + 1], path'[i]) && WalkableAt(nodes, path'[i], w)
    {
      if i < |path| - 1 {
        assert path'[i + 1] == path[i + 1] && path'[i] == path[i];
      }
    }
  }

  /** `CalculatePath`: the read-back from `endNode` through the predecessor
      indices. Without a predecessor the path is empty; otherwise it starts
      at the goal, ends at the start, moves one neighbour at a time over
      walkable cells (the start excepted), and its summed move costs are the
      goal's g-cost. */
  method CalculatePath(nodes: seq<PathNode>, endNode: PathNode, ghost e: int, ghost s: int,
                       ghost w: int, ghost h: int) returns (path: seq<Cell>)
    requires Chain(nodes, s, w, h) && 0 <= e < |nodes| && endNode == nodes[e]
    ensures endNode.previous == -1 <==> path == []
    ensures path != [] ==>
              && |path| >= 2 && path[0] == Pos(endNode) && path[|path| - 1] == Pos(nodes[s])
              && endNode.g == Finite(PathCost(path))
    ensures forall i :: 0 <= i < |path| ==> IsPositionInGrid(path[i], w, h)
    ensures forall i :: 0 <= i < |path| - 1 ==> IsStep(path[i + 1], path[i]) && WalkableAt(nodes, path[i], w)
  {
    if endNode.previous == -1 {
      return [];
    }
    assert Link(nodes, e);
    path := [Pos(endNode)];
    var currentNode := endNode;
    ghost var ci := e;
    while currentNode.previous != -1
      invariant ReadBack(nodes, endNode, e, path, ci, w, h) && currentNode == nodes[ci]
      decreases currentNode.g.n
    {
      ReadBackStep(nodes, endNode, e, s, path, ci, w, h);
      var previousNode := nodes[currentNode.previous];
      path := path + [Pos(previousNode)];
      ci := currentNode.previous;
      currentNode := previousNode;
    }
    assert ci == s;
  }

  // ---------------------------------------------------------------- the job

  /** The set-up at the head of `FindPathJob.Execute`: every node gets the heuristic to the goal position and no
      predecessor, then the start node gets cost 0 and its f-cost. */
  function SetUp(nodes0: seq<PathNode>, s: int, endPosition: Cell): seq<PathNode>
    requires 0 <= s < |nodes0|
  {
    var nodes := seq(|nodes0|, k requires 0 <= k < |nodes0| =>
                       nodes0[k].(h := CalculateDistanceCost(Pos(nodes0[k]), endPosition), previous := -1));
    nodes[s := CalculateFCost(nodes[s].(g := Finite(0)))]
  }

  /** The set-up, with the start as the only open node, starts the loop in a
      consistent state when no node has been reached yet. */
  lemma InitInv(nodes0: seq<PathNode>, s: int, endPosition: Cell, w: int, h: int)
    requires Layout(nodes0, w, h) && 0 <= s < |nodes0|
    requires forall k :: 0 <= k < |nodes0| ==> nodes0[k].g == Infinite
    ensures Inv(nodes0, SetUp(nodes0, s, endPosition), [s], [], s, endPosition, w, h)
  {
    var nodes := SetUp(nodes0, s, endPosition);
    assert forall k :: 0 <= k < |nodes| && k != s ==> nodes[k].g == Infinite && nodes[k].previous == -1;
    assert Reached(nodes, s);
    assert AllLinked(nodes, []);
  }

  // ---------------------------------------------------------------- exhaustion

  /** Node `k` has been put on one of the two lists. */
  predicate Seen(open: seq<int>, closed: seq<int>, k: int)
  {
    k in open || k in closed
  }

  /** The neighbour of node `c` at `offset`, when it is a walkable grid cell,
      has been put on a list. */
  ghost predicate Handled(nodes0: seq<PathNode>, open: seq<int>, closed: seq<int>, c: int, offset: Cell, w: int, h: int)
    requires 0 <= c < |nodes0|
  {
    var q := Cell(nodes0[c].x + offset.x, nodes0[c].y + offset.y);
    IsPositionInGrid(q, w, h) && WalkableAt(nodes0, q, w) ==> Seen(open, closed, CalculateIndex(q.x, q.y, w))
  }

  /** All eight neighbours of node `c` are handled. */
  ghost predicate Expanded(nodes0: seq<PathNode>, open: seq<int>, closed: seq<int>, c: int, w: int, h: int)
    requires 0 <= c < |nodes0|
  {
    forall j :: 0 <= j < |Offsets| ==> Handled(nodes0, open, closed, c, Offsets[j], w, h)
  }

  /** The part of the search state that makes it exhaustive: every reached
      node is on a list, and the first `n` closed nodes are expanded. */
  ghost predicate Explored(nodes0: seq<PathNode>, nodes: seq<PathNode>, open: seq<int>, closed: seq<int>,
                           w: int, h: int, n: int)
  {
    && 0 <= n <= |closed| && |nodes| == |nodes0| && Within(closed, |nodes0|)
    && (forall k :: 0 <= k < |nodes| && nodes[k].g.Finite? ==> Seen(open, closed, k))
    && (forall i :: 0 <= i < n ==> Expanded(nodes0, open, closed, closed[i], w, h))
  }

  /** Only the start is reached after the set-up, and it is open. */
  lemma ExploredInit(nodes0: seq<PathNode>, s: int, endPosition: Cell, w: int, h: int)
    requires 0 <= s < |nodes0|
    requires forall k :: 0 <= k < |nodes0| ==> nodes0[k].g == Infinite
    ensures Explored(nodes0, SetUp(nodes0, s, endPosition), [s], [], w, h, 0)
  {
    var nodes := SetUp(nodes0, s, endPosition);
    assert forall k :: 0 <= k < |nodes| && k != s ==> nodes[k].g == Infinite;
  }

  /** Lists that only grow keep every node seen and every expansion. */
  lemma ExploredGrows(nodes0: seq<PathNode>, nodes: seq<PathNode>, open: seq<int>, closed: seq<int>,
                      open': seq<int>, closed': seq<int>, w: int, h: int, n: int)
    requires Explored(nodes0, nodes, open, closed, w, h, n)
    requires forall k :: Seen(open, closed, k) ==> Seen(open', closed', k)
    requires |closed| <= |closed'| && closed'[..|closed|] == closed && Within(closed', |nodes0|)
    ensures Explored(nodes0, nodes, open', closed', w, h, n)
  {
    forall i | 0 <= i < n
      ensures Expanded(nodes0, open', closed', closed'[i], w, h)
    {
      assert closed'[i] == closed[i];
      forall j | 0 <= j < |Offsets|
        ensures Handled(nodes0, open', closed', closed[i], Offsets[j], w, h)
      {
        assert Handled(nodes0, open, closed, closed[i], Offsets[j], w, h);
      }
    }
  }

  /** Closing the expanded node keeps the exploration: it moves from one
      list to the other. */
  lemma ExploredClose(nodes0: seq<PathNode>, nodes: seq<PathNode>, open: seq<int>, closed: seq<int>,
                      w: int, h: int, at: nat)
    requires Explored(nodes0, nodes, open, closed, w, h, |closed|)
    requires at < |open| && 0 <= open[at] < |nodes0|
    ensures Explored(nodes0, nodes, RemoveFirst(open, open[at]), closed + [open[at]], w, h, |closed|)
  {
    var c := open[at];
    var open', closed' := RemoveFirst(open, c), closed + [c];
    assert closed'[..|closed|] == closed;
    forall k | Seen(open, closed, k)
      ensures Seen(open', closed', k)
    {
      if k != c && k in open {
        assert k in open';
      }
    }
    ExploredGrows(nodes0, nodes, open, closed, open', closed', w, h, |closed|);
  }

  /** The node array as the search sees it: each node at its own index, with
      the cell and walkability of the array it started from. */
  ghost predicate Mirrors(nodes0: seq<PathNode>, nodes: seq<PathNode>)
  {
    && |nodes| == |nodes0|
    && forall k :: 0 <= k < |nodes| ==>
         nodes[k].index == k && nodes[k].walkable == nodes0[k].walkable && Pos(nodes[k]) == Pos(nodes0[k])
  }

  lemma FrameMirrors(nodes0: seq<PathNode>, nodes: seq<PathNode>, end: Cell, w: int, h: int)
    requires Frame(nodes0, nodes, end, w, h)
    ensures Mirrors(nodes0, nodes) && w >= 0 && h >= 0 && |nodes| == Mul(w, h)
  {
  }

  /** Relaxing only adds to the open list. */
  lemma RelaxGrowsOpen(nodes: seq<PathNode>, open: seq<int>, closed: seq<int>, c: int, current: PathNode,
                       offset: Cell, w: int, h: int)
    requires w >= 0 && h >= 0 && |nodes| == Mul(w, h) && current.g.Finite?
    ensures forall k :: Seen(open, closed, k) ==> Seen(Relax(nodes, open, closed, c, current, offset, w, h).open, closed, k)
  {
  }

  /** Relaxing keeps every reached node on a list: the one node it reaches
      goes on the open list. */
  lemma RelaxKeepsSeen(nodes0: seq<PathNode>, nodes: seq<PathNode>, open: seq<int>, closed: seq<int>, c: int,
                       current: PathNode, offset: Cell, w: int, h: int)
    requires w >= 0 && h >= 0 && |nodes| == Mul(w, h) && current.g.Finite? && Mirrors(nodes0, nodes)
    requires forall k :: 0 <= k < |nodes| && nodes[k].g.Finite? ==> Seen(open, closed, k)
    ensures var r := Relax(nodes, open, closed, c, current, offset, w, h);
            forall k :: 0 <= k < |r.nodes| && r.nodes[k].g.Finite? ==> Seen(r.open, closed, k)
  {
    var r := Relax(nodes, open, closed, c, current, offset, w, h);
    RelaxGrowsOpen(nodes, open, closed, c, current, offset, w, h);
    if Improves(nodes, closed, current, offset, w, h) {
      var q := Cell(current.x + offset.x, current.y + offset.y);
      var k := CalculateIndex(q.x, q.y, w);
      forall k' | 0 <= k' < |r.nodes| && r.nodes[k'].g.Finite?
        ensures Seen(r.open, closed, k')
      {
        if k' != k {
          assert r.nodes[k'] == nodes[k'];
        }
      }
    }
  }

  /** After relaxing `offset` from node `c`, that neighbour is handled:
      it was closed, or it was improved and opened, or it was already
      reached at no greater cost and so is on a list. */
  lemma RelaxHandles(nodes0: seq<PathNode>, nodes: seq<PathNode>, open: seq<int>, closed: seq<int>, c: int,
                     current: PathNode, offset: Cell, w: int, h: int)
    requires w >= 0 && h >= 0 && |nodes| == Mul(w, h) && current.g.Finite? && Mirrors(nodes0, nodes)
    requires 0 <= c < |nodes| && current == nodes[c]
    requires forall k :: 0 <= k < |nodes| && nodes[k].g.Finite? ==> Seen(open, closed, k)
    ensures Handled(nodes0, Relax(nodes, open, closed, c, current, offset, w, h).open, closed, c, offset, w, h)
  {
    var r := Relax(nodes, open, closed, c, current, offset, w, h);
    RelaxGrowsOpen(nodes, open, closed, c, current, offset, w, h);
    var q := Cell(current.x + offset.x, current.y + offset.y);
    if IsPositionInGrid(q, w, h) {
      IndexOfCell(q.x, q.y, w, h);
      var k := CalculateIndex(q.x, q.y, w);
      assert nodes[k].index == k;
      if !Improves(nodes, closed, current, offset, w, h) && k !in closed && nodes[k].walkable {
        assert Seen(open, closed, k);
      }
    }
  }

  /** Handling survives lists that only grow. */
  lemma HandledKept(nodes0: seq<PathNode>, open: seq<int>, closed: seq<int>, open': seq<int>, c: int,
                    offset: Cell, w: int, h: int)
    requires 0 <= c < |nodes0| && Handled(nodes0, open, closed, c, offset, w, h)
    requires forall k :: Seen(open, closed, k) ==> Seen(open', closed, k)
    ensures Handled(nodes0, open', closed, c, offset, w, h)
  {
  }

  /** The exploration after one pass of the neighbour loop over the last
      closed node `c`: the lists grew, every reached node is still on one,
      and offset `i` is handled on top of the earlier ones. */
  lemma ExploredAfter(nodes0: seq<PathNode>, nodes: seq<PathNode>, nodes': seq<PathNode>, open: seq<int>,
                      open': seq<int>, closed: seq<int>, w: int, h: int, i: nat)
    requires 0 < |closed| && i < |Offsets|
    ensures && Explored(nodes0, nodes, open, closed, w, h, |closed| - 1)
            && (forall j :: 0 <= j < i ==> Handled(nodes0, open, closed, closed[|closed| - 1], Offsets[j], w, h))
            && (forall k :: Seen(open, closed, k) ==> Seen(open', closed, k))
            && |nodes'| == |nodes|
            && (forall k :: 0 <= k < |nodes'| && nodes'[k].g.Finite? ==> Seen(open', closed, k))
            && Handled(nodes0, open', closed, closed[|closed| - 1], Offsets[i], w, h)
            ==>
            && Explored(nodes0, nodes', open', closed, w, h, |closed| - 1)
            && (forall j :: 0 <= j <= i ==> Handled(nodes0, open', closed, closed[|closed| - 1], Offsets[j], w, h))
  {
    var c := closed[|closed| - 1];
    if && Explored(nodes0, nodes, open, closed, w, h, |closed| - 1)
       && (forall j :: 0 <= j < i ==> Handled(nodes0, open, closed, c, Offsets[j], w, h))
       && (forall k :: Seen(open, closed, k) ==> Seen(open', closed, k))
       && |nodes'| == |nodes|
       && (forall k :: 0 <= k < |nodes'| && nodes'[k].g.Finite? ==> Seen(open', closed, k))
    {
      assert closed[..|closed|] == closed;
      ExploredGrows(nodes0, nodes, open, closed, open', closed, w, h, |closed| - 1);
      forall j | 0 <= j < i
        ensures Handled(nodes0, open', closed, c, Offsets[j], w, h)
      {
        HandledKept(nodes0, open, closed, open', c, Offsets[j], w, h);
      }
    }
  }

  /** One pass of the neighbour loop keeps the exploration and handles its
      offset. */
  lemma ExploredRelax(nodes0: seq<PathNode>, nodes: seq<PathNode>, open: seq<int>, closed: seq<int>,
                      w: int, h: int, current: PathNode, i: nat)
    requires 0 < |closed| && i < |Offsets| && current.g.Finite?
    requires w >= 0 && h >= 0 && |nodes| == Mul(w, h) && Mirrors(nodes0, nodes)
    requires 0 <= closed[|closed| - 1] < |nodes| && current == nodes[closed[|closed| - 1]]
    ensures && Explored(nodes0, nodes, open, closed, w, h, |closed| - 1)
            && (forall j :: 0 <= j < i ==> Handled(nodes0, open, closed, closed[|closed| - 1], Offsets[j], w, h))
            ==>
            var r := Relax(nodes, open, closed, closed[|closed| - 1], current, Offsets[i], w, h);
            && Explored(nodes0, r.nodes, r.open, closed, w, h, |closed| - 1)
            && (forall j :: 0 <= j <= i ==> Handled(nodes0, r.open, closed, closed[|closed| - 1], Offsets[j], w, h))
  {
    var c := closed[|closed| - 1];
    var r := Relax(nodes, open, closed, c, current, Offsets[i], w, h);
    if Explored(nodes0, nodes, open, closed, w, h, |closed| - 1) {
      RelaxGrowsOpen(nodes, open, closed, c, current, Offsets[i], w, h);
      RelaxKeepsSeen(nodes0, nodes, open, closed, c, current, Offsets[i], w, h);
      RelaxHandles(nodes0, nodes, open, closed, c, current, Offsets[i], w, h);
      ExploredAfter(nodes0, nodes, r.nodes, open, r.open, closed, w, h, i);
    }
  }

  /** Once every offset of the last closed node is handled, that node counts
      as expanded. */
  lemma ExploredFinish(nodes0: seq<PathNode>, nodes: seq<PathNode>, open: seq<int>, closed: seq<int>, w: int, h: int)
    requires 0 < |closed|
    ensures && Explored(nodes0, nodes, open, closed, w, h, |closed| - 1)
            && (forall j :: 0 <= j < |Offsets| ==> Handled(nodes0, open, closed, closed[|closed| - 1], Offsets[j], w, h))
            ==> Explored(nodes0, nodes, open, closed, w, h, |closed|)
  {
  }

  /** A move from `a` to its neighbour `b`, a walkable cell of the node array. */
  predicate NodeMove(nodes0: seq<PathNode>, a: Cell, b: Cell, w: int)
  {
    IsStep(a, b) && WalkableAt(nodes0, b, w)
  }

  /** `p` is a walk over the node array: in-grid cells, each a neighbour of
      the one before, and every cell after the first walkable. */
  ghost predicate NodeWalk(nodes0: seq<PathNode>, p: seq<Cell>, w: int, h: int)
  {
    && |p| > 0
    && (forall i :: 0 <= i < |p| ==> IsPositionInGrid(p[i], w, h))
    && (forall i :: 0 <= i < |p| - 1 ==> NodeMove(nodes0, p[i], p[i + 1], w))
  }

  /** No move over walkable nodes leads out of the closed list. */
  ghost predicate ClosedUnderMoves(nodes0: seq<PathNode>, closed: seq<int>, w: int, h: int)
  {
    forall a, b :: IsPositionInGrid(a, w, h) && IsPositionInGrid(b, w, h) && NodeMove(nodes0, a, b, w)
      && CalculateIndex(a.x, a.y, w) in closed
      ==> CalculateIndex(b.x, b.y, w) in closed
  }

  /** Once the open list is empty, a walkable neighbour of a closed node is
      itself closed, because every closed node was expanded. */
  lemma ClosedStep(nodes0: seq<PathNode>, nodes: seq<PathNode>, closed: seq<int>, a: Cell, b: Cell, w: int, h: int)
    requires Layout(nodes0, w, h) && Explored(nodes0, nodes, [], closed, w, h, |closed|)
    requires IsPositionInGrid(a, w, h) && IsPositionInGrid(b, w, h) && NodeMove(nodes0, a, b, w)
      && CalculateIndex(a.x, a.y, w) in closed
    ensures CalculateIndex(b.x, b.y, w) in closed
  {
    var c := CalculateIndex(a.x, a.y, w);
    IndexOfCell(a.x, a.y, w, h);
    IndexInjective(a, Pos(nodes0[c]), w, h);
    var ci :| 0 <= ci < |closed| && closed[ci] == c;
    assert Expanded(nodes0, [], closed, c, w, h);
    var d := Cell(b.x - a.x, b.y - a.y);
    var j :| 0 <= j < |Offsets| && Offsets[j] == d;
    assert Handled(nodes0, [], closed, c, Offsets[j], w, h);
  }

  /** Once the open list is empty, the closed list is closed under moves. */
  lemma ExhaustedClosed(nodes0: seq<PathNode>, nodes: seq<PathNode>, closed: seq<int>, w: int, h: int)
    requires Layout(nodes0, w, h) && Explored(nodes0, nodes, [], closed, w, h, |closed|)
    ensures ClosedUnderMoves(nodes0, closed, w, h)
  {
    forall a, b | IsPositionInGrid(a, w, h) && IsPositionInGrid(b, w, h) && NodeMove(nodes0, a, b, w)
      && CalculateIndex(a.x, a.y, w) in closed
      ensures CalculateIndex(b.x, b.y, w) in closed
    {
      ClosedStep(nodes0, nodes, closed, a, b, w, h);
    }
  }

  /** Once the open list is empty, the closed nodes include the start and
      hold every walkable neighbour of each of them, so no walk from the
      start leaves them; a goal that was never closed is unreachable. */
  lemma Exhausted(nodes0: seq<PathNode>, nodes: seq<PathNode>, closed: seq<int>, s: int, e: int, w: int, h: int)
    requires Layout(nodes0, w, h) && Explored(nodes0, nodes, [], closed, w, h, |closed|)
    requires 0 <= s < |nodes0| && 0 <= e < |nodes0| && nodes[s].g.Finite? && e !in closed
    ensures forall p :: NodeWalk(nodes0, p, w, h) && p[0] == Pos(nodes0[s]) ==> p[|p| - 1] != Pos(nodes0[e])
  {
    ExhaustedClosed(nodes0, nodes, closed, w, h);
    forall p | NodeWalk(nodes0, p, w, h) && p[0] == Pos(nodes0[s])
      ensures p[|p| - 1] != Pos(nodes0[e])
    {
      WalkStaysClosed(nodes0, closed, p, w, h);
    }
  }

  /** Every cell of a walk that starts on a closed node is a closed node,
      when no move leads out of the closed list. */
  lemma {:induction false} WalkStaysClosed(nodes0: seq<PathNode>, closed: seq<int>, p: seq<Cell>, w: int, h: int)
    requires ClosedUnderMoves(nodes0, closed, w, h)
    requires NodeWalk(nodes0, p, w, h) && CalculateIndex(p[0].x, p[0].y, w) in closed
    ensures CalculateIndex(p[|p| - 1].x, p[|p| - 1].y, w) in closed
    decreases |p|
  {
    var n := |p|;
    if n > 1 {
      var p' := p[..n - 1];
      assert NodeWalk(nodes0, p', w, h);
      WalkStaysClosed(nodes0, closed, p', w, h);
      assert IsPositionInGrid(p[n - 2], w, h) && IsPositionInGrid(p[n - 1], w, h) && NodeMove(nodes0, p[n - 2], p[n - 1], w);
    }
  }

  /** The neighbour loop of `FindPathJob.Execute` over the node just closed,
      whose copy is `currentNode`: it relaxes the eight offsets in order,
      keeps the search state consistent, and leaves that node expanded. */
  method ExpandNeighbours(nodes0: seq<PathNode>, nodes: seq<PathNode>, open: seq<int>, closed: seq<int>,
                          s: int, end: Cell, w: int, h: int, currentNode: PathNode)
    returns (nodes': seq<PathNode>, open': seq<int>)
    requires 0 < |closed| && Inv(nodes0, nodes, open, closed, s, end, w, h)
    requires nodes[closed[|closed| - 1]] == currentNode
    requires Explored(nodes0, nodes, open, closed, w, h, |closed| - 1)
    ensures Inv(nodes0, nodes', open', closed, s, end, w, h)
    ensures Explored(nodes0, nodes', open', closed, w, h, |closed|)
  {
    var c := closed[|closed| - 1];
    nodes', open' := nodes, open;
    var i := 0;
    while i < |Offsets|
      invariant 0 <= i <= |Offsets|
      invariant Inv(nodes0, nodes', open', closed, s, end, w, h)
      invariant nodes'[c] == currentNode
      invariant Explored(nodes0, nodes', open', closed, w, h, |closed| - 1)
      invariant forall j :: 0 <= j < i ==> Handled(nodes0, open', closed, c, Offsets[j], w, h)
    {
      RelaxKeepsInv(nodes0, nodes', open', closed, s, end, w, h, |closed| - 1, currentNode, Offsets[i]);
      FrameMirrors(nodes0, nodes', end, w, h);
      ExploredRelax(nodes0, nodes', open', closed, w, h, currentNode, i);
      var next := Relax(nodes', open', closed, c, currentNode, Offsets[i], w, h);
      nodes', open' := next.nodes, next.open;
      i := i + 1;
    }
    ExploredFinish(nodes0, nodes', open', closed, w, h);
  }

  /** How the main loop ends without a predecessor for a goal other than the
      start: the goal was never taken from the open list (there it would be
      reached, so linked), hence the open list ran empty and the goal is out
      of reach. */
  lemma NotReachedIsExhausted(nodes0: seq<PathNode>, nodes: seq<PathNode>, open: seq<int>, closed: seq<int>,
                              s: int, e: int, end: Cell, w: int, h: int, goalOpen: bool)
    requires Inv(nodes0, nodes, open, closed, s, end, w, h) && Explored(nodes0, nodes, open, closed, w, h, |closed|)
    requires 0 <= e < |nodes| && e !in closed && s != e && nodes[e].previous == -1
    requires goalOpen ==> e in open
    requires !goalOpen ==> |open| == 0
    ensures forall p :: NodeWalk(nodes0, p, w, h) && p[0] == Pos(nodes0[s]) ==> p[|p| - 1] != Pos(nodes0[e])
  {
    if goalOpen {
      assert false;
    }
    Exhausted(nodes0, nodes, closed, s, e, w, h);
  }

  /** `FindPathJob.Execute` on the node array `nodes0` (as `GetPathNodeArray`
      makes it). It faults, `None`, when the start or goal index lies outside
      the array. Otherwise it yields the path (possibly empty), the final
      node array and the closed list. The path is empty exactly when the goal
      got no predecessor, in particular when the goal is not walkable or is
      the start. A non-empty path runs from the goal's node to the start's
      node in single neighbour moves over walkable cells (the start
      excepted), and its move costs sum to the goal's final g-cost. For a
      goal other than the start the path is empty only when no walk over
      the array leads from the start's cell to the goal's cell. Every node
      is expanded at most once and the goal never, so the main loop runs at
      most `w·h` times. */
  method FindPathJob(nodes0: seq<PathNode>, startPosition: Cell, endPosition: Cell, w: int, h: int)
    returns (result: Option<seq<Cell>>, nodes: seq<PathNode>, closed: seq<int>)
    requires Layout(nodes0, w, h)
    requires forall k :: 0 <= k < |nodes0| ==> nodes0[k].g == Infinite
    ensures result.Some? <==>
              && 0 <= CalculateIndex(startPosition.x, startPosition.y, w) < Mul(w, h)
              && 0 <= CalculateIndex(endPosition.x, endPosition.y, w) < Mul(w, h)
    ensures result.Some? ==>
              var s := CalculateIndex(startPosition.x, startPosition.y, w);
              var e := CalculateIndex(endPosition.x, endPosition.y, w);
              var path := result.value;
              && |nodes| == |nodes0|
              && (path == [] <==> nodes[e].previous == -1)
              && (path != [] ==>
                    && |path| >= 2 && path[0] == Pos(nodes0[e]) && path[|path| - 1] == Pos(nodes0[s])
                    && nodes[e].g == Finite(PathCost(path)))
              && (forall i :: 0 <= i < |path| ==> IsPositionInGrid(path[i], w, h))
              && (forall i :: 0 <= i < |path| - 1 ==> IsStep(path[i + 1], path[i]) && WalkableAt(nodes0, path[i], w))
              && (!nodes0[e].walkable ==> path == [])
              && (s == e ==> path == [])
              && (path == [] && s != e ==>
                    forall p :: NodeWalk(nodes0, p, w, h) && p[0] == Pos(nodes0[s]) ==> p[|p| - 1] != Pos(nodes0[e]))
              && Distinct(closed) && Within(closed, Mul(w, h)) && |closed| <= Mul(w, h) && e !in closed
  {
    var s := CalculateIndex(startPosition.x, startPosition.y, w);
    var e := CalculateIndex(endPosition.x, endPosition.y, w);
    if !(0 <= s < Mul(w, h) && 0 <= e < Mul(w, h)) {
      return None, nodes0, [];
    }
    nodes := SetUp(nodes0, s, endPosition);
    var open := [s];
    closed := [];
    InitInv(nodes0, s, endPosition, w, h);
    ExploredInit(nodes0, s, endPosition, w, h);
    ghost var goalOpen := false;
    while |open| > 0
      invariant Inv(nodes0, nodes, open, closed, s, endPosition, w, h)
      invariant Explored(nodes0, nodes, open, closed, w, h, |closed|)
      invariant e !in closed && !goalOpen
      decreases Mul(w, h) - |closed|
    {
      var currentNodeIndex, at := GetLowestCostFNodeIndex(open, nodes);
      assert currentNodeIndex == open[at] by {
        assert nodes[open[at]].index == nodes0[open[at]].index;
      }
      var currentNode := nodes[currentNodeIndex];
      if currentNodeIndex == e {
        goalOpen := true;
        break;
      }
      CloseKeepsInv(nodes0, nodes, open, closed, s, endPosition, w, h, at);
      ExploredClose(nodes0, nodes, open, closed, w, h, at);
      open := RemoveFirst(open, currentNodeIndex);
      closed := closed + [currentNodeIndex];
      DistinctBound(closed, Mul(w, h));
      nodes, open := ExpandNeighbours(nodes0, nodes, open, closed, s, endPosition, w, h, currentNode);
    }
    DistinctBound(closed, Mul(w, h));
    InvChain(nodes0, nodes, open, closed, s, endPosition, w, h);
    var endNode := nodes[e];
    if endNode.previous == -1 {
      if s != e {
        NotReachedIsExhausted(nodes0, nodes, open, closed, s, e, endPosition, w, h, goalOpen);
      }
      result := Some([]);
    } else {
      assert Link(nodes, e);
      var path := CalculatePath(nodes, endNode, e, s, w, h);
      forall i | 0 <= i < |path| - 1
        ensures WalkableAt(nodes0, path[i], w)
      {
        assert WalkableAt(nodes, path[i], w);
      }
      result := Some(path);
    }
  }

  /** The job can run: the indices of both endpoints lie in the node array. */
  predicate Searchable(grid: NavGrid, start: Cell, end: Cell)
    requires Valid(grid)
  {
    && 0 <= CalculateIndex(start.x, start.y, grid.width) < grid.width * grid.height
    && 0 <= CalculateIndex(end.x, end.y, grid.width) < grid.width * grid.height
  }

  /** A move from `a` to its neighbour `b`, a walkable cell of `grid`. */
  predicate GridMove(grid: NavGrid, a: Cell, b: Cell)
    requires Valid(grid)
  {
    IsStep(a, b) && InRange(grid, b.x, b.y) && grid.cells[b.x][b.y].walkable
  }

  /** `p` is a walk over `grid`: grid cells, each a neighbour of the one
      before, and every cell after the first walkable. */
  ghost predicate Walk(grid: NavGrid, p: seq<Cell>)
    requires Valid(grid)
  {
    && |p| > 0
    && (forall i :: 0 <= i < |p| ==> InRange(grid, p[i].x, p[i].y))
    && (forall i :: 0 <= i < |p| - 1 ==> GridMove(grid, p[i], p[i + 1]))
  }

  /** What a search from `start` to `end` promises of the cells `found` it
      returns, stated over the grid: a non-empty result leads from `end` to
      `start` (when those lie in the grid) in single neighbour moves over
      walkable cells, the start excepted; an unwalkable goal or a goal equal
      to the start finds nothing; and from a start in the grid, nothing is
      found only when no walk leads from the start to the goal. */
  ghost predicate Found(grid: NavGrid, start: Cell, end: Cell, found: seq<Cell>)
    requires Valid(grid)
  {
    && (found != [] ==>
          && |found| >= 2
          && (InRange(grid, end.x, end.y) ==> found[0] == end)
          && (InRange(grid, start.x, start.y) ==> found[|found| - 1] == start))
    && (forall i :: 0 <= i < |found| ==> InRange(grid, found[i].x, found[i].y))
    && (forall i :: 0 <= i < |found| - 1 ==>
          IsStep(found[i + 1], found[i]) && grid.cells[found[i].x][found[i].y].walkable)
    && (InRange(grid, end.x, end.y) && !grid.cells[end.x][end.y].walkable ==> found == [])
    && (start == end ==> found == [])
    && (found == [] && start != end && InRange(grid, start.x, start.y) ==>
          forall p :: Walk(grid, p) && p[0] == start ==> p[|p| - 1] != end)
  }

  /** A search result between two distinct grid cells joined by a walk is a
      path from the goal back to the start. */
  lemma FoundOnRoute(grid: NavGrid, start: Cell, end: Cell, found: seq<Cell>, p: seq<Cell>)
    requires Valid(grid) && Found(grid, start, end, found)
    requires InRange(grid, start.x, start.y) && InRange(grid, end.x, end.y) && start != end
    requires Walk(grid, p) && p[0] == start && p[|p| - 1] == end
    ensures |found| >= 2 && found[0] == end && found[|found| - 1] == start
  {
  }

  /** On an open row of four cells, a search from one end to the other finds
      a path: a result the search may return is a path from `(3, 0)` back to
      `(0, 0)`. */
  lemma FoundOnOpenRow(grid: NavGrid, found: seq<Cell>)
    requires Valid(grid) && grid.width == 4 && grid.height == 1
    requires forall x :: 0 <= x < 4 ==> grid.cells[x][0].walkable
    requires Found(grid, Cell(0, 0), Cell(3, 0), found)
    ensures |found| >= 2 && found[0] == Cell(3, 0) && found[|found| - 1] == Cell(0, 0)
  {
    OpenRowWalk(grid);
    FoundOnRoute(grid, Cell(0, 0), Cell(3, 0), found, [Cell(0, 0), Cell(1, 0), Cell(2, 0), Cell(3, 0)]);
  }

  /** The open row of four cells is walked from left to right. */
  lemma OpenRowWalk(grid: NavGrid)
    requires Valid(grid) && grid.width == 4 && grid.height == 1
    requires forall x :: 0 <= x < 4 ==> grid.cells[x][0].walkable
    ensures Walk(grid, [Cell(0, 0), Cell(1, 0), Cell(2, 0), Cell(3, 0)])
  {
    var p := [Cell(0, 0), Cell(1, 0), Cell(2, 0), Cell(3, 0)];
    assert Cell(1, 0) == Offsets[1];
    assert GridMove(grid, p[0], p[1]) && GridMove(grid, p[1], p[2]) && GridMove(grid, p[2], p[3]);
  }

  /** `StartPathfinding`: runs the job on a fresh node array of `grid` and
      appends what it finds to `path`; it faults, `None`, when the job
      cannot index an endpoint. */
  method StartPathfinding(grid: NavGrid, path: seq<Cell>, start: Cell, end: Cell) returns (r: Option<seq<Cell>>)
    requires Valid(grid)
    ensures r.Some? <==> Searchable(grid, start, end)
    ensures r.Some? ==> |r.value| >= |path| && r.value[..|path|] == path
    ensures r.Some? ==> Found(grid, start, end, r.value[|path|..])
  {
    var w, h := grid.width, grid.height;
    MulIsProduct(w, h);
    var nodes0 := GetPathNodeArray(grid);
    GetPathNodeArrayLayout(grid);
    var outcome, nodes, closed := FindPathJob(nodes0, start, end, w, h);
    if outcome.None? {
      return None;
    }
    var found := outcome.value;
    FoundOnGrid(grid, found, start, end);
    r := Some(path + found);
    assert r.value[|path|..] == found;
  }

  /** A path the job found over the fresh node array of `grid`, read back as
      grid cells: its ends are the goal and start cells, every cell is in the
      grid, and every move is a neighbour step off a walkable cell. */
  lemma FoundOnGrid(grid: NavGrid, found: seq<Cell>, start: Cell, end: Cell)
    requires Valid(grid)
    requires var nodes0 := GetPathNodeArray(grid);
             var s := CalculateIndex(start.x, start.y, grid.width);
             var e := CalculateIndex(end.x, end.y, grid.width);
             && 0 <= s < |nodes0| && 0 <= e < |nodes0|
             && (found != [] ==>
                   |found| >= 2 && found[0] == Pos(nodes0[e]) && found[|found| - 1] == Pos(nodes0[s]))
             && (forall i :: 0 <= i < |found| ==> IsPositionInGrid(found[i], grid.width, grid.height))
             && (forall i :: 0 <= i < |found| - 1 ==>
                   IsStep(found[i + 1], found[i]) && WalkableAt(nodes0, found[i], grid.width))
             && (!nodes0[e].walkable ==> found == [])
             && (s == e ==> found == [])
             && (found == [] && s != e ==>
                   forall p :: NodeWalk(nodes0, p, grid.width, grid.height) && p[0] == Pos(nodes0[s]) ==>
                     p[|p| - 1] != Pos(nodes0[e]))
    ensures Found(grid, start, end, found)
  {
    var w, h := grid.width, grid.height;
    var nodes0 := GetPathNodeArray(grid);
    var s := CalculateIndex(start.x, start.y, w);
    var e := CalculateIndex(end.x, end.y, w);
    forall i | 0 <= i < |found| - 1
      ensures grid.cells[found[i].x][found[i].y].walkable
    {
      assert WalkableAt(nodes0, found[i], w);
      assert InRange(grid, found[i].x, found[i].y);
    }
    if InRange(grid, end.x, end.y) {
      assert nodes0[e] == FreshNode(grid, end.x, end.y);
    }
    if InRange(grid, start.x, start.y) {
      assert nodes0[s] == FreshNode(grid, start.x, start.y);
    }
    if found == [] && start != end && InRange(grid, start.x, start.y) {
      forall p | Walk(grid, p) && p[0] == start
        ensures p[|p| - 1] != end
      {
        if InRange(grid, end.x, end.y) {
          WalkOnNodes(grid, p);
        }
      }
    }
  }

  /** A walk over the grid is a walk over its fresh node array. */
  lemma WalkOnNodes(grid: NavGrid, p: seq<Cell>)
    requires Valid(grid) && Walk(grid, p)
    ensures NodeWalk(GetPathNodeArray(grid), p, grid.width, grid.height)
  {
    var nodes0 := GetPathNodeArray(grid);
    forall i | 0 <= i < |p| - 1
      ensures NodeMove(nodes0, p[i], p[i + 1], grid.width)
    {
      assert GridMove(grid, p[i], p[i + 1]);
      assert nodes0[CalculateIndex(p[i + 1].x, p[i + 1].y, grid.width)] == FreshNode(grid, p[i + 1].x, p[i + 1].y);
    }
  }
}
