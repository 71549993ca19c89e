/** Terrain classification (`GridManager.SetGridWalkability`).

    Input: the blocked mask of pass 1 (which cells overlap solid terrain).
    Output: the walkable and cliff flags of every cell, derived by four passes
    run in order over boolean masks indexed `[x][y]`:
      2. ground:    a free cell standing on a blocked cell is walkable;
      3. cliffs:    a free, non-walkable cell beside a walkable cell that is not
                    yet in the cliff set becomes a walkable cliff, and the free
                    cells below it down to the first blocked cell become walkable;
      4. gap fill:  between consecutive cliffs (in x order) a rectangle of open
                    air with no floor beneath is made walkable;
      5. extension: the walkable cell just below each cliff becomes a cliff too.
    Every pass only ever sets flags to true; no pass makes a blocked cell
    walkable; every cliff is walkable.
 */
module Terrain {
  import opened Grids

  type Mask = seq<seq<bool>>

  predicate IsMask(m: Mask, w: int, h: int)
  {
    |m| == w && forall x :: 0 <= x < |m| ==> |m[x]| == h
  }

  predicate InGrid(w: int, h: int, x: int, y: int)
  {
    0 <= x < w && 0 <= y < h
  }

  function Blank(w: nat, h: nat): (m: Mask)
    ensures IsMask(m, w, h)
    ensures forall x, y :: InGrid(w, h, x, y) ==> !m[x][y]
  {
    seq(w, x => seq(h, y => false))
  }

  /** The one mutation the passes use: set a flag to true. */
  function Mark(m: Mask, x: int, y: int): (r: Mask)
    requires 0 <= x < |m| && 0 <= y < |m[x]|
    ensures |r| == |m| && forall i :: 0 <= i < |m| ==> |r[i]| == |m[i]|
    ensures forall i, j :: 0 <= i < |m| && 0 <= j < |m[i]| ==> r[i][j] == (m[i][j] || (i == x && j == y))
  {
    m[x := m[x][y := true]]
  }

  lemma MaskExtensionality(a: Mask, b: Mask, w: int, h: int)
    requires IsMask(a, w, h) && IsMask(b, w, h)
    requires forall x, y :: InGrid(w, h, x, y) ==> a[x][y] == b[x][y]
    ensures a == b
  {
    forall x | 0 <= x < w
      ensures a[x] == b[x]
    {
      assert forall y :: 0 <= y < h ==> a[x][y] == b[x][y];
    }
  }

  /** The state carried through passes 2-4: the two flag masks and the
      `cliffNodes` set of the source. */
  datatype Sweep = Sweep(walk: Mask, cliff: Mask, marked: set<Cell>)

  predicate Shaped(s: Sweep, w: int, h: int)
  {
    IsMask(s.walk, w, h) && IsMask(s.cliff, w, h)
  }

  /** The classification invariants: every cliff is walkable, and no blocked
      cell is walkable. */
  ghost predicate Sound(blocked: Mask, s: Sweep, w: int, h: int)
    requires IsMask(blocked, w, h) && Shaped(s, w, h)
  {
    forall x, y :: InGrid(w, h, x, y) ==>
      (s.cliff[x][y] ==> s.walk[x][y]) && (blocked[x][y] ==> !s.walk[x][y])
  }

  /** No flag is ever cleared going from `s` to `t`. */
  ghost predicate Grows(s: Sweep, t: Sweep, w: int, h: int)
    requires Shaped(s, w, h) && Shaped(t, w, h)
  {
    forall x, y :: InGrid(w, h, x, y) ==>
      (s.walk[x][y] ==> t.walk[x][y]) && (s.cliff[x][y] ==> t.cliff[x][y])
  }

  // ---------------------------------------------------------------- pass 2

  /** The inner loop of the ground pass over column `x`, rows `y..h-1`. */
  function GroundColumn(blocked: Mask, walk: Mask, w: int, h: int, x: int, y: int): (r: Mask)
    requires IsMask(blocked, w, h) && IsMask(walk, w, h)
    requires 0 <= x < w && 1 <= y
    ensures IsMask(r, w, h)
    decreases h - y
  {
    if y >= h then walk
    else
      var walk' := if blocked[x][y - 1] && !blocked[x][y] then Mark(walk, x, y) else walk;
      GroundColumn(blocked, walk', w, h, x, y + 1)
  }

  /** The outer loop of the ground pass over columns `x..w-1`. */
  function GroundScan(blocked: Mask, walk: Mask, w: int, h: int, x: int): (r: Mask)
    requires IsMask(blocked, w, h) && IsMask(walk, w, h)
    requires 0 <= x
    ensures IsMask(r, w, h)
    decreases w - x
  {
    if x >= w then walk
    else GroundScan(blocked, GroundColumn(blocked, walk, w, h, x, 1), w, h, x + 1)
  }

  function GroundPass(blocked: Mask, w: nat, h: nat): (r: Mask)
    requires IsMask(blocked, w, h)
    ensures IsMask(r, w, h)
  {
    GroundScan(blocked, Blank(w, h), w, h, 0)
  }

  /** A cell stands on ground when it is free and the cell below is blocked. */
  predicate OnGround(blocked: Mask, w: int, h: int, x: int, y: int)
    requires IsMask(blocked, w, h) && InGrid(w, h, x, y)
  {
    y >= 1 && blocked[x][y - 1] && !blocked[x][y]
  }

  lemma {:induction false} GroundColumnEffect(blocked: Mask, walk: Mask, w: int, h: int, x: int, y: int)
    requires IsMask(blocked, w, h) && IsMask(walk, w, h)
    requires 0 <= x < w && 1 <= y
    ensures forall i, j :: InGrid(w, h, i, j) ==>
              GroundColumn(blocked, walk, w, h, x, y)[i][j] ==
              (walk[i][j] || (i == x && y <= j && OnGround(blocked, w, h, i, j)))
    decreases h - y
  {
    if y < h {
      var walk' := if blocked[x][y - 1] && !blocked[x][y] then Mark(walk, x, y) else walk;
      GroundColumnEffect(blocked, walk', w, h, x, y + 1);
    }
  }

  lemma {:induction false} GroundScanEffect(blocked: Mask, walk: Mask, w: int, h: int, x: int)
    requires IsMask(blocked, w, h) && IsMask(walk, w, h)
    requires 0 <= x
    ensures forall i, j :: InGrid(w, h, i, j) ==>
              GroundScan(blocked, walk, w, h, x)[i][j] ==
              (walk[i][j] || (x <= i && OnGround(blocked, w, h, i, j)))
    decreases w - x
  {
    if x < w {
      GroundColumnEffect(blocked, walk, w, h, x, 1);
      GroundScanEffect(blocked, GroundColumn(blocked, walk, w, h, x, 1), w, h, x + 1);
    }
  }

  /** The ground pass makes exactly the cells standing on ground walkable; in
      particular row 0 never is. */
  lemma GroundPassExact(blocked: Mask, w: nat, h: nat)
    requires IsMask(blocked, w, h)
    ensures forall x, y :: InGrid(w, h, x, y) ==>
              GroundPass(blocked, w, h)[x][y] == OnGround(blocked, w, h, x, y)
  {
    GroundScanEffect(blocked, Blank(w, h), w, h, 0);
  }

  lemma GroundPassSound(blocked: Mask, w: nat, h: nat)
    requires IsMask(blocked, w, h)
    ensures Sound(blocked, Sweep(GroundPass(blocked, w, h), Blank(w, h), {}), w, h)
  {
    GroundPassExact(blocked, w, h);
    var g := GroundPass(blocked, w, h);
    forall x, y | InGrid(w, h, x, y)
      ensures blocked[x][y] ==> !g[x][y]
    {
      assert g[x][y] == OnGround(blocked, w, h, x, y);
    }
  }

  // ---------------------------------------------------------------- pass 3

  /** The highest blocked row at or below `z` in column `x`, or -1 when there is none. */
  function Floor(blocked: Mask, w: int, h: int, x: int, z: int): (r: int)
    requires IsMask(blocked, w, h) && 0 <= x < w && -1 <= z < h
    ensures -1 <= r <= z
    ensures r >= 0 ==> blocked[x][r]
    ensures forall k :: r < k <= z && 0 <= k ==> !blocked[x][k]
    decreases z + 1
  {
    if z < 0 then -1
    else if blocked[x][z] then z
    else Floor(blocked, w, h, x, z - 1)
  }

  /** The downward loop `for z = start; z >= 0; z--`: stop at the first blocked
      cell, otherwise mark the cell walkable and add it to the cliff set. */
  function FillDown(blocked: Mask, s: Sweep, w: int, h: int, x: int, z: int): (r: Sweep)
    requires IsMask(blocked, w, h) && Shaped(s, w, h)
    requires 0 <= x < w && -1 <= z < h
    ensures Shaped(r, w, h) && r.cliff == s.cliff
    decreases z + 1
  {
    if z < 0 || blocked[x][z] then s
    else FillDown(blocked, s.(walk := Mark(s.walk, x, z), marked := s.marked + {Cell(x, z)}), w, h, x, z - 1)
  }

  /** The downward fill marks walkable exactly the free run of cells above the
      floor of column `x`, and adds exactly those cells to the cliff set. */
  lemma {:induction false} FillDownEffect(blocked: Mask, s: Sweep, w: int, h: int, x: int, z: int)
    requires IsMask(blocked, w, h) && Shaped(s, w, h)
    requires 0 <= x < w && -1 <= z < h
    ensures var r := FillDown(blocked, s, w, h, x, z);
            forall i, j :: InGrid(w, h, i, j) ==>
              r.walk[i][j] == (s.walk[i][j] || (i == x && Floor(blocked, w, h, x, z) < j <= z))
    ensures var r := FillDown(blocked, s, w, h, x, z);
            forall c :: c in r.marked <==>
              (c in s.marked || (c.x == x && Floor(blocked, w, h, x, z) < c.y <= z))
    decreases z + 1
  {
    if z >= 0 && !blocked[x][z] {
      FillDownEffect(blocked, s.(walk := Mark(s.walk, x, z), marked := s.marked + {Cell(x, z)}), w, h, x, z - 1);
    }
  }

  /** The condition under which the cliff pass turns cell `(x, y)` into a cliff. */
  predicate Fires(blocked: Mask, s: Sweep, w: int, h: int, x: int, y: int)
    requires IsMask(blocked, w, h) && Shaped(s, w, h) && InGrid(w, h, x, y)
  {
    && !blocked[x][y]
    && !s.walk[x][y]
    && ((x > 0 && s.walk[x - 1][y] && Cell(x - 1, y) !in s.marked)
        || (x < w - 1 && s.walk[x + 1][y] && Cell(x + 1, y) !in s.marked))
  }

  /** One iteration of the cliff pass at `(x, y)`. */
  function CliffVisit(blocked: Mask, s: Sweep, w: int, h: int, x: int, y: int): (r: Sweep)
    requires IsMask(blocked, w, h) && Shaped(s, w, h) && InGrid(w, h, x, y)
    ensures Shaped(r, w, h)
  {
    if !blocked[x][y] && !s.walk[x][y] then
      var leftIsWalkable := x > 0 && s.walk[x - 1][y] && Cell(x - 1, y) !in s.marked;
      var rightIsWalkable := x < w - 1 && s.walk[x + 1][y] && Cell(x + 1, y) !in s.marked;
      if leftIsWalkable || rightIsWalkable then
        var s' := Sweep(Mark(s.walk, x, y), Mark(s.cliff, x, y), s.marked + {Cell(x, y)});
        FillDown(blocked, s', w, h, x, y - 1)
      else s
    else s
  }

  /** A visit that fires makes `(x, y)` a walkable cliff and the free cells
      below it, down to the floor, walkable but not cliffs; a visit that does
      not fire changes nothing. */
  lemma CliffVisitEffect(blocked: Mask, s: Sweep, w: int, h: int, x: int, y: int)
    requires IsMask(blocked, w, h) && Shaped(s, w, h) && InGrid(w, h, x, y)
    ensures var r := CliffVisit(blocked, s, w, h, x, y);
            var fires := Fires(blocked, s, w, h, x, y);
            var floor := Floor(blocked, w, h, x, y - 1);
            && (forall i, j :: InGrid(w, h, i, j) ==>
                  && r.walk[i][j] == (s.walk[i][j] || (fires && i == x && floor < j <= y))
                  && r.cliff[i][j] == (s.cliff[i][j] || (fires && i == x && j == y)))
            && (forall c :: c in r.marked <==>
                  (c in s.marked || (fires && c.x == x && floor < c.y <= y)))
  {
    if Fires(blocked, s, w, h, x, y) {
      var s' := Sweep(Mark(s.walk, x, y), Mark(s.cliff, x, y), s.marked + {Cell(x, y)});
      FillDownEffect(blocked, s', w, h, x, y - 1);
    }
  }

  lemma CliffVisitKeepsSound(blocked: Mask, s: Sweep, w: int, h: int, x: int, y: int)
    requires IsMask(blocked, w, h) && Shaped(s, w, h) && InGrid(w, h, x, y)
    requires Sound(blocked, s, w, h)
    ensures Sound(blocked, CliffVisit(blocked, s, w, h, x, y), w, h)
    ensures Grows(s, CliffVisit(blocked, s, w, h, x, y), w, h)
  {
    CliffVisitEffect(blocked, s, w, h, x, y);
  }

  /** The inner loop of the cliff pass over column `x`, rows `y..h-1`. */
  function CliffColumn(blocked: Mask, s: Sweep, w: int, h: int, x: int, y: int): (r: Sweep)
    requires IsMask(blocked, w, h) && Shaped(s, w, h) && 0 <= x < w && 0 <= y
    ensures Shaped(r, w, h)
    decreases h - y
  {
    if y >= h then s
    else CliffColumn(blocked, CliffVisit(blocked, s, w, h, x, y), w, h, x, y + 1)
  }

  /** The outer loop of the cliff pass over columns `x..w-1`. */
  function CliffScan(blocked: Mask, s: Sweep, w: int, h: int, x: int): (r: Sweep)
    requires IsMask(blocked, w, h) && Shaped(s, w, h) && 0 <= x
    ensures Shaped(r, w, h)
    decreases w - x
  {
    if x >= w then s
    else CliffScan(blocked, CliffColumn(blocked, s, w, h, x, 0), w, h, x + 1)
  }

  /** Pass 3, started from the ground pass's flags and an empty cliff set. */
  function CliffPass(blocked: Mask, ground: Mask, w: nat, h: nat): (r: Sweep)
    requires IsMask(blocked, w, h) && IsMask(ground, w, h)
    ensures Shaped(r, w, h)
  {
    CliffScan(blocked, Sweep(ground, Blank(w, h), {}), w, h, 0)
  }

  lemma {:induction false} CliffColumnKeepsSound(blocked: Mask, s: Sweep, w: int, h: int, x: int, y: int)
    requires IsMask(blocked, w, h) && Shaped(s, w, h) && 0 <= x < w && 0 <= y
    requires Sound(blocked, s, w, h)
    ensures Sound(blocked, CliffColumn(blocked, s, w, h, x, y), w, h)
    ensures Grows(s, CliffColumn(blocked, s, w, h, x, y), w, h)
    decreases h - y
  {
    if y < h {
      var s' := CliffVisit(blocked, s, w, h, x, y);
      CliffVisitKeepsSound(blocked, s, w, h, x, y);
      CliffColumnKeepsSound(blocked, s', w, h, x, y + 1);
    }
  }

  lemma {:induction false} CliffScanKeepsSound(blocked: Mask, s: Sweep, w: int, h: int, x: int)
    requires IsMask(blocked, w, h) && Shaped(s, w, h) && 0 <= x
    requires Sound(blocked, s, w, h)
    ensures Sound(blocked, CliffScan(blocked, s, w, h, x), w, h)
    ensures Grows(s, CliffScan(blocked, s, w, h, x), w, h)
    decreases w - x
  {
    if x < w {
      var s' := CliffColumn(blocked, s, w, h, x, 0);
      CliffColumnKeepsSound(blocked, s, w, h, x, 0);
      CliffScanKeepsSound(blocked, s', w, h, x + 1);
    }
  }

  // ---------------------------------------------------------------- pass 4

  /** The cliffs of column `x` at rows `y..h-1`, bottom to top. */
  function CollectColumn(cliff: Mask, w: int, h: int, x: int, y: int): (r: seq<Cell>)
    requires IsMask(cliff, w, h) && 0 <= x < w && 0 <= y
    ensures forall c :: c in r <==> (c.x == x && y <= c.y < h && cliff[c.x][c.y])
    ensures forall i, j :: 0 <= i < j < |r| ==> ScanBefore(r[i], r[j])
    decreases h - y
  {
    if y >= h then []
    else
      var rest := CollectColumn(cliff, w, h, x, y + 1);
      var r := (if cliff[x][y] then [Cell(x, y)] else []) + rest;
      assert forall i :: 0 < i < |r| && cliff[x][y] ==> r[i] == rest[i - 1];
      r
  }

  /** The cliffs of columns `x..w-1`, in the order the collection loop adds them. */
  function CollectScan(cliff: Mask, w: int, h: int, x: int): (r: seq<Cell>)
    requires IsMask(cliff, w, h) && 0 <= x
    ensures forall c :: c in r <==> (x <= c.x < w && 0 <= c.y < h && cliff[c.x][c.y])
    ensures forall i, j :: 0 <= i < j < |r| ==> ScanBefore(r[i], r[j])
    decreases w - x
  {
    if x >= w then []
    else
      var col := CollectColumn(cliff, w, h, x, 0);
      var rest := CollectScan(cliff, w, h, x + 1);
      assert forall i :: 0 <= i < |col| ==> col[i] in col;
      assert forall j :: 0 <= j < |rest| ==> rest[j] in rest;
      col + rest
  }

  /** `allCliffs`: every cliff cell exactly once, already sorted by x (so the
      sort of `allCliffs` by x is taken to keep this order). */
  function CollectCliffs(cliff: Mask, w: int, h: int): (r: seq<Cell>)
    requires IsMask(cliff, w, h)
    ensures forall c :: c in r <==> (InGrid(w, h, c.x, c.y) && cliff[c.x][c.y])
    ensures forall i, j :: 0 <= i < j < |r| ==> r[i].x <= r[j].x && r[i] != r[j]
  {
    CollectScan(cliff, w, h, 0)
  }

  /** One cell of the gap check: free, and (above row 0) the cell below is
      neither blocked nor already walkable. */
  predicate GapCellOk(blocked: Mask, walk: Mask, w: int, h: int, x: int, y: int)
    requires IsMask(blocked, w, h) && IsMask(walk, w, h) && InGrid(w, h, x, y)
  {
    !blocked[x][y] && (y > 0 ==> !blocked[x][y - 1] && !walk[x][y - 1])
  }

  /** The inner loop of the gap check, rows `y..maxY` of column `x`, with its
      early exit on the first bad cell. */
  function GapCheckColumn(blocked: Mask, walk: Mask, w: int, h: int, x: int, y: int, maxY: int): (ok: bool)
    requires IsMask(blocked, w, h) && IsMask(walk, w, h)
    requires 0 <= x < w && 0 <= y && maxY < h
    ensures ok <==> forall j :: y <= j <= maxY ==> GapCellOk(blocked, walk, w, h, x, j)
    decreases maxY - y
  {
    y > maxY || (GapCellOk(blocked, walk, w, h, x, y) && GapCheckColumn(blocked, walk, w, h, x, y + 1, maxY))
  }

  /** The outer loop of the gap check, columns `x..maxX`. */
  function GapCheckRect(blocked: Mask, walk: Mask, w: int, h: int, x: int, maxX: int, minY: int, maxY: int): (ok: bool)
    requires IsMask(blocked, w, h) && IsMask(walk, w, h)
    requires 0 <= x && maxX < w && 0 <= minY && maxY < h
    ensures ok <==> forall i, j :: x <= i <= maxX && minY <= j <= maxY ==> GapCellOk(blocked, walk, w, h, i, j)
    decreases maxX - x
  {
    x > maxX || (GapCheckColumn(blocked, walk, w, h, x, minY, maxY) && GapCheckRect(blocked, walk, w, h, x + 1, maxX, minY, maxY))
  }

  /** The inner fill loop over rows `y..maxY` of column `x`. */
  function GapFillColumn(blocked: Mask, s: Sweep, w: int, h: int, x: int, y: int, maxY: int): (r: Sweep)
    requires IsMask(blocked, w, h) && Shaped(s, w, h)
    requires 0 <= x < w && 0 <= y && maxY < h
    ensures Shaped(r, w, h) && r.cliff == s.cliff
    decreases maxY - y
  {
    if y > maxY then s
    else
      var s' := if !blocked[x][y] then
                  FillDown(blocked, s.(walk := Mark(s.walk, x, y), marked := s.marked + {Cell(x, y)}), w, h, x, y - 1)
                else s;
      GapFillColumn(blocked, s', w, h, x, y + 1, maxY)
  }

  /** The outer fill loop over columns `x..maxX`. */
  function GapFillRect(blocked: Mask, s: Sweep, w: int, h: int, x: int, maxX: int, minY: int, maxY: int): (r: Sweep)
    requires IsMask(blocked, w, h) && Shaped(s, w, h)
    requires 0 <= x && maxX < w && 0 <= minY && maxY < h
    ensures Shaped(r, w, h) && r.cliff == s.cliff
    decreases maxX - x
  {
    if x > maxX then s
    else GapFillRect(blocked, GapFillColumn(blocked, s, w, h, x, minY, maxY), w, h, x + 1, maxX, minY, maxY)
  }

  lemma {:induction false} GapFillColumnEffect(blocked: Mask, s: Sweep, w: int, h: int, x: int, y: int, maxY: int)
    requires IsMask(blocked, w, h) && Shaped(s, w, h)
    requires 0 <= x < w && 0 <= y <= maxY < h
    requires forall k :: y <= k <= maxY ==> !blocked[x][k]
    ensures var r := GapFillColumn(blocked, s, w, h, x, y, maxY);
            forall i, j :: InGrid(w, h, i, j) ==>
              r.walk[i][j] == (s.walk[i][j] || (i == x && Floor(blocked, w, h, x, maxY) < j <= maxY))
    decreases maxY - y
  {
    var s0 := s.(walk := Mark(s.walk, x, y), marked := s.marked + {Cell(x, y)});
    FillDownEffect(blocked, s0, w, h, x, y - 1);
    var s' := FillDown(blocked, s0, w, h, x, y - 1);
    FloorSkipsFreeRows(blocked, w, h, x, y - 1, maxY);
    if y < maxY {
      GapFillColumnEffect(blocked, s', w, h, x, y + 1, maxY);
    }
  }

  /** Free rows above `z` do not move the floor. */
  lemma {:induction false} FloorSkipsFreeRows(blocked: Mask, w: int, h: int, x: int, z: int, top: int)
    requires IsMask(blocked, w, h) && 0 <= x < w && -1 <= z <= top < h
    requires forall k :: z < k <= top ==> !blocked[x][k]
    ensures Floor(blocked, w, h, x, top) == Floor(blocked, w, h, x, z)
    decreases top - z
  {
    if top > z {
      FloorSkipsFreeRows(blocked, w, h, x, z, top - 1);
    }
  }

  lemma {:induction false} GapFillRectEffect(blocked: Mask, s: Sweep, w: int, h: int, x: int, maxX: int, minY: int, maxY: int)
    requires IsMask(blocked, w, h) && Shaped(s, w, h)
    requires 0 <= x && maxX < w && 0 <= minY <= maxY < h
    requires forall i, k :: x <= i <= maxX && minY <= k <= maxY ==> !blocked[i][k]
    ensures var r := GapFillRect(blocked, s, w, h, x, maxX, minY, maxY);
            forall i, j :: InGrid(w, h, i, j) ==>
              r.walk[i][j] == (s.walk[i][j] || (x <= i <= maxX && Floor(blocked, w, h, i, maxY) < j <= maxY))
    decreases maxX - x
  {
    if x <= maxX {
      GapFillColumnEffect(blocked, s, w, h, x, minY, maxY);
      GapFillRectEffect(blocked, GapFillColumn(blocked, s, w, h, x, minY, maxY), w, h, x + 1, maxX, minY, maxY);
    }
  }

  /** The lowest and the highest row of the gap between two cliffs. */
  function GapBottom(left: Cell, right: Cell): int
  {
    if left.y < right.y then left.y else right.y
  }

  function GapTop(left: Cell, right: Cell): int
  {
    if left.y < right.y then right.y else left.y
  }

  /** The gap check for the pair `(left, right)`: the rectangle strictly
      between their columns, over the rows the two span. */
  predicate GapOpen(blocked: Mask, walk: Mask, w: int, h: int, left: Cell, right: Cell)
    requires IsMask(blocked, w, h) && IsMask(walk, w, h)
    requires InGrid(w, h, left.x, left.y) && InGrid(w, h, right.x, right.y)
  {
    GapCheckRect(blocked, walk, w, h, left.x + 1, right.x - 1, GapBottom(left, right), GapTop(left, right))
  }

  /** The gap fill for the pair `(left, right)`, over the same rectangle, once
      the check has passed: the columns strictly between the cliffs become
      walkable from the top row of the gap down to each column's floor, and
      nothing else changes. */
  function GapFill(blocked: Mask, s: Sweep, w: int, h: int, left: Cell, right: Cell): (r: Sweep)
    requires IsMask(blocked, w, h) && Shaped(s, w, h)
    requires InGrid(w, h, left.x, left.y) && InGrid(w, h, right.x, right.y)
    requires left.x + 1 <= right.x - 1 && GapOpen(blocked, s.walk, w, h, left, right)
    ensures Shaped(r, w, h) && r.cliff == s.cliff
    ensures forall i, j :: InGrid(w, h, i, j) ==>
              r.walk[i][j] == (s.walk[i][j] ||
                               (left.x < i < right.x && Floor(blocked, w, h, i, GapTop(left, right)) < j <= GapTop(left, right)))
  {
    GapStepFills(blocked, s, w, h, left, right);
    GapFillRect(blocked, s, w, h, left.x + 1, right.x - 1, GapBottom(left, right), GapTop(left, right))
  }

  /** One pair of consecutive cliffs `(left, right)`: skipped when no column
      lies strictly between them, otherwise the rectangle between them is
      checked and then filled. */
  function GapStep(blocked: Mask, s: Sweep, w: int, h: int, left: Cell, right: Cell): (r: Sweep)
    requires IsMask(blocked, w, h) && Shaped(s, w, h)
    requires InGrid(w, h, left.x, left.y) && InGrid(w, h, right.x, right.y)
    ensures Shaped(r, w, h) && r.cliff == s.cliff
  {
    if left.x + 1 > right.x - 1 then s
    else if !GapOpen(blocked, s.walk, w, h, left, right) then s
    else GapFill(blocked, s, w, h, left, right)
  }

  /** A gap is filled only when a column lies strictly between the two cliffs
      and the rectangle between them is open air with no floor beneath; it then
      becomes walkable together with the free cells below it, and no cliff flag
      changes. */
  lemma GapStepEffect(blocked: Mask, s: Sweep, w: int, h: int, left: Cell, right: Cell)
    requires IsMask(blocked, w, h) && Shaped(s, w, h)
    requires InGrid(w, h, left.x, left.y) && InGrid(w, h, right.x, right.y)
    ensures var r := GapStep(blocked, s, w, h, left, right);
            var filled := left.x + 1 <= right.x - 1 &&
                          forall i, j :: left.x < i < right.x && GapBottom(left, right) <= j <= GapTop(left, right) ==>
                            GapCellOk(blocked, s.walk, w, h, i, j);
            && r.cliff == s.cliff
            && (!filled ==> r == s)
            && (filled ==> forall i, j :: InGrid(w, h, i, j) ==>
                  r.walk[i][j] == (s.walk[i][j] ||
                                   (left.x < i < right.x && Floor(blocked, w, h, i, GapTop(left, right)) < j <= GapTop(left, right))))
  {
  }

  /** The fill loops over a rectangle that passed the gap check. */
  lemma GapStepFills(blocked: Mask, s: Sweep, w: int, h: int, left: Cell, right: Cell)
    requires IsMask(blocked, w, h) && Shaped(s, w, h)
    requires InGrid(w, h, left.x, left.y) && InGrid(w, h, right.x, right.y)
    requires left.x + 1 <= right.x - 1 && GapOpen(blocked, s.walk, w, h, left, right)
    ensures var r := GapFillRect(blocked, s, w, h, left.x + 1, right.x - 1, GapBottom(left, right), GapTop(left, right));
            forall i, j :: InGrid(w, h, i, j) ==>
              r.walk[i][j] == (s.walk[i][j] ||
                               (left.x < i < right.x && Floor(blocked, w, h, i, GapTop(left, right)) < j <= GapTop(left, right)))
  {
    var minX, maxX, minY, maxY := left.x + 1, right.x - 1, GapBottom(left, right), GapTop(left, right);
    var r := GapFillRect(blocked, s, w, h, minX, maxX, minY, maxY);
    GapCheckedIsFree(blocked, s.walk, w, h, minX, maxX, minY, maxY);
    GapFillRectEffect(blocked, s, w, h, minX, maxX, minY, maxY);
    forall i, j | InGrid(w, h, i, j)
      ensures r.walk[i][j] == (s.walk[i][j] || (left.x < i < right.x && Floor(blocked, w, h, i, maxY) < j <= maxY))
    {
    }
  }

  /** A rectangle that passes the gap check is free of blocked cells. */
  lemma GapCheckedIsFree(blocked: Mask, walk: Mask, w: int, h: int, minX: int, maxX: int, minY: int, maxY: int)
    requires IsMask(blocked, w, h) && IsMask(walk, w, h)
    requires 0 <= minX && maxX < w && 0 <= minY && maxY < h
    requires GapCheckRect(blocked, walk, w, h, minX, maxX, minY, maxY)
    ensures forall i, k :: minX <= i <= maxX && minY <= k <= maxY ==> !blocked[i][k]
  {
    forall i, k | minX <= i <= maxX && minY <= k <= maxY
      ensures !blocked[i][k]
    {
      assert GapCellOk(blocked, walk, w, h, i, k);
    }
  }

  /** A floor under any cell of the gap row prevents the bridge: e.g. cliffs at
      x = 2 and x = 6 on one row with solid ground under x = 4. */
  lemma FloorUnderGapPreventsFill(blocked: Mask, s: Sweep, w: int, h: int, left: Cell, right: Cell, i: int)
    requires IsMask(blocked, w, h) && Shaped(s, w, h)
    requires InGrid(w, h, left.x, left.y) && InGrid(w, h, right.x, right.y)
    requires left.y == right.y && left.y > 0
    requires left.x < i < right.x && blocked[i][left.y - 1]
    ensures GapStep(blocked, s, w, h, left, right) == s
  {
    GapStepEffect(blocked, s, w, h, left, right);
    assert !GapCellOk(blocked, s.walk, w, h, i, left.y);
  }

  lemma GapStepKeepsSound(blocked: Mask, s: Sweep, w: int, h: int, left: Cell, right: Cell)
    requires IsMask(blocked, w, h) && Shaped(s, w, h)
    requires InGrid(w, h, left.x, left.y) && InGrid(w, h, right.x, right.y)
    requires Sound(blocked, s, w, h)
    ensures Sound(blocked, GapStep(blocked, s, w, h, left, right), w, h)
    ensures Grows(s, GapStep(blocked, s, w, h, left, right), w, h)
  {
    GapStepEffect(blocked, s, w, h, left, right);
  }

  /** The loop over consecutive pairs `(cliffs[i], cliffs[i + 1])`. */
  function GapPairs(blocked: Mask, s: Sweep, w: int, h: int, cliffs: seq<Cell>, i: nat): (r: Sweep)
    requires IsMask(blocked, w, h) && Shaped(s, w, h)
    requires forall c :: c in cliffs ==> InGrid(w, h, c.x, c.y)
    ensures Shaped(r, w, h) && r.cliff == s.cliff
    decreases |cliffs| - i
  {
    if i + 1 >= |cliffs| then s
    else GapPairs(blocked, GapStep(blocked, s, w, h, cliffs[i], cliffs[i + 1]), w, h, cliffs, i + 1)
  }

  lemma {:induction false} GapPairsKeepsSound(blocked: Mask, s: Sweep, w: int, h: int, cliffs: seq<Cell>, i: nat)
    requires IsMask(blocked, w, h) && Shaped(s, w, h)
    requires forall c :: c in cliffs ==> InGrid(w, h, c.x, c.y)
    requires Sound(blocked, s, w, h)
    ensures Sound(blocked, GapPairs(blocked, s, w, h, cliffs, i), w, h)
    ensures Grows(s, GapPairs(blocked, s, w, h, cliffs, i), w, h)
    decreases |cliffs| - i
  {
    if i + 1 < |cliffs| {
      var s' := GapStep(blocked, s, w, h, cliffs[i], cliffs[i + 1]);
      GapStepKeepsSound(blocked, s, w, h, cliffs[i], cliffs[i + 1]);
      GapPairsKeepsSound(blocked, s', w, h, cliffs, i + 1);
    }
  }

  function GapPass(blocked: Mask, s: Sweep, w: int, h: int): (r: Sweep)
    requires IsMask(blocked, w, h) && Shaped(s, w, h)
    ensures Shaped(r, w, h) && r.cliff == s.cliff
  {
    GapPairs(blocked, s, w, h, CollectCliffs(s.cliff, w, h), 0)
  }

  // ---------------------------------------------------------------- pass 5

  /** One element of the final loop: the walkable cell just below `c` becomes
      a cliff if it is not one yet. */
  function ExtendStep(walk: Mask, cliff: Mask, w: int, h: int, c: Cell): (r: Mask)
    requires IsMask(walk, w, h) && IsMask(cliff, w, h) && InGrid(w, h, c.x, c.y)
    ensures IsMask(r, w, h)
  {
    if c.y - 1 >= 0 && walk[c.x][c.y - 1] && !cliff[c.x][c.y - 1] then Mark(cliff, c.x, c.y - 1)
    else cliff
  }

  /** The `foreach` over the cliff set, in whichever order `order` enumerates it. */
  function ExtendAll(walk: Mask, cliff: Mask, w: int, h: int, order: seq<Cell>): (r: Mask)
    requires IsMask(walk, w, h) && IsMask(cliff, w, h)
    requires forall c :: c in order ==> InGrid(w, h, c.x, c.y)
    ensures IsMask(r, w, h)
    decreases |order|
  {
    if |order| == 0 then cliff
    else ExtendAll(walk, ExtendStep(walk, cliff, w, h, order[0]), w, h, order[1..])
  }

  /** The loop's effect: a cell becomes a cliff exactly when it is walkable and
      the cell above it is enumerated. */
  lemma {:induction false} ExtendAllEffect(walk: Mask, cliff: Mask, w: int, h: int, order: seq<Cell>)
    requires IsMask(walk, w, h) && IsMask(cliff, w, h)
    requires forall c :: c in order ==> InGrid(w, h, c.x, c.y)
    ensures forall i, j :: InGrid(w, h, i, j) ==>
              ExtendAll(walk, cliff, w, h, order)[i][j] == (cliff[i][j] || (walk[i][j] && Cell(i, j + 1) in order))
    decreases |order|
  {
    if |order| > 0 {
      var cliff' := ExtendStep(walk, cliff, w, h, order[0]);
      assert forall i, j :: InGrid(w, h, i, j) ==>
               cliff'[i][j] == (cliff[i][j] || (walk[i][j] && Cell(i, j + 1) == order[0]));
      ExtendAllEffect(walk, cliff', w, h, order[1..]);
      assert forall c :: c in order <==> c == order[0] || c in order[1..];
    }
  }

  /** The result of pass 5 does not depend on the set's iteration order. */
  lemma ExtendOrderIndependent(walk: Mask, cliff: Mask, w: int, h: int, order1: seq<Cell>, order2: seq<Cell>)
    requires IsMask(walk, w, h) && IsMask(cliff, w, h)
    requires forall c :: c in order1 ==> InGrid(w, h, c.x, c.y)
    requires forall c :: c in order1 <==> c in order2
    ensures ExtendAll(walk, cliff, w, h, order1) == ExtendAll(walk, cliff, w, h, order2)
  {
    ExtendAllEffect(walk, cliff, w, h, order1);
    ExtendAllEffect(walk, cliff, w, h, order2);
    MaskExtensionality(ExtendAll(walk, cliff, w, h, order1), ExtendAll(walk, cliff, w, h, order2), w, h);
  }

  /** The cliff flag after pass 5: a cliff already, or a walkable cell directly
      below one. */
  predicate Extended(walk: Mask, cliff: Mask, w: int, h: int, i: int, j: int)
    requires IsMask(walk, w, h) && IsMask(cliff, w, h) && InGrid(w, h, i, j)
  {
    cliff[i][j] || (walk[i][j] && j + 1 < h && cliff[i][j + 1])
  }

  /** A cell that is a cliff or sits directly below one. */
  predicate AtOrUnderCliff(cliff: Mask, w: int, h: int, i: int, j: int)
    requires IsMask(cliff, w, h) && InGrid(w, h, i, j)
  {
    cliff[i][j] || (j + 1 < h && cliff[i][j + 1])
  }

  /** Pass 5 over an enumeration `order` of the cliff cells present before it:
      exactly the walkable cells directly below one of them become cliffs. */
  lemma ExtendPassEffect(walk: Mask, cliff: Mask, w: int, h: int, order: seq<Cell>)
    requires IsMask(walk, w, h) && IsMask(cliff, w, h)
    requires forall c :: c in order <==> InGrid(w, h, c.x, c.y) && cliff[c.x][c.y]
    ensures forall i, j :: InGrid(w, h, i, j) ==>
              ExtendAll(walk, cliff, w, h, order)[i][j] == Extended(walk, cliff, w, h, i, j)
  {
    ExtendAllEffect(walk, cliff, w, h, order);
  }

  // ---------------------------------------------------------------- all passes

  datatype Flags = Flags(walk: Mask, cliff: Mask)

  /** Passes 2-5 on the blocked mask of pass 1. The `foreach` of pass 5 is run
      in collection order; any other order gives the same flags
      (`ExtendOrderIndependent`). */
  function Classify(blocked: Mask, w: nat, h: nat): (r: Flags)
    requires IsMask(blocked, w, h)
    ensures IsMask(r.walk, w, h) && IsMask(r.cliff, w, h)
  {
    var ground := GroundPass(blocked, w, h);
    var afterCliffs := CliffPass(blocked, ground, w, h);
    var afterGaps := GapPass(blocked, afterCliffs, w, h);
    var order := CollectCliffs(afterGaps.cliff, w, h);
    Flags(afterGaps.walk, ExtendAll(afterGaps.walk, afterGaps.cliff, w, h, order))
  }

  /** The classification invariants over all passes: every cliff is walkable,
      no blocked cell is walkable, every cell standing on ground stays walkable,
      and the only cliffs are those of the cliff pass and the walkable cells
      directly below them (the gap fill adds none). */
  lemma ClassifySound(blocked: Mask, w: nat, h: nat)
    requires IsMask(blocked, w, h)
    ensures var r := Classify(blocked, w, h);
            var afterCliffs := CliffPass(blocked, GroundPass(blocked, w, h), w, h);
            forall x, y :: InGrid(w, h, x, y) ==>
              && (r.cliff[x][y] ==> r.walk[x][y])
              && (blocked[x][y] ==> !r.walk[x][y])
              && (OnGround(blocked, w, h, x, y) ==> r.walk[x][y])
              && (afterCliffs.cliff[x][y] ==> r.cliff[x][y])
              && (r.cliff[x][y] ==> AtOrUnderCliff(afterCliffs.cliff, w, h, x, y))
  {
    var g := GroundPass(blocked, w, h);
    var s0 := Sweep(g, Blank(w, h), {});
    var a := CliffPass(blocked, g, w, h);
    var b := GapPass(blocked, a, w, h);
    var r := Classify(blocked, w, h);
    assert forall x, y :: InGrid(w, h, x, y) ==> g[x][y] == OnGround(blocked, w, h, x, y) by {
      GroundPassExact(blocked, w, h);
    }
    assert Sound(blocked, a, w, h) && Grows(s0, a, w, h) by {
      GroundPassSound(blocked, w, h);
      CliffScanKeepsSound(blocked, s0, w, h, 0);
    }
    assert Sound(blocked, b, w, h) && Grows(a, b, w, h) by {
      GapPairsKeepsSound(blocked, a, w, h, CollectCliffs(a.cliff, w, h), 0);
    }
    assert forall i, j :: InGrid(w, h, i, j) ==>
             r.cliff[i][j] == Extended(b.walk, b.cliff, w, h, i, j) by {
      ExtendPassEffect(b.walk, b.cliff, w, h, CollectCliffs(b.cliff, w, h));
    }
    CombinePasses(blocked, g, s0, a, b, r.cliff, w, h);
  }

  /** The last step of `ClassifySound`, stated over the intermediate states. */
  lemma CombinePasses(blocked: Mask, ground: Mask, s0: Sweep, afterCliffs: Sweep, afterGaps: Sweep, cliff: Mask, w: nat, h: nat)
    requires IsMask(blocked, w, h) && IsMask(ground, w, h) && IsMask(cliff, w, h)
    requires Shaped(s0, w, h) && Shaped(afterCliffs, w, h) && Shaped(afterGaps, w, h)
    requires s0.walk == ground
    requires forall x, y :: InGrid(w, h, x, y) ==> ground[x][y] == OnGround(blocked, w, h, x, y)
    requires Grows(s0, afterCliffs, w, h) && Grows(afterCliffs, afterGaps, w, h)
    requires Sound(blocked, afterGaps, w, h)
    requires afterGaps.cliff == afterCliffs.cliff
    requires forall i, j :: InGrid(w, h, i, j) ==>
               cliff[i][j] == Extended(afterGaps.walk, afterGaps.cliff, w, h, i, j)
    ensures forall x, y :: InGrid(w, h, x, y) ==>
              && (cliff[x][y] ==> afterGaps.walk[x][y])
              && (blocked[x][y] ==> !afterGaps.walk[x][y])
              && (OnGround(blocked, w, h, x, y) ==> afterGaps.walk[x][y])
              && (afterCliffs.cliff[x][y] ==> cliff[x][y])
              && (cliff[x][y] ==> AtOrUnderCliff(afterCliffs.cliff, w, h, x, y))
  {
    forall x, y | InGrid(w, h, x, y)
      ensures && (cliff[x][y] ==> afterGaps.walk[x][y])
              && (blocked[x][y] ==> !afterGaps.walk[x][y])
              && (OnGround(blocked, w, h, x, y) ==> afterGaps.walk[x][y])
              && (afterCliffs.cliff[x][y] ==> cliff[x][y])
              && (cliff[x][y] ==> AtOrUnderCliff(afterCliffs.cliff, w, h, x, y))
    {
      assert ground[x][y] == OnGround(blocked, w, h, x, y);
      assert s0.walk[x][y] ==> afterCliffs.walk[x][y];
      assert afterCliffs.walk[x][y] ==> afterGaps.walk[x][y];
      assert (afterGaps.cliff[x][y] ==> afterGaps.walk[x][y]) && (blocked[x][y] ==> !afterGaps.walk[x][y]);
      assert cliff[x][y] == Extended(afterGaps.walk, afterGaps.cliff, w, h, x, y);
    }
  }

  /** `GridManager.Awake`: build the grid with fresh nodes, then classify it.
      Fails exactly when the grid cannot be allocated. */
  function BuildNavGrid(blocked: Mask, w: int, h: int): (r: Option<NavGrid>)
    requires w >= 0 && h >= 0 ==> IsMask(blocked, w, h)
    ensures r.Some? <==> w >= 0 && h >= 0
    ensures r.Some? ==> Valid(r.value) && Placed(r.value) && r.value.width == w && r.value.height == h
    ensures r.Some? ==> forall x, y :: InGrid(w, h, x, y) ==>
              var n := GetValue(r.value, x, y).value;
              && n.walkable == Classify(blocked, w, h).walk[x][y]
              && n.cliff == Classify(blocked, w, h).cliff[x][y]
              && (n.cliff ==> n.walkable)
              && (blocked[x][y] ==> !n.walkable)
  {
    match Create(w, h, NewNode)
    case None => None
    case Some(g) =>
      FreshNavGrid(w, h);
      ClassifySound(blocked, w, h);
      var f := Classify(blocked, w, h);
      Some(g.(cells := seq(w, x requires 0 <= x < w =>
                           seq(h, y requires 0 <= y < h =>
                               g.cells[x][y].(walkable := f.walk[x][y], cliff := f.cliff[x][y])))))
  }
}
