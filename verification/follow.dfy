/** The bookkeeping of a `Pathfollowing` agent: the stored path and its cursor,
    the stuck timer and replan, the jump flags, and the search for a nearby
    walkable cell.

    The stored path runs goal → start, as the search returns it; the cursor
    `pathIndex` points at the next cell to walk to and counts down, and -1
    means the path is done. Physics probes enter as booleans (`Sensors`),
    time as whole fixed-update ticks, and world positions as the integer
    cells whose centres they are.
 */
module Follow {
  import opened Grids
  import Search

  datatype JumpKind = HeightJump | CliffJump

  /** The state of one agent. `previous` is the cell whose centre
      `m_PreviousPosition` holds, `None` while it still holds the origin it
      starts with; `jump` is the coroutine handle (`None` for null). */
  datatype Follower = Follower(
    path: seq<Cell>,
    pathIndex: int,
    lastPathIndex: int,
    previous: Option<Cell>,
    timer: nat,
    isJumping: bool,
    jumpRunning: bool,
    jump: Option<JumpKind>,
    isPathValid: bool)

  /** The state after `Awake` and the field initialisers. */
  function Initial(): (f: Follower)
    ensures f.path == [] && f.pathIndex == 0 && f.lastPathIndex == 0 && f.isPathValid
    ensures !f.isJumping && !f.jumpRunning && f.jump == None && f.timer == 0
  {
    Follower([], 0, 0, None, 0, false, false, None, true)
  }

  /** What holds between calls: a stored path has its cursor between -1 and
      the second-to-last cell, the stuck reference equals the cursor, and the
      previous position is a path cell. */
  predicate Wf(f: Follower)
  {
    |f.path| > 0 ==>
      && -1 <= f.pathIndex <= |f.path| - 2
      && f.lastPathIndex == f.pathIndex
      && f.previous.Some?
  }

  lemma InitialWf()
    ensures Wf(Initial())
  {
  }

  // ---------------------------------------------------------------- SetPath

  /** The trim in `SetPath`: the new path loses its last cell (its start) when the
      stored path is non-empty and ends at the same cell. */
  predicate SameEnd(stored: seq<Cell>, found: seq<Cell>)
  {
    |stored| != 0 && |found| != 0 && Last(stored) == Last(found)
  }

  function Trim(stored: seq<Cell>, found: seq<Cell>): (t: seq<Cell>)
    ensures SameEnd(stored, found) ==> |t| == |found| - 1
    ensures !SameEnd(stored, found) ==> t == found
    ensures forall i :: 0 <= i < |t| ==> t[i] == found[i]
    ensures |t| != 0 && SameEnd(stored, found) ==> Last(t) == found[|found| - 2]
  {
    if SameEnd(stored, found) then found[..|found| - 1] else found
  }

  /** The rest of `SetPath`, given the search result `found`. A
      non-empty (trimmed) result becomes the stored path with the cursor on
      its second-to-last cell; an empty one clears the stored path, marks it
      invalid and leaves the cursor where it was. The timer and the jump
      flags are not touched. */
  function Replace(f: Follower, found: seq<Cell>): (r: Follower)
    ensures r.path == Trim(f.path, found)
    ensures |r.path| > 0 ==>
              && r.pathIndex == |r.path| - 2 && r.lastPathIndex == r.pathIndex
              && r.previous == Some(r.path[|r.path| - 1]) && r.isPathValid
    ensures |r.path| == 0 ==>
              && !r.isPathValid && r.pathIndex == f.pathIndex && r.lastPathIndex == f.lastPathIndex
              && r.previous == f.previous
    ensures r.timer == f.timer && r.isJumping == f.isJumping && r.jumpRunning == f.jumpRunning && r.jump == f.jump
  {
    var trimmed := Trim(f.path, found);
    if |trimmed| != 0 then
      f.(path := trimmed, pathIndex := |trimmed| - 2, lastPathIndex := |trimmed| - 2,
         previous := Some(trimmed[|trimmed| - 1]), isPathValid := true)
    else
      f.(path := [], isPathValid := false)
  }

  /** `IsPathFinished`. */
  predicate IsPathFinished(f: Follower)
  {
    f.pathIndex == -1 || |f.path| == 0
  }

  /** Replacing keeps the state well formed; an empty result leaves the path
      finished and invalid, a non-empty one leaves it valid, and it is
      unfinished exactly when it has at least two cells. */
  lemma ReplaceWf(f: Follower, found: seq<Cell>)
    ensures Wf(Replace(f, found))
    ensures Replace(f, found).isPathValid <==> Trim(f.path, found) != []
    ensures !IsPathFinished(Replace(f, found)) <==> |Trim(f.path, found)| >= 2
  {
  }

  /** `p` is a route over `grid`: every cell lies in the grid, each cell is
      one neighbour move from the next, and every cell but the last (the
      start) is walkable. */
  predicate Route(grid: NavGrid, p: seq<Cell>)
    requires Valid(grid)
  {
    && (forall i :: 0 <= i < |p| ==> InRange(grid, p[i].x, p[i].y))
    && (forall i :: 0 <= i < |p| - 1 ==> Search.IsStep(p[i + 1], p[i]) && grid.cells[p[i].x][p[i].y].walkable)
  }

  /** Trimming a route, and storing it, leaves a route. */
  lemma ReplaceRoute(grid: NavGrid, f: Follower, found: seq<Cell>)
    requires Valid(grid) && Route(grid, found)
    ensures Route(grid, Replace(f, found).path)
  {
    var t := Trim(f.path, found);
    assert forall i :: 0 <= i < |t| ==> t[i] == found[i];
  }

  /** `SetPath(start, end)`: search on `grid`, then replace. It faults, `None`,
      when the search does; otherwise the stored path is the trimmed result
      `found` of the search from `start` to `end`, a route over the grid,
      non-empty exactly when the path is valid. */
  method SetPath(f: Follower, grid: NavGrid, start: Cell, end: Cell) returns (r: Option<Follower>, ghost found: seq<Cell>)
    requires Valid(grid)
    ensures r.Some? <==> Search.Searchable(grid, start, end)
    ensures r.Some? ==> Search.Found(grid, start, end, found) && r.value == Replace(f, found)
    ensures r.Some? ==> Wf(r.value) && (r.value.isPathValid <==> r.value.path != [])
    ensures r.Some? ==> r.value.timer == f.timer && r.value.jumpRunning == f.jumpRunning
    ensures r.Some? ==> Route(grid, r.value.path)
  {
    found := [];
    var outcome := Search.StartPathfinding(grid, [], start, end);
    if outcome.None? {
      return None, found;
    }
    var result := outcome.value;
    assert result == outcome.value[0..];
    ReplaceWf(f, result);
    ReplaceRoute(grid, f, result);
    r, found := Some(Replace(f, result)), result;
  }

  /** `FinishPath`: the path is dropped and counts as finished and valid, and
      both jump flags are cleared; the coroutine handle stays. */
  function FinishPath(f: Follower): (r: Follower)
    ensures r.path == [] && r.pathIndex == -1 && r.isPathValid
    ensures !r.isJumping && !r.jumpRunning && r.jump == f.jump
    ensures r.lastPathIndex == f.lastPathIndex && r.previous == f.previous && r.timer == f.timer
    ensures IsPathFinished(r) && Wf(r)
  {
    f.(path := [], pathIndex := -1, isPathValid := true, isJumping := false, jumpRunning := false)
  }

  /** The flag part of `CancelJump`: the coroutine is stopped and both jump
      flags are cleared; the path state is untouched. */
  function CancelJump(f: Follower): (r: Follower)
    ensures r.jump == None && !r.isJumping && !r.jumpRunning
    ensures r.(jump := f.jump, isJumping := f.isJumping, jumpRunning := f.jumpRunning) == f
    ensures Wf(f) ==> Wf(r)
  {
    f.(jump := None, isJumping := false, jumpRunning := false)
  }

  /** The end of the `Jump` coroutine: only the handle is cleared. */
  function JumpFinished(f: Follower): (r: Follower)
    ensures r.jump == None && r.(jump := f.jump) == f
  {
    f.(jump := None)
  }

  /** `OnCollisionEnter2D` with the ground layer: a jump is over only once its
      coroutine has finished; otherwise nothing changes. */
  function Land(f: Follower): (r: Follower)
    ensures f.jumpRunning && f.jump == None ==> !r.jumpRunning && !r.isJumping
    ensures !(f.jumpRunning && f.jump == None) ==> r == f
    ensures r.(isJumping := f.isJumping, jumpRunning := f.jumpRunning) == f
  {
    if f.jumpRunning && f.jump == None then f.(jumpRunning := false, isJumping := false) else f
  }

  // ------------------------------------------------------------ FixedUpdate

  /** The physics probes one fixed update reads: the ground check, the ray
      below the target (`CheckHeight`), the two cliff-edge checks, and
      whether the agent is within 0.1 of the target's x. */
  datatype Sensors = Sensors(
    grounded: bool,
    groundBelowTarget: bool,
    rightGrounded: bool,
    leftGrounded: bool,
    reached: bool)

  /** The agent follows a path this tick. */
  predicate Active(f: Follower)
  {
    f.pathIndex >= 0 && |f.path| > 0
  }

  /** The height test of `CheckJump` on cell centres: the target lies more
      than 0.1 above the previous position, which is the origin (y = 0)
      before any path was set. On integer rows that is a strictly higher
      row, or any row from 0 up. */
  predicate Higher(target: Cell, previous: Option<Cell>)
  {
    match previous
    case None => target.y >= 0
    case Some(c) => target.y > c.y
  }

  /** The cliff-jump test of `FixedUpdate`. */
  predicate CliffEdge(isCliff: bool, s: Sensors)
  {
    isCliff && s.grounded && !s.groundBelowTarget && (!s.rightGrounded || !s.leftGrounded)
  }

  /** The steering part of `FixedUpdate`, run only while no jump is executing: a height jump, else
      a cliff jump, else walking on, else waiting to land. Only the jump
      state changes; walking sets a velocity, which is not modelled. */
  function Steer(f: Follower, target: Cell, isCliff: bool, s: Sensors): (r: Follower)
    requires !f.jumpRunning
    ensures r.path == f.path && r.pathIndex == f.pathIndex && r.lastPathIndex == f.lastPathIndex
    ensures r.previous == f.previous && r.timer == f.timer && r.isPathValid == f.isPathValid
    ensures r.jumpRunning <==> (Higher(target, f.previous) && s.grounded) || CliffEdge(isCliff, s)
    ensures Higher(target, f.previous) && s.grounded ==> r.jump == Some(HeightJump)
    ensures !(Higher(target, f.previous) && s.grounded) && CliffEdge(isCliff, s) ==> r.jump == Some(CliffJump)
    ensures r.jumpRunning ==> r.isJumping
    ensures !r.jumpRunning ==> r.jump == f.jump && (r.isJumping <==> f.isJumping && !s.grounded)
  {
    if Higher(target, f.previous) && s.grounded then
      f.(isJumping := true, jumpRunning := true, jump := Some(HeightJump))
    else if CliffEdge(isCliff, s) then
      f.(isJumping := true, jumpRunning := true, jump := Some(CliffJump))
    else if !f.isJumping then f
    else f.(isJumping := !s.grounded)
  }

  /** The stuck check of `FixedUpdate` fires this tick: the cursor has not
      moved since the last arrival or path change, the timer reaches the
      stuck time, and there is a cell behind the cursor to restart from. */
  predicate Replans(f: Follower, stuckTicks: nat)
  {
    && Active(f) && !f.jumpRunning && f.pathIndex == f.lastPathIndex
    && f.timer + 1 >= stuckTicks && f.pathIndex + 1 < |f.path|
  }

  /** The search a stuck agent asks for: from the cell behind the cursor back
      to the stored path's last cell, where the agent came from. */
  datatype Request = Request(start: Cell, end: Cell)

  function ReplanRequest(f: Follower, stuckTicks: nat): (q: Request)
    requires Replans(f, stuckTicks)
    ensures q.start in f.path && q.end in f.path
    ensures q.start == f.path[f.pathIndex + 1] && q.end == Last(f.path)
  {
    Request(f.path[f.pathIndex + 1], f.path[|f.path| - 1])
  }

  function Last(p: seq<Cell>): Cell
    requires |p| > 0
  {
    p[|p| - 1]
  }

  /** The stuck check of `FixedUpdate`, given the search result `found` of
      the replan. */
  function Stuck(g: Follower, stuckTicks: nat, found: seq<Cell>): Follower
  {
    if g.pathIndex != g.lastPathIndex then g
    else if g.timer + 1 < stuckTicks then g.(timer := g.timer + 1)
    else if 0 <= g.pathIndex + 1 < |g.path| then Replace(g.(timer := 0), found)
    else g.(timer := 0)
  }

  /** The arrival check of `FixedUpdate`: on reaching the target, it becomes
      the previous position and the cursor moves one cell on; arriving at the
      last cell clears `isJumping`, while a jump coroutine still running keeps
      `jumpRunning` and its handle. Reading the target faults, `None`, when a replan
      this tick left the cursor outside the new path. */
  function Arrive(g: Follower, reached: bool): Option<Follower>
  {
    if !reached then Some(g)
    else if !(0 <= g.pathIndex < |g.path|) then None
    else
      var i := g.pathIndex - 1;
      Some(g.(previous := Some(g.path[g.pathIndex]), pathIndex := i, lastPathIndex := i, timer := 0,
              isJumping := if i == -1 then false else g.isJumping))
  }

  /** One `FixedUpdate`, one tick long, with `found` standing for the result
      of the replan search when `Replans(f, stuckTicks)`. It faults, `None`,
      when the target cell is outside the grid (the null node's `IsCliff`),
      when the cursor is past the path, and as `Arrive` says. */
  function Tick(f: Follower, grid: NavGrid, s: Sensors, stuckTicks: nat, found: seq<Cell>): Option<Follower>
    requires Valid(grid)
  {
    if !Active(f) then Some(f)
    else if f.pathIndex >= |f.path| then None
    else
      var target := f.path[f.pathIndex];
      match GetValue(grid, target.x, target.y)
      case None => None
      case Some(node) =>
        var g := if f.jumpRunning then f else Stuck(Steer(f, target, node.cliff, s), stuckTicks, found);
        Arrive(g, s.reached)
  }

  /** A finished or empty path is left alone. */
  lemma TickIdle(f: Follower, grid: NavGrid, s: Sensors, stuckTicks: nat, found: seq<Cell>)
    requires Valid(grid) && !Active(f)
    ensures Tick(f, grid, s, stuckTicks, found) == Some(f)
  {
  }

  /** A well-formed state stays well formed. */
  lemma TickWf(f: Follower, grid: NavGrid, s: Sensors, stuckTicks: nat, found: seq<Cell>)
    requires Valid(grid) && Wf(f)
    requires Tick(f, grid, s, stuckTicks, found).Some?
    ensures Wf(Tick(f, grid, s, stuckTicks, found).value)
  {
    if Active(f) && f.pathIndex < |f.path| {
      var target := f.path[f.pathIndex];
      if InRange(grid, target.x, target.y) && !f.jumpRunning {
        var st := Steer(f, target, grid.cells[target.x][target.y].cliff, s);
        ReplaceWf(st.(timer := 0), found);
      }
    }
  }

  /** When a well-formed active agent faults: its target cell is off the
      grid, or it reaches the target in the very tick a replan left it with
      fewer than two cells. */
  lemma TickFaults(f: Follower, grid: NavGrid, s: Sensors, stuckTicks: nat, found: seq<Cell>)
    requires Valid(grid) && Wf(f) && Active(f)
    ensures Tick(f, grid, s, stuckTicks, found).None? <==>
              || !InRange(grid, f.path[f.pathIndex].x, f.path[f.pathIndex].y)
              || (Replans(f, stuckTicks) && s.reached && |Trim(f.path, found)| < 2)
  {
    var target := f.path[f.pathIndex];
    if InRange(grid, target.x, target.y) && !f.jumpRunning {
      var st := Steer(f, target, grid.cells[target.x][target.y].cliff, s);
      ReplaceWf(st.(timer := 0), found);
    }
  }

  /** Without a replan the path is kept and the cursor moves on by exactly
      one cell when, and only when, the target is reached; reaching it makes
      it the previous position and restarts the stuck timer. Reaching the
      last cell clears `isJumping` only: a running jump stays running. */
  lemma TickAdvances(f: Follower, grid: NavGrid, s: Sensors, stuckTicks: nat, found: seq<Cell>)
    requires Valid(grid) && Wf(f) && Active(f) && !Replans(f, stuckTicks)
    requires Tick(f, grid, s, stuckTicks, found).Some?
    ensures var r := Tick(f, grid, s, stuckTicks, found).value;
            && r.path == f.path && r.isPathValid == f.isPathValid
            && r.pathIndex == (if s.reached then f.pathIndex - 1 else f.pathIndex)
            && (s.reached ==> r.previous == Some(f.path[f.pathIndex]) && r.timer == 0)
            && (s.reached && f.pathIndex == 0 ==> IsPathFinished(r) && !r.isJumping)
            && (f.jumpRunning ==> r.jumpRunning && r.jump == f.jump)
  {
  }

  /** The stuck timer: while no jump executes and the target is not reached,
      it counts one tick up and drops to 0 once it reaches the stuck time;
      while a jump executes it stands still. */
  lemma TickTimer(f: Follower, grid: NavGrid, s: Sensors, stuckTicks: nat, found: seq<Cell>)
    requires Valid(grid) && Wf(f) && Active(f) && !s.reached
    requires Tick(f, grid, s, stuckTicks, found).Some?
    ensures var r := Tick(f, grid, s, stuckTicks, found).value;
            && (f.jumpRunning ==> r == f)
            && (!f.jumpRunning ==> r.timer == if f.timer + 1 >= stuckTicks then 0 else f.timer + 1)
  {
    var target := f.path[f.pathIndex];
    if !f.jumpRunning {
      var st := Steer(f, target, grid.cells[target.x][target.y].cliff, s);
      ReplaceWf(st.(timer := 0), found);
    }
  }

  /** A replan swaps in the trimmed search result, keeps the jump state the
      steering step left, and resets the timer unless the new path is
      reached at once. */
  lemma TickReplans(f: Follower, grid: NavGrid, s: Sensors, stuckTicks: nat, found: seq<Cell>)
    requires Valid(grid) && Wf(f) && Replans(f, stuckTicks)
    requires Tick(f, grid, s, stuckTicks, found).Some?
    ensures var r := Tick(f, grid, s, stuckTicks, found).value;
            && r.path == Trim(f.path, found)
            && r.timer == 0
            && (r.isPathValid <==> r.path != [])
            && (s.reached ==> r.pathIndex == |r.path| - 3 && r.previous == Some(r.path[|r.path| - 2]))
            && (!s.reached && r.path != [] ==> r.pathIndex == |r.path| - 2)
  {
    var target := f.path[f.pathIndex];
    var st := Steer(f, target, grid.cells[target.x][target.y].cliff, s);
    ReplaceWf(st.(timer := 0), found);
  }

  /** Routes stay routes: a tick keeps the stored path or swaps in the
      trimmed replan result. */
  lemma TickRoute(f: Follower, grid: NavGrid, s: Sensors, stuckTicks: nat, found: seq<Cell>)
    requires Valid(grid) && Route(grid, f.path) && Route(grid, found)
    requires Tick(f, grid, s, stuckTicks, found).Some?
    ensures Route(grid, Tick(f, grid, s, stuckTicks, found).value.path)
  {
    if Active(f) && f.pathIndex < |f.path| {
      var target := f.path[f.pathIndex];
      if InRange(grid, target.x, target.y) && !f.jumpRunning {
        var st := Steer(f, target, grid.cells[target.x][target.y].cliff, s);
        ReplaceRoute(grid, st.(timer := 0), found);
      }
    }
  }

  /** `FixedUpdate` with the replan search run on `grid`. It looks the target
      cell up before searching, so an off-grid target faults first; a search
      fault is a fault of the tick. `request` is the search it ran, if any,
      and `found` that search's result, which the tick then stores. */
  method FixedUpdate(f: Follower, grid: NavGrid, s: Sensors, stuckTicks: nat)
    returns (r: Option<Follower>, request: Option<Request>, ghost found: seq<Cell>)
    requires Valid(grid)
    ensures request.Some? <==>
              Replans(f, stuckTicks) && InRange(grid, f.path[f.pathIndex].x, f.path[f.pathIndex].y)
    ensures request.Some? ==> request.value == ReplanRequest(f, stuckTicks)
    ensures !Replans(f, stuckTicks) ==> r == Tick(f, grid, s, stuckTicks, [])
    ensures Replans(f, stuckTicks) && request.None? ==> r == None
    ensures request.Some? && !Search.Searchable(grid, request.value.start, request.value.end) ==> r == None
    ensures request.Some? && Search.Searchable(grid, request.value.start, request.value.end) ==>
              && Search.Found(grid, request.value.start, request.value.end, found)
              && r == Tick(f, grid, s, stuckTicks, found)
    ensures Wf(f) && r.Some? ==> Wf(r.value)
    ensures Route(grid, f.path) && r.Some? ==> Route(grid, r.value.path)
    ensures Replans(f, stuckTicks) && r.Some? ==> r.value.timer == 0
    ensures Replans(f, stuckTicks) && Route(grid, f.path) && Wf(f) && !s.reached ==> r.Some?
  {
    found := [];
    request := None;
    if !Replans(f, stuckTicks) {
      r := Tick(f, grid, s, stuckTicks, []);
      if r.Some? && Wf(f) {
        TickWf(f, grid, s, stuckTicks, []);
      }
      if r.Some? && Route(grid, f.path) {
        TickRoute(f, grid, s, stuckTicks, []);
      }
      return;
    }
    var target := f.path[f.pathIndex];
    if !InRange(grid, target.x, target.y) {
      return None, None, found;
    }
    var q := ReplanRequest(f, stuckTicks);
    request := Some(q);
    r, found := Replan(f, grid, s, stuckTicks);
  }

  /** The replan branch of `FixedUpdate`: the search from the cell behind the
      cursor to the path's last cell, whose result `found` the tick stores. */
  method Replan(f: Follower, grid: NavGrid, s: Sensors, stuckTicks: nat)
    returns (r: Option<Follower>, ghost found: seq<Cell>)
    requires Valid(grid) && Replans(f, stuckTicks)
    requires InRange(grid, f.path[f.pathIndex].x, f.path[f.pathIndex].y)
    ensures var q := ReplanRequest(f, stuckTicks);
            && (!Search.Searchable(grid, q.start, q.end) ==> r == None)
            && (Search.Searchable(grid, q.start, q.end) ==>
                  Search.Found(grid, q.start, q.end, found) && r == Tick(f, grid, s, stuckTicks, found))
    ensures r.Some? ==> r.value.timer == 0
    ensures Wf(f) && r.Some? ==> Wf(r.value)
    ensures Route(grid, f.path) && r.Some? ==> Route(grid, r.value.path)
    ensures Route(grid, f.path) && Wf(f) && !s.reached ==> r.Some?
  {
    found := [];
    var q := ReplanRequest(f, stuckTicks);
    Search.MulIsProduct(grid.width, grid.height);
    if Route(grid, f.path) {
      assert InRange(grid, f.path[f.pathIndex + 1].x, f.path[f.pathIndex + 1].y);
      assert InRange(grid, Last(f.path).x, Last(f.path).y);
      Search.IndexOfCell(q.start.x, q.start.y, grid.width, grid.height);
      Search.IndexOfCell(q.end.x, q.end.y, grid.width, grid.height);
    }
    var outcome := Search.StartPathfinding(grid, [], q.start, q.end);
    if outcome.None? {
      return None, found;
    }
    var result := outcome.value;
    assert result == outcome.value[0..];
    r, found := Tick(f, grid, s, stuckTicks, result), result;
    assert Route(grid, result);
    if r.Some? && Wf(f) {
      TickWf(f, grid, s, stuckTicks, result);
      TickReplans(f, grid, s, stuckTicks, result);
    }
    if r.Some? && Route(grid, f.path) {
      TickRoute(f, grid, s, stuckTicks, result);
    }
  }

  // ------------------------------------------------- FindNearestWalkableTile

  /** The squared Euclidean distance between two cells; `math.distance` is its
      square root, so comparisons agree. */
  function SquaredDistance(a: Cell, b: Cell): (d: nat)
    ensures d == 0 <==> a == b
  {
    (a.x - b.x) * (a.x - b.x) + (a.y - b.y) * (a.y - b.y)
  }

  /** A cell the search may return: in the grid, not the origin, inside the
      square of half-width `maxRadius`, walkable, and at most
      `maxDistance` from the origin. */
  predicate Candidate(grid: NavGrid, origin: Cell, maxRadius: int, maxDistance: int, c: Cell)
    requires Valid(grid)
  {
    && InRange(grid, c.x, c.y) && c != origin
    && Search.Abs(c.x - origin.x) <= maxRadius && Search.Abs(c.y - origin.y) <= maxRadius
    && grid.cells[c.x][c.y].walkable
    && maxDistance >= 0 && SquaredDistance(origin, c) <= maxDistance * maxDistance
  }

  /** The candidates scanned before offset `(dx, dy)` in the x-then-y order. */
  predicate ScannedBefore(origin: Cell, c: Cell, dx: int, dy: int)
  {
    c.x - origin.x < dx || (c.x - origin.x == dx && c.y - origin.y < dy)
  }

  /** The candidate list, strictly in scan order. */
  predicate Ordered(candidates: seq<Cell>)
  {
    forall i, j :: 0 <= i < j < |candidates| ==> ScanBefore(candidates[i], candidates[j])
  }

  /** The inner `dy` loop of `FindNearestWalkableTile` for one `dx`: appends the qualifying
      cells of that column, in increasing y. */
  method ScanColumn(grid: NavGrid, origin: Cell, maxRadius: int, maxDistance: int, dx: int, candidates0: seq<Cell>)
    returns (candidates: seq<Cell>)
    requires Valid(grid) && -maxRadius <= dx <= maxRadius
    requires forall c :: c in candidates0 <==>
               Candidate(grid, origin, maxRadius, maxDistance, c) && c.x - origin.x < dx
    requires Ordered(candidates0)
    ensures forall c :: c in candidates <==>
              Candidate(grid, origin, maxRadius, maxDistance, c) && c.x - origin.x < dx + 1
    ensures Ordered(candidates)
    ensures forall i :: 0 <= i < |candidates| ==> candidates[i].x - origin.x <= dx
  {
    candidates := candidates0;
    var dy := -maxRadius;
    while dy <= maxRadius
      invariant -maxRadius <= dy <= maxRadius + 1
      invariant forall c :: c in candidates <==>
                  Candidate(grid, origin, maxRadius, maxDistance, c) && ScannedBefore(origin, c, dx, dy)
      invariant Ordered(candidates)
      invariant forall i :: 0 <= i < |candidates| ==> ScannedBefore(origin, candidates[i], dx, dy)
    {
      var checkPos := Cell(origin.x + dx, origin.y + dy);
      if !(checkPos.x < 0 || checkPos.y < 0 || checkPos.x >= grid.width || checkPos.y >= grid.height
           || (dx == 0 && dy == 0)) {
        if GetValue(grid, checkPos.x, checkPos.y).value.walkable {
          if maxDistance >= 0 && SquaredDistance(origin, checkPos) <= maxDistance * maxDistance {
            candidates := candidates + [checkPos];
          }
        }
      }
      dy := dy + 1;
    }
  }

  /** The outer `dx` loop of `FindNearestWalkableTile`: every qualifying cell, once each, in
      scan order. */
  method CollectCandidates(grid: NavGrid, origin: Cell, maxRadius: int, maxDistance: int)
    returns (candidates: seq<Cell>)
    requires Valid(grid)
    ensures forall c :: c in candidates <==> Candidate(grid, origin, maxRadius, maxDistance, c)
    ensures Ordered(candidates)
  {
    candidates := [];
    var dx := -maxRadius;
    while dx <= maxRadius
      invariant maxRadius >= 0 ==> -maxRadius <= dx <= maxRadius + 1
      invariant forall c :: c in candidates <==>
                  Candidate(grid, origin, maxRadius, maxDistance, c) && c.x - origin.x < dx
      invariant Ordered(candidates)
    {
      candidates := ScanColumn(grid, origin, maxRadius, maxDistance, dx, candidates);
      dx := dx + 1;
    }
  }

  /** The selection loop of `FindNearestWalkableTile`: the first entry at the
      least distance. */
  method PickNearest(origin: Cell, candidates: seq<Cell>) returns (best: Cell, ghost at: nat)
    requires |candidates| > 0
    ensures at < |candidates| && best == candidates[at]
    ensures forall j :: 0 <= j < |candidates| ==> SquaredDistance(origin, best) <= SquaredDistance(origin, candidates[j])
    ensures forall j :: 0 <= j < at ==> SquaredDistance(origin, best) < SquaredDistance(origin, candidates[j])
  {
    best := candidates[0];
    var bestDistance := SquaredDistance(origin, best);
    at := 0;
    var i := 1;
    while i < |candidates|
      invariant 1 <= i <= |candidates|
      invariant at < i && best == candidates[at]
      invariant bestDistance == SquaredDistance(origin, best)
      invariant forall j :: 0 <= j < i ==> bestDistance <= SquaredDistance(origin, candidates[j])
      invariant forall j :: 0 <= j < at ==> bestDistance < SquaredDistance(origin, candidates[j])
    {
      var d := SquaredDistance(origin, candidates[i]);
      if d < bestDistance {
        bestDistance := d;
        best := candidates[i];
        at := i;
      }
      i := i + 1;
    }
  }

  /** `FindNearestWalkableTile`: the origin itself when no cell qualifies;
      otherwise a qualifying cell at the least distance, the first such in
      the x-then-y scan order. */
  method FindNearestWalkableTile(grid: NavGrid, origin: Cell, maxRadius: int, maxDistance: int) returns (r: Cell)
    requires Valid(grid)
    ensures r == origin <==> forall c :: !Candidate(grid, origin, maxRadius, maxDistance, c)
    ensures r != origin ==> Candidate(grid, origin, maxRadius, maxDistance, r)
    ensures r != origin ==> forall c :: Candidate(grid, origin, maxRadius, maxDistance, c) ==>
              SquaredDistance(origin, r) <= SquaredDistance(origin, c)
    ensures r != origin ==> forall c ::
              (Candidate(grid, origin, maxRadius, maxDistance, c) &&
               SquaredDistance(origin, c) == SquaredDistance(origin, r)) ==> !ScanBefore(c, r)
  {
    var candidates := CollectCandidates(grid, origin, maxRadius, maxDistance);
    if |candidates| == 0 {
      return origin;
    }
    ghost var at;
    r, at := PickNearest(origin, candidates);
    assert r in candidates;
    forall c | Candidate(grid, origin, maxRadius, maxDistance, c) && SquaredDistance(origin, c) == SquaredDistance(origin, r)
      ensures !ScanBefore(c, r)
    {
      var j :| 0 <= j < |candidates| && candidates[j] == c;
      if j > at {
        assert ScanBefore(r, c);
      }
    }
  }
}
