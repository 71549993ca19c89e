# Platformer grid pathfinding, modelled in Dafny

This is a model of the grid pathfinding core of a 2D platformer. The agents are enemies that walk and jump between cells. The model has four modules, one per source file of the core:

- **`Grids`** (`grid.dfy`): the generic grid container `Grid<T>` and its cell record `GridNode`.
  - A grid is a dense `width × height` table filled once by a factory.
  - A bounds-checked `GetValue` reads it and gives null (`None`) outside.
  - The node's two flag setters each raise one change notification, which the model returns alongside the new grid.
- **`Terrain`** (`terrain.dfy`): `GridManager.SetGridWalkability`, passes 2 to 5. The blocked mask from the physics probes is an input. The passes are:
  - the ground pass;
  - the cliff pass, with its fill down to the floor;
  - the gap fill between consecutive cliffs;
  - the one-step-down cliff extension.

  Each pass is a pure function on `seq<seq<bool>>` masks indexed `[x][y]`. Each loop becomes a recursive function. For each loop a lemma states exactly which cells the loop marks.
- **`Search`** (`search.dfy`): the A* job of `PathfindingManager`.
  - It covers the octile cost, the flat index, the node array and the pop-min over the open list.
  - The main loop is a `while` loop with invariants, followed by the predecessor walk that reads the path back goal → start.
  - Cost bookkeeping: the goal's g-cost equals the summed move costs of the path.
  - Termination: a closed node is never re-opened, so the loop runs at most `w·h` times.
- **`Follow`** (`follow.dfy`): the bookkeeping of a `Pathfollowing` agent.
  - Path replacement in `SetPath`, `IsPathFinished`, `FinishPath` and the flags of `CancelJump`.
  - The discrete part of one `FixedUpdate`: the jump decision, the stuck timer and its replan, and the cursor advance.
  - `FindNearestWalkableTile`.

Physics probes enter as booleans (`Follow.Sensors`). Time enters as whole fixed-update ticks. World positions are the integer cells whose centres they are. The `Instance` singletons are explicit parameters.

Where the specification and the code differ, the model follows the code:

- **Cliff pass.** The free cells below a new cliff become walkable only, never cliffs (`GridManager.cs:81-86`).
- **Gap fill.** It sets walkable only (`GridManager.cs:151`, `158`).
- **`SetPath` with an empty search result.** It clears the stored path rather than keeping the previous one (`Pathfollowing.cs:194-195`). It leaves the cursor, the stuck timer and the jump flags alone.
- **`IsPathFinished`.** It tests the cursor for exactly -1, or the path for being empty (`Pathfollowing.cs:398`).

## Model

| member | source | states |
|---|---|---|
| Grids.GetValue | Pathfinding/Grid/Grid.cs:101-111 | a read yields a value exactly for coordinates in `[0,width)×[0,height)`, and that value is the stored cell; outside it yields null |
| Grids.Create | Pathfinding/Grid/Grid.cs:31-51 | width and height are kept as given; every in-range cell holds the factory's object for exactly its own `(x, y)`, every other read is null; a negative size fails the allocation |
| Grids.NewNode | Pathfinding/Grid/Grid.cs:172-179 | a fresh node keeps its coordinates and is neither walkable nor a cliff |
| Grids.GetWidth | Pathfinding/Grid/Grid.cs:120-123 | the grid's width; `Create` ensures it is the width asked for |
| Grids.GetHeight | Pathfinding/Grid/Grid.cs:125-128 | the grid's height; `Create` ensures it is the height asked for |
| Grids.TriggerGridObjectChanged | Pathfinding/Grid/Grid.cs:76-79 | the change event for `(x, y)`, with no range check; `SetIsWalkable` and `SetIsCliff` ensure an in-range write raises exactly this one event with the node's own coordinates |
| Grids.SetIsWalkable | Pathfinding/Grid/Grid.cs:186-190 | in range only that node's walkable flag changes and exactly one notification with the node's own coordinates is raised; out of range (the `?.` call on null) nothing changes and nothing is raised |
| Grids.SetIsCliff | Pathfinding/Grid/Grid.cs:197-201 | the same for the cliff flag |
| Grids.FreshNavGrid | Pathfinding/Grid/GridManager.cs:22 | the grid built with the node factory has every node at its own coordinates and all flags false |
| Grids.CliffSetterIgnoresWalkable | Pathfinding/Grid/Grid.cs:197-201 | the cliff setter does not enforce cliff ⇒ walkable |
| Terrain.GroundPass | Pathfinding/Grid/GridManager.cs:45-55 | the ground pass yields a mask of the grid's size; its partner `GroundPassExact` proves the mask holds exactly the free cells with a blocked cell below, and `GroundPassSound` that it marks no blocked cell |
| Terrain.GroundColumnEffect | Pathfinding/Grid/GridManager.cs:47-54 | the inner ground loop marks exactly the cells of its column, from its row up, that are free with a blocked cell below |
| Terrain.GroundScanEffect | Pathfinding/Grid/GridManager.cs:45-55 | the outer ground loop marks exactly the cells standing on ground in the columns it visits |
| Terrain.GroundPassExact | Pathfinding/Grid/GridManager.cs:45-55 | after the ground pass a cell is walkable iff it is free and the cell below is blocked; row 0 never is |
| Terrain.GroundPassSound | Pathfinding/Grid/GridManager.cs:45-55 | the ground pass makes no blocked cell walkable |
| Terrain.Floor | Pathfinding/Grid/GridManager.cs:81-86 | the row where the downward fill stops is blocked, or -1, and every row between it and the start is free |
| Terrain.FillDown | Pathfinding/Grid/GridManager.cs:81-86 | the downward fill never touches the cliff flag |
| Terrain.FillDownEffect | Pathfinding/Grid/GridManager.cs:81-86 | the downward fill marks walkable, and records in the cliff set, exactly the free run above the floor |
| Terrain.CliffPass | Pathfinding/Grid/GridManager.cs:61-90 | the cliff pass yields walk and cliff masks of the grid's size; its partner `CliffScanKeepsSound` proves it keeps cliff ⇒ walkable and blocked ⇒ not walkable and clears no flag, step by step through `CliffVisitEffect` |
| Terrain.CliffVisitEffect | Pathfinding/Grid/GridManager.cs:66-87 | a free, non-walkable cell beside a walkable cell that is not in the cliff set becomes a walkable cliff, and the cells beneath it down to the floor become walkable without the cliff flag; otherwise nothing changes |
| Terrain.CliffVisitKeepsSound | Pathfinding/Grid/GridManager.cs:66-87 | one cliff-pass step keeps cliff ⇒ walkable and blocked ⇒ not walkable, and clears no flag |
| Terrain.CliffColumnKeepsSound | Pathfinding/Grid/GridManager.cs:63-89 | the same for one column of the cliff pass |
| Terrain.CliffScanKeepsSound | Pathfinding/Grid/GridManager.cs:61-90 | the same for the whole cliff pass |
| Terrain.CollectColumn | Pathfinding/Grid/GridManager.cs:96-103 | the cliffs of one column, each once, bottom to top |
| Terrain.CollectScan | Pathfinding/Grid/GridManager.cs:94-104 | the cliffs of the visited columns, each once, in x-then-y order |
| Terrain.CollectCliffs | Pathfinding/Grid/GridManager.cs:93-107 | `allCliffs` holds every cliff cell exactly once, already sorted by x |
| Terrain.GapCheckColumn | Pathfinding/Grid/GridManager.cs:127-138 | the inner gap check passes iff each cell of its column range is free and, above row 0, stands on neither a blocked nor a walkable cell |
| Terrain.GapCheckRect | Pathfinding/Grid/GridManager.cs:125-139 | the gap check passes iff that holds for every cell of the rectangle |
| Terrain.GapFillColumn | Pathfinding/Grid/GridManager.cs:146-162 | filling a column never touches the cliff flag |
| Terrain.GapFillColumnEffect | Pathfinding/Grid/GridManager.cs:146-162 | filling a free column range marks walkable exactly its cells and the free run below it |
| Terrain.FloorSkipsFreeRows | Pathfinding/Grid/GridManager.cs:155-160 | the fill below a column stops at the same floor from any free row above it |
| Terrain.GapFillRect | Pathfinding/Grid/GridManager.cs:144-163 | filling the rectangle never touches the cliff flag |
| Terrain.GapFillRectEffect | Pathfinding/Grid/GridManager.cs:144-163 | filling a free rectangle marks walkable exactly its columns from the top row down to each column's floor |
| Terrain.GapFill | Pathfinding/Grid/GridManager.cs:144-163 | once the check has passed, the fill makes walkable exactly the columns strictly between the two cliffs, from the gap's top row down to each column's floor, and never touches the cliff flag |
| Terrain.GapStep | Pathfinding/Grid/GridManager.cs:111-163 | one pair of cliffs never changes a cliff flag |
| Terrain.GapStepEffect | Pathfinding/Grid/GridManager.cs:111-163 | a gap is filled only when a column lies strictly between the two cliffs and the rectangle passes the check; the fill then sets walkable on the rectangle and the free cells below it, never cliff, and otherwise nothing changes |
| Terrain.FloorUnderGapPreventsFill | Pathfinding/Grid/GridManager.cs:131-136 | a blocked cell under any cell of a level gap prevents the bridge |
| Terrain.GapStepKeepsSound | Pathfinding/Grid/GridManager.cs:111-163 | one gap step keeps cliff ⇒ walkable and blocked ⇒ not walkable, and clears no flag |
| Terrain.GapPairs | Pathfinding/Grid/GridManager.cs:109-164 | the gap loop never changes a cliff flag |
| Terrain.GapPairsKeepsSound | Pathfinding/Grid/GridManager.cs:109-164 | the whole gap loop keeps both invariants and clears no flag |
| Terrain.GapPass | Pathfinding/Grid/GridManager.cs:93-164 | the gap-fill pass adds no cliff |
| Terrain.ExtendAll | Pathfinding/Grid/GridManager.cs:180-191 | marking the cells below every enumerated cliff yields a mask of the grid's size; its partners `ExtendAllEffect` and `ExtendOrderIndependent` give the exact set of new cliffs and show the enumeration order does not matter |
| Terrain.ExtendAllEffect | Pathfinding/Grid/GridManager.cs:180-191 | over any enumeration, a cell becomes a cliff exactly when it is walkable and the cell above it is enumerated |
| Terrain.ExtendOrderIndependent | Pathfinding/Grid/GridManager.cs:180-191 | the last pass gives the same flags for every enumeration order of the cliff set |
| Terrain.ExtendPassEffect | Pathfinding/Grid/GridManager.cs:166-191 | the last pass adds as cliffs exactly the walkable cells directly below a cliff present before it |
| Terrain.Classify | Pathfinding/Grid/GridManager.cs:44-191 | all passes together yield walk and cliff masks of the grid's size; its partner `ClassifySound` states what the flags mean |
| Terrain.ClassifySound | Pathfinding/Grid/GridManager.cs:44-191 | after all passes: every cliff is walkable, no blocked cell is walkable, every cell on ground is walkable, every cliff-pass cliff is kept, and every cliff is a cliff-pass cliff or directly below one |
| Terrain.BuildNavGrid | Pathfinding/Grid/GridManager.cs:18-25 | building and classifying succeeds iff the size is non-negative, and the grid then carries the classified flags with cliff ⇒ walkable and blocked ⇒ not walkable in every cell |
| Search.CalculateDistanceCost | Pathfinding/PathfindingManager.cs:260-266 | the heuristic and move cost between two cells; its partners `DistanceOctile` (the octile closed form), `DistanceSymmetric`, `DistanceZero`, `DistanceTriangle` and `StepCost` state its meaning |
| Search.DistanceOctile | Pathfinding/PathfindingManager.cs:260-266 | the cost equals ten times the larger axis difference plus four times the smaller |
| Search.DistanceSymmetric | Pathfinding/PathfindingManager.cs:260-266 | the cost is symmetric |
| Search.DistanceZero | Pathfinding/PathfindingManager.cs:260-266 | the cost is 0 iff the cells are equal |
| Search.DistanceTriangle | Pathfinding/PathfindingManager.cs:260-266 | the cost obeys the triangle inequality, so the heuristic is consistent |
| Search.StepCost | Pathfinding/PathfindingManager.cs:57-58 | a neighbour move costs 10 along an axis and 14 diagonally |
| Search.OffsetsAreTheNeighbours | Pathfinding/PathfindingManager.cs:75-83 | the eight offsets are distinct and are exactly the non-zero moves of at most one cell per axis |
| Search.IsPositionInGrid | Pathfinding/PathfindingManager.cs:233-240 | the cell lies in `[0, w)×[0, h)`; `IndexOfCell` and `CellOfIndex` show that these are exactly the cells whose index lies in `[0, w·h)` |
| Search.CalculateIndex | Pathfinding/PathfindingManager.cs:249-252 | the row-major index of a cell; its partners `IndexOfCell`, `CellOfIndexOfCell`, `CellOfIndex` and `IndexInjective` prove it is a bijection from the in-grid cells onto `[0, w·h)` whose inverse is `(index % w, index / w)` |
| Search.IndexOfCell | Pathfinding/PathfindingManager.cs:249-252 | an in-grid cell's index lies in `[0, w·h)` |
| Search.CellOfIndexOfCell | Pathfinding/PathfindingManager.cs:249-252 | an in-grid cell's index gives the cell back as `(index % w, index / w)` |
| Search.CellOfIndex | Pathfinding/PathfindingManager.cs:249-252 | every index in `[0, w·h)` is the index of an in-grid cell |
| Search.IndexInjective | Pathfinding/PathfindingManager.cs:249-252 | distinct in-grid cells have distinct indices |
| Search.CalculateFCost | Pathfinding/PathfindingManager.cs:344-347 | only the f-cost changes, to g + h |
| Search.GetPathNodeArray | Pathfinding/PathfindingManager.cs:291-321 | one node per cell, stored at the cell's index, carrying its coordinates, that index, no predecessor, an unreached g-cost and the cell's walkability |
| Search.GetPathNodeArrayLayout | Pathfinding/PathfindingManager.cs:291-321 | every array slot holds the node of the cell its index stands for, unreached and without predecessor |
| Search.RemoveFirst | Pathfinding/PathfindingManager.cs:113-120 | removing from the open list drops one occurrence of the index and keeps every other entry; on a duplicate-free list the index is gone afterwards |
| Search.RemoveFirstKeepsOrder | Pathfinding/PathfindingManager.cs:113-120 | the removal cuts out exactly the first occurrence of the index, as the loop's `RemoveAt(i)` then `break` does, and the other entries keep their order, which the pop-min tie-break depends on |
| Search.GetLowestCostFNodeIndex | Pathfinding/PathfindingManager.cs:274-288 | the result is the index of an open node of minimal f-cost, and every open node before it has a strictly larger f-cost |
| Search.Relax | Pathfinding/PathfindingManager.cs:125-168 | a neighbour that is in the grid, not closed, walkable and not more expensive through the current node gets it as predecessor, the new g-cost and f = g + h, and is appended to the open list unless already there; otherwise, and for every other node, nothing changes |
| Search.RelaxKeepsInv | Pathfinding/PathfindingManager.cs:125-168 | a relaxation keeps the search invariant: no duplicates in the lists, open and closed disjoint, every reached node linked to a closed predecessor one move away with g = predecessor's g + move cost |
| Search.CloseKeepsInv | Pathfinding/PathfindingManager.cs:112-122 | moving the popped node from the open to the closed list keeps the invariant |
| Search.ExpandNeighbours | Pathfinding/PathfindingManager.cs:125-169 | the neighbour loop keeps the search invariant and leaves the node just closed expanded: each in-grid walkable neighbour is then open or closed |
| Search.ExploredRelax | Pathfinding/PathfindingManager.cs:125-168 | one relaxation keeps every earlier closed node expanded and every reached node open or closed, and adds the current offset to those handled |
| Search.ClosedStep | Pathfinding/PathfindingManager.cs:100-169 | when the open list has run empty, every in-grid walkable neighbour of a closed node is closed |
| Search.ExhaustedClosed | Pathfinding/PathfindingManager.cs:100-169 | when the open list has run empty, no move over walkable cells leads out of the closed list |
| Search.WalkStaysClosed | Pathfinding/PathfindingManager.cs:100-169 | when no move leads out of the closed list, a walk over walkable cells that starts at a closed node ends at one |
| Search.Exhausted | Pathfinding/PathfindingManager.cs:100-169 | when the open list has run empty, no walk over walkable cells leads from the start to a goal that was never closed |
| Search.NotReachedIsExhausted | Pathfinding/PathfindingManager.cs:100-177 | leaving the main loop with no predecessor for a goal other than the start means the open list ran empty, so the goal is out of reach |
| Search.SetUp | Pathfinding/PathfindingManager.cs:62-92 | every node gets the heuristic to the goal and no predecessor, and the start gets g = 0 and its f-cost; `InitInv` shows this state, with the start as the only open node, satisfies the search invariant |
| Search.InitInv | Pathfinding/PathfindingManager.cs:62-98 | the set-up with the start as the only open node satisfies the invariant |
| Search.CalculatePath | Pathfinding/PathfindingManager.cs:202-225 | with no predecessor the path is empty; otherwise it runs from the goal to the start in single neighbour moves over walkable cells (the start excepted), and its costs sum to the goal's g-cost |
| Search.FindPathJob | Pathfinding/PathfindingManager.cs:60-194 | the job faults iff the start or goal index is outside the array; otherwise the path is empty iff the goal got no predecessor (in particular for an unwalkable goal and for start = goal), a non-empty path has the shape of `CalculatePath`, no node is closed twice, and the goal is never closed; for a goal other than the start an empty path means no walk over walkable cells leads from the start to the goal |
| Search.StartPathfinding | Pathfinding/PathfindingManager.cs:24-41 | it faults iff the start or goal index is out of range (`Searchable`); the result list is the given list followed by the found path, which satisfies `Found`: empty or at least two cells, starts at an in-grid goal and ends at an in-grid start, moves between neighbours over walkable grid cells (the start excepted), and is empty for an unwalkable goal or start = goal; for an in-grid start it is otherwise empty only when no walk over walkable cells leads from the start to the goal |
| Search.WalkOnNodes | Pathfinding/PathfindingManager.cs:291-321 | a walk over walkable grid cells is a walk over walkable nodes of the node array |
| Search.FoundOnGrid | Pathfinding/PathfindingManager.cs:24-41 | the job's facts about the node array, including that an empty path means no walk, carry over to the grid as `Found` |
| Search.FoundOnRoute | Pathfinding/PathfindingManager.cs:24-41 | between two distinct grid cells joined by a walk over walkable cells, any result satisfying `Found` is a path of at least two cells from the goal back to the start |
| Search.FoundOnOpenRow | Pathfinding/PathfindingManager.cs:24-41 | on a 4×1 row of walkable cells every result satisfying `Found` from (0,0) to (3,0) is a path of at least two cells from the goal to the start, so `Found` does not admit the empty path when a route exists |
| Follow.Initial | Pathfinding/Pathfollowing.cs:10-54 | the agent starts with an empty path, cursor 0, stuck reference 0, no jump and a valid path flag |
| Follow.InitialWf | Pathfinding/Pathfollowing.cs:10-54 | the initial state is well formed |
| Follow.Trim | Pathfinding/Pathfollowing.cs:187-192 | the new path loses its last cell exactly when both paths are non-empty and end in the same cell, and is otherwise kept |
| Follow.Replace | Pathfinding/Pathfollowing.cs:194-218 | a non-empty trimmed result becomes the stored path with cursor and stuck reference at length − 2, previous position at its last cell and the path valid; an empty one empties the path, marks it invalid and leaves the cursor; the timer and jump flags never change |
| Follow.ReplaceWf | Pathfinding/Pathfollowing.cs:194-218 | path replacement keeps the state well formed; the path is valid iff the trimmed result is non-empty and unfinished iff it has two cells or more |
| Follow.ReplaceRoute | Pathfinding/Pathfollowing.cs:199-205 | the stored path is the search path element for element, so it stays a chain of neighbour moves over walkable grid cells |
| Follow.SetPath | Pathfinding/Pathfollowing.cs:181-221 | it faults iff the search does; otherwise the new state is exactly `Replace` of the search result from `start` to `end`, a result that satisfies the search's promise `Found`; the state is well formed, the path is valid iff non-empty, the timer and running jump are kept, and the stored path is a route over the grid |
| Follow.IsPathFinished | Pathfinding/Pathfollowing.cs:396-399 | the path counts as finished iff the cursor is -1 or the path is empty; its partners `ReplaceWf` (unfinished iff a replaced path has two cells or more) and `FinishPath` (finished after it) tie it to the path operations |
| Follow.FinishPath | Pathfinding/Pathfollowing.cs:467-486 | the path is empty, the cursor is -1, the path counts as valid and finished, and both jump flags are clear |
| Follow.CancelJump | Pathfinding/Pathfollowing.cs:488-503 | the coroutine handle and both jump flags are cleared and nothing else changes |
| Follow.JumpFinished | Pathfinding/Pathfollowing.cs:322 | the end of the jump coroutine clears only its handle |
| Follow.Land | Pathfinding/Pathfollowing.cs:339-350 | touching ground ends a jump only once its coroutine has finished |
| Follow.Higher | Pathfinding/Pathfollowing.cs:241-244 | the height test of `CheckJump` on integer rows: a strictly higher row than the previous position, or row 0 and up before any; `Steer` ensures a height jump starts iff this holds and the agent is grounded |
| Follow.Steer | Pathfinding/Pathfollowing.cs:100-131 | with no jump executing, a jump starts iff the target is higher and the agent grounded (a height jump) or the target is a cliff edge (a cliff jump); otherwise a jumping agent stays jumping until grounded; the path state is untouched |
| Follow.ReplanRequest | Pathfinding/Pathfollowing.cs:143-146 | a stuck agent searches from the cell behind the cursor to the stored path's last cell |
| Follow.Stuck | Pathfinding/Pathfollowing.cs:133-148 | the stuck check; `TickTimer` states how it counts the timer up and resets it, and `TickReplans` that a replan stores the trimmed search result |
| Follow.Arrive | Pathfinding/Pathfollowing.cs:151-172 | the arrival step; `TickAdvances` states that reaching the target makes it the previous position, moves the cursor on by one, restarts the timer and finishes the path at the last cell |
| Follow.Tick | Pathfinding/Pathfollowing.cs:87-174 | one physics update given the sensors and, for a replan, the search result; its meaning is stated by its partners `TickIdle`, `TickWf`, `TickFaults`, `TickAdvances`, `TickTimer`, `TickReplans` and `TickRoute` |
| Follow.TickIdle | Pathfinding/Pathfollowing.cs:90 | a finished or empty path is left alone |
| Follow.TickWf | Pathfinding/Pathfollowing.cs:87-174 | a tick keeps the state well formed |
| Follow.TickFaults | Pathfinding/Pathfollowing.cs:93-97 | a well-formed active agent faults iff its target cell is off the grid, or it reaches the target in the tick where a replan left it under two cells |
| Follow.TickAdvances | Pathfinding/Pathfollowing.cs:151-172 | without a replan the path is kept and the cursor drops by exactly 1 iff the target is reached, which then becomes the previous position and restarts the timer; arriving at the last cell finishes the path and clears `isJumping`, while a running jump coroutine stays running with its handle |
| Follow.TickTimer | Pathfinding/Pathfollowing.cs:133-148 | in a tick where the target is not reached, the stuck timer counts up one tick and resets once it reaches the stuck time; it stands still during a jump |
| Follow.TickReplans | Pathfinding/Pathfollowing.cs:139-147 | a replan swaps in the trimmed search result and resets the timer |
| Follow.TickRoute | Pathfinding/Pathfollowing.cs:87-174 | a tick keeps the stored path a route over the grid |
| Follow.Replan | Pathfinding/Pathfollowing.cs:139-147 | the replan faults when its search does, or when the target is reached in a tick whose stored result has fewer than two cells; otherwise the state is the tick that stores the search's result, which satisfies `Found` from the cell behind the cursor to the path's last cell; the timer is reset, well-formedness and routes are kept, and on a route it never faults unless the target is reached |
| Follow.FixedUpdate | Pathfinding/Pathfollowing.cs:87-174 | the replan search runs iff the stuck check fires with the target on the grid, and it runs from the cell behind the cursor to the path's last cell; without a replan the result is the tick, an off-grid target faults, and after a search that does not fault the result is the tick that stores that search's result; the tick keeps well-formedness and routes and, on a route, never faults unless the target is reached |
| Follow.SquaredDistance | Pathfinding/Pathfollowing.cs:431 | the distance is zero iff the cells are equal |
| Follow.ScanColumn | Pathfinding/Pathfollowing.cs:417-438 | the inner loop appends exactly the qualifying cells of its column, in scan order |
| Follow.CollectCandidates | Pathfinding/Pathfollowing.cs:415-439 | the candidate list holds exactly the qualifying cells, in scan order |
| Follow.PickNearest | Pathfinding/Pathfollowing.cs:441-457 | the pick has minimal distance and every earlier entry is strictly farther |
| Follow.FindNearestWalkableTile | Pathfinding/Pathfollowing.cs:408-461 | the origin is returned iff no cell qualifies (in the grid, not the origin, within the radius on each axis, walkable, within the distance); otherwise a qualifying cell at minimal distance, the first such in x-then-y scan order |

## Left out

- Physics probes: `Physics2D.OverlapBox` (the blocked mask is an input), `OverlapCircle` and `Raycast` (the booleans of `Follow.Sensors`).
- Rigidbody and transform motion: `MoveToX`, velocities, impulses, `CheckFacing` and `Flip`. The timing of the `Jump` coroutine (`WaitForSeconds`) is also left out; only its effect on the handle is modelled (`Follow.JumpFinished`).
- Float world geometry: `GetWorldPosition`, `GetXYPosition`, the cell size and origin, and the 0.5 cell centres. The 0.1 arrival threshold is the `reached` sensor. `CheckJump`'s 0.1 margin becomes the integer test `Follow.Higher`.
- The stuck timer's `Time.deltaTime` accumulation: the timer counts whole ticks and the stuck time is a tick count.
- Follow.FindNearestWalkableTile: compares squared integer distances instead of the float `math.distance`. This assumes the float square root is monotone and exact enough on these small integers.
- Unity Jobs, Burst and the `NativeList`/`NativeArray` allocation and disposal. The search is a method on immutable sequences. A read outside the node array (start or goal index out of range) is a fault, `None`.
- The `Instance` singletons: the grid is an explicit parameter.
- Debug visuals: `DrawPath`, `OnDrawGizmos`, the `TextMesh` labels, `Debug.DrawLine` and `WalkableDebugColor`.
- The `ECS/` folder and the state machine: they are not part of this model.
- 32-bit overflow: costs, indices and coordinates are unbounded integers. The initial `int.MaxValue` g-cost is an explicit `Infinite` that every finite cost is at most.
- The `List.Sort` at `GridManager.cs:107`: it is unstable, but the collection loop already yields x-then-y order, so the model keeps that order (`Terrain.CollectCliffs` proves it is sorted by x).
- The change notifications raised during classification: `Terrain` works on masks and writes the flags into the grid at the end. `Grids.SetIsWalkable` and `Grids.SetIsCliff` model the notifications themselves.
- Search.FindPathJob: does not prove that the path is a cheapest one. It proves the path's shape, its cost bookkeeping and that a path is found whenever a goal other than the start is reachable, not optimality.
- Search.Found: pins the path's ends, and states that an empty path means no walk, only for in-grid endpoints. The source indexes nodes by `x + y·w` without a range check, so an off-grid start or goal whose index falls inside the array aliases another cell (`(w, 0)` is `(0, 1)`). The model keeps that behaviour, and the search then runs from or to the aliased cell.
