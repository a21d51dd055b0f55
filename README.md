# City-map route finder, modelled in Dafny

`exmapacidade.py` searches a city map for the best route from a start to a
destination while avoiding congested crossings. The map is a rectangular grid
of one-character markers:

- `'#'` is a blocked cell;
- `'E'` is the start;
- `'S'` is the destination;
- any other character is a free street.

The route finder `encontrar_melhor_rota` works in five steps:

1. It locates the start and the destination by a row-major scan.
2. It runs a breadth-first search over the four neighbouring cells, in the
   order row − 1, row + 1, column − 1, column + 1. Each queued cell carries
   the whole path that reached it.
3. It records every dequeued path. It copies the visited set at every fifth
   dequeue and at the goal.
4. It filters the explored paths into "discarded" routes.
5. It returns the route, the discarded routes, the map and the copies.

Two plotting functions turn a visited set, or the route and the final visited
set, into an integer matrix of cell classes. Only that matrix fill is modelled
here.

The project has three modules:

- `Grids` (`grids.dfy`) holds the map, its cells, the moves, and walks
  (paths of moves over free cells). It defines what a shortest walk and a
  reachable cell are, and proves the facts about walks that breadth-first
  search relies on.
- `RouteFinder` (`route_finder.dfy`) holds `encontrar_melhor_rota`, split at
  its natural seams:
  - `FindMarkers` is the scan.
  - `Search` is the `while fila` loop. Each of its turns is `Dequeue`,
    followed by `Arrive` at the goal or by `Advance` otherwise. `Advance`
    calls `ExpandFront`, which calls `Expand` (the inner `for` over the
    four directions).
  - `Discard` is the filter.
  - `FindBestRoute` is the whole function.
- `MapMatrices` (`map_matrices.dfy`) holds the two matrix fills on
  `array2<int>`.
- `SampleRuns` (`sample_runs.dfy`) works the search through two small maps.
  On each one, what the route finder promises leaves exactly one result.

The search is proved correct against an invariant (`LoopInvariant`) carried
from turn to turn:

- The visited cells are free.
- Every visited cell has been expanded or waits in the queue exactly once.
- The queue is ordered by path length and spans at most two lengths.
- Every queued path is a shortest simple walk.
- Every walk shorter than the front path ends at an expanded cell.

The loop is also tied to `Run`, the same turns written as a function of the
queue, the visited set and the recorded paths. `Run` stops after rows ×
columns recorded paths. The loop never reaches that limit before it ends,
because each recorded path ends at a different visited cell. So `RunFrom(g, s, t)`
fixes the route, every explored path in order, and the final visited set.

From this invariant, `FindBestRoute` promises the following (`Solved`):

- A route is returned exactly when the destination can be reached, and it is
  then a shortest simple walk to it.
- There are at most rows × columns turns. Each explored path is a shortest
  simple walk, and no two explored paths end at the same cell.
- The route is the last explored path, and no earlier explored path ends at
  the goal.
- The explored paths come in order of length. With a route, they end at every
  cell closer to the start than the goal. Without one, they end at exactly the
  visited cells, which are all the cells a walk from the start reaches.
- The route, the explored paths and the final visited set are those of
  `RunFrom`. So the discarded paths and the number of snapshots are determined
  by the map.
- The visited set copied at each dequeue is `Reached` of the paths dequeued
  before it: the start plus the free neighbours of their last cells. The final
  visited set is `Reached` of every expanded path.
- The snapshots are the copies the schedule picks. They grow, and they lie
  inside the final visited set, which the last one equals at the goal.
- With a route, the discarded paths are exactly the explored paths that are
  not prefixes of the route.

## Model

| member | source | states |
|---|---|---|
| `Grids.ShortestPrefix` | exmapacidade.py:37-42 | every prefix of a shortest walk is a shortest walk to the cell where it stops |
| `Grids.ShortestSamePosition` | exmapacidade.py:37-42 | a cell on two shortest walks from the same start sits at the same position in both |
| `Grids.ShortestWithinIsPrefix` | exmapacidade.py:108-119 | a shortest walk whose cells all lie on another shortest walk from the same start is a prefix of it |
| `Grids.ClosedWalkStaysInside` | exmapacidade.py:76-106 | every walk from the start stays inside a set that holds the start and all free neighbours of its cells; this is why an exhausted queue means the goal is unreachable |
| `Grids.CellsOnMapBound` | exmapacidade.py:44-45 | a set of on-map cells has at most rows × columns members, which bounds the visited set and the number of turns |
| `RouteFinder.LastMarkerUnique` | exmapacidade.py:50-55 | the last occurrence of a marker in row-major order is unique |
| `RouteFinder.ScanCell` | exmapacidade.py:52-55 | scanning one cell moves the remembered occurrence to that cell exactly when it holds the marker |
| `RouteFinder.ScanDone` | exmapacidade.py:48-55 | after the whole scan, a marker was found exactly when the map holds it, and what was found is its last occurrence in row-major order |
| `RouteFinder.InspectCell` | exmapacidade.py:52-55 | inspecting one cell keeps, for both markers, the scan's knowledge of the last occurrence one cell further |
| `RouteFinder.FindMarkers` | exmapacidade.py:47-55 | the start is found iff the map holds an `'E'`, and is then the last `'E'` in row-major order; the same for the goal and `'S'` |
| `RouteFinder.FreshNeighboursExact` | exmapacidade.py:94-101 | the cells an expansion enqueues are exactly the neighbours of the cell, among the directions tried, that are on the map, not blocked and not visited; each is enqueued once |
| `RouteFinder.ExpandOpens` | exmapacidade.py:95-106 | a neighbour that is on the map, not blocked and not visited is added to the visited set and enqueued with the path extended by it, and the expansion relation advances by one direction |
| `RouteFinder.ExpandSkips` | exmapacidade.py:95-101 | a neighbour that fails the test leaves the visited set and the queue unchanged, and the expansion relation advances by one direction |
| `RouteFinder.Expand` | exmapacidade.py:94-106 | after the four directions, the visited set is the old one plus the fresh neighbours, in direction order; the queue is the old queue followed by one entry per fresh neighbour, carrying the path extended by that neighbour. The visited set is then the old one plus every free neighbour of the cell |
| `RouteFinder.ExpandedQueue` | exmapacidade.py:94-106 | after the four directions, the queue is exactly the old one followed by one entry per fresh neighbour, in direction order |
| `RouteFinder.NewEntriesAt` | exmapacidade.py:103-106 | the new entry for each fresh neighbour carries that neighbour and the popped path extended by it |
| `RouteFinder.ExpandedAround` | exmapacidade.py:94-102 | after the four directions, the visited set has gained exactly the neighbours that are on the map and not blocked |
| `RouteFinder.ScheduleElements` | exmapacidade.py:82-84 | every snapshot is one of the visited sets seen at a dequeue |
| `RouteFinder.ScheduleChain` | exmapacidade.py:82-84 | the snapshots of a growing sequence of visited sets grow too |
| `RouteFinder.ScheduleCount` | exmapacidade.py:82-91 | after n dequeues there is one snapshot per step number divisible by 5, plus one for the goal when that step number is not divisible by 5 |
| `RouteFinder.NewEntryGood` | exmapacidade.py:99-106 | a neighbour enqueued from the front entry gets a shortest simple walk to it, all of whose cells are visited |
| `RouteFinder.StepOrder` | exmapacidade.py:77-106 | after popping the front and appending its fresh neighbours, the queue still holds every cell once and stays ordered by path length, within one of the popped length |
| `RouteFinder.StepCoverage` | exmapacidade.py:77-106 | after a turn, every visited cell is expanded or still queued |
| `RouteFinder.StepLevel` | exmapacidade.py:77-106 | after a turn, every walk shorter than the new front path ends at an expanded cell |
| `RouteFinder.StepClosed` | exmapacidade.py:94-106 | after a turn, the free neighbours of every expanded cell are visited, and every visited cell is free |
| `RouteFinder.FrontierStep` | exmapacidade.py:77-106 | one dequeue and expansion of a non-goal cell keeps the search invariant, the visited set only grows, and each newly visited cell is enqueued once |
| `RouteFinder.EndsMembers` | exmapacidade.py:76-79 | a cell is an end of the recorded paths exactly when some recorded path stops there |
| `RouteFinder.EndsStep` | exmapacidade.py:76-79 | recording a path adds its last cell to the ends |
| `RouteFinder.RecordStep` | exmapacidade.py:79 | recording the front path keeps the recorded paths shortest, non-decreasing in length and ending at distinct cells |
| `RouteFinder.BookkeepingStep` | exmapacidade.py:77-84 | one non-goal turn keeps the record: one recorded path and one visited set per dequeue, at most rows × columns of them, the expanded cells exactly the ends of the recorded paths, and the snapshots the schedule picks |
| `RouteFinder.LoopStart` | exmapacidade.py:61-74 | the queue holding only the start with path `[start]`, and the visited set `{start}`, satisfy the loop invariant |
| `RouteFinder.GoalOutcome` | exmapacidade.py:86-91 | dequeuing the goal ends the search with its path as the route and the current visited set as the last snapshot; every cell closer than the goal is then the end of an explored path |
| `RouteFinder.LoopExhausted` | exmapacidade.py:76-106 | an empty queue means the goal was never reached and no walk reaches it; the visited cells are then exactly the ends of the explored paths |
| `RouteFinder.ReachedMembers` | exmapacidade.py:94-102 | a cell is reached by a list of explored paths exactly when it is the start or a free neighbour of the last cell of one of them |
| `RouteFinder.TraceHistory` | exmapacidade.py:78-83 | recording a path together with the current visited set keeps every recorded visited set equal to the one reached by the paths recorded before it |
| `RouteFinder.TraceStep` | exmapacidade.py:77-106 | a turn that expands the end of the dequeued path keeps the visited set at each dequeue, and the current one, equal to the sets those paths reach |
| `RouteFinder.TraceGoal` | exmapacidade.py:77-91 | at the goal, the final visited set is the one reached by the paths expanded before the goal's path |
| `RouteFinder.RunTurn` | exmapacidade.py:76-106 | a turn away from the goal, below the limit, continues the run from the expanded queue and visited set with the popped path recorded |
| `RouteFinder.RunGoal` | exmapacidade.py:76-91 | a turn that dequeues the goal ends the run with the goal's path as the route |
| `RouteFinder.RunExpanded` | exmapacidade.py:76-106 | expanding the front entry as `Expand` does is one turn of the run |
| `RouteFinder.Dequeue` | exmapacidade.py:77-84 | pops the front, records its path, appends a copy of the visited set exactly when the step number is divisible by 5 or the popped cell is the goal, and counts the step |
| `RouteFinder.Arrive` | exmapacidade.py:77-91 | at the goal, the route is the popped path, and exactly one snapshot is added in the turn, so the duplicate check at line 89 never adds one; the final visited set is the one reached before the goal's path; the result is what the run gives from this state |
| `RouteFinder.ExpandFront` | exmapacidade.py:94-106 | expanding the popped front keeps the search invariant, with the popped cell now expanded, adds exactly its free neighbours to the visited set, and is one turn of the run |
| `RouteFinder.Advance` | exmapacidade.py:77-106 | a turn that does not reach the goal records the popped path, keeps the loop invariant and the trace of the visited sets, and leaves the run's result unchanged |
| `RouteFinder.Search` | exmapacidade.py:61-106 | the search ends within rows × columns turns, and the first recorded path is the start alone. With a route, it is the last recorded path and ends at the goal. Without one, the goal was never visited and is unreachable, and the explored paths end at exactly the visited cells. With one, they end at every cell closer than the goal. Every visited cell is free. The visited set copied at each dequeue is the one reached by the paths dequeued before it, and the final one is reached by every expanded path. The snapshots follow the schedule. The route, the explored paths and the visited set are `RunFrom`'s |
| `RouteFinder.DiscardedMembers` | exmapacidade.py:108-122 | a path is discarded exactly when it was explored and passes the filter |
| `RouteFinder.Discard` | exmapacidade.py:108-122 | the discarded list is the explored paths, in order, that leave the route's cells and are not the route; without a route, the explored paths longer than one cell |
| `RouteFinder.DiscardedAreDetours` | exmapacidade.py:108-122 | with a route, the discarded paths are exactly the explored paths that are not a prefix of the route |
| `RouteFinder.SnapshotsWithin` | exmapacidade.py:82-91 | the snapshots are non-empty, grow, lie inside the final visited set and, at the goal, end with it |
| `RouteFinder.OutcomeSolved` | exmapacidade.py:36-124 | the search outcome, the trace of its visited sets, the run it equals and the filter give `Solved`: the route, the explored paths in order with what they cover, the visited sets, the discarded paths and the snapshots |
| `RouteFinder.FindBestRoute` | exmapacidade.py:36-124 | a missing start or goal gives `(None, [], map, [])`; when both are present, their last occurrences exist. Then: a route iff the goal is reachable, and then a shortest simple walk and the last explored path, with no earlier explored path ending at the goal; at most rows × columns explored paths, each a shortest simple walk, with distinct ends; the discarded paths are the filter's, which with a route are exactly the non-prefixes; the explored paths come in order of length and end at every cell closer than the goal, or at every reachable cell without a route; the route, the explored paths and the final visited set are `RunFrom`'s, so the result is determined by the map; the visited set at each dequeue is the start plus the free neighbours of the paths dequeued before it; the snapshots are the scheduled ones among those, grow and lie inside the final visited set |
| `SampleRuns.DetourRun` | exmapacidade.py:76-106 | on `E S` over ` #`, the run explores `[s]`, then the detour below the start (tried first), then `[s, t]`, which is the route |
| `SampleRuns.DetourReached` | exmapacidade.py:81-82 | on the detour map, the visited sets at the three dequeues are `{s}` and then the three free cells twice |
| `SampleRuns.DetourSchedule` | exmapacidade.py:81-83 | those three visited sets give two snapshots: the first dequeue and the goal |
| `SampleRuns.DetourDiscarded` | exmapacidade.py:109-120 | the filter on the detour map keeps only the detour |
| `SampleRuns.DetourResult` | exmapacidade.py:76-124 | on the detour map, the run, the trace of the visited sets and the filter give route `[s, t]`, discarded paths `[[s, (1, 0)]]` and snapshots `[{s}, {s, (1, 0), t}]` |
| `SampleRuns.DetourSolved` | exmapacidade.py:36-124 | whatever satisfies the route finder's promise on the detour map has route `[s, t]`, discarded paths `[[s, (1, 0)]]` and snapshots `[{s}, {s, (1, 0), t}]` |
| `SampleRuns.DeadEndRun` | exmapacidade.py:76-106 | on `E #S`, the run explores `[s]` and `[s, (0, 1)]`, and the queue runs empty without a route |
| `SampleRuns.DeadEndResult` | exmapacidade.py:76-124 | on the dead-end map, the run, the trace of the visited sets and the filter give no route, discarded paths `[[s, (0, 1)]]` and snapshots `[{s}]` |
| `SampleRuns.DeadEndSolved` | exmapacidade.py:36-124 | whatever satisfies the route finder's promise on the dead-end map has no route, discarded paths `[[s, (0, 1)]]` (line 122: paths longer than one cell) and one snapshot |
| `MapMatrices.SnapshotClass` | exmapacidade.py:139-150 | a snapshot class is between 0 and 4 |
| `MapMatrices.SnapshotClassCases` | exmapacidade.py:139-150 | a cell is 1 iff blocked; else 2 iff it is the start; else 3 iff it is the goal; else 4 iff visited; else 0 |
| `MapMatrices.SnapshotMatrix` | exmapacidade.py:132-150 | returns a new rows × columns matrix whose every cell holds its snapshot class |
| `MapMatrices.FinalClassCases` | exmapacidade.py:193-214 | final classes lie in 0..5. The markers keep 1, 2 and 3. Any other cell is 4 iff on the route, else 5 iff visited, else 0. So the route overrides the discarded paint, and 5 never covers a marker |
| `MapMatrices.FillMarkers` | exmapacidade.py:193-202 | the first pass gives every cell its marker class |
| `MapMatrices.PaintVisited` | exmapacidade.py:205-208 | the second pass, over the visited cells in any order, turns every free visited cell to 5 and changes nothing else |
| `MapMatrices.PaintRoute` | exmapacidade.py:210-214 | the third pass turns every route cell holding 0 or 5 to 4 and changes nothing else |
| `MapMatrices.FinalMatrix` | exmapacidade.py:188-214 | returns a new rows × columns matrix whose every cell holds its final class; the discarded-route list is accepted and not used |

## Left out

- The matplotlib rendering (exmapacidade.py:152-181, 216-246) is foreign library calls with no logic: colour maps, `imshow`, ticks, legends and showing or closing figures.
- The error message at exmapacidade.py:58 and the console output of the driver are I/O only.
- The module-level driver (exmapacidade.py:254-278) repeats the marker scan and calls the plotters. The hard-coded map (exmapacidade.py:23-33) is sample data, not logic.
- `collections.deque` and `set` are modelled as a `seq` of queue entries and a `set` of cells. The search looks at the front entry before popping it; the popped entry is the same.
- `FindBestRoute`, `MapMatrices.SnapshotMatrix` and `MapMatrices.FinalMatrix` require a non-empty map, and `Grid` requires every row to be as long as the first. On an empty map, `len(mapa[0])` raises `IndexError` (exmapacidade.py:45, 133, 189); the model does not represent that exception. Rows of mixed length are not a map.
- `MapMatrices.FinalMatrix` requires the route and visited cells to be on the map. For an off-map cell, numpy would wrap an index from −n to −1 to the other end of its row or column, and would raise `IndexError` for an index below −n or at n or above. The cells the route finder produces are always on the map.
- `MapMatrices.FinalMatrix` models the `None` defaults of `plotar_mapa_final` as the empty route and empty set. Both are falsy in Python, so both skip their paint pass.
- The matrices hold integers; numpy fills them with floating-point values of the same integers.
- `MapMatrices.SnapshotMatrix` takes the start and goal as `Option` values. `plotar_mapa_snapshot` receives them as a pair of coordinates or `None`, and compares each cell with them.
