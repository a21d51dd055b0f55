/**
 * The route finder of the city map: it locates the start ('E') and the goal
 * ('S'), runs a breadth-first search that carries the whole path with every
 * queued cell, records every dequeued path and copies of the visited set, and
 * finally sorts the explored paths into discarded routes.
 */
module RouteFinder {
  import opened Grids

  /** A queue entry: the cell reached and the path that reached it. */
  datatype Entry = Entry(cell: Cell, path: seq<Cell>)

  /** What a search returns: the route (if any), the discarded paths, the map and the snapshots. */
  datatype SearchResult = SearchResult(
    route: Option<seq<Cell>>,
    discarded: seq<seq<Cell>>,
    grid: Grid,
    snapshots: seq<set<Cell>>)

  /** A copy of the visited set is taken at every dequeue whose step number is a multiple of this. */
  const SnapshotInterval := 5

  // ---------------------------------------------------------------------------
  // Locating the start and the goal

  /** `a` comes no later than `b` in a row-major scan. */
  predicate RowMajorNoLater(a: Cell, b: Cell) {
    a.0 < b.0 || (a.0 == b.0 && a.1 <= b.1)
  }

  predicate HasMarker(g: Grid, marker: char) {
    exists r, c :: 0 <= r < Rows(g) && 0 <= c < Cols(g) && g[r][c] == marker
  }

  /** `p` holds `marker` and no cell after it in row-major order does. */
  predicate IsLastMarker(g: Grid, marker: char, p: Cell) {
    && InBounds(g, p)
    && At(g, p) == marker
    && forall r, c :: 0 <= r < Rows(g) && 0 <= c < Cols(g) && g[r][c] == marker ==> RowMajorNoLater((r, c), p)
  }

  lemma LastMarkerUnique(g: Grid, marker: char, p: Cell, q: Cell)
    requires IsLastMarker(g, marker, p) && IsLastMarker(g, marker, q)
    ensures p == q
  {
  }

  /** Cell (r', c') was scanned before the scan reached (r, c). */
  predicate ScannedBefore(a: Cell, r: int, c: int) {
    a.0 < r || (a.0 == r && a.1 < c)
  }

  /** What a row-major scan that stopped at (r, c) knows about `marker`. */
  ghost predicate ScanState(g: Grid, marker: char, found: Option<Cell>, r: int, c: int) {
    && (found.None? ==>
          forall r', c' :: 0 <= r' < Rows(g) && 0 <= c' < Cols(g) && ScannedBefore((r', c'), r, c) ==> g[r'][c'] != marker)
    && (found.Some? ==>
          && IsInScan(g, found.value, r, c)
          && At(g, found.value) == marker
          && forall r', c' :: 0 <= r' < Rows(g) && 0 <= c' < Cols(g) && ScannedBefore((r', c'), r, c) && g[r'][c'] == marker
               ==> RowMajorNoLater((r', c'), found.value))
  }

  predicate IsInScan(g: Grid, p: Cell, r: int, c: int) {
    InBounds(g, p) && ScannedBefore(p, r, c)
  }

  /** Scanning cell (r, c) moves the last occurrence seen to (r, c) exactly when it holds `marker`. */
  lemma ScanCell(g: Grid, marker: char, found: Option<Cell>, r: int, c: int)
    requires 0 <= r < Rows(g) && 0 <= c < Cols(g) && ScanState(g, marker, found, r, c)
    ensures ScanState(g, marker, if g[r][c] == marker then Some((r, c)) else found, r, c + 1)
  {
  }

  lemma ScanRow(g: Grid, marker: char, found: Option<Cell>, r: int)
    requires 0 <= r < Rows(g) && ScanState(g, marker, found, r, Cols(g))
    ensures ScanState(g, marker, found, r + 1, 0)
  {
  }

  /** A finished scan has found the last occurrence of `marker`, or `marker` does not occur. */
  lemma ScanDone(g: Grid, marker: char, found: Option<Cell>)
    requires ScanState(g, marker, found, Rows(g), 0)
    ensures found.Some? <==> HasMarker(g, marker)
    ensures found.Some? ==> IsLastMarker(g, marker, found.value)
  {
    if found.Some? {
      assert g[found.value.0][found.value.1] == marker;
    }
  }

  /** One cell of the scan: a start or goal marker there replaces the one remembered. */
  method InspectCell(g: Grid, r: nat, c: nat, start: Option<Cell>, goal: Option<Cell>)
    returns (start': Option<Cell>, goal': Option<Cell>)
    requires r < Rows(g) && c < Cols(g)
    requires ScanState(g, Start, start, r, c) && ScanState(g, Goal, goal, r, c)
    ensures ScanState(g, Start, start', r, c + 1) && ScanState(g, Goal, goal', r, c + 1)
  {
    ScanCell(g, Start, start, r, c);
    ScanCell(g, Goal, goal, r, c);
    start', goal' := start, goal;
    if g[r][c] == Start {
      start' := Some((r, c));
    } else if g[r][c] == Goal {
      goal' := Some((r, c));
    }
  }

  /** Scans the map row by row; for each marker the last occurrence wins. */
  method FindMarkers(g: Grid) returns (start: Option<Cell>, goal: Option<Cell>)
    ensures start.Some? <==> HasMarker(g, Start)
    ensures start.Some? ==> IsLastMarker(g, Start, start.value)
    ensures goal.Some? <==> HasMarker(g, Goal)
    ensures goal.Some? ==> IsLastMarker(g, Goal, goal.value)
  {
    start, goal := None, None;
    for r := 0 to Rows(g)
      invariant ScanState(g, Start, start, r, 0)
      invariant ScanState(g, Goal, goal, r, 0)
    {
      for c := 0 to Cols(g)
        invariant ScanState(g, Start, start, r, c)
        invariant ScanState(g, Goal, goal, r, c)
      {
        start, goal := InspectCell(g, r, c, start, goal);
      }
      ScanRow(g, Start, start, r);
      ScanRow(g, Goal, goal, r);
    }
    ScanDone(g, Start, start);
    ScanDone(g, Goal, goal);
  }

  // ---------------------------------------------------------------------------
  // Expanding one dequeued cell

  /** A neighbour the search enqueues: on the map, not blocked and not yet visited. */
  predicate Opens(g: Grid, visited: set<Cell>, y: Cell) {
    Free(g, y) && y !in visited
  }

  /** The neighbours of `x` among the first `n` directions that open, in direction order. */
  function FreshNeighbours(g: Grid, x: Cell, visited: set<Cell>, n: nat): seq<Cell>
    requires n <= |Directions|
  {
    if n == 0 then []
    else
      var y := Neighbours(x)[n - 1];
      FreshNeighbours(g, x, visited, n - 1) + (if Opens(g, visited, y) then [y] else [])
  }

  /** The fresh neighbours are exactly the opening ones among the first `n` directions, each once. */
  lemma {:induction false} FreshNeighboursExact(g: Grid, x: Cell, visited: set<Cell>, n: nat)
    requires n <= |Directions|
    ensures var news := FreshNeighbours(g, x, visited, n);
      && (forall c :: c in news ==> c in Neighbours(x)[..n] && Opens(g, visited, c))
      && (forall i :: 0 <= i < n && Opens(g, visited, Neighbours(x)[i]) ==> Neighbours(x)[i] in news)
      && Distinct(news)
  {
    if n > 0 {
      FreshNeighboursExact(g, x, visited, n - 1);
      var before := FreshNeighbours(g, x, visited, n - 1);
      NeighbourNotEarlier(x, n - 1, before);
      assert forall c :: c in Neighbours(x)[..n - 1] ==> c in Neighbours(x)[..n];
    }
  }

  /**
   * The state after trying the first `n` moves from `x`: the opening
   * neighbours found so far are marked visited and appended to the queue, in
   * direction order, each with the path extended by that neighbour.
   */
  ghost predicate ExpandedBy(g: Grid, x: Cell, path: seq<Cell>, visited: set<Cell>, queue: seq<Entry>, n: nat,
                             visited': set<Cell>, queue': seq<Entry>)
    requires n <= |Directions|
  {
    var news := FreshNeighbours(g, x, visited, n);
    && (forall c :: c in visited' <==> c in visited || c in news)
    && |visited'| == |visited| + |news|
    && |queue'| == |queue| + |news|
    && queue'[..|queue|] == queue
    && forall j :: |queue| <= j < |queue'| ==> queue'[j] == Entry(news[j - |queue|], path + [news[j - |queue|]])
  }

  /** The queue entries for the cells `news`, each with `path` extended by that cell. */
  function NewEntries(path: seq<Cell>, news: seq<Cell>): (es: seq<Entry>)
    ensures |es| == |news|
  {
    if news == [] then [] else [Entry(news[0], path + [news[0]])] + NewEntries(path, news[1..])
  }

  /** The `j`-th new entry is for the `j`-th new cell. */
  lemma {:induction false} NewEntriesAt(path: seq<Cell>, news: seq<Cell>)
    ensures forall j :: 0 <= j < |news| ==> NewEntries(path, news)[j] == Entry(news[j], path + [news[j]])
  {
    if news != [] {
      NewEntriesAt(path, news[1..]);
    }
  }

  /**
   * Tries the four moves from `x` in direction order and enqueues, with the
   * path extended by one cell, every neighbour that is on the map, not blocked
   * and not visited; each one is marked visited as it is enqueued.
   */
  method Expand(g: Grid, x: Cell, path: seq<Cell>, visited: set<Cell>, queue: seq<Entry>)
    returns (visited': set<Cell>, queue': seq<Entry>)
    ensures ExpandedBy(g, x, path, visited, queue, |Directions|, visited', queue')
    ensures visited' == visited + FreeAround(g, x)
  {
    visited', queue' := visited, queue;
    for i := 0 to |Directions|
      invariant ExpandedBy(g, x, path, visited, queue, i, visited', queue')
    {
      var (dr, dc) := Directions[i];
      var next := (x.0 + dr, x.1 + dc);
      if 0 <= next.0 < Rows(g) && 0 <= next.1 < Cols(g) && g[next.0][next.1] != Blocked && next !in visited' {
        ExpandOpens(g, x, path, visited, queue, i, next, visited', queue');
        visited' := visited' + {next};
        queue' := queue' + [Entry(next, path + [next])];
      } else {
        ExpandSkips(g, x, path, visited, queue, i, next, visited', queue');
      }
    }
    ExpandedAround(g, x, path, visited, queue, visited', queue');
  }

  /** Move `i` from `x` leads to `y`, which is new to the expansion so far. */
  lemma MoveFacts(g: Grid, x: Cell, visited: set<Cell>, i: nat, y: Cell)
    requires i < |Directions| && y == (x.0 + Directions[i].0, x.1 + Directions[i].1)
    ensures y == Neighbours(x)[i]
    ensures FreshNeighbours(g, x, visited, i + 1)
         == FreshNeighbours(g, x, visited, i) + (if Opens(g, visited, y) then [y] else [])
    ensures y !in FreshNeighbours(g, x, visited, i)
  {
    var before := FreshNeighbours(g, x, visited, i);
    FreshNeighboursExact(g, x, visited, i);
    NeighbourNotEarlier(x, i, before);
  }

  /** A neighbour that opens is marked visited and enqueued with the path extended by it. */
  lemma ExpandOpens(g: Grid, x: Cell, path: seq<Cell>, visited: set<Cell>, queue: seq<Entry>, i: nat, y: Cell,
                    visited': set<Cell>, queue': seq<Entry>)
    requires i < |Directions| && y == (x.0 + Directions[i].0, x.1 + Directions[i].1)
    requires ExpandedBy(g, x, path, visited, queue, i, visited', queue') && Opens(g, visited', y)
    ensures ExpandedBy(g, x, path, visited, queue, i + 1, visited' + {y}, queue' + [Entry(y, path + [y])])
  {
    MoveFacts(g, x, visited, i, y);
  }

  /** A neighbour that does not open changes nothing. */
  lemma ExpandSkips(g: Grid, x: Cell, path: seq<Cell>, visited: set<Cell>, queue: seq<Entry>, i: nat, y: Cell,
                    visited': set<Cell>, queue': seq<Entry>)
    requires i < |Directions| && y == (x.0 + Directions[i].0, x.1 + Directions[i].1)
    requires ExpandedBy(g, x, path, visited, queue, i, visited', queue') && !Opens(g, visited', y)
    ensures ExpandedBy(g, x, path, visited, queue, i + 1, visited', queue')
  {
    MoveFacts(g, x, visited, i, y);
  }

  /** The neighbours of `x` that are on the map and not blocked. */
  function FreeAround(g: Grid, x: Cell): set<Cell> {
    set y | y in Neighbours(x) && Free(g, y)
  }

  /** After all four directions, the visited set has gained exactly the free neighbours of `x`. */
  lemma ExpandedAround(g: Grid, x: Cell, path: seq<Cell>, visited: set<Cell>, queue: seq<Entry>,
                       visited': set<Cell>, queue': seq<Entry>)
    requires ExpandedBy(g, x, path, visited, queue, |Directions|, visited', queue')
    ensures visited' == visited + FreeAround(g, x)
  {
    FreshNeighboursExact(g, x, visited, |Directions|);
    assert Neighbours(x)[..|Directions|] == Neighbours(x);
    forall c | c in FreeAround(g, x) && c !in visited ensures c in visited' {
      var i :| 0 <= i < |Directions| && Neighbours(x)[i] == c;
    }
  }

  /** After all four directions, the queue is the old one followed by the entries of the fresh neighbours. */
  lemma ExpandedQueue(g: Grid, x: Cell, path: seq<Cell>, visited: set<Cell>, queue: seq<Entry>,
                      visited': set<Cell>, queue': seq<Entry>)
    requires ExpandedBy(g, x, path, visited, queue, |Directions|, visited', queue')
    ensures queue' == queue + NewEntries(path, FreshNeighbours(g, x, visited, |Directions|))
  {
    var es := NewEntries(path, FreshNeighbours(g, x, visited, |Directions|));
    NewEntriesAt(path, FreshNeighbours(g, x, visited, |Directions|));
    assert forall j :: 0 <= j < |queue'| ==> queue'[j] == (queue + es)[j];
  }

  /** The i-th neighbour is not among the cells found in the earlier directions. */
  lemma NeighbourNotEarlier(x: Cell, i: nat, earlier: seq<Cell>)
    requires i < |Directions|
    requires forall c :: c in earlier ==> c in Neighbours(x)[..i]
    ensures Neighbours(x)[i] == (x.0 + Directions[i].0, x.1 + Directions[i].1)
    ensures Neighbours(x)[i] !in earlier
  {
  }

  // ---------------------------------------------------------------------------
  // Snapshot schedule

  predicate IsChain(sets: seq<set<Cell>>) {
    forall i, j :: 0 <= i <= j < |sets| ==> sets[i] <= sets[j]
  }

  /**
   * The snapshots taken from `history`, the visited set at each dequeue: one at
   * every step number divisible by the interval and, when `reached`, one at the
   * last step, the dequeue of the goal.
   */
  function Schedule(history: seq<set<Cell>>, reached: bool): seq<set<Cell>> {
    if history == [] then []
    else
      var k := |history| - 1;
      Schedule(history[..k], false) + (if k % SnapshotInterval == 0 || reached then [history[k]] else [])
  }

  /** Every snapshot is one of the visited sets seen at the dequeues. */
  lemma {:induction false} ScheduleElements(history: seq<set<Cell>>, reached: bool)
    ensures forall x :: x in Schedule(history, reached) ==> x in history
  {
    if history != [] {
      var k := |history| - 1;
      ScheduleElements(history[..k], false);
      assert forall x :: x in history[..k] ==> x in history;
    }
  }

  /** Snapshots of a growing visited set grow too. */
  lemma {:induction false} ScheduleChain(history: seq<set<Cell>>, reached: bool)
    requires IsChain(history)
    ensures IsChain(Schedule(history, reached))
  {
    if history != [] {
      var k := |history| - 1;
      var h := history[..k];
      assert IsChain(h);
      ScheduleChain(h, false);
      ScheduleElements(h, false);
      var earlier := Schedule(h, false);
      forall x | x in earlier ensures x <= history[k] {
        var i :| 0 <= i < |h| && h[i] == x;
      }
    }
  }

  /**
   * One snapshot per five dequeues, counting from the first, plus one more at
   * the goal when the goal's dequeue is not itself on the five-step schedule.
   */
  lemma {:induction false} ScheduleCount(history: seq<set<Cell>>, reached: bool)
    ensures |Schedule(history, reached)|
         == (|history| + 4) / SnapshotInterval
          + (if reached && history != [] && (|history| - 1) % SnapshotInterval != 0 then 1 else 0)
  {
    if history != [] {
      var k := |history| - 1;
      ScheduleCount(history[..k], false);
      assert (k + 4) / 5 + (if k % 5 == 0 then 1 else 0) == (k + 5) / 5;
    }
  }

  // ---------------------------------------------------------------------------
  // The breadth-first search

  /** A queue entry whose path is a shortest simple walk from `s` to its cell, inside `visited`. */
  ghost predicate GoodEntry(g: Grid, s: Cell, e: Entry, visited: set<Cell>, done: set<Cell>) {
    && IsSimpleWalk(g, e.path, s)
    && Last(e.path) == e.cell
    && (forall k :: 0 <= k < |e.path| ==> e.path[k] in visited)
    && Shortest(g, s, e.path)
    && e.cell !in done
  }

  predicate InQueue(queue: seq<Entry>, c: Cell) {
    exists i :: 0 <= i < |queue| && queue[i].cell == c
  }

  /** The queue is ordered by path length, spans at most two lengths and holds every cell once. */
  predicate Ordered(queue: seq<Entry>) {
    && (forall i, j :: 0 <= i < j < |queue| ==> queue[i].cell != queue[j].cell && |queue[i].path| <= |queue[j].path|)
    && (queue != [] ==> |Last(queue).path| <= |queue[0].path| + 1)
  }

  /** Every visited cell is done or waits in the queue. */
  predicate Covered(queue: seq<Entry>, visited: set<Cell>, done: set<Cell>) {
    forall c :: c in visited ==> c in done || InQueue(queue, c)
  }

  /** Every walk from `s` with fewer than `len` cells ends at a done cell. */
  ghost predicate Level(g: Grid, s: Cell, len: int, done: set<Cell>) {
    forall p, c :: WalkTo(g, p, s, c) && |p| < len ==> c in done
  }

  /** The visited cells are free and contain the start; the neighbours of done cells are visited. */
  ghost predicate Explored(g: Grid, s: Cell, visited: set<Cell>, done: set<Cell>) {
    && s in visited
    && (forall c :: c in visited ==> Free(g, c))
    && done <= visited
    && Closed(g, done, visited)
  }

  /**
   * The search invariant. `done` holds the cells already dequeued and expanded;
   * every visited cell is done or waits in the queue exactly once; the queue is
   * ordered by path length and spans at most two lengths; every walk shorter
   * than the front path ends at a done cell.
   */
  ghost predicate Frontier(g: Grid, s: Cell, queue: seq<Entry>, visited: set<Cell>, done: set<Cell>) {
    && Explored(g, s, visited, done)
    && (forall i :: 0 <= i < |queue| ==> GoodEntry(g, s, queue[i], visited, done))
    && Ordered(queue)
    && Covered(queue, visited, done)
    && (queue != [] ==> Level(g, s, |queue[0].path|, done))
  }

  /** A walk no longer than `len` ends at a visited cell. */
  lemma LevelReach(g: Grid, s: Cell, visited: set<Cell>, done: set<Cell>, len: int, p: seq<Cell>)
    requires Explored(g, s, visited, done) && Level(g, s, len, done)
    requires IsWalk(g, p, s) && |p| <= len
    ensures Last(p) in visited
  {
    if |p| > 1 {
      var n := |p| - 1;
      WalkPrefix(g, p, s, n);
      assert WalkTo(g, p[..n], s, p[n - 1]);
      assert Adjacent(p[n - 1], p[n]);
    }
  }

  /** What `Expand` promises, as a relation between the queue before the pop and after the expansion. */
  ghost predicate ExpandedFront(g: Grid, queue: seq<Entry>, visited: set<Cell>, queue': seq<Entry>, visited': set<Cell>)
    requires queue != []
  {
    ExpandedBy(g, queue[0].cell, queue[0].path, visited, queue[1..], |Directions|, visited', queue')
  }

  /** The entry for a newly enqueued neighbour `y` of the front cell is good. */
  lemma NewEntryGood(g: Grid, s: Cell, e: Entry, y: Cell, visited: set<Cell>, done: set<Cell>, visited': set<Cell>)
    requires Explored(g, s, visited, done) && GoodEntry(g, s, e, visited, done)
    requires Level(g, s, |e.path|, done)
    requires Opens(g, visited, y) && Adjacent(e.cell, y)
    requires visited <= visited' && y in visited'
    ensures GoodEntry(g, s, Entry(y, e.path + [y]), visited', done + {e.cell})
  {
    WalkExtend(g, e.path, s, y);
    forall q | WalkTo(g, q, s, Last(e.path + [y])) ensures |e.path + [y]| <= |q| {
      if |q| <= |e.path| {
        LevelReach(g, s, visited, done, |e.path|, q);
      }
    }
    assert Last(e.path) in visited;
  }

  /** The entries left behind the popped front stay good. */
  lemma OldEntryGood(g: Grid, s: Cell, e: Entry, x: Cell, visited: set<Cell>, done: set<Cell>, visited': set<Cell>)
    requires GoodEntry(g, s, e, visited, done) && e.cell != x && visited <= visited'
    ensures GoodEntry(g, s, e, visited', done + {x})
  {
  }

  /** The expanded queue, cut in two, is the rest of the old queue followed by the new entries. */
  lemma ExpandedParts(g: Grid, queue: seq<Entry>, visited: set<Cell>, queue': seq<Entry>, visited': set<Cell>)
    requires queue != [] && ExpandedFront(g, queue, visited, queue', visited')
    ensures var news := FreshNeighbours(g, queue[0].cell, visited, |Directions|);
      && (forall j :: 0 <= j < |queue| - 1 ==> queue'[j] == queue[j + 1])
      && (forall j :: |queue| - 1 <= j < |queue'| ==>
            queue'[j].cell == news[j - |queue| + 1] && queue'[j].path == queue[0].path + [queue'[j].cell])
      && (forall c :: c in news ==> Opens(g, visited, c) && Adjacent(queue[0].cell, c) && c in visited')
      && Distinct(news)
      && visited <= visited'
  {
    NewNeighbours(g, queue[0].cell, visited, visited');
    KeptEntries(queue, queue');
    assert |queue[1..]| == |queue| - 1;
  }

  /** The cells a full expansion of `x` adds are opening neighbours of `x`, each once. */
  lemma NewNeighbours(g: Grid, x: Cell, visited: set<Cell>, visited': set<Cell>)
    requires forall c :: c in visited' <==> c in visited || c in FreshNeighbours(g, x, visited, |Directions|)
    ensures var news := FreshNeighbours(g, x, visited, |Directions|);
      && (forall c :: c in news ==> Opens(g, visited, c) && Adjacent(x, c) && c in visited')
      && Distinct(news)
      && visited <= visited'
  {
    FreshNeighboursExact(g, x, visited, |Directions|);
    assert Neighbours(x)[..|Directions|] == Neighbours(x);
  }

  /** A queue that starts with the old queue minus its front holds those entries, one place earlier. */
  lemma KeptEntries(queue: seq<Entry>, queue': seq<Entry>)
    requires queue != [] && |queue| - 1 <= |queue'| && queue'[..|queue| - 1] == queue[1..]
    ensures forall j :: 0 <= j < |queue| - 1 ==> queue'[j] == queue[j + 1]
  {
    forall j | 0 <= j < |queue| - 1 ensures queue'[j] == queue[j + 1] {
      assert queue'[j] == queue'[..|queue| - 1][j];
      assert queue[1..][j] == queue[j + 1];
    }
  }

  lemma StepEntries(g: Grid, s: Cell, queue: seq<Entry>, visited: set<Cell>, done: set<Cell>,
                    queue': seq<Entry>, visited': set<Cell>)
    requires Frontier(g, s, queue, visited, done) && queue != []
    requires ExpandedFront(g, queue, visited, queue', visited')
    ensures forall j :: 0 <= j < |queue'| ==> GoodEntry(g, s, queue'[j], visited', done + {queue[0].cell})
  {
    var n := |queue| - 1;
    var news := FreshNeighbours(g, queue[0].cell, visited, |Directions|);
    ExpandedParts(g, queue, visited, queue', visited');
    forall j | 0 <= j < |queue'| ensures GoodEntry(g, s, queue'[j], visited', done + {queue[0].cell}) {
      if j < n {
        assert queue[0].cell != queue[j + 1].cell;
        OldEntryGood(g, s, queue[j + 1], queue[0].cell, visited, done, visited');
      } else {
        assert news[j - n] in news;
        NewEntryGood(g, s, queue[0], news[j - n], visited, done, visited');
      }
    }
  }

  /** The expanded queue's paths are as long as the popped path or one cell longer. */
  lemma StepLengths(g: Grid, queue: seq<Entry>, visited: set<Cell>, queue': seq<Entry>, visited': set<Cell>)
    requires Ordered(queue) && queue != []
    requires ExpandedFront(g, queue, visited, queue', visited')
    ensures forall j :: 0 <= j < |queue'| ==> |queue[0].path| <= |queue'[j].path| <= |queue[0].path| + 1
  {
    ExpandedParts(g, queue, visited, queue', visited');
    forall i | 0 <= i < |queue| ensures |queue[0].path| <= |queue[i].path| <= |queue[0].path| + 1 {
      if i > 0 {
        assert |queue[i].path| <= |Last(queue).path|;
      }
    }
  }

  lemma StepOrder(g: Grid, queue: seq<Entry>, visited: set<Cell>, queue': seq<Entry>, visited': set<Cell>)
    requires Ordered(queue) && queue != []
    requires forall i :: 0 <= i < |queue| ==> queue[i].cell in visited
    requires ExpandedFront(g, queue, visited, queue', visited')
    ensures Ordered(queue')
    ensures forall j :: 0 <= j < |queue'| ==> |queue[0].path| <= |queue'[j].path| <= |queue[0].path| + 1
  {
    var n := |queue| - 1;
    var news := FreshNeighbours(g, queue[0].cell, visited, |Directions|);
    StepLengths(g, queue, visited, queue', visited');
    ExpandedParts(g, queue, visited, queue', visited');
    forall i, j | 0 <= i < j < |queue'| ensures queue'[i].cell != queue'[j].cell {
      if i < n && j >= n {
        assert news[j - n] in news;
      }
    }
  }

  /**
   * After the front is popped and its fresh neighbours `news` are appended,
   * every visited cell is done, the popped cell, or still in the queue.
   */
  lemma StepCoverage(queue: seq<Entry>, visited: set<Cell>, done: set<Cell>, news: seq<Cell>,
                     queue': seq<Entry>, visited': set<Cell>)
    requires Covered(queue, visited, done) && queue != []
    requires |queue'| == |queue| - 1 + |news|
    requires forall j :: 0 <= j < |queue| - 1 ==> queue'[j] == queue[j + 1]
    requires forall k :: 0 <= k < |news| ==> queue'[|queue| - 1 + k].cell == news[k]
    requires forall c :: c in visited' ==> c in visited || c in news
    ensures Covered(queue', visited', done + {queue[0].cell})
  {
    var n := |queue| - 1;
    forall c | c in visited' ensures c in done + {queue[0].cell} || InQueue(queue', c) {
      if c in visited {
        if c !in done {
          var i :| 0 <= i < |queue| && queue[i].cell == c;
          if i > 0 {
            assert queue'[i - 1].cell == c;
          }
        }
      } else {
        var k :| 0 <= k < |news| && news[k] == c;
        assert queue'[n + k].cell == c;
      }
    }
  }

  /** Walks shorter than the new front path end at done cells, the popped cell now among them. */
  lemma StepLevel(g: Grid, s: Cell, queue: seq<Entry>, visited: set<Cell>, done: set<Cell>,
                  queue': seq<Entry>, visited': set<Cell>)
    requires Explored(g, s, visited, done) && Ordered(queue) && Covered(queue, visited, done)
    requires queue != [] && Level(g, s, |queue[0].path|, done)
    requires forall i :: 0 <= i < |queue| ==> Shortest(g, s, queue[i].path) && Last(queue[i].path) == queue[i].cell
    requires queue' != [] && |queue'[0].path| <= |queue[0].path| + 1
    requires |queue| > 1 ==> queue'[0] == queue[1]
    ensures Level(g, s, |queue'[0].path|, done + {queue[0].cell})
  {
    forall p, c | WalkTo(g, p, s, c) && |p| < |queue'[0].path| ensures c in done + {queue[0].cell} {
      if |p| >= |queue[0].path| && c !in done {
        LevelReach(g, s, visited, done, |queue[0].path|, p);
        // A later queue entry for c would be no longer than p, so no longer than the new front.
        var i :| 0 <= i < |queue| && queue[i].cell == c;
        assert WalkTo(g, p, s, Last(queue[i].path));
      }
    }
  }

  /** One dequeue and expansion keeps the search invariant, with the dequeued cell now done. */
  lemma FrontierStep(g: Grid, s: Cell, queue: seq<Entry>, visited: set<Cell>, done: set<Cell>,
                     queue': seq<Entry>, visited': set<Cell>)
    requires Frontier(g, s, queue, visited, done) && queue != []
    requires ExpandedFront(g, queue, visited, queue', visited')
    ensures Frontier(g, s, queue', visited', done + {queue[0].cell})
    ensures queue' != [] ==> |queue[0].path| <= |queue'[0].path|
    ensures visited <= visited' && |queue'| + 1 - |queue| == |visited'| - |visited|
    ensures forall c :: c in visited' ==> InBounds(g, c)
    ensures GoodEntry(g, s, queue[0], visited, done)
  {
    var x := queue[0].cell;
    assert forall i :: 0 <= i < |queue| ==> queue[i].cell in visited by {
      forall i | 0 <= i < |queue| ensures queue[i].cell in visited {
        assert GoodEntry(g, s, queue[i], visited, done);
      }
    }
    StepEntries(g, s, queue, visited, done, queue', visited');
    StepOrder(g, queue, visited, queue', visited');
    ExpandedParts(g, queue, visited, queue', visited');
    StepCoverage(queue, visited, done, FreshNeighbours(g, x, visited, |Directions|), queue', visited');
    if queue' != [] {
      forall i | 0 <= i < |queue| ensures Shortest(g, s, queue[i].path) && Last(queue[i].path) == queue[i].cell {
        assert GoodEntry(g, s, queue[i], visited, done);
      }
      StepLevel(g, s, queue, visited, done, queue', visited');
    }
    StepClosed(g, s, queue, visited, done, queue', visited');
  }

  lemma StepClosed(g: Grid, s: Cell, queue: seq<Entry>, visited: set<Cell>, done: set<Cell>,
                   queue': seq<Entry>, visited': set<Cell>)
    requires Explored(g, s, visited, done) && queue != [] && queue[0].cell in visited
    requires ExpandedFront(g, queue, visited, queue', visited')
    ensures Explored(g, s, visited', done + {queue[0].cell})
  {
    var x := queue[0].cell;
    var news := FreshNeighbours(g, x, visited, |Directions|);
    FreshNeighboursExact(g, x, visited, |Directions|);
    assert Neighbours(x)[..|Directions|] == Neighbours(x);
    forall a, y | a in done + {x} && Free(g, y) && Adjacent(a, y) ensures y in visited' {
      if a == x && y !in visited {
        var i :| 0 <= i < |Neighbours(x)| && Neighbours(x)[i] == y;
      }
    }
  }

  /**
   * The recorded paths: shortest simple walks from `s` whose last cells are
   * distinct members of `ends`, in non-decreasing order of length.
   */
  ghost predicate Recorded(g: Grid, s: Cell, explored: seq<seq<Cell>>, ends: set<Cell>) {
    && (forall k :: 0 <= k < |explored| ==>
          explored[k] != [] && IsSimpleWalk(g, explored[k], s) && Shortest(g, s, explored[k]) && Last(explored[k]) in ends)
    && (forall k, l :: 0 <= k < l < |explored| ==>
          Last(explored[k]) != Last(explored[l]) && |explored[k]| <= |explored[l]|)
  }

  /** The last cells of the recorded paths. */
  function Ends(explored: seq<seq<Cell>>): set<Cell> {
    if explored == [] then {}
    else
      var k := |explored| - 1;
      Ends(explored[..k]) + (if explored[k] == [] then {} else {Last(explored[k])})
  }

  /** A cell is an end exactly when some recorded path stops there. */
  lemma {:induction false} EndsMembers(explored: seq<seq<Cell>>)
    ensures forall c :: c in Ends(explored) <==>
              exists k :: 0 <= k < |explored| && explored[k] != [] && Last(explored[k]) == c
  {
    if explored != [] {
      var k := |explored| - 1;
      EndsMembers(explored[..k]);
      assert forall i :: 0 <= i < k ==> explored[..k][i] == explored[i];
    }
  }

  /** Recording one more path adds its last cell to the ends. */
  lemma EndsStep(explored: seq<seq<Cell>>, p: seq<Cell>)
    requires p != []
    ensures Ends(explored + [p]) == Ends(explored) + {Last(p)}
  {
    assert (explored + [p])[..|explored|] == explored;
  }

  /** Recording the front entry's path keeps the recorded paths in order and their ends distinct. */
  lemma RecordStep(g: Grid, s: Cell, explored: seq<seq<Cell>>, done: set<Cell>, e: Entry, visited: set<Cell>)
    requires Recorded(g, s, explored, done) && GoodEntry(g, s, e, visited, done)
    requires forall k :: 0 <= k < |explored| ==> |explored[k]| <= |e.path|
    ensures Recorded(g, s, explored + [e.path], done + {e.cell})
  {
    var explored' := explored + [e.path];
    forall k, l | 0 <= k < l < |explored'|
      ensures Last(explored'[k]) != Last(explored'[l]) && |explored'[k]| <= |explored'[l]|
    {
      assert explored'[k] == explored[k];
      if l < |explored| {
        assert explored'[l] == explored[l];
      }
    }
  }

  /** The visited sets seen at successive dequeues: each contains the one before, all within `visited`. */
  predicate HistoryWithin(history: seq<set<Cell>>, visited: set<Cell>) {
    IsChain(history) && forall k :: 0 <= k < |history| ==> history[k] <= visited
  }

  lemma HistoryStep(history: seq<set<Cell>>, visited: set<Cell>, visited': set<Cell>)
    requires HistoryWithin(history, visited) && visited <= visited'
    ensures HistoryWithin(history + [visited], visited')
  {
  }

  lemma ScheduleStep(history: seq<set<Cell>>, visited: set<Cell>, reached: bool)
    ensures Schedule(history + [visited], reached)
         == Schedule(history, false) + (if |history| % SnapshotInterval == 0 || reached then [visited] else [])
  {
    assert (history + [visited])[..|history|] == history;
  }

  /**
   * What the loop keeps true of its record of the search: one recorded path
   * per dequeue; the first is the start alone; the done cells are the ends of
   * the recorded paths; every recorded path is no
   * longer than the front path; the visited sets seen at the dequeues grow;
   * the snapshots are those the schedule picks.
   */
  ghost predicate Bookkeeping(g: Grid, s: Cell, queue: seq<Entry>, visited: set<Cell>, done: set<Cell>,
                              explored: seq<seq<Cell>>, history: seq<set<Cell>>, snapshots: seq<set<Cell>>)
  {
    && |explored| + |queue| == |visited| <= Rows(g) * Cols(g)
    && |history| == |explored|
    && (explored == [] ==> queue == [Entry(s, [s])])
    && (explored != [] ==> explored[0] == [s])
    && Recorded(g, s, explored, done)
    && done == Ends(explored)
    && (queue != [] ==> forall k :: 0 <= k < |explored| ==> |explored[k]| <= |queue[0].path|)
    && HistoryWithin(history, visited)
    && snapshots == Schedule(history, false)
  }

  /** Everything the breadth-first loop keeps true from one dequeue to the next. */
  ghost predicate LoopInvariant(g: Grid, s: Cell, t: Cell, queue: seq<Entry>, visited: set<Cell>, done: set<Cell>,
                                explored: seq<seq<Cell>>, history: seq<set<Cell>>, snapshots: seq<set<Cell>>)
  {
    && Frontier(g, s, queue, visited, done)
    && t !in done
    && Bookkeeping(g, s, queue, visited, done, explored, history, snapshots)
  }

  /** What the search promises about its results. */
  ghost predicate Outcome(g: Grid, s: Cell, t: Cell, route: Option<seq<Cell>>, explored: seq<seq<Cell>>,
                          snapshots: seq<set<Cell>>, visited: set<Cell>, history: seq<set<Cell>>)
  {
    && 1 <= |explored| <= Rows(g) * Cols(g)
    && explored[0] == [s]
    && Recorded(g, s, explored, visited)
    && (forall k :: 0 <= k < |explored| - 1 ==> Last(explored[k]) != t)
    && (forall c :: c in visited ==> Free(g, c))
    && (route.Some? ==> route.value == Last(explored) && Last(route.value) == t)
    && (route.None? ==> t !in visited && !Connected(g, s, t))
    && (route.None? ==> forall p :: IsWalk(g, p, s) ==> forall i :: 0 <= i < |p| ==> p[i] in visited)
    && (route.None? ==> visited == Ends(explored))
    && (route.Some? ==> forall p, c :: WalkTo(g, p, s, c) && |p| < |route.value| ==> c in Ends(explored))
    && |history| == |explored|
    && HistoryWithin(history, visited)
    && (route.Some? ==> Last(history) == visited)
    && snapshots == Schedule(history, route.Some?)
  }

  lemma LoopStart(g: Grid, s: Cell, t: Cell)
    requires Free(g, s)
    ensures LoopInvariant(g, s, t, [Entry(s, [s])], {s}, {}, [], [], [])
  {
    CellsOnMapBound(g, {s});
    assert [Entry(s, [s])][0].cell == s;
  }

  /** The record of the search after a dequeue of a cell other than the goal and its expansion. */
  lemma BookkeepingStep(g: Grid, s: Cell, queue: seq<Entry>, visited: set<Cell>, done: set<Cell>,
                        explored: seq<seq<Cell>>, history: seq<set<Cell>>, snapshots: seq<set<Cell>>,
                        queue': seq<Entry>, visited': set<Cell>, done': set<Cell>,
                        explored': seq<seq<Cell>>, history': seq<set<Cell>>, snapshots': seq<set<Cell>>)
    requires Bookkeeping(g, s, queue, visited, done, explored, history, snapshots) && queue != []
    requires GoodEntry(g, s, queue[0], visited, done)
    requires visited <= visited' && |queue'| + 1 - |queue| == |visited'| - |visited|
    requires forall c :: c in visited' ==> InBounds(g, c)
    requires queue' != [] ==> |queue[0].path| <= |queue'[0].path|
    requires done' == done + {queue[0].cell} && explored' == explored + [queue[0].path]
    requires history' == history + [visited]
    requires snapshots' == snapshots + (if |explored| % SnapshotInterval == 0 then [visited] else [])
    ensures Bookkeeping(g, s, queue', visited', done', explored', history', snapshots')
  {
    RecordStep(g, s, explored, done, queue[0], visited);
    EndsStep(explored, queue[0].path);
    ScheduleStep(history, visited, false);
    HistoryStep(history, visited, visited');
    CellsOnMapBound(g, visited');
  }

  /** Dequeuing the goal ends the search with the outcome promised. */
  lemma GoalOutcome(g: Grid, s: Cell, t: Cell, queue: seq<Entry>, visited: set<Cell>, done: set<Cell>,
                    explored: seq<seq<Cell>>, history: seq<set<Cell>>, snapshots: seq<set<Cell>>)
    requires Explored(g, s, visited, done) && t !in done
    requires Bookkeeping(g, s, queue, visited, done, explored, history, snapshots)
    requires queue != [] && queue[0].cell == t && GoodEntry(g, s, queue[0], visited, done)
    requires Level(g, s, |queue[0].path|, done)
    ensures Outcome(g, s, t, Some(queue[0].path), explored + [queue[0].path], snapshots + [visited], visited,
                    history + [visited])
  {
    RecordStep(g, s, explored, done, queue[0], visited);
    EndsStep(explored, queue[0].path);
    assert Level(g, s, |queue[0].path|, Ends(explored + [queue[0].path]));
    ScheduleStep(history, visited, true);
    HistoryStep(history, visited, visited);
    RecordedWithin(g, s, explored + [queue[0].path], done + {t}, visited);
  }

  /** An empty queue ends the search without a route: the goal cannot be reached. */
  lemma LoopExhausted(g: Grid, s: Cell, t: Cell, visited: set<Cell>, done: set<Cell>,
                      explored: seq<seq<Cell>>, history: seq<set<Cell>>, snapshots: seq<set<Cell>>)
    requires LoopInvariant(g, s, t, [], visited, done, explored, history, snapshots)
    ensures Outcome(g, s, t, None, explored, snapshots, visited, history)
  {
    assert visited == done;
    forall p | IsWalk(g, p, s) ensures forall i :: 0 <= i < |p| ==> p[i] in visited {
      ClosedWalkStaysInside(g, s, visited, p);
    }
    assert !Connected(g, s, t);
  }

  lemma RecordedWithin(g: Grid, s: Cell, explored: seq<seq<Cell>>, ends: set<Cell>, ends': set<Cell>)
    requires Recorded(g, s, explored, ends) && ends <= ends'
    ensures Recorded(g, s, explored, ends')
  {
  }

  // ---------------------------------------------------------------------------
  // The visited set as a function of the explored paths

  /**
   * The cells visited once the paths in `explored` were dequeued and
   * expanded: the start, and the free neighbours of the last cell of each.
   */
  function Reached(g: Grid, s: Cell, explored: seq<seq<Cell>>): set<Cell> {
    if explored == [] then {s}
    else
      var k := |explored| - 1;
      Reached(g, s, explored[..k]) + (if explored[k] == [] then {} else FreeAround(g, Last(explored[k])))
  }

  /** A cell is reached exactly when it is the start or a free neighbour of the end of an explored path. */
  lemma {:induction false} ReachedMembers(g: Grid, s: Cell, explored: seq<seq<Cell>>)
    ensures forall c :: c in Reached(g, s, explored) <==>
              c == s || exists i :: 0 <= i < |explored| && explored[i] != [] && c in FreeAround(g, Last(explored[i]))
  {
    if explored != [] {
      var k := |explored| - 1;
      ReachedMembers(g, s, explored[..k]);
      assert forall i :: 0 <= i < k ==> explored[..k][i] == explored[i];
    }
  }

  /**
   * The visited set seen at the `k`-th dequeue is the one reached by the
   * first `k` explored paths, and the current one by all of them.
   */
  ghost predicate Traced(g: Grid, s: Cell, explored: seq<seq<Cell>>, history: seq<set<Cell>>, visited: set<Cell>) {
    && |history| == |explored|
    && (forall k :: 0 <= k < |history| ==> history[k] == Reached(g, s, explored[..k]))
    && visited == Reached(g, s, explored)
  }

  /**
   * What the search promises about the visited sets: one per dequeue, each
   * reached by the paths dequeued before it; the final one is reached by all
   * expanded paths, which at the goal leaves out the goal's own path.
   */
  ghost predicate TracedOutcome(g: Grid, s: Cell, route: Option<seq<Cell>>, explored: seq<seq<Cell>>,
                                history: seq<set<Cell>>, visited: set<Cell>)
  {
    && |history| == |explored|
    && (forall k :: 0 <= k < |history| ==> history[k] == Reached(g, s, explored[..k]))
    && (route.Some? ==> explored != [] && visited == Reached(g, s, explored[..|explored| - 1]))
    && (route.None? ==> visited == Reached(g, s, explored))
  }

  /** Recording one more path with the current visited set keeps the history traced. */
  lemma TraceHistory(g: Grid, s: Cell, explored: seq<seq<Cell>>, history: seq<set<Cell>>, visited: set<Cell>,
                     p: seq<Cell>)
    requires Traced(g, s, explored, history, visited)
    ensures var explored', history' := explored + [p], history + [visited];
      && explored'[..|explored|] == explored
      && |history'| == |explored'|
      && forall k :: 0 <= k < |history'| ==> history'[k] == Reached(g, s, explored'[..k])
  {
    var explored', history' := explored + [p], history + [visited];
    assert explored'[..|explored|] == explored;
    forall k | 0 <= k < |history'| ensures history'[k] == Reached(g, s, explored'[..k]) {
      if k < |history| {
        assert explored'[..k] == explored[..k];
      }
    }
  }

  /** Expanding the end of the dequeued path `p` adds its free neighbours: the trace goes on. */
  lemma TraceStep(g: Grid, s: Cell, explored: seq<seq<Cell>>, history: seq<set<Cell>>, visited: set<Cell>,
                  p: seq<Cell>, visited': set<Cell>)
    requires Traced(g, s, explored, history, visited)
    requires p != [] && visited' == visited + FreeAround(g, Last(p))
    ensures Traced(g, s, explored + [p], history + [visited], visited')
  {
    TraceHistory(g, s, explored, history, visited, p);
  }

  /** Dequeuing the goal with path `p` ends the trace: the visited set is the one before `p`. */
  lemma TraceGoal(g: Grid, s: Cell, explored: seq<seq<Cell>>, history: seq<set<Cell>>, visited: set<Cell>,
                  p: seq<Cell>)
    requires Traced(g, s, explored, history, visited)
    ensures TracedOutcome(g, s, Some(p), explored + [p], history + [visited], visited)
  {
    TraceHistory(g, s, explored, history, visited, p);
  }

  // ---------------------------------------------------------------------------
  // The search as a function

  /**
   * The turns of the breadth-first loop, taken from the queue `queue`, the
   * visited set `visited` and the recorded paths `explored`, until `limit`
   * paths are recorded: the route, all the recorded paths and the final
   * visited set.
   */
  function Run(g: Grid, t: Cell, queue: seq<Entry>, visited: set<Cell>, explored: seq<seq<Cell>>, limit: nat)
    : (Option<seq<Cell>>, seq<seq<Cell>>, set<Cell>)
    decreases limit - |explored|
  {
    if |explored| >= limit || queue == [] then (None, explored, visited)
    else
      var e := queue[0];
      if e.cell == t then (Some(e.path), explored + [e.path], visited)
      else
        Run(g, t, queue[1..] + NewEntries(e.path, FreshNeighbours(g, e.cell, visited, |Directions|)),
            visited + FreeAround(g, e.cell), explored + [e.path], limit)
  }

  /** A turn away from the goal: the run goes on from the expanded queue. */
  lemma RunTurn(g: Grid, t: Cell, queue: seq<Entry>, visited: set<Cell>, explored: seq<seq<Cell>>, limit: nat,
                queue': seq<Entry>, visited': set<Cell>)
    requires |explored| < limit && queue != [] && queue[0].cell != t
    requires queue' == queue[1..] + NewEntries(queue[0].path, FreshNeighbours(g, queue[0].cell, visited, |Directions|))
    requires visited' == visited + FreeAround(g, queue[0].cell)
    ensures Run(g, t, queue, visited, explored, limit) == Run(g, t, queue', visited', explored + [queue[0].path], limit)
  {
  }

  /** A turn that dequeues the goal ends the run with the goal's path as the route. */
  lemma RunGoal(g: Grid, t: Cell, queue: seq<Entry>, visited: set<Cell>, explored: seq<seq<Cell>>, limit: nat)
    requires |explored| < limit && queue != [] && queue[0].cell == t
    ensures Run(g, t, queue, visited, explored, limit) == (Some(queue[0].path), explored + [queue[0].path], visited)
  {
  }

  /** Expanding the front entry, when it is not the goal, is one turn of the run. */
  lemma RunExpanded(g: Grid, t: Cell, queue: seq<Entry>, visited: set<Cell>, explored: seq<seq<Cell>>, limit: nat,
                    queue': seq<Entry>, visited': set<Cell>)
    requires |explored| < limit && queue != [] && queue[0].cell != t
    requires ExpandedFront(g, queue, visited, queue', visited')
    ensures Run(g, t, queue, visited, explored, limit) == Run(g, t, queue', visited', explored + [queue[0].path], limit)
  {
    var x := queue[0].cell;
    ExpandedAround(g, x, queue[0].path, visited, queue[1..], visited', queue');
    ExpandedQueue(g, x, queue[0].path, visited, queue[1..], visited', queue');
    RunTurn(g, t, queue, visited, explored, limit, queue', visited');
  }

  /** The whole search from `s`, with one turn per cell of the map at most. */
  function RunFrom(g: Grid, s: Cell, t: Cell): (Option<seq<Cell>>, seq<seq<Cell>>, set<Cell>) {
    Run(g, t, [Entry(s, [s])], {s}, [], Rows(g) * Cols(g))
  }

  /**
   * The bookkeeping at the start of every turn of the breadth-first loop: pop
   * the front entry, record its path, take a snapshot of the visited set every
   * fifth turn and when the popped cell is the goal, and count the turn.
   */
  method Dequeue(t: Cell, queue: seq<Entry>, visited: set<Cell>, explored: seq<seq<Cell>>,
                 snapshots: seq<set<Cell>>, step: nat, ghost history: seq<set<Cell>>)
    returns (entry: Entry, queue': seq<Entry>, explored': seq<seq<Cell>>, snapshots': seq<set<Cell>>,
             step': nat, ghost history': seq<set<Cell>>)
    requires queue != []
    ensures entry == queue[0] && queue' == queue[1..] && explored' == explored + [entry.path]
    ensures snapshots' == snapshots + (if step % SnapshotInterval == 0 || entry.cell == t then [visited] else [])
    ensures history' == history + [visited] && step' == step + 1
  {
    entry := queue[0];
    queue' := queue[1..];
    explored' := explored + [entry.path];
    snapshots' := snapshots;
    if step % SnapshotInterval == 0 || entry.cell == t {
      snapshots' := snapshots' + [visited];
    }
    history' := history + [visited];
    step' := step + 1;
  }

  /**
   * The turn that dequeues the goal: its path is the route, the final visited
   * set is added to the snapshots unless it is already there, and the search stops.
   */
  method Arrive(g: Grid, s: Cell, t: Cell, queue: seq<Entry>, visited: set<Cell>, explored: seq<seq<Cell>>,
                snapshots: seq<set<Cell>>, step: nat, ghost done: set<Cell>, ghost history: seq<set<Cell>>)
    returns (route: Option<seq<Cell>>, explored': seq<seq<Cell>>, snapshots': seq<set<Cell>>,
             ghost history': seq<set<Cell>>)
    requires queue != [] && queue[0].cell == t && step == |explored|
    requires LoopInvariant(g, s, t, queue, visited, done, explored, history, snapshots)
    requires Traced(g, s, explored, history, visited)
    ensures route == Some(queue[0].path)
    ensures |snapshots'| == |snapshots| + 1 && Last(snapshots') == visited
    ensures Outcome(g, s, t, route, explored', snapshots', visited, history')
    ensures TracedOutcome(g, s, route, explored', history', visited)
    ensures (route, explored', visited) == Run(g, t, queue, visited, explored, Rows(g) * Cols(g))
  {
    var entry, rest, step';
    entry, rest, explored', snapshots', step', history' := Dequeue(t, queue, visited, explored, snapshots, step, history);
    route := Some(entry.path);
    assert snapshots' == snapshots + [visited];
    if visited !in snapshots' {
      snapshots' := snapshots' + [visited];
    }
    assert GoodEntry(g, s, queue[0], visited, done);
    assert Level(g, s, |queue[0].path|, done);
    GoalOutcome(g, s, t, queue, visited, done, explored, history, snapshots);
    TraceGoal(g, s, explored, history, visited, entry.path);
    RunGoal(g, t, queue, visited, explored, Rows(g) * Cols(g));
  }

  /**
   * Expands the dequeued front `entry` onto the rest of the queue; the search
   * invariant then holds with the front cell done.
   */
  method ExpandFront(g: Grid, s: Cell, ghost queue: seq<Entry>, entry: Entry, rest: seq<Entry>, visited: set<Cell>,
                     ghost done: set<Cell>, ghost t: Cell, ghost explored: seq<seq<Cell>>, ghost limit: nat)
    returns (visited': set<Cell>, queue': seq<Entry>)
    requires queue != [] && entry == queue[0] && rest == queue[1..]
    requires Frontier(g, s, queue, visited, done)
    requires |explored| < limit && entry.cell != t
    ensures Frontier(g, s, queue', visited', done + {entry.cell})
    ensures queue' != [] ==> |entry.path| <= |queue'[0].path|
    ensures visited <= visited' && |queue'| + 1 - |queue| == |visited'| - |visited|
    ensures forall c :: c in visited' ==> InBounds(g, c)
    ensures GoodEntry(g, s, entry, visited, done)
    ensures visited' == visited + FreeAround(g, entry.cell)
    ensures Run(g, t, queue, visited, explored, limit) == Run(g, t, queue', visited', explored + [entry.path], limit)
  {
    visited', queue' := Expand(g, entry.cell, entry.path, visited, rest);
    FrontierStep(g, s, queue, visited, done, queue', visited');
    RunExpanded(g, t, queue, visited, explored, limit, queue', visited');
  }

  /** A turn that dequeues a cell other than the goal and enqueues its fresh neighbours. */
  method Advance(g: Grid, s: Cell, t: Cell, queue: seq<Entry>, visited: set<Cell>, explored: seq<seq<Cell>>,
                 snapshots: seq<set<Cell>>, step: nat, ghost done: set<Cell>, ghost history: seq<set<Cell>>)
    returns (queue': seq<Entry>, visited': set<Cell>, explored': seq<seq<Cell>>, snapshots': seq<set<Cell>>,
             step': nat, ghost done': set<Cell>, ghost history': seq<set<Cell>>)
    requires queue != [] && queue[0].cell != t && step == |explored|
    requires LoopInvariant(g, s, t, queue, visited, done, explored, history, snapshots)
    requires Traced(g, s, explored, history, visited)
    ensures explored' == explored + [queue[0].path] && step' == |explored'|
    ensures LoopInvariant(g, s, t, queue', visited', done', explored', history', snapshots')
    ensures Traced(g, s, explored', history', visited')
    ensures Run(g, t, queue', visited', explored', Rows(g) * Cols(g)) == Run(g, t, queue, visited, explored, Rows(g) * Cols(g))
  {
    var entry, rest;
    entry, rest, explored', snapshots', step', history' := Dequeue(t, queue, visited, explored, snapshots, step, history);
    visited', queue' := ExpandFront(g, s, queue, entry, rest, visited, done, t, explored, Rows(g) * Cols(g));
    done' := done + {entry.cell};
    BookkeepingStep(g, s, queue, visited, done, explored, history, snapshots,
                    queue', visited', done', explored', history', snapshots');
    TraceStep(g, s, explored, history, visited, entry.path, visited');
  }

  /**
   * The breadth-first search from `s` towards `t`: take turns until the goal
   * is dequeued or the queue runs empty.
   */
  method Search(g: Grid, s: Cell, t: Cell)
    returns (route: Option<seq<Cell>>, explored: seq<seq<Cell>>, snapshots: seq<set<Cell>>,
             visited: set<Cell>, ghost history: seq<set<Cell>>)
    requires Free(g, s)
    ensures 1 <= |explored| <= Rows(g) * Cols(g) && explored[0] == [s]
    ensures route.Some? ==> route.value == Last(explored) && route.value != [] && Last(route.value) == t
    ensures route.None? ==> t !in visited
    ensures forall c :: c in visited ==> Free(g, c)
    ensures Outcome(g, s, t, route, explored, snapshots, visited, history)
    ensures TracedOutcome(g, s, route, explored, history, visited)
    ensures (route, explored, visited) == RunFrom(g, s, t)
  {
    var queue := [Entry(s, [s])];
    visited := {s};
    route := None;
    explored := [];
    snapshots := [];
    history := [];
    var step := 0;
    ghost var done: set<Cell> := {};
    LoopStart(g, s, t);
    while queue != []
      invariant LoopInvariant(g, s, t, queue, visited, done, explored, history, snapshots)
      invariant step == |explored|
      invariant Traced(g, s, explored, history, visited)
      invariant Run(g, t, queue, visited, explored, Rows(g) * Cols(g)) == RunFrom(g, s, t)
      decreases Rows(g) * Cols(g) - |explored|
    {
      if queue[0].cell == t {
        route, explored, snapshots, history := Arrive(g, s, t, queue, visited, explored, snapshots, step, done, history);
        return;
      }
      queue, visited, explored, snapshots, step, done, history :=
        Advance(g, s, t, queue, visited, explored, snapshots, step, done, history);
    }
    LoopExhausted(g, s, t, visited, done, explored, history, snapshots);
  }

  // ---------------------------------------------------------------------------
  // Discarded routes

  /** Some cell of `p` is not a cell of the route `r`. */
  predicate LeavesRoute(p: seq<Cell>, r: seq<Cell>) {
    exists i :: 0 <= i < |p| && p[i] !in r
  }

  /**
   * The filter applied to each explored path: with a (non-empty) route, the
   * paths that leave the route's cells and are not the route itself; without
   * one, every path longer than the start alone.
   */
  predicate IsDiscarded(route: Option<seq<Cell>>, p: seq<Cell>) {
    if route.Some? && route.value != [] then LeavesRoute(p, route.value) && p != route.value
    else |p| > 1
  }

  /** The explored paths that the filter keeps, in the order they were explored. */
  function DiscardedRoutes(route: Option<seq<Cell>>, explored: seq<seq<Cell>>): seq<seq<Cell>> {
    if explored == [] then []
    else
      var k := |explored| - 1;
      DiscardedRoutes(route, explored[..k]) + (if IsDiscarded(route, explored[k]) then [explored[k]] else [])
  }

  /** A path is discarded exactly when it was explored and the filter keeps it. */
  lemma {:induction false} DiscardedMembers(route: Option<seq<Cell>>, explored: seq<seq<Cell>>)
    ensures forall p :: p in DiscardedRoutes(route, explored) <==> p in explored && IsDiscarded(route, p)
  {
    if explored != [] {
      var k := |explored| - 1;
      DiscardedMembers(route, explored[..k]);
      assert explored == explored[..k] + [explored[k]];
    }
  }

  /**
   * Filters the explored paths. With a route, each path's cells are scanned
   * until one outside the route turns up, and the path is kept when one did
   * and it is not the route; without a route, the paths longer than one cell
   * are kept.
   */
  method Discard(route: Option<seq<Cell>>, explored: seq<seq<Cell>>) returns (discarded: seq<seq<Cell>>)
    ensures discarded == DiscardedRoutes(route, explored)
  {
    if route.Some? && route.value != [] {
      var routeCells := set c | c in route.value;
      discarded := [];
      for k := 0 to |explored|
        invariant discarded == DiscardedRoutes(route, explored[..k])
      {
        var segment := explored[k];
        var wrong := false;
        var j := 0;
        while j < |segment|
          invariant 0 <= j <= |segment|
          invariant wrong <==> LeavesRoute(segment[..j], route.value)
          invariant wrong ==> LeavesRoute(segment, route.value)
        {
          if segment[j] !in routeCells {
            wrong := true;
            break;
          }
          j := j + 1;
        }
        if wrong && segment != route.value {
          discarded := discarded + [segment];
        }
        assert explored[..k + 1][..k] == explored[..k];
      }
      assert explored[..|explored|] == explored;
    } else {
      discarded := DiscardedRoutes(route, explored);
    }
  }

  /**
   * When every explored path and the route are shortest walks from the start,
   * the discarded paths are exactly the explored paths that are not a prefix
   * of the route: a path whose cells all lie on the route is a prefix of it.
   */
  lemma DiscardedAreDetours(g: Grid, s: Cell, r: seq<Cell>, explored: seq<seq<Cell>>)
    requires Shortest(g, s, r)
    requires forall k :: 0 <= k < |explored| ==> Shortest(g, s, explored[k])
    ensures forall p :: p in DiscardedRoutes(Some(r), explored) <==> p in explored && !(p <= r)
  {
    DiscardedMembers(Some(r), explored);
    forall p | p in explored ensures IsDiscarded(Some(r), p) <==> !(p <= r) {
      if p <= r {
        assert forall i :: 0 <= i < |p| ==> p[i] == r[i];
      } else if !LeavesRoute(p, r) {
        ShortestWithinIsPrefix(g, s, p, r);
      }
    }
  }

  // ---------------------------------------------------------------------------
  // The whole route finder

  /** A route exactly when the goal can be reached, and then a shortest simple walk from `s` to `t`. */
  ghost predicate RouteFound(g: Grid, s: Cell, t: Cell, route: Option<seq<Cell>>) {
    && (route.Some? <==> Connected(g, s, t))
    && (route.Some? ==> IsSimpleWalk(g, route.value, s) && Last(route.value) == t && Shortest(g, s, route.value))
  }

  /**
   * The explored paths: at most one per cell of the map, the start alone
   * first, shortest simple walks from `s` in order of length, with distinct
   * ends; with a route, the route is the last of them, no earlier one ends at
   * the goal, and they end at every cell closer than the goal; without one,
   * they end at exactly the visited cells, where every walk from `s` stays.
   * The route, the explored paths and the final visited set are those of
   * the run `RunFrom`.
   */
  ghost predicate ExploredPaths(g: Grid, s: Cell, t: Cell, route: Option<seq<Cell>>, explored: seq<seq<Cell>>,
                                visited: set<Cell>)
  {
    && 1 <= |explored| <= Rows(g) * Cols(g)
    && explored[0] == [s]
    && (forall k :: 0 <= k < |explored| ==> IsSimpleWalk(g, explored[k], s) && Shortest(g, s, explored[k]))
    && (forall k, l :: 0 <= k < l < |explored| ==>
          Last(explored[k]) != Last(explored[l]) && |explored[k]| <= |explored[l]|)
    && (route.Some? ==> route.value == Last(explored))
    && (forall k :: 0 <= k < |explored| - 1 ==> Last(explored[k]) != t)
    && (route.Some? ==> forall p, c :: WalkTo(g, p, s, c) && |p| < |route.value| ==> c in Ends(explored))
    && (route.None? ==> visited == Ends(explored))
    && (route.None? ==> forall p :: IsWalk(g, p, s) ==> forall i :: 0 <= i < |p| ==> p[i] in visited)
    && (forall c :: c in visited ==> Free(g, c))
    && (route, explored, visited) == RunFrom(g, s, t)
  }

  /**
   * The outputs built from the explored paths: the discarded paths are the
   * filter's, which with a route leaves out exactly its prefixes; the
   * visited set at each dequeue is the start plus the free neighbours of the
   * ends of the paths expanded before it; the snapshots are the visited sets
   * the schedule picks, grow and lie inside the final visited set, which, at
   * the goal, is the last of them.
   */
  ghost predicate Outputs(g: Grid, s: Cell, result: SearchResult, explored: seq<seq<Cell>>,
                          history: seq<set<Cell>>, visited: set<Cell>)
  {
    && TracedOutcome(g, s, result.route, explored, history, visited)
    && result.discarded == DiscardedRoutes(result.route, explored)
    && (result.route.Some? ==>
          forall p :: p in result.discarded <==> p in explored && !(p <= result.route.value))
    && result.snapshots == Schedule(history, result.route.Some?)
    && result.snapshots != []
    && IsChain(result.snapshots)
    && (forall k :: 0 <= k < |result.snapshots| ==> result.snapshots[k] <= visited)
    && (result.route.Some? ==> Last(result.snapshots) == visited)
  }

  /** What the route finder promises once the start `s` and the goal `t` are known. */
  ghost predicate Solved(g: Grid, s: Cell, t: Cell, result: SearchResult, explored: seq<seq<Cell>>,
                         history: seq<set<Cell>>, visited: set<Cell>)
  {
    && RouteFound(g, s, t, result.route)
    && ExploredPaths(g, s, t, result.route, explored, visited)
    && Outputs(g, s, result, explored, history, visited)
  }

  /** The snapshots of a growing history inside `visited` grow, lie inside `visited` and, at the goal, end with it. */
  lemma SnapshotsWithin(history: seq<set<Cell>>, reached: bool, visited: set<Cell>)
    requires history != [] && HistoryWithin(history, visited)
    requires reached ==> Last(history) == visited
    ensures var snapshots := Schedule(history, reached);
      && snapshots != [] && IsChain(snapshots)
      && (forall k :: 0 <= k < |snapshots| ==> snapshots[k] <= visited)
      && (reached ==> Last(snapshots) == visited)
  {
    ScheduleChain(history, reached);
    ScheduleCount(history, reached);
    ScheduleElements(history, reached);
    var snapshots := Schedule(history, reached);
    forall k | 0 <= k < |snapshots| ensures snapshots[k] <= visited {
      assert snapshots[k] in Schedule(history, reached);
    }
  }

  lemma OutcomeSolved(g: Grid, s: Cell, t: Cell, route: Option<seq<Cell>>, explored: seq<seq<Cell>>,
                      snapshots: seq<set<Cell>>, visited: set<Cell>, history: seq<set<Cell>>,
                      discarded: seq<seq<Cell>>)
    requires Outcome(g, s, t, route, explored, snapshots, visited, history)
    requires TracedOutcome(g, s, route, explored, history, visited)
    requires (route, explored, visited) == RunFrom(g, s, t)
    requires discarded == DiscardedRoutes(route, explored)
    ensures Solved(g, s, t, SearchResult(route, discarded, g, snapshots), explored, history, visited)
  {
    assert forall k :: 0 <= k < |explored| ==> Shortest(g, s, explored[k]);
    if route.Some? {
      assert Shortest(g, s, explored[|explored| - 1]);
      assert WalkTo(g, route.value, s, t);
      DiscardedAreDetours(g, s, route.value, explored);
    }
    SnapshotsWithin(history, route.Some?, visited);
  }

  /**
   * The route finder: locate the start and the goal, and when both are on the
   * map, search, then filter the explored paths.
   */
  method FindBestRoute(g: Grid) returns (result: SearchResult, ghost explored: seq<seq<Cell>>,
                                         ghost history: seq<set<Cell>>, ghost visited: set<Cell>)
    requires |g| > 0
    ensures result.grid == g
    ensures !(HasMarker(g, Start) && HasMarker(g, Goal)) ==> result == SearchResult(None, [], g, [])
    ensures HasMarker(g, Start) && HasMarker(g, Goal) ==>
              exists s, t :: IsLastMarker(g, Start, s) && IsLastMarker(g, Goal, t)
    ensures forall s, t :: IsLastMarker(g, Start, s) && IsLastMarker(g, Goal, t) ==>
              Solved(g, s, t, result, explored, history, visited)
  {
    var start, goal := FindMarkers(g);
    if start.None? || goal.None? {
      return SearchResult(None, [], g, []), [], [], {};
    }
    var s, t := start.value, goal.value;
    var route, segments, snapshots;
    route, segments, snapshots, visited, history := Search(g, s, t);
    var discarded := Discard(route, segments);
    result := SearchResult(route, discarded, g, snapshots);
    explored := segments;
    OutcomeSolved(g, s, t, route, explored, snapshots, visited, history, discarded);
    forall s', t' | IsLastMarker(g, Start, s') && IsLastMarker(g, Goal, t')
      ensures Solved(g, s', t', result, explored, history, visited)
    {
      LastMarkerUnique(g, Start, s', s);
      LastMarkerUnique(g, Goal, t', t);
    }
  }
}
