/**
 * Two small maps worked through turn by turn. On each, the promise of the
 * route finder leaves exactly one explored list, one discarded list and one
 * list of snapshots: the ones the breadth-first loop produces.
 */
module SampleRuns {
  import opened Grids
  import opened RouteFinder

  /**
   * `E S` over ` #`: the start, the goal to its right, and a free cell below
   * the start. The cell below is tried before the one to the right.
   */
  predicate IsDetourMap(g: Grid, s: Cell, t: Cell) {
    g == [['E', 'S'], [' ', '#']] && s == (0, 0) && t == (0, 1)
  }

  /** First turn: the start enqueues the cell below it, then the goal. */
  lemma DetourFirstTurn(g: Grid, s: Cell, t: Cell)
    requires IsDetourMap(g, s, t)
    ensures Run(g, t, [Entry(s, [s])], {s}, [], 4)
         == Run(g, t, [Entry((1, 0), [s, (1, 0)]), Entry(t, [s, t])], {s, (1, 0), t}, [[s]], 4)
  {
    var v := {s};
    assert Neighbours(s) == [(-1, 0), (1, 0), (0, -1), (0, 1)];
    assert FreshNeighbours(g, s, v, 1) == [];
    assert Opens(g, v, (1, 0));
    assert FreshNeighbours(g, s, v, 2) == [(1, 0)];
    assert FreshNeighbours(g, s, v, 3) == [(1, 0)];
    assert Opens(g, v, t);
    assert FreshNeighbours(g, s, v, |Directions|) == [(1, 0), t];
    assert FreeAround(g, s) == {(1, 0), t};
    var queue := [Entry((1, 0), [s, (1, 0)]), Entry(t, [s, t])];
    NewEntriesAt([s], [(1, 0), t]);
    var es := NewEntries([s], [(1, 0), t]);
    assert es[0] == queue[0] && es[1] == queue[1];
    assert [Entry(s, [s])][1..] + es == queue;
    RunTurn(g, t, [Entry(s, [s])], v, [], 4, queue, {s, (1, 0), t});
    assert [] + [[s]] == [[s]];
  }

  /** Second turn: the cell below the start opens nothing. */
  lemma DetourSecondTurn(g: Grid, s: Cell, t: Cell)
    requires IsDetourMap(g, s, t)
    ensures Run(g, t, [Entry((1, 0), [s, (1, 0)]), Entry(t, [s, t])], {s, (1, 0), t}, [[s]], 4)
         == Run(g, t, [Entry(t, [s, t])], {s, (1, 0), t}, [[s], [s, (1, 0)]], 4)
  {
    var queue := [Entry((1, 0), [s, (1, 0)]), Entry(t, [s, t])];
    var v := {s, (1, 0), t};
    assert Neighbours((1, 0)) == [(0, 0), (2, 0), (1, -1), (1, 1)];
    assert !Opens(g, v, (0, 0)) && !Opens(g, v, (2, 0)) && !Opens(g, v, (1, -1)) && !Opens(g, v, (1, 1));
    assert FreshNeighbours(g, (1, 0), v, 1) == [];
    assert FreshNeighbours(g, (1, 0), v, 2) == [];
    assert FreshNeighbours(g, (1, 0), v, 3) == [];
    assert FreshNeighbours(g, (1, 0), v, |Directions|) == [];
    assert FreeAround(g, (1, 0)) == {(0, 0)};
    assert queue[1..] + NewEntries([s, (1, 0)], []) == [Entry(t, [s, t])];
    RunTurn(g, t, queue, v, [[s]], 4, [Entry(t, [s, t])], v);
    assert [[s]] + [[s, (1, 0)]] == [[s], [s, (1, 0)]];
  }

  /** The third turn dequeues the goal: three paths were explored, the detour among them. */
  lemma DetourRun(g: Grid, s: Cell, t: Cell)
    requires IsDetourMap(g, s, t)
    ensures RunFrom(g, s, t) == (Some([s, t]), [[s], [s, (1, 0)], [s, t]], {s, (1, 0), t})
  {
    DetourFirstTurn(g, s, t);
    DetourSecondTurn(g, s, t);
    var ex := [[s], [s, (1, 0)]];
    assert ex + [[s, t]] == [[s], [s, (1, 0)], [s, t]];
    assert Run(g, t, [Entry(t, [s, t])], {s, (1, 0), t}, ex, 4) == (Some([s, t]), ex + [[s, t]], {s, (1, 0), t});
    assert Rows(g) * Cols(g) == 4;
  }

  /**
   * On the detour map, the run and the outputs built from it give the route
   * `[s, t]`, the detour as the one discarded path, and two snapshots.
   */
  lemma DetourResult(g: Grid, s: Cell, t: Cell, result: SearchResult, explored: seq<seq<Cell>>,
                     history: seq<set<Cell>>, visited: set<Cell>)
    requires IsDetourMap(g, s, t)
    requires (result.route, explored, visited) == RunFrom(g, s, t)
    requires |history| == |explored| && forall k :: 0 <= k < |history| ==> history[k] == Reached(g, s, explored[..k])
    requires result.discarded == DiscardedRoutes(result.route, explored)
    requires result.snapshots == Schedule(history, result.route.Some?)
    ensures result.route == Some([s, t]) && result.discarded == [[s, (1, 0)]]
    ensures result.snapshots == [{s}, {s, (1, 0), t}]
  {
    DetourRun(g, s, t);
    var ex := [[s], [s, (1, 0)], [s, t]];
    assert explored == ex;
    var v := {s, (1, 0), t};
    assert ex[..0] == [] && ex[..1] == [[s]] && ex[..2] == [[s], [s, (1, 0)]];
    DetourReached(g, s, t);
    assert history == [{s}, v, v];
    DetourSchedule(s, v);
    DetourDiscarded(s, t);
  }

  /** The visited sets at the three dequeues of the detour map. */
  lemma DetourReached(g: Grid, s: Cell, t: Cell)
    requires IsDetourMap(g, s, t)
    ensures Reached(g, s, []) == {s}
    ensures Reached(g, s, [[s]]) == {s, (1, 0), t}
    ensures Reached(g, s, [[s], [s, (1, 0)]]) == {s, (1, 0), t}
  {
    assert Neighbours(s) == [(-1, 0), (1, 0), (0, -1), (0, 1)];
    assert !Free(g, (-1, 0)) && Free(g, (1, 0)) && !Free(g, (0, -1)) && Free(g, t);
    assert FreeAround(g, s) == {(1, 0), t};
    assert [[s]][..0] == [];
    assert Neighbours((1, 0)) == [(0, 0), (2, 0), (1, -1), (1, 1)];
    assert Free(g, (0, 0)) && !Free(g, (2, 0)) && !Free(g, (1, -1)) && !Free(g, (1, 1));
    assert FreeAround(g, (1, 0)) == {s};
    assert [[s], [s, (1, 0)]][..1] == [[s]];
  }

  /** The snapshots at the three dequeues of the detour map: the first step and the goal. */
  lemma DetourSchedule(s: Cell, v: set<Cell>)
    ensures Schedule([{s}, v, v], true) == [{s}, v]
  {
    assert [{s}][..0] == [];
    assert Schedule([{s}], false) == [{s}];
    assert [{s}, v][..1] == [{s}];
    assert Schedule([{s}, v], false) == [{s}];
    assert [{s}, v, v][..2] == [{s}, v];
  }

  /** The filter on the detour map keeps only the detour. */
  lemma DetourDiscarded(s: Cell, t: Cell)
    requires s == (0, 0) && t == (0, 1)
    ensures DiscardedRoutes(Some([s, t]), [[s], [s, (1, 0)], [s, t]]) == [[s, (1, 0)]]
  {
    var r := Some([s, t]);
    assert !LeavesRoute([s], [s, t]);
    assert LeavesRoute([s, (1, 0)], [s, t]) by {
      assert [s, (1, 0)][1] !in [s, t];
    }
    assert [[s]][..0] == [];
    assert DiscardedRoutes(r, [[s]]) == [];
    assert [[s], [s, (1, 0)]][..1] == [[s]];
    assert DiscardedRoutes(r, [[s], [s, (1, 0)]]) == [[s, (1, 0)]];
    assert [[s], [s, (1, 0)], [s, t]][..2] == [[s], [s, (1, 0)]];
  }

  /** `E  #S`: one row, the goal walled off behind a blocked cell. */
  predicate IsDeadEndMap(g: Grid, s: Cell, t: Cell) {
    g == [['E', ' ', '#', 'S']] && s == (0, 0) && t == (0, 3)
  }

  /** First turn: the start opens only the cell to its right. */
  lemma DeadEndFirstTurn(g: Grid, s: Cell, t: Cell)
    requires IsDeadEndMap(g, s, t)
    ensures Run(g, t, [Entry(s, [s])], {s}, [], 4) == Run(g, t, [Entry((0, 1), [s, (0, 1)])], {s, (0, 1)}, [[s]], 4)
  {
    var v := {s};
    assert Neighbours(s) == [(-1, 0), (1, 0), (0, -1), (0, 1)];
    assert !Opens(g, v, (-1, 0)) && !Opens(g, v, (1, 0)) && !Opens(g, v, (0, -1));
    assert FreshNeighbours(g, s, v, 1) == [];
    assert FreshNeighbours(g, s, v, 2) == [];
    assert FreshNeighbours(g, s, v, 3) == [];
    assert Opens(g, v, (0, 1));
    assert FreshNeighbours(g, s, v, |Directions|) == [(0, 1)];
    assert FreeAround(g, s) == {(0, 1)};
    var queue := [Entry((0, 1), [s, (0, 1)])];
    NewEntriesAt([s], [(0, 1)]);
    assert [Entry(s, [s])][1..] == [];
    assert NewEntries([s], [(0, 1)])[0] == queue[0];
    assert [Entry(s, [s])][1..] + NewEntries([s], [(0, 1)]) == queue;
    RunTurn(g, t, [Entry(s, [s])], v, [], 4, queue, {s, (0, 1)});
    assert [] + [[s]] == [[s]];
  }

  /** Second turn: the cell to the right of the start opens nothing, and the queue runs empty. */
  lemma DeadEndSecondTurn(g: Grid, s: Cell, t: Cell)
    requires IsDeadEndMap(g, s, t)
    ensures Run(g, t, [Entry((0, 1), [s, (0, 1)])], {s, (0, 1)}, [[s]], 4) == (None, [[s], [s, (0, 1)]], {s, (0, 1)})
  {
    var queue := [Entry((0, 1), [s, (0, 1)])];
    var v := {s, (0, 1)};
    assert Neighbours((0, 1)) == [(-1, 1), (1, 1), (0, 0), (0, 2)];
    assert !Opens(g, v, (-1, 1)) && !Opens(g, v, (1, 1)) && !Opens(g, v, (0, 0)) && !Opens(g, v, (0, 2));
    assert FreshNeighbours(g, (0, 1), v, 1) == [];
    assert FreshNeighbours(g, (0, 1), v, 2) == [];
    assert FreshNeighbours(g, (0, 1), v, 3) == [];
    assert FreshNeighbours(g, (0, 1), v, |Directions|) == [];
    assert FreeAround(g, (0, 1)) == {s};
    assert queue[1..] + NewEntries([s, (0, 1)], []) == [];
    RunTurn(g, t, queue, v, [[s]], 4, [], v);
    assert [[s]] + [[s, (0, 1)]] == [[s], [s, (0, 1)]];
  }

  /** After two turns the queue runs empty: no route, and two explored paths. */
  lemma DeadEndRun(g: Grid, s: Cell, t: Cell)
    requires IsDeadEndMap(g, s, t)
    ensures RunFrom(g, s, t) == (None, [[s], [s, (0, 1)]], {s, (0, 1)})
  {
    assert Rows(g) * Cols(g) == 4;
    assert RunFrom(g, s, t) == Run(g, t, [Entry(s, [s])], {s}, [], 4);
    DeadEndFirstTurn(g, s, t);
    DeadEndSecondTurn(g, s, t);
  }

  /**
   * On the dead-end map, the run and the outputs built from it give no route,
   * the one step taken as the one discarded path, and one snapshot.
   */
  lemma DeadEndResult(g: Grid, s: Cell, t: Cell, result: SearchResult, explored: seq<seq<Cell>>,
                      history: seq<set<Cell>>, visited: set<Cell>)
    requires IsDeadEndMap(g, s, t)
    requires (result.route, explored, visited) == RunFrom(g, s, t)
    requires |history| == |explored| && forall k :: 0 <= k < |history| ==> history[k] == Reached(g, s, explored[..k])
    requires result.discarded == DiscardedRoutes(result.route, explored)
    requires result.snapshots == Schedule(history, result.route.Some?)
    ensures result.route == None && result.discarded == [[s, (0, 1)]]
    ensures result.snapshots == [{s}]
  {
    DeadEndRun(g, s, t);
    var ex := [[s], [s, (0, 1)]];
    assert explored == ex;
    assert ex[..1] == [[s]] && ex[..1][..0] == [];
    assert DiscardedRoutes(None, [[s]]) == [];
    var h0 := history[0];
    assert history == [h0, history[1]];
    assert [h0][..0] == [];
    assert Schedule([h0], false) == [h0];
    assert [h0, history[1]][..1] == [h0];
    assert history[0] == Reached(g, s, explored[..0]) == {s};
  }

  /** Whatever the route finder returns on the detour map, it is the one the breadth-first loop produces. */
  lemma DetourSolved(g: Grid, s: Cell, t: Cell, result: SearchResult, explored: seq<seq<Cell>>,
                     history: seq<set<Cell>>, visited: set<Cell>)
    requires IsDetourMap(g, s, t) && Solved(g, s, t, result, explored, history, visited)
    ensures result.route == Some([s, t]) && result.discarded == [[s, (1, 0)]]
    ensures result.snapshots == [{s}, {s, (1, 0), t}]
  {
    DetourResult(g, s, t, result, explored, history, visited);
  }

  /** Whatever the route finder returns on the dead-end map, it is the one the breadth-first loop produces. */
  lemma DeadEndSolved(g: Grid, s: Cell, t: Cell, result: SearchResult, explored: seq<seq<Cell>>,
                      history: seq<set<Cell>>, visited: set<Cell>)
    requires IsDeadEndMap(g, s, t) && Solved(g, s, t, result, explored, history, visited)
    ensures result.route == None && result.discarded == [[s, (0, 1)]]
    ensures result.snapshots == [{s}]
  {
    DeadEndResult(g, s, t, result, explored, history, visited);
  }
}
