/**
 * The integer matrices behind the two map pictures: one cell class per map
 * cell. A snapshot picture classes each cell as free (0), blocked (1), start
 * (2), goal (3) or explored (4). The final picture first classes every cell
 * from its marker alone, then paints explored free cells as discarded (5),
 * and last paints the route (4) over free and discarded cells.
 */
module MapMatrices {
  import opened Grids

  const FreeClass := 0
  const BlockedClass := 1
  const StartClass := 2
  const GoalClass := 3
  /** In a snapshot: explored so far. In the final picture: on the route. */
  const ExploredClass := 4
  const RouteClass := 4
  const DiscardedClass := 5

  // ---------------------------------------------------------------------------
  // Snapshot picture

  /** The class of `p` in a snapshot: blocked first, then start, then goal, then visited. */
  function SnapshotClass(g: Grid, visited: set<Cell>, start: Option<Cell>, goal: Option<Cell>, p: Cell): (k: int)
    requires InBounds(g, p)
    ensures FreeClass <= k <= ExploredClass
  {
    if At(g, p) == Blocked then BlockedClass
    else if start == Some(p) then StartClass
    else if goal == Some(p) then GoalClass
    else if p in visited then ExploredClass
    else FreeClass
  }

  /** Each snapshot class holds exactly when its condition holds and no earlier one does. */
  lemma SnapshotClassCases(g: Grid, visited: set<Cell>, start: Option<Cell>, goal: Option<Cell>, p: Cell)
    requires InBounds(g, p)
    ensures var k := SnapshotClass(g, visited, start, goal, p);
      && (k == BlockedClass <==> At(g, p) == Blocked)
      && (k == StartClass <==> At(g, p) != Blocked && start == Some(p))
      && (k == GoalClass <==> At(g, p) != Blocked && start != Some(p) && goal == Some(p))
      && (k == ExploredClass <==> At(g, p) != Blocked && start != Some(p) && goal != Some(p) && p in visited)
      && (k == FreeClass <==> At(g, p) != Blocked && start != Some(p) && goal != Some(p) && p !in visited)
  {
  }

  /** Fills the snapshot matrix row by row. */
  method SnapshotMatrix(g: Grid, visited: set<Cell>, start: Option<Cell>, goal: Option<Cell>)
    returns (m: array2<int>)
    requires Rows(g) > 0
    ensures fresh(m) && m.Length0 == Rows(g) && m.Length1 == Cols(g)
    ensures forall r, c :: 0 <= r < Rows(g) && 0 <= c < Cols(g) ==>
              m[r, c] == SnapshotClass(g, visited, start, goal, (r, c))
  {
    m := new int[Rows(g), Cols(g)];
    for r := 0 to Rows(g)
      invariant forall i, j :: 0 <= i < r && 0 <= j < Cols(g) ==> m[i, j] == SnapshotClass(g, visited, start, goal, (i, j))
    {
      for c := 0 to Cols(g)
        invariant forall i, j :: 0 <= i < r && 0 <= j < Cols(g) ==> m[i, j] == SnapshotClass(g, visited, start, goal, (i, j))
        invariant forall j :: 0 <= j < c ==> m[r, j] == SnapshotClass(g, visited, start, goal, (r, j))
      {
        if g[r][c] == Blocked {
          m[r, c] := BlockedClass;
        } else if start == Some((r, c)) {
          m[r, c] := StartClass;
        } else if goal == Some((r, c)) {
          m[r, c] := GoalClass;
        } else if (r, c) in visited {
          m[r, c] := ExploredClass;
        } else {
          m[r, c] := FreeClass;
        }
      }
    }
  }

  // ---------------------------------------------------------------------------
  // Final picture

  /** The class of `p` from its marker alone: the first pass of the final picture. */
  function MarkerClass(g: Grid, p: Cell): int
    requires InBounds(g, p)
  {
    if At(g, p) == Blocked then BlockedClass
    else if At(g, p) == Start then StartClass
    else if At(g, p) == Goal then GoalClass
    else FreeClass
  }

  /** After the second pass: visited cells still free are painted discarded. */
  function PaintedClass(g: Grid, visited: set<Cell>, p: Cell): int
    requires InBounds(g, p)
  {
    if MarkerClass(g, p) == FreeClass && p in visited then DiscardedClass else MarkerClass(g, p)
  }

  /** After the third pass: route cells that are free or discarded are painted as route. */
  function FinalClass(g: Grid, route: seq<Cell>, visited: set<Cell>, p: Cell): int
    requires InBounds(g, p)
  {
    var k := PaintedClass(g, visited, p);
    if (k == FreeClass || k == DiscardedClass) && p in route then RouteClass else k
  }

  /**
   * The final classes: the markers keep their classes; any other cell is on
   * the route, or else discarded when it was visited, or else free. So the
   * route overrides the discarded paint, and every class is between 0 and 5.
   */
  lemma FinalClassCases(g: Grid, route: seq<Cell>, visited: set<Cell>, p: Cell)
    requires InBounds(g, p)
    ensures var k := FinalClass(g, route, visited, p);
      var marked := At(g, p) == Blocked || At(g, p) == Start || At(g, p) == Goal;
      && FreeClass <= k <= DiscardedClass
      && (k == BlockedClass <==> At(g, p) == Blocked)
      && (k == StartClass <==> At(g, p) == Start)
      && (k == GoalClass <==> At(g, p) == Goal)
      && (k == RouteClass <==> !marked && p in route)
      && (k == DiscardedClass <==> !marked && p !in route && p in visited)
      && (k == FreeClass <==> !marked && p !in route && p !in visited)
  {
  }

  /** First pass: every cell gets the class of its marker. */
  method FillMarkers(g: Grid, m: array2<int>)
    requires m.Length0 == Rows(g) && m.Length1 == Cols(g)
    modifies m
    ensures forall i, j :: 0 <= i < Rows(g) && 0 <= j < Cols(g) ==> m[i, j] == MarkerClass(g, (i, j))
  {
    for r := 0 to Rows(g)
      invariant forall i, j :: 0 <= i < r && 0 <= j < Cols(g) ==> m[i, j] == MarkerClass(g, (i, j))
    {
      for c := 0 to Cols(g)
        invariant forall i, j :: 0 <= i < r && 0 <= j < Cols(g) ==> m[i, j] == MarkerClass(g, (i, j))
        invariant forall j :: 0 <= j < c ==> m[r, j] == MarkerClass(g, (r, j))
      {
        if g[r][c] == Blocked {
          m[r, c] := BlockedClass;
        } else if g[r][c] == Start {
          m[r, c] := StartClass;
        } else if g[r][c] == Goal {
          m[r, c] := GoalClass;
        } else {
          m[r, c] := FreeClass;
        }
      }
    }
  }

  /** Second pass: the visited cells, taken in any order, are painted discarded where still free. */
  method PaintVisited(g: Grid, visited: set<Cell>, m: array2<int>)
    requires forall c :: c in visited ==> InBounds(g, c)
    requires m.Length0 == Rows(g) && m.Length1 == Cols(g)
    requires forall i, j :: 0 <= i < Rows(g) && 0 <= j < Cols(g) ==> m[i, j] == MarkerClass(g, (i, j))
    modifies m
    ensures forall i, j :: 0 <= i < Rows(g) && 0 <= j < Cols(g) ==> m[i, j] == PaintedClass(g, visited, (i, j))
  {
    var rest := visited;
    while rest != {}
      invariant rest <= visited
      invariant forall i, j :: 0 <= i < Rows(g) && 0 <= j < Cols(g) ==>
                  m[i, j] == PaintedClass(g, visited - rest, (i, j))
      decreases |rest|
    {
      var p :| p in rest;
      if m[p.0, p.1] == FreeClass {
        m[p.0, p.1] := DiscardedClass;
      }
      rest := rest - {p};
    }
    assert visited - rest == visited;
  }

  /** Third pass: the route cells, in route order, are painted as route where free or discarded. */
  method PaintRoute(g: Grid, route: seq<Cell>, visited: set<Cell>, m: array2<int>)
    requires forall i :: 0 <= i < |route| ==> InBounds(g, route[i])
    requires m.Length0 == Rows(g) && m.Length1 == Cols(g)
    requires forall i, j :: 0 <= i < Rows(g) && 0 <= j < Cols(g) ==> m[i, j] == PaintedClass(g, visited, (i, j))
    modifies m
    ensures forall i, j :: 0 <= i < Rows(g) && 0 <= j < Cols(g) ==> m[i, j] == FinalClass(g, route, visited, (i, j))
  {
    for k := 0 to |route|
      invariant forall i, j :: 0 <= i < Rows(g) && 0 <= j < Cols(g) ==>
                  m[i, j] == FinalClass(g, route[..k], visited, (i, j))
    {
      var (r, c) := route[k];
      if m[r, c] == FreeClass || m[r, c] == DiscardedClass {
        m[r, c] := RouteClass;
      }
      assert route[..k + 1] == route[..k] + [route[k]];
    }
    assert route[..|route|] == route;
  }

  /**
   * Fills the final matrix in three passes: classes from the markers, then the
   * discarded paint over free visited cells, then the route paint over free
   * and discarded cells. The list of discarded routes is accepted and not
   * used: the discarded paint comes from the visited cells.
   */
  method FinalMatrix(g: Grid, route: seq<Cell>, discarded: seq<seq<Cell>>, visited: set<Cell>)
    returns (m: array2<int>)
    requires Rows(g) > 0
    requires forall c :: c in visited ==> InBounds(g, c)
    requires forall i :: 0 <= i < |route| ==> InBounds(g, route[i])
    ensures fresh(m) && m.Length0 == Rows(g) && m.Length1 == Cols(g)
    ensures forall r, c :: 0 <= r < Rows(g) && 0 <= c < Cols(g) ==> m[r, c] == FinalClass(g, route, visited, (r, c))
  {
    m := new int[Rows(g), Cols(g)];
    FillMarkers(g, m);
    if visited != {} {
      PaintVisited(g, visited, m);
    } else {
      assert forall i, j :: 0 <= i < Rows(g) && 0 <= j < Cols(g) ==> MarkerClass(g, (i, j)) == PaintedClass(g, visited, (i, j));
    }
    if route != [] {
      PaintRoute(g, route, visited, m);
    }
  }
}
