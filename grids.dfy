/**
 * The city map: a rectangular grid of one-character markers, the cells of
 * that grid, the four moves between neighbouring cells, and walks made of
 * such moves. The facts about walks proved here are what the route finder
 * needs to show that breadth-first search returns a shortest route.
 */
module Grids {

  datatype Option<T> = None | Some(value: T)

  /** A cell coordinate: (row, column), both counted from 0. */
  type Cell = (int, int)

  predicate IsRectangular(g: seq<seq<char>>) {
    forall i :: 0 <= i < |g| ==> |g[i]| == |g[0]|
  }

  /** A map: rows of markers, every row as long as the first one. */
  type Grid = g: seq<seq<char>> | IsRectangular(g)

  const Blocked := '#'
  const Start := 'E'
  const Goal := 'S'

  function Rows(g: Grid): nat { |g| }

  /** The width of the map, taken from its first row. */
  function Cols(g: Grid): nat { if |g| == 0 then 0 else |g[0]| }

  predicate InBounds(g: Grid, c: Cell) {
    0 <= c.0 < Rows(g) && 0 <= c.1 < Cols(g)
  }

  function At(g: Grid, c: Cell): char
    requires InBounds(g, c)
  {
    g[c.0][c.1]
  }

  /** A cell a route may use: on the map and not a congestion marker. */
  predicate Free(g: Grid, c: Cell) {
    InBounds(g, c) && At(g, c) != Blocked
  }

  /** The moves tried from every cell, in this order: row - 1, row + 1, column - 1, column + 1. */
  const Directions: seq<(int, int)> := [(-1, 0), (1, 0), (0, -1), (0, 1)]

  function Move(c: Cell, d: (int, int)): Cell {
    (c.0 + d.0, c.1 + d.1)
  }

  /** The four cells one move away from `c`, in the order of `Directions`. */
  function Neighbours(c: Cell): seq<Cell> {
    [Move(c, Directions[0]), Move(c, Directions[1]), Move(c, Directions[2]), Move(c, Directions[3])]
  }

  predicate Adjacent(a: Cell, b: Cell) {
    b in Neighbours(a)
  }

  function Last<T>(p: seq<T>): T
    requires p != []
  {
    p[|p| - 1]
  }

  /** `p` starts at `s`, uses only free cells and makes one move per step. */
  predicate IsWalk(g: Grid, p: seq<Cell>, s: Cell) {
    && p != []
    && p[0] == s
    && (forall i :: 0 <= i < |p| ==> Free(g, p[i]))
    && (forall i :: 0 < i < |p| ==> Adjacent(p[i - 1], p[i]))
  }

  predicate Distinct<T(==)>(p: seq<T>) {
    forall i, j :: 0 <= i < j < |p| ==> p[i] != p[j]
  }

  /** A walk that never comes back to a cell it has already used. */
  predicate IsSimpleWalk(g: Grid, p: seq<Cell>, s: Cell) {
    IsWalk(g, p, s) && Distinct(p)
  }

  /** `p` is a walk from `s` that ends at `t`. */
  predicate WalkTo(g: Grid, p: seq<Cell>, s: Cell, t: Cell) {
    IsWalk(g, p, s) && Last(p) == t
  }

  /** `p` is a walk from `s` and no walk from `s` to the same cell has fewer cells. */
  ghost predicate Shortest(g: Grid, s: Cell, p: seq<Cell>) {
    IsWalk(g, p, s) && forall q :: WalkTo(g, q, s, Last(p)) ==> |p| <= |q|
  }

  ghost predicate Connected(g: Grid, s: Cell, t: Cell) {
    exists p :: WalkTo(g, p, s, t)
  }

  /** Every free cell next to a cell of `inner` belongs to `outer`. */
  ghost predicate Closed(g: Grid, inner: set<Cell>, outer: set<Cell>) {
    forall x, y :: x in inner && Free(g, y) && Adjacent(x, y) ==> y in outer
  }

  lemma WalkPrefix(g: Grid, p: seq<Cell>, s: Cell, n: nat)
    requires IsWalk(g, p, s) && 0 < n <= |p|
    ensures IsWalk(g, p[..n], s) && Last(p[..n]) == p[n - 1]
  {
  }

  lemma WalkExtend(g: Grid, p: seq<Cell>, s: Cell, y: Cell)
    requires IsWalk(g, p, s) && Free(g, y) && Adjacent(Last(p), y)
    ensures IsWalk(g, p + [y], s) && Last(p + [y]) == y
  {
    var q := p + [y];
    forall i | 0 < i < |q| ensures Adjacent(q[i - 1], q[i]) {
      if i < |p| {
        assert q[i - 1] == p[i - 1] && q[i] == p[i];
      }
    }
  }

  /** Replacing the part of `p` up to `p[i]` by another walk `q` to `p[i]` gives a walk to the end of `p`. */
  lemma WalkSplice(g: Grid, s: Cell, p: seq<Cell>, i: nat, q: seq<Cell>)
    requires IsWalk(g, p, s) && i < |p|
    requires IsWalk(g, q, s) && Last(q) == p[i]
    ensures IsWalk(g, q + p[i + 1..], s)
    ensures Last(q + p[i + 1..]) == Last(p)
    ensures |q + p[i + 1..]| == |q| + |p| - i - 1
  {
    var w := q + p[i + 1..];
    forall k | 0 <= k < |w| ensures Free(g, w[k]) {
      if k >= |q| {
        assert w[k] == p[k - |q| + i + 1];
      }
    }
    forall k | 0 < k < |w| ensures Adjacent(w[k - 1], w[k]) {
      if k < |q| {
        assert w[k - 1] == q[k - 1] && w[k] == q[k];
      } else if k == |q| {
        assert w[k - 1] == p[i] && w[k] == p[i + 1];
      } else {
        assert w[k - 1] == p[k - 1 - |q| + i + 1] && w[k] == p[k - |q| + i + 1];
      }
    }
  }

  /** Every prefix of a shortest walk is itself a shortest walk to the cell where it stops. */
  lemma ShortestPrefix(g: Grid, s: Cell, p: seq<Cell>, n: nat)
    requires Shortest(g, s, p) && 0 < n <= |p|
    ensures Shortest(g, s, p[..n])
  {
    WalkPrefix(g, p, s, n);
    forall q | WalkTo(g, q, s, Last(p[..n])) ensures n <= |q| {
      WalkSplice(g, s, p, n - 1, q);
      assert WalkTo(g, q + p[n..], s, Last(p));
    }
  }

  /** A cell met by two shortest walks from the same start sits at the same position in both. */
  lemma ShortestSamePosition(g: Grid, s: Cell, p: seq<Cell>, r: seq<Cell>, i: nat, k: nat)
    requires Shortest(g, s, p) && Shortest(g, s, r)
    requires i < |p| && k < |r| && p[i] == r[k]
    ensures i == k
  {
    ShortestPrefix(g, s, p, i + 1);
    ShortestPrefix(g, s, r, k + 1);
    assert WalkTo(g, r[..k + 1], s, Last(p[..i + 1]));
    assert WalkTo(g, p[..i + 1], s, Last(r[..k + 1]));
  }

  /**
   * A shortest walk whose cells all lie on another shortest walk `r` from the
   * same start is a prefix of `r`: the cell at position i of a shortest walk
   * is exactly i moves away from the start.
   */
  lemma ShortestWithinIsPrefix(g: Grid, s: Cell, p: seq<Cell>, r: seq<Cell>)
    requires Shortest(g, s, p) && Shortest(g, s, r)
    requires forall i :: 0 <= i < |p| ==> p[i] in r
    ensures p <= r
  {
    forall i | 0 <= i < |p| ensures i < |r| && p[i] == r[i] {
      var k :| 0 <= k < |r| && r[k] == p[i];
      ShortestSamePosition(g, s, p, r, i, k);
    }
  }

  /** Inside a closed set that holds the start, every walk stays in the set. */
  lemma {:induction false} ClosedWalkStaysInside(g: Grid, s: Cell, inside: set<Cell>, p: seq<Cell>)
    requires s in inside && Closed(g, inside, inside)
    requires IsWalk(g, p, s)
    ensures forall i :: 0 <= i < |p| ==> p[i] in inside
    decreases |p|
  {
    if |p| > 1 {
      var n := |p| - 1;
      WalkPrefix(g, p, s, n);
      ClosedWalkStaysInside(g, s, inside, p[..n]);
      assert p[n - 1] == p[..n][n - 1];
      assert Adjacent(p[n - 1], p[n]);
    }
  }

  /** All coordinates of a `rows` by `cols` map. */
  function CellsOf(rows: nat, cols: nat): set<Cell> {
    set r, c | 0 <= r < rows && 0 <= c < cols :: (r, c)
  }

  function RowCells(r: int, cols: nat): set<Cell> {
    set c | 0 <= c < cols :: (r, c)
  }

  lemma {:induction false} RowCellsCount(r: int, cols: nat)
    ensures |RowCells(r, cols)| == cols
  {
    if cols > 0 {
      RowCellsCount(r, cols - 1);
      assert RowCells(r, cols) == RowCells(r, cols - 1) + {(r, cols - 1)};
    }
  }

  /** The cells of a map with one more row are those of the smaller map plus the new row. */
  lemma CellsOfSplit(rows: nat, cols: nat)
    requires rows > 0
    ensures CellsOf(rows, cols) == CellsOf(rows - 1, cols) + RowCells(rows - 1, cols)
    ensures CellsOf(rows - 1, cols) !! RowCells(rows - 1, cols)
  {
    forall x | x in CellsOf(rows, cols) ensures x in CellsOf(rows - 1, cols) + RowCells(rows - 1, cols) {
      if x.0 < rows - 1 {
        assert x in CellsOf(rows - 1, cols);
      } else {
        assert x in RowCells(rows - 1, cols);
      }
    }
  }

  lemma {:induction false} CellsOfCount(rows: nat, cols: nat)
    ensures |CellsOf(rows, cols)| == rows * cols
  {
    if rows > 0 {
      CellsOfCount(rows - 1, cols);
      RowCellsCount(rows - 1, cols);
      CellsOfSplit(rows, cols);
      assert (rows - 1) * cols + cols == rows * cols;
    }
  }

  lemma {:induction false} SubsetCard<T>(a: set<T>, b: set<T>)
    requires a <= b
    ensures |a| <= |b|
    decreases |a|
  {
    if a != {} {
      var x :| x in a;
      SubsetCard(a - {x}, b - {x});
    }
  }

  /** A set of cells all on the map has at most rows * columns members. */
  lemma CellsOnMapBound(g: Grid, cells: set<Cell>)
    requires forall c :: c in cells ==> InBounds(g, c)
    ensures |cells| <= Rows(g) * Cols(g)
  {
    SubsetCard(cells, CellsOf(Rows(g), Cols(g)));
    CellsOfCount(Rows(g), Cols(g));
  }
}
