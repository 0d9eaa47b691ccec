/** Properties of whole searches on particular grids: any obstacle-free
    grid, and two small example grids, one that forces a detour and one that
    cuts the corners apart. */
module Scenarios {
  import opened Wrappers
  import opened Nodes
  import opened Grid
  import opened Search

  /** No cell of the grid holds the obstacle marker. */
  predicate NoObstacles(pf: Pathfinder)
    requires pf.Valid()
  {
    forall r, c :: 0 <= r < |pf.grid| && 0 <= c < |pf.grid[r]| ==> pf.grid[r][c] != pf.obstacleValue
  }

  /** One move from `a` towards `b`, rows first. */
  function TowardStep(a: Cell, b: Cell): (n: Cell)
    requires a != b
    ensures Adjacent(a, n) && Manhattan(n, b) == Manhattan(a, b) - 1
  {
    var n :=
      if a.row < b.row then Cell(a.row + 1, a.col)
      else if a.row > b.row then Cell(a.row - 1, a.col)
      else if a.col < b.col then Cell(a.row, a.col + 1)
      else Cell(a.row, a.col - 1);
    UnitDistanceIsAdjacent(a, n);
    n
  }

  /** On an obstacle-free grid a staircase walk joins any two cells in
      exactly their Manhattan distance of moves. */
  lemma {:induction false} OpenGridDirectWalk(pf: Pathfinder, a: Cell, b: Cell) returns (w: seq<Cell>)
    requires pf.Valid() && NoObstacles(pf)
    requires !OutOfBounds(pf, a.row, a.col) && !OutOfBounds(pf, b.row, b.col)
    ensures WalkBetween(pf, w, a, b) && |w| == Manhattan(a, b) + 1
    decreases Manhattan(a, b)
  {
    if a == b {
      w := [a];
    } else {
      var n := TowardStep(a, b);
      var rest := OpenGridDirectWalk(pf, n, b);
      w := [a] + rest;
      assert w[1..] == rest;
      forall i | 0 < i < |w|
        ensures Adjacent(w[i - 1], w[i])
      {
        if i > 1 {
          assert w[i - 1] == rest[i - 2] && w[i] == rest[i - 1];
        }
      }
    }
  }

  /** Without obstacles every search between in-bounds cells succeeds, and
      its path has exactly Manhattan distance + 1 nodes. */
  lemma OpenGridPathLength(pf: Pathfinder, path: seq<Node>, s: Cell, t: Cell)
    requires pf.Valid() && NoObstacles(pf)
    requires !OutOfBounds(pf, s.row, s.col) && !OutOfBounds(pf, t.row, t.col)
    ensures exists w :: WalkBetween(pf, w, s, t)
    ensures ShortestPath(pf, path, s, t) ==> |path| == Manhattan(s, t) + 1
  {
    var w := OpenGridDirectWalk(pf, s, t);
    if ShortestPath(pf, path, s, t) {
      assert WalkBetween(pf, Cells(path), s, t);
      WalkAdmissible(pf, Cells(path));
    }
  }

  /** The 2 x 2 grid with an obstacle in its lower-left corner. */
  const DetourGrid: Pathfinder := Pathfinder([[0, 0], [1, 0]], 2, 2, 1)

  /** In that grid the only shortest route from the top-left to the
      bottom-right corner goes right, then down. */
  lemma DetourIsForced(path: seq<Node>)
    requires DetourGrid.Valid() && ShortestPath(DetourGrid, path, Cell(0, 0), Cell(1, 1))
    ensures Cells(path) == [Cell(0, 0), Cell(0, 1), Cell(1, 1)]
  {
    var pf := DetourGrid;
    var s, t := Cell(0, 0), Cell(1, 1);
    var route := [s, Cell(0, 1), t];
    assert Step(s, 3) == route[1] && Step(route[1], 1) == t;
    assert WalkBetween(pf, route, s, t);
    var cs := Cells(path);
    assert WalkBetween(pf, cs, s, t);
    WalkAdmissible(pf, cs);
    assert |cs| == 3;
    AdjacentIffUnitDistance(s, cs[1]);
    AdjacentIffUnitDistance(cs[1], t);
    assert Free(pf, cs[1]);
  }

  /** The search on that grid finds the route and ends with g = 2. */
  method DetourScenario() returns (path: seq<Node>, status: Status)
    ensures status == Found
    ensures Cells(path) == [Cell(0, 0), Cell(0, 1), Cell(1, 1)]
    ensures Last(path).g == 2
  {
    var made := Create(Some([[0, 0], [1, 0]]), 1);
    assert Rectangular([[0, 0], [1, 0]]);
    var pf := made.value;
    assert pf == DetourGrid;
    var route := [Cell(0, 0), Cell(0, 1), Cell(1, 1)];
    assert Step(route[0], 3) == route[1] && Step(route[1], 1) == route[2];
    assert WalkBetween(pf, route, route[0], route[2]);
    path, status := FindShortestPath(pf, 0, 0, 1, 1);
    DetourIsForced(path);
  }

  /** The 2 x 2 grid with obstacles on its anti-diagonal: the corners are
      only diagonally connected, so the search exhausts its frontier. */
  method BlockedScenario() returns (path: seq<Node>, status: Status)
    ensures status == NoPathFound && path == []
  {
    var made := Create(Some([[0, 1], [1, 0]]), 1);
    assert Rectangular([[0, 1], [1, 0]]);
    var pf := made.value;
    path, status := FindShortestPath(pf, 0, 0, 1, 1);
    if status == Found {
      var cs := Cells(path);
      assert WalkBetween(pf, cs, Cell(0, 0), Cell(1, 1));
      CornerIsIsolated(pf, cs);
      assert false;
    }
  }

  /** In the anti-diagonal grid every walk from the top-left corner stays there. */
  lemma {:induction false} CornerIsIsolated(pf: Pathfinder, w: seq<Cell>)
    requires pf == Pathfinder([[0, 1], [1, 0]], 2, 2, 1)
    requires IsWalk(pf, w) && w[0] == Cell(0, 0)
    ensures Last(w) == Cell(0, 0)
  {
    if |w| > 1 {
      var v := w[..|w| - 1];
      WalkSlice(pf, w, 0, |w| - 1);
      CornerIsIsolated(pf, v);
      assert Adjacent(Last(v), Last(w));
      AdjacentIffUnitDistance(Cell(0, 0), Last(w));
      assert false;
    }
  }
}
