/** The grid side of `AStarPathfinder.java`: construction-time validation, the
    bounds and obstacle predicates, the Manhattan heuristic, the four move
    directions, and walks (sequences of free cells joined by moves). */
module Grid {
  import opened Wrappers
  import opened Nodes

  /** The two construction failures (both `IllegalArgumentException`). */
  datatype GridError = NullOrEmpty | NotRectangular

  /** A constructed pathfinder: the grid, its dimensions and the obstacle marker. */
  datatype Pathfinder = Pathfinder(grid: seq<seq<int>>, height: int, width: int, obstacleValue: int) {

    /** What construction guarantees: a non-empty rectangular grid whose
        dimensions are recorded in `height` and `width`. */
    predicate Valid() {
      && height == |grid| > 0
      && width == |grid[0]| > 0
      && forall r :: 0 <= r < |grid| ==> |grid[r]| == width
    }
  }

  /** Every row has the length of the first one. */
  predicate Rectangular(rows: seq<seq<int>>)
    requires |rows| > 0
  {
    forall r :: 0 <= r < |rows| ==> |rows[r]| == |rows[0]|
  }

  /** The constructor. `None` stands for a null grid. */
  method Create(grid: Option<seq<seq<int>>>, obstacleValue: int) returns (r: Result<Pathfinder, GridError>)
    ensures grid.None? || |grid.value| == 0 || |grid.value[0]| == 0 <==> r == Failure(NullOrEmpty)
    ensures r == Failure(NotRectangular) <==>
              grid.Some? && |grid.value| > 0 && |grid.value[0]| > 0 && !Rectangular(grid.value)
    ensures r.Success? <==> grid.Some? && |grid.value| > 0 && |grid.value[0]| > 0 && Rectangular(grid.value)
    ensures r.Success? ==> && r.value.Valid()
                           && r.value.grid == grid.value
                           && r.value.height == |grid.value|
                           && r.value.width == |grid.value[0]|
                           && r.value.obstacleValue == obstacleValue
  {
    if grid.None? || |grid.value| == 0 || |grid.value[0]| == 0 {
      return Failure(NullOrEmpty);
    }
    var rows := grid.value;
    var width := |rows[0]|;
    var i := 0;
    while i < |rows|
      invariant 0 <= i <= |rows|
      invariant forall j :: 0 <= j < i ==> |rows[j]| == width
    {
      if |rows[i]| != width {
        return Failure(NotRectangular);
      }
      i := i + 1;
    }
    return Success(Pathfinder(rows, |rows|, width, obstacleValue));
  }

  /** `isValid`, which despite its name is true exactly when the coordinate lies
      OUTSIDE the grid; every caller relies on that meaning. */
  function OutOfBounds(pf: Pathfinder, row: int, col: int): (b: bool)
    ensures pf.Valid() ==> (b <==> !(0 <= row < |pf.grid| && 0 <= col < |pf.grid[row]|))
  {
    row < 0 || row >= pf.height || col < 0 || col >= pf.width
  }

  /** `isObstacle`, which indexes the grid and so is only ever asked about
      in-bounds cells. */
  function IsObstacle(pf: Pathfinder, row: int, col: int): (b: bool)
    requires pf.Valid() && !OutOfBounds(pf, row, col)
    ensures b <==> pf.grid[row][col] == pf.obstacleValue
  {
    pf.grid[row][col] == pf.obstacleValue
  }

  /** A cell the search may stand on: in bounds, then not an obstacle (the
      short-circuit order of the source's neighbour test). */
  predicate Free(pf: Pathfinder, c: Cell)
    requires pf.Valid()
  {
    !(OutOfBounds(pf, c.row, c.col) || IsObstacle(pf, c.row, c.col))
  }

  /** No walk ever stands on an obstacle cell. */
  lemma ObstacleNeverOnWalk(pf: Pathfinder, w: seq<Cell>, row: int, col: int)
    requires pf.Valid() && !OutOfBounds(pf, row, col) && IsObstacle(pf, row, col)
    requires IsWalk(pf, w)
    ensures Cell(row, col) !in w
  {
  }

  function Abs(x: int): int {
    if x < 0 then -x else x
  }

  /** `heuristic`: the Manhattan distance. */
  function Heuristic(r1: int, c1: int, r2: int, c2: int): (h: int)
    ensures h >= 0
    ensures h == 0 <==> r1 == r2 && c1 == c2
  {
    Abs(r1 - r2) + Abs(c1 - c2)
  }

  /** The heuristic does not depend on the order of its two points. */
  lemma HeuristicSymmetric(r1: int, c1: int, r2: int, c2: int)
    ensures Heuristic(r1, c1, r2, c2) == Heuristic(r2, c2, r1, c1)
  {
  }

  function Manhattan(a: Cell, b: Cell): int {
    Heuristic(a.row, a.col, b.row, b.col)
  }

  /** The Manhattan distance satisfies the triangle inequality. */
  lemma ManhattanTriangle(a: Cell, b: Cell, c: Cell)
    ensures Manhattan(a, c) <= Manhattan(a, b) + Manhattan(b, c)
  {
  }

  /** `DIRECTIONS`: up, down, left, right as (row delta, column delta). */
  const Directions: seq<(int, int)> := [(-1, 0), (1, 0), (0, -1), (0, 1)]

  /** The neighbour of `c` in direction `k`. */
  function Step(c: Cell, k: int): Cell
    requires 0 <= k < |Directions|
  {
    Cell(c.row + Directions[k].0, c.col + Directions[k].1)
  }

  /** `b` is one of the four moves away from `a`. */
  predicate Adjacent(a: Cell, b: Cell) {
    exists k :: 0 <= k < |Directions| && Step(a, k) == b
  }

  /** A cell at Manhattan distance one is reached by one of the directions. */
  lemma UnitDistanceIsAdjacent(a: Cell, b: Cell)
    requires Manhattan(a, b) == 1
    ensures Adjacent(a, b)
  {
    if b.row == a.row - 1 {
      assert Step(a, 0) == b;
    } else if b.row == a.row + 1 {
      assert Step(a, 1) == b;
    } else if b.col == a.col - 1 {
      assert Step(a, 2) == b;
    } else {
      assert Step(a, 3) == b;
    }
  }

  /** The four directions are exactly the moves of Manhattan length one, so
      adjacency is symmetric. */
  lemma AdjacentIffUnitDistance(a: Cell, b: Cell)
    ensures Adjacent(a, b) <==> Manhattan(a, b) == 1
    ensures Adjacent(a, b) <==> Adjacent(b, a)
  {
    if Manhattan(a, b) == 1 {
      UnitDistanceIsAdjacent(a, b);
      UnitDistanceIsAdjacent(b, a);
    }
  }

  /** Consistency of the heuristic: one move changes the estimate to any
      target by exactly one. */
  lemma HeuristicConsistent(a: Cell, b: Cell, t: Cell)
    requires Adjacent(a, b)
    ensures Manhattan(a, t) == Manhattan(b, t) + 1 || Manhattan(a, t) == Manhattan(b, t) - 1
  {
  }

  function Last<T>(s: seq<T>): T
    requires |s| > 0
  {
    s[|s| - 1]
  }

  /** A non-empty sequence of free cells, each one move from the one before. */
  predicate IsWalk(pf: Pathfinder, w: seq<Cell>)
    requires pf.Valid()
  {
    && |w| > 0
    && (forall i :: 0 <= i < |w| ==> Free(pf, w[i]))
    && (forall i :: 0 < i < |w| ==> Adjacent(w[i - 1], w[i]))
  }

  predicate WalkBetween(pf: Pathfinder, w: seq<Cell>, a: Cell, b: Cell)
    requires pf.Valid()
  {
    IsWalk(pf, w) && w[0] == a && Last(w) == b
  }

  /** Any contiguous non-empty piece of a walk is a walk. */
  lemma WalkSlice(pf: Pathfinder, w: seq<Cell>, lo: int, hi: int)
    requires pf.Valid() && IsWalk(pf, w)
    requires 0 <= lo < hi <= |w|
    ensures IsWalk(pf, w[lo..hi])
  {
  }

  /** Admissibility: a walk of n moves never joins cells more than n apart,
      so the heuristic never overestimates the remaining cost. */
  lemma {:induction false} WalkAdmissible(pf: Pathfinder, w: seq<Cell>)
    requires pf.Valid() && IsWalk(pf, w)
    ensures Manhattan(w[0], Last(w)) <= |w| - 1
  {
    if |w| > 1 {
      var v := w[..|w| - 1];
      WalkSlice(pf, w, 0, |w| - 1);
      WalkAdmissible(pf, v);
      AdjacentIffUnitDistance(Last(v), Last(w));
      ManhattanTriangle(w[0], Last(v), Last(w));
    }
  }
}
