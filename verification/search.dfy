/** `findShortestPath` and `reconstructPath` of `AStarPathfinder.java`: A*
    with a frontier that may hold several entries for one cell ("lazy
    deletion") and a closed set consulted when an entry is popped. */
module Search {
  import opened Wrappers
  import opened Nodes
  import opened Grid

  /** The outcome the source reports on its console next to the returned list. */
  datatype Status = Found | EndpointOutOfBounds | EndpointIsObstacle | NoPathFound

  /** `reconstructPath`: follow parent links back to the root and list the
      nodes root first. */
  function ReconstructPath(n: Node): (path: seq<Node>)
    ensures |path| >= 1 && Last(path) == n
    ensures path[0].parent.None?
    ensures forall i :: 0 < i < |path| ==> path[i].parent == Some(path[i - 1])
    decreases n
  {
    match n.parent
    case None => [n]
    case Some(p) => ReconstructPath(p) + [n]
  }

  /** The coordinates of a list of nodes. */
  function Cells(path: seq<Node>): (cs: seq<Cell>)
    ensures |cs| == |path|
    ensures forall i :: 0 <= i < |path| ==> cs[i] == path[i].Coord()
  {
    seq(|path|, i requires 0 <= i < |path| => path[i].Coord())
  }

  /** The shape of every path the search returns: a walk of free cells from
      `s` to `e`, each node carrying g equal to its position and the
      heuristic estimate to the target `t`. */
  predicate NodePath(pf: Pathfinder, path: seq<Node>, s: Cell, e: Cell, t: Cell)
    requires pf.Valid()
  {
    && WalkBetween(pf, Cells(path), s, e)
    && (forall i :: 0 <= i < |path| ==> path[i].g == i)
    && (forall i :: 0 <= i < |path| ==> path[i].h == Manhattan(path[i].Coord(), t))
  }

  /** What holds of every node the search creates: its parent chain is a
      walk of free cells that starts at `s` with g = 0 and adds one to g per
      move, and every h is the estimate to `t`. */
  predicate ChainOK(pf: Pathfinder, s: Cell, t: Cell, n: Node)
    requires pf.Valid()
    decreases n
  {
    && Free(pf, n.Coord())
    && n.h == Manhattan(n.Coord(), t)
    && match n.parent
       case None => n.Coord() == s && n.g == 0
       case Some(p) => Adjacent(p.Coord(), n.Coord()) && n.g == p.g + 1 && ChainOK(pf, s, t, p)
  }

  /** Reconstruction turns a well-formed chain into a path of the promised shape. */
  lemma {:induction false} ChainGivesPath(pf: Pathfinder, s: Cell, t: Cell, n: Node)
    requires pf.Valid() && ChainOK(pf, s, t, n)
    ensures NodePath(pf, ReconstructPath(n), s, n.Coord(), t)
    decreases n
  {
    match n.parent
    case None =>
    case Some(p) =>
      ChainGivesPath(pf, s, t, p);
      var prefix := ReconstructPath(p);
      var path := ReconstructPath(n);
      assert path == prefix + [n];
      var cs := Cells(path);
      forall i | 0 < i < |cs|
        ensures Adjacent(cs[i - 1], cs[i])
      {
        if i < |prefix| {
          assert cs[i - 1] == Cells(prefix)[i - 1] && cs[i] == Cells(prefix)[i];
        }
      }
  }

  /** Some entry of the frontier stands on `c` with a cost of at most `g`. */
  predicate HasEntry(open: seq<Node>, c: Cell, g: int) {
    exists k :: 0 <= k < |open| && open[k].Coord() == c && open[k].g <= g
  }

  /** Removing an entry for another cell keeps a witness. */
  lemma HasEntryWithout(open: seq<Node>, i: int, c: Cell, g: int)
    requires 0 <= i < |open| && open[i].Coord() != c && HasEntry(open, c, g)
    ensures HasEntry(open[..i] + open[i + 1..], c, g)
  {
    var k :| 0 <= k < |open| && open[k].Coord() == c && open[k].g <= g;
    var rest := open[..i] + open[i + 1..];
    if k < i {
      assert rest[k] == open[k];
    } else {
      assert rest[k - 1] == open[k];
    }
  }

  /** Growing the frontier at its end keeps every witness. */
  lemma HasEntryExtends(old_open: seq<Node>, open: seq<Node>)
    requires |old_open| <= |open| && open[..|old_open|] == old_open
    ensures forall c, g :: HasEntry(old_open, c, g) ==> HasEntry(open, c, g)
  {
  }

  /** The search invariant. `best` records, for every closed cell, the g it
      was expanded with. */
  ghost predicate SearchInv(pf: Pathfinder, s: Cell, t: Cell, open: seq<Node>, closed: set<Cell>, best: map<Cell, int>)
  {
    && pf.Valid()
    && (forall e :: e in open ==> ChainOK(pf, s, t, e))
    && closed == best.Keys
    && (forall c :: c in closed ==> Free(pf, c))
    && t !in closed
    && (s in closed || HasEntry(open, s, 0))
    // a closed cell was expanded with the least cost of any walk to it
    && (forall w :: IsWalk(pf, w) && w[0] == s && Last(w) in closed ==> best[Last(w)] <= |w| - 1)
    // every free, still open neighbour of a closed cell waits on the frontier
    && (forall c, nb :: c in closed && Adjacent(c, nb) && Free(pf, nb) && nb !in closed ==> HasEntry(open, nb, best[c] + 1))
  }

  /** The first position of a walk that has left the set `inside`. */
  function FirstOutside(w: seq<Cell>, inside: set<Cell>): (j: int)
    requires |w| > 0 && Last(w) !in inside
    ensures 0 <= j < |w| && w[j] !in inside
    ensures forall i :: 0 <= i < j ==> w[i] in inside
  {
    if w[0] !in inside then 0 else 1 + FirstOutside(w[1..], inside)
  }

  /** Entry `i` is a least element of the frontier under `compareTo`, the
      order the priority queue polls by; ties are left open. */
  predicate IsMinF(open: seq<Node>, i: int) {
    0 <= i < |open| && forall j :: 0 <= j < |open| ==> CompareTo(open[i], open[j]) <= 0
  }

  /** A non-empty frontier has an entry of least f. */
  lemma {:induction false} MinExists(open: seq<Node>)
    requires |open| > 0
    ensures exists i :: IsMinF(open, i)
  {
    if |open| > 1 {
      var rest := open[1..];
      MinExists(rest);
      var i :| IsMinF(rest, i);
      if open[0].F() <= rest[i].F() {
        assert IsMinF(open, 0);
      } else {
        assert IsMinF(open, i + 1);
      }
    } else {
      assert IsMinF(open, 0);
    }
  }

  /** Where a walk from the start first leaves the closed set, the frontier
      holds an entry costing no more than the walk's length up to there. */
  lemma FrontierMeetsWalk(pf: Pathfinder, s: Cell, t: Cell, open: seq<Node>, closed: set<Cell>, best: map<Cell, int>,
                          w: seq<Cell>, j: int)
    requires SearchInv(pf, s, t, open, closed, best)
    requires IsWalk(pf, w) && w[0] == s
    requires 0 <= j < |w| && w[j] !in closed && forall m :: 0 <= m < j ==> w[m] in closed
    ensures HasEntry(open, w[j], j)
  {
    if j == 0 {
      assert HasEntry(open, s, 0);
    } else {
      WalkSlice(pf, w, 0, j);
      var prefix := w[..j];
      assert IsWalk(pf, prefix) && prefix[0] == s && Last(prefix) == w[j - 1];
      assert w[j - 1] in closed;
      assert Adjacent(w[j - 1], w[j]);
      assert best[w[j - 1]] + 1 <= j;
      assert HasEntry(open, w[j], best[w[j - 1]] + 1);
    }
  }

  /** The heart of A*: an entry of least f whose cell is not yet closed
      carries a cost no greater than that of any walk from the start to its
      cell. Some walk position j is the first outside the closed set; the
      frontier holds an entry there of cost at most j, and the consistent
      heuristic bounds the rest. */
  lemma PopIsOptimal(pf: Pathfinder, s: Cell, t: Cell, open: seq<Node>, closed: set<Cell>, best: map<Cell, int>, i: int)
    requires SearchInv(pf, s, t, open, closed, best)
    requires IsMinF(open, i) && open[i].Coord() !in closed
    ensures forall w :: WalkBetween(pf, w, s, open[i].Coord()) ==> open[i].g <= |w| - 1
  {
    var x := open[i].Coord();
    forall w | WalkBetween(pf, w, s, x)
      ensures open[i].g <= |w| - 1
    {
      var j := FirstOutside(w, closed);
      FrontierMeetsWalk(pf, s, t, open, closed, best, w, j);
      var k :| 0 <= k < |open| && open[k].Coord() == w[j] && open[k].g <= j;
      assert ChainOK(pf, s, t, open[k]);
      assert ChainOK(pf, s, t, open[i]);
      WalkSlice(pf, w, j, |w|);
      WalkAdmissible(pf, w[j..]);
      ManhattanTriangle(w[j], x, t);
      assert open[i].F() <= open[k].F();
    }
  }

  /** An exhausted frontier leaves the closed set shut under moves to free
      cells, so no walk leaves it; the target, never closed, is unreachable. */
  lemma {:induction false} WalkStaysClosed(pf: Pathfinder, s: Cell, t: Cell, closed: set<Cell>, best: map<Cell, int>, w: seq<Cell>)
    requires SearchInv(pf, s, t, [], closed, best)
    requires IsWalk(pf, w) && w[0] == s
    ensures Last(w) in closed
  {
    if |w| > 1 {
      var v := w[..|w| - 1];
      WalkSlice(pf, w, 0, |w| - 1);
      WalkStaysClosed(pf, s, t, closed, best, v);
      assert Adjacent(Last(v), Last(w));
      assert !HasEntry([], Last(w), best[Last(v)] + 1);
    } else {
      assert !HasEntry([], s, 0);
    }
  }

  /** Popping an entry whose cell is already closed and dropping it keeps
      the invariant: every witness it was needed for stands on an open cell. */
  lemma StalePopKeepsInv(pf: Pathfinder, s: Cell, t: Cell, open: seq<Node>, closed: set<Cell>, best: map<Cell, int>, i: int)
    requires SearchInv(pf, s, t, open, closed, best)
    requires 0 <= i < |open| && open[i].Coord() in closed
    ensures SearchInv(pf, s, t, open[..i] + open[i + 1..], closed, best)
  {
    var rest := open[..i] + open[i + 1..];
    assert forall e :: e in rest ==> e in open;
    if s !in closed {
      HasEntryWithout(open, i, s, 0);
    }
    forall c, nb | c in closed && Adjacent(c, nb) && Free(pf, nb) && nb !in closed
      ensures HasEntry(rest, nb, best[c] + 1)
    {
      HasEntryWithout(open, i, nb, best[c] + 1);
    }
  }

  /** Closing the popped cell with its g and adding its free, unclosed
      neighbours at the end of the frontier keeps the invariant. */
  lemma ExpandKeepsInv(pf: Pathfinder, s: Cell, t: Cell, open: seq<Node>, closed: set<Cell>, best: map<Cell, int>,
                       i: int, open': seq<Node>)
    requires SearchInv(pf, s, t, open, closed, best)
    requires IsMinF(open, i) && open[i].Coord() !in closed && open[i].Coord() != t
    requires var rest := open[..i] + open[i + 1..];
             |rest| <= |open'| && open'[..|rest|] == rest
    requires forall e :: e in open' ==> ChainOK(pf, s, t, e)
    requires forall nb :: Adjacent(open[i].Coord(), nb) && Free(pf, nb) && nb !in closed + {open[i].Coord()} ==>
               HasEntry(open', nb, open[i].g + 1)
    ensures SearchInv(pf, s, t, open', closed + {open[i].Coord()}, best[open[i].Coord() := open[i].g])
  {
    var x := open[i].Coord();
    var rest := open[..i] + open[i + 1..];
    var closed' := closed + {x};
    var best' := best[x := open[i].g];
    PopIsOptimal(pf, s, t, open, closed, best, i);
    HasEntryExtends(rest, open');
    if s !in closed' {
      HasEntryWithout(open, i, s, 0);
    }
    forall w | IsWalk(pf, w) && w[0] == s && Last(w) in closed'
      ensures best'[Last(w)] <= |w| - 1
    {
      if Last(w) == x {
        assert WalkBetween(pf, w, s, x);
      }
    }
    forall c, nb | c in closed' && Adjacent(c, nb) && Free(pf, nb) && nb !in closed'
      ensures HasEntry(open', nb, best'[c] + 1)
    {
      if c != x {
        HasEntryWithout(open, i, nb, best[c] + 1);
      }
    }
    assert ChainOK(pf, s, t, open[i]);
  }

  /** Popping the target with least f ends the search with a shortest path. */
  lemma PoppedTargetIsShortest(pf: Pathfinder, s: Cell, t: Cell, open: seq<Node>, closed: set<Cell>, best: map<Cell, int>, i: int)
    requires SearchInv(pf, s, t, open, closed, best)
    requires IsMinF(open, i) && open[i].Coord() == t
    ensures var path := ReconstructPath(open[i]);
            && NodePath(pf, path, s, t, t) && Last(path) == open[i]
            && forall w :: WalkBetween(pf, w, s, t) ==> |path| <= |w|
  {
    PopIsOptimal(pf, s, t, open, closed, best, i);
    ChainGivesPath(pf, s, t, open[i]);
  }

  /** An exhausted frontier proves the target unreachable. */
  lemma ExhaustedMeansUnreachable(pf: Pathfinder, s: Cell, t: Cell, closed: set<Cell>, best: map<Cell, int>)
    requires SearchInv(pf, s, t, [], closed, best)
    ensures forall w :: !WalkBetween(pf, w, s, t)
  {
    forall w | WalkBetween(pf, w, s, t)
      ensures false
    {
      WalkStaysClosed(pf, s, t, closed, best, w);
    }
  }

  /** The invariant holds of the initial frontier: one root node at `s`. */
  lemma InitialInv(pf: Pathfinder, s: Cell, t: Cell)
    requires pf.Valid() && Free(pf, s)
    ensures SearchInv(pf, s, t, [Node(s.row, s.col, 0, Heuristic(s.row, s.col, t.row, t.col), None)], {}, map[])
  {
    var root := Node(s.row, s.col, 0, Heuristic(s.row, s.col, t.row, t.col), None);
    assert [root][0].Coord() == s;
  }

  /** Removing one entry leaves only entries that were there. */
  lemma RemoveKeepsChains(pf: Pathfinder, s: Cell, t: Cell, open: seq<Node>, i: int)
    requires pf.Valid() && 0 <= i < |open|
    requires forall e :: e in open ==> ChainOK(pf, s, t, e)
    ensures forall e :: e in open[..i] + open[i + 1..] ==> ChainOK(pf, s, t, e)
  {
  }

  /** Every cell of the grid, a finite set. */
  function AllCells(pf: Pathfinder): (all: set<Cell>)
    requires pf.Valid()
    ensures forall c :: c in all <==> !OutOfBounds(pf, c.row, c.col)
  {
    set r, c | 0 <= r < pf.height && 0 <= c < pf.width :: Cell(r, c)
  }

  /** Closing one more cell of the grid shrinks what is left to close, which
      bounds the number of expansions by the number of cells. */
  lemma ClosingShrinks(pf: Pathfinder, closed: set<Cell>, x: Cell)
    requires pf.Valid() && Free(pf, x) && x !in closed
    ensures |AllCells(pf) - (closed + {x})| < |AllCells(pf) - closed|
  {
    var all := AllCells(pf);
    assert all - (closed + {x}) == (all - closed) - {x};
  }

  /** The neighbours of `x` that the expansion of `x` pushes, in `DIRECTIONS`
      order: those among the first `k` directions that are in bounds, not
      obstacles and not closed. */
  function QualifyingSteps(pf: Pathfinder, x: Cell, closed: set<Cell>, k: int): (q: seq<Cell>)
    requires pf.Valid() && 0 <= k <= |Directions|
    ensures |q| <= k
  {
    if k == 0 then []
    else
      var c := Step(x, k - 1);
      QualifyingSteps(pf, x, closed, k - 1) + (if Free(pf, c) && c !in closed then [c] else [])
  }

  /** A cell is pushed exactly when it is one of the direction steps, free
      and not closed. */
  lemma {:induction false} QualifyingStepsMembers(pf: Pathfinder, x: Cell, closed: set<Cell>, k: int)
    requires pf.Valid() && 0 <= k <= |Directions|
    ensures forall c :: c in QualifyingSteps(pf, x, closed, k) <==>
              exists j :: 0 <= j < k && Step(x, j) == c && Free(pf, c) && c !in closed
  {
    if k > 0 {
      QualifyingStepsMembers(pf, x, closed, k - 1);
    }
  }

  /** The nodes an expansion of `current` pushes for the cells `q`: g one
      more than `current`, h the estimate to `t`, parent `current`. */
  function NewEntries(q: seq<Cell>, current: Node, t: Cell): (es: seq<Node>)
    ensures |es| == |q|
    ensures forall j :: 0 <= j < |q| ==>
              es[j] == Node(q[j].row, q[j].col, current.g + 1, Manhattan(q[j], t), Some(current))
  {
    seq(|q|, j requires 0 <= j < |q| => Node(q[j].row, q[j].col, current.g + 1, Manhattan(q[j], t), Some(current)))
  }

  /** Considering one more direction appends that neighbour exactly when it
      qualifies. */
  lemma QualifyingStepsNext(pf: Pathfinder, x: Cell, closed: set<Cell>, k: int)
    requires pf.Valid() && 0 <= k < |Directions|
    ensures var c := Step(x, k);
            QualifyingSteps(pf, x, closed, k + 1) ==
            QualifyingSteps(pf, x, closed, k) + (if Free(pf, c) && c !in closed then [c] else [])
  {
  }

  /** Pushing for one more cell appends that cell's node. */
  lemma NewEntriesNext(q: seq<Cell>, c: Cell, current: Node, t: Cell)
    ensures NewEntries(q + [c], current, t) == NewEntries(q, current, t) + [NewEntries([c], current, t)[0]]
  {
  }

  /** Each pushed entry is a node for a free, unclosed neighbour, one more
      costly than the expanded node and linked to it. */
  lemma PushedEntriesShape(pf: Pathfinder, t: Cell, current: Node, rest: seq<Node>, closed: set<Cell>, open: seq<Node>)
    requires pf.Valid()
    requires open == rest + NewEntries(QualifyingSteps(pf, current.Coord(), closed, |Directions|), current, t)
    ensures forall j :: |rest| <= j < |open| ==>
              && open[j].parent == Some(current)
              && open[j].g == current.g + 1
              && Adjacent(current.Coord(), open[j].Coord())
              && Free(pf, open[j].Coord())
              && open[j].Coord() !in closed
  {
    QualifyingStepsMembers(pf, current.Coord(), closed, |Directions|);
    var q := QualifyingSteps(pf, current.Coord(), closed, |Directions|);
    forall j | |rest| <= j < |open|
      ensures && open[j].parent == Some(current)
              && open[j].g == current.g + 1
              && Adjacent(current.Coord(), open[j].Coord())
              && Free(pf, open[j].Coord())
              && open[j].Coord() !in closed
    {
      var i := j - |rest|;
      assert open[j].Coord() == q[i] && q[i] in q;
    }
  }

  /** Pushed entries extend a well-formed chain by one move, so the frontier
      stays made of well-formed chains. */
  lemma PushedEntriesChains(pf: Pathfinder, s: Cell, t: Cell, current: Node, rest: seq<Node>, closed: set<Cell>,
                            open: seq<Node>)
    requires pf.Valid()
    requires open == rest + NewEntries(QualifyingSteps(pf, current.Coord(), closed, |Directions|), current, t)
    requires ChainOK(pf, s, t, current)
    requires forall e :: e in rest ==> ChainOK(pf, s, t, e)
    ensures forall e :: e in open ==> ChainOK(pf, s, t, e)
  {
    PushedEntriesShape(pf, t, current, rest, closed, open);
    forall e | e in open
      ensures ChainOK(pf, s, t, e)
    {
      var j :| 0 <= j < |open| && open[j] == e;
      if j < |rest| {
        assert rest[j] == e;
      } else {
        var q := QualifyingSteps(pf, current.Coord(), closed, |Directions|);
        assert e.h == Manhattan(q[j - |rest|], t) && q[j - |rest|] == e.Coord();
      }
    }
  }

  /** Every free, unclosed neighbour of the expanded node gets its own entry. */
  lemma PushedEntriesCover(pf: Pathfinder, t: Cell, current: Node, rest: seq<Node>, closed: set<Cell>, open: seq<Node>)
    requires pf.Valid()
    requires open == rest + NewEntries(QualifyingSteps(pf, current.Coord(), closed, |Directions|), current, t)
    ensures forall nb :: Adjacent(current.Coord(), nb) && Free(pf, nb) && nb !in closed ==>
              HasEntry(open, nb, current.g + 1)
  {
    QualifyingStepsMembers(pf, current.Coord(), closed, |Directions|);
    var x := current.Coord();
    var q := QualifyingSteps(pf, x, closed, |Directions|);
    forall nb | Adjacent(x, nb) && Free(pf, nb) && nb !in closed
      ensures HasEntry(open, nb, current.g + 1)
    {
      assert nb in q;
      var i :| 0 <= i < |q| && q[i] == nb;
      assert open[|rest| + i].Coord() == nb;
    }
  }

  /** The loop over `DIRECTIONS`: for each neighbour that is in bounds, not an
      obstacle and not closed, push a node with g one more than `current`.
      The frontier only grows at its end, by at most four entries. */
  method ExpandNeighbors(pf: Pathfinder, s: Cell, t: Cell, current: Node, rest: seq<Node>, closed: set<Cell>)
    returns (open: seq<Node>)
    requires pf.Valid() && ChainOK(pf, s, t, current)
    requires forall e :: e in rest ==> ChainOK(pf, s, t, e)
    ensures |rest| <= |open| <= |rest| + |Directions| && open[..|rest|] == rest
    ensures forall j :: |rest| <= j < |open| ==>
              && open[j].parent == Some(current)
              && open[j].g == current.g + 1
              && Adjacent(current.Coord(), open[j].Coord())
              && Free(pf, open[j].Coord())
              && open[j].Coord() !in closed
    ensures forall e :: e in open ==> ChainOK(pf, s, t, e)
    ensures forall nb :: Adjacent(current.Coord(), nb) && Free(pf, nb) && nb !in closed ==>
              HasEntry(open, nb, current.g + 1)
    ensures open == rest + NewEntries(QualifyingSteps(pf, current.Coord(), closed, |Directions|), current, t)
  {
    var x := current.Coord();
    open := rest;
    for k := 0 to |Directions|
      invariant open == rest + NewEntries(QualifyingSteps(pf, x, closed, k), current, t)
    {
      var neighborRow := current.row + Directions[k].0;
      var neighborCol := current.col + Directions[k].1;
      ghost var c := Cell(neighborRow, neighborCol);
      ghost var q := QualifyingSteps(pf, x, closed, k);
      assert c == Step(x, k);
      QualifyingStepsNext(pf, x, closed, k);
      if !(OutOfBounds(pf, neighborRow, neighborCol) || IsObstacle(pf, neighborRow, neighborCol)) {
        var neighbor := Node(neighborRow, neighborCol, 0, 0, None);
        if neighbor.Coord() !in closed {
          var tentativeG := current.g + 1;
          var hCost := Heuristic(neighborRow, neighborCol, t.row, t.col);
          var actualNeighbor := Node(neighborRow, neighborCol, tentativeG, hCost, Some(current));
          assert QualifyingSteps(pf, x, closed, k + 1) == q + [c];
          NewEntriesNext(q, c, current, t);
          assert NewEntries([c], current, t)[0] == actualNeighbor;
          open := open + [actualNeighbor];
        } else {
          assert QualifyingSteps(pf, x, closed, k + 1) == q;
        }
      } else {
        assert QualifyingSteps(pf, x, closed, k + 1) == q;
      }
    }
    PushedEntriesShape(pf, t, current, rest, closed, open);
    PushedEntriesChains(pf, s, t, current, rest, closed, open);
    PushedEntriesCover(pf, t, current, rest, closed, open);
  }

  /** The A* loop, entered once both endpoints are known to be free. */
  method Search(pf: Pathfinder, s: Cell, t: Cell) returns (path: seq<Node>, status: Status)
    requires pf.Valid() && Free(pf, s) && Free(pf, t)
    ensures status == Found || status == NoPathFound
    ensures status == Found <==> path != []
    ensures status == Found ==> NodePath(pf, path, s, t, t) && path == ReconstructPath(Last(path))
    ensures status == Found ==> forall w :: WalkBetween(pf, w, s, t) ==> |path| <= |w|
    ensures status == NoPathFound ==> forall w :: !WalkBetween(pf, w, s, t)
  {
    var startNode := Node(s.row, s.col, 0, Heuristic(s.row, s.col, t.row, t.col), None);
    var targetNode := Node(t.row, t.col, 0, 0, None);
    var open := [startNode];
    var closed: set<Cell> := {};
    ghost var best: map<Cell, int> := map[];
    InitialInv(pf, s, t);

    while |open| > 0
      invariant SearchInv(pf, s, t, open, closed, best)
      decreases |AllCells(pf) - closed|, |open|
    {
      MinExists(open);
      var i :| IsMinF(open, i);
      var current := open[i];
      var x := current.Coord();
      var rest := open[..i] + open[i + 1..];

      if Equals(current, Some(targetNode)) {
        PoppedTargetIsShortest(pf, s, t, open, closed, best, i);
        return ReconstructPath(current), Found;
      }

      if x in closed {
        StalePopKeepsInv(pf, s, t, open, closed, best, i);
        open := rest;
      } else {
        assert ChainOK(pf, s, t, current);
        ClosingShrinks(pf, closed, x);
        RemoveKeepsChains(pf, s, t, open, i);
        var open' := ExpandNeighbors(pf, s, t, current, rest, closed + {x});
        ExpandKeepsInv(pf, s, t, open, closed, best, i, open');
        closed := closed + {x};
        best := best[x := current.g];
        open := open';
      }
    }

    ExhaustedMeansUnreachable(pf, s, t, closed, best);
    return [], NoPathFound;
  }

  /** A path no longer than any walk between its ends. */
  ghost predicate ShortestPath(pf: Pathfinder, path: seq<Node>, s: Cell, t: Cell)
    requires pf.Valid()
  {
    NodePath(pf, path, s, t, t) && forall w :: WalkBetween(pf, w, s, t) ==> |path| <= |w|
  }

  /** Tie-breaking may change the cells a result visits but not its length:
      any two shortest paths between the same cells are equally long, and the
      last g is the hop count. */
  lemma ShortestPathLengthDeterminate(pf: Pathfinder, p1: seq<Node>, p2: seq<Node>, s: Cell, t: Cell)
    requires pf.Valid() && ShortestPath(pf, p1, s, t) && ShortestPath(pf, p2, s, t)
    ensures |p1| == |p2|
    ensures Last(p1).g == Last(p2).g == |p1| - 1
  {
  }

  /** `findShortestPath`: reject endpoints outside the grid, then endpoints on
      obstacles, then run the search. The empty list of the source is the
      empty sequence; the console message becomes `status`. */
  method FindShortestPath(pf: Pathfinder, startRow: int, startCol: int, targetRow: int, targetCol: int)
    returns (path: seq<Node>, status: Status)
    requires pf.Valid()
    ensures status == EndpointOutOfBounds <==>
              OutOfBounds(pf, startRow, startCol) || OutOfBounds(pf, targetRow, targetCol)
    ensures status == EndpointIsObstacle <==>
              && !OutOfBounds(pf, startRow, startCol) && !OutOfBounds(pf, targetRow, targetCol)
              && (IsObstacle(pf, startRow, startCol) || IsObstacle(pf, targetRow, targetCol))
    ensures path == [] <==> status != Found
    ensures status == Found <==>
              && Free(pf, Cell(startRow, startCol)) && Free(pf, Cell(targetRow, targetCol))
              && exists w :: WalkBetween(pf, w, Cell(startRow, startCol), Cell(targetRow, targetCol))
    ensures status == Found ==>
              && ShortestPath(pf, path, Cell(startRow, startCol), Cell(targetRow, targetCol))
              && path == ReconstructPath(Last(path))
    ensures startRow == targetRow && startCol == targetCol && Free(pf, Cell(startRow, startCol)) ==>
              path == [Node(startRow, startCol, 0, 0, None)]
  {
    var s := Cell(startRow, startCol);
    var t := Cell(targetRow, targetCol);
    if OutOfBounds(pf, startRow, startCol) || OutOfBounds(pf, targetRow, targetCol) {
      return [], EndpointOutOfBounds;
    }
    if IsObstacle(pf, startRow, startCol) || IsObstacle(pf, targetRow, targetCol) {
      return [], EndpointIsObstacle;
    }
    path, status := Search(pf, s, t);
    if status == Found {
      assert WalkBetween(pf, Cells(path), s, t);
    }
    if s == t {
      assert WalkBetween(pf, [s], s, t);
      assert path[0] == Last(path);
    }
  }
}
