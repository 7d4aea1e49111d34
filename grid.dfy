// The occupancy grid shared by all five searches: positions, the bounds-and-wall
// gate, the fixed neighbour order, 4-connected walks and reachability.

module Grid {

  /** A cell coordinate; two positions are the same node iff both coordinates match. */
  datatype Pos = Pos(row: int, col: int)

  /** What every search returns (the wall-clock field is not modelled). */
  datatype SearchResult = SearchResult(found: bool, nodesExpanded: nat, path: seq<Pos>, visited: seq<Pos>)

  /** The caller's shape check: at least one row and one column, every row as long as the first. */
  predicate WellFormed(grid: seq<seq<int>>)
  {
    |grid| > 0 && |grid[0]| > 0 && forall i :: 0 <= i < |grid| ==> |grid[i]| == |grid[0]|
  }

  /** The documented cell encoding: 0 is an open cell, 1 is a wall. */
  predicate Binary(grid: seq<seq<int>>)
  {
    forall i, j :: 0 <= i < |grid| && 0 <= j < |grid[i]| ==> grid[i][j] == 0 || grid[i][j] == 1
  }

  predicate InBounds(grid: seq<seq<int>>, p: Pos)
    requires WellFormed(grid)
  {
    0 <= p.row < |grid| && 0 <= p.col < |grid[0]|
  }

  /**
   * What the caller guarantees before running a search: a well-formed 0/1 grid, and both
   * endpoints in bounds and not walls.
   */
  predicate ValidRequest(grid: seq<seq<int>>, start: Pos, end: Pos)
  {
    WellFormed(grid) && Binary(grid) && InBounds(grid, start) && InBounds(grid, end) &&
    grid[start.row][start.col] != 1 && grid[end.row][end.col] != 1
  }

  /** The finite universe of in-bounds cells of an m x n grid. */
  function Cells(m: nat, n: nat): (s: set<Pos>)
    ensures forall p :: p in s <==> 0 <= p.row < m && 0 <= p.col < n
    ensures |s| == m * n
  {
    if m == 0 then {} else
      var rest := Cells(m - 1, n);
      var row := RowCells(m - 1, n);
      assert rest !! row;
      rest + row
  }

  /** The cells of row r, columns 0 .. n-1. */
  function RowCells(r: int, n: nat): (s: set<Pos>)
    ensures forall p :: p in s <==> p.row == r && 0 <= p.col < n
    ensures |s| == n
  {
    if n == 0 then {} else
      var rest := RowCells(r, n - 1);
      assert Pos(r, n - 1) !in rest;
      rest + {Pos(r, n - 1)}
  }

  /** The cells of grid. */
  function GridCells(grid: seq<seq<int>>): set<Pos>
    requires WellFormed(grid)
  {
    Cells(|grid|, |grid[0]|)
  }

  /**
   * is_valid: the position lies inside the grid and its cell is open (0). The bounds are
   * checked before the cell is read, so no read falls outside the grid.
   */
  predicate IsValid(grid: seq<seq<int>>, p: Pos)
    requires WellFormed(grid)
  {
    0 <= p.row < |grid| && 0 <= p.col < |grid[0]| && grid[p.row][p.col] == 0
  }

  /** The four moves in their fixed order: right, down, left, up. */
  const Directions: seq<(int, int)> := [(0, 1), (1, 0), (0, -1), (-1, 0)]

  /** The neighbour of p in direction k. */
  function Step(p: Pos, k: nat): Pos
    requires k < 4
  {
    Pos(p.row + Directions[k].0, p.col + Directions[k].1)
  }

  function Abs(x: int): nat
  {
    if x < 0 then -x else x
  }

  /** The four directions lead to four different cells. */
  lemma StepsDiffer(p: Pos, j: nat, k: nat)
    requires j < 4 && k < 4 && j != k
    ensures Step(p, j) != Step(p, k)
  {
    assert Directions[0] == (0, 1) && Directions[1] == (1, 0) && Directions[2] == (0, -1) && Directions[3] == (-1, 0);
  }

  /** p and q differ by exactly one unit move. */
  predicate Adjacent(p: Pos, q: Pos)
  {
    Abs(p.row - q.row) + Abs(p.col - q.col) == 1
  }

  /** Every direction is a unit move, and every unit move is one of the four directions. */
  lemma StepAdjacent(p: Pos, q: Pos)
    ensures Adjacent(p, q) <==> exists k :: 0 <= k < 4 && Step(p, k) == q
  {
    if Adjacent(p, q) {
      var k := DirectionOf(p, q);
    }
  }

  /** The direction in which the unit move from p to q goes. */
  lemma DirectionOf(p: Pos, q: Pos) returns (k: nat)
    requires Adjacent(p, q)
    ensures k < 4 && Step(p, k) == q
  {
    if q.col == p.col + 1 { k := 0; }
    else if q.row == p.row + 1 { k := 1; }
    else if q.col == p.col - 1 { k := 2; }
    else { k := 3; }
  }

  /** All elements of s are different. */
  predicate Distinct<T(==)>(s: seq<T>)
  {
    forall i, j :: 0 <= i < j < |s| ==> s[i] != s[j]
  }

  /** s read back to front; models both `path[::-1]` and `path.reverse()`. */
  function Reverse<T>(s: seq<T>): (r: seq<T>)
    ensures |r| == |s|
    ensures forall i :: 0 <= i < |s| ==> r[i] == s[|s| - 1 - i]
  {
    if s == [] then [] else Reverse(s[1..]) + [s[0]]
  }

  /** A non-empty 4-connected walk over open cells. */
  ghost predicate IsWalk(grid: seq<seq<int>>, w: seq<Pos>)
    requires WellFormed(grid)
  {
    |w| > 0 &&
    (forall i :: 0 <= i < |w| ==> IsValid(grid, w[i])) &&
    (forall i :: 0 <= i < |w| - 1 ==> Adjacent(w[i], w[i + 1]))
  }

  /** A walk from a to b. */
  ghost predicate IsPath(grid: seq<seq<int>>, w: seq<Pos>, a: Pos, b: Pos)
    requires WellFormed(grid)
  {
    IsWalk(grid, w) && w[0] == a && w[|w| - 1] == b
  }

  /** b can be reached from a by moving between open cells. */
  ghost predicate Reachable(grid: seq<seq<int>>, a: Pos, b: Pos)
    requires WellFormed(grid)
  {
    exists w :: IsPath(grid, w, a, b)
  }

  /** Walks can be run backwards, so reachability is symmetric. */
  lemma ReversePath(grid: seq<seq<int>>, w: seq<Pos>, a: Pos, b: Pos)
    requires WellFormed(grid) && IsPath(grid, w, a, b)
    ensures IsPath(grid, Reverse(w), b, a)
  {
    var r := Reverse(w);
    forall i | 0 <= i < |r| - 1
      ensures Adjacent(r[i], r[i + 1])
    {
      assert r[i] == w[|w| - 1 - i] && r[i + 1] == w[|w| - 2 - i];
      assert Adjacent(w[|w| - 2 - i], w[|w| - 1 - i]);
    }
  }

  /** d is the length of a shortest walk from a to b: some walk has d moves and none has fewer. */
  ghost predicate ShortestDist(grid: seq<seq<int>>, a: Pos, b: Pos, d: nat)
    requires WellFormed(grid)
  {
    (exists w :: IsPath(grid, w, a, b) && |w| == d + 1) &&
    (forall w :: IsPath(grid, w, a, b) ==> d + 1 <= |w|)
  }

  /**
   * The distances at which the cells of the trace were expanded: one per cell, non-decreasing,
   * and each the shortest distance from start to its cell.
   */
  ghost predicate ExpansionLevels(grid: seq<seq<int>>, start: Pos, visitedOrder: seq<Pos>, levels: seq<nat>)
    requires WellFormed(grid)
  {
    |levels| == |visitedOrder| &&
    (forall i, j :: 0 <= i < j < |levels| ==> levels[i] <= levels[j]) &&
    (forall i :: 0 <= i < |levels| ==> ShortestDist(grid, start, visitedOrder[i], levels[i]))
  }

  /** A trace whose every cell was expanded at its shortest distance from start holds only cells reachable from start. */
  lemma ShortestReachable(grid: seq<seq<int>>, start: Pos, visitedOrder: seq<Pos>, dists: seq<nat>)
    requires WellFormed(grid) && |dists| == |visitedOrder|
    requires forall i :: 0 <= i < |dists| ==> ShortestDist(grid, start, visitedOrder[i], dists[i])
    ensures forall x :: x in visitedOrder ==> Reachable(grid, start, x)
  {
    forall x | x in visitedOrder
      ensures Reachable(grid, start, x)
    {
      var i :| 0 <= i < |visitedOrder| && visitedOrder[i] == x;
      assert ShortestDist(grid, start, visitedOrder[i], dists[i]);
    }
  }

  /** No expansion so far happened above `level`. */
  ghost predicate LevelsBelow(levels: seq<nat>, level: nat)
  {
    forall i :: 0 <= i < |levels| ==> levels[i] <= level
  }

  /** Expanding a cell at its shortest distance d, no smaller than the current level, extends the levels. */
  lemma AppendLevel(grid: seq<seq<int>>, start: Pos, visitedOrder: seq<Pos>, levels: seq<nat>, level: nat,
                    x: Pos, d: nat)
    requires WellFormed(grid) && ExpansionLevels(grid, start, visitedOrder, levels) && LevelsBelow(levels, level)
    requires level <= d && ShortestDist(grid, start, x, d)
    ensures ExpansionLevels(grid, start, visitedOrder + [x], levels + [d]) && LevelsBelow(levels + [d], d)
  {
    var vo, ls := visitedOrder + [x], levels + [d];
    assert forall i :: 0 <= i < |levels| ==> vo[i] == visitedOrder[i] && ls[i] == levels[i];
    assert vo[|levels|] == x && ls[|levels|] == d;
  }

  /**
   * Every node of `closed` is ranked, and every open neighbour of one has a rank (an entry of g) at most one
   * above the node's own rank.
   */
  ghost predicate Settled(grid: seq<seq<int>>, closed: set<Pos>, g: map<Pos, nat>)
    requires WellFormed(grid)
  {
    closed <= g.Keys &&
    forall c, k :: c in closed && 0 <= k < 4 && IsValid(grid, Step(c, k)) ==>
      Step(c, k) in g && g[Step(c, k)] <= g[c] + 1
  }

  /**
   * The expansion record: the trace lists the expanded cells, each once, all of them open,
   * and the counter equals its length.
   */
  ghost predicate ExpansionTrace(grid: seq<seq<int>>, expanded: set<Pos>, visitedOrder: seq<Pos>, nodesExpanded: nat)
    requires WellFormed(grid)
  {
    Distinct(visitedOrder) && nodesExpanded == |visitedOrder| && |expanded| == |visitedOrder| &&
    (forall x :: x in expanded <==> x in visitedOrder) &&
    (forall i :: 0 <= i < |visitedOrder| ==> IsValid(grid, visitedOrder[i]))
  }

  /** Expanding an open cell for the first time extends the record by that cell. */
  lemma ExpandCell(grid: seq<seq<int>>, expanded: set<Pos>, visitedOrder: seq<Pos>, nodesExpanded: nat, x: Pos)
    requires WellFormed(grid) && ExpansionTrace(grid, expanded, visitedOrder, nodesExpanded)
    requires x !in expanded && IsValid(grid, x)
    ensures ExpansionTrace(grid, expanded + {x}, visitedOrder + [x], nodesExpanded + 1)
    ensures nodesExpanded + 1 <= |grid| * |grid[0]|
  {
    ExtendTrace(grid, expanded, visitedOrder, nodesExpanded, x);
    CellsBound(grid, expanded + {x});
  }

  /** The record part of ExpandCell: appending a new open cell keeps the trace duplicate-free. */
  lemma ExtendTrace(grid: seq<seq<int>>, expanded: set<Pos>, visitedOrder: seq<Pos>, nodesExpanded: nat, x: Pos)
    requires WellFormed(grid) && ExpansionTrace(grid, expanded, visitedOrder, nodesExpanded)
    requires x !in expanded && IsValid(grid, x)
    ensures ExpansionTrace(grid, expanded + {x}, visitedOrder + [x], nodesExpanded + 1)
  {
    var vo := visitedOrder + [x];
    assert forall i :: 0 <= i < |visitedOrder| ==> vo[i] == visitedOrder[i];
    assert vo[|visitedOrder|] == x;
  }

  /** A set of open cells has at most rows * cols elements. */
  lemma CellsBound(grid: seq<seq<int>>, s: set<Pos>)
    requires WellFormed(grid)
    requires forall x :: x in s ==> IsValid(grid, x)
    ensures |s| <= |GridCells(grid)| == |grid| * |grid[0]|
  {
    assert s <= GridCells(grid);
    SubsetCard(s, GridCells(grid));
  }

  lemma SubsetCard<T>(a: set<T>, b: set<T>)
    requires a <= b
    ensures |a| <= |b|
  {
    assert b == a + (b - a);
  }

  /** The first k neighbours of c that are open have a rank at most `bound`. */
  ghost predicate NeighboursRanked(grid: seq<seq<int>>, c: Pos, k: nat, g: map<Pos, nat>, bound: int)
    requires WellFormed(grid)
  {
    forall j :: 0 <= j < k && j < 4 && IsValid(grid, Step(c, j)) ==> Step(c, j) in g && g[Step(c, j)] <= bound
  }

  /** Ranking one more cell, or lowering a rank, keeps the neighbours of c ranked. */
  lemma RankNeighbour(grid: seq<seq<int>>, c: Pos, k: nat, g: map<Pos, nat>, bound: int, x: Pos, v: nat)
    requires WellFormed(grid) && NeighboursRanked(grid, c, k, g, bound)
    requires x in g ==> v <= g[x]
    ensures NeighboursRanked(grid, c, k, g[x := v], bound)
  {
  }

  /** Ranking the k-th neighbour extends the ranked prefix by one. */
  lemma RankNext(grid: seq<seq<int>>, c: Pos, k: nat, g: map<Pos, nat>, bound: int)
    requires WellFormed(grid) && k < 4 && NeighboursRanked(grid, c, k, g, bound)
    requires IsValid(grid, Step(c, k)) ==> Step(c, k) in g && g[Step(c, k)] <= bound
    ensures NeighboursRanked(grid, c, k + 1, g, bound)
  {
  }

  /** A node whose four neighbours are ranked can join a settled set. */
  lemma SettleNode(grid: seq<seq<int>>, closed: set<Pos>, g: map<Pos, nat>, c: Pos)
    requires WellFormed(grid) && Settled(grid, closed, g)
    requires c in g && NeighboursRanked(grid, c, 4, g, g[c] + 1)
    ensures Settled(grid, closed + {c}, g)
  {
  }

  /** Ranking a new cell, or lowering the rank of a cell outside the settled set, keeps it settled. */
  lemma SettledRank(grid: seq<seq<int>>, closed: set<Pos>, g: map<Pos, nat>, x: Pos, v: nat)
    requires WellFormed(grid) && Settled(grid, closed, g)
    requires x !in closed && (x in g ==> v <= g[x])
    ensures Settled(grid, closed, g[x := v])
  {
  }

  /**
   * What the neighbour loop of an expansion of c appends after looking at the first k
   * directions: each open neighbour that was not visited, in direction order.
   */
  function NewNeighbours(grid: seq<seq<int>>, c: Pos, k: nat, visited: set<Pos>): seq<Pos>
    requires WellFormed(grid) && k <= 4
  {
    if k == 0 then [] else
      var n := Step(c, k - 1);
      NewNeighbours(grid, c, k - 1, visited) + (if IsValid(grid, n) && n !in visited then [n] else [])
  }

  /**
   * The appended cells are open, unvisited and adjacent to c, without repeats; among the first
   * k directions, a neighbour is appended exactly when it is open and unvisited, and no later
   * direction contributes yet.
   */
  lemma {:induction false} NewNeighboursSpec(grid: seq<seq<int>>, c: Pos, k: nat, visited: set<Pos>)
    requires WellFormed(grid) && k <= 4
    ensures var r := NewNeighbours(grid, c, k, visited);
      (forall x :: x in r ==> IsValid(grid, x) && x !in visited && Adjacent(c, x)) &&
      (forall j :: 0 <= j < k ==> (Step(c, j) in r <==> IsValid(grid, Step(c, j)) && Step(c, j) !in visited)) &&
      (forall j :: k <= j < 4 ==> Step(c, j) !in r) &&
      Distinct(r)
  {
    if k > 0 {
      NewNeighboursSpec(grid, c, k - 1, visited);
      var n := Step(c, k - 1);
      var init := NewNeighbours(grid, c, k - 1, visited);
      forall j | k <= j < 4
        ensures Step(c, j) != n
      {
        StepsDiffer(c, j, k - 1);
      }
      if IsValid(grid, n) && n !in visited {
        StepAdjacent(c, n);
        assert NewNeighbours(grid, c, k, visited) == init + [n];
        assert n !in init;
      } else {
        assert NewNeighbours(grid, c, k, visited) == init;
      }
    }
  }

  /** Every open neighbour of a cell of `closed` belongs to `marked`. */
  ghost predicate NeighbourClosed(grid: seq<seq<int>>, closed: set<Pos>, marked: set<Pos>)
    requires WellFormed(grid)
  {
    forall c, k :: c in closed && 0 <= k < 4 && IsValid(grid, Step(c, k)) ==> Step(c, k) in marked
  }

  /** The first k neighbours of c that are open belong to `marked`. */
  ghost predicate NeighboursMarked(grid: seq<seq<int>>, c: Pos, k: nat, marked: set<Pos>)
    requires WellFormed(grid)
  {
    forall j :: 0 <= j < k && j < 4 && IsValid(grid, Step(c, j)) ==> Step(c, j) in marked
  }

  /** Marking the k-th neighbour extends the marked prefix by one. */
  lemma MarkNext(grid: seq<seq<int>>, c: Pos, k: nat, marked: set<Pos>)
    requires WellFormed(grid) && k < 4 && NeighboursMarked(grid, c, k, marked)
    requires IsValid(grid, Step(c, k)) ==> Step(c, k) in marked
    ensures NeighboursMarked(grid, c, k + 1, marked)
  {
  }

  /** A node whose four neighbours are marked can join a neighbour-closed set. */
  lemma CloseNode(grid: seq<seq<int>>, closed: set<Pos>, marked: set<Pos>, c: Pos)
    requires WellFormed(grid) && c in closed && NeighbourClosed(grid, closed - {c}, marked)
    requires NeighboursMarked(grid, c, 4, marked)
    ensures NeighbourClosed(grid, closed, marked)
  {
  }

  /** A walk that starts inside a set closed under moves never leaves it. */
  lemma {:induction false} WalkStaysInside(grid: seq<seq<int>>, s: set<Pos>, w: seq<Pos>)
    requires WellFormed(grid) && NeighbourClosed(grid, s, s)
    requires IsWalk(grid, w) && w[0] in s
    ensures w[|w| - 1] in s
  {
    if |w| > 1 {
      var v := w[..|w| - 1];
      WalkStaysInside(grid, s, v);
      var k := DirectionOf(v[|v| - 1], w[|w| - 1]);
    }
  }

  /** A set closed under moves that holds the root holds every cell reachable from it. */
  lemma ClosedUnderMoves(grid: seq<seq<int>>, start: Pos, s: set<Pos>, x: Pos)
    requires WellFormed(grid) && NeighbourClosed(grid, s, s)
    requires start in s && Reachable(grid, start, x)
    ensures x in s
  {
    var w :| IsPath(grid, w, start, x);
    WalkStaysInside(grid, s, w);
  }

  /** h never drops by more than one across a unit move. */
  ghost predicate Consistent(h: Pos -> int)
  {
    forall p, q {:trigger Adjacent(p, q)} :: Adjacent(p, q) ==> h(p) <= h(q) + 1
  }

  /**
   * The frontier argument shared by BFS, Dijkstra and A*. Suppose every ranked node that is
   * not closed has rank plus estimate at least `bound`, the root has rank 0, and closed nodes
   * are settled. Then any walk from the root whose length plus estimate stays below `bound`
   * ends at a closed node whose rank is at most the walk's length.
   */
  lemma {:induction false} FrontierBound(grid: seq<seq<int>>, start: Pos, g: map<Pos, nat>, closed: set<Pos>,
                                         h: Pos -> int, bound: int, w: seq<Pos>)
    requires WellFormed(grid)
    requires start in g && g[start] == 0
    requires forall x :: x in g && x !in closed ==> g[x] + h(x) >= bound
    requires Settled(grid, closed, g)
    requires Consistent(h)
    requires IsWalk(grid, w) && w[0] == start
    requires |w| - 1 + h(w[|w| - 1]) < bound
    ensures w[|w| - 1] in closed && g[w[|w| - 1]] <= |w| - 1
  {
    var x := w[|w| - 1];
    if |w| > 1 {
      var v := w[..|w| - 1];
      var y := v[|v| - 1];
      assert Adjacent(y, x);
      assert h(y) <= h(x) + 1;
      FrontierBound(grid, start, g, closed, h, bound, v);
      var k := DirectionOf(y, x);
      assert x in g && g[x] <= g[y] + 1;
    }
  }

  /**
   * With every ranked node closed, the closed set contains every cell reachable from the root:
   * a settled closed set is closed under moves.
   */
  lemma ClosedContainsReachable(grid: seq<seq<int>>, start: Pos, g: map<Pos, nat>, closed: set<Pos>, x: Pos)
    requires WellFormed(grid)
    requires start in g && g[start] == 0 && closed == g.Keys
    requires Settled(grid, closed, g)
    requires Reachable(grid, start, x)
    ensures x in closed
  {
    var w :| IsPath(grid, w, start, x);
    FrontierBound(grid, start, g, closed, _ => 0, |w|, w);
  }
}
