// What Dijkstra's algorithm and A* share: a table of best-known distances from the start,
// updated together with the parent map, and the relaxation that lowers an entry through a
// newly closed neighbour.

module Relax {
  import opened Grid
  import opened Parents

  /** The parent of x, unless x is the start or no key, is a closed cell. */
  ghost predicate ParentClosed(parent: map<Pos, Option<Pos>>, start: Pos, closed: set<Pos>, x: Pos)
  {
    x in parent && x != start ==> parent[x].Some? && parent[x].value in closed
  }

  /**
   * The distance table and the parent map: the parent links form a tree rooted at start whose
   * depth is the distance, over open cells, and every parent is a closed cell (so a cell that
   * is not closed has no children yet). As with the links of the tree, the last part is only
   * unfolded for a key a proof names.
   */
  ghost predicate Ranked(grid: seq<seq<int>>, start: Pos, dist: map<Pos, nat>, parent: map<Pos, Option<Pos>>,
                         closed: set<Pos>)
    requires WellFormed(grid)
  {
    ParentTree(parent, dist, start) && AllOpen(grid, parent.Keys) &&
    forall x {:trigger ParentClosed(parent, start, closed, x)} :: ParentClosed(parent, start, closed, x)
  }

  /** Closing one more cell keeps the table ranked. */
  lemma RankedClose(grid: seq<seq<int>>, start: Pos, dist: map<Pos, nat>, parent: map<Pos, Option<Pos>>,
                    closed: set<Pos>, c: Pos)
    requires WellFormed(grid) && Ranked(grid, start, dist, parent, closed)
    ensures Ranked(grid, start, dist, parent, closed + {c})
  {
    forall x
      ensures ParentClosed(parent, start, closed + {c}, x)
    {
      assert ParentClosed(parent, start, closed, x);
    }
  }

  /** Ranking an open cell that is not closed one below a closed cell keeps the tree. */
  lemma RankBelow(grid: seq<seq<int>>, start: Pos, dist: map<Pos, nat>, parent: map<Pos, Option<Pos>>,
                  closed: set<Pos>, cur: Pos, next: Pos)
    requires WellFormed(grid) && Ranked(grid, start, dist, parent, closed)
    requires cur in closed && cur in parent && Adjacent(cur, next) && IsValid(grid, next) && next !in closed
    requires next in dist ==> dist[cur] + 1 < dist[next]
    ensures Ranked(grid, start, dist[next := dist[cur] + 1], parent[next := Some(cur)], closed)
  {
    forall y | y in parent
      ensures parent[y] != Some(next)
    {
      assert ParentClosed(parent, start, closed, y);
    }
    SetParent(parent, dist, start, cur, next);
    var parent' := parent[next := Some(cur)];
    forall x
      ensures ParentClosed(parent', start, closed, x)
    {
      assert ParentClosed(parent, start, closed, x);
    }
  }

  /** x is improved by a relaxation offering distance nd: open, not closed, and unranked or ranked above nd. */
  ghost predicate Improves(grid: seq<seq<int>>, closed: set<Pos>, dist: map<Pos, nat>, x: Pos, nd: nat)
    requires WellFormed(grid)
  {
    IsValid(grid, x) && x !in closed && (x !in dist || nd < dist[x])
  }

  /** The neighbours of c, among the first k directions, that a relaxation offering nd improves. */
  ghost function Improved(grid: seq<seq<int>>, c: Pos, k: nat, closed: set<Pos>, dist: map<Pos, nat>, nd: nat): set<Pos>
    requires WellFormed(grid) && k <= 4
  {
    if k == 0 then {} else
      var n := Step(c, k - 1);
      Improved(grid, c, k - 1, closed, dist, nd) + (if Improves(grid, closed, dist, n, nd) then {n} else {})
  }

  /**
   * The improved cells are improved neighbours of c; among the first k directions a neighbour
   * is in the set exactly when the relaxation improves it, and no later direction is in it yet.
   */
  lemma {:induction false} ImprovedSpec(grid: seq<seq<int>>, c: Pos, k: nat, closed: set<Pos>, dist: map<Pos, nat>, nd: nat)
    requires WellFormed(grid) && k <= 4
    ensures forall x :: x in Improved(grid, c, k, closed, dist, nd) ==> Improves(grid, closed, dist, x, nd) && Adjacent(c, x)
    ensures forall j :: 0 <= j < k ==> (Step(c, j) in Improved(grid, c, k, closed, dist, nd) <==> Improves(grid, closed, dist, Step(c, j), nd))
    ensures forall j :: k <= j < 4 ==> Step(c, j) !in Improved(grid, c, k, closed, dist, nd)
  {
    if k > 0 {
      ImprovedSpec(grid, c, k - 1, closed, dist, nd);
      var n := Step(c, k - 1);
      forall j | k <= j < 4
        ensures Step(c, j) != n
      {
        StepsDiffer(c, j, k - 1);
      }
      StepAdjacent(c, n);
    }
  }

  /** One more direction adds its cell to the improved set exactly when the relaxation improves it. */
  lemma ImprovedNext(grid: seq<seq<int>>, c: Pos, k: nat, closed: set<Pos>, dist: map<Pos, nat>, nd: nat)
    requires WellFormed(grid) && k < 4
    ensures Step(c, k) !in Improved(grid, c, k, closed, dist, nd)
    ensures Improved(grid, c, k + 1, closed, dist, nd) ==
            Improved(grid, c, k, closed, dist, nd) + (if Improves(grid, closed, dist, Step(c, k), nd) then {Step(c, k)} else {})
  {
    ImprovedSpec(grid, c, k, closed, dist, nd);
  }

  /** The table after relaxing the first k directions of c with nd: each improved cell gets nd. */
  ghost function Lowered(grid: seq<seq<int>>, c: Pos, k: nat, closed: set<Pos>, dist: map<Pos, nat>, nd: nat): map<Pos, nat>
    requires WellFormed(grid) && k <= 4
  {
    if k == 0 then dist else
      var n := Step(c, k - 1);
      var lowered := Lowered(grid, c, k - 1, closed, dist, nd);
      if Improves(grid, closed, dist, n, nd) then lowered[n := nd] else lowered
  }

  /** The parent map after relaxing the first k directions of c with nd: each improved cell gets parent c. */
  ghost function Relinked(grid: seq<seq<int>>, c: Pos, k: nat, closed: set<Pos>, dist: map<Pos, nat>, nd: nat,
                          parent: map<Pos, Option<Pos>>): map<Pos, Option<Pos>>
    requires WellFormed(grid) && k <= 4
  {
    if k == 0 then parent else
      var n := Step(c, k - 1);
      var relinked := Relinked(grid, c, k - 1, closed, dist, nd, parent);
      if Improves(grid, closed, dist, n, nd) then relinked[n := Some(c)] else relinked
  }

  /**
   * Relaxing the first k directions leaves the entry of each later direction's cell as it was,
   * so testing it against the current table is testing it against the table before the loop.
   */
  lemma {:induction false} LoweredAhead(grid: seq<seq<int>>, c: Pos, k: nat, j: nat, closed: set<Pos>,
                                        dist: map<Pos, nat>, nd: nat)
    requires WellFormed(grid) && k <= j < 4
    ensures Improves(grid, closed, Lowered(grid, c, k, closed, dist, nd), Step(c, j), nd) <==>
            Improves(grid, closed, dist, Step(c, j), nd)
  {
    if k > 0 {
      LoweredAhead(grid, c, k - 1, j, closed, dist, nd);
      StepsDiffer(c, j, k - 1);
    }
  }

  /**
   * After the first k directions, exactly the improved cells have the new distance and parent
   * c; every other cell keeps its key, distance and parent.
   */
  lemma {:induction false} LoweredSpec(grid: seq<seq<int>>, c: Pos, k: nat, closed: set<Pos>, dist: map<Pos, nat>,
                                       nd: nat, parent: map<Pos, Option<Pos>>)
    requires WellFormed(grid) && k <= 4
    ensures var imp, dist', parent' := Improved(grid, c, k, closed, dist, nd), Lowered(grid, c, k, closed, dist, nd),
                                       Relinked(grid, c, k, closed, dist, nd, parent);
      (forall x :: x in imp ==> x in dist' && dist'[x] == nd && x in parent' && parent'[x] == Some(c)) &&
      (forall x :: x !in imp ==> (x in dist' <==> x in dist) && (x in parent' <==> x in parent)) &&
      (forall x :: x in dist && x !in imp ==> dist'[x] == dist[x]) &&
      (forall x :: x in parent && x !in imp ==> parent'[x] == parent[x])
  {
    if k > 0 {
      LoweredSpec(grid, c, k - 1, closed, dist, nd, parent);
      ImprovedNext(grid, c, k - 1, closed, dist, nd);
    }
  }
}
