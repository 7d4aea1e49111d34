// A* with unit step cost and the Manhattan-distance estimate: a min-heap of (f, g, cell)
// entries with f = g + estimate, a table of best-known g values and parent map updated
// together, and a closed set that makes stale heap entries be skipped.

module AStar {
  import opened Grid
  import opened Parents
  import opened PriorityQueue
  import opened Relax

  /** heuristic(r, c): the Manhattan distance from p to end. */
  function Heuristic(p: Pos, end: Pos): nat
  {
    Abs(p.row - end.row) + Abs(p.col - end.col)
  }

  /** One move changes the estimate by at most one. */
  lemma HeuristicStep(p: Pos, q: Pos, end: Pos)
    requires Adjacent(p, q)
    ensures Heuristic(p, end) <= Heuristic(q, end) + 1
  {
  }

  /** The estimate towards end as a function of the cell, as the closure `heuristic` is. */
  function Estimate(end: Pos): Pos -> int
  {
    p => Heuristic(p, end)
  }

  /** The estimate is consistent, and it is zero exactly at end. */
  lemma HeuristicConsistent(end: Pos)
    ensures Consistent(Estimate(end))
    ensures forall p :: Heuristic(p, end) == 0 <==> p == end
  {
    forall p, q | Adjacent(p, q)
      ensures Heuristic(p, end) <= Heuristic(q, end) + 1
    {
      HeuristicStep(p, q, end);
    }
  }

  /** Along any walk ending at end, the estimate at its first cell is at most its number of moves. */
  lemma {:induction false} WalkEstimate(grid: seq<seq<int>>, w: seq<Pos>, end: Pos)
    requires WellFormed(grid) && IsWalk(grid, w) && w[|w| - 1] == end
    ensures Heuristic(w[0], end) <= |w| - 1
  {
    if |w| > 1 {
      var v := w[1..];
      assert forall i :: 0 <= i < |v| ==> v[i] == w[i + 1];
      WalkEstimate(grid, v, end);
      HeuristicStep(w[0], w[1], end);
    }
  }

  /** The estimate is admissible: it never exceeds the shortest distance to end. */
  lemma HeuristicAdmissible(grid: seq<seq<int>>, p: Pos, end: Pos, d: nat)
    requires WellFormed(grid) && ShortestDist(grid, p, end, d)
    ensures Heuristic(p, end) <= d
  {
    var w :| IsPath(grid, w, p, end) && |w| == d + 1;
    WalkEstimate(grid, w, end);
  }

  /** A heap entry `(f_score, g_score, (row, col))`. */
  datatype Node = Node(f: int, g: nat, pos: Pos)

  /** The tuple the heap compares: f first, then g, then row, then column. */
  function Key(e: Node): seq<int>
  {
    [e.f, e.g, e.pos.row, e.pos.col]
  }

  /** Heap order on entries: a smaller entry has no larger f. */
  lemma KeyOrder(a: Node, b: Node)
    requires LexLeq(Key(a), Key(b))
    ensures a.f <= b.f
  {
  }

  /**
   * The heap: every entry has f = g + estimate, no entry has g below its cell's recorded g or f
   * below `level`, and every ranked cell that is not closed has the entry of its recorded g.
   */
  ghost predicate Queued(heap: seq<Node>, g: map<Pos, nat>, closed: set<Pos>, h: Pos -> int, level: int)
  {
    (forall e {:trigger e in heap} :: e in heap ==>
       e.pos in g && g[e.pos] <= e.g && e.f == e.g + h(e.pos) && level <= e.f) &&
    (forall x {:trigger x in g} :: x in g && x !in closed ==> Node(g[x] + h(x), g[x], x) in heap)
  }

  /** Closed cells have g plus estimate no higher than `level`. */
  ghost predicate ClosedBelow(closed: set<Pos>, g: map<Pos, nat>, h: Pos -> int, level: int)
  {
    forall x :: x in closed ==> x in g && g[x] + h(x) <= level
  }

  /**
   * The g values at which the cells of the trace were expanded: one per cell, each the
   * shortest distance from start to its cell, with g plus estimate non-decreasing.
   */
  ghost predicate ExpansionCosts(grid: seq<seq<int>>, start: Pos, h: Pos -> int, visitedOrder: seq<Pos>, costs: seq<nat>)
    requires WellFormed(grid)
  {
    |costs| == |visitedOrder| &&
    (forall i, j :: 0 <= i < j < |costs| ==>
       costs[i] + h(visitedOrder[i]) <= costs[j] + h(visitedOrder[j])) &&
    (forall i {:trigger ShortestDist(grid, start, visitedOrder[i], costs[i])} :: 0 <= i < |costs| ==> ShortestDist(grid, start, visitedOrder[i], costs[i]))
  }

  /** No expansion so far happened with g plus estimate above `level`. */
  ghost predicate CostsBelow(visitedOrder: seq<Pos>, costs: seq<nat>, h: Pos -> int, level: int)
  {
    forall i :: 0 <= i < |costs| && i < |visitedOrder| ==> costs[i] + h(visitedOrder[i]) <= level
  }

  /** Expanding a cell at its shortest distance c, with c plus estimate at least `level`, extends the costs. */
  lemma AppendCost(grid: seq<seq<int>>, start: Pos, h: Pos -> int, visitedOrder: seq<Pos>, costs: seq<nat>, level: int,
                   x: Pos, c: nat)
    requires WellFormed(grid) && ExpansionCosts(grid, start, h, visitedOrder, costs)
    requires CostsBelow(visitedOrder, costs, h, level)
    requires level <= c + h(x) && ShortestDist(grid, start, x, c)
    ensures ExpansionCosts(grid, start, h, visitedOrder + [x], costs + [c])
    ensures CostsBelow(visitedOrder + [x], costs + [c], h, c + h(x))
  {
    var vo, cs := visitedOrder + [x], costs + [c];
    assert forall i :: 0 <= i < |costs| ==> vo[i] == visitedOrder[i] && cs[i] == costs[i];
    assert vo[|costs|] == x && cs[|costs|] == c;
  }

  /** A popped entry whose cell is closed is discarded; the rest of the heap is no lower than it. */
  lemma PopStale(heap: seq<Node>, top: Node, rest: seq<Node>, g: map<Pos, nat>, closed: set<Pos>, h: Pos -> int, level: int)
    requires Queued(heap, g, closed, h, level)
    requires multiset(heap) == multiset(rest) + multiset{top}
    requires forall e :: e in heap ==> LexLeq(Key(top), Key(e))
    requires top.pos in closed
    ensures level <= top.f && Queued(rest, g, closed, h, top.f)
  {
    assert top in multiset(heap);
    forall e | e in rest
      ensures e in heap && top.f <= e.f
    {
      assert e in multiset(heap);
      KeyOrder(top, e);
    }
    forall x | x in g && x !in closed
      ensures Node(g[x] + h(x), g[x], x) in rest
    {
      assert Node(g[x] + h(x), g[x], x) in multiset(heap);
    }
  }

  /**
   * A popped entry whose cell is not closed carries that cell's recorded g, and its f is the
   * smallest g plus estimate of any ranked cell not closed; the cell can then be closed.
   */
  lemma PopFresh(heap: seq<Node>, top: Node, rest: seq<Node>, g: map<Pos, nat>, closed: set<Pos>, h: Pos -> int, level: int)
    requires Queued(heap, g, closed, h, level) && ClosedBelow(closed, g, h, level)
    requires multiset(heap) == multiset(rest) + multiset{top}
    requires forall e :: e in heap ==> LexLeq(Key(top), Key(e))
    requires top.pos !in closed
    ensures top.pos in g && g[top.pos] == top.g && top.f == top.g + h(top.pos) && level <= top.f
    ensures forall y :: y in g && y !in closed ==> g[y] + h(y) >= top.f
    ensures Queued(rest, g, closed + {top.pos}, h, top.f) && ClosedBelow(closed + {top.pos}, g, h, top.f)
  {
    assert top in multiset(heap);
    var cur := top.pos;
    assert top in heap;
    assert Node(g[cur] + h(cur), g[cur], cur) in heap;
    KeyOrder(top, Node(g[cur] + h(cur), g[cur], cur));
    forall y | y in g && y !in closed
      ensures g[y] + h(y) >= top.f
    {
      assert Node(g[y] + h(y), g[y], y) in heap;
      KeyOrder(top, Node(g[y] + h(y), g[y], y));
    }
    forall e | e in rest
      ensures e in heap && top.f <= e.f
    {
      assert e in multiset(heap);
      KeyOrder(top, e);
    }
    forall x | x in g && x !in closed + {cur}
      ensures Node(g[x] + h(x), g[x], x) in rest
    {
      assert Node(g[x] + h(x), g[x], x) in multiset(heap);
    }
  }

  /**
   * Expanding the cell of a fresh entry: it is closed at its recorded g, which is its shortest
   * distance from start, and its f is no smaller than that of any expansion before.
   */
  lemma ExpandNode(grid: seq<seq<int>>, start: Pos, h: Pos -> int, heap: seq<Node>, top: Node, rest: seq<Node>,
                   g: map<Pos, nat>, parent: map<Pos, Option<Pos>>, closed: set<Pos>, level: int,
                   visitedOrder: seq<Pos>, costs: seq<nat>, nodesExpanded: nat)
    requires WellFormed(grid) && Ranked(grid, start, g, parent, closed)
    requires Queued(heap, g, closed, h, level) && ClosedBelow(closed, g, h, level) && Settled(grid, closed, g)
    requires ExpansionTrace(grid, closed, visitedOrder, nodesExpanded)
    requires ExpansionCosts(grid, start, h, visitedOrder, costs) && CostsBelow(visitedOrder, costs, h, level)
    requires multiset(heap) == multiset(rest) + multiset{top}
    requires forall e :: e in heap ==> LexLeq(Key(top), Key(e))
    requires top.pos !in closed && Consistent(h)
    ensures top.pos in g && g[top.pos] == top.g && top.f == top.g + h(top.pos) && level <= top.f
    ensures Queued(rest, g, closed + {top.pos}, h, top.f) && ClosedBelow(closed + {top.pos}, g, h, top.f)
    ensures ExpansionTrace(grid, closed + {top.pos}, visitedOrder + [top.pos], nodesExpanded + 1)
    ensures nodesExpanded + 1 <= |grid| * |grid[0]|
    ensures ExpansionCosts(grid, start, h, visitedOrder + [top.pos], costs + [top.g])
    ensures CostsBelow(visitedOrder + [top.pos], costs + [top.g], h, top.f)
    ensures ShortestDist(grid, start, top.pos, top.g)
    ensures Ranked(grid, start, g, parent, closed + {top.pos})
  {
    var cur := top.pos;
    RankedClose(grid, start, g, parent, closed, cur);
    PopFresh(heap, top, rest, g, closed, h, level);
    ExpandedIsShortest(grid, start, parent, g, closed, h, cur);
    AppendCost(grid, start, h, visitedOrder, costs, level, cur, top.g);
    ExpandCell(grid, expanded := closed, visitedOrder := visitedOrder, nodesExpanded := nodesExpanded, x := cur);
  }

  /** Pushing (nd + estimate, nd, next) while lowering next's g to nd keeps the heap invariant. */
  lemma PushNode(heap: seq<Node>, g: map<Pos, nat>, closed: set<Pos>, h: Pos -> int, level: int, next: Pos, nd: nat)
    requires Queued(heap, g, closed, h, level) && ClosedBelow(closed, g, h, level)
    requires level <= nd + h(next) && next !in closed && (next in g ==> nd < g[next])
    ensures Queued(heap + [Node(nd + h(next), nd, next)], g[next := nd], closed, h, level)
    ensures ClosedBelow(closed, g[next := nd], h, level)
  {
  }

  /**
   * The heap after relaxing the first k directions of c with g value nd: the entry
   * (nd + estimate, nd, cell) of each improved neighbour is pushed, in direction order.
   */
  ghost function Pushed(grid: seq<seq<int>>, c: Pos, k: nat, closed: set<Pos>, g: map<Pos, nat>, nd: nat,
                        h: Pos -> int, heap: seq<Node>): seq<Node>
    requires WellFormed(grid) && k <= 4
  {
    if k == 0 then heap else
      var n := Step(c, k - 1);
      var pushed := Pushed(grid, c, k - 1, closed, g, nd, h, heap);
      if Improves(grid, closed, g, n, nd) then pushed + [Node(nd + h(n), nd, n)] else pushed
  }

  /**
   * Relaxing the first k directions pushes one entry per improved cell, after the entries
   * already in the heap: the entry (nd + estimate, nd, cell) of that cell.
   */
  lemma {:induction false} PushedSpec(grid: seq<seq<int>>, c: Pos, k: nat, closed: set<Pos>, g: map<Pos, nat>, nd: nat,
                                      h: Pos -> int, heap: seq<Node>)
    requires WellFormed(grid) && k <= 4
    ensures var pushed, imp := Pushed(grid, c, k, closed, g, nd, h, heap), Improved(grid, c, k, closed, g, nd);
      heap <= pushed && |pushed| == |heap| + |imp| &&
      (forall i :: |heap| <= i < |pushed| ==> pushed[i].pos in imp && pushed[i] == Node(nd + h(pushed[i].pos), nd, pushed[i].pos)) &&
      (forall x :: x in imp ==> Node(nd + h(x), nd, x) in pushed[|heap|..])
  {
    if k > 0 {
      PushedSpec(grid, c, k - 1, closed, g, nd, h, heap);
      ImprovedNext(grid, c, k - 1, closed, g, nd);
      var n, pushed := Step(c, k - 1), Pushed(grid, c, k - 1, closed, g, nd, h, heap);
      var imp := Improved(grid, c, k - 1, closed, g, nd);
      if Improves(grid, closed, g, n, nd) {
        var e := Node(nd + h(n), nd, n);
        assert Pushed(grid, c, k, closed, g, nd, h, heap) == pushed + [e];
        assert Improved(grid, c, k, closed, g, nd) == imp + {n};
        assert (pushed + [e])[|heap|..] == pushed[|heap|..] + [e];
        forall i | |heap| <= i < |pushed| + 1
          ensures (pushed + [e])[i].pos in imp + {n}
          ensures (pushed + [e])[i] == Node(nd + h((pushed + [e])[i].pos), nd, (pushed + [e])[i].pos)
        {
          if i < |pushed| {
            assert (pushed + [e])[i] == pushed[i];
          }
        }
      }
    }
  }

  /** One more direction pushes, lowers and relinks its cell exactly when the relaxation improves it. */
  lemma RelaxedNext(grid: seq<seq<int>>, c: Pos, k: nat, closed: set<Pos>, g: map<Pos, nat>, nd: nat, h: Pos -> int,
                    heap: seq<Node>, parent: map<Pos, Option<Pos>>)
    requires WellFormed(grid) && k < 4
    ensures var n := Step(c, k);
      Improves(grid, closed, Lowered(grid, c, k, closed, g, nd), n, nd) <==> Improves(grid, closed, g, n, nd)
    ensures var n := Step(c, k);
      if Improves(grid, closed, g, n, nd) then
        Pushed(grid, c, k + 1, closed, g, nd, h, heap) == Pushed(grid, c, k, closed, g, nd, h, heap) + [Node(nd + h(n), nd, n)] &&
        Lowered(grid, c, k + 1, closed, g, nd) == Lowered(grid, c, k, closed, g, nd)[n := nd] &&
        Relinked(grid, c, k + 1, closed, g, nd, parent) == Relinked(grid, c, k, closed, g, nd, parent)[n := Some(c)]
      else
        Pushed(grid, c, k + 1, closed, g, nd, h, heap) == Pushed(grid, c, k, closed, g, nd, h, heap) &&
        Lowered(grid, c, k + 1, closed, g, nd) == Lowered(grid, c, k, closed, g, nd) &&
        Relinked(grid, c, k + 1, closed, g, nd, parent) == Relinked(grid, c, k, closed, g, nd, parent)
  {
    LoweredAhead(grid, c, k, k, closed, g, nd);
  }

  /** The estimate at c is at most one more than at each of its four neighbours. */
  ghost predicate ConsistentAt(h: Pos -> int, c: Pos)
  {
    forall j :: 0 <= j < 4 ==> h(c) <= h(Step(c, j)) + 1
  }

  /** A consistent estimate is consistent at every cell. */
  lemma ConsistentEverywhere(h: Pos -> int, c: Pos)
    requires Consistent(h)
    ensures ConsistentAt(h, c)
  {
    forall j | 0 <= j < 4
      ensures h(c) <= h(Step(c, j)) + 1
    {
      StepAdjacent(c, Step(c, j));
    }
  }

  /**
   * The relaxation loop after k directions: the table, heap and closed cells keep their
   * invariants with `cur` closed at g value d, the cells closed before `cur` stay settled, and
   * the open neighbours looked at so far have g at most d + 1.
   */
  ghost predicate RelaxLoop(grid: seq<seq<int>>, start: Pos, h: Pos -> int, cur: Pos, d: nat, k: nat, closed: set<Pos>,
                            before: set<Pos>, heap: seq<Node>, g: map<Pos, nat>, parent: map<Pos, Option<Pos>>)
    requires WellFormed(grid) && k <= 4
  {
    Ranked(grid, start, g, parent, closed) && Queued(heap, g, closed, h, d + h(cur)) &&
    ClosedBelow(closed, g, h, d + h(cur)) && Settled(grid, before, g) &&
    cur in closed && cur in g && g[cur] == d &&
    NeighboursRanked(grid, cur, k, g, d + 1)
  }

  /**
   * A direction whose cell is a wall, out of bounds, closed or not improved changes nothing;
   * a closed neighbour already has g at most d + 1 because the estimate is consistent.
   */
  lemma SkipRelax(grid: seq<seq<int>>, start: Pos, h: Pos -> int, cur: Pos, d: nat, k: nat, closed: set<Pos>,
                  before: set<Pos>, heap: seq<Node>, g: map<Pos, nat>, parent: map<Pos, Option<Pos>>)
    requires WellFormed(grid) && k < 4 && h(cur) <= h(Step(cur, k)) + 1
    requires RelaxLoop(grid, start, h, cur, d, k, closed, before, heap, g, parent)
    requires !Improves(grid, closed, g, Step(cur, k), d + 1)
    ensures RelaxLoop(grid, start, h, cur, d, k + 1, closed, before, heap, g, parent)
  {
    RankNext(grid, cur, k, g, d + 1);
  }

  /**
   * Improving an open neighbour that is not closed: its g becomes nd = d + 1, its parent `cur`,
   * and the entry (nd + estimate, nd, cell) is pushed.
   */
  lemma DoRelax(grid: seq<seq<int>>, start: Pos, h: Pos -> int, cur: Pos, d: nat, nd: nat, k: nat, closed: set<Pos>,
                before: set<Pos>, heap: seq<Node>, g: map<Pos, nat>, parent: map<Pos, Option<Pos>>)
    requires WellFormed(grid) && k < 4 && before <= closed && h(cur) <= h(Step(cur, k)) + 1 && nd == d + 1
    requires RelaxLoop(grid, start, h, cur, d, k, closed, before, heap, g, parent)
    requires Improves(grid, closed, g, Step(cur, k), nd)
    ensures var next := Step(cur, k);
      RelaxLoop(grid, start, h, cur, d, k + 1, closed, before,
                heap + [Node(nd + h(next), nd, next)], g[next := nd], parent[next := Some(cur)])
  {
    var next := Step(cur, k);
    StepAdjacent(cur, next);
    RankBelow(grid, start, g, parent, closed, cur, next);
    PushNode(heap, g, closed, h, d + h(cur), next, nd);
    SettledRank(grid, before, g, next, nd);
    RankNeighbour(grid, cur, k, g, nd, next, nd);
    RankNext(grid, cur, k, g[next := nd], nd);
  }

  /**
   * Direction k keeps the loop invariants: when the relaxation improves its cell, with the
   * cell pushed, lowered and relinked, and otherwise unchanged.
   */
  lemma RelaxStep(grid: seq<seq<int>>, start: Pos, h: Pos -> int, cur: Pos, d: nat, nd: nat, k: nat, closed: set<Pos>,
                  before: set<Pos>, heap: seq<Node>, g: map<Pos, nat>, parent: map<Pos, Option<Pos>>)
    requires WellFormed(grid) && k < 4 && before <= closed && h(cur) <= h(Step(cur, k)) + 1 && nd == d + 1
    requires RelaxLoop(grid, start, h, cur, d, k, closed, before, heap, g, parent)
    ensures var next := Step(cur, k);
      if Improves(grid, closed, g, next, nd) then
        RelaxLoop(grid, start, h, cur, d, k + 1, closed, before,
                  heap + [Node(nd + h(next), nd, next)], g[next := nd], parent[next := Some(cur)])
      else
        RelaxLoop(grid, start, h, cur, d, k + 1, closed, before, heap, g, parent)
  {
    if Improves(grid, closed, g, Step(cur, k), nd) {
      DoRelax(grid, start, h, cur, d, nd, k, closed, before, heap, g, parent);
    } else {
      SkipRelax(grid, start, h, cur, d, k, closed, before, heap, g, parent);
    }
  }

  /**
   * One pass of the neighbour loop, for direction k: a neighbour that is a wall, out of
   * bounds or closed is skipped; otherwise, when d + 1 improves on its recorded g, it gets g
   * value d + 1 and parent `cur`, and (d + 1 + estimate, d + 1, cell) is pushed. The loop
   * invariants carry over to k + 1.
   */
  method RelaxDirection(grid: seq<seq<int>>, ghost start: Pos, h: Pos -> int, cur: Pos, d: nat, k: nat,
                        closed: set<Pos>, ghost before: set<Pos>, heap: seq<Node>, g: map<Pos, nat>,
                        parent: map<Pos, Option<Pos>>)
    returns (heap': seq<Node>, g': map<Pos, nat>, parent': map<Pos, Option<Pos>>)
    requires WellFormed(grid) && k < 4 && before <= closed && h(cur) <= h(Step(cur, k)) + 1
    requires RelaxLoop(grid, start, h, cur, d, k, closed, before, heap, g, parent)
    ensures RelaxLoop(grid, start, h, cur, d, k + 1, closed, before, heap', g', parent')
    ensures var next := Step(cur, k);
      if Improves(grid, closed, g, next, d + 1) then
        heap' == heap + [Node(d + 1 + h(next), d + 1, next)] && g' == g[next := d + 1] && parent' == parent[next := Some(cur)]
      else
        heap' == heap && g' == g && parent' == parent
  {
    heap', g', parent' := heap, g, parent;
    var next := Step(cur, k);
    var tentative := d + 1;
    RelaxStep(grid, start, h, cur, d, tentative, k, closed, before, heap, g, parent);
    if !IsValid(grid, next) || next in closed {
      return;
    }
    if next !in g || tentative < g[next] {
      parent' := parent[next := Some(cur)];
      g' := g[next := tentative];
      heap' := heap + [Node(tentative + h(next), tentative, next)];
    }
  }

  /**
   * The neighbour loop of one expansion at g value d: in the order right, down, left, up, each
   * open neighbour that is not closed and whose g is unknown or above d + 1 gets g value d + 1
   * and parent `cur`, and (d + 1 + estimate, d + 1, cell) is pushed. Afterwards `cur` is
   * settled: each of its open neighbours has g at most d + 1. Closed cells keep their g.
   */
  method RelaxNeighbours(grid: seq<seq<int>>, ghost start: Pos, h: Pos -> int, cur: Pos, d: nat, heap: seq<Node>,
                         g: map<Pos, nat>, parent: map<Pos, Option<Pos>>, closed: set<Pos>, ghost before: set<Pos>)
    returns (heap': seq<Node>, g': map<Pos, nat>, parent': map<Pos, Option<Pos>>)
    requires WellFormed(grid) && closed == before + {cur} && ConsistentAt(h, cur)
    requires Ranked(grid, start, g, parent, closed) && Queued(heap, g, closed, h, d + h(cur))
    requires ClosedBelow(closed, g, h, d + h(cur)) && Settled(grid, before, g)
    requires cur in g && g[cur] == d
    ensures Ranked(grid, start, g', parent', closed) && Queued(heap', g', closed, h, d + h(cur))
    ensures ClosedBelow(closed, g', h, d + h(cur)) && Settled(grid, closed, g')
    ensures heap' == Pushed(grid, cur, 4, closed, g, d + 1, h, heap)
    ensures g' == Lowered(grid, cur, 4, closed, g, d + 1) && parent' == Relinked(grid, cur, 4, closed, g, d + 1, parent)
  {
    heap', g', parent' := heap, g, parent;
    for k := 0 to 4
      invariant RelaxLoop(grid, start, h, cur, d, k, closed, before, heap', g', parent')
      invariant heap' == Pushed(grid, cur, k, closed, g, d + 1, h, heap)
      invariant g' == Lowered(grid, cur, k, closed, g, d + 1) && parent' == Relinked(grid, cur, k, closed, g, d + 1, parent)
    {
      RelaxedNext(grid, cur, k, closed, g, d + 1, h, heap, parent);
      heap', g', parent' := RelaxDirection(grid, start, h, cur, d, k, closed, before, heap', g', parent');
    }
    SettleNode(grid, before, g', cur);
  }

  /** Once the heap is empty, every cell reachable from start has been closed. */
  lemma ExhaustedCoversReachable(grid: seq<seq<int>>, start: Pos, h: Pos -> int, g: map<Pos, nat>,
                                 parent: map<Pos, Option<Pos>>, closed: set<Pos>, level: int, x: Pos)
    requires WellFormed(grid) && Ranked(grid, start, g, parent, closed)
    requires Queued([], g, closed, h, level) && ClosedBelow(closed, g, h, level) && Settled(grid, closed, g)
    requires Reachable(grid, start, x)
    ensures x in closed
  {
    assert closed == g.Keys;
    ClosedContainsReachable(grid, start, g, closed, x);
  }

  /** The state before the first iteration: only start is ranked, at g = 0, with one heap entry. */
  lemma InitState(grid: seq<seq<int>>, start: Pos, h: Pos -> int)
    requires WellFormed(grid) && IsValid(grid, start)
    ensures Ranked(grid, start, map[start := 0], map[start := None], {})
    ensures Queued([Node(h(start), 0, start)], map[start := 0], {}, h, h(start))
    ensures Settled(grid, {}, map[start := 0]) && ExpansionTrace(grid, {}, [], 0)
  {
  }

  /**
   * When the heap runs empty without reaching end, the trace holds exactly the cells reachable
   * from start: each was expanded at its shortest distance, and every reachable cell was closed.
   */
  lemma ExhaustedTrace(grid: seq<seq<int>>, start: Pos, h: Pos -> int, g: map<Pos, nat>,
                       parent: map<Pos, Option<Pos>>, closed: set<Pos>, level: int, visitedOrder: seq<Pos>,
                       costs: seq<nat>, nodesExpanded: nat)
    requires WellFormed(grid) && Ranked(grid, start, g, parent, closed)
    requires Queued([], g, closed, h, level) && ClosedBelow(closed, g, h, level) && Settled(grid, closed, g)
    requires ExpansionTrace(grid, closed, visitedOrder, nodesExpanded) && ExpansionCosts(grid, start, h, visitedOrder, costs)
    ensures forall x :: x in visitedOrder <==> Reachable(grid, start, x)
  {
    forall x | Reachable(grid, start, x)
      ensures x in closed
    {
      ExhaustedCoversReachable(grid, start, h, g, parent, closed, level, x);
    }
    ShortestReachable(grid, start, visitedOrder, costs);
  }

  /**
   * The search loop of a_star(grid, start, end) with a consistent estimate `heuristic`. The
   * result reports whether end is reachable; when it is, the path is a shortest walk from start
   * to end (the estimate is consistent, so the search is optimal), and when it is not, the path
   * is empty. Cells are expanded once each, each at its shortest distance from start (the ghost
   * `costs`), in non-decreasing order of distance plus estimate, and the counter equals the
   * length of the trace.
   */
  method Search(grid: seq<seq<int>>, start: Pos, end: Pos, heuristic: Pos -> int) returns (r: SearchResult, ghost costs: seq<nat>)
    requires ValidRequest(grid, start, end) && Consistent(heuristic)
    ensures r.nodesExpanded == |r.visited| <= |grid| * |grid[0]|
    ensures Distinct(r.visited) && forall i :: 0 <= i < |r.visited| ==> IsValid(grid, r.visited[i])
    ensures ExpansionCosts(grid, start, heuristic, r.visited, costs)
    ensures r.found <==> Reachable(grid, start, end)
    ensures r.found ==> IsPath(grid, r.path, start, end) && Distinct(r.path)
    ensures r.found ==> ShortestDist(grid, start, end, |r.path| - 1)
    ensures !r.found ==> r.path == [] && forall x :: x in r.visited <==> Reachable(grid, start, x)
    ensures start == end ==> r.found && r.path == [start] && r.nodesExpanded == 1
  {
    var visitedOrder := [];
    var nodesExpanded := 0;
    var openSet := [Node(heuristic(start), 0, start)];
    var cameFrom := map[start := None];
    var gScore := map[start := 0];
    var closed: set<Pos> := {};
    ghost var level := heuristic(start);
    costs := [];
    InitState(grid, start, heuristic);

    while |openSet| > 0
      invariant Ranked(grid, start, gScore, cameFrom, closed) && Queued(openSet, gScore, closed, heuristic, level)
      invariant ClosedBelow(closed, gScore, heuristic, level) && Settled(grid, closed, gScore)
      invariant ExpansionTrace(grid, closed, visitedOrder, nodesExpanded)
      invariant ExpansionCosts(grid, start, heuristic, visitedOrder, costs) && CostsBelow(visitedOrder, costs, heuristic, level)
      invariant nodesExpanded <= |grid| * |grid[0]|
      invariant end !in closed
      invariant start == end ==> visitedOrder == [] && openSet == [Node(heuristic(start), 0, start)]
      decreases |grid| * |grid[0]| - nodesExpanded, |openSet|
    {
      var top, rest := PopMin(openSet, Key);
      if top.pos in closed {
        PopStale(openSet, top, rest, gScore, closed, heuristic, level);
        openSet := rest;
        level := top.f;
        // Restates the loop invariant at the new level; kept as a hint that keeps the solver's cost down.
        assert Queued(openSet, gScore, closed, heuristic, level);
        continue;
      }
      ExpandNode(grid, start, heuristic, openSet, top, rest, gScore, cameFrom, closed, level, visitedOrder, costs, nodesExpanded);
      var currentG, current := top.g, top.pos;
      openSet := rest;
      ghost var before := closed;
      nodesExpanded := nodesExpanded + 1;
      visitedOrder := visitedOrder + [current];
      closed := closed + {current};
      level := top.f;
      costs := costs + [currentG];

      if current == end {
        var trace := TraceChain(cameFrom, gScore, start, Some(end));
        RootPath(grid, cameFrom, gScore, start, end, trace);
        return SearchResult(true, nodesExpanded, Reverse(trace), visitedOrder), costs;
      }

      ConsistentEverywhere(heuristic, current);
      openSet, gScore, cameFrom := RelaxNeighbours(grid, start, heuristic, current, currentG, openSet, gScore, cameFrom, closed, before);
      // As above: a hint for the solver, restating the invariant after the relaxation.
      assert Queued(openSet, gScore, closed, heuristic, level);
    }
    ExhaustedTrace(grid, start, heuristic, gScore, cameFrom, closed, level, visitedOrder, costs, nodesExpanded);
    return SearchResult(false, nodesExpanded, [], visitedOrder), costs;
  }

  /**
   * a_star(grid, start, end): the search loop with the Manhattan distance to end as the
   * estimate, which is consistent, so the path found is a shortest one.
   */
  method AStar(grid: seq<seq<int>>, start: Pos, end: Pos) returns (r: SearchResult, ghost costs: seq<nat>)
    requires ValidRequest(grid, start, end)
    ensures r.nodesExpanded == |r.visited| <= |grid| * |grid[0]|
    ensures Distinct(r.visited) && forall i :: 0 <= i < |r.visited| ==> IsValid(grid, r.visited[i])
    ensures ExpansionCosts(grid, start, Estimate(end), r.visited, costs)
    ensures r.found <==> Reachable(grid, start, end)
    ensures r.found ==> IsPath(grid, r.path, start, end) && Distinct(r.path)
    ensures r.found ==> ShortestDist(grid, start, end, |r.path| - 1)
    ensures !r.found ==> r.path == [] && forall x :: x in r.visited <==> Reachable(grid, start, x)
    ensures start == end ==> r.found && r.path == [start] && r.nodesExpanded == 1
  {
    HeuristicConsistent(end);
    r, costs := Search(grid, start, end, Estimate(end));
  }
}
