// Dijkstra's algorithm with unit step cost: a min-heap of (distance, cell) entries, a distance
// table and parent map updated together, and a closed set that makes stale heap entries be
// skipped (lazy deletion).

module Dijkstra {
  import opened Grid
  import opened Parents
  import opened PriorityQueue
  import opened Relax

  /** A heap entry `(dist, (row, col))`. */
  datatype Entry = Entry(dist: nat, pos: Pos)

  /** The tuple the heap compares: distance first, then row, then column. */
  function Key(e: Entry): seq<int>
  {
    [e.dist, e.pos.row, e.pos.col]
  }

  /** Heap order on entries: a smaller entry has no larger distance, and equal keys are equal entries. */
  lemma KeyOrder(a: Entry, b: Entry)
    requires LexLeq(Key(a), Key(b))
    ensures a.dist <= b.dist
    ensures LexLeq(Key(b), Key(a)) ==> a == b
  {
    if LexLeq(Key(b), Key(a)) {
      LexLeqAntisym(Key(a), Key(b));
      assert Key(a)[0] == Key(b)[0] && Key(a)[1] == Key(b)[1] && Key(a)[2] == Key(b)[2];
    }
  }

  /**
   * The heap: no entry is below its cell's recorded distance or below `level`, and every ranked
   * cell that is not closed has an entry carrying exactly its recorded distance.
   */
  ghost predicate Queued(heap: seq<Entry>, dist: map<Pos, nat>, closed: set<Pos>, level: nat)
  {
    (forall e :: e in heap ==> e.pos in dist && dist[e.pos] <= e.dist && level <= e.dist) &&
    (forall x :: x in dist && x !in closed ==> Entry(dist[x], x) in heap)
  }

  /** Closed cells are ranked no higher than `level`. */
  ghost predicate ClosedBelow(closed: set<Pos>, dist: map<Pos, nat>, level: nat)
  {
    forall x :: x in closed ==> x in dist && dist[x] <= level
  }

  /** A popped entry whose cell is closed is discarded; the rest of the heap is no lower than it. */
  lemma PopStale(heap: seq<Entry>, top: Entry, rest: seq<Entry>, dist: map<Pos, nat>, closed: set<Pos>, level: nat)
    requires Queued(heap, dist, closed, level)
    requires multiset(heap) == multiset(rest) + multiset{top}
    requires forall e :: e in heap ==> LexLeq(Key(top), Key(e))
    requires top.pos in closed
    ensures level <= top.dist && Queued(rest, dist, closed, top.dist)
  {
    assert top in multiset(heap);
    forall e | e in rest
      ensures e in heap && top.dist <= e.dist
    {
      assert e in multiset(heap);
      KeyOrder(top, e);
    }
    forall x | x in dist && x !in closed
      ensures Entry(dist[x], x) in rest
    {
      assert Entry(dist[x], x) in multiset(heap);
    }
  }

  /**
   * A popped entry whose cell is not closed carries that cell's recorded distance, which is the
   * smallest recorded distance of any cell not closed; the cell can then be closed.
   */
  lemma PopFresh(heap: seq<Entry>, top: Entry, rest: seq<Entry>, dist: map<Pos, nat>, closed: set<Pos>, level: nat)
    requires Queued(heap, dist, closed, level) && ClosedBelow(closed, dist, level)
    requires multiset(heap) == multiset(rest) + multiset{top}
    requires forall e :: e in heap ==> LexLeq(Key(top), Key(e))
    requires top.pos !in closed
    ensures top.pos in dist && dist[top.pos] == top.dist && level <= top.dist
    ensures forall y :: y in dist && y !in closed ==> dist[y] >= top.dist
    ensures Queued(rest, dist, closed + {top.pos}, top.dist) && ClosedBelow(closed + {top.pos}, dist, top.dist)
  {
    assert top in multiset(heap);
    var cur := top.pos;
    KeyOrder(top, Entry(dist[cur], cur));
    forall y | y in dist && y !in closed
      ensures dist[y] >= top.dist
    {
      KeyOrder(top, Entry(dist[y], y));
    }
    forall e | e in rest
      ensures e in heap && top.dist <= e.dist
    {
      assert e in multiset(heap);
      KeyOrder(top, e);
    }
    forall x | x in dist && x !in closed + {cur}
      ensures Entry(dist[x], x) in rest
    {
      assert Entry(dist[x], x) in multiset(heap);
    }
  }

  /**
   * Expanding the cell of a fresh entry: it is closed at its recorded distance, which is its
   * shortest distance from start and no smaller than any distance expanded before.
   */
  lemma ExpandEntry(grid: seq<seq<int>>, start: Pos, heap: seq<Entry>, top: Entry, rest: seq<Entry>,
                    dist: map<Pos, nat>, parent: map<Pos, Option<Pos>>, closed: set<Pos>, level: nat,
                    visitedOrder: seq<Pos>, levels: seq<nat>, nodesExpanded: nat)
    requires WellFormed(grid) && Ranked(grid, start, dist, parent, closed)
    requires Queued(heap, dist, closed, level) && ClosedBelow(closed, dist, level) && Settled(grid, closed, dist)
    requires ExpansionTrace(grid, closed, visitedOrder, nodesExpanded)
    requires ExpansionLevels(grid, start, visitedOrder, levels) && LevelsBelow(levels, level)
    requires multiset(heap) == multiset(rest) + multiset{top}
    requires forall e :: e in heap ==> LexLeq(Key(top), Key(e))
    requires top.pos !in closed
    ensures top.pos in dist && dist[top.pos] == top.dist && level <= top.dist
    ensures Queued(rest, dist, closed + {top.pos}, top.dist) && ClosedBelow(closed + {top.pos}, dist, top.dist)
    ensures ExpansionTrace(grid, closed + {top.pos}, visitedOrder + [top.pos], nodesExpanded + 1)
    ensures nodesExpanded + 1 <= |grid| * |grid[0]|
    ensures ExpansionLevels(grid, start, visitedOrder + [top.pos], levels + [dist[top.pos]])
    ensures LevelsBelow(levels + [dist[top.pos]], dist[top.pos])
    ensures ShortestDist(grid, start, top.pos, dist[top.pos])
    ensures Ranked(grid, start, dist, parent, closed + {top.pos})
  {
    var cur := top.pos;
    RankedClose(grid, start, dist, parent, closed, cur);
    PopFresh(heap, top, rest, dist, closed, level);
    ExpandedIsShortest(grid, start, parent, dist, closed, _ => 0, cur);
    AppendLevel(grid, start, visitedOrder, levels, level, cur, dist[cur]);
    ExpandCell(grid, expanded := closed, visitedOrder := visitedOrder, nodesExpanded := nodesExpanded, x := cur);
  }

  /**
   * The table bookkeeping of a relaxation offering nd from `cur`: each cell of `imp` has
   * distance nd and parent `cur`; no other distance or parent changed. The heap is `Pushed`.
   */
  ghost predicate Relaxed(cur: Pos, imp: set<Pos>, nd: nat, dist: map<Pos, nat>, parent: map<Pos, Option<Pos>>,
                          dist': map<Pos, nat>, parent': map<Pos, Option<Pos>>)
  {
    (forall x :: x in imp ==> x in dist' && dist'[x] == nd && x in parent' && parent'[x] == Some(cur)) &&
    (forall x :: x !in imp ==> (x in dist' <==> x in dist) && (x in parent' <==> x in parent)) &&
    (forall x :: x in dist && x !in imp ==> dist'[x] == dist[x]) &&
    (forall x :: x in parent && x !in imp ==> parent'[x] == parent[x])
  }

  /** Improving one more cell records it in the bookkeeping. */
  lemma RelaxedAdd(cur: Pos, imp: set<Pos>, nd: nat, dist: map<Pos, nat>, parent: map<Pos, Option<Pos>>,
                   dist': map<Pos, nat>, parent': map<Pos, Option<Pos>>, next: Pos)
    requires Relaxed(cur, imp, nd, dist, parent, dist', parent')
    ensures Relaxed(cur, imp + {next}, nd, dist, parent, dist'[next := nd], parent'[next := Some(cur)])
  {
  }

  /**
   * The heap after relaxing the first k directions of c with distance nd: the entry (nd, cell)
   * of each improved neighbour is pushed, in direction order.
   */
  ghost function Pushed(grid: seq<seq<int>>, c: Pos, k: nat, closed: set<Pos>, dist: map<Pos, nat>, nd: nat,
                        heap: seq<Entry>): seq<Entry>
    requires WellFormed(grid) && k <= 4
  {
    if k == 0 then heap else
      var n := Step(c, k - 1);
      var pushed := Pushed(grid, c, k - 1, closed, dist, nd, heap);
      if Improves(grid, closed, dist, n, nd) then pushed + [Entry(nd, n)] else pushed
  }

  /**
   * Relaxing the first k directions pushes exactly one entry (nd, cell) per improved cell, after
   * the entries already in the heap, and nothing else.
   */
  lemma {:induction false} PushedSpec(grid: seq<seq<int>>, c: Pos, k: nat, closed: set<Pos>, dist: map<Pos, nat>,
                                      nd: nat, heap: seq<Entry>)
    requires WellFormed(grid) && k <= 4
    ensures var pushed, imp := Pushed(grid, c, k, closed, dist, nd, heap), Improved(grid, c, k, closed, dist, nd);
      heap <= pushed && |pushed| == |heap| + |imp| &&
      (forall i :: |heap| <= i < |pushed| ==> pushed[i].pos in imp && pushed[i].dist == nd) &&
      (forall x :: x in imp ==> Entry(nd, x) in pushed[|heap|..])
  {
    if k > 0 {
      PushedSpec(grid, c, k - 1, closed, dist, nd, heap);
      ImprovedNext(grid, c, k - 1, closed, dist, nd);
      var n, pushed := Step(c, k - 1), Pushed(grid, c, k - 1, closed, dist, nd, heap);
      if Improves(grid, closed, dist, n, nd) {
        assert (pushed + [Entry(nd, n)])[|heap|..] == pushed[|heap|..] + [Entry(nd, n)];
      }
    }
  }

  /**
   * The relaxation loop after k directions: the table, heap and closed cells keep their
   * invariants with `cur` closed at distance d, the cells closed before `cur` stay settled, the
   * open neighbours looked at so far are ranked at most d + 1, and the bookkeeping holds.
   */
  ghost predicate RelaxLoop(grid: seq<seq<int>>, start: Pos, cur: Pos, d: nat, k: nat, closed: set<Pos>, before: set<Pos>,
                            heap: seq<Entry>, dist: map<Pos, nat>, parent: map<Pos, Option<Pos>>,
                            heap': seq<Entry>, dist': map<Pos, nat>, parent': map<Pos, Option<Pos>>)
    requires WellFormed(grid) && k <= 4
  {
    Ranked(grid, start, dist', parent', closed) && Queued(heap', dist', closed, d) &&
    ClosedBelow(closed, dist', d) && Settled(grid, before, dist') &&
    cur in closed && cur in dist' && dist'[cur] == d &&
    NeighboursRanked(grid, cur, k, dist', d + 1) &&
    Relaxed(cur, Improved(grid, cur, k, closed, dist, d + 1), d + 1, dist, parent, dist', parent') &&
    heap' == Pushed(grid, cur, k, closed, dist, d + 1, heap)
  }

  /** A direction whose cell is a wall, out of bounds, closed or not improved changes nothing. */
  lemma SkipRelax(grid: seq<seq<int>>, start: Pos, cur: Pos, d: nat, k: nat, closed: set<Pos>, before: set<Pos>,
                  heap: seq<Entry>, dist: map<Pos, nat>, parent: map<Pos, Option<Pos>>,
                  heap': seq<Entry>, dist': map<Pos, nat>, parent': map<Pos, Option<Pos>>)
    requires WellFormed(grid) && k < 4
    requires RelaxLoop(grid, start, cur, d, k, closed, before, heap, dist, parent, heap', dist', parent')
    requires !Improves(grid, closed, dist', Step(cur, k), d + 1)
    ensures RelaxLoop(grid, start, cur, d, k + 1, closed, before, heap, dist, parent, heap', dist', parent')
  {
    var next := Step(cur, k);
    var imp := Improved(grid, cur, k, closed, dist, d + 1);
    ImprovedNext(grid, cur, k, closed, dist, d + 1);
    assert !Improves(grid, closed, dist, next, d + 1);
    assert Improved(grid, cur, k + 1, closed, dist, d + 1) == imp;
    RankNext(grid, cur, k, dist', d + 1);
  }

  /** Pushing (nd, next) while lowering next's distance to nd keeps the heap invariant. */
  lemma PushEntry(heap: seq<Entry>, dist: map<Pos, nat>, closed: set<Pos>, level: nat, next: Pos, nd: nat)
    requires Queued(heap, dist, closed, level) && ClosedBelow(closed, dist, level)
    requires level <= nd && next !in closed && (next in dist ==> nd < dist[next])
    ensures Queued(heap + [Entry(nd, next)], dist[next := nd], closed, level)
    ensures ClosedBelow(closed, dist[next := nd], level)
  {
  }

  /**
   * Improving an open neighbour that is not closed: its distance becomes d + 1, its parent
   * `cur`, and the entry (d + 1, cell) is pushed.
   */
  lemma DoRelax(grid: seq<seq<int>>, start: Pos, cur: Pos, d: nat, k: nat, closed: set<Pos>, before: set<Pos>,
                heap: seq<Entry>, dist: map<Pos, nat>, parent: map<Pos, Option<Pos>>,
                heap': seq<Entry>, dist': map<Pos, nat>, parent': map<Pos, Option<Pos>>)
    requires WellFormed(grid) && k < 4 && before <= closed
    requires RelaxLoop(grid, start, cur, d, k, closed, before, heap, dist, parent, heap', dist', parent')
    requires Improves(grid, closed, dist', Step(cur, k), d + 1)
    ensures var next := Step(cur, k);
      RelaxLoop(grid, start, cur, d, k + 1, closed, before, heap, dist, parent,
                heap' + [Entry(d + 1, next)], dist'[next := d + 1], parent'[next := Some(cur)])
  {
    var next := Step(cur, k);
    var imp := Improved(grid, cur, k, closed, dist, d + 1);
    assert next !in imp && Improves(grid, closed, dist, next, d + 1);
    assert Improved(grid, cur, k + 1, closed, dist, d + 1) == imp + {next};
    RelaxedAdd(cur, imp, d + 1, dist, parent, dist', parent', next);
    StepAdjacent(cur, next);
    RankBelow(grid, start, dist', parent', closed, cur, next);
    PushEntry(heap', dist', closed, d, next, d + 1);
    SettledRank(grid, before, dist', next, d + 1);
    RankNeighbour(grid, cur, k, dist', d + 1, next, d + 1);
    RankNext(grid, cur, k, dist'[next := d + 1], d + 1);
  }

  /**
   * The relaxation loop of one expansion at distance d: in the order right, down, left, up,
   * each open neighbour that is not closed and is unranked or ranked above d + 1 gets distance
   * d + 1 and parent `cur`, and (d + 1, cell) is pushed. Afterwards `cur` is settled: each of
   * its open neighbours is ranked at most d + 1. Closed cells keep their distances.
   */
  method RelaxNeighbours(grid: seq<seq<int>>, ghost start: Pos, cur: Pos, d: nat, heap: seq<Entry>,
                         dist: map<Pos, nat>, parent: map<Pos, Option<Pos>>, closed: set<Pos>, ghost before: set<Pos>)
    returns (heap': seq<Entry>, dist': map<Pos, nat>, parent': map<Pos, Option<Pos>>)
    requires WellFormed(grid) && closed == before + {cur}
    requires Ranked(grid, start, dist, parent, closed) && Queued(heap, dist, closed, d)
    requires ClosedBelow(closed, dist, d) && Settled(grid, before, dist) && cur in dist && dist[cur] == d
    ensures Ranked(grid, start, dist', parent', closed) && Queued(heap', dist', closed, d)
    ensures ClosedBelow(closed, dist', d) && Settled(grid, closed, dist')
    ensures Relaxed(cur, Improved(grid, cur, 4, closed, dist, d + 1), d + 1, dist, parent, dist', parent')
    ensures heap' == Pushed(grid, cur, 4, closed, dist, d + 1, heap)
  {
    heap', dist', parent' := heap, dist, parent;
    for k := 0 to 4
      invariant RelaxLoop(grid, start, cur, d, k, closed, before, heap, dist, parent, heap', dist', parent')
    {
      var next := Step(cur, k);
      if IsValid(grid, next) && next !in closed {
        var newDist := d + 1;
        if next !in dist' || newDist < dist'[next] {
          DoRelax(grid, start, cur, d, k, closed, before, heap, dist, parent, heap', dist', parent');
          dist' := dist'[next := newDist];
          heap' := heap' + [Entry(newDist, next)];
          parent' := parent'[next := Some(cur)];
        } else {
          SkipRelax(grid, start, cur, d, k, closed, before, heap, dist, parent, heap', dist', parent');
        }
      } else {
        SkipRelax(grid, start, cur, d, k, closed, before, heap, dist, parent, heap', dist', parent');
      }
    }
    SettleNode(grid, before, dist', cur);
  }

  /** Once the heap is empty, every cell reachable from start has been closed. */
  lemma ExhaustedCoversReachable(grid: seq<seq<int>>, start: Pos, dist: map<Pos, nat>, parent: map<Pos, Option<Pos>>,
                                 closed: set<Pos>, level: nat, x: Pos)
    requires WellFormed(grid) && Ranked(grid, start, dist, parent, closed)
    requires Queued([], dist, closed, level) && ClosedBelow(closed, dist, level) && Settled(grid, closed, dist)
    requires Reachable(grid, start, x)
    ensures x in closed
  {
    assert closed == dist.Keys;
    ClosedContainsReachable(grid, start, dist, closed, x);
  }

  /** The state before the first iteration: only start is ranked, at distance 0, with one heap entry. */
  lemma InitState(grid: seq<seq<int>>, start: Pos)
    requires WellFormed(grid) && IsValid(grid, start)
    ensures Ranked(grid, start, map[start := 0], map[start := None], {})
    ensures Queued([Entry(0, start)], map[start := 0], {}, 0)
    ensures Settled(grid, {}, map[start := 0]) && ExpansionTrace(grid, {}, [], 0)
  {
  }

  /**
   * When the heap runs empty without reaching end, the trace holds exactly the cells reachable
   * from start: each was expanded at its shortest distance, and every reachable cell was closed.
   */
  lemma ExhaustedTrace(grid: seq<seq<int>>, start: Pos, dist: map<Pos, nat>, parent: map<Pos, Option<Pos>>,
                       closed: set<Pos>, level: nat, visitedOrder: seq<Pos>, levels: seq<nat>, nodesExpanded: nat)
    requires WellFormed(grid) && Ranked(grid, start, dist, parent, closed)
    requires Queued([], dist, closed, level) && ClosedBelow(closed, dist, level) && Settled(grid, closed, dist)
    requires ExpansionTrace(grid, closed, visitedOrder, nodesExpanded) && ExpansionLevels(grid, start, visitedOrder, levels)
    ensures forall x :: x in visitedOrder <==> Reachable(grid, start, x)
  {
    forall x | Reachable(grid, start, x)
      ensures x in closed
    {
      ExhaustedCoversReachable(grid, start, dist, parent, closed, level, x);
    }
    ShortestReachable(grid, start, visitedOrder, levels);
  }

  /**
   * dijkstra(grid, start, end). The result reports whether end is reachable; when it is, the
   * path is a shortest walk from start to end, and when it is not, the path is empty. Cells are
   * expanded once each, in non-decreasing distance from start, each at its shortest distance
   * (the ghost `levels`), and the counter equals the length of the trace.
   */
  method Dijkstra(grid: seq<seq<int>>, start: Pos, end: Pos) returns (r: SearchResult, ghost levels: seq<nat>)
    requires ValidRequest(grid, start, end)
    ensures r.nodesExpanded == |r.visited| <= |grid| * |grid[0]|
    ensures Distinct(r.visited) && forall i :: 0 <= i < |r.visited| ==> IsValid(grid, r.visited[i])
    ensures ExpansionLevels(grid, start, r.visited, levels)
    ensures r.found <==> Reachable(grid, start, end)
    ensures r.found ==> IsPath(grid, r.path, start, end) && Distinct(r.path)
    ensures r.found ==> ShortestDist(grid, start, end, |r.path| - 1)
    ensures !r.found ==> r.path == [] && forall x :: x in r.visited <==> Reachable(grid, start, x)
    ensures start == end ==> r.found && r.path == [start] && r.nodesExpanded == 1
  {
    var visitedOrder := [];
    var nodesExpanded := 0;
    var heap := [Entry(0, start)];
    var dist := map[start := 0];
    var parent := map[start := None];
    var closed: set<Pos> := {};
    ghost var level := 0;
    levels := [];
    InitState(grid, start);

    while |heap| > 0
      invariant Ranked(grid, start, dist, parent, closed) && Queued(heap, dist, closed, level)
      invariant ClosedBelow(closed, dist, level) && Settled(grid, closed, dist)
      invariant ExpansionTrace(grid, closed, visitedOrder, nodesExpanded)
      invariant ExpansionLevels(grid, start, visitedOrder, levels) && LevelsBelow(levels, level)
      invariant nodesExpanded <= |grid| * |grid[0]|
      invariant end !in closed
      invariant start == end ==> visitedOrder == [] && heap == [Entry(0, start)]
      decreases |grid| * |grid[0]| - nodesExpanded, |heap|
    {
      var top, rest := PopMin(heap, Key);
      if top.pos in closed {
        PopStale(heap, top, rest, dist, closed, level);
        heap := rest;
        level := top.dist;
        continue;
      }
      ExpandEntry(grid, start, heap, top, rest, dist, parent, closed, level, visitedOrder, levels, nodesExpanded);
      var d, cur := top.dist, top.pos;
      heap := rest;
      ghost var before := closed;
      closed := closed + {cur};
      visitedOrder := visitedOrder + [cur];
      nodesExpanded := nodesExpanded + 1;
      level := d;
      levels := levels + [d];

      if cur == end {
        var trace := TraceChain(parent, dist, start, Some(end));
        RootPath(grid, parent, dist, start, end, trace);
        return SearchResult(true, nodesExpanded, Reverse(trace), visitedOrder), levels;
      }

      heap, dist, parent := RelaxNeighbours(grid, start, cur, d, heap, dist, parent, closed, before);
    }
    ExhaustedTrace(grid, start, dist, parent, closed, level, visitedOrder, levels, nodesExpanded);
    return SearchResult(false, nodesExpanded, [], visitedOrder), levels;
  }
}
