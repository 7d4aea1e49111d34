// Breadth-first search: a FIFO queue, a visited set and a parent map, expanding cells level
// by level from the start, so the first time the end is dequeued its path is a shortest one.

module Bfs {
  import opened Grid
  import opened Parents

  /**
   * The queue discipline during the search. Every visited cell is either expanded or waiting
   * in the queue (never both, never twice); the queue holds cells of BFS depth `level` followed
   * by cells of depth `level + 1`, and no expanded cell is deeper than `level`.
   */
  ghost predicate Layered(queue: seq<Pos>, visited: set<Pos>, depth: map<Pos, nat>, expanded: set<Pos>, level: nat)
  {
    visited == depth.Keys &&
    (forall x :: x in visited <==> x in expanded || x in queue) &&
    (forall i :: 0 <= i < |queue| ==> queue[i] !in expanded) &&
    Distinct(queue) &&
    (forall i :: 0 <= i < |queue| ==> level <= depth[queue[i]] <= level + 1) &&
    (forall i, j :: 0 <= i < j < |queue| ==> depth[queue[i]] <= depth[queue[j]]) &&
    (forall x :: x in expanded ==> depth[x] <= level)
  }

  /** The frontier: the parent links of the visited open cells form a tree rooted at start, layered as above. */
  ghost predicate Frontier(grid: seq<seq<int>>, start: Pos, queue: seq<Pos>, visited: set<Pos>,
                           parent: map<Pos, Option<Pos>>, depth: map<Pos, nat>, expanded: set<Pos>, level: nat)
    requires WellFormed(grid)
  {
    ParentTree(parent, depth, start) && parent.Keys == visited && AllOpen(grid, visited) &&
    Layered(queue, visited, depth, expanded, level)
  }

  /** The state before the first iteration: only the start is visited, nothing is expanded. */
  lemma InitFrontier(grid: seq<seq<int>>, start: Pos)
    requires WellFormed(grid) && IsValid(grid, start)
    ensures Frontier(grid, start, [start], {start}, map[start := None], map[start := 0], {}, 0)
    ensures Settled(grid, {}, map[start := 0])
    ensures ExpansionTrace(grid, {}, [], 0)
  {
  }

  /** Dequeuing the head expands it and raises the level to its depth. */
  lemma PopKeepsLayers(queue: seq<Pos>, visited: set<Pos>, depth: map<Pos, nat>, expanded: set<Pos>, level: nat)
    requires Layered(queue, visited, depth, expanded, level)
    requires |queue| > 0
    ensures queue[0] !in expanded && queue[0] in depth
    ensures Layered(queue[1..], visited, depth, expanded + {queue[0]}, depth[queue[0]])
  {
    var head, rest := queue[0], queue[1..];
    var closed, top := expanded + {head}, depth[head];
    forall i | 0 <= i < |rest|
      ensures rest[i] !in closed && top <= depth[rest[i]] <= top + 1
    {
      assert rest[i] == queue[i + 1] && queue[0] != queue[i + 1];
    }
    forall i, j | 0 <= i < j < |rest|
      ensures rest[i] != rest[j] && depth[rest[i]] <= depth[rest[j]]
    {
      assert rest[i] == queue[i + 1] && rest[j] == queue[j + 1];
    }
    forall x | x in visited
      ensures x in closed || x in rest
    {
      if x !in closed {
        var i :| 0 <= i < |queue| && queue[i] == x;
        assert rest[i - 1] == x;
      }
    }
    forall x | x in rest
      ensures x in visited
    {
      var i :| 0 <= i < |rest| && rest[i] == x;
      assert queue[i + 1] == x;
    }
  }

  /** Enqueuing an unvisited cell one level below the expanded head keeps the layers. */
  lemma PushKeepsLayers(queue: seq<Pos>, visited: set<Pos>, depth: map<Pos, nat>, expanded: set<Pos>, level: nat,
                        next: Pos)
    requires Layered(queue, visited, depth, expanded, level)
    requires next !in visited
    ensures Layered(queue + [next], visited + {next}, depth[next := level + 1], expanded, level)
  {
    var queue', depth' := queue + [next], depth[next := level + 1];
    assert forall i :: 0 <= i < |queue| ==> queue'[i] == queue[i] && depth'[queue[i]] == depth[queue[i]];
    assert queue'[|queue|] == next;
  }

  /** Enqueuing an open unvisited neighbour of the expanded head, with the head as its parent, keeps the frontier. */
  lemma PushKeepsFrontier(grid: seq<seq<int>>, start: Pos, queue: seq<Pos>, visited: set<Pos>,
                          parent: map<Pos, Option<Pos>>, depth: map<Pos, nat>, expanded: set<Pos>, level: nat,
                          cur: Pos, next: Pos)
    requires WellFormed(grid) && Frontier(grid, start, queue, visited, parent, depth, expanded, level)
    requires cur in expanded && depth[cur] == level
    requires IsValid(grid, next) && next !in visited && Adjacent(cur, next)
    ensures Frontier(grid, start, queue + [next], visited + {next}, parent[next := Some(cur)],
                     depth[next := level + 1], expanded, level)
  {
    AddLeaf(parent, depth, start, cur, next);
    PushKeepsLayers(queue, visited, depth, expanded, level, next);
  }

  /** No visited cell is more than one level deeper than the frontier. */
  lemma VisitedDepth(grid: seq<seq<int>>, start: Pos, queue: seq<Pos>, visited: set<Pos>,
                     parent: map<Pos, Option<Pos>>, depth: map<Pos, nat>, expanded: set<Pos>, level: nat, x: Pos)
    requires WellFormed(grid) && Frontier(grid, start, queue, visited, parent, depth, expanded, level)
    requires x in visited
    ensures depth[x] <= level + 1
  {
    if x !in expanded {
      var i :| 0 <= i < |queue| && queue[i] == x;
    }
  }

  /**
   * The head of the queue is nearest: every visited cell not yet expanded is at least as deep
   * as the head, and the head is no shallower than the level.
   */
  lemma HeadIsNearest(queue: seq<Pos>, visited: set<Pos>, depth: map<Pos, nat>, expanded: set<Pos>, level: nat)
    requires Layered(queue, visited, depth, expanded, level) && |queue| > 0
    ensures queue[0] in depth && level <= depth[queue[0]]
    ensures forall y :: y in depth && y !in expanded ==> depth[y] >= depth[queue[0]]
  {
    forall y | y in depth && y !in expanded
      ensures depth[y] >= depth[queue[0]]
    {
      var i :| 0 <= i < |queue| && queue[i] == y;
      if i > 0 {
        assert depth[queue[0]] <= depth[queue[i]];
      }
    }
  }

  /**
   * Dequeuing and expanding the head: the frontier moves on with the head expanded at its
   * depth, which is its shortest distance from start and no smaller than the level before.
   */
  lemma ExpandHead(grid: seq<seq<int>>, start: Pos, queue: seq<Pos>, visited: set<Pos>,
                   parent: map<Pos, Option<Pos>>, depth: map<Pos, nat>, expanded: set<Pos>, level: nat,
                   visitedOrder: seq<Pos>, levels: seq<nat>, nodesExpanded: nat)
    requires WellFormed(grid) && Frontier(grid, start, queue, visited, parent, depth, expanded, level)
    requires Settled(grid, expanded, depth) && ExpansionTrace(grid, expanded, visitedOrder, nodesExpanded)
    requires ExpansionLevels(grid, start, visitedOrder, levels) && LevelsBelow(levels, level)
    requires |queue| > 0
    ensures var cur := queue[0];
      cur !in expanded && cur in depth &&
      Frontier(grid, start, queue[1..], visited, parent, depth, expanded + {cur}, depth[cur]) &&
      ExpansionTrace(grid, expanded + {cur}, visitedOrder + [cur], nodesExpanded + 1) &&
      nodesExpanded + 1 <= |grid| * |grid[0]| &&
      ExpansionLevels(grid, start, visitedOrder + [cur], levels + [depth[cur]]) &&
      LevelsBelow(levels + [depth[cur]], depth[cur]) &&
      ShortestDist(grid, start, cur, depth[cur])
  {
    var cur := queue[0];
    PopKeepsLayers(queue, visited, depth, expanded, level);
    HeadIsNearest(queue, visited, depth, expanded, level);
    ExpandedIsShortest(grid, start, parent, depth, expanded, _ => 0, cur);
    AppendLevel(grid, start, visitedOrder, levels, level, cur, depth[cur]);
    ExpandCell(grid, expanded, visitedOrder, nodesExpanded, cur);
  }

  /** Once the queue is empty, every reachable cell has been expanded. */
  lemma ExhaustedCoversReachable(grid: seq<seq<int>>, start: Pos, visited: set<Pos>,
                                 parent: map<Pos, Option<Pos>>, depth: map<Pos, nat>, expanded: set<Pos>,
                                 level: nat, x: Pos)
    requires WellFormed(grid) && Frontier(grid, start, [], visited, parent, depth, expanded, level)
    requires Settled(grid, expanded, depth)
    requires Reachable(grid, start, x)
    ensures x in expanded
  {
    assert depth.Keys == expanded;
    ClosedContainsReachable(grid, start, depth, expanded, x);
  }

  /**
   * The neighbour loop of an expansion of `cur` after k directions: the frontier is kept with
   * `cur` expanded, the cells expanded before it stay settled, the open neighbours looked at so
   * far are visited at most one level below `cur`, and the bookkeeping holds.
   */
  ghost predicate ExpandLoop(grid: seq<seq<int>>, start: Pos, cur: Pos, k: nat, closed: set<Pos>, level: nat,
                             queue: seq<Pos>, visited: set<Pos>, parent: map<Pos, Option<Pos>>,
                             queue': seq<Pos>, visited': set<Pos>, parent': map<Pos, Option<Pos>>, depth': map<Pos, nat>)
    requires WellFormed(grid) && k <= 4
  {
    Frontier(grid, start, queue', visited', parent', depth', closed + {cur}, level) &&
    Settled(grid, closed, depth') && cur !in closed && cur in depth' && depth'[cur] == level &&
    NeighboursRanked(grid, cur, k, depth', level + 1) &&
    Pushes(grid, cur, k, queue, visited, parent, queue', visited', parent')
  }

  /** Looking at a direction whose cell is a wall, out of bounds or already visited changes nothing. */
  lemma SkipNeighbour(grid: seq<seq<int>>, start: Pos, cur: Pos, k: nat, closed: set<Pos>, level: nat,
                      queue: seq<Pos>, visited: set<Pos>, parent: map<Pos, Option<Pos>>,
                      queue': seq<Pos>, visited': set<Pos>, parent': map<Pos, Option<Pos>>, depth': map<Pos, nat>)
    requires WellFormed(grid) && k < 4
    requires ExpandLoop(grid, start, cur, k, closed, level, queue, visited, parent, queue', visited', parent', depth')
    requires !(IsValid(grid, Step(cur, k)) && Step(cur, k) !in visited')
    ensures ExpandLoop(grid, start, cur, k + 1, closed, level, queue, visited, parent, queue', visited', parent', depth')
  {
    SkipPushes(grid, cur, k, queue, visited, parent, queue', visited', parent');
    if IsValid(grid, Step(cur, k)) {
      VisitedDepth(grid, start, queue', visited', parent', depth', closed + {cur}, level, Step(cur, k));
    }
    RankNext(grid, cur, k, depth', level + 1);
  }

  /** Enqueuing an open unvisited neighbour one level below `cur`, with `cur` as its parent, keeps the loop state. */
  lemma EnqueueNeighbour(grid: seq<seq<int>>, start: Pos, cur: Pos, k: nat, closed: set<Pos>, level: nat,
                         queue: seq<Pos>, visited: set<Pos>, parent: map<Pos, Option<Pos>>,
                         queue': seq<Pos>, visited': set<Pos>, parent': map<Pos, Option<Pos>>, depth': map<Pos, nat>)
    requires WellFormed(grid) && k < 4
    requires ExpandLoop(grid, start, cur, k, closed, level, queue, visited, parent, queue', visited', parent', depth')
    requires IsValid(grid, Step(cur, k)) && Step(cur, k) !in visited'
    ensures var next := Step(cur, k);
      ExpandLoop(grid, start, cur, k + 1, closed, level, queue, visited, parent, queue' + [next], visited' + {next},
                 parent'[next := Some(cur)], depth'[next := level + 1])
  {
    var next := Step(cur, k);
    AddPush(grid, cur, k, queue, visited, parent, queue', visited', parent');
    StepAdjacent(cur, next);
    PushKeepsFrontier(grid, start, queue', visited', parent', depth', closed + {cur}, level, cur, next);
    RankNeighbour(grid, cur, k, depth', level + 1, next, level + 1);
    SettledRank(grid, closed, depth', next, level + 1);
    RankNext(grid, cur, k, depth'[next := level + 1], level + 1);
  }

  /**
   * The neighbour loop of one expansion: in the order right, down, left, up, every open
   * neighbour not yet visited is marked visited, given `cur` as parent and enqueued. Afterwards
   * `cur` joins the settled cells: each of its open neighbours is visited at most one level deeper.
   */
  method ExpandNeighbours(grid: seq<seq<int>>, ghost start: Pos, cur: Pos, queue: seq<Pos>, visited: set<Pos>,
                          parent: map<Pos, Option<Pos>>, ghost depth: map<Pos, nat>, ghost closed: set<Pos>,
                          ghost level: nat)
    returns (queue': seq<Pos>, visited': set<Pos>, parent': map<Pos, Option<Pos>>, ghost depth': map<Pos, nat>)
    requires WellFormed(grid) && Frontier(grid, start, queue, visited, parent, depth, closed + {cur}, level)
    requires Settled(grid, closed, depth) && cur !in closed && cur in depth && depth[cur] == level
    ensures Frontier(grid, start, queue', visited', parent', depth', closed + {cur}, level)
    ensures Settled(grid, closed + {cur}, depth')
    ensures Pushes(grid, cur, 4, queue, visited, parent, queue', visited', parent')
  {
    queue', visited', parent', depth' := queue, visited, parent, depth;
    for k := 0 to 4
      invariant ExpandLoop(grid, start, cur, k, closed, level, queue, visited, parent, queue', visited', parent', depth')
    {
      var next := Step(cur, k);
      if IsValid(grid, next) && next !in visited' {
        EnqueueNeighbour(grid, start, cur, k, closed, level, queue, visited, parent, queue', visited', parent', depth');
        queue' := queue' + [next];
        visited' := visited' + {next};
        parent' := parent'[next := Some(cur)];
        depth' := depth'[next := level + 1];
      } else {
        SkipNeighbour(grid, start, cur, k, closed, level, queue, visited, parent, queue', visited', parent', depth');
      }
    }
    SettleNode(grid, closed, depth', cur);
  }

  /**
   * When the queue runs empty without reaching end, the trace holds exactly the cells reachable
   * from start: each was expanded at its shortest distance, and every reachable cell was expanded.
   */
  lemma ExhaustedTrace(grid: seq<seq<int>>, start: Pos, visited: set<Pos>, parent: map<Pos, Option<Pos>>,
                       depth: map<Pos, nat>, expanded: set<Pos>, level: nat, visitedOrder: seq<Pos>, levels: seq<nat>,
                       nodesExpanded: nat)
    requires WellFormed(grid) && Frontier(grid, start, [], visited, parent, depth, expanded, level)
    requires Settled(grid, expanded, depth)
    requires ExpansionTrace(grid, expanded, visitedOrder, nodesExpanded) && ExpansionLevels(grid, start, visitedOrder, levels)
    ensures forall x :: x in visitedOrder <==> Reachable(grid, start, x)
  {
    forall x | Reachable(grid, start, x)
      ensures x in expanded
    {
      ExhaustedCoversReachable(grid, start, visited, parent, depth, expanded, level, x);
    }
    ShortestReachable(grid, start, visitedOrder, levels);
  }

  /**
   * bfs(grid, start, end). The result reports whether end is reachable; when it is, the path is
   * a shortest walk from start to end, and when it is not, the path is empty. The trace lists
   * each expanded cell once, and the counter equals its length.
   */
  method Bfs(grid: seq<seq<int>>, start: Pos, end: Pos) returns (r: SearchResult, ghost levels: seq<nat>)
    requires ValidRequest(grid, start, end)
    ensures r.nodesExpanded == |r.visited| <= |grid| * |grid[0]|
    ensures Distinct(r.visited) && forall i :: 0 <= i < |r.visited| ==> IsValid(grid, r.visited[i])
    ensures ExpansionLevels(grid, start, r.visited, levels)
    ensures r.found <==> Reachable(grid, start, end)
    ensures r.found ==> IsPath(grid, r.path, start, end) && Distinct(r.path)
    ensures r.found ==> ShortestDist(grid, start, end, |r.path| - 1)
    ensures !r.found ==> r.path == [] && forall x :: x in r.visited <==> Reachable(grid, start, x)
    ensures start == end ==> r.found && r.path == [start] && r.nodesExpanded == 1
  {
    var queue := [start];
    var visited := {start};
    var parent := map[start := None];
    var nodesExpanded := 0;
    var visitedOrder := [];
    ghost var depth := map[start := 0];
    ghost var expanded: set<Pos> := {};
    ghost var level := 0;
    levels := [];
    InitFrontier(grid, start);

    while |queue| > 0
      invariant Frontier(grid, start, queue, visited, parent, depth, expanded, level)
      invariant Settled(grid, expanded, depth)
      invariant ExpansionTrace(grid, expanded, visitedOrder, nodesExpanded)
      invariant ExpansionLevels(grid, start, visitedOrder, levels) && LevelsBelow(levels, level)
      invariant nodesExpanded <= |grid| * |grid[0]|
      invariant end !in expanded
      invariant start == end ==> visitedOrder == [] && queue == [start]
      decreases |grid| * |grid[0]| - nodesExpanded
    {
      ExpandHead(grid, start, queue, visited, parent, depth, expanded, level, visitedOrder, levels, nodesExpanded);
      var cur := queue[0];
      queue := queue[1..];
      nodesExpanded := nodesExpanded + 1;
      visitedOrder := visitedOrder + [cur];
      ghost var closed := expanded;
      expanded := expanded + {cur};
      level := depth[cur];
      levels := levels + [level];

      if cur == end {
        var trace := TraceChain(parent, depth, start, Some(end));
        RootPath(grid, parent, depth, start, end, trace);
        return SearchResult(true, nodesExpanded, Reverse(trace), visitedOrder), levels;
      }

      queue, visited, parent, depth := ExpandNeighbours(grid, start, cur, queue, visited, parent, depth, closed, level);
    }
    ExhaustedTrace(grid, start, visited, parent, depth, expanded, level, visitedOrder, levels, nodesExpanded);
    return SearchResult(false, nodesExpanded, [], visitedOrder), levels;
  }
}
