// The states of bidirectional breadth-first search between its steps, and what it answers:
// one side's marking discipline, the alternating trace, the state at the top of a round and
// half-way through one, and the properties of the returned record.

module BiBfsState {
  import opened Grid
  import opened Parents
  import Dfs

  /**
   * The marking discipline of one side, the same as that of the DFS stack: the parent map is a
   * tree over open cells rooted at the side's root, every marked cell is expanded or queued
   * (never both, never twice), and every open neighbour of an expanded cell is marked.
   */
  ghost predicate Side(grid: seq<seq<int>>, root: Pos, queue: seq<Pos>, visited: map<Pos, Option<Pos>>,
                       depth: map<Pos, nat>, expanded: set<Pos>)
    requires WellFormed(grid)
  {
    Dfs.DfsState(grid, root, queue, visited.Keys, visited, depth, expanded)
  }

  /**
   * The bookkeeping of a side's neighbour loop after k directions: the DFS push-loop state, and
   * no cell newly marked so far is marked on the other side.
   */
  ghost predicate MeetLoop(grid: seq<seq<int>>, root: Pos, cur: Pos, k: nat, expanded: set<Pos>,
                           queue: seq<Pos>, visited: map<Pos, Option<Pos>>, other: map<Pos, Option<Pos>>,
                           queue': seq<Pos>, visited': map<Pos, Option<Pos>>, depth': map<Pos, nat>)
    requires WellFormed(grid) && k <= 4
  {
    Dfs.PushLoop(grid, root, cur, k, expanded, queue, visited.Keys, visited, queue', visited'.Keys, visited', depth') &&
    forall x :: x in visited' && x !in visited ==> x !in other
  }

  /** The start has no open neighbour. */
  predicate Enclosed(grid: seq<seq<int>>, p: Pos)
    requires WellFormed(grid)
  {
    forall k :: 0 <= k < 4 ==> !IsValid(grid, Step(p, k))
  }

  /**
   * The first direction from k on, in the order right, down, left, up, whose cell next to p is
   * open; 4 when there is none.
   */
  function FirstOpen(grid: seq<seq<int>>, p: Pos, k: nat): (d: nat)
    requires WellFormed(grid) && k <= 4
    ensures k <= d <= 4
    ensures d < 4 ==> IsValid(grid, Step(p, d))
    ensures forall j :: k <= j < d ==> !IsValid(grid, Step(p, j))
    decreases 4 - k
  {
    if k == 4 || IsValid(grid, Step(p, k)) then k else FirstOpen(grid, p, k + 1)
  }

  /**
   * The trace alternates sides: entries at even positions were expanded by the start side and
   * entries at odd positions by the end side, and neither side expanded a cell twice.
   */
  ghost predicate Alternates(visitedOrder: seq<Pos>, fromStart: set<Pos>, fromEnd: set<Pos>)
  {
    (forall i :: 0 <= i < |visitedOrder| ==>
       if i % 2 == 0 then visitedOrder[i] in fromStart else visitedOrder[i] in fromEnd) &&
    (forall i, j :: 0 <= i < j < |visitedOrder| && i % 2 == j % 2 ==> visitedOrder[i] != visitedOrder[j])
  }

  /**
   * Every cell of the trace is open; those at even positions are reachable from start and those
   * at odd positions from end.
   */
  ghost predicate ExpandedFrom(grid: seq<seq<int>>, start: Pos, end: Pos, visitedOrder: seq<Pos>)
    requires WellFormed(grid)
  {
    forall i :: 0 <= i < |visitedOrder| ==>
      IsValid(grid, visitedOrder[i]) &&
      if i % 2 == 0 then Reachable(grid, start, visitedOrder[i]) else Reachable(grid, end, visitedOrder[i])
  }

  /**
   * The state at the top of a round: both sides keep their marking discipline, with start !=
   * end they share no marked cell, the trace alternates and each side has expanded as many
   * cells as the other. With start == end, either no round has run yet, or start is enclosed
   * and the start queue is empty.
   */
  ghost predicate BeforeRound(grid: seq<seq<int>>, start: Pos, end: Pos,
                              startQueue: seq<Pos>, startVisited: map<Pos, Option<Pos>>, startDepth: map<Pos, nat>,
                              fromStart: set<Pos>, endQueue: seq<Pos>, endVisited: map<Pos, Option<Pos>>,
                              endDepth: map<Pos, nat>, fromEnd: set<Pos>, visitedOrder: seq<Pos>, nodesExpanded: nat)
    requires WellFormed(grid)
  {
    Side(grid, start, startQueue, startVisited, startDepth, fromStart) &&
    Side(grid, end, endQueue, endVisited, endDepth, fromEnd) &&
    (start != end ==> startVisited.Keys !! endVisited.Keys) &&
    Alternates(visitedOrder, fromStart, fromEnd) &&
    nodesExpanded == |visitedOrder| == |fromStart| + |fromEnd| && |fromStart| == |fromEnd| <= |grid| * |grid[0]| &&
    (start == end ==>
       (visitedOrder == [] && startQueue == [start] && endQueue == [start] &&
        startVisited == map[start := None] && endVisited == map[start := None]) ||
       (startQueue == [] && Enclosed(grid, start) && visitedOrder == [start, start]))
  }

  /**
   * The state between the two halves of a round: as at the top, except that the start side
   * has expanded one cell more. With start == end this is the first round, after the start
   * side has marked the open neighbours of start.
   */
  ghost predicate MidRound(grid: seq<seq<int>>, start: Pos, end: Pos,
                           startQueue: seq<Pos>, startVisited: map<Pos, Option<Pos>>, startDepth: map<Pos, nat>,
                           fromStart: set<Pos>, endQueue: seq<Pos>, endVisited: map<Pos, Option<Pos>>,
                           endDepth: map<Pos, nat>, fromEnd: set<Pos>, visitedOrder: seq<Pos>, nodesExpanded: nat)
    requires WellFormed(grid)
  {
    Side(grid, start, startQueue, startVisited, startDepth, fromStart) &&
    Side(grid, end, endQueue, endVisited, endDepth, fromEnd) &&
    (start != end ==> startVisited.Keys !! endVisited.Keys) &&
    Alternates(visitedOrder, fromStart, fromEnd) &&
    nodesExpanded == |visitedOrder| == |fromStart| + |fromEnd| && |fromStart| == |fromEnd| + 1 &&
    |fromStart| <= |grid| * |grid[0]| &&
    (start == end ==>
       endQueue == [start] && endVisited == map[start := None] && visitedOrder == [start] &&
       Pushes(grid, start, 4, [], map[start := Option<Pos>.None].Keys, map[start := Option<Pos>.None], startQueue, startVisited.Keys, startVisited))
  }

  /**
   * What the search returns: the counter equals the length of the trace, which alternates
   * sides with each side expanding a cell at most once; a found path is a walk from start to
   * end, without repeats when start != end; without a meeting the path is empty, and with
   * start != end the result is found exactly when end is reachable. With start == end each side
   * expands start once and stops: something is found exactly when start has an open
   * neighbour, and the path then goes out to the first one in direction order and back.
   */
  ghost predicate Answers(grid: seq<seq<int>>, start: Pos, end: Pos, r: SearchResult)
    requires WellFormed(grid)
  {
    r.nodesExpanded == |r.visited| <= 2 * (|grid| * |grid[0]|) &&
    ExpandedFrom(grid, start, end, r.visited) &&
    (forall i, j :: 0 <= i < j < |r.visited| && i % 2 == j % 2 ==> r.visited[i] != r.visited[j]) &&
    (r.found ==> IsPath(grid, r.path, start, end)) &&
    (!r.found ==> r.path == []) &&
    (start != end ==> (r.found <==> Reachable(grid, start, end))) &&
    (start != end && r.found ==> Distinct(r.path)) &&
    (start == end ==>
       r.visited == [start, start] && (r.found <==> !Enclosed(grid, start)) &&
       (r.found ==> r.path == [start, Step(start, FirstOpen(grid, start, 0)), start]))
  }
}
