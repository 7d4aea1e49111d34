// Depth-first search: a LIFO stack whose top is the last element, with cells marked visited
// when they are pushed, so each open cell is pushed, and so expanded, at most once.

module Dfs {
  import opened Grid
  import opened Parents

  /**
   * The stack discipline. Every visited cell is either expanded or still on the stack (never
   * both, never twice), and the depth map has exactly the visited cells as keys.
   */
  ghost predicate Marked(stack: seq<Pos>, visited: set<Pos>, depth: map<Pos, nat>, expanded: set<Pos>)
  {
    visited == depth.Keys &&
    (forall x :: x in visited <==> x in expanded || x in stack) &&
    (forall i :: 0 <= i < |stack| ==> stack[i] !in expanded) &&
    Distinct(stack)
  }

  /**
   * The search state: the parent links of the visited open cells form a tree rooted at start,
   * the stack is marked as above, and every open neighbour of an expanded cell is visited.
   */
  ghost predicate DfsState(grid: seq<seq<int>>, start: Pos, stack: seq<Pos>, visited: set<Pos>,
                           parent: map<Pos, Option<Pos>>, depth: map<Pos, nat>, expanded: set<Pos>)
    requires WellFormed(grid)
  {
    ParentTree(parent, depth, start) && parent.Keys == visited && AllOpen(grid, visited) &&
    Marked(stack, visited, depth, expanded) && NeighbourClosed(grid, expanded, visited)
  }

  /** Popping the top of the stack expands it. */
  lemma PopKeepsMarked(stack: seq<Pos>, visited: set<Pos>, depth: map<Pos, nat>, expanded: set<Pos>)
    requires Marked(stack, visited, depth, expanded) && |stack| > 0
    ensures stack[|stack| - 1] !in expanded && stack[|stack| - 1] in visited
    ensures Marked(stack[..|stack| - 1], visited, depth, expanded + {stack[|stack| - 1]})
  {
    var top, rest := stack[|stack| - 1], stack[..|stack| - 1];
    forall i | 0 <= i < |rest|
      ensures rest[i] !in expanded + {top}
    {
      assert rest[i] == stack[i];
    }
    forall x | x in visited && x !in expanded + {top}
      ensures x in rest
    {
      var i :| 0 <= i < |stack| && stack[i] == x;
      assert rest[i] == x;
    }
  }

  /** Pushing an unvisited cell marks it visited. */
  lemma PushKeepsMarked(stack: seq<Pos>, visited: set<Pos>, depth: map<Pos, nat>, expanded: set<Pos>,
                        next: Pos, d: nat)
    requires Marked(stack, visited, depth, expanded) && next !in visited
    ensures Marked(stack + [next], visited + {next}, depth[next := d], expanded)
  {
    var stack' := stack + [next];
    assert forall i :: 0 <= i < |stack| ==> stack'[i] == stack[i];
    assert stack'[|stack|] == next;
  }

  /** The state while `cur` is being expanded: as DfsState, except that `cur` may still have unvisited neighbours. */
  ghost predicate Visiting(grid: seq<seq<int>>, start: Pos, cur: Pos, expanded: set<Pos>,
                           stack: seq<Pos>, visited: set<Pos>, parent: map<Pos, Option<Pos>>, depth: map<Pos, nat>)
    requires WellFormed(grid)
  {
    ParentTree(parent, depth, start) && parent.Keys == visited && AllOpen(grid, visited) &&
    Marked(stack, visited, depth, expanded) && NeighbourClosed(grid, expanded - {cur}, visited)
  }

  /** Pushing an open unvisited neighbour of `cur`, with `cur` as its parent, keeps that state. */
  lemma PushKeepsVisiting(grid: seq<seq<int>>, start: Pos, cur: Pos, expanded: set<Pos>,
                          stack: seq<Pos>, visited: set<Pos>, parent: map<Pos, Option<Pos>>, depth: map<Pos, nat>,
                          next: Pos)
    requires WellFormed(grid) && Visiting(grid, start, cur, expanded, stack, visited, parent, depth)
    requires cur in visited && IsValid(grid, next) && next !in visited && Adjacent(cur, next)
    ensures Visiting(grid, start, cur, expanded, stack + [next], visited + {next}, parent[next := Some(cur)],
                     depth[next := depth[cur] + 1])
  {
    AddLeaf(parent, depth, start, cur, next);
    PushKeepsMarked(stack, visited, depth, expanded, next, depth[cur] + 1);
  }

  /** The neighbour loop after k directions: the search state is kept and the bookkeeping holds. */
  ghost predicate PushLoop(grid: seq<seq<int>>, start: Pos, cur: Pos, k: nat, expanded: set<Pos>,
                           stack: seq<Pos>, visited: set<Pos>, parent: map<Pos, Option<Pos>>,
                           stack': seq<Pos>, visited': set<Pos>, parent': map<Pos, Option<Pos>>, depth': map<Pos, nat>)
    requires WellFormed(grid) && k <= 4
  {
    Visiting(grid, start, cur, expanded, stack', visited', parent', depth') &&
    NeighboursMarked(grid, cur, k, visited') &&
    Pushes(grid, cur, k, stack, visited, parent, stack', visited', parent')
  }

  /** Looking at a direction whose cell is a wall, out of bounds or already visited changes nothing. */
  lemma SkipStep(grid: seq<seq<int>>, start: Pos, cur: Pos, k: nat, expanded: set<Pos>,
                 stack: seq<Pos>, visited: set<Pos>, parent: map<Pos, Option<Pos>>,
                 stack': seq<Pos>, visited': set<Pos>, parent': map<Pos, Option<Pos>>, depth': map<Pos, nat>)
    requires WellFormed(grid) && k < 4
    requires PushLoop(grid, start, cur, k, expanded, stack, visited, parent, stack', visited', parent', depth')
    requires !(IsValid(grid, Step(cur, k)) && Step(cur, k) !in visited')
    ensures PushLoop(grid, start, cur, k + 1, expanded, stack, visited, parent, stack', visited', parent', depth')
  {
    SkipPushes(grid, cur, k, stack, visited, parent, stack', visited', parent');
    MarkNext(grid, cur, k, visited');
  }

  /** Pushing an open unvisited neighbour, with `cur` as its parent, keeps the state and extends the pushes. */
  lemma PushStep(grid: seq<seq<int>>, start: Pos, cur: Pos, k: nat, expanded: set<Pos>,
                 stack: seq<Pos>, visited: set<Pos>, parent: map<Pos, Option<Pos>>,
                 stack': seq<Pos>, visited': set<Pos>, parent': map<Pos, Option<Pos>>, depth': map<Pos, nat>)
    requires WellFormed(grid) && k < 4 && cur in visited'
    requires PushLoop(grid, start, cur, k, expanded, stack, visited, parent, stack', visited', parent', depth')
    requires IsValid(grid, Step(cur, k)) && Step(cur, k) !in visited'
    ensures var next := Step(cur, k);
      PushLoop(grid, start, cur, k + 1, expanded, stack, visited, parent, stack' + [next], visited' + {next},
               parent'[next := Some(cur)], depth'[next := depth'[cur] + 1])
  {
    var next := Step(cur, k);
    AddPush(grid, cur, k, stack, visited, parent, stack', visited', parent');
    StepAdjacent(cur, next);
    PushKeepsVisiting(grid, start, cur, expanded, stack', visited', parent', depth', next);
    MarkNext(grid, cur, k, visited' + {next});
  }

  /**
   * The neighbour loop of one expansion: in the order right, down, left, up, every open
   * neighbour not yet visited is pushed, marked visited and given `cur` as parent, so the last
   * of them ends on top of the stack. Afterwards every open neighbour of `cur` is visited.
   */
  method PushNeighbours(grid: seq<seq<int>>, ghost start: Pos, cur: Pos, stack: seq<Pos>, visited: set<Pos>,
                        parent: map<Pos, Option<Pos>>, ghost depth: map<Pos, nat>, ghost expanded: set<Pos>)
    returns (stack': seq<Pos>, visited': set<Pos>, parent': map<Pos, Option<Pos>>, ghost depth': map<Pos, nat>)
    requires WellFormed(grid) && cur in expanded
    requires ParentTree(parent, depth, start) && parent.Keys == visited && AllOpen(grid, visited)
    requires Marked(stack, visited, depth, expanded) && NeighbourClosed(grid, expanded - {cur}, visited)
    ensures DfsState(grid, start, stack', visited', parent', depth', expanded)
    ensures Pushes(grid, cur, 4, stack, visited, parent, stack', visited', parent')
  {
    stack', visited', parent', depth' := stack, visited, parent, depth;
    for k := 0 to 4
      invariant PushLoop(grid, start, cur, k, expanded, stack, visited, parent, stack', visited', parent', depth')
    {
      var next := Step(cur, k);
      if IsValid(grid, next) && next !in visited' {
        PushStep(grid, start, cur, k, expanded, stack, visited, parent, stack', visited', parent', depth');
        stack' := stack' + [next];
        visited' := visited' + {next};
        parent' := parent'[next := Some(cur)];
        depth' := depth'[next := depth'[cur] + 1];
      } else {
        SkipStep(grid, start, cur, k, expanded, stack, visited, parent, stack', visited', parent', depth');
      }
    }
    CloseNode(grid, expanded, visited', cur);
  }

  /** Once the stack is empty, the expanded cells are exactly the cells reachable from start. */
  lemma ExhaustedIsReachable(grid: seq<seq<int>>, start: Pos, visited: set<Pos>,
                             parent: map<Pos, Option<Pos>>, depth: map<Pos, nat>, expanded: set<Pos>, x: Pos)
    requires WellFormed(grid) && DfsState(grid, start, [], visited, parent, depth, expanded)
    ensures x in expanded <==> Reachable(grid, start, x)
  {
    assert visited == expanded;
    if x in expanded {
      TreeReachable(grid, parent, depth, start, x);
    }
    if Reachable(grid, start, x) {
      ClosedUnderMoves(grid, start, expanded, x);
    }
  }

  /** The state before the first iteration: only the start is visited and on the stack. */
  lemma InitState(grid: seq<seq<int>>, start: Pos)
    requires WellFormed(grid) && IsValid(grid, start)
    ensures DfsState(grid, start, [start], {start}, map[start := None], map[start := 0], {})
    ensures ExpansionTrace(grid, {}, [], 0)
  {
  }

  /**
   * dfs(grid, start, end). The result reports whether end is reachable; when it is, the path
   * is a walk from start to end with no repeated cell (not necessarily a shortest one), and
   * when it is not, the path is empty and the trace lists exactly the cells reachable from start.
   * The trace lists each expanded cell once, and the counter equals its length.
   */
  method Dfs(grid: seq<seq<int>>, start: Pos, end: Pos) returns (r: SearchResult)
    requires ValidRequest(grid, start, end)
    ensures r.nodesExpanded == |r.visited| <= |grid| * |grid[0]|
    ensures Distinct(r.visited) && forall i :: 0 <= i < |r.visited| ==> IsValid(grid, r.visited[i])
    ensures r.found <==> Reachable(grid, start, end)
    ensures r.found ==> IsPath(grid, r.path, start, end) && Distinct(r.path)
    ensures !r.found ==> r.path == [] && forall x :: x in r.visited <==> Reachable(grid, start, x)
    ensures start == end ==> r.found && r.path == [start] && r.nodesExpanded == 1
  {
    var stack := [start];
    var visited := {start};
    var parent := map[start := None];
    var visitedOrder := [];
    var nodesExpanded := 0;
    ghost var depth := map[start := 0];
    ghost var expanded: set<Pos> := {};
    InitState(grid, start);

    while |stack| > 0
      invariant DfsState(grid, start, stack, visited, parent, depth, expanded)
      invariant ExpansionTrace(grid, expanded, visitedOrder, nodesExpanded)
      invariant nodesExpanded <= |grid| * |grid[0]|
      invariant end !in expanded
      invariant start == end ==> visitedOrder == [] && stack == [start]
      decreases |grid| * |grid[0]| - nodesExpanded
    {
      PopKeepsMarked(stack, visited, depth, expanded);
      var cur := stack[|stack| - 1];
      stack := stack[..|stack| - 1];
      ExpandCell(grid, expanded, visitedOrder, nodesExpanded, cur);
      visitedOrder := visitedOrder + [cur];
      nodesExpanded := nodesExpanded + 1;
      expanded := expanded + {cur};

      if cur == end {
        var trace := TraceChain(parent, depth, start, Some(end));
        RootPath(grid, parent, depth, start, end, trace);
        return SearchResult(true, nodesExpanded, Reverse(trace), visitedOrder);
      }

      stack, visited, parent, depth := PushNeighbours(grid, start, cur, stack, visited, parent, depth, expanded);
    }
    forall x
      ensures x in visitedOrder <==> Reachable(grid, start, x)
    {
      ExhaustedIsReachable(grid, start, visited, parent, depth, expanded, x);
    }
    return SearchResult(false, nodesExpanded, [], visitedOrder);
  }
}
