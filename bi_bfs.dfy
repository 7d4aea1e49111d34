// Bidirectional breadth-first search: two FIFO queues and two parent maps, one rooted at start
// and one at end, expanded alternately one cell at a time; the search stops as soon as a cell
// newly marked on one side is already marked on the other.

module BiBfs {
  import opened Grid
  import opened Parents
  import Dfs
  import opened BiBfsState

  /** Dequeuing the head of a side's queue expands it. */
  lemma PopFront(queue: seq<Pos>, visited: set<Pos>, depth: map<Pos, nat>, expanded: set<Pos>)
    requires Dfs.Marked(queue, visited, depth, expanded) && |queue| > 0
    ensures queue[0] !in expanded && queue[0] in visited
    ensures Dfs.Marked(queue[1..], visited, depth, expanded + {queue[0]})
  {
    var head, rest := queue[0], queue[1..];
    forall i | 0 <= i < |rest|
      ensures rest[i] !in expanded + {head}
    {
      assert rest[i] == queue[i + 1] && queue[0] != queue[i + 1];
    }
    forall i, j | 0 <= i < j < |rest|
      ensures rest[i] != rest[j]
    {
      assert rest[i] == queue[i + 1] && rest[j] == queue[j + 1];
    }
    forall x | x in visited && x !in expanded + {head}
      ensures x in rest
    {
      var i :| 0 <= i < |queue| && queue[i] == x;
      assert rest[i - 1] == x;
    }
    forall x | x in rest
      ensures x in visited
    {
      var i :| 0 <= i < |rest| && rest[i] == x;
      assert queue[i + 1] == x;
    }
  }

  /**
   * Dequeuing and expanding the head of a side: it leaves the queue, joins the expanded cells
   * and, while its own neighbours are being looked at, the side is in the DFS visiting state.
   */
  lemma ExpandFront(grid: seq<seq<int>>, root: Pos, queue: seq<Pos>, visited: map<Pos, Option<Pos>>,
                    depth: map<Pos, nat>, expanded: set<Pos>)
    requires WellFormed(grid) && Side(grid, root, queue, visited, depth, expanded) && |queue| > 0
    ensures var cur := queue[0];
      cur !in expanded && cur in visited && IsValid(grid, cur) &&
      Dfs.Visiting(grid, root, cur, expanded + {cur}, queue[1..], visited.Keys, visited, depth) &&
      |expanded + {cur}| == |expanded| + 1 <= |grid| * |grid[0]|
  {
    var cur := queue[0];
    PopFront(queue, visited.Keys, depth, expanded);
    assert expanded + {cur} - {cur} == expanded;
    CellsBound(grid, expanded + {cur});
  }

  /** Every expanded cell of a side is marked. */
  lemma ExpandedMarked(queue: seq<Pos>, visited: set<Pos>, depth: map<Pos, nat>, expanded: set<Pos>)
    requires Dfs.Marked(queue, visited, depth, expanded)
    ensures expanded <= visited
  {
  }

  /**
   * One direction k of a side's neighbour loop: an open neighbour not yet marked on this side
   * is enqueued and marked with `cur` as its parent; `hit` says it is marked on the other side.
   */
  method LookAt(grid: seq<seq<int>>, ghost root: Pos, cur: Pos, k: nat, ghost expanded: set<Pos>,
                ghost queue: seq<Pos>, ghost visited: map<Pos, Option<Pos>>, other: map<Pos, Option<Pos>>,
                queue': seq<Pos>, visited': map<Pos, Option<Pos>>, ghost depth': map<Pos, nat>)
    returns (queue'': seq<Pos>, visited'': map<Pos, Option<Pos>>, ghost depth'': map<Pos, nat>, hit: bool)
    requires WellFormed(grid) && k < 4 && cur in visited'
    requires MeetLoop(grid, root, cur, k, expanded, queue, visited, other, queue', visited', depth')
    ensures Dfs.PushLoop(grid, root, cur, k + 1, expanded, queue, visited.Keys, visited, queue'', visited''.Keys, visited'', depth'')
    ensures !hit ==> MeetLoop(grid, root, cur, k + 1, expanded, queue, visited, other, queue'', visited'', depth'')
    ensures hit ==> Step(cur, k) in visited'' && visited''[Step(cur, k)] == Some(cur) &&
                    Step(cur, k) !in visited && Step(cur, k) in other &&
                    forall x :: x in visited'' && x !in visited && x in other ==> x == Step(cur, k)
  {
    var next := Step(cur, k);
    queue'', visited'', depth'', hit := queue', visited', depth', false;
    if IsValid(grid, next) && next !in visited' {
      Dfs.PushStep(grid, root, cur, k, expanded, queue, visited.Keys, visited, queue', visited'.Keys, visited', depth');
      assert visited'[next := Some(cur)].Keys == visited'.Keys + {next};
      queue'' := queue' + [next];
      visited'' := visited'[next := Some(cur)];
      depth'' := depth'[next := depth'[cur] + 1];
      hit := next in other;
    } else {
      Dfs.SkipStep(grid, root, cur, k, expanded, queue, visited.Keys, visited, queue', visited'.Keys, visited', depth');
    }
  }

  /**
   * The neighbour loop of one expansion on one side: in the order right, down, left, up, every
   * open neighbour not yet marked on this side is enqueued and marked with `cur` as its parent;
   * when that cell is already marked on the other side it is the meeting point and the loop
   * stops there. `looked` is the number of directions looked at. Without a meeting every
   * open neighbour of `cur` ends up marked; with one, no other newly marked cell is marked on
   * the other side.
   */
  method ExpandSide(grid: seq<seq<int>>, ghost root: Pos, cur: Pos, queue: seq<Pos>, visited: map<Pos, Option<Pos>>,
                    ghost depth: map<Pos, nat>, ghost expanded: set<Pos>, other: map<Pos, Option<Pos>>)
    returns (queue': seq<Pos>, visited': map<Pos, Option<Pos>>, ghost depth': map<Pos, nat>, meet: Option<Pos>,
             ghost looked: nat)
    requires WellFormed(grid) && cur in expanded && cur in visited
    requires Dfs.Visiting(grid, root, cur, expanded, queue, visited.Keys, visited, depth)
    ensures looked <= 4
    ensures Dfs.PushLoop(grid, root, cur, looked, expanded, queue, visited.Keys, visited, queue', visited'.Keys, visited', depth')
    ensures expanded <= visited'.Keys
    ensures forall x :: x in visited' && x !in visited && x in other ==> meet == Some(x)
    ensures meet.None? ==> looked == 4 && Side(grid, root, queue', visited', depth', expanded)
    ensures meet.Some? ==> 0 < looked && meet.value == Step(cur, looked - 1) &&
                           meet.value in visited' && visited'[meet.value] == Some(cur) &&
                           meet.value !in visited && meet.value in other
  {
    queue', visited', depth' := queue, visited, depth;
    meet, looked := None, 0;
    for k := 0 to 4
      invariant MeetLoop(grid, root, cur, k, expanded, queue, visited, other, queue', visited', depth')
    {
      var hit;
      queue', visited', depth', hit := LookAt(grid, root, cur, k, expanded, queue, visited, other, queue', visited', depth');
      if hit {
        meet, looked := Some(Step(cur, k)), k + 1;
        ExpandedMarked(queue', visited'.Keys, depth', expanded);
        return;
      }
    }
    looked := 4;
    CloseNode(grid, expanded, visited'.Keys, cur);
    ExpandedMarked(queue', visited'.Keys, depth', expanded);
  }

  /** A walk to y followed by a walk from a neighbour of y is one walk. */
  lemma JoinPaths(grid: seq<seq<int>>, a: seq<Pos>, b: seq<Pos>, x: Pos, y: Pos, y': Pos, z: Pos)
    requires WellFormed(grid) && IsPath(grid, a, x, y) && IsPath(grid, b, y', z) && Adjacent(y, y')
    ensures IsPath(grid, a + b, x, z)
  {
    var w := a + b;
    forall i | 0 <= i < |w| - 1
      ensures Adjacent(w[i], w[i + 1])
    {
      if i < |a| - 1 {
        assert w[i] == a[i] && w[i + 1] == a[i + 1];
      } else if i >= |a| {
        assert w[i] == b[i - |a|] && w[i + 1] == b[i - |a| + 1];
      }
    }
  }

  /** Two duplicate-free sequences with no common element make a duplicate-free sequence. */
  lemma JoinDistinct(a: seq<Pos>, b: seq<Pos>)
    requires Distinct(a) && Distinct(b) && forall i, j :: 0 <= i < |a| && 0 <= j < |b| ==> a[i] != b[j]
    ensures Distinct(a + b)
  {
    var w := a + b;
    forall i, j | 0 <= i < j < |w|
      ensures w[i] != w[j]
    {
      if j < |a| {
        assert w[i] == a[i] && w[j] == a[j];
      } else if i >= |a| {
        assert w[i] == b[i - |a|] && w[j] == b[j - |a|];
      } else {
        assert w[i] == a[i] && w[j] == b[j - |a|];
      }
    }
  }

  /** A side that marks only cells the other side has not marked keeps the two sides apart. */
  lemma KeepApart(mine: map<Pos, Option<Pos>>, mine': map<Pos, Option<Pos>>, other: map<Pos, Option<Pos>>)
    requires mine.Keys !! other.Keys
    requires forall x :: x in mine' && x !in mine ==> x !in other
    ensures mine'.Keys !! other.Keys
  {
  }

  /**
   * A meeting while the sides share no marked cell: when, of the cells newly marked on one side,
   * only m is marked on the other side, m is the only cell marked on both.
   */
  lemma OnlyMeeting(mine: map<Pos, Option<Pos>>, mine': map<Pos, Option<Pos>>, other: map<Pos, Option<Pos>>, m: Pos)
    requires mine.Keys !! other.Keys
    requires forall x :: x in mine' && x !in mine && x in other ==> Some(x) == Some(m)
    ensures forall x :: x in mine' && x in other ==> x == m
    ensures forall x :: x in other && x in mine' ==> x == m
  {
    forall x | x in mine' && x in other
      ensures x == m
    {
      assert x !in mine;
      assert Some(x) == Some(m);
    }
  }

  /**
   * reconstruct_path(m): the start-side chain from m back to start, reversed, followed by the
   * end-side chain from the parent of m to end, not reversed. The result is a walk from start
   * to end through m, with one cell per start-side link to m, one for m and one per end-side
   * link from m; when m is the only cell marked on both sides, no cell repeats.
   */
  method ReconstructPath(grid: seq<seq<int>>, startVisited: map<Pos, Option<Pos>>, ghost startDepth: map<Pos, nat>,
                         ghost start: Pos, endVisited: map<Pos, Option<Pos>>, ghost endDepth: map<Pos, nat>,
                         ghost end: Pos, m: Pos)
    returns (path: seq<Pos>)
    requires WellFormed(grid)
    requires ParentTree(startVisited, startDepth, start) && AllOpen(grid, startVisited.Keys)
    requires ParentTree(endVisited, endDepth, end) && AllOpen(grid, endVisited.Keys)
    requires m in startVisited && m in endVisited
    ensures IsPath(grid, path, start, end)
    ensures |path| == startDepth[m] + endDepth[m] + 1 && path[startDepth[m]] == m
    ensures (forall x :: x in startVisited && x in endVisited ==> x == m) ==> Distinct(path)
  {
    var toStart := TraceChain(startVisited, startDepth, start, Some(m));
    path := Reverse(toStart);
    RootPath(grid, startVisited, startDepth, start, m, toStart);
    assert Linked(endVisited, endDepth, end, m);
    var toEnd := TraceChain(endVisited, endDepth, end, endVisited[m]);
    ghost var front := path;
    path := path + toEnd;
    if endVisited[m].Some? {
      var p := endVisited[m].value;
      ChainIsPath(grid, endVisited, endDepth, end, p, toEnd);
      JoinPaths(grid, front, toEnd, start, m, p, end);
      if forall x :: x in startVisited && x in endVisited ==> x == m {
        forall j | 0 <= j < |toEnd|
          ensures toEnd[j] != m && toEnd[j] in endVisited && toEnd[j] !in startVisited
        {
        }
        forall i, j | 0 <= i < j < |toEnd|
          ensures toEnd[i] != toEnd[j]
        {
          assert endDepth[toEnd[i]] != endDepth[toEnd[j]];
        }
        JoinDistinct(front, toEnd);
      }
    }
  }

  /** The start side's turn: it records a cell it has not expanded, at an even position. */
  lemma RecordStart(visitedOrder: seq<Pos>, fromStart: set<Pos>, fromEnd: set<Pos>, x: Pos)
    requires Alternates(visitedOrder, fromStart, fromEnd) && x !in fromStart
    requires |visitedOrder| == |fromStart| + |fromEnd| && |fromStart| == |fromEnd|
    ensures Alternates(visitedOrder + [x], fromStart + {x}, fromEnd)
    ensures |visitedOrder + [x]| == |fromStart + {x}| + |fromEnd| && |fromStart + {x}| == |fromEnd| + 1
  {
    var vo := visitedOrder + [x];
    assert forall i :: 0 <= i < |visitedOrder| ==> vo[i] == visitedOrder[i];
    assert vo[|visitedOrder|] == x && |visitedOrder| % 2 == 0;
  }

  /** The end side's turn: it records a cell it has not expanded, at an odd position. */
  lemma RecordEnd(visitedOrder: seq<Pos>, fromStart: set<Pos>, fromEnd: set<Pos>, x: Pos)
    requires Alternates(visitedOrder, fromStart, fromEnd) && x !in fromEnd
    requires |visitedOrder| == |fromStart| + |fromEnd| && |fromStart| == |fromEnd| + 1
    ensures Alternates(visitedOrder + [x], fromStart, fromEnd + {x})
    ensures |visitedOrder + [x]| == |fromStart| + |fromEnd + {x}| && |fromStart| == |fromEnd + {x}|
  {
    var vo := visitedOrder + [x];
    assert forall i :: 0 <= i < |visitedOrder| ==> vo[i] == visitedOrder[i];
    assert vo[|visitedOrder|] == x && |visitedOrder| % 2 == 1;
  }

  /** Every expanded cell is open and reachable from the root of the side that expanded it. */
  lemma TraceReachable(grid: seq<seq<int>>, start: Pos, end: Pos, visitedOrder: seq<Pos>,
                       startVisited: map<Pos, Option<Pos>>, startDepth: map<Pos, nat>, fromStart: set<Pos>,
                       endVisited: map<Pos, Option<Pos>>, endDepth: map<Pos, nat>, fromEnd: set<Pos>)
    requires WellFormed(grid) && Alternates(visitedOrder, fromStart, fromEnd)
    requires ParentTree(startVisited, startDepth, start) && AllOpen(grid, startVisited.Keys) && fromStart <= startVisited.Keys
    requires ParentTree(endVisited, endDepth, end) && AllOpen(grid, endVisited.Keys) && fromEnd <= endVisited.Keys
    ensures ExpandedFrom(grid, start, end, visitedOrder)
  {
    forall i | 0 <= i < |visitedOrder|
      ensures IsValid(grid, visitedOrder[i])
      ensures if i % 2 == 0 then Reachable(grid, start, visitedOrder[i]) else Reachable(grid, end, visitedOrder[i])
    {
      if i % 2 == 0 {
        TreeReachable(grid, startVisited, startDepth, start, visitedOrder[i]);
      } else {
        TreeReachable(grid, endVisited, endDepth, end, visitedOrder[i]);
      }
    }
  }

  /**
   * When start and end differ and the two sides share no marked cell, an empty queue on either
   * side means end is not reachable: that side has marked everything reachable from its root,
   * which includes the other root when end is reachable from start.
   */
  lemma Exhausted(grid: seq<seq<int>>, start: Pos, end: Pos,
                  startQueue: seq<Pos>, startVisited: map<Pos, Option<Pos>>, startDepth: map<Pos, nat>, fromStart: set<Pos>,
                  endQueue: seq<Pos>, endVisited: map<Pos, Option<Pos>>, endDepth: map<Pos, nat>, fromEnd: set<Pos>)
    requires WellFormed(grid) && startVisited.Keys !! endVisited.Keys
    requires Side(grid, start, startQueue, startVisited, startDepth, fromStart)
    requires Side(grid, end, endQueue, endVisited, endDepth, fromEnd)
    requires |startQueue| == 0 || |endQueue| == 0
    ensures !Reachable(grid, start, end)
  {
    if |startQueue| == 0 {
      Dfs.ExhaustedIsReachable(grid, start, startVisited.Keys, startVisited, startDepth, fromStart, end);
    } else {
      Dfs.ExhaustedIsReachable(grid, end, endVisited.Keys, endVisited, endDepth, fromEnd, start);
      if Reachable(grid, start, end) {
        var w :| IsPath(grid, w, start, end);
        ReversePath(grid, w, start, end);
      }
    }
  }

  /**
   * With start == end, both sides mark the open neighbours of start in the first round. When
   * the end side finds none of them new and already marked by the start side, start has no
   * open neighbour and the start queue is empty.
   */
  lemma LoneStart(grid: seq<seq<int>>, s: Pos, startQueue: seq<Pos>, startVisited: map<Pos, Option<Pos>>,
                  endQueue: seq<Pos>, endVisited: map<Pos, Option<Pos>>,
                  endQueue': seq<Pos>, endVisited': map<Pos, Option<Pos>>)
    requires WellFormed(grid) && endQueue == [s] && endVisited == map[s := Option<Pos>.None]
    requires Pushes(grid, s, 4, [], map[s := Option<Pos>.None].Keys, map[s := Option<Pos>.None], startQueue, startVisited.Keys, startVisited)
    requires Pushes(grid, s, 4, endQueue[1..], endVisited.Keys, endVisited, endQueue', endVisited'.Keys, endVisited')
    requires forall x :: x in endVisited' && x !in endVisited ==> x !in startVisited
    ensures Enclosed(grid, s) && startQueue == []
  {
    assert endQueue[1..] == [];
    var root := map[s := Option<Pos>.None];
    NewNeighboursSpec(grid, s, 4, root.Keys);
    var news := NewNeighbours(grid, s, 4, root.Keys);
    forall k | 0 <= k < 4
      ensures !IsValid(grid, Step(s, k))
    {
    }
    if |news| > 0 {
      var k := DirectionOf(s, news[0]);
    }
  }

  /**
   * With start == end, a meeting in the first round is at an open neighbour m of start whose
   * parent is start on both sides: it is one link from start on either side, so the rebuilt
   * path is start, m, start.
   */
  lemma MeetNextToStart(s: Pos, startVisited: map<Pos, Option<Pos>>, startDepth: map<Pos, nat>,
                        endVisited: map<Pos, Option<Pos>>, endDepth: map<Pos, nat>, m: Pos)
    requires ParentTree(startVisited, startDepth, s) && ParentTree(endVisited, endDepth, s)
    requires m in startVisited && startVisited[m] == Some(s) && m in endVisited && endVisited[m] == Some(s)
    ensures startDepth[m] == 1 && endDepth[m] == 1
  {
    assert Linked(startVisited, startDepth, s, m) && Linked(endVisited, endDepth, s, m);
  }

  /**
   * With start == end, the end side's first round meets at the first open neighbour of s in
   * direction order: the start side has marked every open neighbour of s, so an open neighbour
   * in an earlier direction would have been the meeting point.
   */
  lemma FirstMeeting(grid: seq<seq<int>>, s: Pos, startQueue: seq<Pos>, startVisited: map<Pos, Option<Pos>>,
                     endVisited': map<Pos, Option<Pos>>, k: nat)
    requires WellFormed(grid) && 0 < k <= 4 && IsValid(grid, Step(s, k - 1))
    requires Pushes(grid, s, 4, [], map[s := Option<Pos>.None].Keys, map[s := Option<Pos>.None], startQueue, startVisited.Keys, startVisited)
    requires NeighboursMarked(grid, s, k, endVisited'.Keys)
    requires forall x :: x in endVisited' && x !in map[s := Option<Pos>.None] && x in startVisited ==> Some(x) == Some(Step(s, k - 1))
    ensures FirstOpen(grid, s, 0) == k - 1
  {
    NewNeighboursSpec(grid, s, 4, map[s := Option<Pos>.None].Keys);
    forall j | 0 <= j < k - 1
      ensures !IsValid(grid, Step(s, j))
    {
      StepsDiffer(s, j, k - 1);
      StepAdjacent(s, Step(s, j));
    }
  }

  /**
   * With start == end, the end side's first round meets at m, the cell of direction looked - 1
   * from s: the rebuilt path goes from s out to the first open neighbour of s and back.
   */
  lemma ReturnTrip(grid: seq<seq<int>>, s: Pos, startQueue: seq<Pos>, startVisited: map<Pos, Option<Pos>>,
                   startDepth: map<Pos, nat>, endVisited': map<Pos, Option<Pos>>, endDepth': map<Pos, nat>,
                   m: Pos, looked: nat, path: seq<Pos>)
    requires WellFormed(grid) && ParentTree(startVisited, startDepth, s) && ParentTree(endVisited', endDepth', s)
    requires Pushes(grid, s, 4, [], map[s := Option<Pos>.None].Keys, map[s := Option<Pos>.None], startQueue, startVisited.Keys, startVisited)
    requires m in endVisited' && endVisited'[m] == Some(s) && m != s && m in startVisited
    requires 0 < looked <= 4 && m == Step(s, looked - 1) && NeighboursMarked(grid, s, looked, endVisited'.Keys)
    requires forall x :: x in endVisited' && x !in map[s := Option<Pos>.None] && x in startVisited ==> Some(x) == Some(m)
    requires IsPath(grid, path, s, s) && |path| == startDepth[m] + endDepth'[m] + 1 && path[startDepth[m]] == m
    ensures FirstOpen(grid, s, 0) < 4 && path == [s, Step(s, FirstOpen(grid, s, 0)), s]
  {
    NewNeighboursSpec(grid, s, 4, map[s := Option<Pos>.None].Keys);
    assert m !in map[s := Option<Pos>.None];
    MeetNextToStart(s, startVisited, startDepth, endVisited', endDepth', m);
    FirstMeeting(grid, s, startQueue, startVisited, endVisited', looked);
    assert path == [s, m, s];
  }

  /** What every return of the search reports, from what holds at that return. */
  lemma Report(grid: seq<seq<int>>, start: Pos, end: Pos, r: SearchResult,
               startVisited: map<Pos, Option<Pos>>, startDepth: map<Pos, nat>, fromStart: set<Pos>,
               endVisited: map<Pos, Option<Pos>>, endDepth: map<Pos, nat>, fromEnd: set<Pos>)
    requires ValidRequest(grid, start, end)
    requires r.nodesExpanded == |r.visited| == |fromStart| + |fromEnd| && Alternates(r.visited, fromStart, fromEnd)
    requires |fromStart| <= |grid| * |grid[0]| && |fromEnd| <= |grid| * |grid[0]|
    requires ParentTree(startVisited, startDepth, start) && AllOpen(grid, startVisited.Keys) && fromStart <= startVisited.Keys
    requires ParentTree(endVisited, endDepth, end) && AllOpen(grid, endVisited.Keys) && fromEnd <= endVisited.Keys
    requires r.found ==> IsPath(grid, r.path, start, end)
    requires r.found && start != end ==> Distinct(r.path)
    requires r.found && start == end ==>
               FirstOpen(grid, start, 0) < 4 && r.path == [start, Step(start, FirstOpen(grid, start, 0)), start]
    requires !r.found ==> r.path == []
    requires !r.found && start != end ==> !Reachable(grid, start, end)
    requires !r.found && start == end ==> Enclosed(grid, start)
    requires start == end ==> r.visited == [start, start]
    ensures Answers(grid, start, end, r)
  {
    TraceReachable(grid, start, end, r.visited, startVisited, startDepth, fromStart, endVisited, endDepth, fromEnd);
  }

  /**
   * The start-side half of a round ends without a meeting: it expanded the head `cur` of the
   * start queue, and marked its new open neighbours, none of which the end side has marked.
   */
  lemma StartHalfDone(grid: seq<seq<int>>, start: Pos, end: Pos,
                      startQueue: seq<Pos>, startVisited: map<Pos, Option<Pos>>, startDepth: map<Pos, nat>,
                      fromStart: set<Pos>, endQueue: seq<Pos>, endVisited: map<Pos, Option<Pos>>,
                      endDepth: map<Pos, nat>, fromEnd: set<Pos>, visitedOrder: seq<Pos>, nodesExpanded: nat,
                      cur: Pos, startQueue': seq<Pos>, startVisited': map<Pos, Option<Pos>>, startDepth': map<Pos, nat>)
    requires WellFormed(grid) && |startQueue| > 0 && cur == startQueue[0]
    requires BeforeRound(grid, start, end, startQueue, startVisited, startDepth, fromStart,
                         endQueue, endVisited, endDepth, fromEnd, visitedOrder, nodesExpanded)
    requires cur !in fromStart && |fromStart + {cur}| == |fromStart| + 1 <= |grid| * |grid[0]|
    requires Side(grid, start, startQueue', startVisited', startDepth', fromStart + {cur})
    requires Pushes(grid, cur, 4, startQueue[1..], startVisited.Keys, startVisited, startQueue', startVisited'.Keys, startVisited')
    requires forall x :: x in startVisited' && x !in startVisited ==> x !in endVisited
    ensures MidRound(grid, start, end, startQueue', startVisited', startDepth', fromStart + {cur},
                     endQueue, endVisited, endDepth, fromEnd, visitedOrder + [cur], nodesExpanded + 1)
  {
    RecordStart(visitedOrder, fromStart, fromEnd, cur);
    if start != end {
      KeepApart(startVisited, startVisited', endVisited);
    }
  }

  /**
   * The end-side half of a round ends without a meeting: it expanded the head `cur` of the
   * end queue, and marked its new open neighbours, none of which the start side has marked.
   */
  lemma EndHalfDone(grid: seq<seq<int>>, start: Pos, end: Pos,
                    startQueue: seq<Pos>, startVisited: map<Pos, Option<Pos>>, startDepth: map<Pos, nat>,
                    fromStart: set<Pos>, endQueue: seq<Pos>, endVisited: map<Pos, Option<Pos>>,
                    endDepth: map<Pos, nat>, fromEnd: set<Pos>, visitedOrder: seq<Pos>, nodesExpanded: nat,
                    cur: Pos, endQueue': seq<Pos>, endVisited': map<Pos, Option<Pos>>, endDepth': map<Pos, nat>)
    requires WellFormed(grid) && |endQueue| > 0 && cur == endQueue[0]
    requires MidRound(grid, start, end, startQueue, startVisited, startDepth, fromStart,
                      endQueue, endVisited, endDepth, fromEnd, visitedOrder, nodesExpanded)
    requires cur !in fromEnd && |fromEnd + {cur}| == |fromEnd| + 1
    requires Side(grid, end, endQueue', endVisited', endDepth', fromEnd + {cur})
    requires Pushes(grid, cur, 4, endQueue[1..], endVisited.Keys, endVisited, endQueue', endVisited'.Keys, endVisited')
    requires forall x :: x in endVisited' && x !in endVisited ==> x !in startVisited
    ensures BeforeRound(grid, start, end, startQueue, startVisited, startDepth, fromStart,
                        endQueue', endVisited', endDepth', fromEnd + {cur}, visitedOrder + [cur], nodesExpanded + 1)
  {
    RecordEnd(visitedOrder, fromStart, fromEnd, cur);
    if start == end {
      LoneStart(grid, start, startQueue, startVisited, endQueue, endVisited, endQueue', endVisited');
    } else {
      KeepApart(endVisited, endVisited', startVisited);
    }
  }

  /**
   * The start-side half of a round ends with a meeting at m, a cell newly marked on the start
   * side (whose parent there is the expanded cell) and already marked on the end side: the
   * path rebuilt through m, with the trace so far, is what the search reports. (With start ==
   * end the start side cannot meet: in the first round only end is marked on the end side.)
   */
  lemma StartMeets(grid: seq<seq<int>>, start: Pos, end: Pos,
                   startQueue: seq<Pos>, startVisited: map<Pos, Option<Pos>>, startDepth: map<Pos, nat>,
                   fromStart: set<Pos>, endQueue: seq<Pos>, endVisited: map<Pos, Option<Pos>>,
                   endDepth: map<Pos, nat>, fromEnd: set<Pos>, visitedOrder: seq<Pos>, nodesExpanded: nat,
                   cur: Pos, startVisited': map<Pos, Option<Pos>>, startDepth': map<Pos, nat>, m: Pos, path: seq<Pos>)
    requires ValidRequest(grid, start, end) && start != end
    requires BeforeRound(grid, start, end, startQueue, startVisited, startDepth, fromStart,
                         endQueue, endVisited, endDepth, fromEnd, visitedOrder, nodesExpanded)
    requires cur !in fromStart && |fromStart + {cur}| == |fromStart| + 1 <= |grid| * |grid[0]|
    requires ParentTree(startVisited', startDepth', start) && AllOpen(grid, startVisited'.Keys)
    requires fromStart + {cur} <= startVisited'.Keys
    requires m in startVisited' && m !in startVisited && m in endVisited
    requires forall x :: x in startVisited' && x !in startVisited && x in endVisited ==> Some(x) == Some(m)
    requires IsPath(grid, path, start, end)
    requires (forall x :: x in startVisited' && x in endVisited ==> x == m) ==> Distinct(path)
    ensures Answers(grid, start, end, SearchResult(true, nodesExpanded + 1, path, visitedOrder + [cur]))
  {
    RecordStart(visitedOrder, fromStart, fromEnd, cur);
    OnlyMeeting(startVisited, startVisited', endVisited, m);
    Report(grid, start, end, SearchResult(true, nodesExpanded + 1, path, visitedOrder + [cur]),
           startVisited', startDepth', fromStart + {cur}, endVisited, endDepth, fromEnd);
  }

  /**
   * The end-side half of a round ends with a meeting at m, a cell newly marked on the end side
   * with the expanded cell as its parent and already marked on the start side: the path rebuilt
   * through m, with the trace so far, is what the search reports.
   */
  lemma EndMeets(grid: seq<seq<int>>, start: Pos, end: Pos,
                 startQueue: seq<Pos>, startVisited: map<Pos, Option<Pos>>, startDepth: map<Pos, nat>,
                 fromStart: set<Pos>, endQueue: seq<Pos>, endVisited: map<Pos, Option<Pos>>,
                 endDepth: map<Pos, nat>, fromEnd: set<Pos>, visitedOrder: seq<Pos>, nodesExpanded: nat,
                 cur: Pos, endVisited': map<Pos, Option<Pos>>, endDepth': map<Pos, nat>, m: Pos, path: seq<Pos>)
    requires ValidRequest(grid, start, end) && start != end
    requires MidRound(grid, start, end, startQueue, startVisited, startDepth, fromStart,
                      endQueue, endVisited, endDepth, fromEnd, visitedOrder, nodesExpanded)
    requires cur !in fromEnd && |fromEnd + {cur}| == |fromEnd| + 1
    requires ParentTree(endVisited', endDepth', end) && AllOpen(grid, endVisited'.Keys)
    requires fromEnd + {cur} <= endVisited'.Keys
    requires m in endVisited' && m !in endVisited && m in startVisited
    requires forall x :: x in endVisited' && x !in endVisited && x in startVisited ==> Some(x) == Some(m)
    requires IsPath(grid, path, start, end)
    requires (forall x :: x in startVisited && x in endVisited' ==> x == m) ==> Distinct(path)
    ensures Answers(grid, start, end, SearchResult(true, nodesExpanded + 1, path, visitedOrder + [cur]))
  {
    RecordEnd(visitedOrder, fromStart, fromEnd, cur);
    OnlyMeeting(endVisited, endVisited', startVisited, m);
    Report(grid, start, end, SearchResult(true, nodesExpanded + 1, path, visitedOrder + [cur]),
           startVisited, startDepth, fromStart, endVisited', endDepth', fromEnd + {cur});
  }

  /**
   * With start == end, the end side's first round meets at m, the cell of direction looked - 1
   * from start, newly marked on the end side and already marked on the start side: m is the
   * first open neighbour of start in direction order, and the search reports the path start,
   * m, start after each side has expanded start once.
   */
  lemma EndReturns(grid: seq<seq<int>>, start: Pos,
                   startQueue: seq<Pos>, startVisited: map<Pos, Option<Pos>>, startDepth: map<Pos, nat>,
                   fromStart: set<Pos>, endQueue: seq<Pos>, endVisited: map<Pos, Option<Pos>>,
                   endDepth: map<Pos, nat>, fromEnd: set<Pos>, visitedOrder: seq<Pos>, nodesExpanded: nat,
                   cur: Pos, endVisited': map<Pos, Option<Pos>>, endDepth': map<Pos, nat>, m: Pos, looked: nat,
                   path: seq<Pos>)
    requires ValidRequest(grid, start, start) && |endQueue| > 0 && cur == endQueue[0]
    requires MidRound(grid, start, start, startQueue, startVisited, startDepth, fromStart,
                      endQueue, endVisited, endDepth, fromEnd, visitedOrder, nodesExpanded)
    requires cur !in fromEnd && |fromEnd + {cur}| == |fromEnd| + 1
    requires ParentTree(endVisited', endDepth', start) && AllOpen(grid, endVisited'.Keys)
    requires fromEnd + {cur} <= endVisited'.Keys
    requires m in endVisited' && endVisited'[m] == Some(cur) && m !in endVisited && m in startVisited
    requires 0 < looked <= 4 && m == Step(cur, looked - 1) && NeighboursMarked(grid, cur, looked, endVisited'.Keys)
    requires forall x :: x in endVisited' && x !in endVisited && x in startVisited ==> Some(x) == Some(m)
    requires IsPath(grid, path, start, start) && |path| == startDepth[m] + endDepth'[m] + 1 && path[startDepth[m]] == m
    ensures Answers(grid, start, start, SearchResult(true, nodesExpanded + 1, path, visitedOrder + [cur]))
  {
    RecordEnd(visitedOrder, fromStart, fromEnd, cur);
    ReturnTrip(grid, start, startQueue, startVisited, startDepth, endVisited', endDepth', m, looked, path);
    Report(grid, start, start, SearchResult(true, nodesExpanded + 1, path, visitedOrder + [cur]),
           startVisited, startDepth, fromStart, endVisited', endDepth', fromEnd + {cur});
  }

  /**
   * The start-side half of a round: dequeue the head of the start queue, count and record it,
   * and mark its new open neighbours on the start side. A cell so marked that the end side has
   * marked is the meeting point, and the search returns the path rebuilt through it.
   */
  method ExpandFromStart(grid: seq<seq<int>>, start: Pos, end: Pos,
                         startQueue: seq<Pos>, startVisited: map<Pos, Option<Pos>>, ghost startDepth: map<Pos, nat>,
                         ghost fromStart: set<Pos>, endQueue: seq<Pos>, endVisited: map<Pos, Option<Pos>>,
                         ghost endDepth: map<Pos, nat>, ghost fromEnd: set<Pos>, visitedOrder: seq<Pos>, nodesExpanded: nat)
    returns (startQueue': seq<Pos>, startVisited': map<Pos, Option<Pos>>, ghost startDepth': map<Pos, nat>,
             ghost fromStart': set<Pos>, visitedOrder': seq<Pos>, nodesExpanded': nat, result: Option<SearchResult>)
    requires ValidRequest(grid, start, end) && |startQueue| > 0 && |endQueue| > 0
    requires BeforeRound(grid, start, end, startQueue, startVisited, startDepth, fromStart,
                         endQueue, endVisited, endDepth, fromEnd, visitedOrder, nodesExpanded)
    ensures result.Some? ==> Answers(grid, start, end, result.value)
    ensures result.None? ==>
      MidRound(grid, start, end, startQueue', startVisited', startDepth', fromStart',
               endQueue, endVisited, endDepth, fromEnd, visitedOrder', nodesExpanded') &&
      |fromStart'| == |fromStart| + 1
  {
    var cur := startQueue[0];
    ExpandFront(grid, start, startQueue, startVisited, startDepth, fromStart);
    startQueue' := startQueue[1..];
    nodesExpanded' := nodesExpanded + 1;
    visitedOrder' := visitedOrder + [cur];
    fromStart' := fromStart + {cur};
    var meet: Option<Pos>;
    ghost var looked: nat;
    startQueue', startVisited', startDepth', meet, looked :=
      ExpandSide(grid, start, cur, startQueue', startVisited, startDepth, fromStart', endVisited);
    if meet.Some? {
      var path := ReconstructPath(grid, startVisited', startDepth', start, endVisited, endDepth, end, meet.value);
      StartMeets(grid, start, end, startQueue, startVisited, startDepth, fromStart, endQueue, endVisited, endDepth,
                 fromEnd, visitedOrder, nodesExpanded, cur, startVisited', startDepth', meet.value, path);
      return startQueue', startVisited', startDepth', fromStart', visitedOrder', nodesExpanded',
             Some(SearchResult(true, nodesExpanded', path, visitedOrder'));
    }
    StartHalfDone(grid, start, end, startQueue, startVisited, startDepth, fromStart, endQueue, endVisited, endDepth,
                  fromEnd, visitedOrder, nodesExpanded, cur, startQueue', startVisited', startDepth');
    result := None;
  }

  /**
   * The end-side half of a round: the same with the roles of the sides exchanged. With start
   * == end, the first open neighbour of start in direction order is the meeting point, or
   * start is enclosed.
   */
  method ExpandFromEnd(grid: seq<seq<int>>, start: Pos, end: Pos,
                       startQueue: seq<Pos>, startVisited: map<Pos, Option<Pos>>, ghost startDepth: map<Pos, nat>,
                       ghost fromStart: set<Pos>, endQueue: seq<Pos>, endVisited: map<Pos, Option<Pos>>,
                       ghost endDepth: map<Pos, nat>, ghost fromEnd: set<Pos>, visitedOrder: seq<Pos>, nodesExpanded: nat)
    returns (endQueue': seq<Pos>, endVisited': map<Pos, Option<Pos>>, ghost endDepth': map<Pos, nat>,
             ghost fromEnd': set<Pos>, visitedOrder': seq<Pos>, nodesExpanded': nat, result: Option<SearchResult>)
    requires ValidRequest(grid, start, end) && |endQueue| > 0
    requires MidRound(grid, start, end, startQueue, startVisited, startDepth, fromStart,
                      endQueue, endVisited, endDepth, fromEnd, visitedOrder, nodesExpanded)
    ensures result.Some? ==> Answers(grid, start, end, result.value)
    ensures result.None? ==>
      BeforeRound(grid, start, end, startQueue, startVisited, startDepth, fromStart,
                  endQueue', endVisited', endDepth', fromEnd', visitedOrder', nodesExpanded')
  {
    var cur := endQueue[0];
    ExpandFront(grid, end, endQueue, endVisited, endDepth, fromEnd);
    endQueue' := endQueue[1..];
    nodesExpanded' := nodesExpanded + 1;
    visitedOrder' := visitedOrder + [cur];
    fromEnd' := fromEnd + {cur};
    var meet: Option<Pos>;
    ghost var looked: nat;
    endQueue', endVisited', endDepth', meet, looked :=
      ExpandSide(grid, end, cur, endQueue', endVisited, endDepth, fromEnd', startVisited);
    if meet.Some? {
      var path := ReconstructPath(grid, startVisited, startDepth, start, endVisited', endDepth', end, meet.value);
      if start != end {
        EndMeets(grid, start, end, startQueue, startVisited, startDepth, fromStart, endQueue, endVisited, endDepth,
                 fromEnd, visitedOrder, nodesExpanded, cur, endVisited', endDepth', meet.value, path);
      } else {
        EndReturns(grid, start, startQueue, startVisited, startDepth, fromStart, endQueue, endVisited, endDepth,
                   fromEnd, visitedOrder, nodesExpanded, cur, endVisited', endDepth', meet.value, looked, path);
      }
      return endQueue', endVisited', endDepth', fromEnd', visitedOrder', nodesExpanded',
             Some(SearchResult(true, nodesExpanded', path, visitedOrder'));
    }
    EndHalfDone(grid, start, end, startQueue, startVisited, startDepth, fromStart, endQueue, endVisited, endDepth,
                fromEnd, visitedOrder, nodesExpanded, cur, endQueue', endVisited', endDepth');
    result := None;
  }

  /**
   * bidirectional_bfs(grid, start, end). Each round expands the head of the start queue and
   * then the head of the end queue; a cell newly marked on one side that is already marked on
   * the other is the meeting point, and the path rebuilt through it is a walk from start to
   * end. With start != end the result reports whether end is reachable and the path repeats no
   * cell. With start == end the first round still runs: each side expands start, the path found
   * is start, its first open neighbour in direction order, start, and when start has no open
   * neighbour nothing is found. The trace alternates sides, and each side expands a cell at most
   * once.
   */
  method BiBfs(grid: seq<seq<int>>, start: Pos, end: Pos) returns (r: SearchResult)
    requires ValidRequest(grid, start, end)
    ensures r.nodesExpanded == |r.visited| <= 2 * (|grid| * |grid[0]|)
    ensures ExpandedFrom(grid, start, end, r.visited)
    ensures forall i, j :: 0 <= i < j < |r.visited| && i % 2 == j % 2 ==> r.visited[i] != r.visited[j]
    ensures r.found ==> IsPath(grid, r.path, start, end)
    ensures !r.found ==> r.path == []
    ensures start != end ==> (r.found <==> Reachable(grid, start, end))
    ensures start != end && r.found ==> Distinct(r.path)
    ensures start == end ==>
              r.visited == [start, start] && (r.found <==> !Enclosed(grid, start)) &&
              (r.found ==> r.path == [start, Step(start, FirstOpen(grid, start, 0)), start])
  {
    var startQueue := [start];
    var endQueue := [end];
    var startVisited := map[start := None];
    var endVisited := map[end := None];
    var visitedOrder := [];
    var nodesExpanded := 0;
    ghost var startDepth, endDepth := map[start := 0], map[end := 0];
    ghost var fromStart: set<Pos>, fromEnd: set<Pos> := {}, {};
    Dfs.InitState(grid, start);
    Dfs.InitState(grid, end);

    while |startQueue| > 0 && |endQueue| > 0
      invariant BeforeRound(grid, start, end, startQueue, startVisited, startDepth, fromStart,
                            endQueue, endVisited, endDepth, fromEnd, visitedOrder, nodesExpanded)
      decreases |grid| * |grid[0]| - |fromStart|
    {
      var result: Option<SearchResult>;
      startQueue, startVisited, startDepth, fromStart, visitedOrder, nodesExpanded, result :=
        ExpandFromStart(grid, start, end, startQueue, startVisited, startDepth, fromStart,
                        endQueue, endVisited, endDepth, fromEnd, visitedOrder, nodesExpanded);
      if result.Some? {
        return result.value;
      }
      endQueue, endVisited, endDepth, fromEnd, visitedOrder, nodesExpanded, result :=
        ExpandFromEnd(grid, start, end, startQueue, startVisited, startDepth, fromStart,
                      endQueue, endVisited, endDepth, fromEnd, visitedOrder, nodesExpanded);
      if result.Some? {
        return result.value;
      }
    }
    if start != end {
      Exhausted(grid, start, end, startQueue, startVisited, startDepth, fromStart, endQueue, endVisited, endDepth, fromEnd);
    }
    r := SearchResult(false, nodesExpanded, [], visitedOrder);
    Report(grid, start, end, r, startVisited, startDepth, fromStart, endVisited, endDepth, fromEnd);
  }
}
