# Grid search engine — a verified model

This project models the path-finding engine of a grid visualiser. The engine has five searches over a 0/1 occupancy grid: breadth-first search, depth-first search, Dijkstra's algorithm, A* with the Manhattan estimate, and bidirectional breadth-first search. Each takes a grid, a start cell and an end cell. Each returns a record with these fields:

- `found`;
- `nodes_expanded`, the number of cells expanded;
- `path`, the cells from start to end;
- `visited`, the cells in the order they were expanded.

The five share:

- the bounds-and-wall gate `is_valid`;
- the fixed neighbour order: right, down, left, up;
- a parent map that is walked back from the goal and reversed to give the path;
- an expansion counter kept next to the `visited` trace.

They differ in the frontier:

- breadth-first search uses a FIFO queue;
- depth-first search uses a LIFO stack, marking cells when they are pushed;
- Dijkstra uses a min-heap of `(dist, cell)` entries with lazy deletion of stale entries;
- A* uses a min-heap of `(f, g, cell)` entries, where `f = g + estimate`;
- bidirectional search uses two FIFO queues and two parent maps, and stops when a cell newly marked on one side is already marked on the other.

Each search is an imperative Dafny method. Its loops carry their invariants: the queue, stack, heap and maps are local `seq`, `set` and `map` variables updated in place, as in the source. The Python integers are unbounded, and so are Dafny's. Positions are `Pos(row, col)`. Python's `None` parent is `Option.None`.

The modules are:

- `Grid`: cells, `is_valid`, directions, walks and reachability, the shared frontier argument.
- `Parents`: parent trees and the path rebuild loop.
- `PriorityQueue`: heap order and extract-min.
- `Relax`: the distance table shared by Dijkstra and A*.
- `Bfs`, `Dfs`, `Dijkstra`, `AStar`, `BiBfs`: the five searches.
- `BiBfsState`: the invariants of the bidirectional search.

`is_valid` (`Grid.IsValid`) tests the bounds before it reads the cell. Its precondition (a well-formed grid) plus Dafny's index checks show that no read leaves the grid. The caller's checks in `backend/main.py:70-98` become the `requires` of every search (`Grid.ValidRequest`):

- the grid is non-empty and rectangular;
- both endpoints are in bounds;
- neither endpoint is a wall.

What is proved, per search:

- **BFS, Dijkstra, A\***: the result is found exactly when end is reachable. A found path is a walk over open cells from start to end with no repeated cell, and it is a shortest one. Otherwise the path is empty. Cells are expanded once each, all of them open, and the counter equals the length of the trace (at most rows × cols). Each cell is expanded at its shortest distance from start, and the expansion order is non-decreasing in that distance (in distance plus estimate for A*). When nothing is found, the trace holds exactly the cells reachable from start. With `start == end`, the path is `[start]` after one expansion.
- **DFS**: the same, without shortest paths.
- **Bidirectional BFS**: the trace alternates sides. Even positions are start-side expansions and odd positions end-side ones, and no side expands a cell twice. Every expanded cell is reachable from the root of its side. A found path is a walk from start to end.
  - With `start != end`: the path repeats no cell, and the result is found exactly when end is reachable.
  - With `start == end`, the code as written does not return the one-cell path. Each side expands start once. The path is `[start, n, start]`, where `n` is the first open neighbour of start in the order right, down, left, up. When start has no open neighbour, nothing is found. The model states exactly that, with the trace `[start, start]`.

## Model

| member | source | states |
|---|---|---|
| Grid.StepsDiffer | backend/algorithms/bfs.py:35 | the four moves lead from a cell to four different cells |
| Grid.StepAdjacent | backend/algorithms/bfs.py:35 | a cell is one unit move away exactly when it is reached by one of the four directions |
| Grid.DirectionOf | backend/algorithms/bfs.py:67-68 | every unit move is the move of some direction k < 4 |
| Grid.Reverse | backend/algorithms/bfs.py:62 | `path[::-1]` / `path.reverse()`: same length, element i is element len-1-i of the input |
| Grid.ReversePath | backend/algorithms/bi_bfs.py:58-61 | a walk read backwards is a walk the other way, so reachability is symmetric |
| Grid.AppendLevel | backend/algorithms/bfs.py:45-48 | expanding a cell at its shortest distance, no smaller than the current level, keeps the trace's distances shortest and non-decreasing |
| Grid.ExpandCell | backend/algorithms/bfs.py:46-48 | expanding a new open cell appends it to the trace, keeps the trace duplicate-free and the counter equal to its length, and bounds the counter by rows × cols |
| Grid.CellsBound | backend/algorithms/bfs.py:67-72 | a set of open cells has at most rows × cols elements, which bounds the number of expansions |
| Grid.SettleNode | backend/algorithms/dijkstra.py:74-82 | a cell whose four open neighbours are ranked at most one above it can join the settled cells |
| Grid.NewNeighboursSpec | backend/algorithms/bfs.py:67-72 | the neighbour loop adds exactly the open, unmarked neighbours, each adjacent, in direction order, without repeats |
| Grid.CloseNode | backend/algorithms/dfs.py:65-70 | after the neighbour loop every open neighbour of the expanded cell is marked |
| Grid.WalkStaysInside | backend/algorithms/bfs.py:74-82 | a walk starting in a set closed under moves never leaves it |
| Grid.ClosedUnderMoves | backend/algorithms/bfs.py:74-82 | a set closed under moves that holds start holds every cell reachable from start |
| Grid.FrontierBound | backend/algorithms/dijkstra.py:46-54 | with settled closed cells and every open ranked cell at least the bound, any walk from start shorter than the bound ends at a closed cell ranked no higher than its length |
| Grid.ClosedContainsReachable | backend/algorithms/dijkstra.py:84-92 | when every ranked cell is closed, every cell reachable from start is closed |
| Grid.ShortestReachable | backend/algorithms/bfs.py:74-82 | a trace whose cells were each expanded at their shortest distance from start holds only cells reachable from start |
| Parents.AddLeaf | backend/algorithms/bfs.py:70-72 | giving a new cell an adjacent marked cell as parent, one level deeper, keeps the parent tree rooted at start |
| Parents.SetParent | backend/algorithms/dijkstra.py:79-82 | re-parenting a leaf below an adjacent cell keeps the parent tree |
| Parents.ChainShape | backend/algorithms/bfs.py:53-57 | following parents from x reaches the root after exactly depth(x) links |
| Parents.ChainIsPath | backend/algorithms/bi_bfs.py:58-61 | the chain of parents from x is a walk from x to the root |
| Parents.RootPath | backend/algorithms/bfs.py:53-62 | the reversed chain is a walk from the root to x with depth(x) moves whose i-th cell has depth i, so no cell repeats |
| Parents.TreeReachable | backend/algorithms/bfs.py:69-72 | every cell of the parent tree is reachable from its root |
| Parents.ExpandedIsShortest | backend/algorithms/dijkstra.py:46-54 | a cell popped with the smallest rank (plus consistent estimate) has its shortest distance from start as rank |
| Parents.TraceChain | backend/algorithms/bfs.py:53-57 | the rebuild loop `while curr is not None` returns the chain of parents back to the root, or nothing from `None` |
| Parents.AddPush | backend/algorithms/bfs.py:69-72 | adding the open unmarked cell of direction k appends it to the frontier, marks it and gives it the expanded cell as parent, changing nothing else |
| PriorityQueue.LexLeqRefl | backend/algorithms/dijkstra.py:37-38 | the tuple order is reflexive |
| PriorityQueue.LexLeqTotal | backend/algorithms/dijkstra.py:37-38 | any two tuples are comparable |
| PriorityQueue.LexLeqTrans | backend/algorithms/dijkstra.py:37-38 | the tuple order is transitive |
| PriorityQueue.LexLeqAntisym | backend/algorithms/dijkstra.py:37-38 | two tuples below each other are equal |
| PriorityQueue.PopMin | backend/algorithms/dijkstra.py:47 | `heappop`: the returned entry is minimal under the tuple order and the rest is the heap minus that entry, as a multiset |
| Relax.RankedClose | backend/algorithms/dijkstra.py:52 | closing a cell keeps the distance/parent tree invariant |
| Relax.RankBelow | backend/algorithms/dijkstra.py:79-82 | recording distance d + 1 and parent cur for an open neighbour that is not closed and is unranked or ranked higher keeps the tree |
| Relax.ImprovedSpec | backend/algorithms/dijkstra.py:76-79 | among the first k directions, a neighbour is improved exactly when it is open, not closed, and unranked or ranked above the offer |
| Relax.LoweredAhead | backend/algorithms/dijkstra.py:74-82 | relaxing earlier directions does not change whether a later direction's cell is improved |
| Relax.LoweredSpec | backend/algorithms/dijkstra.py:79-82 | after the loop exactly the improved cells have the new distance and parent cur; all other keys, distances and parents are unchanged |
| Bfs.InitFrontier | backend/algorithms/bfs.py:37-42 | the initial queue, visited set and parent map satisfy the frontier invariant with nothing expanded |
| Bfs.PopKeepsLayers | backend/algorithms/bfs.py:46 | dequeuing the head expands it and keeps the queue layered by depth |
| Bfs.PushKeepsLayers | backend/algorithms/bfs.py:70-72 | enqueuing an unmarked cell one level below keeps the layers |
| Bfs.PushKeepsFrontier | backend/algorithms/bfs.py:69-72 | enqueuing an open unmarked neighbour of the head, with the head as parent, keeps the frontier invariant |
| Bfs.HeadIsNearest | backend/algorithms/bfs.py:46 | the queue head is at least as shallow as every marked cell not yet expanded |
| Bfs.ExpandHead | backend/algorithms/bfs.py:46-48 | the dequeued head is expanded at its depth, which is its shortest distance from start and no smaller than any earlier expansion |
| Bfs.ExhaustedCoversReachable | backend/algorithms/bfs.py:74-82 | once the queue is empty every cell reachable from start has been expanded |
| Bfs.ExhaustedTrace | backend/algorithms/bfs.py:74-82 | when the queue runs empty, a cell is in the trace exactly when it is reachable from start |
| Bfs.EnqueueNeighbour | backend/algorithms/bfs.py:69-72 | one enqueue step keeps the neighbour-loop invariant |
| Bfs.ExpandNeighbours | backend/algorithms/bfs.py:67-72 | the neighbour loop keeps the frontier, settles the head, and adds exactly its open unmarked neighbours in direction order |
| Bfs.Bfs | backend/algorithms/bfs.py:37-82 | found iff reachable; a found path is a duplicate-free shortest walk start→end; otherwise the path is empty and the trace holds exactly the cells reachable from start; the trace is duplicate-free, open, in non-decreasing shortest distance, and its length is the counter, at most rows × cols; start == end gives `[start]` after one expansion |
| Dfs.PopKeepsMarked | backend/algorithms/dfs.py:43 | popping the top of the stack (its last element) expands it and keeps the marking discipline |
| Dfs.PushKeepsMarked | backend/algorithms/dfs.py:68-69 | pushing an unmarked cell marks it and keeps the discipline |
| Dfs.PushKeepsVisiting | backend/algorithms/dfs.py:67-70 | pushing an open unmarked neighbour with parent cur keeps the parent tree and the discipline |
| Dfs.PushStep | backend/algorithms/dfs.py:67-70 | one push step keeps the neighbour-loop invariant |
| Dfs.SkipStep | backend/algorithms/dfs.py:67 | a wall, out-of-bounds or already marked neighbour changes nothing |
| Dfs.PushNeighbours | backend/algorithms/dfs.py:65-70 | the neighbour loop pushes exactly the open unmarked neighbours in direction order and restores the search state |
| Dfs.ExhaustedIsReachable | backend/algorithms/dfs.py:72-80 | with an empty stack, a cell is expanded exactly when it is reachable from start |
| Dfs.InitState | backend/algorithms/dfs.py:31-37 | the initial stack, visited set and parent map satisfy the search state |
| Dfs.Dfs | backend/algorithms/dfs.py:31-80 | found iff reachable; a found path is a duplicate-free walk start→end; otherwise the path is empty and the trace is exactly the reachable cells; the trace is duplicate-free and open, its length is the counter; start == end gives `[start]` |
| Dijkstra.KeyOrder | backend/algorithms/dijkstra.py:37-38 | a smaller `(dist, (row, col))` entry has no larger distance, and equal keys are equal entries |
| Dijkstra.PopStale | backend/algorithms/dijkstra.py:47-51 | a popped entry of a closed cell is dropped and the heap invariant holds for the rest |
| Dijkstra.PopFresh | backend/algorithms/dijkstra.py:47-54 | a popped entry of an open cell carries its recorded distance, the smallest of any unclosed ranked cell |
| Dijkstra.ExpandEntry | backend/algorithms/dijkstra.py:47-54 | the cell of a fresh entry is closed at its recorded distance, which is its shortest distance and no smaller than earlier expansions |
| Dijkstra.PushEntry | backend/algorithms/dijkstra.py:80-81 | pushing `(nd, cell)` while lowering the cell's distance to nd keeps the heap invariant |
| Dijkstra.DoRelax | backend/algorithms/dijkstra.py:79-82 | one improvement sets distance d + 1 and parent cur and pushes the entry, keeping the loop invariant |
| Dijkstra.RelaxNeighbours | backend/algorithms/dijkstra.py:74-82 | the relaxation loop lowers exactly the improved neighbours to d + 1 with parent cur, and leaves every other distance and parent as it was; the heap becomes the old heap followed by one entry `(d + 1, cell)` per improved neighbour in direction order (`Pushed`); the heap, tree and settled invariants are kept |
| Dijkstra.PushedSpec | backend/algorithms/dijkstra.py:79-81 | the entries pushed by the loop come after the old heap, one per improved neighbour, each `(nd, cell)` for an improved cell, and every improved cell has its entry |
| Dijkstra.ExhaustedCoversReachable | backend/algorithms/dijkstra.py:84-92 | once the heap is empty every cell reachable from start is closed |
| Dijkstra.ExhaustedTrace | backend/algorithms/dijkstra.py:84-92 | when the heap runs empty, a cell is in the trace exactly when it is reachable from start |
| Dijkstra.InitState | backend/algorithms/dijkstra.py:37-41 | the initial heap, distances and parent map satisfy the invariants |
| Dijkstra.Dijkstra | backend/algorithms/dijkstra.py:32-92 | found iff reachable; a found path is a duplicate-free shortest walk; otherwise the path is empty and the trace holds exactly the cells reachable from start; each cell is expanded once, at its shortest distance, in non-decreasing order; the counter is the trace length; start == end gives `[start]` |
| AStar.HeuristicStep | backend/algorithms/a_star.py:32-34 | one move changes the Manhattan estimate by at most one |
| AStar.HeuristicConsistent | backend/algorithms/a_star.py:32-34 | the estimate is consistent and is zero exactly at end |
| AStar.WalkEstimate | backend/algorithms/a_star.py:32-34 | the estimate at the first cell of any walk to end is at most the walk's number of moves |
| AStar.HeuristicAdmissible | backend/algorithms/a_star.py:33 | the estimate never exceeds the shortest distance to end |
| AStar.KeyOrder | backend/algorithms/a_star.py:41-44 | a smaller `(f, g, (row, col))` entry has no larger f |
| AStar.AppendCost | backend/algorithms/a_star.py:59-61 | expanding a cell at its shortest distance, with f at least the level, keeps the trace's costs shortest and f non-decreasing |
| AStar.PopStale | backend/algorithms/a_star.py:53-57 | a popped entry of a closed cell is skipped and the heap invariant holds for the rest |
| AStar.PopFresh | backend/algorithms/a_star.py:53-61 | a popped entry of an open cell carries its recorded g, with `f = g + estimate` smallest among unclosed ranked cells |
| AStar.ExpandNode | backend/algorithms/a_star.py:53-61 | the cell of a fresh entry is closed at its recorded g, which is its shortest distance, with f no smaller than earlier expansions |
| AStar.PushNode | backend/algorithms/a_star.py:93-97 | pushing `(nd + estimate, nd, cell)` while lowering the cell's g to nd keeps the heap invariant, in which every entry has `f = g + estimate` |
| AStar.PushedSpec | backend/algorithms/a_star.py:81-97 | the entries pushed by the loop come after the old heap, exactly one per improved neighbour (as many new entries as improved cells), each `(nd + estimate, nd, cell)` for an improved cell, and every improved cell has its entry among the new ones |
| AStar.SkipRelax | backend/algorithms/a_star.py:85-87 | a wall, closed or not improved neighbour changes nothing and keeps the loop invariant |
| AStar.DoRelax | backend/algorithms/a_star.py:93-97 | one improvement sets g = d + 1 and parent cur and pushes its entry, keeping the loop invariant |
| AStar.RelaxStep | backend/algorithms/a_star.py:81-97 | direction k keeps the loop invariants, with the cell lowered, relinked and pushed exactly when improved |
| AStar.RelaxDirection | backend/algorithms/a_star.py:81-97 | one pass of the neighbour loop: the table, parent map and heap become those after k + 1 directions |
| AStar.RelaxNeighbours | backend/algorithms/a_star.py:80-97 | g and parent change only for improved neighbours (tentative g strictly smaller, missing counts as infinite), each pushed once; invariants kept |
| AStar.ExhaustedCoversReachable | backend/algorithms/a_star.py:99-107 | once the heap is empty every cell reachable from start is closed |
| AStar.ExhaustedTrace | backend/algorithms/a_star.py:99-107 | when the heap runs empty, a cell is in the trace exactly when it is reachable from start |
| AStar.InitState | backend/algorithms/a_star.py:43-47 | the initial heap, g table and parent map satisfy the invariants |
| AStar.Search | backend/algorithms/a_star.py:36-107 | with any consistent estimate: found iff reachable; a found path is a duplicate-free shortest walk; otherwise the path is empty and the trace holds exactly the cells reachable from start; each cell is expanded once at its shortest distance with f non-decreasing; start == end gives `[start]` |
| AStar.AStar | backend/algorithms/a_star.py:32-107 | the same with the Manhattan estimate, including the failure trace being exactly the reachable cells |
| BiBfs.PopFront | backend/algorithms/bi_bfs.py:66 | dequeuing a side's head expands it and keeps that side's marking discipline |
| BiBfs.ExpandFront | backend/algorithms/bi_bfs.py:66-68 | the dequeued head is a new open expansion of its side, and the count stays within rows × cols |
| BiBfs.LookAt | backend/algorithms/bi_bfs.py:70-76 | one direction: an open cell unmarked on this side is enqueued with parent cur; a hit means it is already marked on the other side and is the only new cell so marked |
| BiBfs.ExpandSide | backend/algorithms/bi_bfs.py:70-84 | the side's neighbour loop stops at the first newly marked cell the other side has marked; without one, every open neighbour ends up marked |
| BiBfs.JoinPaths | backend/algorithms/bi_bfs.py:57-61 | a walk to y followed by a walk from a neighbour of y is one walk |
| BiBfs.JoinDistinct | backend/algorithms/bi_bfs.py:48-62 | joining two duplicate-free halves with no common cell gives a duplicate-free path |
| BiBfs.OnlyMeeting | backend/algorithms/bi_bfs.py:76 | while the sides were disjoint, the meeting cell is the only cell marked on both |
| BiBfs.ReconstructPath | backend/algorithms/bi_bfs.py:48-62 | `reconstruct_path(m)`: a walk start→end through m with one cell per link on each side, without repeats when m is the only cell marked on both sides |
| BiBfs.RecordStart | backend/algorithms/bi_bfs.py:66-68 | the start side's expansion takes an even position of the trace |
| BiBfs.RecordEnd | backend/algorithms/bi_bfs.py:87-89 | the end side's expansion takes an odd position of the trace |
| BiBfs.TraceReachable | backend/algorithms/bi_bfs.py:68 | every expanded cell is open and reachable from the root of the side that expanded it |
| BiBfs.Exhausted | backend/algorithms/bi_bfs.py:64 | with start != end and disjoint sides, an empty queue on either side means end is unreachable |
| BiBfs.LoneStart | backend/algorithms/bi_bfs.py:91-97 | with start == end, a first round with no meeting means start has no open neighbour and the start queue is empty |
| BiBfsState.FirstOpen | backend/algorithms/bi_bfs.py:91-97 | the first direction from k on, in the order right, down, left, up, whose cell is open, or 4 when none is: every direction before it is closed and the one returned is open |
| BiBfs.MeetNextToStart | backend/algorithms/bi_bfs.py:97-103 | with start == end, a meeting cell whose parent is start on both sides is one link from start on each side |
| BiBfs.FirstMeeting | backend/algorithms/bi_bfs.py:91-97 | with start == end, the end side meets at direction k - 1 only when no earlier direction of start is open: k - 1 is the first open direction |
| BiBfs.ReturnTrip | backend/algorithms/bi_bfs.py:48-62 | with start == end, the path rebuilt through that meeting is start, its first open neighbour in direction order, start |
| BiBfs.Report | backend/algorithms/bi_bfs.py:77-115 | the facts at any return make the record satisfy every property of the search |
| BiBfs.StartHalfDone | backend/algorithms/bi_bfs.py:66-84 | a start-side half without a meeting leads to the mid-round state |
| BiBfs.EndHalfDone | backend/algorithms/bi_bfs.py:87-105 | an end-side half without a meeting leads back to the top-of-round state |
| BiBfs.StartMeets | backend/algorithms/bi_bfs.py:76-84 | a start-side meeting returns a record with all the properties of the search |
| BiBfs.EndMeets | backend/algorithms/bi_bfs.py:97-105 | with start != end, an end-side meeting returns a record with all the properties of the search |
| BiBfs.EndReturns | backend/algorithms/bi_bfs.py:87-105 | with start == end, the end side's first-round meeting returns the trace `[start, start]` and the path start, first open neighbour, start |
| BiBfs.ExpandFromStart | backend/algorithms/bi_bfs.py:65-84 | the start-side half either returns a correct record or reaches the mid-round state with one more start expansion |
| BiBfs.ExpandFromEnd | backend/algorithms/bi_bfs.py:86-105 | the end-side half either returns a correct record or restores the top-of-round state |
| BiBfs.BiBfs | backend/algorithms/bi_bfs.py:32-115 | the counter is the trace length, at most 2 × rows × cols; the trace alternates sides, with no side expanding twice and every cell reachable from its side's root; a found path is a walk start→end; otherwise the path is empty; with start != end, found iff reachable and the path repeats no cell; with start == end, the trace is `[start, start]`, found iff start has an open neighbour, and the path is start, its first open neighbour in direction order, start |

## Left out

- `time_taken` and `time.time()`: wall-clock floating point; the field is dropped from the result record.
- The HTTP layer of `backend/main.py` (request model, CORS, error mapping) and the frontend: only the checks of `backend/main.py:70-98` are kept, as `Grid.ValidRequest`.
- Grid.ValidRequest: also requires every cell to be 0 or 1, the encoding the docstrings document (`backend/algorithms/bfs.py:16`). `backend/main.py` only rejects endpoints equal to 1, so a grid whose start holds another value (which `is_valid` treats as a wall) is outside the model.
- The binary-heap array layout of `heapq`: the heap is a sequence, `heappush` appends, and `heappop` (`PriorityQueue.PopMin`) removes an entry that is minimal under the tuple order. Entries carry their cell, so equal keys mean equal entries and the minimum is the one `heappop` returns.
- `float('inf')` in `g_score.get(neighbor, float('inf'))`: modelled as the key being absent.
- BiBfs.BiBfs: no shortest-path claim. Alternating single expansions with a meeting test at enqueue time does not guarantee one, whatever the docstring says (`backend/algorithms/bi_bfs.py:25`).
- BiBfs.BiBfs: with start == end the code returns `[start, n, start]` for the first open neighbour `n` in direction order, or nothing when start is enclosed, not `[start]`; the model states this behaviour as written, with the trace `[start, start]` in both cases.
- The order of `visited` beyond what is proved: the exact sequence of expansions follows from the modelled loops, but no property names it cell by cell.
- `backend/algorithms/__init__.py`: re-exports only.
