// Parent maps and the path rebuild shared by all five searches: walking parent links
// from a node back to the root of its search.

module Parents {
  import opened Grid

  datatype Option<T> = None | Some(value: T)

  /**
   * The link out of x is sound: unless x is the root or no key, x maps to an adjacent key whose
   * rank is one less than x's.
   */
  ghost predicate Linked(parent: map<Pos, Option<Pos>>, depth: map<Pos, nat>, root: Pos, x: Pos)
  {
    x in parent && x != root ==>
      parent[x].Some? && parent[x].value in parent && Adjacent(parent[x].value, x) &&
      x in depth && parent[x].value in depth && depth[x] == depth[parent[x].value] + 1
  }

  /**
   * parent is a tree rooted at root: the root maps to None, every other key is linked to an
   * adjacent key, and `depth` (a rank with the same keys) grows by exactly one along each
   * link, so following links always ends at the root. The links are only unfolded where a
   * proof names `Linked` for a particular key, which keeps the solver from walking up the
   * tree without end.
   */
  ghost predicate ParentTree(parent: map<Pos, Option<Pos>>, depth: map<Pos, nat>, root: Pos)
  {
    root in parent && parent[root] == None && depth.Keys == parent.Keys && depth[root] == 0 &&
    forall x {:trigger Linked(parent, depth, root, x)} :: Linked(parent, depth, root, x)
  }

  /** Every cell of `cells` is an open cell of the grid. */
  ghost predicate AllOpen(grid: seq<seq<int>>, cells: set<Pos>)
    requires WellFormed(grid)
  {
    forall x :: x in cells ==> IsValid(grid, x)
  }

  /** Hanging a new cell below an adjacent key keeps the tree. */
  lemma AddLeaf(parent: map<Pos, Option<Pos>>, depth: map<Pos, nat>, root: Pos, p: Pos, x: Pos)
    requires ParentTree(parent, depth, root)
    requires p in parent && x !in parent && Adjacent(p, x)
    ensures ParentTree(parent[x := Some(p)], depth[x := depth[p] + 1], root)
  {
    var parent', depth' := parent[x := Some(p)], depth[x := depth[p] + 1];
    forall y
      ensures Linked(parent', depth', root, y)
    {
      assert Linked(parent, depth, root, y);
    }
  }

  /**
   * Giving x the parent p, one level below it, keeps the tree when x is new, or when x is a
   * non-root key that no key has as its parent (a leaf), so no depth below x goes stale.
   */
  lemma SetParent(parent: map<Pos, Option<Pos>>, depth: map<Pos, nat>, root: Pos, p: Pos, x: Pos)
    requires ParentTree(parent, depth, root)
    requires p in parent && Adjacent(p, x)
    requires x in parent ==> x != root
    requires forall y {:trigger parent[y]} :: y in parent ==> parent[y] != Some(x)
    ensures ParentTree(parent[x := Some(p)], depth[x := depth[p] + 1], root)
  {
    var parent', depth' := parent[x := Some(p)], depth[x := depth[p] + 1];
    forall y
      ensures Linked(parent', depth', root, y)
    {
      assert Linked(parent, depth, root, y);
    }
  }

  /**
   * c is the chain of parent links from x back to the root: it has depth(x) + 1 cells, its
   * j-th cell lies at depth depth(x) - j, and each cell is the parent of the one before it.
   */
  ghost predicate IsChain(parent: map<Pos, Option<Pos>>, depth: map<Pos, nat>, root: Pos, x: Pos, c: seq<Pos>)
    requires x in depth
  {
    |c| == depth[x] + 1 && c[0] == x && c[|c| - 1] == root &&
    (forall j :: 0 <= j < |c| ==> c[j] in parent && c[j] in depth && depth[c[j]] == depth[x] - j) &&
    (forall j {:trigger parent[c[j]]} :: 0 <= j < |c| - 1 ==> parent[c[j]] == Some(c[j + 1]))
  }

  /** The parent links from x back to the root: [x, parent(x), ..., root]. */
  ghost function Chain(parent: map<Pos, Option<Pos>>, depth: map<Pos, nat>, root: Pos, x: Pos): seq<Pos>
    requires ParentTree(parent, depth, root) && x in parent
    decreases depth[x]
  {
    assert Linked(parent, depth, root, x);
    match parent[x]
    case None => [x]
    case Some(p) => [x] + Chain(parent, depth, root, p)
  }

  /** Chain follows the parent links all the way to the root. */
  lemma {:induction false} ChainShape(parent: map<Pos, Option<Pos>>, depth: map<Pos, nat>, root: Pos, x: Pos)
    requires ParentTree(parent, depth, root) && x in parent
    ensures IsChain(parent, depth, root, x, Chain(parent, depth, root, x))
    decreases depth[x]
  {
    assert Linked(parent, depth, root, x);
    if parent[x].Some? {
      ChainShape(parent, depth, root, parent[x].value);
    }
  }

  /** A chain is a walk from x to the root. */
  lemma ChainIsPath(grid: seq<seq<int>>, parent: map<Pos, Option<Pos>>, depth: map<Pos, nat>, root: Pos, x: Pos, c: seq<Pos>)
    requires WellFormed(grid) && ParentTree(parent, depth, root) && AllOpen(grid, parent.Keys) && x in parent
    requires IsChain(parent, depth, root, x, c)
    ensures IsPath(grid, c, x, root)
  {
    forall j | 0 <= j < |c| - 1
      ensures Adjacent(c[j], c[j + 1])
    {
      assert c[j] != root && parent[c[j]] == Some(c[j + 1]);
      assert Linked(parent, depth, root, c[j]);
    }
  }

  /**
   * The rebuilt path root -> x, a chain read backwards: a walk from the root to x with
   * exactly depth(x) moves whose i-th cell has depth i (so no cell repeats).
   */
  lemma RootPath(grid: seq<seq<int>>, parent: map<Pos, Option<Pos>>, depth: map<Pos, nat>, root: Pos, x: Pos, c: seq<Pos>)
    requires WellFormed(grid) && ParentTree(parent, depth, root) && AllOpen(grid, parent.Keys) && x in parent
    requires IsChain(parent, depth, root, x, c)
    ensures var p := Reverse(c);
      IsPath(grid, p, root, x) && |p| == depth[x] + 1 && Distinct(p) &&
      forall i :: 0 <= i < |p| ==> p[i] in parent && depth[p[i]] == i
  {
    ChainIsPath(grid, parent, depth, root, x, c);
    ReversePath(grid, c, x, root);
  }

  /** Every key of the tree is reachable from its root. */
  lemma TreeReachable(grid: seq<seq<int>>, parent: map<Pos, Option<Pos>>, depth: map<Pos, nat>, root: Pos, x: Pos)
    requires WellFormed(grid) && ParentTree(parent, depth, root) && AllOpen(grid, parent.Keys) && x in parent
    ensures Reachable(grid, root, x)
  {
    var c := Chain(parent, depth, root, x);
    ChainShape(parent, depth, root, x);
    RootPath(grid, parent, depth, root, x, c);
  }

  /**
   * The frontier argument applied to a node about to be expanded. If every ranked node that is
   * not closed has rank plus estimate at least that of x, closed nodes are settled and the
   * estimate is consistent, then x's rank is its shortest distance from the root.
   */
  lemma ExpandedIsShortest(grid: seq<seq<int>>, start: Pos, parent: map<Pos, Option<Pos>>, g: map<Pos, nat>,
                           closed: set<Pos>, h: Pos -> int, x: Pos)
    requires WellFormed(grid) && ParentTree(parent, g, start) && AllOpen(grid, parent.Keys)
    requires x in parent && x !in closed && Settled(grid, closed, g) && Consistent(h)
    requires forall y :: y in g && y !in closed ==> g[y] + h(y) >= g[x] + h(x)
    ensures ShortestDist(grid, start, x, g[x])
  {
    var c := Chain(parent, g, start, x);
    ChainShape(parent, g, start, x);
    RootPath(grid, parent, g, start, x, c);
    assert IsPath(grid, Reverse(c), start, x);
    forall w | IsPath(grid, w, start, x)
      ensures g[x] + 1 <= |w|
    {
      if |w| < g[x] + 1 {
        FrontierBound(grid, start, g, closed, h, g[x] + h(x), w);
      }
    }
  }

  /**
   * The rebuild loop `while curr is not None: path.append(curr); curr = parent[curr]`,
   * started from `from`; it yields the chain from that node back to the root.
   */
  method TraceChain(parent: map<Pos, Option<Pos>>, ghost depth: map<Pos, nat>, ghost root: Pos, from: Option<Pos>)
    returns (trace: seq<Pos>)
    requires ParentTree(parent, depth, root)
    requires from.Some? ==> from.value in parent
    ensures from.None? ==> trace == []
    ensures from.Some? ==> IsChain(parent, depth, root, from.value, trace)
  {
    trace := [];
    var curr := from;
    if curr.None? {
      return;
    }
    ghost var x0 := from.value;
    while curr.Some?
      invariant curr.Some? ==> curr.value in parent && |trace| + depth[curr.value] == depth[x0]
      invariant curr.None? ==> |trace| == depth[x0] + 1 && trace[|trace| - 1] == root
      invariant if |trace| == 0 then curr == from else trace[0] == x0
      invariant forall j :: 0 <= j < |trace| ==> trace[j] in parent && depth[trace[j]] + j == depth[x0]
      invariant forall j {:trigger parent[trace[j]]} :: 0 <= j < |trace| - 1 ==> parent[trace[j]] == Some(trace[j + 1])
      invariant curr.Some? ==> |trace| == 0 || parent[trace[|trace| - 1]] == curr
      decreases if curr.Some? then depth[curr.value] + 1 else 0
    {
      var x := curr.value;
      assert Linked(parent, depth, root, x);
      trace := trace + [x];
      curr := parent[x];
    }
  }

  /**
   * The bookkeeping of a neighbour loop (BFS, DFS and both sides of bidirectional BFS) after
   * looking at the first k directions: the cells added to the frontier so far are exactly the
   * new neighbours of `cur`, in direction order, each marked visited and given `cur` as parent,
   * and no other entry changed.
   */
  ghost predicate Pushes(grid: seq<seq<int>>, cur: Pos, k: nat, frontier: seq<Pos>, visited: set<Pos>,
                         parent: map<Pos, Option<Pos>>, frontier': seq<Pos>, visited': set<Pos>,
                         parent': map<Pos, Option<Pos>>)
    requires WellFormed(grid) && k <= 4
  {
    frontier' == frontier + NewNeighbours(grid, cur, k, visited) &&
    (forall x :: x in visited' <==> x in visited || x in NewNeighbours(grid, cur, k, visited)) &&
    (forall x :: x in parent ==> x in parent' && parent'[x] == parent[x]) &&
    (forall x :: x in parent' && x !in parent ==> parent'[x] == Some(cur))
  }

  /** Skipping direction k leaves the added cells as they are. */
  lemma SkipPushes(grid: seq<seq<int>>, cur: Pos, k: nat, frontier: seq<Pos>, visited: set<Pos>,
                   parent: map<Pos, Option<Pos>>, frontier': seq<Pos>, visited': set<Pos>,
                   parent': map<Pos, Option<Pos>>)
    requires WellFormed(grid) && k < 4
    requires Pushes(grid, cur, k, frontier, visited, parent, frontier', visited', parent')
    requires !(IsValid(grid, Step(cur, k)) && Step(cur, k) !in visited')
    ensures Pushes(grid, cur, k + 1, frontier, visited, parent, frontier', visited', parent')
  {
    NewNeighboursSpec(grid, cur, k, visited);
    assert NewNeighbours(grid, cur, k + 1, visited) == NewNeighbours(grid, cur, k, visited);
  }

  /** Adding the cell in direction k appends it to the added cells. */
  lemma AddPush(grid: seq<seq<int>>, cur: Pos, k: nat, frontier: seq<Pos>, visited: set<Pos>,
                parent: map<Pos, Option<Pos>>, frontier': seq<Pos>, visited': set<Pos>,
                parent': map<Pos, Option<Pos>>)
    requires WellFormed(grid) && k < 4
    requires Pushes(grid, cur, k, frontier, visited, parent, frontier', visited', parent')
    requires IsValid(grid, Step(cur, k)) && Step(cur, k) !in visited' && parent'.Keys == visited'
    ensures var next := Step(cur, k);
      Pushes(grid, cur, k + 1, frontier, visited, parent, frontier' + [next], visited' + {next}, parent'[next := Some(cur)])
  {
    var next := Step(cur, k);
    NewNeighboursSpec(grid, cur, k, visited);
    var news := NewNeighbours(grid, cur, k, visited);
    assert NewNeighbours(grid, cur, k + 1, visited) == news + [next];
    assert frontier' + [next] == frontier + (news + [next]);
  }
}
