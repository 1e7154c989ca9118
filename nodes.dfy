/** Search nodes, their ordering in the open list, and the pool the search allocates
    them in. A node's `parent` is the index of the node it was expanded from, so the
    parent links of a pool form chains back to the seed at index 0. */
module Nodes {
  import opened Grid

  datatype Option<T> = None | Some(value: T)

  datatype Node = Node(x: int, y: int, g: int, h: int, f: int, parent: Option<nat>)

  /** The node constructor: the total estimate is the cost so far plus the heuristic. */
  function NewNode(x: int, y: int, g: int, h: int, parent: Option<nat> := None): (n: Node)
    ensures n.x == x && n.y == y && n.g == g && n.h == h && n.parent == parent
    ensures n.f == g + h
  {
    Node(x, y, g, h, g + h, parent)
  }

  function CellOf(n: Node): (c: Coord)
  {
    Coord(n.x, n.y)
  }

  /** The priority-queue comparator: `a` ranks below `b` when its `f` is larger, so the
      queue's top is a node of least `f`. */
  predicate CompareNode(a: Node, b: Node): (below: bool)
    ensures below ==> a != b
    ensures below <==> b.f < a.f
  {
    a.f > b.f
  }

  /** The comparator is a strict weak ordering, as the priority queue demands, and a
      node that ranks below no other node has the least `f` among them. */
  lemma CompareNodeIsStrictWeakOrder(a: Node, b: Node, c: Node)
    ensures !CompareNode(a, a)
    ensures CompareNode(a, b) ==> !CompareNode(b, a)
    ensures CompareNode(a, b) && CompareNode(b, c) ==> CompareNode(a, c)
    ensures !CompareNode(a, b) && !CompareNode(b, a) && !CompareNode(b, c) && !CompareNode(c, b)
            ==> !CompareNode(a, c) && !CompareNode(c, a)
    ensures !CompareNode(a, b) <==> a.f <= b.f
  {
  }

  /** The seed the search starts from: the start cell with g = 0 and h = 0. */
  function Seed(start: Node): (s: Node)
    ensures CellOf(s) == CellOf(start)
    ensures s.g == 0 && s.h == 0 && s.f == 0 && s.parent == None
  {
    NewNode(start.x, start.y, 0, 0)
  }

  /** Node `i` (not the seed) was pushed as a neighbour of its parent: one step further,
      one unit dearer, on a passable cell, with the Manhattan heuristic to the goal. */
  ghost predicate ValidChild(grid: seq<seq<int>>, goal: Coord, pool: seq<Node>, i: nat)
    requires WellFormed(grid) && 0 < i < |pool|
  {
    var n := pool[i];
    n.parent.Some? && n.parent.value < i &&
    var p := pool[n.parent.value];
    n.g == p.g + 1 && Adjacent(CellOf(p), CellOf(n)) && IsPassable(grid, CellOf(n)) &&
    n.h == Manhattan(CellOf(n), goal) && n.f == n.g + n.h
  }

  /** Every node the search allocated: the seed at index 0, then valid children. */
  ghost predicate ValidPool(grid: seq<seq<int>>, start: Node, goal: Coord, pool: seq<Node>)
    requires WellFormed(grid)
  {
    |pool| >= 1 && pool[0] == Seed(start) &&
    forall i :: 0 < i < |pool| ==> ValidChild(grid, goal, pool, i)
  }

  /** Parent links point to earlier nodes, so following them terminates. */
  ghost predicate ParentsBefore(pool: seq<Node>)
  {
    forall i :: 0 <= i < |pool| && pool[i].parent.Some? ==> pool[i].parent.value < i
  }

  lemma ValidPoolParentsBefore(grid: seq<seq<int>>, start: Node, goal: Coord, pool: seq<Node>)
    requires WellFormed(grid) && ValidPool(grid, start, goal, pool)
    ensures ParentsBefore(pool)
  {
    forall i | 0 <= i < |pool| && pool[i].parent.Some?
      ensures pool[i].parent.value < i
    {
      if i > 0 {
        assert ValidChild(grid, goal, pool, i);
      }
    }
  }

  /** The nodes met from the root to node `i` by following parent links, root first. */
  ghost function Chain(pool: seq<Node>, i: nat): (c: seq<Node>)
    requires ParentsBefore(pool) && i < |pool|
    decreases i
  {
    match pool[i].parent
    case None => [pool[i]]
    case Some(p) => Chain(pool, p) + [pool[i]]
  }

  /** What a returned path promises: it runs from the start cell to the goal cell,
      node k cost k steps, every node has f = g + h, and every step after the first
      is one 8-directional move onto a passable cell whose h is its Manhattan
      distance to the goal. */
  ghost predicate IsSearchPath(grid: seq<seq<int>>, start: Coord, goal: Coord, path: seq<Node>)
    requires WellFormed(grid)
  {
    |path| >= 1 && CellOf(path[0]) == start && CellOf(path[|path| - 1]) == goal &&
    (forall k :: 0 <= k < |path| ==> path[k].g == k && path[k].f == path[k].g + path[k].h) &&
    (forall k :: 1 <= k < |path| ==>
       Adjacent(CellOf(path[k - 1]), CellOf(path[k])) && IsPassable(grid, CellOf(path[k])) &&
       path[k].h == Manhattan(CellOf(path[k]), goal))
  }

  /** The parent chain of any pool node starts at the seed, ends at the node, has the
      node's g + 1 entries, and numbers its nodes' costs 0, 1, 2, ... */
  lemma {:induction false} ChainShape(grid: seq<seq<int>>, start: Node, goal: Coord, pool: seq<Node>, i: nat)
    requires WellFormed(grid) && ValidPool(grid, start, goal, pool) && i < |pool|
    ensures ParentsBefore(pool)
    ensures var c := Chain(pool, i);
      |c| == pool[i].g + 1 && c[0] == pool[0] && c[|c| - 1] == pool[i] &&
      (forall k :: 0 <= k < |c| ==> c[k].g == k && c[k].f == c[k].g + c[k].h) &&
      (forall k :: 1 <= k < |c| ==>
         Adjacent(CellOf(c[k - 1]), CellOf(c[k])) && IsPassable(grid, CellOf(c[k])) &&
         c[k].h == Manhattan(CellOf(c[k]), goal))
    decreases i
  {
    ValidPoolParentsBefore(grid, start, goal, pool);
    if i > 0 {
      assert ValidChild(grid, goal, pool, i);
      var p := pool[i].parent.value;
      ChainShape(grid, start, goal, pool, p);
      var pc := Chain(pool, p);
      var c := Chain(pool, i);
      assert c == pc + [pool[i]];
      forall k | 0 <= k < |pc|
        ensures c[k] == pc[k]
      {
      }
    }
  }

  /** A node on the goal cell yields a path with all the promised properties. */
  lemma ChainToGoalIsSearchPath(grid: seq<seq<int>>, start: Node, goal: Coord, pool: seq<Node>, i: nat)
    requires WellFormed(grid) && ValidPool(grid, start, goal, pool) && i < |pool|
    requires CellOf(pool[i]) == goal
    ensures ParentsBefore(pool)
    ensures IsSearchPath(grid, CellOf(start), goal, Chain(pool, i))
  {
    ChainShape(grid, start, goal, pool, i);
  }

  /** A search path is a walk in the sense of Grid.IsWalk, so its goal is reachable. */
  lemma SearchPathReaches(grid: seq<seq<int>>, start: Coord, goal: Coord, path: seq<Node>)
    requires WellFormed(grid) && IsSearchPath(grid, start, goal, path)
    ensures Reachable(grid, start, goal)
  {
    var w := seq(|path|, k requires 0 <= k < |path| => CellOf(path[k]));
    assert IsWalk(grid, w, start, goal);
  }

  function Reverse<T>(s: seq<T>): (r: seq<T>)
  {
    seq(|s|, k requires 0 <= k < |s| => s[|s| - 1 - k])
  }

  lemma ReverseSnoc<T>(s: seq<T>, x: T)
    ensures Reverse(s + [x]) == [x] + Reverse(s)
  {
  }

  /** One step of the parent walk: the chain to a node is the chain to its parent
      (nothing for the root) followed by the node. */
  lemma ChainStep(pool: seq<Node>, i: nat, rest: seq<Node>)
    requires ParentsBefore(pool) && i < |pool|
    ensures Chain(pool, i) + rest ==
      (match pool[i].parent case None => [] case Some(p) => Chain(pool, p)) + ([pool[i]] + rest)
  {
  }

  /** Path reconstruction: collect the nodes from `last` back to the root by their
      parent links, then reverse, giving the chain root first. */
  method TracePath(pool: seq<Node>, last: nat) returns (path: seq<Node>)
    requires ParentsBefore(pool) && last < |pool|
    ensures path == Chain(pool, last)
  {
    path := [];
    var current: Option<nat> := Some(last);
    while current.Some?
      invariant current.Some? ==> current.value < |pool|
      invariant Chain(pool, last) ==
        (if current.Some? then Chain(pool, current.value) else []) + Reverse(path)
      decreases if current.Some? then current.value + 1 else 0
    {
      var n := pool[current.value];
      ReverseSnoc(path, n);
      ChainStep(pool, current.value, Reverse(path));
      path := path + [n];
      current := n.parent;
    }
    path := Reverse(path);
  }
}
