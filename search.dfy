/** The A* search: the closed-list membership test, the extract-min step of the open
    list, the expansion of a node's eight neighbours, and the search loop itself.
    Nodes are kept in a pool (see module Nodes); the open list is the set of pool
    indices still queued and the closed list the sequence of pool indices expanded. */
module Search {
  import opened Grid
  import opened Nodes

  ghost predicate IndicesIn(list: seq<nat>, bound: nat)
  {
    forall k :: 0 <= k < |list| ==> list[k] < bound
  }

  ghost predicate QueuedIn(open: set<nat>, bound: nat)
  {
    forall i :: i in open ==> i < bound
  }

  /** The cells of the nodes a list of pool indices names. */
  ghost function CellsOf(pool: seq<Node>, list: seq<nat>): (cells: set<Coord>)
    requires IndicesIn(list, |pool|)
  {
    set k | 0 <= k < |list| :: CellOf(pool[list[k]])
  }

  ghost function OpenCells(pool: seq<Node>, open: set<nat>): (cells: set<Coord>)
    requires QueuedIn(open, |pool|)
  {
    set i | i in open :: CellOf(pool[i])
  }

  /** Linear membership test on the closed list: true exactly when some listed node
      stands on (x, y). */
  method IsNodeInList(x: int, y: int, pool: seq<Node>, list: seq<nat>) returns (found: bool)
    requires IndicesIn(list, |pool|)
    ensures found <==> exists k :: 0 <= k < |list| && pool[list[k]].x == x && pool[list[k]].y == y
    ensures found <==> Coord(x, y) in CellsOf(pool, list)
  {
    for k := 0 to |list|
      invariant forall j :: 0 <= j < k ==> !(pool[list[j]].x == x && pool[list[j]].y == y)
    {
      var node := pool[list[k]];
      if node.x == x && node.y == y {
        assert CellOf(pool[list[k]]) in CellsOf(pool, list);
        return true;
      }
    }
    return false;
  }

  /** A non-empty open list has a node of least f. */
  lemma {:induction false} MinimumExists(pool: seq<Node>, open: set<nat>)
    requires QueuedIn(open, |pool|) && open != {}
    ensures exists m :: m in open && forall i :: i in open ==> pool[m].f <= pool[i].f
    decreases open
  {
    var x :| x in open;
    if open != {x} {
      var others := open - {x};
      MinimumExists(pool, others);
      var m :| m in others && forall i :: i in others ==> pool[m].f <= pool[i].f;
      if pool[x].f < pool[m].f {
        assert forall i :: i in open ==> pool[x].f <= pool[i].f;
      } else {
        assert forall i :: i in open ==> pool[m].f <= pool[i].f;
      }
    } else {
      assert forall i :: i in open ==> pool[x].f <= pool[i].f;
    }
  }

  /** top() then pop(): takes out some node that ranks below no other queued node
      under CompareNode, i.e. one of least f. Which one among equal f is left open. */
  method PopMin(pool: seq<Node>, open: set<nat>) returns (current: nat, rest: set<nat>)
    requires QueuedIn(open, |pool|) && open != {}
    ensures current in open && rest == open - {current}
    ensures forall i :: i in rest ==> !CompareNode(pool[current], pool[i])
    ensures forall i :: i in open ==> pool[current].f <= pool[i].f
  {
    MinimumExists(pool, open);
    current :| current in open && forall i :: i in open ==> pool[current].f <= pool[i].f;
    rest := open - {current};
  }

  /** The k-th (dx, dy) pair of the nested loops, dx outer and dy inner, each from -1 to 1. */
  function Offset(k: nat): (d: (int, int))
  {
    var dx := if k < 3 then -1 else if k < 6 then 0 else 1;
    (dx, k - 3 * (dx + 1) - 1)
  }

  lemma OffsetOfLoopCounters(dx: int, dy: int)
    requires -1 <= dx <= 1 && -1 <= dy <= 1
    ensures (dx + 1) * 3 + dy + 1 >= 0
    ensures Offset((dx + 1) * 3 + dy + 1) == (dx, dy)
  {
  }

  /** The node pushed for offset (dx, dy) of node `current`, if that neighbour survives
      the checks: not the node itself, inside the map, not a wall, not already closed. */
  ghost function Candidate(grid: seq<seq<int>>, goal: Coord, pool: seq<Node>, closed: seq<nat>, current: nat, dx: int, dy: int): (c: Option<Node>)
    requires WellFormed(grid) && current < |pool| && IndicesIn(closed, |pool|)
  {
    var cur := pool[current];
    var newX, newY := cur.x + dx, cur.y + dy;
    if dx == 0 && dy == 0 then None
    else if !IsValidCoordinate(newX, newY) then None
    else if grid[newY][newX] == Wall || Coord(newX, newY) in CellsOf(pool, closed) then None
    else Some(NewNode(newX, newY, cur.g + 1, Abs(newX - goal.x) + Abs(newY - goal.y), Some(current)))
  }

  function Pushed(candidate: Option<Node>): (s: seq<Node>)
  {
    match candidate
    case None => []
    case Some(n) => [n]
  }

  /** The nodes pushed for the first k offsets, in push order. */
  ghost function Expansion(grid: seq<seq<int>>, goal: Coord, pool: seq<Node>, closed: seq<nat>, current: nat, k: nat): (e: seq<Node>)
    requires WellFormed(grid) && current < |pool| && IndicesIn(closed, |pool|) && k <= 9
  {
    if k == 0 then []
    else
      var (dx, dy) := Offset(k - 1);
      Expansion(grid, goal, pool, closed, current, k - 1) + Pushed(Candidate(grid, goal, pool, closed, current, dx, dy))
  }

  /** The offsets in loop order: offset (dx, dy) is pushed right after the ones before it. */
  lemma ExpansionNext(grid: seq<seq<int>>, goal: Coord, pool: seq<Node>, closed: seq<nat>, current: nat, dx: int, dy: int)
    requires WellFormed(grid) && current < |pool| && IndicesIn(closed, |pool|)
    requires -1 <= dx <= 1 && -1 <= dy <= 1
    ensures var k := (dx + 1) * 3 + dy + 1;
      0 <= k < 9 &&
      Expansion(grid, goal, pool, closed, current, k + 1) ==
      Expansion(grid, goal, pool, closed, current, k) + Pushed(Candidate(grid, goal, pool, closed, current, dx, dy))
  {
    OffsetOfLoopCounters(dx, dy);
  }

  /** A pushed node is a passable, not yet closed neighbour of `current`, one unit
      dearer, with the Manhattan heuristic and f = g + h. */
  ghost predicate PushedNeighbour(grid: seq<seq<int>>, goal: Coord, pool: seq<Node>, closed: seq<nat>, current: nat, n: Node)
    requires WellFormed(grid) && current < |pool| && IndicesIn(closed, |pool|)
  {
    n.parent == Some(current) && n.g == pool[current].g + 1 &&
    Adjacent(CellOf(pool[current]), CellOf(n)) && IsPassable(grid, CellOf(n)) &&
    CellOf(n) !in CellsOf(pool, closed) &&
    n.h == Manhattan(CellOf(n), goal) && n.f == n.g + n.h
  }

  lemma CandidateSound(grid: seq<seq<int>>, goal: Coord, pool: seq<Node>, closed: seq<nat>, current: nat, dx: int, dy: int)
    requires WellFormed(grid) && current < |pool| && IndicesIn(closed, |pool|)
    requires -1 <= dx <= 1 && -1 <= dy <= 1
    ensures var c := Candidate(grid, goal, pool, closed, current, dx, dy);
      c.Some? ==> PushedNeighbour(grid, goal, pool, closed, current, c.value)
  {
  }

  /** Every node pushed for the first k offsets is a pushed neighbour; at most one per offset. */
  lemma {:induction false} ExpansionSound(grid: seq<seq<int>>, goal: Coord, pool: seq<Node>, closed: seq<nat>, current: nat, k: nat)
    requires WellFormed(grid) && current < |pool| && IndicesIn(closed, |pool|) && k <= 9
    ensures var e := Expansion(grid, goal, pool, closed, current, k);
      |e| <= k && forall j :: 0 <= j < |e| ==> PushedNeighbour(grid, goal, pool, closed, current, e[j])
  {
    if k > 0 {
      ExpansionSound(grid, goal, pool, closed, current, k - 1);
      var (dx, dy) := Offset(k - 1);
      CandidateSound(grid, goal, pool, closed, current, dx, dy);
      var prev := Expansion(grid, goal, pool, closed, current, k - 1);
      var added := Pushed(Candidate(grid, goal, pool, closed, current, dx, dy));
      var e := Expansion(grid, goal, pool, closed, current, k);
      assert e == prev + added;
      forall j | 0 <= j < |e|
        ensures PushedNeighbour(grid, goal, pool, closed, current, e[j])
      {
        if j < |prev| {
          assert e[j] == prev[j];
        } else {
          assert e[j] == added[j - |prev|];
        }
      }
    }
  }

  lemma {:induction false} ExpansionPrefix(grid: seq<seq<int>>, goal: Coord, pool: seq<Node>, closed: seq<nat>, current: nat, k: nat, k': nat)
    requires WellFormed(grid) && current < |pool| && IndicesIn(closed, |pool|) && k <= k' <= 9
    ensures var e := Expansion(grid, goal, pool, closed, current, k);
      var e' := Expansion(grid, goal, pool, closed, current, k');
      |e| <= |e'| && e'[..|e|] == e
    decreases k' - k
  {
    if k < k' {
      ExpansionPrefix(grid, goal, pool, closed, current, k, k' - 1);
      var (dx, dy) := Offset(k' - 1);
      var prev := Expansion(grid, goal, pool, closed, current, k' - 1);
      var e := Expansion(grid, goal, pool, closed, current, k);
      var e' := Expansion(grid, goal, pool, closed, current, k');
      assert e' == prev + Pushed(Candidate(grid, goal, pool, closed, current, dx, dy));
      assert e'[..|e|] == prev[..|e|];
    }
  }

  /** Every passable neighbour of `current` that is not closed gets a node pushed. */
  lemma ExpansionComplete(grid: seq<seq<int>>, goal: Coord, pool: seq<Node>, closed: seq<nat>, current: nat, c: Coord)
    requires WellFormed(grid) && current < |pool| && IndicesIn(closed, |pool|)
    requires Adjacent(CellOf(pool[current]), c) && IsPassable(grid, c) && c !in CellsOf(pool, closed)
    ensures var e := Expansion(grid, goal, pool, closed, current, 9);
      exists j :: 0 <= j < |e| && CellOf(e[j]) == c
  {
    var cur := pool[current];
    var dx, dy := c.x - cur.x, c.y - cur.y;
    ExpansionNext(grid, goal, pool, closed, current, dx, dy);
    var k := (dx + 1) * 3 + dy + 1;
    var before := Expansion(grid, goal, pool, closed, current, k);
    var after := Expansion(grid, goal, pool, closed, current, k + 1);
    var candidate := Candidate(grid, goal, pool, closed, current, dx, dy);
    assert candidate.Some? && CellOf(candidate.value) == c;
    assert after == before + [candidate.value];
    ExpansionPrefix(grid, goal, pool, closed, current, k + 1, 9);
    var e := Expansion(grid, goal, pool, closed, current, 9);
    assert e[|before|] == after[|before|];
  }

  /** The body of the neighbour loops for one offset: skip the node itself, a cell
      outside the map, a wall, or a closed cell; otherwise make the node to push. */
  method NeighbourNode(grid: seq<seq<int>>, goal: Coord, pool: seq<Node>, closed: seq<nat>, current: nat, dx: int, dy: int)
    returns (candidate: Option<Node>)
    requires WellFormed(grid) && current < |pool| && IndicesIn(closed, |pool|)
    ensures candidate == Candidate(grid, goal, pool, closed, current, dx, dy)
  {
    if dx == 0 && dy == 0 {
      return None;
    }
    var cur := pool[current];
    var newX, newY := cur.x + dx, cur.y + dy;
    if !IsValidCoordinate(newX, newY) {
      return None;
    }
    if grid[newY][newX] == Wall {
      return None;
    }
    var inClosed := IsNodeInList(newX, newY, pool, closed);
    if inClosed {
      return None;
    }
    var newG := cur.g + 1;
    var newH := Abs(newX - goal.x) + Abs(newY - goal.y);
    return Some(NewNode(newX, newY, newG, newH, Some(current)));
  }

  /** The neighbour loops of one iteration: the nodes pushed, in push order, for
      every offset whose cell is inside the map, not a wall and not closed. */
  method ExpandNeighbours(grid: seq<seq<int>>, goal: Coord, pool: seq<Node>, closed: seq<nat>, current: nat)
    returns (pushed: seq<Node>)
    requires WellFormed(grid) && current < |pool| && IndicesIn(closed, |pool|)
    ensures pushed == Expansion(grid, goal, pool, closed, current, 9)
  {
    pushed := [];
    for dx := -1 to 2
      invariant pushed == Expansion(grid, goal, pool, closed, current, (dx + 1) * 3)
    {
      for dy := -1 to 2
        invariant pushed == Expansion(grid, goal, pool, closed, current, (dx + 1) * 3 + dy + 1)
      {
        ExpansionNext(grid, goal, pool, closed, current, dx, dy);
        var candidate := NeighbourNode(grid, goal, pool, closed, current, dx, dy);
        if candidate.None? {
          continue;
        }
        pushed := pushed + [candidate.value];
      }
    }
  }

  /** The pool indices that nodes appended to a pool of size lo, up to size hi, receive. */
  function IndexRange(lo: nat, hi: nat): (r: set<nat>)
    ensures forall i :: i in r <==> lo <= i < hi
    decreases hi - lo
  {
    if lo >= hi then {} else {lo} + IndexRange(lo + 1, hi)
  }

  /** Every closed cell's passable neighbours are closed or still queued. */
  ghost predicate FrontierCovers(grid: seq<seq<int>>, pool: seq<Node>, open: set<nat>, closed: seq<nat>)
    requires WellFormed(grid) && QueuedIn(open, |pool|) && IndicesIn(closed, |pool|)
  {
    forall c, n :: c in CellsOf(pool, closed) && Adjacent(c, n) && IsPassable(grid, n) ==>
      n in CellsOf(pool, closed) || n in OpenCells(pool, open)
  }

  /** Passable cells that have not been closed yet. */
  ghost function Live(grid: seq<seq<int>>, pool: seq<Node>, closed: seq<nat>): (cells: set<Coord>)
    requires WellFormed(grid) && IndicesIn(closed, |pool|)
  {
    PassableCells(grid) - CellsOf(pool, closed)
  }

  /** Queued nodes whose cell is not live: popping one closes nothing new. */
  ghost function Stale(grid: seq<seq<int>>, pool: seq<Node>, open: set<nat>, closed: seq<nat>): (s: set<nat>)
    requires WellFormed(grid) && QueuedIn(open, |pool|) && IndicesIn(closed, |pool|)
  {
    set i | i in open && CellOf(pool[i]) !in Live(grid, pool, closed)
  }

  /** Closing `current` after growing the pool adds exactly its cell to the closed cells. */
  lemma CellsOfStep(pool: seq<Node>, e: seq<Node>, closed: seq<nat>, current: nat)
    requires IndicesIn(closed, |pool|) && current < |pool|
    ensures IndicesIn(closed + [current], |pool + e|)
    ensures CellsOf(pool + e, closed + [current]) == CellsOf(pool, closed) + {CellOf(pool[current])}
  {
    var closed' := closed + [current];
    var pool' := pool + e;
    forall c | c in CellsOf(pool', closed')
      ensures c in CellsOf(pool, closed) + {CellOf(pool[current])}
    {
      var k :| 0 <= k < |closed'| && CellOf(pool'[closed'[k]]) == c;
      if k < |closed| {
        assert closed'[k] == closed[k];
      }
    }
    forall c | c in CellsOf(pool, closed) + {CellOf(pool[current])}
      ensures c in CellsOf(pool', closed')
    {
      if c in CellsOf(pool, closed) {
        var k :| 0 <= k < |closed| && CellOf(pool[closed[k]]) == c;
        assert closed'[k] == closed[k];
      } else {
        assert closed'[|closed|] == current;
      }
    }
  }

  /** One iteration keeps the frontier covering the closed cells' neighbours. */
  lemma FrontierStep(grid: seq<seq<int>>, goal: Coord, pool: seq<Node>, open: set<nat>, closed: seq<nat>, current: nat,
                     pool': seq<Node>, open': set<nat>)
    requires WellFormed(grid) && QueuedIn(open, |pool|) && IndicesIn(closed, |pool|) && current in open
    requires FrontierCovers(grid, pool, open, closed)
    requires pool' == pool + Expansion(grid, goal, pool, closed, current, 9)
    requires forall i :: i in open' <==> i in open - {current} || |pool| <= i < |pool'|
    ensures QueuedIn(open', |pool'|) && IndicesIn(closed + [current], |pool'|)
    ensures FrontierCovers(grid, pool', open', closed + [current])
  {
    var e := Expansion(grid, goal, pool, closed, current, 9);
    var closed' := closed + [current];
    CellsOfStep(pool, e, closed, current);
    var cc := CellOf(pool[current]);
    forall c, n | c in CellsOf(pool', closed') && Adjacent(c, n) && IsPassable(grid, n)
      ensures n in CellsOf(pool', closed') || n in OpenCells(pool', open')
    {
      if n !in CellsOf(pool', closed') {
        if c in CellsOf(pool, closed) {
          assert n in OpenCells(pool, open);
          var i :| i in open && CellOf(pool[i]) == n;
          assert i != current;
          assert pool'[i] == pool[i];
          assert CellOf(pool'[i]) in OpenCells(pool', open');
        } else {
          assert c == cc;
          ExpansionComplete(grid, goal, pool, closed, current, n);
          var j :| 0 <= j < |e| && CellOf(e[j]) == n;
          assert pool'[|pool| + j] == e[j];
          assert CellOf(pool'[|pool| + j]) in OpenCells(pool', open');
        }
      }
    }
  }

  /** One iteration that does not reach the goal shrinks the live cells, or keeps them
      and shrinks the stale queue entries: so the loop terminates. */
  lemma MeasureStep(grid: seq<seq<int>>, goal: Coord, pool: seq<Node>, open: set<nat>, closed: seq<nat>, current: nat,
                    pool': seq<Node>, open': set<nat>)
    requires WellFormed(grid) && QueuedIn(open, |pool|) && IndicesIn(closed, |pool|) && current in open
    requires pool' == pool + Expansion(grid, goal, pool, closed, current, 9)
    requires forall i :: i in open' <==> i in open - {current} || |pool| <= i < |pool'|
    ensures QueuedIn(open', |pool'|) && IndicesIn(closed + [current], |pool'|)
    ensures var live, live' := Live(grid, pool, closed), Live(grid, pool', closed + [current]);
      var stale, stale' := Stale(grid, pool, open, closed), Stale(grid, pool', open', closed + [current]);
      live' < live || (live' == live && stale' < stale)
  {
    var e := Expansion(grid, goal, pool, closed, current, 9);
    ExpansionSound(grid, goal, pool, closed, current, 9);
    CellsOfStep(pool, e, closed, current);
    var cc := CellOf(pool[current]);
    var live, live' := Live(grid, pool, closed), Live(grid, pool', closed + [current]);
    assert live' == live - {cc};
    forall j | 0 <= j < |e|
      ensures CellOf(e[j]) in live'
    {
      PassableCellsExactly(grid, CellOf(e[j]));
    }
    if cc !in live {
      assert live' == live;
      var stale, stale' := Stale(grid, pool, open, closed), Stale(grid, pool', open', closed + [current]);
      forall i | |pool| <= i < |pool'|
        ensures i !in stale'
      {
        assert pool'[i] == e[i - |pool|];
      }
      forall i | i in stale'
        ensures i in stale - {current}
      {
        assert i < |pool|;
        assert pool'[i] == pool[i];
      }
      forall i | i in stale - {current}
        ensures i in stale'
      {
        assert pool'[i] == pool[i];
      }
      assert current in stale;
    }
  }

  /** Every node of the pool after an iteration is still a valid child of its parent. */
  lemma PoolStep(grid: seq<seq<int>>, start: Node, goal: Coord, pool: seq<Node>, closed: seq<nat>, current: nat)
    requires WellFormed(grid) && ValidPool(grid, start, goal, pool) && current < |pool| && IndicesIn(closed, |pool|)
    ensures ValidPool(grid, start, goal, pool + Expansion(grid, goal, pool, closed, current, 9))
  {
    var e := Expansion(grid, goal, pool, closed, current, 9);
    var pool' := pool + e;
    ExpansionSound(grid, goal, pool, closed, current, 9);
    forall i | 0 < i < |pool'|
      ensures ValidChild(grid, goal, pool', i)
    {
      if i < |pool| {
        assert ValidChild(grid, goal, pool, i);
        assert pool'[i] == pool[i] && pool'[pool[i].parent.value] == pool[pool[i].parent.value];
      } else {
        assert pool'[i] == e[i - |pool|];
        assert pool'[current] == pool[current];
      }
    }
  }

  /** The search. A non-empty result is a path from the start cell to the goal cell as
      IsSearchPath describes; the result is empty exactly when no walk of passable
      8-directional steps leads from start to goal; start == goal yields the seed alone. */
  method AStarSearch(grid: seq<seq<int>>, start: Node, goal: Node) returns (path: seq<Node>)
    requires WellFormed(grid)
    ensures path != [] ==> IsSearchPath(grid, CellOf(start), CellOf(goal), path)
    ensures path != [] <==> Reachable(grid, CellOf(start), CellOf(goal))
    ensures path != [] ==> path[0] == Seed(start)
    ensures CellOf(start) == CellOf(goal) ==> path == [Seed(start)]
  {
    ghost var from := CellOf(start);
    var to := CellOf(goal);
    var pool := [Seed(start)];
    var open: set<nat> := {0};
    var closed: seq<nat> := [];
    while open != {}
      invariant ValidPool(grid, start, to, pool)
      invariant QueuedIn(open, |pool|) && IndicesIn(closed, |pool|)
      invariant from in CellsOf(pool, closed) || 0 in open
      invariant to !in CellsOf(pool, closed)
      invariant closed == [] ==> open == {0}
      invariant from == to ==> closed == []
      invariant FrontierCovers(grid, pool, open, closed)
      decreases Live(grid, pool, closed), Stale(grid, pool, open, closed)
    {
      var current, rest := PopMin(pool, open);
      if pool[current].x == goal.x && pool[current].y == goal.y {
        ValidPoolParentsBefore(grid, start, to, pool);
        path := TracePath(pool, current);
        ChainShape(grid, start, to, pool, current);
        ChainToGoalIsSearchPath(grid, start, to, pool, current);
        SearchPathReaches(grid, from, to, path);
        return;
      }
      var pushed := ExpandNeighbours(grid, to, pool, closed, current);
      var pool', open' := pool + pushed, rest + IndexRange(|pool|, |pool| + |pushed|);
      PoolStep(grid, start, to, pool, closed, current);
      FrontierStep(grid, to, pool, open, closed, current, pool', open');
      MeasureStep(grid, to, pool, open, closed, current, pool', open');
      CellsOfStep(pool, pushed, closed, current);
      pool, open, closed := pool', open', closed + [current];
    }
    UnreachableOutsideRegion(grid, CellsOf(pool, closed), from, to);
    path := [];
  }

  /** The search as the program first runs it: from (0, 0) to (6, 7) on the shipped map.
      It finds a path, since that goal is reachable. */
  method SearchDefaultScene() returns (path: seq<Node>)
    ensures |path| >= 1 && CellOf(path[0]) == Coord(0, 0) && CellOf(path[|path| - 1]) == Coord(6, 7)
  {
    SourceMapWellFormed();
    DefaultGoalReachable();
    path := AStarSearch(SourceMap, NewNode(0, 0, 0, 0), NewNode(6, 7, 0, 0));
  }
}
