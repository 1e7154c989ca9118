/** The fixed 10x10 map the search runs on: its dimensions, its cell kinds,
    the bounds check, and what it means for one cell to be reachable from another
    by 8-directional unit steps. */
module Grid {

  const MapWidth := 10
  const MapHeight := 10

  // The cell kinds of the map; the search only ever tests for Wall.
  const Empty := 0
  const Wall := 1
  const Start := 2
  const Goal := 3

  datatype Coord = Coord(x: int, y: int)

  /** The map the program ships with, indexed as Map[y][x]. */
  const SourceMap: seq<seq<int>> := [
    [0, 0, 0, 0, 0, 0, 0, 0, 0, 0],
    [0, 1, 0, 1, 1, 1, 0, 1, 0, 0],
    [0, 1, 0, 0, 0, 1, 0, 1, 0, 0],
    [0, 1, 1, 1, 0, 1, 0, 1, 0, 0],
    [0, 0, 0, 1, 0, 1, 0, 1, 0, 0],
    [0, 1, 0, 1, 0, 1, 0, 1, 0, 0],
    [0, 1, 0, 1, 0, 1, 0, 1, 0, 0],
    [0, 1, 0, 1, 0, 0, 0, 1, 0, 0],
    [0, 1, 0, 1, 1, 1, 1, 1, 0, 0],
    [0, 0, 0, 0, 0, 0, 0, 0, 0, 0]
  ]

  /** A grid has MapHeight rows of MapWidth cells each, like the source's array. */
  predicate WellFormed(grid: seq<seq<int>>)
  {
    |grid| == MapHeight && forall row :: 0 <= row < MapHeight ==> |grid[row]| == MapWidth
  }

  lemma SourceMapWellFormed()
    ensures WellFormed(SourceMap)
  {
  }

  function Abs(n: int): (a: nat)
  {
    if n < 0 then -n else n
  }

  /** The bounds check guarding every map access: column x and row y both lie on the
      map (see ValidCoordinateIndexesGrid for what that means for indexing). */
  predicate IsValidCoordinate(x: int, y: int): (ok: bool)
    ensures ok <==> 0 <= x < MapWidth && 0 <= y < MapHeight
  {
    x >= 0 && x < MapWidth && y >= 0 && y < MapHeight
  }

  /** The bounds check accepts exactly the coordinates that index a cell of the grid. */
  lemma ValidCoordinateIndexesGrid(grid: seq<seq<int>>, x: int, y: int)
    requires WellFormed(grid)
    ensures IsValidCoordinate(x, y) <==> 0 <= y < |grid| && 0 <= x < |grid[y]|
  {
  }

  /** A cell a search step may enter: inside the map and not a wall. */
  predicate IsPassable(grid: seq<seq<int>>, c: Coord)
    requires WellFormed(grid)
  {
    IsValidCoordinate(c.x, c.y) && grid[c.y][c.x] != Wall
  }

  /** The 8 neighbours of a cell: both deltas in {-1, 0, 1}, not both zero. */
  predicate Adjacent(a: Coord, b: Coord)
  {
    a != b && -1 <= b.x - a.x <= 1 && -1 <= b.y - a.y <= 1
  }

  function Manhattan(a: Coord, b: Coord): (d: nat)
  {
    Abs(a.x - b.x) + Abs(a.y - b.y)
  }

  ghost function PassableCells(grid: seq<seq<int>>): (cells: set<Coord>)
    requires WellFormed(grid)
  {
    set x, y | 0 <= x < MapWidth && 0 <= y < MapHeight && grid[y][x] != Wall :: Coord(x, y)
  }

  lemma PassableCellsExactly(grid: seq<seq<int>>, c: Coord)
    requires WellFormed(grid)
    ensures c in PassableCells(grid) <==> IsPassable(grid, c)
  {
    if IsPassable(grid, c) {
      assert Coord(c.x, c.y) in PassableCells(grid);
    }
  }

  /** A walk from `from` to `to`: a sequence of cells, each one step from the one before,
      whose cells after the first are passable. The first cell is not checked, just as
      the search never checks its seed. */
  ghost predicate IsWalk(grid: seq<seq<int>>, w: seq<Coord>, from: Coord, to: Coord)
    requires WellFormed(grid)
  {
    |w| >= 1 && w[0] == from && w[|w| - 1] == to &&
    forall k :: 1 <= k < |w| ==> Adjacent(w[k - 1], w[k]) && IsPassable(grid, w[k])
  }

  ghost predicate Reachable(grid: seq<seq<int>>, from: Coord, to: Coord)
    requires WellFormed(grid)
  {
    exists w :: IsWalk(grid, w, from, to)
  }

  /** A region that holds `from` and is closed under passable steps holds every cell
      a walk from `from` can end at. */
  lemma {:induction false} WalkStaysInRegion(grid: seq<seq<int>>, region: set<Coord>, w: seq<Coord>, from: Coord, to: Coord)
    requires WellFormed(grid)
    requires from in region
    requires forall c, n :: c in region && Adjacent(c, n) && IsPassable(grid, n) ==> n in region
    ensures IsWalk(grid, w, from, to) ==> to in region
    decreases |w|
  {
    if IsWalk(grid, w, from, to) && |w| > 1 {
      var prefix := w[..|w| - 1];
      assert IsWalk(grid, prefix, from, w[|w| - 2]) by {
        forall k | 1 <= k < |prefix|
          ensures Adjacent(prefix[k - 1], prefix[k]) && IsPassable(grid, prefix[k])
        {
          assert prefix[k - 1] == w[k - 1] && prefix[k] == w[k];
        }
      }
      WalkStaysInRegion(grid, region, prefix, from, w[|w| - 2]);
      assert Adjacent(w[|w| - 2], w[|w| - 1]) && IsPassable(grid, w[|w| - 1]);
    }
  }

  /** A cell outside such a region cannot be reached from inside it. */
  lemma UnreachableOutsideRegion(grid: seq<seq<int>>, region: set<Coord>, from: Coord, to: Coord)
    requires WellFormed(grid)
    requires from in region && to !in region
    requires forall c, n :: c in region && Adjacent(c, n) && IsPassable(grid, n) ==> n in region
    ensures !Reachable(grid, from, to)
  {
    forall w: seq<Coord>
      ensures !IsWalk(grid, w, from, to)
    {
      WalkStaysInRegion(grid, region, w, from, to);
    }
  }

  /** A goal whose eight neighbours are all walls or off the map cannot be reached
      from any other cell that is not itself one of those neighbours. */
  lemma EnclosedGoalUnreachable(grid: seq<seq<int>>, from: Coord, to: Coord)
    requires WellFormed(grid)
    requires from != to && !Adjacent(from, to)
    requires forall n :: Adjacent(to, n) ==> !IsPassable(grid, n)
    ensures !Reachable(grid, from, to)
  {
    forall w: seq<Coord>
      ensures !IsWalk(grid, w, from, to)
    {
      if |w| >= 2 && w[|w| - 1] == to {
        var k := |w| - 2;
        assert Adjacent(w[k], w[k + 1]) ==> Adjacent(to, w[k]);
      }
    }
  }

  /** Extending a walk by one passable neighbour of its end gives a walk. */
  lemma WalkExtend(grid: seq<seq<int>>, w: seq<Coord>, from: Coord, to: Coord, next: Coord)
    requires WellFormed(grid)
    requires IsWalk(grid, w, from, to)
    requires Adjacent(to, next) && IsPassable(grid, next)
    ensures IsWalk(grid, w + [next], from, next)
  {
    var w' := w + [next];
    forall k | 1 <= k < |w'|
      ensures Adjacent(w'[k - 1], w'[k]) && IsPassable(grid, w'[k])
    {
      if k < |w| {
        assert w'[k - 1] == w[k - 1] && w'[k] == w[k];
      }
    }
  }

  /** The scene the program starts with, (0,0) to (6,7) on the shipped map, has a walk:
      along the top row, then down column 6. */
  lemma DefaultGoalReachable()
    ensures WellFormed(SourceMap)
    ensures Reachable(SourceMap, Coord(0, 0), Coord(6, 7))
  {
    var grid, from := SourceMap, Coord(0, 0);
    var w, end := [from], from;
    WalkExtend(grid, w, from, end, Coord(1, 0));
    w, end := w + [Coord(1, 0)], Coord(1, 0);
    WalkExtend(grid, w, from, end, Coord(2, 0));
    w, end := w + [Coord(2, 0)], Coord(2, 0);
    WalkExtend(grid, w, from, end, Coord(3, 0));
    w, end := w + [Coord(3, 0)], Coord(3, 0);
    WalkExtend(grid, w, from, end, Coord(4, 0));
    w, end := w + [Coord(4, 0)], Coord(4, 0);
    WalkExtend(grid, w, from, end, Coord(5, 0));
    w, end := w + [Coord(5, 0)], Coord(5, 0);
    WalkExtend(grid, w, from, end, Coord(6, 1));
    w, end := w + [Coord(6, 1)], Coord(6, 1);
    WalkExtend(grid, w, from, end, Coord(6, 2));
    w, end := w + [Coord(6, 2)], Coord(6, 2);
    WalkExtend(grid, w, from, end, Coord(6, 3));
    w, end := w + [Coord(6, 3)], Coord(6, 3);
    WalkExtend(grid, w, from, end, Coord(6, 4));
    w, end := w + [Coord(6, 4)], Coord(6, 4);
    WalkExtend(grid, w, from, end, Coord(6, 5));
    w, end := w + [Coord(6, 5)], Coord(6, 5);
    WalkExtend(grid, w, from, end, Coord(6, 6));
    w, end := w + [Coord(6, 6)], Coord(6, 6);
    WalkExtend(grid, w, from, end, Coord(6, 7));
    w, end := w + [Coord(6, 7)], Coord(6, 7);
  }
}
