# A* grid search on a 10×10 map, modelled in Dafny

The program finds a route between two cells of a fixed 10×10 map. It uses an A*
search with 8-directional unit-cost moves and a Manhattan-distance heuristic.
This project models that search: the `Node` record and its constructor, the
`CompareNode` ordering of the open list, the `IsValidCoordinate` bounds check,
the `IsNodeInList` linear scan of the closed list, and `AstarSearch` itself.
It then proves what the search returns.

- `grid.dfy` (module `Grid`) covers the map and its cell kinds. It defines the
  bounds check, the passable cells (on the map and not `WALL`) and 8-neighbour
  adjacency. It defines a *walk* as a sequence of 8-neighbour steps whose cells
  after the first are passable. `Reachable` holds when such a walk exists.
- `nodes.dfy` (module `Nodes`) covers the search nodes. They live in a pool: the
  seed sits at index 0 and every `new Node` is appended. A node's `parent` is
  the pool index of the node it was expanded from. The module also holds the
  comparator, the parent chains and path reconstruction (`TracePath`).
- `search.dfy` (module `Search`) covers the closed-list scan, the extract-min
  step, the two neighbour loops and the search loop (`AStarSearch`).

Main results:

- A non-empty result starts at the start cell and ends at the goal cell. The
  node at index k has `g == k`. Every node has `f == g + h`. Each step after the
  first is an 8-directional move onto a passable cell whose `h` is its Manhattan
  distance to the goal.
- The result is non-empty exactly when the goal is reachable from the start.
- When start equals goal, the result is the seed alone.
- The loop terminates. Each iteration either closes a passable cell that was
  not closed before, or pops a node whose cell is already closed or not
  passable, and pushes only nodes on passable cells not yet closed.

The map is a parameter of the search, `seq<seq<int>>` indexed `[y][x]`. The
search only reads it. The shipped map is `Grid.SourceMap`.

## Model

| member | source | states |
|---|---|---|
| `Grid.IsValidCoordinate` | main.cpp:57-59 | True exactly when `0 <= x < MAP_WIDTH` and `0 <= y < MAP_HEIGHT`. |
| `Grid.ValidCoordinateIndexesGrid` | main.cpp:57-59 | The bounds check accepts `(x, y)` exactly when it indexes a cell of a well-formed map. |
| `Grid.SourceMapWellFormed` | main.cpp:22-33 | The shipped map has `MAP_HEIGHT` rows of `MAP_WIDTH` cells. |
| `Grid.PassableCellsExactly` | main.cpp:100-104 | The passable cells are exactly the in-bounds cells that are not `WALL`, which are the cells the expansion may enter. |
| `Grid.WalkStaysInRegion` | main.cpp:92-104 | A region that holds the start and contains every passable neighbour of its cells holds the end of every walk from the start. |
| `Grid.UnreachableOutsideRegion` | main.cpp:92-104 | No cell outside such a region is reachable from the start. |
| `Grid.EnclosedGoalUnreachable` | main.cpp:92-104 | A goal whose 8 neighbours are all walls or off the map cannot be reached from a cell that is neither the goal nor one of its neighbours. |
| `Grid.WalkExtend` | main.cpp:92-104 | Adding a passable neighbour of a walk's end gives a walk. |
| `Grid.DefaultGoalReachable` | main.cpp:169-170 | On the shipped map, the default goal (6,7) is reachable from the default start (0,0). |
| `Nodes.NewNode` | main.cpp:45-46 | The constructor keeps x, y, g, h and parent as given and sets `f = g + h`. |
| `Nodes.CompareNode` | main.cpp:50-54 | `a` ranks below `b` exactly when `b` has the strictly smaller `f`; a node never ranks below itself. |
| `Nodes.CompareNodeIsStrictWeakOrder` | main.cpp:50-54 | The comparator is irreflexive and transitive, and incomparability under it is transitive. A node that ranks below no other node has the least `f` among them. |
| `Nodes.Seed` | main.cpp:75 | The start node is on the start cell with `g = 0`, `h = 0`, `f = 0` and no parent. |
| `Nodes.ValidPoolParentsBefore` | main.cpp:106-110 | In every pool the search builds, a parent link points to an earlier node, so walking the links terminates. |
| `Nodes.ChainStep` | main.cpp:83-86 | One step of the parent walk: a node's chain is its parent's chain followed by the node. For the seed it is the node alone. |
| `Nodes.ChainShape` | main.cpp:81-88 | The parent chain of any pool node has `g + 1` entries and starts at the seed. It ends at the node, entry k has `g == k` and `f == g + h`, and each later entry is an 8-neighbour step onto a passable cell with the Manhattan `h`. |
| `Nodes.ChainToGoalIsSearchPath` | main.cpp:81-88 | The chain of a node on the goal cell is a search path from the start cell to the goal cell. |
| `Nodes.SearchPathReaches` | main.cpp:81-88 | A search path is a walk, so its goal is reachable from its start. |
| `Nodes.TracePath` | main.cpp:82-88 | Pushing nodes while following parent links and then reversing yields exactly the parent chain, root first. |
| `Search.IsNodeInList` | main.cpp:62-68 | The scan returns true exactly when some listed node has coordinates `(x, y)`. |
| `Search.MinimumExists` | main.cpp:78-79 | A non-empty open list holds a node of least `f`. |
| `Search.PopMin` | main.cpp:78-79 | The popped node was queued, and the queue keeps every other node. No remaining node ranks above it under `CompareNode`, so its `f` is at most every queued `f`. The tie-break is left open. |
| `Search.ExpansionNext` | main.cpp:92-93 | The nested `dx`/`dy` loops visit the nine offsets in order: offset `(dx, dy)` comes right after the ones before it. |
| `Search.CandidateSound` | main.cpp:94-109 | A node made for an offset is a passable neighbour of `current` that is not closed. It has parent `current` and `g + 1`, its `h` is the Manhattan distance to the goal, and `f = g + h`. |
| `Search.NeighbourNode` | main.cpp:94-109 | Skips the zero offset, out-of-bounds cells, walls and closed cells. Otherwise it yields the node to push. |
| `Search.ExpandNeighbours` | main.cpp:92-112 | The neighbour loops push exactly the nodes of the nine offsets that survive the checks, in loop order. |
| `Search.ExpansionSound` | main.cpp:94-111 | Every pushed node satisfies `CandidateSound`'s properties, at most one per offset. No cell already in the closed list is pushed. |
| `Search.ExpansionPrefix` | main.cpp:92-93 | Pushes made for earlier offsets stay a prefix of the later pushes. |
| `Search.ExpansionComplete` | main.cpp:92-111 | Every passable neighbour of `current` that is not closed gets a node pushed. |
| `Search.CellsOfStep` | main.cpp:114 | Appending `current` to the closed list adds exactly its cell to the closed cells. |
| `Search.PoolStep` | main.cpp:106-110 | After an expansion, every node allocated so far is still the seed or a valid child. So every node has `f == g + h`, and every non-seed node has the Manhattan `h`. |
| `Search.FrontierStep` | main.cpp:77-115 | An iteration keeps this invariant: every passable neighbour of a closed cell is closed or still queued. |
| `Search.MeasureStep` | main.cpp:77-115 | An iteration that does not reach the goal either closes a new passable cell or removes a stale queue entry without adding any. Either way the search makes progress toward termination. |
| `Search.AStarSearch` | main.cpp:71-119 | A non-empty result is a search path from start to goal (endpoints, `g == index`, adjacency, passable cells after the seed, `f = g + h`, Manhattan `h`). The result is non-empty exactly when the goal is reachable. A non-empty result begins with the seed (`g = 0`, `h = 0`, no parent). When start equals goal it is the seed alone. |
| `Search.SearchDefaultScene` | main.cpp:169-187 | The search the program first runs, (0,0) to (6,7) on the shipped map, returns a path from (0,0) to (6,7). |

## Left out

- `WinMain` (window, frame loop, key polling, ImGui sliders), `DrawMap`, the
  drawing calls and `GetColor` are I/O and rendering. They are not part of
  this model. The sliders allow coordinates up to 10, one past the map, so
  start and goal are not assumed to lie on the map.
- Heap allocation and the leak of every `new Node`: nodes are values in a pool
  and `parent` is a pool index. The returned path carries parent indices into
  that pool rather than pointers.
- The `std::priority_queue` internals: the open list is the set of queued pool
  indices, since every queued pointer is distinct. Extract-min picks any node
  of least `f`, because the container's tie-break is not visible in the source.
- `std::reverse` works in place in the source. Here the reversal is a function
  on a sequence.
- `Search.ExpandNeighbours` returns the nodes it pushes. `Search.AStarSearch`
  then appends them to the pool and their indices to the open list. The source
  pushes each one as it is made. The order and the contents are the same.
- `int` is modelled as unbounded integers. `g` grows by one per step and
  coordinates by one per move, so 32-bit overflow is out of reach.
- `Search.AStarSearch` does not state that the path is shortest. A* is often
  expected to return a shortest path, but with unit-cost diagonal moves the
  Manhattan heuristic overestimates, so this code does not guarantee one, and
  the model does not claim it.
- Only `WALL` is tested in the map. The other cell kinds (`EMPTY`, `START`,
  `GOAL`) are treated alike, as in the code.
