# Grid-maze solver: a verified model of the search core

This project models the core of a grid-maze solver in Dafny and proves
properties of the model. The solver reads a maze of `-` (path) and `#` (wall)
characters. It then finds a route between two cells in two ways: a depth-first
search with an explicit stack, and an A* search guided by the Manhattan
distance. Both searches rebuild their route from a predecessor map.

Modules, one file each:

- `Wrappers` (`wrappers.dfy`): `Option` and `Result`. They are used wherever the
  source panics or returns `Option`.
- `Coords` (`coord.dfy`): the `Coord` value, its tuple conversion, and its
  `(x,y)` text form, with a parser that proves the text form injective.
- `Mazes` (`maze.dfy`):
  - `Tile` and `Maze`;
  - the validity predicate `|data| == width * height`, which `read` never checks;
  - `get`, `is_inbounds`, `is_edge`, `get_exits` and `neighbours`.
- `MazeText` (`maze_text.dfy`): `Maze::read` and the `Debug` writer, with the
  round trip between them.
- `Routes` (`route.dfy`):
  - predecessor maps and `reconstruct_route`;
  - walks and routes over an abstract move function `next: Coord -> seq<Coord>`;
  - `Moves(m)`, which is `neighbours` of a valid maze.
- `DepthFirst` (`dfs.dfy`): `dfs`.
- `AStarSearch` (`astar.dfy`): `h`, the priority queue, and `a_star`.

Both searches are written over an abstract move function. The maze-level
`Dfs` and `AStar` apply them to `Moves(m)`. A search only looks at the maze
through `neighbours`, so this loses nothing, and the search proofs stay free
of row-major index arithmetic.

Where the source panics, the model returns an error value instead:

| Source panic | Model result |
|---|---|
| `expect` on an empty file | `Err(EmptyInput)` |
| an unexpected character | `Err(UnexpectedChar(ch))` |
| "no route found" in `reconstruct_route` | `Err(Unreachable)` |

Each search returns `Found(route, explored)` and, as a ghost, the set of cells
it counted: the visited set for `dfs`, the keys of the predecessor map for
`a_star`. Its contract states four things:
- the route is a walk of moves from `start` to `end`;
- a route is returned exactly when `end` is reachable from `start`;
- `explored` is the size of the counted set, which holds `start`, lies within
  the cells a search can discover, and holds only cells reachable from `start`;
- every cell of the route is in the counted set.

`dfs` overwrites the predecessor of a cell that is not yet visited each time
it is rediscovered (src/main.rs:121-123). The model follows the code
(`DepthFirst.Discover`), and the proofs show a cell's entry is fixed once it
is visited, so visit order ranks the links.

## Model

| member | source | states |
|---|---|---|
| Coords.FromPair | src/coord.rs:10-14 | The coordinate built from `(x, y)` has exactly those two fields. |
| Coords.CoordEquality | src/coord.rs:4-8 | Equality is structural: two coordinates are equal iff their `x` and their `y` are equal. |
| Coords.Decimal | src/coord.rs:21 | The decimal text of a number is non-empty, all digits, and has no leading zero unless the number is 0. |
| Coords.DecimalRoundTrip | src/coord.rs:21 | Reading the decimal text of `n` back gives `n`. |
| Coords.DebugForm | src/coord.rs:25-29 | The `Debug` text of every coordinate is identical to its `Display` text. |
| Coords.DisplayRoundTrip | src/coord.rs:19-23 | Parsing the `(x,y)` text of a coordinate gives that coordinate back, so no information is lost. |
| Coords.DisplayInjective | src/coord.rs:21 | Distinct coordinates render to distinct texts. |
| Mazes.Get | src/maze.rs:45-55 | On a valid maze, `get` is `None` exactly when the cell is out of bounds. |
| Mazes.GetCoversData | src/maze.rs:45-51 | Every tile of the data is what `get` returns for its row-major cell `(i % width, i / width)`. |
| Mazes.RowMajorInjective | src/maze.rs:49 | Two in-bounds cells with the same row-major index are the same cell. |
| Mazes.EdgeIffStepLeaves | src/maze.rs:57-62 | An in-bounds cell is on the edge iff some cardinal step from it falls below 0 or leaves the grid. |
| Mazes.Step | src/maze.rs:78-86 | A cardinal step is adjacent to its origin, and is dropped, not wrapped, exactly when it would go below 0. |
| Mazes.Neighbours | src/maze.rs:77-90 | There are at most 4 neighbours. A cell is one iff it is in bounds, not a wall and one step away. They come in the order left, up, down, right. |
| Mazes.GetExits | src/maze.rs:64-75 | The exits are exactly the in-bounds edge cells holding a path, in strictly increasing row-major order, so each appears once. |
| Mazes.OrderedBySameMembers | src/maze.rs:64-75 | Two strictly ordered lists with the same members are equal, so the exit list is determined by the maze alone. |
| Mazes.OpenCells | src/maze.rs:87-89 | The set of open cells holds exactly the in-bounds cells that are not walls. |
| MazeText.ScanTilesMeaning | src/maze.rs:28-36 | The character loop succeeds iff every character is `-`, `#`, newline, carriage return or space. It then yields one tile per `-`/`#`, in text order. Otherwise it reports the first character it rejects. |
| MazeText.Read | src/maze.rs:17-43 | `read` fails on empty text and on a rejected character, naming the first one. Its tiles spell out exactly the `-`/`#` characters of the text. |
| MazeText.ReadRows | src/maze.rs:18-25 | For rows of equal width, height is the number of rows and width is the length of the first row with spaces removed and trimmed. |
| MazeText.ReadAcceptsRaggedRows | src/maze.rs:17-43 | `read` accepts `"--\n-"` as a 2 by 2 maze with three tiles, which violates the size invariant. The checked reader rejects it. |
| MazeText.ReadChecked | src/maze.rs:17-43 | The checked reader succeeds exactly when `read` does and the tile count is `width * height`. Otherwise it keeps `read`'s error. |
| MazeText.RowText | src/maze.rs:107-114 | A printed row has `width` characters. Each is `#` or `-` and names the tile `get` returns at that cell. |
| MazeText.DebugRows | src/maze.rs:105-116 | The writer prints `height` rows. Row `y` has `width + 1` characters: the digit `y % 10`, then one `#` or `-` per cell, naming the tile `get` returns there. |
| MazeText.DebugRoundTrip | src/maze.rs:93-118 | For a maze of at least one row and one column: each printed row is `width + 1` characters with label `y % 10`. With the labels dropped, the rows read back, size check included, as the same maze. |
| Routes.ReconstructRoute | src/main.rs:134-151 | On success the route follows recorded links from a root to `end`. On failure no chain of links ends at `end`. Termination rests on a rank that falls along every link. |
| Routes.LinkedChainExists | src/main.rs:140-145 | In a closed, ranked map every recorded cell ends some chain of links, so reconstruction from a recorded cell succeeds. |
| Routes.LinkedIsRoute | src/main.rs:108 | If `start` is the only root and every link is a move, each chain of links is a route from `start`. |
| Routes.RecordedReachable | src/main.rs:108-123 | In a closed, ranked predecessor map rooted only at `start` whose links are moves, every recorded cell is reachable from `start`. |
| Routes.RegionSeparates | src/main.rs:110-127 | A region closed under moves that holds `start` but not `end` shows `end` unreachable. |
| Routes.RouteSteps | src/main.rs:119 | Every step of a route through a maze is a unit cardinal step onto an in-bounds non-wall cell. |
| DepthFirst.Discover | src/main.rs:119-126 | A visited neighbour changes nothing. An unvisited one is pushed and its predecessor is set to the current cell, overwriting any earlier entry. |
| DepthFirst.PopKeeps | src/main.rs:110-117 | Popping and marking visited keeps the invariant: links are moves, `start` is the only root, and visited entries are fixed. The lexicographic measure falls: unvisited cells first, then visited stack entries. |
| DepthFirst.DiscoverKeeps | src/main.rs:119-126 | Each neighbour step of the inner loop keeps the links, the ranking by visit order and the bound on discovered cells. |
| DepthFirst.DfsExit | src/main.rs:127-129 | On loop exit the predecessor map is closed and ranked by visit order, and `start` is its only root. If `end` has no entry, it is unreachable. |
| DepthFirst.Search | src/main.rs:96-132 | Over any bounded move function, a route is returned iff `end` is reachable, and it is a route from `start` to `end`. `explored` is the size of the visited set, which holds `start`, lies within the bound, holds only cells reachable from `start` and contains every route cell. |
| DepthFirst.Dfs | src/main.rs:96-132 | The same result over the maze's `neighbours`; the visited cells are open cells or `start`. |
| AStarSearch.H | src/main.rs:160-162 | The Manhattan distance is 0 iff the cells are equal, and 1 iff they are adjacent. |
| AStarSearch.HSymmetric | src/main.rs:160-162 | The Manhattan distance is symmetric. |
| AStarSearch.HStep | src/main.rs:160-162 | One cardinal step changes the distance to any cell by exactly one, so `h` is consistent. |
| AStarSearch.HAdmissible | src/main.rs:157-162 | No walk of cardinal steps is shorter than the Manhattan distance between its ends, so `h` is admissible. |
| AStarSearch.PushIncrease | src/main.rs:206 | `push_increase` adds the cell if absent, and never raises its priority: the result is the new priority or the old, whichever is lower. No other entry changes. |
| AStarSearch.Pop | src/main.rs:185 | `pop` removes a cell of minimum priority and keeps every other entry. |
| AStarSearch.Relax | src/main.rs:192-207 | A neighbour is updated iff it has no `g` score or `g[current] + 1` beats it. Then its score becomes `g[current] + 1`, its predecessor becomes the current cell and it is queued. Otherwise nothing changes. Scores never rise, and no other cell's score or predecessor changes. |
| AStarSearch.RelaxKeeps | src/main.rs:194-207 | Each relaxation keeps the tree invariant (`g[start] == 0`, `start` the only root, `g[u] < g[v]` on every link `v -> u`, links are moves) and keeps queued priorities equal to `g + h`. |
| AStarSearch.RelaxNeighbours | src/main.rs:192-208 | Relaxing all neighbours keeps the search invariant and only lowers `g`. If `g` did not change, nothing did. |
| AStarSearch.Progress | src/main.rs:198-201 | A change that only lowers `g` scores strictly lowers their total, which bounds the number of re-openings. |
| AStarSearch.Round | src/main.rs:183-209 | One loop round keeps the invariant, and either finds `end` or makes measurable progress. |
| AStarSearch.Search | src/main.rs:153-214 | Over any bounded move function, a route is returned iff `end` is reachable, and it is a route from `start` to `end`. `explored` is the size of the set of cells given a predecessor, which holds `start`, lies within the bound, holds only cells reachable from `start` and contains every route cell. |
| AStarSearch.AStar | src/main.rs:153-214 | The same result over the maze's `neighbours`; the recorded cells are open cells or `start`. In addition, the route has at least `h(start, end)` steps. |

## Left out

- `main` (src/main.rs:14-94): argument parsing, file reading, timing and printing are input/output around the core.
- src/render.rs: terminal cursor and colour output. It is not part of this model.
- The priority queue crate's internals and its tie-break between equal priorities: `Pop` may return any cell of minimum priority.
- Hashing (`FxHashMap`, `FxHashSet`, the queue's hasher): modelled as Dafny `map` and `set`.
- The `f` map of `a_star` (src/main.rs:170-171, 202) is written and never read. It is omitted. The queue holds the same `g + h` values, and that invariant is proved.
- `usize` width: coordinates, sizes and scores are unbounded naturals. The overflow of `nbr_g + 1` and of `y * width + x` is not modelled. The `usize::MAX` default in the relaxation test is modelled as an absent `g` entry meaning infinity.
- Text is a sequence of Unicode scalar values, and `len()` is taken as the character count. This equals the byte length only for ASCII text.
- `MazeText.Read`: `lines()` strips a `\r` before each `\n`. The model counts lines by `\n` alone, which gives the same count. Its width is taken after `trim`, which removes that `\r`.
- `Mazes.IsEdge`: its precondition rules out the `width - 1` and `height - 1` underflows that panic in the source when a dimension is 0. Its truth value is the source's expression; `Mazes.EdgeIffStepLeaves` states its meaning.
- `get`, `neighbours` and `get_exits` require the validity predicate `|data| == width * height`, which the source assumes but `read` does not establish (see Findings).
- `AStarSearch.AStar`: proves the admissibility lower bound on route length, not shortest-route optimality. With no closed set and an arbitrary tie-break, optimality needs an argument about the external queue that is not modelled.
- `Routes.ReconstructRoute`: requires a ranking of the predecessor links. On a cyclic map the source loops forever; both searches are proved to build ranked maps.
- `MazeText.ReadChecked`: checks only that the tile count equals `width * height`, not each row's width. A ragged text whose tile count happens to match, such as `"--\n-\n---"`, is accepted and its tiles are re-cut into rows of width `width`.
- `MazeText.DebugText` renders the header and the column ruler (src/maze.rs:95-104). Only the tile rows carry a stated property.

## Findings

| source | as written | input that shows it | evidently intended | confidence | as-written member | corrected member |
|---|---|---|---|---|---|---|
| src/maze.rs:17-43 | `read` takes the width from the first line and the height from the line count. It never compares their product with the number of tiles. | `"--\n-"` reads as width 2, height 2 and 3 tiles. `get((1,1))` would then index past the data. | The tile count equals `width * height`, so every in-bounds `get` has a tile to return. | not executed | MazeText.ReadAcceptsRaggedRows | MazeText.ReadChecked |
