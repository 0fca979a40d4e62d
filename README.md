# CYnaspe maze engine, modelled in Dafny

CYnaspe generates and solves rectangular mazes. This project models its engine in Dafny and
proves properties of that model:

- **Tiles and the maze** (`TileModel`, `EdgeModel`, `MazeModel`, `Helpers`): a tile has a
  position, four wall flags, a visited flag and a solving status. The maze owns a grid of
  tiles. The model covers wall updates on both sides of a wall, the edges between adjacent
  tiles, and the accessible-neighbour query.
- **Generation** (`DisjointSet`, `KruskalMazeGenerator`): a randomised Kruskal algorithm. It
  knocks down the wall of each shuffled edge whose two tiles are still in different sets of
  a union–find structure with path compression.
- **Solving** (`BreadthFirstSolver`, `RecursiveMazeSolver`, `DjikstraSolver`,
  `WallFollowerSolver`): step-by-step searches from the start tile (0, 0) to the end tile
  (rows − 1, cols − 1). The first three record parent links and then trace the path back,
  marking tiles PATH. The wall follower walks right-hand first.
- **Files** (`MazeWriter`, `MazeReader`): a text format. The first line is `rows,cols`,
  followed by one `row,col,bits` line per tile, where the bits are the walls in the order
  TOP, RIGHT, BOTTOM, LEFT.
- **Smaller pieces**: the console spinner `SpinnerText`, and the adjacency-list `Graph` with
  its `Node` type from `bin/algorithms`.

Stateful Java classes become Dafny classes:

- Their fields are Dafny fields.
- Each method lists what it `modifies` and states the new state against a value-level
  function of the old state.
- The maze's grid is a `seq<seq<Tile>>` field. Each write to a tile object's field
  reassigns that grid cell.
- Tiles are identified by position, so maps and sets of tiles are keyed by `Pos`.
- Each solver keeps a ghost copy of the grid's walls as they were at construction.

Java's library behaviour that the file format relies on is written out in module
`JavaText`:

- `String.split` with its dropped trailing empty pieces;
- `trim`;
- `Integer.parseInt` with its 32-bit range;
- `String.format("%d")`;
- `Files.readAllLines` with its three line ends.

The bounds of a Java `int`, `Integer.MIN_VALUE` and `Integer.MAX_VALUE`, are defined once in
module `JavaInt`. The parser, the hash codes and the Dijkstra distances share them.

The main results are:

- **Kruskal:** the generator's sets are exactly the groups of tiles joined by knocked-down
  walls. At completion the knocked-down walls form a spanning tree of R·C − 1 walls, and
  every other wall is as it was.
- **DFS:** a finished search has found the end exactly when the end is reachable. Every
  pop that does not finish the search lowers a measure that starts at R·C and never goes
  below 0, so at most R·C such pops come before the last step. The traced PATH tiles are
  the end's parent chain, a trail through open walls back to the start.
- **BFS:** the search finishes only when the end is reachable, and then it traces the same
  kind of trail. When the end cannot be reached, the empty queue re-seeds the start, so
  the search never finishes.
- **Dijkstra:** the search keeps its distances consistent with the parent links. Like DFS,
  a finished search has visited the end exactly when the end is reachable, and it marks
  the same kind of trail.
- **Wall follower:** every tile the walker marks is reachable, and a walled-in start spins
  forever.
- **Files:** reading back what the writer writes gives the same grid, with every tile
  unvisited and UNVISITED. The reader reports exactly the first bad line, and a later line
  for the same position overwrites an earlier one.

## Model

| member | source | states |
|---|---|---|
| Helpers.Opposite | cynaspe/src/utils/Helpers.java:13-21 | TOP↔BOTTOM and LEFT↔RIGHT; the result differs from the argument |
| Helpers.OppositeInvolutive | cynaspe/src/utils/Helpers.java:13-21 | the opposite of the opposite is the original direction |
| Helpers.OppositeInjective | cynaspe/src/utils/Helpers.java:13-21 | distinct directions have distinct opposites |
| Enums.DirectionIndex | cynaspe/src/enums/WallDirection.java:6-11 | a direction's ordinal, 0..3, in declaration order TOP, RIGHT, BOTTOM, LEFT |
| EdgeModel.NewEdge | cynaspe/src/model/EdgeModel.java:16-22 | a null tile is rejected; otherwise both tiles are stored as given, in order |
| TileModel.Put | cynaspe/src/model/TileModel.java:69-81 | `walls.put(d, b)`: side `d` gets entry `b`, every other entry unchanged |
| TileModel.NewTile | cynaspe/src/model/TileModel.java:32-39 | the new tile has its position, a standing wall on all four sides, is not visited and is UNVISITED |
| TileModel.Facing | cynaspe/src/model/TileModel.java:46-82 | the side that faces the neighbour is decided by the column difference first, then by the row difference; there is none exactly when neither the column difference nor the row difference is ±1; a column difference of ±1 gives RIGHT or LEFT whatever the row difference |
| TileModel.FacingReversed | cynaspe/src/model/TileModel.java:46-99 | seen from the neighbour, the facing side is the opposite one |
| TileModel.SetWall | cynaspe/src/model/MazeModel.java:175-183 | the single-side `addWall(d)`/`removeWall(d)` changes only side `d` and keeps position, visited flag and status |
| TileModel.RemoveWallWith | cynaspe/src/model/TileModel.java:46-82 | clears the facing side of the tile and the opposite side of the neighbour; nothing changes when neither the column difference nor the row difference is ±1 (no facing side) |
| TileModel.HasWallWith | cynaspe/src/model/TileModel.java:84-99 | the flag of the facing side, where a missing entry counts as a wall; false whenever neither the column difference nor the row difference is ±1 (no facing side) |
| TileModel.RemoveWallWithOpens | cynaspe/src/model/TileModel.java:46-99 | after `removeWall(neighbor)` on tiles with a facing side, neither tile has a wall with the other |
| TileModel.GetWallBits | cynaspe/src/io/MazeWriter.java:31-34 | four characters, each '1' exactly when the side in order TOP, RIGHT, BOTTOM, LEFT has a wall |
| TileModel.GetWalls | cynaspe/src/io/MazeReader.java:91-93 | every side gets an entry, true exactly when its bit is '1' |
| TileModel.WallsRoundTrip | cynaspe/src/io/MazeReader.java:86-93 | `getWalls(getWallBits(w)) == w` for a walls map with all four entries |
| TileModel.WallBitsRoundTrip | cynaspe/src/io/MazeReader.java:86-93 | `getWallBits(getWalls(b)) == b` for every bit string the reader accepts |
| Grid.MoveOpposite | cynaspe/src/model/MazeModel.java:128-150 | a step in direction `d` followed by a step in the opposite direction returns to the start |
| Grid.MoveFacing | cynaspe/src/model/MazeModel.java:128-150 | the tile one step away in direction `d` faces back with the opposite side |
| Grid.AccessibleNeighborsUnfold | cynaspe/src/model/MazeModel.java:209-240 | the neighbour list is the results of the looks up, down, left and right, concatenated in that order |
| Grid.AccessibleNeighbors | cynaspe/src/model/MazeModel.java:209-240 | a tile has at most four accessible neighbours, one per direction looked at |
| Grid.OpenMoveByHasWallWith | cynaspe/src/model/MazeModel.java:209-240 | the open-step condition is the bounds check of `getAccessibleNeighbors` plus `!tile.hasWallWith(neighbour)` |
| Grid.OpenMovesMembers | cynaspe/src/model/MazeModel.java:209-240 | a position is listed exactly when it is an in-bounds step through an open side in one of the listed directions |
| Grid.OpenMovesDistinct | cynaspe/src/model/MazeModel.java:209-240 | open moves in distinct directions are listed without repeats |
| Grid.AccessibleNeighborsMembers | cynaspe/src/model/MazeModel.java:209-240 | every accessible neighbour is inside the maze, one open step away, and each such step is listed exactly once |
| Grid.AccessibleNeighborsDistinct | cynaspe/src/model/MazeModel.java:209-240 | no accessible neighbour is listed twice |
| Grid.OpenStepAccessible | cynaspe/src/model/MazeModel.java:209-240 | `b` is an accessible neighbour of `a` exactly when `b` is one open step from `a` |
| Grid.EdgesMembers | cynaspe/src/model/MazeModel.java:91-100 | `getEdges` lists exactly the pairs of an in-bounds tile with the tile above it or to its left |
| Grid.EdgesCount | cynaspe/src/model/MazeModel.java:91-100 | there are 2·R·C − R − C edges |
| Grid.EdgesDistinct | cynaspe/src/model/MazeModel.java:91-100 | no edge is listed twice |
| Grid.EdgesConnect | cynaspe/src/model/MazeModel.java:91-100 | a labelling that agrees across every edge is constant on the grid, so the edges connect every tile |
| Grid.AllPositionsCount | cynaspe/src/model/MazeModel.java:60-73 | a grid of R rows and C columns has exactly R·C tile positions |
| Carving.Crossing | cynaspe/src/utils/KruskalMazeGenerator.java:35 | the side of the edge's first tile that faces its second, which is one step away inside the maze |
| Carving.CarveAt | cynaspe/src/utils/KruskalMazeGenerator.java:35-38 | carving an edge clears the crossed side of its first tile and the opposite side of its second, marks both visited, and changes no other tile |
| Carving.CarveWallAt | cynaspe/src/utils/KruskalMazeGenerator.java:35 | after one more carve, a wall stands exactly when it stood before and the new edge does not cross it |
| Carving.CarveFields | cynaspe/src/utils/KruskalMazeGenerator.java:35-38 | carving keeps positions, statuses and wall entries, and marks the edge's tiles visited |
| Carving.CarvePreserves | cynaspe/src/utils/KruskalMazeGenerator.java:33-39 | a grid that is the initial grid minus the carved walls stays so with the new edge added to the carved ones |
| Carving.CarvedMirrored | cynaspe/src/utils/KruskalMazeGenerator.java:35 | carving keeps every wall the same wall seen from both sides |
| Carving.CarveOpens | cynaspe/src/utils/KruskalMazeGenerator.java:35 | after the carve, neither tile of the edge has a wall with the other |
| Maze.WithWallPairEffect | cynaspe/src/model/MazeModel.java:175-200 | only the tile's side `d` and the neighbour's opposite side change |
| Maze.WithWallPairWellFormed | cynaspe/src/model/MazeModel.java:175-200 | setting a wall pair keeps every tile in place with four entries and leaves the wall as asked on both sides |
| Maze.WithWallPairMirrored | cynaspe/src/model/MazeModel.java:175-200 | setting a wall pair keeps a mirrored grid mirrored |
| Maze.MazeModel.Create | cynaspe/src/model/MazeModel.java:25-32 | rejects exactly a non-positive size; otherwise the grid has fresh, fully walled tiles and mirrored walls |
| Maze.MazeModel.ConstructGrid | cynaspe/src/model/MazeModel.java:60-73 | a rows×cols grid with a fresh tile at each position |
| Maze.MazeModel.FromTiles | cynaspe/src/model/MazeModel.java:40-53 | rejects a null or empty array, a null first row, and null or ragged rows, each with its error; otherwise the size is taken from the array |
| Maze.MazeModel.ResetTileStatus | cynaspe/src/model/MazeModel.java:78-84 | every status becomes UNVISITED; walls, positions and visited flags are unchanged |
| Maze.MazeModel.GetEdges | cynaspe/src/model/MazeModel.java:91-100 | returns the edges in row-major order, for each tile the edge upwards and then the edge leftwards |
| Maze.MazeModel.GetTile | cynaspe/src/model/MazeModel.java:111-116 | the tile at that position, or an error exactly when the position is outside the maze |
| Maze.MazeModel.IsInsideMaze | cynaspe/src/model/MazeModel.java:161-166 | true exactly when the position is inside the grid; in a valid maze the tile stored there has those coordinates |
| Maze.MazeModel.GetNeighbor | cynaspe/src/model/MazeModel.java:128-150 | fails exactly for a null tile; otherwise the tile one step away, facing back, or null exactly when that step leaves the maze |
| Maze.MazeModel.AddWall | cynaspe/src/model/MazeModel.java:175-183 | raises side `d` of the tile and the opposite side of its neighbour; keeps a mirrored maze mirrored |
| Maze.MazeModel.RemoveWall | cynaspe/src/model/MazeModel.java:192-200 | lowers side `d` of the tile and the opposite side of its neighbour; keeps a mirrored maze mirrored |
| Maze.MazeModel.SetWallPair | cynaspe/src/model/MazeModel.java:175-200 | the shared body of `addWall` and `removeWall`: sets side `d` of the tile and the opposite side of its neighbour, if any, and nothing else; keeps a mirrored maze mirrored |
| Maze.MazeModel.SetStatus | cynaspe/src/algorithms/BreadthFirstSolver.java:58 | `tile.status = s`: the tile at `p` gets status `s`, and every wall and position stays as it was |
| Maze.MazeModel.GetAccessibleNeighbors | cynaspe/src/model/MazeModel.java:209-240 | returns the open in-bounds steps, in the order up, down, left, right |
| Maze.MazeModel.Look | cynaspe/src/model/MazeModel.java:212-238 | one look appends the neighbour in direction `d` exactly when it is inside the maze and there is no wall with it |
| Maze.MazeModel.GetStartTile | cynaspe/src/model/MazeModel.java:247-252 | the tile at (0, 0), or an error exactly when the maze has no columns |
| Maze.MazeModel.GetEndTile | cynaspe/src/model/MazeModel.java:259-264 | the tile at (rows − 1, cols − 1), or an error exactly when the maze has no columns |
| UnionFind.RootIsRoot | cynaspe/src/utils/DisjointSet.java:18-23 | the root is registered, is its own parent, and is its own root, so `find(find(x)) == find(x)` |
| UnionFind.CompressedAt | cynaspe/src/utils/DisjointSet.java:18-23 | after `find(x)`, exactly the nodes on `x`'s walk up point at the root, and every other parent is unchanged |
| UnionFind.CompressedRanked | cynaspe/src/utils/DisjointSet.java:18-23 | path compression keeps the parent walk terminating |
| UnionFind.CompressedRoot | cynaspe/src/utils/DisjointSet.java:18-23 | path compression changes no node's root |
| UnionFind.CompressedRootSet | cynaspe/src/utils/DisjointSet.java:18-23 | path compression keeps the set of roots |
| UnionFind.LinkRanked | cynaspe/src/utils/DisjointSet.java:28-30 | linking one root under another keeps the parent walk terminating |
| UnionFind.LinkRoots | cynaspe/src/utils/DisjointSet.java:28-30 | after linking `r1` under `r2`, exactly the nodes of `r1`'s set have root `r2`, and every other root is unchanged |
| UnionFind.LinkRootSet | cynaspe/src/utils/DisjointSet.java:28-30 | linking removes exactly `r1` from the roots |
| UnionFind.DisjointSet.constructor | cynaspe/src/utils/DisjointSet.java:12 | an empty parent map |
| UnionFind.DisjointSet.MakeSet | cynaspe/src/utils/DisjointSet.java:14-16 | the tile becomes its own parent and root; every other parent entry is kept |
| UnionFind.DisjointSet.Find | cynaspe/src/utils/DisjointSet.java:18-23 | returns the root, and the walk to it is compressed; no root changes |
| UnionFind.DisjointSet.Link | cynaspe/src/utils/DisjointSet.java:28-30 | root `r1` is put under the different root `r2`; `r1`'s set joins `r2`'s |
| UnionFind.DisjointSet.Union | cynaspe/src/utils/DisjointSet.java:25-31 | afterwards both tiles share a root; when the roots differed, the first root's set is renamed to the second root and no other tile moves |
| UnionFind.DisjointSet.Connected | cynaspe/src/utils/DisjointSet.java:33-35 | true exactly when the two tiles have the same root; no root changes |
| Kruskal.ShuffledMembers | cynaspe/src/utils/KruskalMazeGenerator.java:19-20 | shuffling keeps the length and exactly the same edges |
| Kruskal.TracksInit | cynaspe/src/utils/KruskalMazeGenerator.java:16-27 | every tile is its own set and nothing is carved, so the sets match the carved walls |
| Kruskal.TracksUnion | cynaspe/src/utils/KruskalMazeGenerator.java:33-39 | uniting the sets of an edge across two sets and carving it keeps the sets matching the carved walls, with one edge more and one set less |
| Kruskal.SetsAreComponents | cynaspe/src/utils/KruskalMazeGenerator.java:29-42 | two tiles are in the same set exactly when the carved walls join them |
| Kruskal.CarvedAtMost | cynaspe/src/utils/KruskalMazeGenerator.java:29-42 | at most R·C − 1 walls are ever knocked down |
| Kruskal.TracksComplete | cynaspe/src/utils/KruskalMazeGenerator.java:44-46 | once every edge is consumed, one set is left and exactly R·C − 1 carved walls join every pair of tiles |
| Kruskal.KruskalMazeGenerator.constructor | cynaspe/src/utils/KruskalMazeGenerator.java:16-27 | the maze's edges in the order of the chosen shuffle, with every tile in a set of its own |
| Kruskal.KruskalMazeGenerator.Join | cynaspe/src/utils/KruskalMazeGenerator.java:33-34 | `merged` is true exactly when the tiles were in different sets, which are then united |
| Kruskal.KruskalMazeGenerator.KnockDown | cynaspe/src/utils/KruskalMazeGenerator.java:35-38 | the edge's wall is removed on both sides and both tiles are marked visited |
| Kruskal.KruskalMazeGenerator.Unite | cynaspe/src/utils/KruskalMazeGenerator.java:33-39 | after the union, the wall is knocked down and the generator again tracks the carved walls |
| Kruskal.KruskalMazeGenerator.Step | cynaspe/src/utils/KruskalMazeGenerator.java:29-42 | returns false and changes nothing once complete; otherwise consumes one edge and carves it exactly when its tiles were in different sets |
| Kruskal.KruskalMazeGenerator.SetsMatchCarvedWalls | cynaspe/src/utils/KruskalMazeGenerator.java:29-42 | at every step, tiles share a set exactly when the carved walls join them, and at most R·C − 1 walls are down |
| Kruskal.KruskalMazeGenerator.SpanningTree | cynaspe/src/utils/KruskalMazeGenerator.java:44-46 | at completion, one root and exactly R·C − 1 knocked-down walls join every pair of tiles; every other wall is as initially |
| Solver.Chain | cynaspe/src/algorithms/Solver.java:15 | the parent chain from a tile starts at that tile |
| Solver.TraceAdvance | cynaspe/src/algorithms/BreadthFirstSolver.java:29-35 | marking `pathStep` and moving to its parent keeps the marked tiles plus the remaining chain equal to the end's chain |
| Solver.ChainToStart | cynaspe/src/algorithms/BreadthFirstSolver.java:53-60 | every reached tile's parent chain ends at the start and is a trail through open walls |
| Solver.ReachedIsReachable | cynaspe/src/algorithms/BreadthFirstSolver.java:53-60 | every reached tile can be walked to from the start |
| Solver.ClosedHoldsReachable | cynaspe/src/algorithms/RecursiveMazeSolver.java:28-50 | a set holding the start and closed under accessible neighbours holds every reachable tile |
| Solver.Undiscovered | cynaspe/src/algorithms/BreadthFirstSolver.java:53-54 | a tile is kept exactly when it is among the neighbours and not yet visited |
| Solver.WithStatuses | cynaspe/src/algorithms/BreadthFirstSolver.java:58 | setting statuses keeps the grid's layout |
| Solver.FrontierTake | cynaspe/src/algorithms/BreadthFirstSolver.java:44-60 | taking a tile off the frontier and adding its undiscovered neighbours keeps the frontier's properties; visited grows by exactly the tiles found |
| Solver.Exhausted | cynaspe/src/algorithms/RecursiveMazeSolver.java:48-50 | a frontier that runs dry leaves the visited tiles closed under accessible neighbours, so the end is unreachable |
| Solver.RecordConsistent | cynaspe/src/algorithms/BreadthFirstSolver.java:55-57 | recording a newly discovered neighbour keeps the parent bookkeeping consistent |
| Solver.AdvanceConsistent | cynaspe/src/algorithms/BreadthFirstSolver.java:30-32 | one tracing step keeps the fields consistent |
| Solver.SolverState.constructor | cynaspe/src/algorithms/Solver.java:15-24 | nothing visited, no parents, not finished, no path step, a count of 0 |
| Solver.SolverState.AddStart | cynaspe/src/algorithms/BreadthFirstSolver.java:39-41 | the start joins the visited tiles, without a parent |
| Solver.SolverState.Discover | cynaspe/src/algorithms/BreadthFirstSolver.java:53-60 | exactly the unvisited accessible neighbours, in order, become visited and VISITED with `current` as parent |
| Solver.SolverState.Visit | cynaspe/src/algorithms/BreadthFirstSolver.java:54-59 | one neighbour is recorded with parent `current` and marked VISITED |
| Solver.SolverState.Record | cynaspe/src/algorithms/BreadthFirstSolver.java:55-57 | `visited.add(n)` and `parentMap.put(n, current)` |
| Solver.SolverState.Finish | cynaspe/src/algorithms/BreadthFirstSolver.java:47-51 | the search stops and the tracing starts at the end |
| Solver.SolverState.GiveUp | cynaspe/src/algorithms/RecursiveMazeSolver.java:48-50 | the search stops with nothing to trace |
| Solver.SolverState.TraceStep | cynaspe/src/algorithms/BreadthFirstSolver.java:29-35 | marks `pathStep` PATH, counts it, moves to its parent, and reports whether there is none |
| Solver.SolverState.Advance | cynaspe/src/algorithms/BreadthFirstSolver.java:31-32 | `pathCount++` and `pathStep = parentMap.get(pathStep)` |
| Solver.SolverState.TracedPath | cynaspe/src/algorithms/BreadthFirstSolver.java:29-35 | once tracing is over, the PATH tiles are the end's parent chain, `pathCount` long, a trail from the end to the start |
| Solver.SolverState.VisitedReachable | cynaspe/src/algorithms/Solver.java:17 | every visited tile can be walked to from the start |
| BreadthFirst.FrontierPoll | cynaspe/src/algorithms/BreadthFirstSolver.java:44-60 | polling the head and enqueueing its undiscovered neighbours keeps the queue a frontier |
| BreadthFirst.BreadthFirstSolver.constructor | cynaspe/src/algorithms/BreadthFirstSolver.java:13-24 | an empty queue and the initial solver fields |
| BreadthFirst.BreadthFirstSolver.Step | cynaspe/src/algorithms/BreadthFirstSolver.java:27-70 | while tracing, one trace step; while searching, seeding and one poll that lowers the progress measure; otherwise true and no change |
| BreadthFirst.BreadthFirstSolver.Trace | cynaspe/src/algorithms/BreadthFirstSolver.java:29-35 | one tracing step, returning whether the trace is over |
| BreadthFirst.BreadthFirstSolver.Search | cynaspe/src/algorithms/BreadthFirstSolver.java:37-68 | seeds an empty queue, then polls; the give-up branch is never reached |
| BreadthFirst.BreadthFirstSolver.Seed | cynaspe/src/algorithms/BreadthFirstSolver.java:38-42 | an empty queue receives the start, which becomes visited |
| BreadthFirst.BreadthFirstSolver.Poll | cynaspe/src/algorithms/BreadthFirstSolver.java:44-63 | the end finishes the search; any other tile's undiscovered neighbours are enqueued behind the rest |
| BreadthFirst.BreadthFirstSolver.FinishedReachable | cynaspe/src/algorithms/BreadthFirstSolver.java:47-51 | a finished search has visited the end, which is reachable from the start |
| BreadthFirst.BreadthFirstSolver.NoReseedWhenReachable | cynaspe/src/algorithms/BreadthFirstSolver.java:38-42 | when the end is reachable, the queue is never empty during the search after the start is in |
| BreadthFirst.BreadthFirstSolver.GetVisitedCount | cynaspe/src/algorithms/BreadthFirstSolver.java:73-75 | the size of `visited`, at most rows·cols |
| BreadthFirst.BreadthFirstSolver.GetPathCount | cynaspe/src/algorithms/BreadthFirstSolver.java:78-80 | the tiles marked so far; once complete, the length of the end's parent chain |
| BreadthFirst.BreadthFirstSolver.IsComplete | cynaspe/src/algorithms/BreadthFirstSolver.java:83-85 | finished with nothing to trace; the PATH tiles are then a trail from the end to the start |
| DepthFirst.FrontierPop | cynaspe/src/algorithms/RecursiveMazeSolver.java:29-45 | popping the top and pushing its undiscovered neighbours keeps the stack a frontier |
| DepthFirst.DepthFirstSolver.constructor | cynaspe/src/algorithms/RecursiveMazeSolver.java:11-17 | the start is pushed and visited; the progress measure (unvisited plus stacked tiles) starts at rows·cols |
| DepthFirst.DepthFirstSolver.Step | cynaspe/src/algorithms/RecursiveMazeSolver.java:20-54 | while tracing, one trace step; while searching, one pop, or giving up on an empty stack; otherwise true and no change; a search step that does not finish lowers the measure of unvisited plus stacked tiles by at least one, so with the constructor's start value at most rows·cols such pops come before the search finishes |
| DepthFirst.DepthFirstSolver.Trace | cynaspe/src/algorithms/RecursiveMazeSolver.java:21-26 | one tracing step, returning whether the trace is over |
| DepthFirst.DepthFirstSolver.Search | cynaspe/src/algorithms/RecursiveMazeSolver.java:28-51 | pops a non-empty stack; an empty stack gives up, and the end is then unreachable |
| DepthFirst.DepthFirstSolver.Pop | cynaspe/src/algorithms/RecursiveMazeSolver.java:29-46 | the end finishes the search; any other tile's undiscovered neighbours are pushed |
| DepthFirst.DepthFirstSolver.Expand | cynaspe/src/algorithms/RecursiveMazeSolver.java:38-45 | the unvisited neighbours are visited and get the popped tile as parent, pushed in order up, down, left, right |
| DepthFirst.DepthFirstSolver.FinishedDecides | cynaspe/src/algorithms/RecursiveMazeSolver.java:28-51 | a finished search has visited the end exactly when the end is reachable |
| DepthFirst.DepthFirstSolver.GetVisitedCount | cynaspe/src/algorithms/RecursiveMazeSolver.java:57-59 | the size of `visited`, at least 1 and at most rows·cols |
| DepthFirst.DepthFirstSolver.GetPathCount | cynaspe/src/algorithms/RecursiveMazeSolver.java:62-64 | once complete, the length of the end's parent chain, or 0 when the end was not found |
| DepthFirst.DepthFirstSolver.IsComplete | cynaspe/src/algorithms/RecursiveMazeSolver.java:67-69 | finished with nothing to trace; PATH tiles are a trail to the start when the end is reachable, and there are none otherwise |
| DijkstraSearch.Lightest | cynaspe/src/algorithms/DjikstraSolver.java:42 | the index of a queued tile of least distance |
| DijkstraSearch.LightestIndex | cynaspe/src/algorithms/DjikstraSolver.java:60 | the scan returns that first least-distance index |
| DijkstraSearch.ImprovableMembers | cynaspe/src/algorithms/DjikstraSolver.java:74-83 | a neighbour is lowered exactly when it is unvisited and farther than `alt` |
| DijkstraSearch.Lowered | cynaspe/src/algorithms/DjikstraSolver.java:77-81 | relaxation never raises a distance |
| DijkstraSearch.RelaxedSeen | cynaspe/src/algorithms/DjikstraSolver.java:74-83 | after relaxation, every accessible neighbour of the visited tile has a finite distance |
| DijkstraSearch.StartConsistent | cynaspe/src/algorithms/DjikstraSolver.java:36-54 | the constructor's fields satisfy the search invariant |
| DijkstraSearch.SkipConsistent | cynaspe/src/algorithms/DjikstraSolver.java:62 | dropping an already visited entry keeps the invariant |
| DijkstraSearch.TakeConsistent | cynaspe/src/algorithms/DjikstraSolver.java:64-65 | visiting a new polled tile keeps the invariant, with that tile still to expand |
| DijkstraSearch.RelaxedConsistent | cynaspe/src/algorithms/DjikstraSolver.java:74-83 | expanding the visited tile leaves every visited tile expanded and no distance larger |
| DijkstraSearch.FinishConsistent | cynaspe/src/algorithms/DjikstraSolver.java:67-72 | polling the end starts the tracing at it |
| DijkstraSearch.ExhaustedUnreachable | cynaspe/src/algorithms/DjikstraSolver.java:86-92 | an empty queue leaves the visited tiles closed under neighbours, so the unvisited end is unreachable |
| DijkstraSearch.ExhaustConsistent | cynaspe/src/algorithms/DjikstraSolver.java:86-92 | running out of tiles starts the tracing at the unreached end |
| DijkstraSearch.TraceOnConsistent | cynaspe/src/algorithms/DjikstraSolver.java:96-99 | a tracing step from a tile with a `previous` keeps the invariant |
| DijkstraSearch.ChainEndsAtStart | cynaspe/src/algorithms/DjikstraSolver.java:100-104 | a chain from a reached tile that ends at a tile without a parent ends at the start |
| DijkstraSearch.TraceEndConsistent | cynaspe/src/algorithms/DjikstraSolver.java:100-107 | the last tracing step marks the start and completes the end's chain, or marks nothing when the end was unreached |
| DijkstraSearch.RelaxedPolled | cynaspe/src/algorithms/DjikstraSolver.java:59-85 | a visit followed by relaxation is one poll of `step()` |
| DijkstraSearch.Unreached | cynaspe/src/algorithms/DjikstraSolver.java:44-49 | every tile of the grid gets distance MAX_VALUE |
| Dijkstra.DijkstraSolver.QueueInDistance | cynaspe/src/algorithms/DjikstraSolver.java:42 | every queued tile has a distance for the comparator |
| Dijkstra.DijkstraSolver.constructor | cynaspe/src/algorithms/DjikstraSolver.java:36-54 | all distances MAX_VALUE except the start at 0, the start alone in the queue, nothing visited |
| Dijkstra.DijkstraSolver.Step | cynaspe/src/algorithms/DjikstraSolver.java:57-112 | one poll, the start of tracing, or one tracing step, with the invariant kept; true exactly when complete |
| Dijkstra.DijkstraSolver.Search | cynaspe/src/algorithms/DjikstraSolver.java:58-93 | a poll when the queue is non-empty; otherwise the tracing starts at the end |
| Dijkstra.DijkstraSolver.Poll | cynaspe/src/algorithms/DjikstraSolver.java:59-85 | removes the first least-distance tile, then skips it or visits it |
| Dijkstra.DijkstraSolver.Visit | cynaspe/src/algorithms/DjikstraSolver.java:64-85 | a new tile is visited and marked VISITED; the end starts the tracing, and any other tile is relaxed |
| Dijkstra.DijkstraSolver.Skip | cynaspe/src/algorithms/DjikstraSolver.java:62 | a visited tile is dropped and nothing else changes |
| Dijkstra.DijkstraSolver.Take | cynaspe/src/algorithms/DjikstraSolver.java:64-65 | `visited.add(current)` and status VISITED |
| Dijkstra.DijkstraSolver.Finish | cynaspe/src/algorithms/DjikstraSolver.java:67-72 | finished and tracing from the end |
| Dijkstra.DijkstraSolver.Relax | cynaspe/src/algorithms/DjikstraSolver.java:74-83 | each unvisited neighbour farther than `alt` gets distance `alt` and parent `current` and is queued |
| Dijkstra.DijkstraSolver.RelaxAll | cynaspe/src/algorithms/DjikstraSolver.java:74-83 | the loop lowers exactly the improvable neighbours, in order |
| Dijkstra.DijkstraSolver.Exhaust | cynaspe/src/algorithms/DjikstraSolver.java:86-92 | finished and tracing from the end, which is unreachable |
| Dijkstra.DijkstraSolver.Trace | cynaspe/src/algorithms/DjikstraSolver.java:95-109 | one tracing step; returns true when the tracing stops |
| Dijkstra.DijkstraSolver.Advance | cynaspe/src/algorithms/DjikstraSolver.java:96-99 | marks PATH and moves to `previous` |
| Dijkstra.DijkstraSolver.Stop | cynaspe/src/algorithms/DjikstraSolver.java:100-108 | marks PATH only at the start, then stops tracing |
| Dijkstra.DijkstraSolver.FinishedDecides | cynaspe/src/algorithms/DjikstraSolver.java:58-93 | a finished search visited the end exactly when the end is reachable |
| Dijkstra.DijkstraSolver.GetVisitedCount | cynaspe/src/algorithms/DjikstraSolver.java:115-117 | the size of `visited`, at most rows·cols |
| Dijkstra.DijkstraSolver.GetPathCount | cynaspe/src/algorithms/DjikstraSolver.java:120-122 | always 0, and once complete with the end reached, fewer than the PATH tiles |
| Dijkstra.DijkstraSolver.IsComplete | cynaspe/src/algorithms/DjikstraSolver.java:125-127 | finished and tracing over; PATH tiles are a trail to the start when the end is reachable, and there are none otherwise |
| WallFollower.Neighbor | cynaspe/src/algorithms/WallFollowerSolver.java:59-70 | the step in direction 0..3 when it is inside the maze, and null otherwise |
| WallFollower.DirectionNumbers | cynaspe/src/algorithms/WallFollowerSolver.java:27-52 | `(d+1)%4`, `(d+3)%4` and `(d+2)%4` turn right, left and around |
| WallFollower.NeighborOpen | cynaspe/src/algorithms/WallFollowerSolver.java:28-29 | `neighbor != null && !hasWallWith` is the side being open |
| WallFollower.Turn | cynaspe/src/algorithms/WallFollowerSolver.java:26-52 | one turn keeps the walker inside the maze |
| WallFollower.Walk | cynaspe/src/algorithms/WallFollowerSolver.java:23-53 | the walker after `n` turns stays inside the maze |
| WallFollower.Positions | cynaspe/src/algorithms/WallFollowerSolver.java:23-24 | the tiles stood on, one per turn, all inside the maze |
| WallFollower.MarkAllEffect | cynaspe/src/algorithms/WallFollowerSolver.java:24 | marking keeps the layout and marks exactly the tiles stood on PATH |
| WallFollower.TurnOpen | cynaspe/src/algorithms/WallFollowerSolver.java:26-52 | a turn moves to an accessible neighbour, or stays exactly when it turns around |
| WallFollower.LeavesWithinTwo | cynaspe/src/algorithms/WallFollowerSolver.java:26-52 | a walker on a tile with an accessible neighbour leaves it within two turns |
| WallFollower.WalledInSpins | cynaspe/src/algorithms/WallFollowerSolver.java:23-53 | a walker on a tile without accessible neighbours never leaves it |
| WallFollower.WalkTrail | cynaspe/src/algorithms/WallFollowerSolver.java:23-53 | the walk gives a trail through open walls back to its start |
| WallFollower.PositionsReachable | cynaspe/src/algorithms/WallFollowerSolver.java:23-56 | every tile marked PATH is reachable from the start |
| WallFollower.SameLayoutTurn | cynaspe/src/algorithms/WallFollowerSolver.java:24-52 | turns depend on walls only, not on the statuses the walk writes |
| WallFollower.WallFollowerSolver.constructor | cynaspe/src/algorithms/WallFollowerSolver.java:14-18 | at the start tile, facing right |
| WallFollower.WallFollowerSolver.Solve | cynaspe/src/algorithms/WallFollowerSolver.java:20-57 | when the end is reached, the marked tiles are exactly the walk's tiles plus the end, and the walker stands on the end |
| WallFollower.WallFollowerSolver.Follow | cynaspe/src/algorithms/WallFollowerSolver.java:23-53 | the loop takes turns, marking each tile, until the end or the fuel runs out |
| WallFollower.WallFollowerSolver.Advance | cynaspe/src/algorithms/WallFollowerSolver.java:24-52 | one pass marks the tile stood on and takes one turn |
| WallFollower.WallFollowerSolver.MarkAndTurn | cynaspe/src/algorithms/WallFollowerSolver.java:24-52 | `current.status = PATH`, then one turn |
| WallFollower.WallFollowerSolver.TakeTurn | cynaspe/src/algorithms/WallFollowerSolver.java:26-52 | right, else forward, else left, else turn around, as `Turn` states |
| WallFollower.WallFollowerSolver.StoodOnReachable | cynaspe/src/algorithms/WallFollowerSolver.java:23-53 | every tile stood on is reachable from the start |
| JavaText.Pieces | cynaspe/src/io/MazeReader.java:46 | cutting at the separator gives at least one piece |
| JavaText.Split | cynaspe/src/io/MazeReader.java:46 | a string without the separator splits into itself alone; otherwise the last part, if any, is not empty |
| JavaText.JoinPieces | cynaspe/src/io/MazeReader.java:46 | joining the pieces gives the string back |
| JavaText.DropTrailingEmpty | cynaspe/src/io/MazeReader.java:46 | a prefix of the pieces that does not end in an empty one |
| JavaText.DropTrailingEmptyDropsEmpty | cynaspe/src/io/MazeReader.java:46 | only empty pieces are dropped |
| JavaText.SplitNoSeparator | cynaspe/src/io/MazeReader.java:66 | no part of `split` holds the separator |
| JavaText.SplitJoin | cynaspe/src/io/MazeReader.java:66 | `split` recovers pieces joined by the separator when none holds it and the last is not empty |
| JavaText.Trim | cynaspe/src/io/MazeReader.java:86 | the result neither starts nor ends with a blank |
| JavaText.TrimKeeps | cynaspe/src/io/MazeReader.java:86 | `trim` leaves a string without outer blanks unchanged |
| JavaText.ParseInt | cynaspe/src/io/MazeReader.java:74-75 | a parsed value lies in the 32-bit range |
| JavaText.NatToStringValue | cynaspe/src/io/MazeWriter.java:28 | the decimal digits read back as the number |
| JavaText.IntToStringNumeral | cynaspe/src/io/MazeWriter.java:34 | `%d` writes a numeral |
| JavaText.ParseIntToString | cynaspe/src/io/MazeReader.java:53-54 | `parseInt` reads back what `%d` writes, for every `int` |
| JavaText.NumeralTrimmed | cynaspe/src/io/MazeReader.java:74-75 | `trim` leaves a numeral unchanged |
| JavaText.NumeralPlain | cynaspe/src/io/MazeWriter.java:34 | a numeral holds no comma and no line end |
| JavaText.Lines | cynaspe/src/io/MazeReader.java:39 | no line holds a line end |
| JavaText.UnlinesSnoc | cynaspe/src/io/MazeWriter.java:34 | writing one more line appends it and "\n" |
| JavaText.Unlines | cynaspe/src/io/MazeWriter.java:28-34 | the text is empty exactly when there are no lines, and otherwise ends with a line end |
| JavaText.LinesUnlines | cynaspe/src/io/MazeReader.java:39 | reading the lines of text written line by line gives those lines back |
| MazeWriter.TileLines | cynaspe/src/io/MazeWriter.java:29-36 | one line per tile, in the same order |
| MazeWriter.Write | cynaspe/src/io/MazeWriter.java:25-41 | the text is the size line and then each tile's line in row-major order, each followed by "\n" |
| MazeWriter.WriteStep | cynaspe/src/io/MazeWriter.java:34 | writing one more tile appends its line |
| MazeWriter.FlattenLength | cynaspe/src/io/MazeWriter.java:29-30 | R rows of C tiles give R·C tiles |
| MazeWriter.FlattenAt | cynaspe/src/io/MazeWriter.java:29-30 | tile (r, c) is number r·C + c in row-major order |
| MazeWriter.FileLineAt | cynaspe/src/io/MazeWriter.java:28-36 | the line of tile (r, c) is line 1 + r·C + c of the file |
| MazeWriter.FileLinesLayout | cynaspe/src/io/MazeWriter.java:28-36 | the file has R·C + 1 lines, the size line first, then the tiles in row-major order |
| MazeWriter.FileLinesPlain | cynaspe/src/io/MazeWriter.java:28-34 | no written line holds a line end |
| MazeWriter.HeaderLinePlain | cynaspe/src/io/MazeWriter.java:28 | the size line holds no line end |
| MazeWriter.TileLinePlain | cynaspe/src/io/MazeWriter.java:34 | a tile's line holds no line end |
| MazeWriter.WrittenLines | cynaspe/src/io/MazeWriter.java:25-41 | reading the written text back line by line gives exactly the lines written |
| MazeReader.ParseSize | cynaspe/src/io/MazeReader.java:46-57 | fails with the wrong-parts or not-integer error; on success, two parts that parse after `trim` |
| MazeReader.ParseTile | cynaspe/src/io/MazeReader.java:66-93 | fails with the line's number and one of four errors; on success, a tile inside the maze with four entries, not visited and UNVISITED |
| MazeReader.Empty | cynaspe/src/io/MazeReader.java:59 | a rows×cols array of nulls |
| MazeReader.PlaceAt | cynaspe/src/io/MazeReader.java:93 | storing a tile changes only its own entry |
| MazeReader.Outcomes | cynaspe/src/io/MazeReader.java:61-93 | one outcome per line; every stored tile lies inside the maze |
| MazeReader.Fill | cynaspe/src/io/MazeReader.java:61-94 | a successful loop leaves the array's shape unchanged |
| MazeReader.FillArray | cynaspe/src/io/MazeReader.java:59-96 | on success, a rows×cols array |
| MazeReader.FirstBad | cynaspe/src/io/MazeReader.java:61-94 | the first bad line from `i` on, or none |
| MazeReader.FillFirstBad | cynaspe/src/io/MazeReader.java:61-94 | the loop throws exactly when a line is bad, and with the error of the first |
| MazeReader.FillLastWins | cynaspe/src/io/MazeReader.java:93 | each entry holds the last tile stored there, or what it held before |
| MazeReader.FillArraySucceeds | cynaspe/src/io/MazeReader.java:59-96 | `read` gets past the size line exactly when the row count is positive, the column count is non-negative and no tile line is bad |
| MazeReader.FillArrayReportsFirstBadLine | cynaspe/src/io/MazeReader.java:61-94 | the first bad tile line is the one reported |
| MazeReader.FillArrayLastLine | cynaspe/src/io/MazeReader.java:93 | a position holds the tile of the last line that names it |
| MazeReader.FillArrayUnnamed | cynaspe/src/io/MazeReader.java:59 | a position no line names stays null |
| MazeReader.HeaderParses | cynaspe/src/io/MazeReader.java:44-57 | the written size line parses back to the same size |
| MazeReader.WallBitsValid | cynaspe/src/io/MazeReader.java:86-90 | written wall bits are accepted and need no trimming |
| MazeReader.TileLineParses | cynaspe/src/io/MazeReader.java:66-93 | a written tile line parses back to a tile at the same position with the same walls, not visited and UNVISITED |
| MazeReader.TileOfLine | cynaspe/src/io/MazeReader.java:61 | every line after the size line of a full file belongs to exactly one tile |
| MazeReader.FileLineTile | cynaspe/src/io/MazeReader.java:61-93 | the written line of tile (r, c) parses back to that tile |
| MazeReader.FileLineParses | cynaspe/src/io/MazeReader.java:61-93 | the written line of tile (r, c) is not bad and names (r, c) only |
| MazeReader.ReadWritten | cynaspe/src/io/MazeReader.java:35-96 | reading back the writer's text gives a same-size array with each tile's position and walls, not visited and UNVISITED |
| MazeReader.ReadBackAt | cynaspe/src/io/MazeReader.java:93 | the entry at (r, c) read back is the tile's own |
| MazeReader.LaterLinesElsewhere | cynaspe/src/io/MazeWriter.java:29-36 | no line written after the line of tile (r, c) names (r, c), so that line is the last word on it |
| MazeReader.Store | cynaspe/src/io/MazeReader.java:93 | `tiles[row][col] = t` on the array itself; no other entry changes |
| MazeReader.Read | cynaspe/src/io/MazeReader.java:35-103 | performs the source's checks in its order and gives the result `Parse` describes |
| MazeReader.ReadArray | cynaspe/src/io/MazeReader.java:59-94 | the loop over one array gives the result `FillArray` describes |
| MazeReader.ReadLine | cynaspe/src/io/MazeReader.java:62-93 | one line is skipped, reports its error, or is stored |
| Spinner.Tick | cynaspe/src/utils/SpinnerText.java:28-36 | a call keeps the frame index below 4 and the count below `skipFrames`; the count drops back to 0 exactly when it reaches `skipFrames` |
| Spinner.TicksRounds | cynaspe/src/utils/SpinnerText.java:28-36 | after calls that complete `k` rounds of `skipFrames` with `m` left over, the frame has advanced `k` times and the count is `m` |
| Spinner.FrameAfterCalls | cynaspe/src/utils/SpinnerText.java:19-36 | a fresh spinner shows frame `(n / skipFrames) % 4` after `n` calls, with count `n % skipFrames` |
| Spinner.SpinnerText.constructor | cynaspe/src/utils/SpinnerText.java:19-21 | `skipFrames = max(1, skip)`, at the first frame with a count of 0 |
| Spinner.SpinnerText.CurrentFrame | cynaspe/src/utils/SpinnerText.java:43-45 | one of the four frames |
| Spinner.SpinnerText.NextFrame | cynaspe/src/utils/SpinnerText.java:28-36 | counts the call, advancing the frame and resetting the count when it reaches `skipFrames`; returns the current frame |
| GraphNodes.GetLabel | cynaspe/bin/algorithms/DfsClass.java:11-13 | the label, which determines the node |
| GraphNodes.Equals | cynaspe/bin/algorithms/DfsClass.java:16-21 | false for null and for other classes; for a node, true exactly when the labels are equal |
| GraphNodes.EqualsEquivalence | cynaspe/bin/algorithms/DfsClass.java:16-21 | `equals` is reflexive, symmetric and transitive on nodes |
| GraphNodes.StringHash | cynaspe/bin/algorithms/DfsClass.java:24-26 | `String.hashCode` with 32-bit wrap-around, an `int` |
| GraphNodes.HashCode | cynaspe/bin/algorithms/DfsClass.java:24-26 | an `int` |
| GraphNodes.HashAgreesWithEquals | cynaspe/bin/algorithms/DfsClass.java:16-26 | equal nodes have equal hash codes |
| GraphNodes.ToString | cynaspe/bin/algorithms/DfsClass.java:29-31 | the label |
| AdjacencyGraph.NeighborsOf | cynaspe/bin/algorithms/Graph.java:28-30 | empty for an unknown node |
| AdjacencyGraph.NodeNeighbors | cynaspe/bin/algorithms/Graph.java:14-16 | `addNode` registers the node and changes no list |
| AdjacencyGraph.EdgeNeighbors | cynaspe/bin/algorithms/Graph.java:18-26 | `addEdge` registers both ends, appends the destination to the source's list and, when undirected, the source to the destination's list |
| AdjacencyGraph.EdgeCounted | cynaspe/bin/algorithms/Graph.java:18-26 | adding an edge again lists it again |
| AdjacencyGraph.EdgeKeepsClosed | cynaspe/bin/algorithms/Graph.java:18-26 | every listed neighbour stays a node |
| AdjacencyGraph.EdgeKeepsSymmetric | cynaspe/bin/algorithms/Graph.java:18-26 | an undirected graph's lists stay symmetric |
| AdjacencyGraph.Graph.constructor | cynaspe/bin/algorithms/Graph.java:10-12 | no nodes, with the given directedness |
| AdjacencyGraph.Graph.AddNode | cynaspe/bin/algorithms/Graph.java:14-16 | `putIfAbsent`, keeping the graph closed and symmetric |
| AdjacencyGraph.Graph.AddEdge | cynaspe/bin/algorithms/Graph.java:18-26 | the lists are updated as `EdgeNeighbors` states, keeping the graph closed and symmetric |
| AdjacencyGraph.Graph.GetNeighbors | cynaspe/bin/algorithms/Graph.java:28-30 | empty unless the node is known |
| AdjacencyGraph.Graph.GetAllNodes | cynaspe/bin/algorithms/Graph.java:32-34 | exactly the known nodes |
| AdjacencyGraph.Graph.ContainsNode | cynaspe/bin/algorithms/Graph.java:36-38 | an unknown node has no neighbours; in a valid graph every neighbour of a known node is known |

## Left out

- File and console I/O: `Files.readAllLines`, `FileWriter` and the printed stack trace of a
  swallowed `IOException` are not modelled. The reader starts from the file's lines and the
  writer produces the file's text.
- `MazeReader.read` ends with `new MazeModel(tiles)`, and that maze may hold null tiles. A
  `MazeModel` here cannot hold null tiles, so the reader's result is the array of optional
  tiles, checked as the constructor checks it.
- `removeWall(neighbor)` and `hasWallWith` do not check that the two tiles are adjacent: a
  column difference of ±1 selects RIGHT or LEFT whatever the row difference, so the tile at row 0,
  column 0 faces the tile at row 5, column 1 on RIGHT. The model keeps this behaviour.
- `OutOfMemoryError` for huge array sizes is not modelled.
- `Collections.shuffle` is a permutation passed in by the caller. Randomness is left out.
- Wall maps are four optional flags rather than a `HashMap`. A missing entry still counts as
  a wall, as `getOrDefault(d, true)` has it.
- The three-argument `TileModel` constructor, the single-side `addWall(d)`/`removeWall(d)`
  and `getWallBits`/`getWalls` are not part of this model's source files. They are modelled
  from their use in `MazeModel`, `MazeReader` and `MazeWriter`.
- The `PriorityQueue` is a sequence scanned for the first entry of least distance. Java's
  heap order among equal distances is left unspecified by its documentation.
- Dijkstra.DijkstraSolver.constructor: requires fewer than `Integer.MAX_VALUE` tiles, so
  that `distance + 1` cannot overflow.
- Dijkstra.DijkstraSolver.constructor, DepthFirst.DepthFirstSolver.constructor and
  WallFollower.WallFollowerSolver.constructor: require a maze with at least one column.
  For a maze without tiles the Java constructor throws from `getStartTile`, and that error
  is not modelled.
- BreadthFirst.BreadthFirstSolver.constructor: requires a maze with at least one column. The
  Java constructor does not check this; its first `step()` then throws from `getStartTile`.
- WallFollower.WallFollowerSolver.Solve: takes at most `fuel` turns, because the Java loop
  need not terminate. When the fuel runs out, the result says the end was not reached.
- `getExecutionTime` and the unused `startTime`/`endTime` fields read the clock and are
  left out.
- `renderMazeConsole` and the controllers and UI are not modelled. The older copies
  `utils/WallFollowerSolver.java` and `utils/Kruskal.java` are not part of this model.
- `Integer.parseInt` accepts only ASCII digits here; Java also accepts other Unicode
  digits. `%d` is written with ASCII digits and without locale grouping. Java's
  `String.format` uses the default locale's digits, so the model matches it only under a
  locale whose digits are ASCII.
- GraphNodes.Equals: compares labels only. The reference-identity shortcut gives the same
  answer.
- GraphNodes.StringHash: hashes one character per code point. Java hashes UTF-16 code
  units, which differ for characters outside the Basic Multilingual Plane.
- `SpinnerText`'s frames are an immutable sequence. The `skipFrames` field is a constant.
