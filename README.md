# Maze solver: a verified model of the grid-to-graph pipeline and the breadth-first solver

This project models the core of a small maze application. The user loads a
maze, a grid of 0/1 ints in which 1 is a passable cell. The application turns
it into a graph and hands the graph to a pathfinding routine. It checks the
path that comes back and replays it as an animation. The bundled routine is a
breadth-first search.

The modules follow the program's structure:

- `Wrappers`: `Option` and `Result`.
- `Graphs`: node ids, adjacency maps, walks and solutions. The start cell is
  id 0 and the end cell id 1. A node without an entry has no neighbours, as
  `graph.get(u, [])` reads it.
- `Maze`: the grid, reading a maze from the lines of a text file, and the
  endpoint check of `load_maze_data`.
- `GraphBuilder`: the id scheme and adjacency map of `prepare_graph_data` in
  closed form, and the lemmas about them:
  - id 0 for the start, id 1 for the end, 2, 3, … for the other passable
    cells in row-major order;
  - the two id maps are inverse bijections;
  - each list holds the passable neighbours up, down, left, right;
  - the graph is undirected and has no loops;
  - the special case of the 1x1 grid.

  It also holds the loop traces `NumberingAt` and `AdjacencyAt`, which follow
  the building loops cell by cell, with lemmas tying them to the closed form.
- `PathCheck`: the validation `solve_maze` applies to the returned value.
- `Solver`: `find_shortest_path` as an imperative method. It is proved to
  return a distinct shortest solution, or `[]` exactly when id 1 cannot be
  reached.
- `MazeGame`: the class `MazeGameApp` with the fields the application updates
  in place, and the building loops of `prepare_graph_data` as methods:
  - `load_map_file` and `load_maze_data`;
  - `solve_maze`, given what calling the loaded solver gave;
  - `start_animation` and `animate_step`, a tick that returns an event;
  - the chain of timer callbacks run to its end;
  - a lemma showing that an accepted path is animated through adjacent
    passable cells, from the start cell to the end cell.

Behaviour of the code worth noting:

- `load_maze_data` stores the grid, `rows` and `cols` before it checks the
  endpoints. A refused grid therefore stays stored, while the id maps and the
  graph keep their old contents.
- An empty path and a path with wrong endpoints get one error, `BadEndpoints`.
- A move from an id that has no entry in the graph fails on the lookup. It is
  reported as `UnknownNode`, apart from `IllegalMove`.
- On a 1x1 grid the start cell is also the end cell. The end's id 1 overwrites
  the start's 0 in `node_map`, so `graph` has key 1 but no key 0. No walk
  leaves id 0, and every returned path is refused.
- An id missing from `reverse_node_map` is not drawn, but it still counts as
  an animation step.
- The path check does not demand a shortest path. Shortest paths are a
  property proved of the bundled solver.

## Model

| member | source | states |
|---|---|---|
| Maze.ParseRow | maze_game.py:98 | the row read from a line holds only 0s and 1s and is no longer than the line |
| Maze.ParseRowEmpty | maze_game.py:98-100 | a line yields no row exactly when none of its characters is '0' or '1' |
| Maze.ParseRowAppend | maze_game.py:98 | reading a line is piecewise: the row of a concatenation is the concatenation of the rows |
| Maze.ParseRowText | maze_game.py:98 | reading the text of a row of bits gives the row back |
| Maze.ParseRowNewline | maze_game.py:97-98 | a trailing newline does not change the row read |
| Maze.NonEmptyRows | maze_game.py:96-100 | every collected row is non-empty and holds only bits, and there are no more rows than lines |
| Maze.NonEmptyRowsNone | maze_game.py:96-100 | no rows are collected exactly when no line yields a row |
| Maze.NonEmptyRowsAppend | maze_game.py:96-100 | reading is piecewise over the lines: the rows of two runs of lines joined are the rows of each, in order |
| Maze.NonEmptyRowsLine | maze_game.py:97-100 | a single line gives its row, or no row when the row is empty |
| Maze.NonEmptyRowsText | maze_game.py:96-100 | the lines of a grid without empty rows read back as that grid |
| Maze.MazeFromLines | maze_game.py:96-106 | an accepted file yields exactly the rows read from its lines, a non-empty rectangular grid of bits; a file is refused for unequal rows exactly when some row read differs in length from the first; it is refused as empty exactly when no line yields a row |
| Maze.MazeFromText | maze_game.py:96-106 | round trip: the text of a non-empty rectangular grid of bits reads back as that grid |
| Maze.ParseMapLines | maze_game.py:96-106 | the reading loop and the width loop compute the reader's verdict: the grid, an empty-file error or an unequal-rows error |
| Maze.EndpointError | maze_game.py:116-125 | the load fails exactly when cell (0, 0) cannot be indexed, or is not 1, or the end cell is not 1; no error exactly when both endpoints are passable |
| GraphBuilder.IdOf | maze_game.py:138-149 | the closed-form id: 1 exactly for the end cell, 0 exactly for the start cell when it is not the end, and 2 or more for every other cell |
| GraphBuilder.NodeMapIds | maze_game.py:135-149 | the finished `node_map` has a key for every passable cell, holding its closed-form id, and only passable cells as keys when both endpoints are open |
| GraphBuilder.IdLookup | maze_game.py:155-162 | the id the adjacency loop looks up for a passable cell exists and is its closed-form id |
| GraphBuilder.IdsRowMajor | maze_game.py:135-149 | the start cell is 0 and the end cell 1; every other passable cell gets an id from 2 to NodeCount - 1, and a later cell in row-major order a larger one |
| GraphBuilder.IdBounds | maze_game.py:143-149 | every passable cell's id lies in 0 .. NodeCount - 1 |
| GraphBuilder.IdInjective | maze_game.py:143-149 | distinct passable cells get distinct ids |
| GraphBuilder.ReverseEntries | maze_game.py:139-149 | the finished `reverse_node_map` has exactly the ids 0 .. NodeCount - 1: 0 names the start, 1 the end, and 2 + rank names the counter cell of that rank |
| GraphBuilder.NodeMapsInverse | maze_game.py:138-149 | on a grid of more than one cell, `node_map` covers the passable cells and `reverse_node_map` the ids 0 .. NodeCount - 1, and each undoes the other |
| GraphBuilder.NeighbourIdsHas | maze_game.py:158-163 | an id is in a neighbour list exactly when one of the tried steps reaches a passable cell with that id |
| GraphBuilder.NeighbourIdsFrom | maze_game.py:158-163 | every listed id belongs to an adjacent passable cell |
| GraphBuilder.NeighbourIdsAdjacent | maze_game.py:158-163 | a passable cell's list holds another passable cell's id exactly when the two cells are adjacent |
| GraphBuilder.NeighbourIdsStep | maze_game.py:158-163 | trying one direction appends the neighbour's id exactly when the neighbour is inside the grid and holds 1 |
| GraphBuilder.GraphEntries | maze_game.py:152-163 | the finished `graph` has exactly the ids of the passable cells as keys, and each list is the ids of the passable neighbours up, down, left, right |
| GraphBuilder.GraphSymmetric | maze_game.py:158-163 | the finished `graph` is undirected: v is listed for u exactly when u is listed for v, and no id lists itself |
| GraphBuilder.EdgeCells | maze_game.py:152-163 | on a grid of more than one cell, both ends of an edge are passable cells one step apart |
| GraphBuilder.ReverseOfId | maze_game.py:138-149 | on a grid of more than one cell, `reverse_node_map` takes a passable cell's id back to the cell |
| GraphBuilder.SingleCellMaps | maze_game.py:135-163 | on a 1x1 grid: `node_map` = {(0,0): 1}, `reverse_node_map` = {0: (0,0), 1: (0,0)}, `graph` = {1: []} |
| GraphBuilder.NumberingAtBefore | maze_game.py:143-149 | the numbering loop's state after every cell before (r, c) is the closed-form prefix of both maps, with the next id 2 + the number of counter cells seen |
| GraphBuilder.AdjacencyAtBefore | maze_game.py:152-163 | the adjacency loop's `graph` after every cell before (r, c) is the closed-form prefix of the adjacency map |
| GraphBuilder.NumberingStep | maze_game.py:146-149 | scanning a counter cell adds it to both maps under the next id and advances the counter; any other cell changes nothing |
| GraphBuilder.AdjacencyStep | maze_game.py:154-163 | scanning a passable cell adds its list under its id; any other cell changes nothing |
| MazeGame.NumberCells | maze_game.py:131-149 | the numbering loops leave `node_map` and `reverse_node_map` equal to the closed-form id maps |
| MazeGame.BuildAdjacency | maze_game.py:151-163 | the adjacency loops leave `graph` equal to the closed-form adjacency map |
| MazeGame.MazeGameApp.constructor | maze_game.py:14-24 | the initial state: an empty maze, empty maps, no solution, step 0 |
| MazeGame.MazeGameApp.PrepareGraphData | maze_game.py:130-163 | the three maps are rebuilt to describe the stored maze |
| MazeGame.MazeGameApp.LoadMazeData | maze_game.py:116-127 | the grid and its size are stored first; the error is the endpoint check's; on success the maps describe the grid, on failure they keep their old contents; the animation state is untouched |
| MazeGame.MazeGameApp.LoadMapFile | maze_game.py:96-113 | a file that does not read as a grid changes nothing and reports why; otherwise the grid and its size are stored; it succeeds exactly when the file reads as a grid with both endpoints open, and on any failure the id maps and the graph keep their old contents |
| PathCheck.CheckMoves | maze_game.py:240-242 | the move check accepts exactly when every move is an edge; otherwise it names the first bad move, as a lookup failure exactly when its first id has no entry |
| PathCheck.Validation | maze_game.py:233-242 | only a value that is not a list gets the not-a-list error; an accepted value is the returned list itself, non-empty, from id 0 to id 1, with every move an edge |
| PathCheck.ValidationAccepts | maze_game.py:233-244 | a returned list is accepted exactly when it is a walk from id 0 to id 1, and is then kept unchanged |
| PathCheck.ValidationRefuses | maze_game.py:233-242 | endpoints are checked before moves; a list never gets the not-a-list error; a move error names an index before which every move is an edge |
| PathCheck.ValidatePath | maze_game.py:233-244 | the validation loop computes the validation verdict, stopping at the first bad move |
| MazeGame.MazeGameApp.SolveMaze | maze_game.py:224-248 | no solver or a raising solver changes nothing; a refused value changes nothing and reports the validation error; an accepted path becomes the solution and the first animation step runs; the maze and maps never change |
| MazeGame.MazeGameApp.StartAnimation | maze_game.py:251-253 | the step is reset to 0 and the first tick's event is returned |
| MazeGame.MazeGameApp.AnimateStep | maze_game.py:255-273 | a tick before the end moves to the node at the current step, with its cell exactly when `reverse_node_map` has the id and then that entry, and advances the step by one; at the end it reports success and changes nothing |
| MazeGame.DrawnCell | maze_game.py:138-149 | on a built maze of more than one cell, the id of a passable cell is drawn at that very cell |
| MazeGame.AnimationTrace | maze_game.py:255-273 | the callback chain yields one move per remaining node, in order, then exactly one success event |
| MazeGame.MazeGameApp.RunAnimation | maze_game.py:255-273 | running the timer chain to its end yields the animation trace from the current step and leaves the step at the path's length |
| MazeGame.SolutionAnimation | maze_game.py:244-261 | on a grid of more than one cell, an accepted path has at least two nodes and moves between adjacent passable cells from the start cell to the end cell, and every node is drawn at its cell |
| MazeGame.SingleCellUnsolvable | maze_game.py:236-242 | on a 1x1 grid no list is a solution and the path check refuses every list |
| MazeGame.MazeGameApp.SolveWithBundledSolver | maze_game.py:230-245 | with the breadth-first solver loaded, a solvable maze is animated along a shortest path that repeats no node; otherwise the empty list is refused for its endpoints and no solution exists; the step becomes 1 on acceptance and is kept on refusal; the maze, its size and the maps never change |
| Solver.FindShortestPath | my_solver.py:3-28 | a non-empty result is a walk from 0 to 1 that repeats no node and is no longer than any solution; `[]` only when no walk from 0 reaches 1; every queued node is reachable from 0 and none is queued twice, and when the result is `[]` every reachable node was queued |
| Solver.ExpandNeighbours | my_solver.py:11-26 | queueing the unvisited neighbours of the current node keeps the search invariant, with the current node now expanded, and either visits a new node, shrinking the unvisited set that bounds the search, or leaves the queue and the visited set as they were |
| Solver.Enqueue | my_solver.py:23-26 | marking a new neighbour visited and queueing it with the path through the current node keeps the search invariant |
| Solver.ExtendPath | my_solver.py:25 | the path to a new neighbour is a walk from 0 to it that repeats no node |
| Solver.SearchStart | my_solver.py:8-12 | the initial queue and visited set satisfy the search invariant |
| Solver.Shortest | my_solver.py:14-19 | when id 1 is taken off the queue, its path is a solution no longer than any other |
| Solver.Unreachable | my_solver.py:14-28 | when the queue runs dry, no walk from 0 reaches 1 |
| Solver.WalkReached | my_solver.py:14-26 | every walk from 0 no longer than the current layer ends at a visited node whose path is no longer than the walk |

## Left out

- Window, buttons, canvas drawing, cell size and colours are not modelled. They are UI code and include float arithmetic. An animation step returns the node and the cell to draw instead.
- File dialogs and file reading are not modelled. The reader works on the lines of the file.
- Loading a solver from a file with `importlib` is not modelled, because it runs arbitrary code. `solve_maze` takes what calling the solver gave as a parameter: nothing loaded, an exception, or a value. The bundled breadth-first solver is plugged in by `SolveWithBundledSolver`.
- A loaded solver could change the graph it receives. The model treats the graph as unchanged by the call.
- A returned list whose elements are not ints is not modelled. `Returned` is a list of ids or a value that is not a list.
- Random maze generation, called by `__init__` and by a button, is not modelled, because it depends on `random.shuffle`. The constructor stops at the fields `__init__` sets.
- The `root.after` timer is modelled as a tick method plus `RunAnimation`, which runs the callback chain to its end. A second chain started by a new solve while one is running is not modelled.
- Message boxes and error message texts are left out. Errors are values of `LoadError`, `PathError` or `SolveOutcome`.
- MazeGame.MazeGameApp.LoadMazeData: requires a rectangular grid, so a ragged grid whose last row is shorter than the first is not modelled failing on the index. Its callers only pass rectangular grids: the file reader refuses unequal rows and the generator builds a square.
- MazeGame.MazeGameApp.PrepareGraphData: the building loops run on local values and the three fields are assigned at the end. The adjacency loop reads `node_map` (maze_game.py:155, 162); `BuildAdjacency` reads the local map instead, which holds the value the field would hold at that point. No step can fail.
- MazeGame.BuildAdjacency: the nested bounds test and passability test are written as one condition.
- Solver.FindShortestPath: the queue, the `deque`, is a sequence, and paths are values. The ghost out-parameter `enqueued` lists the queued nodes in queueing order: each is reachable from id 0, none occurs twice, and when the result is `[]` every reachable node is among them.
