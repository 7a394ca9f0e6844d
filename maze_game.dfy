/**
 * The maze application: loading a maze (from the lines of a text file or as a
 * ready grid), building the id maps and the adjacency map the solver works on,
 * checking and animating the path a solver returns.
 */
module MazeGame {
  import opened Wrappers
  import opened Graphs
  import opened Maze
  import opened GraphBuilder
  import opened PathCheck
  import Solver

  /** What one run of the animation callback does: move the player along the path, or announce success. */
  datatype Event =
    | Moved(node: NodeId, cell: Option<Cell>) // `cell` is None when the id has no entry in `reverse_node_map`
    | Solved

  /** What calling the loaded solver gave: no solver loaded, an exception, or a value. */
  datatype SolverCall = NoSolverLoaded | SolverRaised | SolverReturned(value: Returned)

  /** How `solve_maze` ended. */
  datatype SolveOutcome =
    | NeedsSolver           // a warning: no solver has been loaded
    | SolverFailed          // the solver raised
    | Refused(error: PathError)
    | Animating(first: Event)

  /** The cell the animation draws for a node, if `reverse_node_map` knows it. */
  function CellOf(reverse: map<NodeId, Cell>, node: NodeId): Option<Cell>
  {
    if node in reverse then Some(reverse[node]) else None
  }

  /**
   * On a built maze of more than one cell, the animation draws the id of a
   * passable cell at that very cell.
   */
  lemma DrawnCell(g: Grid, a: Cell)
    requires EndpointsOpen(g) && Start(g) != End(g) && a in OpenCells(g)
    ensures CellOf(ReverseSpec(g), IdOf(g, a.0, a.1)) == Some(a)
  {
    ReverseOfId(g, a);
  }

  /** The event one run of the animation callback produces at position `step`. */
  function StepEvent(path: seq<NodeId>, reverse: map<NodeId, Cell>, step: nat): Event
  {
    if step < |path| then Moved(path[step], CellOf(reverse, path[step])) else Solved
  }

  /**
   * The events the chain of animation callbacks produces from position
   * `step` on: one move per remaining node of the path, in order, then the
   * success message once.
   */
  function AnimationTrace(path: seq<NodeId>, reverse: map<NodeId, Cell>, step: nat): (events: seq<Event>)
    ensures |events| == (if step < |path| then |path| - step else 0) + 1
    ensures events[|events| - 1] == Solved
    ensures forall i :: 0 <= i < |events| - 1 ==>
      step + i < |path| && events[i] == Moved(path[step + i], CellOf(reverse, path[step + i]))
    decreases |path| - step
  {
    if step < |path| then [StepEvent(path, reverse, step)] + AnimationTrace(path, reverse, step + 1)
    else [Solved]
  }

  /**
   * The numbering loops of `prepare_graph_data`: start from the entries of
   * the start cell (id 0) and the end cell (id 1), then hand out 2, 3, ... to
   * the other passable cells in row-major order.
   */
  method NumberCells(g: Grid, rows: nat, cols: nat) returns (nodeMap: map<Cell, NodeId>, reverseNodeMap: map<NodeId, Cell>)
    requires Rectangular(g) && rows == |g| && cols == Cols(g)
    ensures nodeMap == NodeMapSpec(g) && reverseNodeMap == ReverseSpec(g)
  {
    var start := (0, 0);
    var end := (rows - 1, cols - 1);
    nodeMap, reverseNodeMap := map[], map[];
    nodeMap := nodeMap[start := 0];
    reverseNodeMap := reverseNodeMap[0 := start];
    nodeMap := nodeMap[end := 1];
    reverseNodeMap := reverseNodeMap[1 := end];

    var currentId := 2;
    for r := 0 to rows
      invariant Numbering(nodeMap, reverseNodeMap, currentId) == NumberingAt(g, r, 0)
    {
      for c := 0 to cols
        invariant Numbering(nodeMap, reverseNodeMap, currentId) == NumberingAt(g, r, c)
      {
        OtherTest(g, r, c, start, end);
        if g[r][c] == 1 && (r, c) !in [start, end] {
          nodeMap := nodeMap[(r, c) := currentId];
          reverseNodeMap := reverseNodeMap[currentId := (r, c)];
          currentId := currentId + 1;
        }
      }
    }
    NumberingAtBefore(g, rows, 0);
  }

  /**
   * The adjacency loops of `prepare_graph_data`: for every passable cell,
   * store under its id an empty list and append the ids of its passable
   * neighbours, trying up, down, left, right.
   */
  method BuildAdjacency(g: Grid, rows: nat, cols: nat, nodeMap: map<Cell, NodeId>) returns (graph: Graph)
    requires Rectangular(g) && rows == |g| && cols == Cols(g)
    requires nodeMap == NodeMapSpec(g)
    ensures graph == GraphSpec(g)
  {
    graph := map[];
    for r := 0 to rows
      invariant graph == AdjacencyAt(g, r, 0)
    {
      for c := 0 to cols
        invariant graph == AdjacencyAt(g, r, c)
      {
        if g[r][c] == 1 {
          IdLookup(g, nodeMap, r, c);
          var u := nodeMap[(r, c)];
          ghost var before := graph;
          graph := graph[u := []];
          for d := 0 to |Directions|
            invariant graph == before[u := NeighbourIds(g, r, c, Directions[..d])]
          {
            var (dr, dc) := Directions[d];
            var nr, nc := r + dr, c + dc;
            NeighbourIdsStep(g, r, c, d, nr, nc);
            if 0 <= nr < rows && 0 <= nc < cols && g[nr][nc] == 1 {
              IdLookup(g, nodeMap, nr, nc);
              var v := nodeMap[(nr, nc)];
              UpdateTwice(before, u, NeighbourIds(g, r, c, Directions[..d]), graph[u] + [v]);
              graph := graph[u := graph[u] + [v]];
            }
          }
          assert Directions[..|Directions|] == Directions;
        }
      }
    }
    AdjacencyAtBefore(g, rows, 0);
  }

  class MazeGameApp {
    var mazeData: Grid
    var rows: nat
    var cols: nat
    var nodeMap: map<Cell, NodeId>
    var reverseNodeMap: map<NodeId, Cell>
    var graph: Graph
    var pathStep: nat
    var solutionPath: seq<NodeId>

    /** The animation never runs past the end of the path it animates. */
    predicate Valid()
      reads this
    {
      pathStep <= |solutionPath|
    }

    /** The maps describe the maze held in `mazeData`. */
    ghost predicate Built()
      reads this
    {
      Rectangular(mazeData) && rows == |mazeData| && cols == Cols(mazeData) &&
      nodeMap == NodeMapSpec(mazeData) && reverseNodeMap == ReverseSpec(mazeData) &&
      graph == GraphSpec(mazeData)
    }

    /** The state `__init__` sets up before it draws the window and generates a maze. */
    constructor ()
      ensures mazeData == [] && rows == 0 && cols == 0
      ensures nodeMap == map[] && reverseNodeMap == map[] && graph == map[]
      ensures pathStep == 0 && solutionPath == []
      ensures Valid()
    {
      mazeData := [];
      rows := 0;
      cols := 0;
      nodeMap := map[];
      reverseNodeMap := map[];
      graph := map[];
      pathStep := 0;
      solutionPath := [];
    }

    /**
     * `prepare_graph_data`: number the passable cells in row-major order
     * (start 0, end 1, the others from 2), then give every passable cell the
     * list of its passable neighbours up, down, left and right.
     */
    method PrepareGraphData()
      requires Rectangular(mazeData) && rows == |mazeData| && cols == Cols(mazeData)
      modifies this`nodeMap, this`reverseNodeMap, this`graph
      ensures Built()
    {
      nodeMap, reverseNodeMap := NumberCells(mazeData, rows, cols);
      graph := BuildAdjacency(mazeData, rows, cols, nodeMap);
    }

    /**
     * `load_maze_data`: store the grid and its size, refuse it when cell
     * (0, 0) cannot be indexed or either endpoint is a wall (the grid and its
     * size stay stored, the maps keep their old contents), otherwise build
     * the maps.
     */
    method LoadMazeData(data: Grid) returns (err: Option<LoadError>)
      requires Rectangular(data)
      modifies this
      ensures err == EndpointError(data)
      ensures mazeData == data && rows == |data| && cols == Cols(data)
      ensures err == None ==> Built()
      ensures err != None ==>
        nodeMap == old(nodeMap) && reverseNodeMap == old(reverseNodeMap) && graph == old(graph)
      ensures pathStep == old(pathStep) && solutionPath == old(solutionPath)
    {
      mazeData := data;
      rows := |data|;
      cols := if rows > 0 then |data[0]| else 0;
      if rows == 0 || cols == 0 {
        return Some(EmptyGrid);
      }
      if mazeData[0][0] != 1 {
        return Some(StartBlocked);
      }
      if mazeData[rows - 1][cols - 1] != 1 {
        return Some(EndBlocked);
      }
      PrepareGraphData();
      return None;
    }

    /**
     * `load_map_file` on the lines of the chosen file: read the rows, then
     * load them. A file that yields no rows or rows of unequal length changes
     * nothing.
     */
    method LoadMapFile(lines: seq<string>) returns (err: Option<LoadError>)
      modifies this
      ensures MazeFromLines(lines).Err? ==>
        err == Some(MazeFromLines(lines).error) &&
        mazeData == old(mazeData) && rows == old(rows) && cols == old(cols) &&
        nodeMap == old(nodeMap) && reverseNodeMap == old(reverseNodeMap) && graph == old(graph)
      ensures MazeFromLines(lines).Ok? ==>
        err == EndpointError(MazeFromLines(lines).value) && mazeData == MazeFromLines(lines).value &&
        rows == |MazeFromLines(lines).value| && cols == Cols(MazeFromLines(lines).value)
      ensures err != None ==>
        nodeMap == old(nodeMap) && reverseNodeMap == old(reverseNodeMap) && graph == old(graph)
      ensures err == None <==> MazeFromLines(lines).Ok? && EndpointsOpen(MazeFromLines(lines).value)
      ensures err == None ==> Built()
      ensures pathStep == old(pathStep) && solutionPath == old(solutionPath)
    {
      var parsed := ParseMapLines(lines);
      if parsed.Err? {
        return Some(parsed.error);
      }
      err := LoadMazeData(parsed.value);
    }

    /**
     * `solve_maze`, given what calling the loaded solver on `graph` gave:
     * without a solver, or when it raises, nothing changes; a value that the
     * path check refuses changes nothing either; an accepted path becomes the
     * solution and its animation starts.
     */
    method SolveMaze(call: SolverCall) returns (outcome: SolveOutcome)
      requires Valid()
      modifies this
      ensures Valid()
      ensures call.NoSolverLoaded? ==> outcome == NeedsSolver
      ensures call.SolverRaised? ==> outcome == SolverFailed
      ensures call.SolverReturned? && Validation(old(graph), call.value).Err? ==>
        outcome == Refused(Validation(old(graph), call.value).error)
      ensures call.SolverReturned? && Validation(old(graph), call.value).Ok? ==>
        solutionPath == call.value.nodes && pathStep == 1 &&
        outcome == Animating(Moved(solutionPath[0], CellOf(reverseNodeMap, solutionPath[0])))
      ensures !outcome.Animating? ==> solutionPath == old(solutionPath) && pathStep == old(pathStep)
      ensures mazeData == old(mazeData) && rows == old(rows) && cols == old(cols)
      ensures nodeMap == old(nodeMap) && reverseNodeMap == old(reverseNodeMap) && graph == old(graph)
    {
      if call.NoSolverLoaded? {
        return NeedsSolver;
      }
      if call.SolverRaised? {
        return SolverFailed;
      }
      var checked := ValidatePath(graph, call.value);
      if checked.Err? {
        return Refused(checked.error);
      }
      solutionPath := checked.value;
      var first := StartAnimation();
      return Animating(first);
    }

    /** `start_animation`: rewind to the first node and run the first animation step. */
    method StartAnimation() returns (event: Event)
      modifies this`pathStep
      ensures event == StepEvent(solutionPath, reverseNodeMap, 0)
      ensures pathStep == if solutionPath == [] then 0 else 1
      ensures Valid()
    {
      pathStep := 0;
      event := AnimateStep();
    }

    /**
     * `animate_step`: while the path has nodes left, move to the next one
     * (drawn only when `reverse_node_map` knows its cell) and advance;
     * otherwise report success and stay put.
     */
    method AnimateStep() returns (event: Event)
      requires Valid()
      modifies this`pathStep
      ensures Valid()
      ensures event == StepEvent(solutionPath, reverseNodeMap, old(pathStep))
      ensures event.Moved? <==> old(pathStep) < |solutionPath|
      ensures event.Moved? ==>
        event.node == solutionPath[old(pathStep)] && (event.cell.Some? <==> event.node in reverseNodeMap)
      ensures event.Moved? && event.cell.Some? ==> event.cell.value == reverseNodeMap[event.node]
      ensures pathStep == if old(pathStep) < |solutionPath| then old(pathStep) + 1 else old(pathStep)
    {
      if pathStep < |solutionPath| {
        var node := solutionPath[pathStep];
        var cell: Option<Cell> := None;
        if node in reverseNodeMap {
          cell := Some(reverseNodeMap[node]);
        }
        event := Moved(node, cell);
        pathStep := pathStep + 1;
      } else {
        event := Solved;
      }
    }

    /**
     * The chain of timer callbacks `animate_step` schedules for itself, run to
     * the end: one event per remaining node of the path, then the success
     * message.
     */
    method RunAnimation() returns (events: seq<Event>)
      requires Valid()
      modifies this`pathStep
      ensures events == AnimationTrace(solutionPath, reverseNodeMap, old(pathStep))
      ensures pathStep == |solutionPath| && Valid()
    {
      events := [];
      while pathStep < |solutionPath|
        invariant Valid() && old(pathStep) <= pathStep
        invariant |events| == pathStep - old(pathStep)
        invariant forall i :: 0 <= i < |events| ==>
          events[i] == Moved(solutionPath[old(pathStep) + i], CellOf(reverseNodeMap, solutionPath[old(pathStep) + i]))
        decreases |solutionPath| - pathStep
      {
        var event := AnimateStep();
        events := events + [event];
      }
      var last := AnimateStep();
      events := events + [last];
    }

    /**
     * `solve_maze` with the breadth-first solver loaded: the shortest path
     * is accepted and animated; when the end cannot be reached the solver's
     * empty list is refused for its endpoints.
     */
    method SolveWithBundledSolver() returns (outcome: SolveOutcome)
      requires Valid()
      modifies this
      ensures Valid()
      ensures outcome.Animating? || outcome == Refused(BadEndpoints)
      ensures outcome.Animating? ==>
        IsSolution(graph, solutionPath) && Distinct(solutionPath) &&
        forall q :: IsSolution(graph, q) ==> |solutionPath| <= |q|
      ensures outcome == Refused(BadEndpoints) ==>
        solutionPath == old(solutionPath) && forall q :: !IsSolution(graph, q)
      ensures outcome.Animating? ==> pathStep == 1
      ensures !outcome.Animating? ==> pathStep == old(pathStep)
      ensures mazeData == old(mazeData) && rows == old(rows) && cols == old(cols)
      ensures nodeMap == old(nodeMap) && reverseNodeMap == old(reverseNodeMap) && graph == old(graph)
    {
      var path: seq<NodeId>;
      ghost var enqueued: seq<NodeId>;
      path, enqueued := Solver.FindShortestPath(graph);
      ValidationAccepts(graph, path);
      outcome := SolveMaze(SolverReturned(ListOf(path)));
    }
  }

  /** Ids u and v name passable cells of the built maze one step apart. */
  ghost predicate MoveOnGrid(g: Grid, u: NodeId, v: NodeId)
  {
    u in ReverseSpec(g) && v in ReverseSpec(g) &&
    ReverseSpec(g)[u] in OpenCells(g) && ReverseSpec(g)[v] in OpenCells(g) &&
    Adjacent(ReverseSpec(g)[u], ReverseSpec(g)[v])
  }

  /**
   * On a maze of more than one cell, an accepted path is animated through
   * passable cells only, from the start cell to the end cell, each move one
   * step up, down, left or right.
   */
  lemma SolutionAnimation(g: Grid, p: seq<NodeId>)
    requires EndpointsOpen(g) && Start(g) != End(g)
    requires IsSolution(GraphSpec(g), p)
    ensures |p| > 1 && forall i :: 0 <= i < |p| - 1 ==> MoveOnGrid(g, p[i], p[i + 1])
    ensures p[0] in ReverseSpec(g) && ReverseSpec(g)[p[0]] == Start(g)
    ensures p[|p| - 1] in ReverseSpec(g) && ReverseSpec(g)[p[|p| - 1]] == End(g)
    ensures forall i :: 0 <= i < |p| ==>
      p[i] in ReverseSpec(g) && AnimationTrace(p, ReverseSpec(g), 0)[i] == Moved(p[i], Some(ReverseSpec(g)[p[i]]))
  {
    ReverseEntries(g);
    assert |p| > 1;
    forall i | 0 <= i < |p| - 1
      ensures MoveOnGrid(g, p[i], p[i + 1])
    {
      assert p[i + 1] in Successors(GraphSpec(g), p[i]);
      EdgeCells(g, p[i], p[i + 1]);
    }
    forall i | 0 <= i < |p|
      ensures p[i] in ReverseSpec(g)
    {
      if i < |p| - 1 {
        assert MoveOnGrid(g, p[i], p[i + 1]);
      }
    }
  }

  /**
   * On a 1x1 maze the start cell is the end cell: id 0 has no adjacency list,
   * so no walk leaves it, and the path check refuses every list.
   */
  lemma SingleCellUnsolvable(g: Grid, p: seq<NodeId>)
    requires EndpointsOpen(g) && Start(g) == End(g)
    ensures !IsSolution(GraphSpec(g), p)
    ensures Validation(GraphSpec(g), ListOf(p)).Err?
  {
    SingleCellMaps(g);
    ValidationAccepts(GraphSpec(g), p);
  }
}
