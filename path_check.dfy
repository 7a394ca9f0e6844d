/**
 * The validation `solve_maze` applies to what the solver returns before it animates
 * it: the value must be a list, must start at the start id and end at the end
 * id, and every consecutive pair must be an edge of the graph.
 */
module PathCheck {
  import opened Wrappers
  import opened Graphs

  /** What the solver handed back: a list of ids, or some value that is not a list. */
  datatype Returned = ListOf(nodes: seq<NodeId>) | NotList

  /** Why a returned path is refused. */
  datatype PathError =
    | NotAList            // the value is not a list
    | BadEndpoints        // empty, or not starting at 0, or not ending at 1
    | UnknownNode(at: nat) // the node at this index has no entry in the graph (a key error)
    | IllegalMove(at: nat) // the node after this index is not among its neighbours

  /** `b` is listed among the neighbours of `a`, which has an entry in the graph. */
  predicate IsEdge(graph: Graph, a: NodeId, b: NodeId)
  {
    a in graph && b in graph[a]
  }

  /** Every move from index `i` on is an edge. */
  predicate MovesFrom(graph: Graph, p: seq<NodeId>, i: nat)
  {
    forall j :: i <= j < |p| - 1 ==> IsEdge(graph, p[j], p[j + 1])
  }

  /**
   * The move check from index `i` on: the first move that is not an edge is
   * reported, as a key error when its first node has no entry in the graph.
   */
  function CheckMoves(graph: Graph, p: seq<NodeId>, i: nat): (r: Result<seq<NodeId>, PathError>)
    ensures r.Ok? <==> MovesFrom(graph, p, i)
    ensures r.Ok? ==> r.value == p
    ensures r.Err? ==> (r.error.UnknownNode? || r.error.IllegalMove?)
    ensures r.Err? ==>
      var j := r.error.at;
      i <= j < |p| - 1 && !IsEdge(graph, p[j], p[j + 1]) &&
      (r.error.UnknownNode? <==> p[j] !in graph) &&
      forall k :: i <= k < j ==> IsEdge(graph, p[k], p[k + 1])
    decreases |p| - i
  {
    if i + 1 >= |p| then Ok(p)
    else if p[i] !in graph then assert !IsEdge(graph, p[i], p[i + 1]); Err(UnknownNode(i))
    else if p[i + 1] !in graph[p[i]] then Err(IllegalMove(i))
    else CheckMoves(graph, p, i + 1)
  }

  /**
   * The verdict of `solve_maze` on what the solver returned: only a value
   * that is not a list is refused as such, and an accepted value is the
   * returned list itself, from the start id to the end id, every move an edge.
   */
  function Validation(graph: Graph, returned: Returned): (r: Result<seq<NodeId>, PathError>)
    ensures r == Err(NotAList) <==> returned.NotList?
    ensures r.Ok? ==>
      returned.ListOf? && r.value == returned.nodes &&
      |r.value| > 0 && r.value[0] == StartId && r.value[|r.value| - 1] == EndId && MovesFrom(graph, r.value, 0)
  {
    match returned
    case NotList => Err(NotAList)
    case ListOf(p) =>
      if p == [] || p[0] != StartId || p[|p| - 1] != EndId then Err(BadEndpoints)
      else CheckMoves(graph, p, 0)
  }

  /**
   * A list is accepted exactly when it is a walk from the start id to the end
   * id, and then it is kept as it is.
   */
  lemma ValidationAccepts(graph: Graph, p: seq<NodeId>)
    ensures Validation(graph, ListOf(p)).Ok? <==> IsSolution(graph, p)
    ensures Validation(graph, ListOf(p)).Ok? ==> Validation(graph, ListOf(p)).value == p
  {
    if p != [] && p[0] == StartId && p[|p| - 1] == EndId {
      var r := CheckMoves(graph, p, 0);
      if IsWalk(graph, p) {
        forall j | 0 <= j < |p| - 1
          ensures IsEdge(graph, p[j], p[j + 1])
        {
          assert p[j + 1] in Successors(graph, p[j]);
        }
      }
      if r.Ok? {
        forall j | 0 <= j < |p| - 1
          ensures p[j + 1] in Successors(graph, p[j])
        {
          assert IsEdge(graph, p[j], p[j + 1]);
        }
      }
    }
  }

  /**
   * A refused list names the reason: the endpoints are checked before any
   * move, and a move error points at the first bad move.
   */
  lemma ValidationRefuses(graph: Graph, p: seq<NodeId>)
    ensures Validation(graph, ListOf(p)) == Err(BadEndpoints) <==>
      p == [] || p[0] != StartId || p[|p| - 1] != EndId
    ensures Validation(graph, ListOf(p)) != Err(NotAList)
    ensures forall j: nat :: Validation(graph, ListOf(p)) == Err(UnknownNode(j)) ==>
      j < |p| - 1 && p[j] !in graph && MovesBefore(graph, p, j)
    ensures forall j: nat :: Validation(graph, ListOf(p)) == Err(IllegalMove(j)) ==>
      j < |p| - 1 && p[j] in graph && p[j + 1] !in graph[p[j]] && MovesBefore(graph, p, j)
  {
  }

  /** Every move before index `j` is an edge. */
  predicate MovesBefore(graph: Graph, p: seq<NodeId>, j: nat)
    requires j < |p|
  {
    forall k :: 0 <= k < j ==> IsEdge(graph, p[k], p[k + 1])
  }

  /** The validation loop of `solve_maze`, run on the returned value. */
  method ValidatePath(graph: Graph, returned: Returned) returns (result: Result<seq<NodeId>, PathError>)
    ensures result == Validation(graph, returned)
  {
    if returned.NotList? {
      return Err(NotAList);
    }
    var p := returned.nodes;
    if p == [] || p[0] != StartId || p[|p| - 1] != EndId {
      return Err(BadEndpoints);
    }
    for i := 0 to |p| - 1
      invariant MovesBefore(graph, p, i)
    {
      if p[i] !in graph {
        assert !IsEdge(graph, p[i], p[i + 1]);
        return Err(UnknownNode(i));
      }
      if p[i + 1] !in graph[p[i]] {
        return Err(IllegalMove(i));
      }
    }
    return Ok(p);
  }
}
