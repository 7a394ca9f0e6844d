/**
 * Node ids, adjacency maps and walks: the shape that the graph builder
 * produces, that the path check inspects and that the solver searches.
 */
module Graphs {

  type NodeId = int

  /** An adjacency map from a node id to its ordered list of neighbour ids. */
  type Graph = map<NodeId, seq<NodeId>>

  /** The id of the start cell, fixed by the solver contract. */
  const StartId: NodeId := 0

  /** The id of the end cell, fixed by the solver contract. */
  const EndId: NodeId := 1

  /** `graph.get(u, [])`: a node without an entry has no neighbours. */
  function Successors(graph: Graph, u: NodeId): seq<NodeId>
  {
    if u in graph then graph[u] else []
  }

  /** A non-empty sequence of ids in which every node is followed by one of its neighbours. */
  predicate IsWalk(graph: Graph, p: seq<NodeId>)
  {
    |p| > 0 && forall i :: 0 <= i < |p| - 1 ==> p[i + 1] in Successors(graph, p[i])
  }

  /** A walk from the start id to the end id. */
  predicate IsSolution(graph: Graph, p: seq<NodeId>)
  {
    IsWalk(graph, p) && p[0] == StartId && p[|p| - 1] == EndId
  }

  /** No id occurs twice. */
  predicate Distinct(p: seq<NodeId>)
  {
    forall i, j :: 0 <= i < j < |p| ==> p[i] != p[j]
  }
}
