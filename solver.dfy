/**
 * The bundled solver `find_shortest_path`: a breadth-first search from id 0
 * over an adjacency map, where a node without an entry has no neighbours. It
 * returns the path with which id 1 is first taken off the queue, or an empty
 * list when the queue runs dry first.
 */
module Solver {
  import opened Graphs

  /** A queue entry: a node and the path by which the search first reached it. */
  type Entry = (NodeId, seq<NodeId>)

  /** Every id the search can meet: the start id, the keys and every listed neighbour. */
  ghost function Nodes(graph: Graph): set<NodeId>
  {
    {StartId} + graph.Keys + set u, w | u in graph && w in graph[u] :: w
  }

  /** A neighbour the search meets is one of the ids it can meet. */
  lemma SuccessorInNodes(graph: Graph, u: NodeId, w: NodeId)
    requires w in Successors(graph, u)
    ensures w in Nodes(graph)
  {
    assert u in graph && w in graph[u];
  }

  /** `p` is a walk from the start id to `v` that visits no id twice. */
  ghost predicate PathTo(graph: Graph, p: seq<NodeId>, v: NodeId)
  {
    IsWalk(graph, p) && p[0] == StartId && p[|p| - 1] == v && Distinct(p)
  }

  /** Every recorded path leads to its node and runs through recorded nodes only. */
  ghost predicate Recorded(graph: Graph, paths: map<NodeId, seq<NodeId>>)
  {
    && (forall v :: v in paths ==> PathTo(graph, paths[v], v))
    && (forall v, x :: v in paths && x in paths[v] ==> x in paths)
  }

  /** Every neighbour of `u` is recorded, by a path at most one node longer than the path to `u`. */
  ghost predicate Expanded(graph: Graph, paths: map<NodeId, seq<NodeId>>, u: NodeId)
    requires u in paths
  {
    forall w :: w in Successors(graph, u) ==> w in paths && |paths[w]| <= |paths[u]| + 1
  }

  /** Path lengths along the queue never decrease and differ by at most one. */
  ghost predicate Layered(queue: seq<Entry>)
  {
    forall i, j :: 0 <= i <= j < |queue| ==> |queue[i].1| <= |queue[j].1| <= |queue[i].1| + 1
  }

  /**
   * The state of the search at the head of its loop. `enqueued` lists every
   * node ever put on the queue; its first `head` entries have been taken off
   * and expanded, and the queue holds the rest with their recorded paths.
   */
  ghost predicate Searching(graph: Graph, queue: seq<Entry>, visited: set<NodeId>,
                            paths: map<NodeId, seq<NodeId>>, enqueued: seq<NodeId>, head: nat)
  {
    && SearchingNodes(graph, visited, paths, enqueued)
    && SearchingQueue(queue, paths, enqueued, head)
    && SearchingDone(graph, queue, paths, enqueued, head)
  }

  /** The visited nodes are the recorded ones and the queued ones, each queued once. */
  ghost predicate SearchingNodes(graph: Graph, visited: set<NodeId>, paths: map<NodeId, seq<NodeId>>,
                                 enqueued: seq<NodeId>)
  {
    && visited == paths.Keys
    && visited <= Nodes(graph)
    && StartId in paths && paths[StartId] == [StartId]
    && Recorded(graph, paths)
    && Distinct(enqueued)
    && (forall v :: v in paths <==> v in enqueued)
  }

  /** The queue holds the nodes from `head` on with their paths, one or two layers deep. */
  ghost predicate SearchingQueue(queue: seq<Entry>, paths: map<NodeId, seq<NodeId>>,
                                 enqueued: seq<NodeId>, head: nat)
  {
    && head + |queue| == |enqueued|
    && (forall i :: 0 <= i < |enqueued| ==> enqueued[i] in paths)
    && (forall i :: 0 <= i < |queue| ==> queue[i].0 == enqueued[head + i] && queue[i].1 == paths[enqueued[head + i]])
    && Layered(queue)
  }

  /**
   * The nodes before `head` are expanded and none is the end id; their paths
   * are no longer than any queued path, and no path is more than one longer.
   */
  ghost predicate SearchingDone(graph: Graph, queue: seq<Entry>, paths: map<NodeId, seq<NodeId>>,
                                enqueued: seq<NodeId>, head: nat)
  {
    && (forall i :: 0 <= i < head && i < |enqueued| ==>
          enqueued[i] != EndId && enqueued[i] in paths && Expanded(graph, paths, enqueued[i]))
    && (|queue| > 0 ==>
          (forall i :: 0 <= i < head && i < |enqueued| && enqueued[i] in paths ==> |paths[enqueued[i]]| <= |queue[0].1|) &&
          (forall v :: v in paths ==> |paths[v]| <= |queue[0].1| + 1))
  }

  /**
   * A walk from the start id no longer than `bound` ends at a recorded node
   * whose recorded path is no longer than the walk, provided every node with
   * a shorter path than `bound` has been expanded.
   */
  lemma {:induction false} WalkReached(graph: Graph, paths: map<NodeId, seq<NodeId>>, done: seq<NodeId>,
                                       bound: nat, w: seq<NodeId>)
    requires StartId in paths && |paths[StartId]| == 1
    requires forall v :: v in paths && |paths[v]| < bound ==> v in done
    requires forall x :: x in done ==> x in paths && Expanded(graph, paths, x)
    requires IsWalk(graph, w) && w[0] == StartId && |w| <= bound
    ensures w[|w| - 1] in paths && |paths[w[|w| - 1]]| <= |w|
    decreases |w|
  {
    if |w| == 1 {
      assert w[|w| - 1] == StartId;
    } else {
      var init := w[..|w| - 1];
      assert IsWalk(graph, init) by {
        forall i | 0 <= i < |init| - 1
          ensures init[i + 1] in Successors(graph, init[i])
        {
          assert init[i] == w[i] && init[i + 1] == w[i + 1];
        }
      }
      WalkReached(graph, paths, done, bound, init);
      var u := init[|init| - 1];
      assert u == w[|w| - 2];
      assert u in done;
      assert Expanded(graph, paths, u);
      var last := w[|w| - 1];
      assert last in Successors(graph, u);
      assert last in paths && |paths[last]| <= |paths[u]| + 1;
    }
  }

  /** When the end id is at the front of the queue, its recorded path is a shortest solution. */
  lemma Shortest(graph: Graph, queue: seq<Entry>, visited: set<NodeId>,
                 paths: map<NodeId, seq<NodeId>>, enqueued: seq<NodeId>, head: nat)
    requires Searching(graph, queue, visited, paths, enqueued, head)
    requires |queue| > 0 && queue[0].0 == EndId
    ensures IsSolution(graph, queue[0].1) && Distinct(queue[0].1)
    ensures forall q :: IsSolution(graph, q) ==> |queue[0].1| <= |q|
  {
    var p := queue[0].1;
    var done := enqueued[..head];
    forall v | v in paths
      ensures v in done || |p| <= |paths[v]|
    {
      var i :| 0 <= i < |enqueued| && enqueued[i] == v;
      if i < head {
        assert done[i] == v;
      } else {
        assert queue[i - head].0 == v;
      }
    }
    forall q | IsSolution(graph, q)
      ensures |p| <= |q|
    {
      if |q| < |p| {
        WalkReached(graph, paths, done, |p|, q);
      }
    }
  }

  /** When the queue runs dry, no walk from the start id reaches the end id. */
  lemma Unreachable(graph: Graph, visited: set<NodeId>,
                    paths: map<NodeId, seq<NodeId>>, enqueued: seq<NodeId>, head: nat)
    requires Searching(graph, [], visited, paths, enqueued, head)
    ensures forall q :: IsWalk(graph, q) && q[0] == StartId ==> q[|q| - 1] != EndId && q[|q| - 1] in enqueued
  {
    forall q | IsWalk(graph, q) && q[0] == StartId
      ensures q[|q| - 1] != EndId && q[|q| - 1] in enqueued
    {
      WalkReached(graph, paths, enqueued, |q|, q);
    }
  }

  /** Some walk from the start id ends at `v`. */
  ghost predicate Reachable(graph: Graph, v: NodeId)
  {
    exists w :: IsWalk(graph, w) && w[0] == StartId && w[|w| - 1] == v
  }

  /** Every queued node is reached by its recorded path. */
  lemma QueuedReachable(graph: Graph, paths: map<NodeId, seq<NodeId>>, enqueued: seq<NodeId>)
    requires Recorded(graph, paths) && forall v :: v in paths <==> v in enqueued
    ensures forall v :: v in enqueued ==> Reachable(graph, v)
  {
    forall v | v in enqueued
      ensures Reachable(graph, v)
    {
      assert PathTo(graph, paths[v], v);
    }
  }

  /** Extending a recorded path by a neighbour of its last node that is not yet recorded. */
  lemma ExtendPath(graph: Graph, paths: map<NodeId, seq<NodeId>>, u: NodeId, w: NodeId)
    requires Recorded(graph, paths) && u in paths && w !in paths
    requires w in Successors(graph, u)
    ensures Recorded(graph, paths[w := paths[u] + [w]])
  {
    var p := paths[u];
    var np := p + [w];
    var paths' := paths[w := np];
    assert PathTo(graph, np, w) by {
      assert forall i :: 0 <= i < |p| ==> np[i] == p[i];
      assert forall i :: 0 <= i < |p| ==> p[i] in paths;
    }
    forall v | v in paths'
      ensures PathTo(graph, paths'[v], v) && forall x :: x in paths'[v] ==> x in paths'
    {
      if v != w {
        assert paths'[v] == paths[v];
      }
    }
  }

  /**
   * The state of the search while it expands `current`, taken off the front of
   * the queue as `enqueued[head]` with path `currentPath`.
   */
  ghost predicate Expanding(graph: Graph, queue: seq<Entry>, visited: set<NodeId>,
                            paths: map<NodeId, seq<NodeId>>, enqueued: seq<NodeId>, head: nat,
                            current: NodeId, currentPath: seq<NodeId>)
  {
    && ExpandingNodes(graph, visited, paths, enqueued, head, current, currentPath)
    && ExpandingQueue(queue, paths, enqueued, head, currentPath)
    && ExpandingDone(graph, paths, enqueued, head, currentPath)
  }

  /** The visited nodes are the recorded ones and the queued ones, and `current` is the one at `head`. */
  ghost predicate ExpandingNodes(graph: Graph, visited: set<NodeId>, paths: map<NodeId, seq<NodeId>>,
                                 enqueued: seq<NodeId>, head: nat, current: NodeId, currentPath: seq<NodeId>)
  {
    && visited == paths.Keys
    && visited <= Nodes(graph)
    && StartId in paths && paths[StartId] == [StartId]
    && Recorded(graph, paths)
    && Distinct(enqueued)
    && (forall v :: v in paths <==> v in enqueued)
    && head < |enqueued| && enqueued[head] == current && current != EndId
    && current in paths && paths[current] == currentPath
  }

  /** The queue holds the nodes after `head` with their paths, one or two layers deep. */
  ghost predicate ExpandingQueue(queue: seq<Entry>, paths: map<NodeId, seq<NodeId>>,
                                 enqueued: seq<NodeId>, head: nat, currentPath: seq<NodeId>)
  {
    && head + 1 + |queue| == |enqueued|
    && (forall i :: 0 <= i < |enqueued| ==> enqueued[i] in paths)
    && (forall i :: 0 <= i < |queue| ==>
          queue[i].0 == enqueued[head + 1 + i] && queue[i].1 == paths[enqueued[head + 1 + i]])
    && Layered(queue)
    && (forall i :: 0 <= i < |queue| ==> |currentPath| <= |queue[i].1| <= |currentPath| + 1)
    && (forall v :: v in paths ==> |paths[v]| <= |currentPath| + 1)
  }

  /** The nodes before `head` are expanded, and their paths are no longer than the current one. */
  ghost predicate ExpandingDone(graph: Graph, paths: map<NodeId, seq<NodeId>>,
                                enqueued: seq<NodeId>, head: nat, currentPath: seq<NodeId>)
  {
    forall i :: 0 <= i < head && i < |enqueued| ==>
      enqueued[i] != EndId && enqueued[i] in paths &&
      Expanded(graph, paths, enqueued[i]) && |paths[enqueued[i]]| <= |currentPath|
  }

  /** Taking a node other than the end id off the front of the queue starts its expansion. */
  lemma StartExpanding(graph: Graph, queue: seq<Entry>, visited: set<NodeId>,
                       paths: map<NodeId, seq<NodeId>>, enqueued: seq<NodeId>, head: nat)
    requires Searching(graph, queue, visited, paths, enqueued, head)
    requires |queue| > 0 && queue[0].0 != EndId
    ensures Expanding(graph, queue[1..], visited, paths, enqueued, head, queue[0].0, queue[0].1)
  {
    var rest := queue[1..];
    assert forall i :: 0 <= i < |rest| ==> rest[i] == queue[i + 1];
  }

  /** The search starts with the start id queued and visited, by the one-node path. */
  lemma SearchStart(graph: Graph)
    ensures Searching(graph, [(StartId, [StartId])], {StartId}, map[StartId := [StartId]], [StartId], 0)
  {
  }

  /** Recording more paths keeps every expanded node expanded. */
  lemma ExpandedGrows(graph: Graph, paths: map<NodeId, seq<NodeId>>, paths': map<NodeId, seq<NodeId>>, u: NodeId)
    requires u in paths && Expanded(graph, paths, u)
    requires forall v :: v in paths ==> v in paths' && paths'[v] == paths[v]
    ensures u in paths' && Expanded(graph, paths', u)
  {
  }

  /** Queueing a neighbour of `current` that was not yet visited, with the path through `current`. */
  lemma Enqueue(graph: Graph, queue: seq<Entry>, visited: set<NodeId>,
                paths: map<NodeId, seq<NodeId>>, enqueued: seq<NodeId>, head: nat,
                current: NodeId, currentPath: seq<NodeId>, w: NodeId)
    requires Expanding(graph, queue, visited, paths, enqueued, head, current, currentPath)
    requires w in Successors(graph, current) && w !in visited
    ensures Expanding(graph, queue + [(w, currentPath + [w])], visited + {w},
                      paths[w := currentPath + [w]], enqueued + [w], head, current, currentPath)
  {
    var paths' := paths[w := currentPath + [w]];
    var enqueued' := enqueued + [w];
    EnqueueNodes(graph, visited, paths, enqueued, head, current, currentPath, w);
    EnqueueQueue(queue, paths, enqueued, head, currentPath, w);
    forall i | 0 <= i < head && i < |enqueued'|
      ensures enqueued'[i] != EndId && enqueued'[i] in paths' &&
        Expanded(graph, paths', enqueued'[i]) && |paths'[enqueued'[i]]| <= |currentPath|
    {
      ExpandedGrows(graph, paths, paths', enqueued[i]);
    }
  }

  /** Queueing `w` keeps the bookkeeping of visited, recorded and queued nodes. */
  lemma EnqueueNodes(graph: Graph, visited: set<NodeId>, paths: map<NodeId, seq<NodeId>>,
                     enqueued: seq<NodeId>, head: nat, current: NodeId, currentPath: seq<NodeId>, w: NodeId)
    requires ExpandingNodes(graph, visited, paths, enqueued, head, current, currentPath)
    requires w in Successors(graph, current) && w !in visited
    ensures ExpandingNodes(graph, visited + {w}, paths[w := currentPath + [w]], enqueued + [w],
                           head, current, currentPath)
  {
    SuccessorInNodes(graph, current, w);
    ExtendPath(graph, paths, current, w);
    assert w !in enqueued;
  }

  /** The queue grown by `w` and its path still lists the queued nodes with their paths, in layers. */
  lemma EnqueueQueue(queue: seq<Entry>, paths: map<NodeId, seq<NodeId>>, enqueued: seq<NodeId>, head: nat,
                     currentPath: seq<NodeId>, w: NodeId)
    requires ExpandingQueue(queue, paths, enqueued, head, currentPath) && w !in paths
    ensures ExpandingQueue(queue + [(w, currentPath + [w])], paths[w := currentPath + [w]], enqueued + [w],
                           head, currentPath)
  {
    var queue', paths', enqueued' := queue + [(w, currentPath + [w])], paths[w := currentPath + [w]], enqueued + [w];
    forall i | 0 <= i < |queue'|
      ensures queue'[i].0 == enqueued'[head + 1 + i] && queue'[i].1 == paths'[enqueued'[head + 1 + i]]
    {
      if i < |queue| {
        assert queue'[i] == queue[i] && enqueued'[head + 1 + i] == enqueued[head + 1 + i];
      }
    }
    assert forall i :: 0 <= i < |queue| ==> queue'[i] == queue[i];
  }

  /** Once every neighbour of `current` is visited, `current` is expanded and the search moves on. */
  lemma FinishExpanding(graph: Graph, queue: seq<Entry>, visited: set<NodeId>,
                        paths: map<NodeId, seq<NodeId>>, enqueued: seq<NodeId>, head: nat,
                        current: NodeId, currentPath: seq<NodeId>)
    requires Expanding(graph, queue, visited, paths, enqueued, head, current, currentPath)
    requires AllVisited(Successors(graph, current), |Successors(graph, current)|, visited)
    ensures Searching(graph, queue, visited, paths, enqueued, head + 1)
  {
    assert Expanded(graph, paths, current);
    assert SearchingNodes(graph, visited, paths, enqueued);
    assert SearchingQueue(queue, paths, enqueued, head + 1);
    assert SearchingDone(graph, queue, paths, enqueued, head + 1);
  }

  /** The nodes queued since the snapshot (`enqueued0`, `visited0`) are all new. */
  ghost predicate QueuedSince(enqueued0: seq<NodeId>, visited0: set<NodeId>, enqueued: seq<NodeId>, visited: set<NodeId>)
  {
    |enqueued0| <= |enqueued| && visited0 <= visited &&
    forall i :: |enqueued0| <= i < |enqueued| ==> enqueued[i] !in visited0
  }

  /** Queueing a node that was not visited keeps every node queued since the snapshot new. */
  lemma QueuedSinceStep(enqueued0: seq<NodeId>, visited0: set<NodeId>, enqueued: seq<NodeId>, visited: set<NodeId>, w: NodeId)
    requires QueuedSince(enqueued0, visited0, enqueued, visited) && w !in visited
    ensures QueuedSince(enqueued0, visited0, enqueued + [w], visited + {w})
  {
  }

  /** The first `k` neighbours have all been visited. */
  ghost predicate AllVisited(neighbours: seq<NodeId>, k: nat, visited: set<NodeId>)
  {
    k <= |neighbours| && forall j :: 0 <= j < k ==> neighbours[j] in visited
  }

  /** Visiting one more neighbour, and possibly more nodes. */
  lemma AllVisitedStep(neighbours: seq<NodeId>, k: nat, visited: set<NodeId>, visited': set<NodeId>)
    requires AllVisited(neighbours, k, visited) && k < |neighbours|
    requires visited <= visited' && neighbours[k] in visited'
    ensures AllVisited(neighbours, k + 1, visited')
  {
  }

  /** Visiting more of a finite set of nodes leaves fewer of them unvisited. */
  lemma Progress(nodes: set<NodeId>, visited0: set<NodeId>, visited: set<NodeId>)
    requires visited0 <= visited <= nodes
    ensures nodes - visited <= nodes - visited0
    ensures (exists x :: x in visited && x !in visited0) ==> nodes - visited < nodes - visited0
  {
    if exists x :: x in visited && x !in visited0 {
      var x :| x in visited && x !in visited0;
      assert x in nodes - visited0 && x !in nodes - visited;
    }
  }

  /**
   * The inner loop of `find_shortest_path`: each neighbour of `current` that
   * is not yet visited is marked visited and queued with the path through
   * `current`. Afterwards `current` is expanded.
   */
  method ExpandNeighbours(graph: Graph, current: NodeId, currentPath: seq<NodeId>,
                          queue: seq<Entry>, visited: set<NodeId>, ghost paths: map<NodeId, seq<NodeId>>,
                          ghost enqueued: seq<NodeId>, ghost head: nat)
    returns (queue': seq<Entry>, visited': set<NodeId>, ghost paths': map<NodeId, seq<NodeId>>,
             ghost enqueued': seq<NodeId>)
    requires Expanding(graph, queue, visited, paths, enqueued, head, current, currentPath)
    ensures Searching(graph, queue', visited', paths', enqueued', head + 1)
    ensures Nodes(graph) - visited' < Nodes(graph) - visited || (visited' == visited && queue' == queue)
  {
    queue', visited', paths', enqueued' := queue, visited, paths, enqueued;
    var neighbours := Successors(graph, current);
    for k := 0 to |neighbours|
      invariant Expanding(graph, queue', visited', paths', enqueued', head, current, currentPath)
      invariant QueuedSince(enqueued, visited, enqueued', visited')
      invariant AllVisited(neighbours, k, visited')
      invariant |enqueued'| == |enqueued| ==> queue' == queue && visited' == visited
    {
      var neighbour := neighbours[k];
      ghost var visitedBefore := visited';
      if neighbour !in visited' {
        Enqueue(graph, queue', visited', paths', enqueued', head, current, currentPath, neighbour);
        QueuedSinceStep(enqueued, visited, enqueued', visited', neighbour);
        visited' := visited' + {neighbour};
        var newPath := currentPath + [neighbour];
        queue' := queue' + [(neighbour, newPath)];
        paths' := paths'[neighbour := newPath];
        enqueued' := enqueued' + [neighbour];
      }
      AllVisitedStep(neighbours, k, visitedBefore, visited');
    }
    FinishExpanding(graph, queue', visited', paths', enqueued', head, current, currentPath);
    if |enqueued'| > |enqueued| {
      assert enqueued'[|enqueued|] in visited' && enqueued'[|enqueued|] !in visited;
      Progress(Nodes(graph), visited, visited');
    }
  }

  /**
   * `find_shortest_path`: breadth-first search from id 0 for id 1. A node is
   * marked visited when it is put on the queue, so no node is queued twice.
   */
  method FindShortestPath(graph: Graph) returns (path: seq<NodeId>, ghost enqueued: seq<NodeId>)
    ensures path != [] ==> IsSolution(graph, path) && Distinct(path)
    ensures path != [] ==> forall q :: IsSolution(graph, q) ==> |path| <= |q|
    ensures path == [] ==> forall q :: IsWalk(graph, q) && q[0] == StartId ==> q[|q| - 1] != EndId
    ensures Distinct(enqueued)
    ensures forall v :: v in enqueued ==> Reachable(graph, v)
    ensures path == [] ==> forall v :: Reachable(graph, v) ==> v in enqueued
  {
    var queue: seq<Entry> := [(StartId, [StartId])];
    var visited: set<NodeId> := {StartId};
    ghost var paths: map<NodeId, seq<NodeId>> := map[StartId := [StartId]];
    enqueued := [StartId];
    ghost var head: nat := 0;
    SearchStart(graph);
    while queue != []
      invariant Searching(graph, queue, visited, paths, enqueued, head)
      decreases Nodes(graph) - visited, |queue|
    {
      ghost var queue0, visited0 := queue, visited;
      var (current, currentPath) := queue[0];
      queue := queue[1..];
      if current == EndId {
        Shortest(graph, queue0, visited, paths, enqueued, head);
        QueuedReachable(graph, paths, enqueued);
        path := currentPath;
        return;
      }
      StartExpanding(graph, queue0, visited, paths, enqueued, head);
      queue, visited, paths, enqueued := ExpandNeighbours(graph, current, currentPath, queue, visited, paths, enqueued, head);
      head := head + 1;
    }
    Unreachable(graph, visited, paths, enqueued, head);
    QueuedReachable(graph, paths, enqueued);
    path := [];
  }
}
