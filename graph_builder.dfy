/**
 * The id scheme and adjacency lists that `prepare_graph_data` builds from a
 * grid, stated as functions of the grid, and what they promise: the start
 * cell is node 0, the end cell node 1, the other passable cells are numbered
 * 2, 3, ... in row-major order, the two maps between cells and ids are
 * inverse, and the adjacency lists form a symmetric graph without loops.
 *
 * The maps are given as "prefix" functions of the row-major position (r, c)
 * reached by the building loops; the finished maps are the prefixes at
 * (rows, 0).
 */
module GraphBuilder {
  import opened Graphs
  import opened Maze

  // ---------------------------------------------------------------------
  // Cells and their row-major rank
  // ---------------------------------------------------------------------

  /** Passable and neither the start nor the end cell: a cell that draws its id from the counter. */
  predicate Other(g: Grid, r: int, c: int)
  {
    Open(g, r, c) && (r, c) != Start(g) && (r, c) != End(g)
  }

  /** The cell comes before position (r, c) in row-major order. */
  predicate Before(cell: Cell, r: int, c: int)
  {
    cell.0 < r || (cell.0 == r && cell.1 < c)
  }

  function OpenCells(g: Grid): set<Cell>
  {
    set r: nat, c: nat | r < |g| && c < Cols(g) && Open(g, r, c) :: (r, c)
  }

  function OtherCells(g: Grid): set<Cell>
  {
    set r: nat, c: nat | r < |g| && c < Cols(g) && Other(g, r, c) :: (r, c)
  }

  /** How many counter cells lie in row r left of column c. */
  function RowRank(g: Grid, r: int, c: nat): nat
  {
    if c == 0 then 0 else RowRank(g, r, c - 1) + (if Other(g, r, c - 1) then 1 else 0)
  }

  /** How many counter cells lie in the rows above row r. */
  function RowsRank(g: Grid, r: nat): nat
  {
    if r == 0 then 0 else RowsRank(g, r - 1) + RowRank(g, r - 1, Cols(g))
  }

  /** How many counter cells come before (r, c) in row-major order. */
  function Rank(g: Grid, r: nat, c: nat): nat
  {
    RowsRank(g, r) + RowRank(g, r, c)
  }

  /** How many cells draw an id from the counter. */
  function OtherCount(g: Grid): nat
  {
    RowsRank(g, |g|)
  }

  /** How many ids the builder hands out: 0 and 1, then one per counter cell. */
  function NodeCount(g: Grid): nat
  {
    2 + OtherCount(g)
  }

  /**
   * The id of a passable cell in closed form. On a 1x1 grid the start cell is
   * also the end cell, and the end's id wins because it is stored second.
   */
  function IdOf(g: Grid, r: nat, c: nat): (id: NodeId)
    ensures id == EndId <==> (r, c) == End(g)
    ensures id == StartId <==> (r, c) == Start(g) && (r, c) != End(g)
    ensures id >= 2 <==> (r, c) != Start(g) && (r, c) != End(g)
  {
    if (r, c) == End(g) then EndId
    else if (r, c) == Start(g) then StartId
    else 2 + Rank(g, r, c)
  }

  // ---------------------------------------------------------------------
  // The three maps, as the building loops leave them at position (r, c)
  // ---------------------------------------------------------------------

  /** `node_map` once the numbering loop has scanned every cell before (r, c). */
  function NodeMapBefore(g: Grid, r: int, c: int): map<Cell, NodeId>
  {
    map[Start(g) := StartId][End(g) := EndId] +
      map cell | cell in OtherCells(g) && Before(cell, r, c) :: 2 + Rank(g, cell.0, cell.1)
  }

  /** A row-major position the numbering loop reaches: a cell of the grid, a row's end, or the end of the grid. */
  predicate Position(g: Grid, r: nat, c: nat)
  {
    (r < |g| && c <= Cols(g)) || (r == |g| && c == 0)
  }

  /** The counter cell of rank k: the cell that receives id 2 + k. */
  ghost function CellWithRank(g: Grid, k: nat): (cell: Cell)
    requires k < OtherCount(g)
    ensures cell in OtherCells(g) && cell.0 >= 0 && cell.1 >= 0 && Rank(g, cell.0, cell.1) == k
  {
    RowsHit(g, |g|, k);
    var cell :| cell in OtherCells(g) && cell.0 >= 0 && cell.1 >= 0 && Rank(g, cell.0, cell.1) == k;
    cell
  }

  /** The counter cell that receives id `id`. */
  ghost function CellWithId(g: Grid, id: NodeId): (cell: Cell)
    requires 2 <= id < NodeCount(g)
    ensures cell in OtherCells(g) && cell.0 >= 0 && cell.1 >= 0 && 2 + Rank(g, cell.0, cell.1) == id
  {
    CellWithRank(g, id - 2)
  }

  /** `reverse_node_map` once the numbering loop has scanned every cell before (r, c). */
  ghost function ReverseBefore(g: Grid, r: nat, c: nat): map<NodeId, Cell>
    requires Position(g, r, c)
  {
    RankPositionBound(g, r, c);
    ReverseUpTo(g, Rank(g, r, c))
  }

  /** `reverse_node_map` once the first k counter cells are numbered. */
  ghost function ReverseUpTo(g: Grid, k: nat): map<NodeId, Cell>
    requires k <= OtherCount(g)
  {
    map[StartId := Start(g)][EndId := End(g)] +
      map id | 2 <= id < 2 + k :: CellWithId(g, id)
  }

  /** The directions in the order the builder tries them: up, down, left, right. */
  const Directions: seq<(int, int)> := [(-1, 0), (1, 0), (0, -1), (0, 1)]

  /** The ids of the passable cells reached from (r, c) by the given steps, in their order. */
  function NeighbourIds(g: Grid, r: int, c: int, dirs: seq<(int, int)>): seq<NodeId>
  {
    if dirs == [] then []
    else
      var d := dirs[|dirs| - 1];
      NeighbourIds(g, r, c, dirs[..|dirs| - 1]) +
        (if Open(g, r + d.0, c + d.1) then [IdOf(g, r + d.0, c + d.1)] else [])
  }

  /** The cell that carries id `id`; on a 1x1 grid id 1 names the single cell. */
  ghost function CellOfId(g: Grid, id: NodeId): Cell
    requires 0 <= id < NodeCount(g)
  {
    if id == EndId then End(g) else if id == StartId then Start(g) else CellWithId(g, id)
  }

  /** The ids of the passable cells before (r, c). */
  function IdsBefore(g: Grid, r: int, c: int): set<NodeId>
  {
    set cell | cell in OpenCells(g) && Before(cell, r, c) :: IdOf(g, cell.0, cell.1)
  }

  /** `graph` once the adjacency loop has scanned every cell before (r, c). */
  ghost function GraphBefore(g: Grid, r: int, c: int): Graph
  {
    IdBounds(g);
    map u | u in IdsBefore(g, r, c) :: NeighbourIds(g, CellOfId(g, u).0, CellOfId(g, u).1, Directions)
  }

  /** The finished `node_map`: what the numbering loop holds at the end of the grid. */
  function NodeMapSpec(g: Grid): map<Cell, NodeId>
  {
    NumberingAt(g, |g|, 0).nodeMap
  }

  /** The finished `reverse_node_map`. */
  function ReverseSpec(g: Grid): map<NodeId, Cell>
  {
    NumberingAt(g, |g|, 0).reverse
  }

  /** The finished `graph`: what the adjacency loop holds at the end of the grid. */
  function GraphSpec(g: Grid): Graph
  {
    AdjacencyAt(g, |g|, 0)
  }

  /** The finished id maps are the prefixes at the end of the grid. */
  lemma NumberingClosed(g: Grid)
    ensures NodeMapSpec(g) == NodeMapBefore(g, |g|, 0)
    ensures ReverseSpec(g) == ReverseBefore(g, |g|, 0)
  {
    NumberingAtBefore(g, |g|, 0);
  }

  /** The finished `graph` is the prefix at the end of the grid. */
  lemma GraphClosed(g: Grid)
    ensures GraphSpec(g) == GraphBefore(g, |g|, 0)
  {
    AdjacencyAtBefore(g, |g|, 0);
  }

  // ---------------------------------------------------------------------
  // Facts about ranks
  // ---------------------------------------------------------------------

  lemma {:induction false} RowRankMono(g: Grid, r: int, c1: nat, c2: nat)
    requires c1 <= c2
    ensures RowRank(g, r, c1) <= RowRank(g, r, c2)
    decreases c2
  {
    if c1 < c2 {
      RowRankMono(g, r, c1, c2 - 1);
    }
  }

  lemma {:induction false} RowsRankMono(g: Grid, r1: nat, r2: nat)
    requires r1 <= r2
    ensures RowsRank(g, r1) <= RowsRank(g, r2)
    decreases r2
  {
    if r1 < r2 {
      RowsRankMono(g, r1, r2 - 1);
    }
  }

  /** Rank never decreases along row-major order. */
  lemma RankMono(g: Grid, r1: nat, c1: nat, r2: nat, c2: nat)
    requires c1 <= Cols(g) && c2 <= Cols(g)
    requires r1 < r2 || (r1 == r2 && c1 <= c2)
    ensures Rank(g, r1, c1) <= Rank(g, r2, c2)
  {
    if r1 == r2 {
      RowRankMono(g, r1, c1, c2);
    } else {
      RowRankMono(g, r1, c1, Cols(g));
      RowsRankMono(g, r1 + 1, r2);
    }
  }

  /** No position has more counter cells before it than the grid holds. */
  lemma RankPositionBound(g: Grid, r: nat, c: nat)
    requires Position(g, r, c)
    ensures Rank(g, r, c) <= OtherCount(g)
  {
    RankMono(g, r, c, |g|, 0);
  }

  /** A counter cell ranks strictly below every cell after it, and below the total count. */
  lemma RankStrict(g: Grid, a: Cell, r: nat, c: nat)
    requires a in OtherCells(g)
    requires c <= Cols(g) && (r < |g| || (r == |g| && c == 0))
    requires Before(a, r, c)
    ensures a.0 >= 0 && a.1 >= 0
    ensures Rank(g, a.0, a.1) < Rank(g, r, c)
    ensures Rank(g, a.0, a.1) < OtherCount(g)
  {
    var ar: nat, ac: nat := a.0, a.1;
    assert Rank(g, ar, ac + 1) == Rank(g, ar, ac) + 1;
    RankMono(g, ar, ac + 1, r, c);
    RankMono(g, ar, ac + 1, |g|, 0);
  }

  /** Two distinct counter cells have distinct ranks. */
  lemma RankInjective(g: Grid)
    ensures forall a, b :: a in OtherCells(g) && b in OtherCells(g) && Rank(g, a.0, a.1) == Rank(g, b.0, b.1) ==> a == b
  {
    forall a, b | a in OtherCells(g) && b in OtherCells(g) && Rank(g, a.0, a.1) == Rank(g, b.0, b.1)
      ensures a == b
    {
      if Before(a, b.0, b.1) {
        RankStrict(g, a, b.0, b.1);
      } else if Before(b, a.0, a.1) {
        RankStrict(g, b, a.0, a.1);
      }
    }
  }

  /** Every passable cell's id lies in 0 .. NodeCount - 1. */
  lemma IdBounds(g: Grid)
    ensures forall cell :: cell in OpenCells(g) ==> 0 <= IdOf(g, cell.0, cell.1) < NodeCount(g)
  {
    forall cell | cell in OpenCells(g)
      ensures 0 <= IdOf(g, cell.0, cell.1) < NodeCount(g)
    {
      if cell != Start(g) && cell != End(g) {
        assert cell in OtherCells(g);
        RankStrict(g, cell, |g|, 0);
      }
    }
  }

  /** Two distinct passable cells have distinct ids. */
  lemma IdInjective(g: Grid)
    ensures forall a, b :: a in OpenCells(g) && b in OpenCells(g) && IdOf(g, a.0, a.1) == IdOf(g, b.0, b.1) ==> a == b
  {
    RankInjective(g);
    forall a, b | a in OpenCells(g) && b in OpenCells(g) && IdOf(g, a.0, a.1) == IdOf(g, b.0, b.1)
      ensures a == b
    {
      if a != End(g) && a != Start(g) {
        assert a in OtherCells(g);
      }
      if b != End(g) && b != Start(g) {
        assert b in OtherCells(g);
      }
    }
  }

  /** Looking up the cell of a passable cell's id gives the cell back. */
  lemma CellOfIdOf(g: Grid, cell: Cell)
    requires cell in OpenCells(g)
    ensures 0 <= IdOf(g, cell.0, cell.1) < NodeCount(g)
    ensures CellOfId(g, IdOf(g, cell.0, cell.1)) == cell
  {
    IdBounds(g);
    if cell != Start(g) && cell != End(g) {
      assert cell in OtherCells(g);
      RankInjective(g);
    }
  }

  /** Every rank in row r up to column c is taken by a counter cell of that row. */
  lemma {:induction false} RowHit(g: Grid, r: nat, c: nat, k: nat)
    requires r < |g| && c <= Cols(g)
    requires RowsRank(g, r) <= k < Rank(g, r, c)
    ensures exists cell :: cell in OtherCells(g) && cell.0 == r && cell.1 < c && Rank(g, cell.0, cell.1) == k
    decreases c
  {
    if k < Rank(g, r, c - 1) {
      RowHit(g, r, c - 1, k);
    } else {
      assert Other(g, r, c - 1);
      assert (r, c - 1) in OtherCells(g);
    }
  }

  /** Every rank below the count of the first r rows is taken by a counter cell of those rows. */
  lemma {:induction false} RowsHit(g: Grid, r: nat, k: nat)
    requires r <= |g|
    requires k < RowsRank(g, r)
    ensures exists cell :: cell in OtherCells(g) && cell.0 < r && Rank(g, cell.0, cell.1) == k
    decreases r
  {
    if k < RowsRank(g, r - 1) {
      RowsHit(g, r - 1, k);
    } else {
      RowHit(g, r - 1, Cols(g), k);
    }
  }

  // ---------------------------------------------------------------------
  // The id scheme
  // ---------------------------------------------------------------------

  /**
   * The finished `node_map` covers exactly the passable cells and gives each
   * its closed-form id: 0 for the start, 1 for the end, and 2 + the number of
   * counter cells before it for every other passable cell.
   */
  lemma NodeMapIds(g: Grid)
    ensures forall cell :: cell in OpenCells(g) ==> cell in NodeMapSpec(g) && NodeMapSpec(g)[cell] == IdOf(g, cell.0, cell.1)
    ensures EndpointsOpen(g) ==> NodeMapSpec(g).Keys == OpenCells(g)
  {
    NumberingClosed(g);
    var m := NodeMapBefore(g, |g|, 0);
    if EndpointsOpen(g) {
      forall cell | cell in m
        ensures cell in OpenCells(g)
      {
        if cell == Start(g) {
          assert Open(g, 0, 0);
        } else if cell == End(g) {
          assert Open(g, |g| - 1, Cols(g) - 1);
        }
      }
    }
    forall cell | cell in OpenCells(g)
      ensures cell in m && m[cell] == IdOf(g, cell.0, cell.1)
    {
      if cell != Start(g) && cell != End(g) {
        assert cell in OtherCells(g);
      }
    }
  }

  /** The id the builder looks up for a passable cell is its id in closed form. */
  lemma IdLookup(g: Grid, ids: map<Cell, NodeId>, r: int, c: int)
    requires ids == NodeMapSpec(g) && Open(g, r, c)
    ensures (r, c) in ids && ids[(r, c)] == IdOf(g, r, c)
  {
    NodeMapIds(g);
    assert (r, c) in OpenCells(g);
  }

  /**
   * The numbering is row-major: the start cell is 0 and the end cell 1 on
   * every grid of more than one cell, every other passable cell gets an id in
   * 2 .. NodeCount - 1, and a later cell gets a larger id.
   */
  lemma IdsRowMajor(g: Grid)
    requires EndpointsOpen(g) && Start(g) != End(g)
    ensures IdOf(g, 0, 0) == StartId && IdOf(g, |g| - 1, Cols(g) - 1) == EndId
    ensures forall a :: a in OtherCells(g) ==> 2 <= IdOf(g, a.0, a.1) < NodeCount(g)
    ensures forall a, b :: a in OtherCells(g) && b in OtherCells(g) && Before(a, b.0, b.1) ==>
      IdOf(g, a.0, a.1) < IdOf(g, b.0, b.1)
  {
    forall a | a in OtherCells(g)
      ensures 2 <= IdOf(g, a.0, a.1) < NodeCount(g)
    {
      RankStrict(g, a, |g|, 0);
    }
    forall a, b | a in OtherCells(g) && b in OtherCells(g) && Before(a, b.0, b.1)
      ensures IdOf(g, a.0, a.1) < IdOf(g, b.0, b.1)
    {
      RankStrict(g, a, b.0, b.1);
    }
  }

  /** The entries of the finished `reverse_node_map`: 0 and 1 for the endpoints, 2 + rank for each counter cell. */
  lemma ReverseEntries(g: Grid)
    ensures forall id :: id in ReverseSpec(g) <==> 0 <= id < NodeCount(g)
    ensures StartId in ReverseSpec(g) && ReverseSpec(g)[StartId] == Start(g)
    ensures EndId in ReverseSpec(g) && ReverseSpec(g)[EndId] == End(g)
    ensures forall a :: a in OtherCells(g) ==>
      2 + Rank(g, a.0, a.1) in ReverseSpec(g) && ReverseSpec(g)[2 + Rank(g, a.0, a.1)] == a
    ensures forall id :: 2 <= id < NodeCount(g) ==>
      ReverseSpec(g)[id] in OtherCells(g) && 2 + Rank(g, ReverseSpec(g)[id].0, ReverseSpec(g)[id].1) == id
  {
    NumberingClosed(g);
    assert Rank(g, |g|, 0) == OtherCount(g);
    ReverseAllIds(g);
    ReverseAllCells(g);
  }

  /** Once every counter cell is numbered, the ids are 0 .. NodeCount - 1, each naming its cell. */
  lemma ReverseAllIds(g: Grid)
    ensures var rev := ReverseUpTo(g, OtherCount(g));
      && (forall id :: id in rev <==> 0 <= id < NodeCount(g))
      && StartId in rev && rev[StartId] == Start(g)
      && EndId in rev && rev[EndId] == End(g)
      && forall id :: 2 <= id < NodeCount(g) ==>
           rev[id] in OtherCells(g) && 2 + Rank(g, rev[id].0, rev[id].1) == id
  {
  }

  /** Once every counter cell is numbered, each one is found under 2 + its rank. */
  lemma ReverseAllCells(g: Grid)
    ensures var rev := ReverseUpTo(g, OtherCount(g));
      forall a :: a in OtherCells(g) ==> 2 + Rank(g, a.0, a.1) in rev && rev[2 + Rank(g, a.0, a.1)] == a
  {
    var rev := ReverseUpTo(g, OtherCount(g));
    forall a | a in OtherCells(g)
      ensures 2 + Rank(g, a.0, a.1) in rev && rev[2 + Rank(g, a.0, a.1)] == a
    {
      RankStrict(g, a, |g|, 0);
      var k := Rank(g, a.0, a.1);
      RankInjective(g);
      assert CellWithId(g, 2 + k) == a;
    }
  }

  /**
   * On a grid of more than one cell, `node_map` and `reverse_node_map` are
   * inverse bijections between the passable cells and the ids 0 .. NodeCount - 1.
   */
  lemma NodeMapsInverse(g: Grid)
    requires EndpointsOpen(g) && Start(g) != End(g)
    ensures NodeMapSpec(g).Keys == OpenCells(g)
    ensures forall id :: id in ReverseSpec(g) <==> 0 <= id < NodeCount(g)
    ensures forall cell :: cell in NodeMapSpec(g) ==>
      NodeMapSpec(g)[cell] in ReverseSpec(g) && ReverseSpec(g)[NodeMapSpec(g)[cell]] == cell
    ensures forall id :: id in ReverseSpec(g) ==>
      ReverseSpec(g)[id] in NodeMapSpec(g) && NodeMapSpec(g)[ReverseSpec(g)[id]] == id
  {
    var m, rev := NodeMapSpec(g), ReverseSpec(g);
    NodeMapIds(g);
    ReverseEntries(g);
    forall cell | cell in m
      ensures m[cell] in rev && rev[m[cell]] == cell
    {
      if cell != Start(g) && cell != End(g) {
        assert cell in OtherCells(g);
      }
    }
    forall id | id in rev
      ensures rev[id] in m && m[rev[id]] == id
    {
      if id != StartId && id != EndId {
        assert rev[id] in OpenCells(g);
      }
    }
  }

  // ---------------------------------------------------------------------
  // The adjacency lists
  // ---------------------------------------------------------------------

  /** The step from (r, c) lands on a passable cell whose id is `v`. */
  predicate Reaches(g: Grid, r: int, c: int, step: (int, int), v: NodeId)
  {
    Open(g, r + step.0, c + step.1) && v == IdOf(g, r + step.0, c + step.1)
  }

  /** An id is in a neighbour list exactly when one of the given steps reaches a passable cell with that id. */
  lemma {:induction false} NeighbourIdsHas(g: Grid, r: int, c: int, dirs: seq<(int, int)>, v: NodeId)
    ensures v in NeighbourIds(g, r, c, dirs) <==> exists k :: 0 <= k < |dirs| && Reaches(g, r, c, dirs[k], v)
    decreases |dirs|
  {
    if dirs != [] {
      var init := dirs[..|dirs| - 1];
      var last := |dirs| - 1;
      NeighbourIdsHas(g, r, c, init, v);
      assert forall k :: 0 <= k < |init| ==> init[k] == dirs[k];
      if v in NeighbourIds(g, r, c, init) {
        var k :| 0 <= k < |init| && Reaches(g, r, c, init[k], v);
        assert Reaches(g, r, c, dirs[k], v);
      } else if v in NeighbourIds(g, r, c, dirs) {
        assert Reaches(g, r, c, dirs[last], v);
      } else {
        forall k | 0 <= k < |dirs|
          ensures !Reaches(g, r, c, dirs[k], v)
        {
          if k < last {
            assert dirs[k] == init[k];
          }
        }
      }
    }
  }

  /** Two cells one step apart vertically or horizontally. */
  predicate Adjacent(a: Cell, b: Cell)
  {
    (a.0 == b.0 && (a.1 - b.1 == 1 || b.1 - a.1 == 1)) ||
    (a.1 == b.1 && (a.0 - b.0 == 1 || b.0 - a.0 == 1))
  }

  /** Every id in a cell's neighbour list is the id of an adjacent passable cell. */
  lemma NeighbourIdsFrom(g: Grid, a: Cell, v: NodeId)
    requires v in NeighbourIds(g, a.0, a.1, Directions)
    ensures exists b :: b in OpenCells(g) && Adjacent(a, b) && v == IdOf(g, b.0, b.1)
  {
    NeighbourIdsHas(g, a.0, a.1, Directions, v);
    var k :| 0 <= k < |Directions| && Reaches(g, a.0, a.1, Directions[k], v);
    var b: Cell := (a.0 + Directions[k].0, a.1 + Directions[k].1);
    assert b in OpenCells(g);
  }

  /** A passable cell's neighbour list holds the id of every adjacent passable cell and of no other passable cell. */
  lemma NeighbourIdsAdjacent(g: Grid, a: Cell, b: Cell)
    requires a in OpenCells(g) && b in OpenCells(g)
    ensures IdOf(g, b.0, b.1) in NeighbourIds(g, a.0, a.1, Directions) <==> Adjacent(a, b)
  {
    var v := IdOf(g, b.0, b.1);
    NeighbourIdsHas(g, a.0, a.1, Directions, v);
    if Adjacent(a, b) {
      var k := if b.0 < a.0 then 0 else if b.0 > a.0 then 1 else if b.1 < a.1 then 2 else 3;
      assert b == (a.0 + Directions[k].0, a.1 + Directions[k].1);
      assert Reaches(g, a.0, a.1, Directions[k], v);
    }
    if v in NeighbourIds(g, a.0, a.1, Directions) {
      NeighbourIdsFrom(g, a, v);
      var b' :| b' in OpenCells(g) && Adjacent(a, b') && v == IdOf(g, b'.0, b'.1);
      IdInjective(g);
    }
  }

  /**
   * The finished `graph` has one key per passable cell, the cell's id, and its
   * list holds the ids of the in-bounds passable neighbours in the order up,
   * down, left, right; a passable cell without passable neighbours has an
   * empty list.
   */
  lemma GraphEntries(g: Grid)
    ensures forall u :: u in GraphSpec(g) <==> exists cell :: cell in OpenCells(g) && IdOf(g, cell.0, cell.1) == u
    ensures forall cell :: cell in OpenCells(g) ==>
      IdOf(g, cell.0, cell.1) in GraphSpec(g) &&
      GraphSpec(g)[IdOf(g, cell.0, cell.1)] == NeighbourIds(g, cell.0, cell.1, Directions)
  {
    GraphClosed(g);
    var graph := GraphBefore(g, |g|, 0);
    forall cell | cell in OpenCells(g)
      ensures IdOf(g, cell.0, cell.1) in graph &&
        graph[IdOf(g, cell.0, cell.1)] == NeighbourIds(g, cell.0, cell.1, Directions)
    {
      assert Before(cell, |g|, 0);
      CellOfIdOf(g, cell);
    }
  }

  /** The cell behind the key u of the finished `graph`, whose neighbour list holds v. */
  lemma GraphKeyCell(g: Grid, u: NodeId, v: NodeId)
    requires u in GraphSpec(g) && v in GraphSpec(g)[u]
    ensures exists a :: a in OpenCells(g) && IdOf(g, a.0, a.1) == u && v in NeighbourIds(g, a.0, a.1, Directions)
  {
    GraphEntries(g);
    var a :| a in OpenCells(g) && IdOf(g, a.0, a.1) == u;
    assert GraphSpec(g)[u] == NeighbourIds(g, a.0, a.1, Directions);
  }

  /** The neighbour v of a passable cell a is a distinct adjacent cell whose own list holds a's id. */
  lemma NeighbourBack(g: Grid, a: Cell, v: NodeId)
    requires a in OpenCells(g) && v in NeighbourIds(g, a.0, a.1, Directions)
    ensures exists b :: (b in OpenCells(g) && a != b && v == IdOf(g, b.0, b.1) &&
                         IdOf(g, a.0, a.1) in NeighbourIds(g, b.0, b.1, Directions))
  {
    NeighbourIdsFrom(g, a, v);
    var b :| b in OpenCells(g) && Adjacent(a, b) && v == IdOf(g, b.0, b.1);
    NeighbourIdsAdjacent(g, b, a);
  }

  /** One edge of the finished `graph` seen from its other end. */
  lemma GraphEdgeBack(g: Grid, u: NodeId, v: NodeId)
    requires u in GraphSpec(g) && v in GraphSpec(g)[u]
    ensures v in GraphSpec(g) && u in GraphSpec(g)[v] && u != v
  {
    GraphKeyCell(g, u, v);
    var a :| a in OpenCells(g) && IdOf(g, a.0, a.1) == u && v in NeighbourIds(g, a.0, a.1, Directions);
    NeighbourBack(g, a, v);
    var b :| b in OpenCells(g) && a != b && v == IdOf(g, b.0, b.1) &&
      IdOf(g, a.0, a.1) in NeighbourIds(g, b.0, b.1, Directions);
    GraphEntries(g);
    IdInjective(g);
  }

  /** Every edge is listed from both of its ends, and no node lists itself. */
  predicate Undirected(graph: Graph)
  {
    forall u, v :: u in graph && v in graph[u] ==> v in graph && u in graph[v] && u != v
  }

  /** The graph is undirected and has no loops: v is listed for u exactly when u is listed for v, and never u for u. */
  lemma GraphSymmetric(g: Grid)
    ensures Undirected(GraphSpec(g))
  {
    var graph := GraphSpec(g);
    forall u, v | u in graph && v in graph[u]
      ensures v in graph && u in graph[v] && u != v
    {
      GraphEdgeBack(g, u, v);
    }
  }

  /** On a grid of more than one cell, `reverse_node_map` takes a passable cell's id back to that cell. */
  lemma ReverseOfId(g: Grid, a: Cell)
    requires EndpointsOpen(g) && Start(g) != End(g) && a in OpenCells(g)
    ensures IdOf(g, a.0, a.1) in ReverseSpec(g) && ReverseSpec(g)[IdOf(g, a.0, a.1)] == a
  {
    NodeMapIds(g);
    NodeMapsInverse(g);
  }

  /** On a grid of more than one cell, both ends of an edge of the finished `graph` are passable cells one step apart. */
  lemma EdgeCells(g: Grid, u: NodeId, v: NodeId)
    requires EndpointsOpen(g) && Start(g) != End(g)
    requires u in GraphSpec(g) && v in GraphSpec(g)[u]
    ensures u in ReverseSpec(g) && v in ReverseSpec(g)
    ensures ReverseSpec(g)[u] in OpenCells(g) && ReverseSpec(g)[v] in OpenCells(g)
    ensures Adjacent(ReverseSpec(g)[u], ReverseSpec(g)[v])
  {
    GraphKeyCell(g, u, v);
    var a :| a in OpenCells(g) && IdOf(g, a.0, a.1) == u && v in NeighbourIds(g, a.0, a.1, Directions);
    NeighbourIdsFrom(g, a, v);
    var b :| b in OpenCells(g) && Adjacent(a, b) && v == IdOf(g, b.0, b.1);
    ReverseOfId(g, a);
    ReverseOfId(g, b);
  }

  /**
   * On a 1x1 grid the start cell is the end cell: `node_map` gives it id 1,
   * `reverse_node_map` keeps both 0 and 1, and `graph` has key 1 but no key 0.
   */
  lemma SingleCellMaps(g: Grid)
    requires EndpointsOpen(g) && Start(g) == End(g)
    ensures NodeMapSpec(g) == map[(0, 0) := EndId]
    ensures ReverseSpec(g) == map[StartId := (0, 0), EndId := (0, 0)]
    ensures GraphSpec(g) == map[EndId := []]
  {
    NumberingClosed(g);
    GraphClosed(g);
    assert OtherCells(g) == {} by {
      forall cell | cell in OtherCells(g)
        ensures false
      {
      }
    }
    assert OpenCells(g) == {(0, 0)};
    var nbrs := NeighbourIds(g, 0, 0, Directions);
    if nbrs != [] {
      NeighbourIdsFrom(g, (0, 0), nbrs[0]);
      assert false;
    }
  }

  // ---------------------------------------------------------------------
  // One step of the building loops
  // ---------------------------------------------------------------------

  /** Before the first cell only the endpoints are numbered and no adjacency list exists. */
  lemma BuildStart(g: Grid)
    ensures NodeMapBefore(g, 0, 0) == map[Start(g) := StartId][End(g) := EndId]
    ensures ReverseBefore(g, 0, 0) == map[StartId := Start(g)][EndId := End(g)]
    ensures Rank(g, 0, 0) == 0
    ensures GraphBefore(g, 0, 0) == map[]
  {
    assert forall cell :: cell in OtherCells(g) ==> !Before(cell, 0, 0);
    assert forall cell :: cell in OpenCells(g) ==> !Before(cell, 0, 0);
    assert IdsBefore(g, 0, 0) == {};
  }

  /** A map that agrees with `a` except for holding `v` at `k` is `a[k := v]`. */
  lemma MapUpdateEq<K, V>(a: map<K, V>, b: map<K, V>, k: K, v: V)
    requires forall x :: x in b <==> x in a || x == k
    requires k in b && b[k] == v
    requires forall x :: x in a && x != k ==> b[x] == a[x]
    ensures b == a[k := v]
  {
  }

  /** Storing twice under one key keeps the second value. */
  lemma UpdateTwice<K, V>(m: map<K, V>, k: K, a: V, b: V)
    ensures m[k := a][k := b] == m[k := b]
  {
  }

  /** Scanning cell (r, c) keeps every entry `node_map` already has, except possibly the one of a counter cell (r, c). */
  lemma NodeMapKeeps(g: Grid, r: nat, c: nat)
    requires r < |g| && c < Cols(g)
    ensures forall cell :: cell in NodeMapBefore(g, r, c) ==>
      cell in NodeMapBefore(g, r, c + 1) &&
      (cell != (r, c) || !Other(g, r, c) ==> NodeMapBefore(g, r, c + 1)[cell] == NodeMapBefore(g, r, c)[cell])
  {
    var a, b := NodeMapBefore(g, r, c), NodeMapBefore(g, r, c + 1);
    forall cell | cell in a
      ensures cell in b && (cell != (r, c) || !Other(g, r, c) ==> b[cell] == a[cell])
    {
    }
  }

  /** Scanning cell (r, c) adds no key to `node_map` other than (r, c), and that one only for a counter cell. */
  lemma NodeMapAdds(g: Grid, r: nat, c: nat)
    requires r < |g| && c < Cols(g)
    ensures forall cell :: cell in NodeMapBefore(g, r, c + 1) ==>
      cell in NodeMapBefore(g, r, c) || (cell == (r, c) && Other(g, r, c))
  {
    var a, b := NodeMapBefore(g, r, c), NodeMapBefore(g, r, c + 1);
    forall cell | cell in b
      ensures cell in a || (cell == (r, c) && Other(g, r, c))
    {
    }
  }

  /** Scanning a counter cell (r, c) numbers it in `node_map` with the next id. */
  lemma NodeMapStepOther(g: Grid, r: nat, c: nat)
    requires r < |g| && c < Cols(g) && Other(g, r, c)
    ensures NodeMapBefore(g, r, c + 1) == NodeMapBefore(g, r, c)[(r, c) := 2 + Rank(g, r, c)]
  {
    var a, b := NodeMapBefore(g, r, c), NodeMapBefore(g, r, c + 1);
    NodeMapKeeps(g, r, c);
    NodeMapAdds(g, r, c);
    assert (r, c) in OtherCells(g) && Before((r, c), r, c + 1);
    assert (r, c) in b && b[(r, c)] == 2 + Rank(g, r, c);
    MapUpdateEq(a, b, (r, c), 2 + Rank(g, r, c));
  }

  /** Scanning any other cell leaves `node_map` alone. */
  lemma NodeMapStepSkip(g: Grid, r: nat, c: nat)
    requires r < |g| && c < Cols(g) && !Other(g, r, c)
    ensures NodeMapBefore(g, r, c + 1) == NodeMapBefore(g, r, c)
  {
    var a, b := NodeMapBefore(g, r, c), NodeMapBefore(g, r, c + 1);
    NodeMapKeeps(g, r, c);
    NodeMapAdds(g, r, c);
    assert forall cell :: cell in b <==> cell in a;
  }

  /** `reverse_node_map` part way through the scan: ids 0 and 1, then the counter cells numbered so far. */
  lemma ReverseBeforeEntries(g: Grid, r: nat, c: nat)
    requires Position(g, r, c)
    ensures 2 + Rank(g, r, c) <= NodeCount(g)
    ensures forall id :: id in ReverseBefore(g, r, c) <==> 0 <= id < 2 + Rank(g, r, c)
    ensures ReverseBefore(g, r, c)[StartId] == Start(g) && ReverseBefore(g, r, c)[EndId] == End(g)
    ensures forall id :: 2 <= id < 2 + Rank(g, r, c) ==> ReverseBefore(g, r, c)[id] == CellWithId(g, id)
  {
    RankPositionBound(g, r, c);
  }

  /** The id a counter cell draws belongs to that cell alone. */
  lemma CellWithIdOf(g: Grid, r: nat, c: nat)
    requires Other(g, r, c)
    ensures 2 + Rank(g, r, c) < NodeCount(g)
    ensures CellWithId(g, 2 + Rank(g, r, c)) == (r, c)
  {
    assert (r, c) in OtherCells(g);
    RankStrict(g, (r, c), |g|, 0);
    RankInjective(g);
  }

  /** Numbering one more counter cell adds exactly its id. */
  lemma ReverseUpToStep(g: Grid, k: nat)
    requires k < OtherCount(g)
    ensures ReverseUpTo(g, k + 1) == ReverseUpTo(g, k)[2 + k := CellWithId(g, 2 + k)]
  {
    var a, b := ReverseUpTo(g, k), ReverseUpTo(g, k + 1);
    ReverseUpToKeys(g, k);
    ReverseUpToValues(g, k);
    MapUpdateEq(a, b, 2 + k, CellWithId(g, 2 + k));
  }

  /** The ids numbered after k + 1 counter cells are those after k cells and 2 + k. */
  lemma ReverseUpToKeys(g: Grid, k: nat)
    requires k < OtherCount(g)
    ensures forall id :: id in ReverseUpTo(g, k + 1) <==> id in ReverseUpTo(g, k) || id == 2 + k
  {
  }

  /** Numbering counter cell k + 1 keeps the earlier entries and records its own. */
  lemma ReverseUpToValues(g: Grid, k: nat)
    requires k < OtherCount(g)
    ensures 2 + k in ReverseUpTo(g, k + 1) && ReverseUpTo(g, k + 1)[2 + k] == CellWithId(g, 2 + k)
    ensures forall id :: id in ReverseUpTo(g, k) && id != 2 + k ==> ReverseUpTo(g, k + 1)[id] == ReverseUpTo(g, k)[id]
  {
    var a, b := ReverseUpTo(g, k), ReverseUpTo(g, k + 1);
    forall id | id in a && id != 2 + k
      ensures id in b && b[id] == a[id]
    {
    }
  }

  /** Scanning a counter cell records it in `reverse_node_map` under the next id. */
  lemma ReverseStepOther(g: Grid, r: nat, c: nat)
    requires r < |g| && c < Cols(g) && Other(g, r, c)
    ensures ReverseBefore(g, r, c + 1) == ReverseBefore(g, r, c)[2 + Rank(g, r, c) := (r, c)]
  {
    assert Rank(g, r, c + 1) == Rank(g, r, c) + 1;
    CellWithIdOf(g, r, c);
    ReverseUpToStep(g, Rank(g, r, c));
  }

  /** Scanning any other cell leaves `reverse_node_map` alone. */
  lemma ReverseStepSkip(g: Grid, r: nat, c: nat)
    requires r < |g| && c < Cols(g) && !Other(g, r, c)
    ensures ReverseBefore(g, r, c + 1) == ReverseBefore(g, r, c)
  {
    assert Rank(g, r, c + 1) == Rank(g, r, c);
  }

  /** The builder's test for a counter cell: it holds 1 and is neither the start nor the end cell. */
  lemma OtherTest(g: Grid, r: nat, c: nat, start: Cell, end: Cell)
    requires Rectangular(g) && r < |g| && c < Cols(g)
    requires start == Start(g) && end == End(g)
    ensures Other(g, r, c) <==> g[r][c] == 1 && (r, c) !in [start, end]
  {
  }

  /**
   * One step of the numbering loop, on the values the loop holds at (r, c):
   * a counter cell gets the next id in both maps, any other cell changes nothing.
   */
  lemma NumberingStep(g: Grid, r: nat, c: nat)
    requires r < |g| && c < Cols(g)
    ensures NumberCell(g, r, c, NumberingBefore(g, r, c)) == NumberingBefore(g, r, c + 1)
  {
    if Other(g, r, c) {
      assert Rank(g, r, c + 1) == Rank(g, r, c) + 1;
      NodeMapStepOther(g, r, c);
      ReverseStepOther(g, r, c);
    } else {
      assert Rank(g, r, c + 1) == Rank(g, r, c);
      NodeMapStepSkip(g, r, c);
      ReverseStepSkip(g, r, c);
    }
  }

  /** The end of row r is the start of row r + 1, for the whole numbering state. */
  lemma NumberingRowEnd(g: Grid, r: nat)
    requires r < |g|
    ensures NumberingBefore(g, r, Cols(g)) == NumberingBefore(g, r + 1, 0)
  {
    RankRowEnd(g, r);
    NodeMapRowEnd(g, r);
    RankPositionBound(g, r, Cols(g));
  }

  /** The end of row r is the start of row r + 1, for the counter. */
  lemma RankRowEnd(g: Grid, r: nat)
    requires r < |g|
    ensures Rank(g, r, Cols(g)) == Rank(g, r + 1, 0)
  {
  }

  /** The end of row r is the start of row r + 1, for `node_map`. */
  lemma NodeMapRowEnd(g: Grid, r: nat)
    requires r < |g|
    ensures NodeMapBefore(g, r, Cols(g)) == NodeMapBefore(g, r + 1, 0)
  {
    var a, b := NodeMapBefore(g, r, Cols(g)), NodeMapBefore(g, r + 1, 0);
    assert forall cell :: cell in OtherCells(g) ==> (Before(cell, r, Cols(g)) <==> Before(cell, r + 1, 0));
    assert forall cell :: cell in a <==> cell in b;
  }

  /** The end of row r is the start of row r + 1, for the adjacency lists. */
  lemma AdjacencyRowEnd(g: Grid, r: nat)
    requires r < |g|
    ensures GraphBefore(g, r, Cols(g)) == GraphBefore(g, r + 1, 0)
  {
    assert forall cell :: cell in OpenCells(g) ==> (Before(cell, r, Cols(g)) <==> Before(cell, r + 1, 0));
    assert IdsBefore(g, r, Cols(g)) == IdsBefore(g, r + 1, 0);
  }

  /** Scanning cell (r, c) adds its id to the ids seen exactly when it is passable. */
  lemma IdsStep(g: Grid, r: nat, c: nat)
    requires r < |g| && c < Cols(g)
    ensures IdsBefore(g, r, c + 1) == if Open(g, r, c) then IdsBefore(g, r, c) + {IdOf(g, r, c)} else IdsBefore(g, r, c)
  {
    if Open(g, r, c) {
      assert (r, c) in OpenCells(g);
    }
  }

  /** Scanning a passable cell (r, c) adds its id with its neighbour list; other cells add nothing. */
  lemma AdjacencyStep(g: Grid, r: nat, c: nat)
    requires r < |g| && c < Cols(g)
    ensures GraphBefore(g, r, c + 1) == AddCell(g, r, c, GraphBefore(g, r, c))
  {
    var a, b := GraphBefore(g, r, c), GraphBefore(g, r, c + 1);
    IdsStep(g, r, c);
    AdjacencyKeep(g, r, c);
    if Open(g, r, c) {
      assert (r, c) in OpenCells(g);
      CellOfIdOf(g, (r, c));
      MapUpdateEq(a, b, IdOf(g, r, c), NeighbourIds(g, r, c, Directions));
    } else {
      assert a.Keys == b.Keys;
    }
  }

  /** Scanning one more cell keeps every adjacency list already built. */
  lemma AdjacencyKeep(g: Grid, r: nat, c: nat)
    ensures forall u :: u in GraphBefore(g, r, c) && u in GraphBefore(g, r, c + 1) ==>
      GraphBefore(g, r, c + 1)[u] == GraphBefore(g, r, c)[u]
  {
  }

  /**
   * Trying direction d from (r, c), which reaches (nr, nc): the list grows by
   * the id of (nr, nc) exactly when that cell is inside the grid and holds 1.
   */
  lemma NeighbourIdsStep(g: Grid, r: int, c: int, d: nat, nr: int, nc: int)
    requires Rectangular(g) && d < |Directions|
    requires nr == r + Directions[d].0 && nc == c + Directions[d].1
    ensures NeighbourIds(g, r, c, Directions[..d + 1]) ==
      if 0 <= nr < |g| && 0 <= nc < Cols(g) && g[nr][nc] == 1
      then NeighbourIds(g, r, c, Directions[..d]) + [IdOf(g, nr, nc)]
      else NeighbourIds(g, r, c, Directions[..d])
  {
    assert Directions[..d + 1][..d] == Directions[..d];
    assert NeighbourIds(g, r, c, Directions[..d]) + [] == NeighbourIds(g, r, c, Directions[..d]);
  }

  // ---------------------------------------------------------------------
  // The building loops, one cell at a time
  // ---------------------------------------------------------------------

  /** What the numbering loop carries: `node_map`, `reverse_node_map` and the next free id. */
  datatype Numbering = Numbering(nodeMap: map<Cell, NodeId>, reverse: map<NodeId, Cell>, next: NodeId)

  /** The numbering loop's work on cell (r, c): a counter cell takes the next id in both maps. */
  function NumberCell(g: Grid, r: nat, c: nat, n: Numbering): Numbering
  {
    if Other(g, r, c) then Numbering(n.nodeMap[(r, c) := n.next], n.reverse[n.next := (r, c)], n.next + 1)
    else n
  }

  /** The numbering loop's state on reaching (r, c), cell by cell from the endpoints' entries. */
  function NumberingAt(g: Grid, r: nat, c: nat): Numbering
    decreases r, c
  {
    if c > 0 then NumberCell(g, r, c - 1, NumberingAt(g, r, c - 1))
    else if r > 0 then NumberingAt(g, r - 1, Cols(g))
    else Numbering(map[Start(g) := StartId][End(g) := EndId], map[StartId := Start(g)][EndId := End(g)], 2)
  }

  /** The numbering state in closed form once every cell before (r, c) is scanned. */
  ghost function NumberingBefore(g: Grid, r: nat, c: nat): Numbering
    requires Position(g, r, c)
  {
    Numbering(NodeMapBefore(g, r, c), ReverseBefore(g, r, c), 2 + Rank(g, r, c))
  }

  /** The loop's state at (r, c) is the prefix of the numbering in closed form. */
  lemma {:induction false} NumberingAtBefore(g: Grid, r: nat, c: nat)
    requires Position(g, r, c)
    ensures NumberingAt(g, r, c) == NumberingBefore(g, r, c)
    decreases r, c
  {
    if c > 0 {
      NumberingAtBefore(g, r, c - 1);
      NumberingAtNext(g, r, c - 1);
    } else if r > 0 {
      NumberingAtBefore(g, r - 1, Cols(g));
      NumberingAtRow(g, r - 1);
    } else {
      NumberingStart(g);
    }
  }

  /** If the loop's state agrees with the closed form at (r, c), it does after scanning (r, c). */
  lemma NumberingAtNext(g: Grid, r: nat, c: nat)
    requires r < |g| && c < Cols(g) && NumberingAt(g, r, c) == NumberingBefore(g, r, c)
    ensures NumberingAt(g, r, c + 1) == NumberingBefore(g, r, c + 1)
  {
    NumberingStep(g, r, c);
  }

  /** If the loop's state agrees with the closed form at the end of row r, it does at the start of row r + 1. */
  lemma NumberingAtRow(g: Grid, r: nat)
    requires r < |g| && NumberingAt(g, r, Cols(g)) == NumberingBefore(g, r, Cols(g))
    ensures NumberingAt(g, r + 1, 0) == NumberingBefore(g, r + 1, 0)
  {
    NumberingRowEnd(g, r);
  }

  /** Before the first cell the loop holds the endpoints' entries and the next id is 2. */
  lemma NumberingStart(g: Grid)
    ensures NumberingAt(g, 0, 0) == NumberingBefore(g, 0, 0)
  {
    BuildStart(g);
  }

  /** The adjacency loop's work on cell (r, c): a passable cell gets its neighbour list under its id. */
  function AddCell(g: Grid, r: nat, c: nat, graph: Graph): Graph
  {
    if Open(g, r, c) then graph[IdOf(g, r, c) := NeighbourIds(g, r, c, Directions)] else graph
  }

  /** The adjacency loop's `graph` on reaching (r, c), cell by cell from the empty map. */
  function AdjacencyAt(g: Grid, r: nat, c: nat): Graph
    decreases r, c
  {
    if c > 0 then AddCell(g, r, c - 1, AdjacencyAt(g, r, c - 1))
    else if r > 0 then AdjacencyAt(g, r - 1, Cols(g))
    else map[]
  }

  /** The loop's `graph` at (r, c) is the prefix of the adjacency map in closed form. */
  lemma {:induction false} AdjacencyAtBefore(g: Grid, r: nat, c: nat)
    requires Position(g, r, c)
    ensures AdjacencyAt(g, r, c) == GraphBefore(g, r, c)
    decreases r, c
  {
    if c > 0 {
      AdjacencyAtBefore(g, r, c - 1);
      AdjacencyStep(g, r, c - 1);
    } else if r > 0 {
      AdjacencyAtBefore(g, r - 1, Cols(g));
      AdjacencyRowEnd(g, r - 1);
    } else {
      BuildStart(g);
    }
  }
}
