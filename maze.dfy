/**
 * The maze grid: a matrix of ints in which 1 marks a passable cell and any
 * other value a wall, the text format it is read from, and the test that
 * the start and end cells are passable.
 */
module Maze {
  import opened Wrappers

  /** (row, column), 0-indexed. */
  type Cell = (int, int)

  /** One list of ints per row. */
  type Grid = seq<seq<int>>

  /** Why a maze could not be loaded. */
  datatype LoadError =
    | EmptyGrid     // an index error on `data[0]` or `maze_data[0][0]`
    | UnequalRows   // a row's length differs from the first row's
    | StartBlocked  // cell (0, 0) is not 1
    | EndBlocked    // cell (rows-1, cols-1) is not 1

  /** The width taken from the first row, as `len(data[0]) if rows > 0 else 0`. */
  function Cols(g: Grid): nat
  {
    if |g| == 0 then 0 else |g[0]|
  }

  /** Every row is as long as the first one. */
  predicate Rectangular(g: Grid)
  {
    forall i :: 0 <= i < |g| ==> |g[i]| == Cols(g)
  }

  /** The cell is inside the grid and holds 1. */
  predicate Open(g: Grid, r: int, c: int)
  {
    0 <= r < |g| && 0 <= c < Cols(g) && c < |g[r]| && g[r][c] == 1
  }

  function Start(g: Grid): Cell
  {
    (0, 0)
  }

  function End(g: Grid): Cell
  {
    (|g| - 1, Cols(g) - 1)
  }

  predicate EndpointsOpen(g: Grid)
  {
    Open(g, Start(g).0, Start(g).1) && Open(g, End(g).0, End(g).1)
  }

  predicate IsBitRow(row: seq<int>)
  {
    forall k :: 0 <= k < |row| ==> row[k] == 0 || row[k] == 1
  }

  // ---------------------------------------------------------------------
  // Reading a maze from text
  // ---------------------------------------------------------------------

  predicate IsBitChar(ch: char)
  {
    ch == '0' || ch == '1'
  }

  /** The row read from one line: its '0' and '1' characters, in order, as ints. */
  function ParseRow(line: string): (row: seq<int>)
    ensures |row| <= |line|
    ensures IsBitRow(row)
  {
    if line == [] then []
    else
      var ch := line[|line| - 1];
      ParseRow(line[..|line| - 1]) + (if IsBitChar(ch) then [if ch == '0' then 0 else 1] else [])
  }

  /** The rows read from the lines of a file; lines without a '0' or '1' give no row. */
  function NonEmptyRows(lines: seq<string>): (data: Grid)
    ensures |data| <= |lines|
    ensures forall i :: 0 <= i < |data| ==> data[i] != [] && IsBitRow(data[i])
  {
    if lines == [] then []
    else
      var row := ParseRow(lines[|lines| - 1]);
      NonEmptyRows(lines[..|lines| - 1]) + (if row == [] then [] else [row])
  }

  /**
   * The maze a file yields, or the reason it is refused: the rows read from
   * its lines, when there is at least one and all are as long as the first;
   * no row at all exactly when none of its lines holds a '0' or '1'; unequal
   * rows otherwise.
   */
  function MazeFromLines(lines: seq<string>): (r: Result<Grid, LoadError>)
    ensures r.Ok? ==>
      r.value != [] && Rectangular(r.value) && Cols(r.value) > 0 &&
      forall i :: 0 <= i < |r.value| ==> IsBitRow(r.value[i])
    ensures r.Ok? ==> r.value == NonEmptyRows(lines)
    ensures r.Err? ==> r.error == EmptyGrid || r.error == UnequalRows
    ensures r == Err(UnequalRows) <==>
      NonEmptyRows(lines) != [] &&
      exists i :: 0 <= i < |NonEmptyRows(lines)| && |NonEmptyRows(lines)[i]| != |NonEmptyRows(lines)[0]|
    ensures r == Err(EmptyGrid) <==> forall j :: 0 <= j < |lines| ==> ParseRow(lines[j]) == []
  {
    NonEmptyRowsNone(lines);
    var data := NonEmptyRows(lines);
    if data == [] then Err(EmptyGrid)
    else if !Rectangular(data) then Err(UnequalRows)
    else Ok(data)
  }

  /** The text of one row, as the maze file holds it. */
  function RowText(row: seq<int>): (line: string)
    requires IsBitRow(row)
    ensures |line| == |row|
  {
    if row == [] then []
    else RowText(row[..|row| - 1]) + [if row[|row| - 1] == 0 then '0' else '1']
  }

  /** The lines of a maze file for a grid, each ending in a newline. */
  function MazeText(g: Grid): (lines: seq<string>)
    requires forall i :: 0 <= i < |g| ==> IsBitRow(g[i])
    ensures |lines| == |g|
  {
    if g == [] then []
    else MazeText(g[..|g| - 1]) + [RowText(g[|g| - 1]) + "\n"]
  }

  /** Reading is piecewise: the row of a concatenation is the concatenation of the rows. */
  lemma {:induction false} ParseRowAppend(a: string, b: string)
    ensures ParseRow(a + b) == ParseRow(a) + ParseRow(b)
    decreases |b|
  {
    if b == [] {
      assert a + b == a;
    } else {
      var b' := b[..|b| - 1];
      assert (a + b)[..|a + b| - 1] == a + b';
      assert (a + b)[|a + b| - 1] == b[|b| - 1];
      ParseRowAppend(a, b');
    }
  }

  /** A line yields no row exactly when it holds no '0' or '1'. */
  lemma {:induction false} ParseRowEmpty(line: string)
    ensures ParseRow(line) == [] <==> forall k :: 0 <= k < |line| ==> !IsBitChar(line[k])
    decreases |line|
  {
    if line != [] {
      var init := line[..|line| - 1];
      ParseRowEmpty(init);
      assert forall k :: 0 <= k < |init| ==> init[k] == line[k];
    }
  }

  /** Reading the text of a row gives the row back. */
  lemma {:induction false} ParseRowText(row: seq<int>)
    requires IsBitRow(row)
    ensures ParseRow(RowText(row)) == row
    decreases |row|
  {
    if row != [] {
      var init := row[..|row| - 1];
      var x := row[|row| - 1];
      var ch := if x == 0 then '0' else '1';
      ParseRowText(init);
      ParseRowAppend(RowText(init), [ch]);
      assert ParseRow([ch]) == ParseRow([]) + [x] by {
        assert [ch][..0] == [];
      }
      assert init + [x] == row;
    }
  }

  /** Reading a newline-terminated line ignores the newline. */
  lemma ParseRowNewline(line: string)
    ensures ParseRow(line + "\n") == ParseRow(line)
  {
    ParseRowAppend(line, "\n");
    assert "\n"[..0] == [];
  }

  /** Reading the text of a grid without empty rows gives the grid back. */
  lemma {:induction false} NonEmptyRowsText(g: Grid)
    requires forall i :: 0 <= i < |g| ==> IsBitRow(g[i]) && g[i] != []
    ensures NonEmptyRows(MazeText(g)) == g
    decreases |g|
  {
    if g != [] {
      var init := g[..|g| - 1];
      var lines := MazeText(g);
      assert lines[..|lines| - 1] == MazeText(init);
      NonEmptyRowsText(init);
      ParseRowNewline(RowText(g[|g| - 1]));
      ParseRowText(g[|g| - 1]);
      assert init + [g[|g| - 1]] == g;
    }
  }

  /** Reading is piecewise over the lines: the rows of two files joined are the rows of each, in order. */
  lemma {:induction false} NonEmptyRowsAppend(a: seq<string>, b: seq<string>)
    ensures NonEmptyRows(a + b) == NonEmptyRows(a) + NonEmptyRows(b)
    decreases |b|
  {
    if b == [] {
      assert a + b == a;
    } else {
      var b' := b[..|b| - 1];
      assert (a + b)[..|a + b| - 1] == a + b';
      assert (a + b)[|a + b| - 1] == b[|b| - 1];
      NonEmptyRowsAppend(a, b');
    }
  }

  /** A single line gives its row, or nothing when the row is empty. */
  lemma NonEmptyRowsLine(line: string)
    ensures NonEmptyRows([line]) == if ParseRow(line) == [] then [] else [ParseRow(line)]
  {
    assert [line][..0] == [];
  }

  /** No rows are read exactly when no line yields a row. */
  lemma {:induction false} NonEmptyRowsNone(lines: seq<string>)
    ensures NonEmptyRows(lines) == [] <==> forall j :: 0 <= j < |lines| ==> ParseRow(lines[j]) == []
    decreases |lines|
  {
    if lines != [] {
      var init := lines[..|lines| - 1];
      NonEmptyRowsNone(init);
      assert forall j :: 0 <= j < |init| ==> init[j] == lines[j];
    }
  }

  /** Round trip: the text of a rectangular, non-empty grid of bits reads back as that grid. */
  lemma MazeFromText(g: Grid)
    requires g != [] && Cols(g) > 0 && Rectangular(g)
    requires forall i :: 0 <= i < |g| ==> IsBitRow(g[i])
    ensures MazeFromLines(MazeText(g)) == Ok(g)
  {
    NonEmptyRowsText(g);
  }

  /**
   * The reading loop of `load_map_file`: collect the non-empty rows, take the
   * width from the first one (an index error when there is none), and refuse
   * the file at the first row of another width.
   */
  method ParseMapLines(lines: seq<string>) returns (result: Result<Grid, LoadError>)
    ensures result == MazeFromLines(lines)
  {
    var data: Grid := [];
    for j := 0 to |lines|
      invariant data == NonEmptyRows(lines[..j])
    {
      assert lines[..j + 1][..j] == lines[..j];
      var row := ParseRow(lines[j]);
      if row != [] {
        data := data + [row];
      }
    }
    assert lines[..|lines|] == lines;
    if data == [] {
      return Err(EmptyGrid);
    }
    var width := |data[0]|;
    for i := 0 to |data|
      invariant forall k :: 0 <= k < i ==> |data[k]| == width
    {
      if |data[i]| != width {
        return Err(UnequalRows);
      }
    }
    return Ok(data);
  }

  // ---------------------------------------------------------------------
  // The endpoint check of `load_maze_data`
  // ---------------------------------------------------------------------

  /**
   * The error `load_maze_data` raises before building the graph, if any:
   * indexing cell (0, 0) fails on an empty grid, then the start cell is
   * checked, then the end cell.
   */
  function EndpointError(g: Grid): (err: Option<LoadError>)
    requires Rectangular(g)
    ensures err == None <==> EndpointsOpen(g)
    ensures err == Some(EmptyGrid) <==> Cols(g) == 0
    ensures err == Some(StartBlocked) <==> Cols(g) > 0 && !Open(g, 0, 0)
    ensures err == Some(EndBlocked) <==> Open(g, 0, 0) && !Open(g, |g| - 1, Cols(g) - 1)
  {
    if |g| == 0 || |g[0]| == 0 then Some(EmptyGrid)
    else if g[0][0] != 1 then Some(StartBlocked)
    else if g[|g| - 1][Cols(g) - 1] != 1 then Some(EndBlocked)
    else None
  }
}
