/**
 * The 3x3 Tic-Tac-Toe grid (the global `tictactoe_grid` of ttt.c).
 *
 * The C array `char[GRID_SIZE][GRID_SIZE]` is laid out row-major, so it is
 * modelled as nine cells, cell (x, y) at index x * GridSize + y: as a value
 * `Grid` for the read-only functions, and as an `array<char>` of that length
 * for the operations that write it in place.
 */
module Board {

  const GridSize: int := 3
  const Cells: int := 9
  const Blank: char := ' '
  const Player1Char: char := 'X'
  const Player2Char: char := 'O'

  /** A grid with every cell blank: the state resetGrid leaves behind. */
  const EmptyGrid: seq<char> := seq(9, _ => ' ')

  type Grid = g: seq<char> | |g| == Cells witness EmptyGrid

  datatype Option<T> = None | Some(value: T)

  /** A coordinate pair, zero-based (x is the row, y the column). */
  datatype Coord = Coord(x: int, y: int)

  /** Both coordinates inside the grid. */
  predicate InBounds(x: int, y: int)
  {
    0 <= x < GridSize && 0 <= y < GridSize
  }

  /** The guard of getGridCell and setGridCell as written: upper bounds only. */
  predicate UpperBoundGuard(x: int, y: int)
  {
    x < GridSize && y < GridSize
  }

  /** Where cell (x, y) lives in the row-major layout of the C array. */
  function Index(x: int, y: int): (k: int)
    requires InBounds(x, y)
    ensures 0 <= k < Cells
  {
    x * GridSize + y
  }

  function At(g: Grid, x: int, y: int): (c: char)
    requires InBounds(x, y)
  {
    g[Index(x, y)]
  }

  /** No cell holds the blank character. */
  predicate IsFull(g: Grid)
  {
    forall k :: 0 <= k < Cells ==> g[k] != Blank
  }

  /**
   * getGridCell: the cell's character widened to int, or -1 when the
   * coordinates are outside the grid. Since a character's code is never
   * negative, -1 is returned exactly for the coordinates outside the grid.
   */
  function GetGridCell(g: Grid, x: int, y: int): (r: int)
    ensures r == -1 <==> !InBounds(x, y)
    ensures InBounds(x, y) ==> r == At(g, x, y) as int
  {
    if InBounds(x, y) then g[Index(x, y)] as int else -1
  }

  /**
   * The grid after setGridCell(x, y, c): cell (x, y) holds c and every
   * other cell is as before; outside the grid nothing changes.
   */
  function SetCell(g: Grid, x: int, y: int, c: char): (r: Grid)
    ensures forall i, j :: InBounds(i, j) ==>
      At(r, i, j) == (if i == x && j == y then c else At(g, i, j))
    ensures !InBounds(x, y) ==> r == g
  {
    if InBounds(x, y) then g[Index(x, y) := c] else g
  }

  /**
   * A get after a set: the cell that was written reads back as the
   * character written, every other cell reads back as before, and an
   * out-of-bounds set leaves every read unchanged.
   */
  lemma GetAfterSet(g: Grid, x: int, y: int, c: char)
    ensures InBounds(x, y) ==> GetGridCell(SetCell(g, x, y, c), x, y) == c as int
    ensures forall i, j :: !(i == x && j == y) ==>
      GetGridCell(SetCell(g, x, y, c), i, j) == GetGridCell(g, i, j)
    ensures !InBounds(x, y) ==> GetGridCell(SetCell(g, x, y, c), x, y) == -1
  {
  }

  /**
   * The scan of isFullGrid from cell (i, j) on, in row-major order: 0 at
   * the first blank cell, 1 when the rest of the grid has none.
   */
  function FullFrom(g: Grid, i: int, j: int): (r: int)
    requires 0 <= i <= GridSize && 0 <= j <= GridSize
    ensures r == 0 || r == 1
    ensures r == 1 <==> forall k :: i * GridSize + j <= k < Cells ==> g[k] != Blank
    decreases GridSize - i, GridSize - j
  {
    if i == GridSize then 1
    else if j == GridSize then FullFrom(g, i + 1, 0)
    else if GetGridCell(g, i, j) == Blank as int then 0
    else FullFrom(g, i, j + 1)
  }

  /** isFullGrid: 1 exactly when no cell is blank, 0 otherwise. */
  function IsFullGrid(g: Grid): (r: int)
    ensures r == 0 || r == 1
    ensures r == 1 <==> IsFull(g)
  {
    FullFrom(g, 0, 0)
  }

  /** The number of blank cells in a run of cells. */
  function BlankCount(s: seq<char>): (n: nat)
  {
    multiset(s)[Blank]
  }

  /** Filling one blank cell with a non-blank character removes exactly one blank. */
  lemma BlankCountFill(s: seq<char>, k: int, c: char)
    requires 0 <= k < |s| && s[k] == Blank && c != Blank
    ensures BlankCount(s[k := c]) + 1 == BlankCount(s)
  {
  }

  /** There are never more blanks than cells, and none exactly when every cell is filled. */
  lemma {:induction false} BlankCountBounds(s: seq<char>)
    ensures BlankCount(s) <= |s|
    ensures BlankCount(s) == 0 <==> forall k :: 0 <= k < |s| ==> s[k] != Blank
  {
    if s != [] {
      BlankCountBounds(s[1..]);
      assert s == [s[0]] + s[1..];
      assert multiset(s) == multiset{s[0]} + multiset(s[1..]);
    }
  }

  /**
   * setGridCell: writes c into cell (x, y) and returns c, or returns -1 and
   * leaves the grid alone when (x, y) is outside it.
   */
  method SetGridCell(grid: array<char>, x: int, y: int, c: char) returns (r: int)
    requires grid.Length == Cells
    modifies grid
    ensures grid[..] == SetCell(old(grid[..]), x, y, c)
    ensures r == (if InBounds(x, y) then c as int else -1)
  {
    if InBounds(x, y) {
      grid[x * GridSize + y] := c;
      r := c as int;
    } else {
      r := -1;
    }
  }

  /**
   * resetGrid: blanks every cell, one setGridCell per cell in row-major
   * order, and returns GridSize (its -1 failure return cannot happen).
   * The result does not depend on the previous grid, so a second reset
   * changes nothing.
   */
  method ResetGrid(grid: array<char>) returns (r: int)
    requires grid.Length == Cells
    modifies grid
    ensures grid[..] == EmptyGrid
    ensures r == GridSize
  {
    var i, j := 0, 0;
    while i < GridSize
      invariant 0 <= i <= GridSize
      invariant i > 0 ==> j == GridSize
      invariant forall k :: 0 <= k < i * GridSize ==> grid[k] == Blank
    {
      j := 0;
      while j < GridSize
        invariant 0 <= j <= GridSize
        invariant forall k :: 0 <= k < i * GridSize + j ==> grid[k] == Blank
      {
        var _ := SetGridCell(grid, i, j, Blank);
        j := j + 1;
      }
      i := i + 1;
    }
    assert forall k :: 0 <= k < Cells ==> grid[..][k] == EmptyGrid[k];
    r := if i == GridSize && j == GridSize then GridSize else -1;
  }
}
