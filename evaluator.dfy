/**
 * The win/tie evaluator of ttt.c (getWinStatus).
 *
 * getWinStatus checks the eight lines in a fixed order: for each i, row i
 * and then column i; then the down diagonal from (0, 0) to (2, 2); then the
 * up diagonal from (2, 0) to (0, 2). The first complete line decides.
 *
 * Two evaluators are defined on one scan. GetWinStatus is the function as
 * written, whose column branch reports the character of cell (i, 0) rather
 * than that of the column's own cell (0, i); WinStatus reports the column's
 * own character and is the evaluator the game uses.
 */
module Evaluator {
  import opened Board
  import opened Players

  /** The eight lines of the grid. */
  datatype Line = Row(i: int) | Column(i: int) | Down | Up

  predicate ValidLine(l: Line)
  {
    (l.Row? || l.Column?) ==> 0 <= l.i < GridSize
  }

  /** The position of a line in getWinStatus's checking order, from 0 to 7. */
  function Rank(l: Line): (r: int)
  {
    match l
    case Row(i) => 2 * i
    case Column(i) => 2 * i + 1
    case Down => 6
    case Up => 7
  }

  /** Cell m of line l; cell 0 is the one the line's other cells are compared with. */
  function LineCell(l: Line, m: int): (p: Coord)
    requires ValidLine(l) && 0 <= m < GridSize
    ensures InBounds(p.x, p.y)
  {
    match l
    case Row(i) => Coord(i, m)
    case Column(i) => Coord(m, i)
    case Down => Coord(m, m)
    case Up => Coord(GridSize - 1 - m, m)
  }

  function CellOf(g: Grid, p: Coord): (c: char)
    requires InBounds(p.x, p.y)
  {
    At(g, p.x, p.y)
  }

  /** Line l is complete: no cell of it is blank and all hold the same character. */
  predicate Complete(g: Grid, l: Line)
    requires ValidLine(l)
  {
    forall m :: 0 <= m < GridSize ==>
      CellOf(g, LineCell(l, m)) != Blank && CellOf(g, LineCell(l, m)) == CellOf(g, LineCell(l, 0))
  }

  ghost predicate AnyComplete(g: Grid)
  {
    exists l :: ValidLine(l) && Complete(g, l)
  }

  /**
   * The first complete line in checking order from loop index i on (row i,
   * column i, the later rows and columns, then the diagonals), or None.
   */
  function FirstFrom(g: Grid, i: int): (first: Option<Line>)
    requires 0 <= i <= GridSize
    ensures first.Some? ==> ValidLine(first.value) && Complete(g, first.value)
    decreases GridSize - i
  {
    if i < GridSize then
      if Complete(g, Row(i)) then Some(Row(i))
      else if Complete(g, Column(i)) then Some(Column(i))
      else FirstFrom(g, i + 1)
    else if Complete(g, Down) then Some(Down)
    else if Complete(g, Up) then Some(Up)
    else None
  }

  /** Ranks number the lines one to one: rank 2 * i is row i, rank 2 * i + 1 is column i, ranks 6 and 7 the diagonals. */
  lemma RankNames(l: Line, i: int)
    requires ValidLine(l) && 0 <= i <= GridSize
    ensures 0 <= Rank(l) < 2 * GridSize + 2
    ensures i < GridSize && Rank(l) == 2 * i ==> l == Row(i)
    ensures i < GridSize && Rank(l) == 2 * i + 1 ==> l == Column(i)
    ensures i == GridSize && Rank(l) >= 2 * i ==> l == Down || l == Up
  {
  }

  /**
   * FirstFrom finds the complete line of least rank among the lines of
   * rank 2 * i or more, and finds none exactly when none of them is
   * complete.
   */
  lemma {:induction false} FirstFromSpec(g: Grid, i: int)
    requires 0 <= i <= GridSize
    ensures FirstFrom(g, i).None? <==> forall l :: ValidLine(l) && Rank(l) >= 2 * i ==> !Complete(g, l)
    ensures FirstFrom(g, i).Some? ==>
      Rank(FirstFrom(g, i).value) >= 2 * i &&
      forall l :: ValidLine(l) && 2 * i <= Rank(l) < Rank(FirstFrom(g, i).value) ==> !Complete(g, l)
    decreases GridSize - i
  {
    if i == GridSize {
      forall l | ValidLine(l) && Rank(l) >= 2 * i {
        RankNames(l, i);
      }
    } else if Complete(g, Row(i)) {
      assert FirstFrom(g, i) == Some(Row(i));
    } else if Complete(g, Column(i)) {
      assert FirstFrom(g, i) == Some(Column(i));
      forall l | ValidLine(l) && 2 * i <= Rank(l) < 2 * i + 1 {
        RankNames(l, i);
      }
    } else {
      assert FirstFrom(g, i) == FirstFrom(g, i + 1);
      FirstFromSpec(g, i + 1);
      forall l | ValidLine(l) && Rank(l) >= 2 * i && Complete(g, l)
        ensures Rank(l) >= 2 * (i + 1)
      {
        RankNames(l, i);
      }
      if FirstFrom(g, i).Some? {
        var first := FirstFrom(g, i).value;
        forall l | ValidLine(l) && 2 * i <= Rank(l) < Rank(first)
          ensures !Complete(g, l)
        {
          RankNames(l, i);
        }
      }
    }
  }

  /** Some line is complete exactly when FirstFrom finds one from loop index 0. */
  lemma FirstCompleteLine(g: Grid)
    ensures AnyComplete(g) <==> FirstFrom(g, 0).Some?
    ensures FirstFrom(g, 0).Some? ==>
      forall l :: ValidLine(l) && Rank(l) < Rank(FirstFrom(g, 0).value) ==> !Complete(g, l)
  {
    FirstFromSpec(g, 0);
    forall l | ValidLine(l) {
      RankNames(l, 0);
    }
  }

  /**
   * The inner loop of one line check, from position j on: it stops at the
   * first blank cell or at the first cell that differs from the line's
   * first cell, and runs to GridSize when there is neither.
   */
  function LineStop(g: Grid, l: Line, j: int): (stop: int)
    requires ValidLine(l) && 0 <= j <= GridSize
    ensures j <= stop <= GridSize
    decreases GridSize - j
  {
    if j == GridSize then GridSize
    else
      var p, first := LineCell(l, j), LineCell(l, 0);
      if GetGridCell(g, p.x, p.y) == Blank as int then j
      else if GetGridCell(g, p.x, p.y) != GetGridCell(g, first.x, first.y) then j
      else LineStop(g, l, j + 1)
  }

  /**
   * The inner loop runs from position j to the end of line l exactly when
   * every cell from j on is filled and equal to the line's first cell.
   */
  lemma {:induction false} LineStopSpec(g: Grid, l: Line, j: int)
    requires ValidLine(l) && 0 <= j <= GridSize
    ensures LineStop(g, l, j) == GridSize <==> forall m :: j <= m < GridSize ==>
      CellOf(g, LineCell(l, m)) != Blank && CellOf(g, LineCell(l, m)) == CellOf(g, LineCell(l, 0))
    decreases GridSize - j
  {
    if j < GridSize {
      LineStopSpec(g, l, j + 1);
      var p, first := LineCell(l, j), LineCell(l, 0);
      assert GetGridCell(g, p.x, p.y) == CellOf(g, p) as int;
      assert GetGridCell(g, first.x, first.y) == CellOf(g, first) as int;
    }
  }

  /** The inner loop runs to the end of line l exactly when line l is complete. */
  lemma LineStopComplete(g: Grid, l: Line)
    requires ValidLine(l)
    ensures LineStop(g, l, 0) == GridSize <==> Complete(g, l)
  {
    LineStopSpec(g, l, 0);
  }

  /**
   * The cell whose character is reported for a complete line: the line's
   * first cell, except that as written a column i reports cell (i, 0).
   */
  function ReportedCell(l: Line, asWritten: bool): (p: Coord)
    requires ValidLine(l)
    ensures InBounds(p.x, p.y)
    ensures !asWritten || !l.Column? ==> p == LineCell(l, 0)
  {
    if asWritten && l.Column? then Coord(l.i, 0) else LineCell(l, 0)
  }

  /** The number returned for a complete line: getPlayerInfo of the character in its reported cell. */
  function Reported(g: Grid, l: Line, asWritten: bool): (r: int)
    requires ValidLine(l)
    ensures r == PlayerNumber(CellOf(g, ReportedCell(l, asWritten)))
  {
    var p := ReportedCell(l, asWritten);
    GetPlayerInfo(GetGridCell(g, p.x, p.y), 'n')
  }

  /**
   * The outcome decided by the first complete line: the player number of
   * its reported cell; with no complete line, 0 for a full grid and -1
   * otherwise.
   */
  function Outcome(g: Grid, first: Option<Line>, asWritten: bool): (r: int)
    requires first.Some? ==> ValidLine(first.value)
  {
    match first
    case Some(l) => PlayerNumber(CellOf(g, ReportedCell(l, asWritten)))
    case None => if IsFull(g) then 0 else -1
  }

  /**
   * The scan of getWinStatus from loop index i on: row i, column i, the
   * following rows and columns, then the two diagonals; the first complete
   * line decides, and with none the grid is a tie when full and undecided
   * otherwise.
   */
  function ScanFrom(g: Grid, i: int, asWritten: bool): (r: int)
    requires 0 <= i <= GridSize
    decreases GridSize - i
  {
    if i < GridSize then
      if LineStop(g, Row(i), 0) == GridSize then Reported(g, Row(i), asWritten)
      else if LineStop(g, Column(i), 0) == GridSize then Reported(g, Column(i), asWritten)
      else ScanFrom(g, i + 1, asWritten)
    else if LineStop(g, Down, 0) == GridSize then Reported(g, Down, asWritten)
    else if LineStop(g, Up, 0) == GridSize then Reported(g, Up, asWritten)
    else if IsFullGrid(g) != 0 then 0
    else -1
  }

  /** The scan from loop index i returns the outcome decided by the first complete line from row i on. */
  lemma {:induction false} ScanFromSpec(g: Grid, i: int, asWritten: bool)
    requires 0 <= i <= GridSize
    ensures ScanFrom(g, i, asWritten) == Outcome(g, FirstFrom(g, i), asWritten)
    decreases GridSize - i
  {
    if i < GridSize {
      LineStopComplete(g, Row(i));
      LineStopComplete(g, Column(i));
      if !Complete(g, Row(i)) && !Complete(g, Column(i)) {
        ScanFromSpec(g, i + 1, asWritten);
      }
    } else {
      LineStopComplete(g, Down);
      LineStopComplete(g, Up);
    }
  }

  /**
   * getWinStatus as written. It returns -1 exactly when no line is complete
   * and some cell is blank, and 0 when no line is complete and the grid is
   * full; otherwise the first complete line in checking order decides, and
   * the number returned is that of the player whose character is in the
   * line's reported cell, which for a column i is cell (i, 0), a cell
   * outside the column.
   */
  function GetWinStatus(g: Grid): (r: int)
    ensures r == -1 <==> !AnyComplete(g) && !IsFull(g)
    ensures !AnyComplete(g) && IsFull(g) ==> r == 0
    ensures AnyComplete(g) ==>
      FirstFrom(g, 0).Some? && r == PlayerNumber(CellOf(g, ReportedCell(FirstFrom(g, 0).value, true)))
    ensures -1 <= r <= 2
  {
    ScanFromSpec(g, 0, true);
    FirstCompleteLine(g);
    ScanFrom(g, 0, true)
  }

  /**
   * getWinStatus with the column branch reporting the column's own
   * character. It returns -1 exactly when no line is complete and some cell
   * is blank, 0 when no line is complete and the grid is full, and
   * otherwise the number of the player whose character fills the first
   * complete line in checking order.
   */
  function WinStatus(g: Grid): (r: int)
    ensures r == -1 <==> !AnyComplete(g) && !IsFull(g)
    ensures !AnyComplete(g) && IsFull(g) ==> r == 0
    ensures AnyComplete(g) ==>
      FirstFrom(g, 0).Some? && r == PlayerNumber(CellOf(g, LineCell(FirstFrom(g, 0).value, 0)))
    ensures -1 <= r <= 2
  {
    ScanFromSpec(g, 0, false);
    FirstCompleteLine(g);
    ScanFrom(g, 0, false)
  }

  /**
   * The two evaluators agree on whether the game is decided, and they can
   * only differ on a grid whose first complete line is a column i whose
   * cell (i, 0) differs from its own first cell (0, i).
   */
  lemma AsWrittenDiffersOnlyOnColumns(g: Grid)
    ensures GetWinStatus(g) == -1 <==> WinStatus(g) == -1
    ensures GetWinStatus(g) != WinStatus(g) ==>
      FirstFrom(g, 0).Some? && FirstFrom(g, 0).value.Column? &&
      CellOf(g, Coord(FirstFrom(g, 0).value.i, 0)) != CellOf(g, Coord(0, FirstFrom(g, 0).value.i))
  {
  }

  /**
   * A line that becomes complete when cell (x, y) is written must pass
   * through (x, y).
   */
  lemma NewlyCompleteLineHasCell(g: Grid, x: int, y: int, c: char, l: Line)
    requires ValidLine(l) && InBounds(x, y)
    requires !Complete(g, l) && Complete(SetCell(g, x, y, c), l)
    ensures exists m :: 0 <= m < GridSize && LineCell(l, m) == Coord(x, y)
  {
    var h := SetCell(g, x, y, c);
    var m :| 0 <= m < GridSize &&
      !(CellOf(g, LineCell(l, m)) != Blank && CellOf(g, LineCell(l, m)) == CellOf(g, LineCell(l, 0)));
    if LineCell(l, 0) != Coord(x, y) {
      assert CellOf(h, LineCell(l, m)) != Blank && CellOf(h, LineCell(l, m)) == CellOf(h, LineCell(l, 0));
      assert LineCell(l, m) == Coord(x, y);
    }
  }

  /**
   * When a player writes their character into a blank cell of an undecided
   * grid, the result names that player or no one: it is -1 (still
   * undecided), that player's number, or 0 for a full grid with no
   * complete line.
   */
  lemma WinnerIsLastMover(g: Grid, x: int, y: int, p: int)
    requires WinStatus(g) == -1 && InBounds(x, y) && At(g, x, y) == Blank && (p == 1 || p == 2)
    ensures var h := SetCell(g, x, y, Mark(p));
      WinStatus(h) == -1 || WinStatus(h) == p || (WinStatus(h) == 0 && IsFull(h) && !AnyComplete(h))
  {
    var h := SetCell(g, x, y, Mark(p));
    FirstCompleteLine(h);
    if FirstFrom(h, 0).Some? {
      var l := FirstFrom(h, 0).value;
      assert !Complete(g, l);
      NewlyCompleteLineHasCell(g, x, y, Mark(p), l);
      var m :| 0 <= m < GridSize && LineCell(l, m) == Coord(x, y);
      assert CellOf(h, LineCell(l, m)) == Mark(p);
      assert CellOf(h, LineCell(l, 0)) == Mark(p);
      PlayerInfoRoundTrip(p);
    }
  }

  /** A grid whose every cell is blank has no complete line. */
  lemma BlankGridHasNoLine(g: Grid)
    requires forall k :: 0 <= k < Cells ==> g[k] == Blank
    ensures !AnyComplete(g) && !IsFull(g)
  {
    forall l | ValidLine(l)
      ensures !Complete(g, l)
    {
      var p := LineCell(l, 0);
      assert g[Index(p.x, p.y)] == Blank;
    }
    assert g[0] == Blank;
  }

  /** After resetGrid the grid is not full and both evaluators say the game goes on. */
  lemma EmptyGridUndecided()
    ensures IsFullGrid(EmptyGrid) == 0
    ensures WinStatus(EmptyGrid) == -1 && GetWinStatus(EmptyGrid) == -1
  {
    BlankGridHasNoLine(EmptyGrid);
  }

  /**
   * When the first complete line is column i, getWinStatus as written
   * returns the number of the character in cell (i, 0), and the corrected
   * evaluator that of the column's own cell (0, i).
   */
  lemma FirstLineColumn(g: Grid, i: int)
    requires 0 <= i < GridSize && FirstFrom(g, 0) == Some(Column(i))
    ensures GetWinStatus(g) == PlayerNumber(CellOf(g, Coord(i, 0)))
    ensures WinStatus(g) == PlayerNumber(CellOf(g, Coord(0, i)))
  {
    FirstCompleteLine(g);
  }

  /** A line with a blank cell, or with a cell unlike its first, is not complete. */
  lemma BrokenLine(g: Grid, l: Line, m: int)
    requires ValidLine(l) && 0 <= m < GridSize
    requires CellOf(g, LineCell(l, m)) == Blank || CellOf(g, LineCell(l, m)) != CellOf(g, LineCell(l, 0))
    ensures !Complete(g, l)
  {
  }

  /** A line whose three cells hold the same character, not the blank, is complete. */
  lemma FilledLine(g: Grid, l: Line)
    requires ValidLine(l) && CellOf(g, LineCell(l, 0)) != Blank
    requires CellOf(g, LineCell(l, 1)) == CellOf(g, LineCell(l, 0)) && CellOf(g, LineCell(l, 2)) == CellOf(g, LineCell(l, 0))
    ensures Complete(g, l)
  {
  }

  /** The first complete line of a grid is column 1 when row 0, column 0 and row 1 are not complete and column 1 is. */
  lemma ColumnOneFirst(g: Grid)
    requires !Complete(g, Row(0)) && !Complete(g, Column(0)) && !Complete(g, Row(1)) && Complete(g, Column(1))
    ensures FirstFrom(g, 0) == Some(Column(1))
  {
    assert FirstFrom(g, 1) == Some(Column(1));
  }

  /**
   * A column win that getWinStatus as written reports as a tie: column 1
   * holds three 'O's, but cell (1, 0) is blank, so the number looked up is
   * 0 although the grid still has blank cells.
   *
   *    X | O | X
   *      | O |
   *      | O | X
   */
  lemma ColumnWinReportedAsTie(g: Grid)
    requires g[0] == 'X' && g[1] == 'O' && g[2] == 'X'
    requires g[3] == Blank && g[4] == 'O' && g[5] == Blank
    requires g[6] == Blank && g[7] == 'O' && g[8] == 'X'
    ensures Complete(g, Column(1)) && !IsFull(g) && GetWinStatus(g) == 0 && WinStatus(g) == 2
  {
    BrokenLine(g, Row(0), 1);
    BrokenLine(g, Column(0), 1);
    BrokenLine(g, Row(1), 0);
    assert LineCell(Column(1), 1) == Coord(1, 1) && LineCell(Column(1), 2) == Coord(2, 1);
    assert Index(0, 1) == 1 && Index(1, 1) == 4 && Index(2, 1) == 7;
    FilledLine(g, Column(1));
    ColumnOneFirst(g);
    FirstLineColumn(g, 1);
    assert CellOf(g, Coord(1, 0)) == Blank && CellOf(g, Coord(0, 1)) == Player2Char;
    PlayerNumberRange(Blank);
    PlayerInfoRoundTrip(2);
  }

  /**
   * A column win that getWinStatus as written credits to the other player:
   * column 1 holds three 'O's and cell (1, 0) holds an 'X'.
   *
   *      | O | X
   *    X | O |
   *      | O | X
   */
  lemma ColumnWinCreditedToOtherPlayer(g: Grid)
    requires g[0] == Blank && g[1] == 'O' && g[2] == 'X'
    requires g[3] == 'X' && g[4] == 'O' && g[5] == Blank
    requires g[6] == Blank && g[7] == 'O' && g[8] == 'X'
    ensures Complete(g, Column(1)) && GetWinStatus(g) == 1 && WinStatus(g) == 2
  {
    BrokenLine(g, Row(0), 0);
    BrokenLine(g, Column(0), 0);
    BrokenLine(g, Row(1), 2);
    assert LineCell(Column(1), 1) == Coord(1, 1) && LineCell(Column(1), 2) == Coord(2, 1);
    assert Index(0, 1) == 1 && Index(1, 1) == 4 && Index(2, 1) == 7;
    FilledLine(g, Column(1));
    ColumnOneFirst(g);
    FirstLineColumn(g, 1);
    assert CellOf(g, Coord(1, 0)) == Player1Char && CellOf(g, Coord(0, 1)) == Player2Char;
    PlayerInfoRoundTrip(1);
    PlayerInfoRoundTrip(2);
  }
}
