/**
 * How a move is obtained (ttt.c adjustCoords, the checks of promptNextMove
 * and performAIMove).
 *
 * A human's line of input reaches the model already parsed: the C library's
 * scanning is outside it. The random number generator is replaced by a
 * sequence of draws, each standing for one value of rand().
 */
module Moves {
  import opened Board
  import opened Players

  /** What is added to each entered coordinate to turn 1-based input into 0-based indices. */
  const CoordinateAdjustment: int := -1

  /** One line of human input, as the C library leaves it. */
  datatype MoveInput =
    | NoInput                  // the word read failed (end of input or a read error)
    | Unparsed                 // the word did not hold "x,y"
    | Entered(x: int, y: int)  // the two numbers typed, 1-based

  /**
   * What promptNextMove makes of one line of input. After every verdict but
   * Accepted the source asks again; after NoInputDetected the model judges
   * the next line, which the source does not reach.
   */
  datatype Verdict =
    | NoInputDetected
    | CoordinateMissing
    | CellOutOfBounds
    | CellTaken
    | Accepted(at: Coord)

  /**
   * adjustCoords: adds the adjustment to both coordinates and returns 0.
   * With the game's adjustment of -1, the adjusted pair is a cell of the
   * grid exactly when both numbers entered lie between 1 and GridSize.
   */
  method AdjustCoords(x: int, y: int, adjustment: int) returns (x': int, y': int, r: int)
    ensures x' == x + adjustment && y' == y + adjustment && r == 0
    ensures adjustment == CoordinateAdjustment ==>
      (InBounds(x', y') <==> 1 <= x <= GridSize && 1 <= y <= GridSize)
  {
    x' := x + adjustment;
    y' := y + adjustment;
    r := 0;
  }

  /**
   * The decision promptNextMove takes on one line of input: after
   * adjustment, a coordinate outside the grid is out of bounds, a blank
   * cell is accepted and any other cell is taken.
   */
  function Judge(g: Grid, input: MoveInput): (v: Verdict)
    ensures v.Accepted? <==>
      input.Entered? && InBounds(input.x - 1, input.y - 1) && At(g, input.x - 1, input.y - 1) == Blank
    ensures v.Accepted? ==> v.at == Coord(input.x - 1, input.y - 1)
    ensures v == CellOutOfBounds <==> input.Entered? && !InBounds(input.x - 1, input.y - 1)
    ensures v == CellTaken <==>
      input.Entered? && InBounds(input.x - 1, input.y - 1) && At(g, input.x - 1, input.y - 1) != Blank
    ensures v == NoInputDetected <==> input == NoInput
    ensures v == CoordinateMissing <==> input == Unparsed
  {
    match input
    case NoInput => NoInputDetected
    case Unparsed => CoordinateMissing
    case Entered(x, y) =>
      var ax, ay := x + CoordinateAdjustment, y + CoordinateAdjustment;
      var cell := GetGridCell(g, ax, ay);
      if cell == -1 then CellOutOfBounds
      else if cell == Blank as int then Accepted(Coord(ax, ay))
      else CellTaken
  }

  /** A cell chosen by a move source, and how many lines or draws the choice took. */
  datatype Pick = Pick(at: Coord, used: nat)

  /** No line of the input is accepted on grid g. */
  predicate NoAcceptedInput(g: Grid, inputs: seq<MoveInput>)
  {
    forall k :: 0 <= k < |inputs| ==> !Judge(g, inputs[k]).Accepted?
  }

  /**
   * The move promptNextMove makes of a run of input lines: the first line
   * accepted, after as many lines as it took; none when no line is
   * accepted.
   */
  function FirstAccepted(g: Grid, inputs: seq<MoveInput>): (r: Option<Pick>)
    ensures r.None? <==> NoAcceptedInput(g, inputs)
    ensures r.Some? ==>
      1 <= r.value.used <= |inputs| && Judge(g, inputs[r.value.used - 1]) == Accepted(r.value.at) &&
      NoAcceptedInput(g, inputs[..r.value.used - 1]) &&
      InBounds(r.value.at.x, r.value.at.y) && At(g, r.value.at.x, r.value.at.y) == Blank
    decreases |inputs|
  {
    if inputs == [] then None
    else if Judge(g, inputs[0]).Accepted? then Some(Pick(Judge(g, inputs[0]).at, 1))
    else
      match FirstAccepted(g, inputs[1..])
      case None => None
      case Some(p) => Some(Pick(p.at, p.used + 1))
  }

  /** A line accepted after a run of rejected ones is the move FirstAccepted picks. */
  lemma {:induction false} FirstAcceptedAt(g: Grid, inputs: seq<MoveInput>, n: nat, at: Coord)
    requires 1 <= n <= |inputs| && Judge(g, inputs[n - 1]) == Accepted(at)
    requires forall k :: 0 <= k < n - 1 ==> !Judge(g, inputs[k]).Accepted?
    ensures FirstAccepted(g, inputs) == Some(Pick(at, n))
    decreases n
  {
    if n > 1 {
      FirstAcceptedAt(g, inputs[1..], n - 1, at);
    }
  }

  /**
   * The bounds check of getGridCell and setGridCell as written tests only
   * the upper bounds. The input "0,1" is adjusted to (-1, 0), which passes
   * that check although row -1 lies outside the grid, so the source reads
   * (and, if the byte read happens to be blank, writes) memory before the
   * grid. The model checks both bounds, so Judge rejects the input as out
   * of bounds.
   */
  lemma GuardAdmitsZeroCoordinate(g: Grid)
    ensures UpperBoundGuard(0 + CoordinateAdjustment, 1 + CoordinateAdjustment)
    ensures !InBounds(0 + CoordinateAdjustment, 1 + CoordinateAdjustment)
    ensures Judge(g, Entered(0, 1)) == CellOutOfBounds
  {
  }

  /**
   * The input "2,0" is adjusted to (1, -1), which also passes the upper
   * bounds check; in the row-major layout of the C array its offset
   * 1 * GridSize - 1 is that of cell (0, 2), so the source reads and writes
   * a cell other than the one entered. The model rejects it as out of
   * bounds.
   */
  lemma GuardAdmitsAliasedCell(g: Grid)
    ensures UpperBoundGuard(2 + CoordinateAdjustment, 0 + CoordinateAdjustment)
    ensures !InBounds(2 + CoordinateAdjustment, 0 + CoordinateAdjustment)
    ensures (2 + CoordinateAdjustment) * GridSize + (0 + CoordinateAdjustment) == Index(0, 2)
    ensures Judge(g, Entered(2, 0)) == CellOutOfBounds
  {
  }

  /**
   * promptNextMove: works through the lines of input until one is accepted
   * and returns its adjusted coordinates; every earlier line was rejected.
   * The move returned is always a blank cell of the grid. When the input
   * runs out first there is no move (the source would go on asking).
   */
  method PromptNextMove(grid: array<char>, inputs: seq<MoveInput>) returns (move: Option<Coord>, used: nat)
    requires grid.Length == Cells
    ensures used <= |inputs|
    ensures move.Some? ==> 1 <= used && Judge(grid[..], inputs[used - 1]) == Accepted(move.value)
    ensures move.Some? ==> InBounds(move.value.x, move.value.y) && At(grid[..], move.value.x, move.value.y) == Blank
    ensures move.Some? ==> forall k :: 0 <= k < used - 1 ==> !Judge(grid[..], inputs[k]).Accepted?
    ensures move.None? ==> used == |inputs| && forall k :: 0 <= k < |inputs| ==> !Judge(grid[..], inputs[k]).Accepted?
    ensures FirstAccepted(grid[..], inputs) == if move.Some? then Some(Pick(move.value, used)) else None
  {
    used := 0;
    move := None;
    while used < |inputs|
      invariant used <= |inputs|
      invariant forall k :: 0 <= k < used ==> !Judge(grid[..], inputs[k]).Accepted?
    {
      var input := inputs[used];
      used := used + 1;
      if input.Entered? {
        var x, y, _ := AdjustCoords(input.x, input.y, CoordinateAdjustment);
        var cell := GetGridCell(grid[..], x, y);
        if cell == -1 {
          // out of bounds: ask again
        } else if cell == Blank as int {
          move := Some(Coord(x, y));
          FirstAcceptedAt(grid[..], inputs, used, move.value);
          return;
        }
        // any other character: the cell is taken, ask again
      }
    }
  }

  /**
   * The cell performAIMove makes of one draw of rand(): cell number
   * draw % 9, numbered left to right and top to bottom, so row
   * cell / GridSize and column cell - row * GridSize. Every cell of the
   * grid is the cell of exactly one number in [0, 9).
   */
  function DrawnCell(draw: nat): (p: Coord)
    ensures InBounds(p.x, p.y)
    ensures Index(p.x, p.y) == draw % Cells
  {
    var cell := draw % Cells;
    var x := cell / GridSize;
    Coord(x, cell - x * GridSize)
  }

  /** Each cell is drawn by its own index, so the computer can reach every blank cell. */
  lemma DrawnCellOnto(x: int, y: int)
    requires InBounds(x, y)
    ensures DrawnCell(Index(x, y)) == Coord(x, y)
  {
  }

  /** No draw hits a blank cell of grid g. */
  predicate NoBlankDrawn(g: Grid, draws: seq<nat>)
  {
    forall k :: 0 <= k < |draws| ==> At(g, DrawnCell(draws[k]).x, DrawnCell(draws[k]).y) != Blank
  }

  /**
   * The move performAIMove makes of a run of draws: the first drawn cell
   * that is blank, after as many draws as it took; none when every draw
   * hits a taken cell.
   */
  function FirstBlankDraw(g: Grid, draws: seq<nat>): (r: Option<Pick>)
    ensures r.None? <==> NoBlankDrawn(g, draws)
    ensures r.Some? ==>
      1 <= r.value.used <= |draws| && DrawnCell(draws[r.value.used - 1]) == r.value.at &&
      NoBlankDrawn(g, draws[..r.value.used - 1]) &&
      InBounds(r.value.at.x, r.value.at.y) && At(g, r.value.at.x, r.value.at.y) == Blank
    decreases |draws|
  {
    if draws == [] then None
    else if At(g, DrawnCell(draws[0]).x, DrawnCell(draws[0]).y) == Blank then Some(Pick(DrawnCell(draws[0]), 1))
    else
      match FirstBlankDraw(g, draws[1..])
      case None => None
      case Some(p) => Some(Pick(p.at, p.used + 1))
  }

  /** A draw hitting a blank cell after a run of draws hitting taken ones is the move FirstBlankDraw picks. */
  lemma {:induction false} FirstBlankDrawAt(g: Grid, draws: seq<nat>, n: nat)
    requires 1 <= n <= |draws| && At(g, DrawnCell(draws[n - 1]).x, DrawnCell(draws[n - 1]).y) == Blank
    requires forall k :: 0 <= k < n - 1 ==> At(g, DrawnCell(draws[k]).x, DrawnCell(draws[k]).y) != Blank
    ensures FirstBlankDraw(g, draws) == Some(Pick(DrawnCell(draws[n - 1]), n))
    decreases n
  {
    if n > 1 {
      FirstBlankDrawAt(g, draws[1..], n - 1);
    }
  }

  /**
   * performAIMove: draws cells until one is blank and writes player 2's
   * character 'O' (looked up in the player table) there; no other cell
   * changes, and every earlier draw hit a taken cell. When the draws run
   * out first the grid is unchanged and there is no move (the source would
   * go on drawing).
   */
  method PerformAIMove(grid: array<char>, draws: seq<nat>) returns (move: Option<Coord>, used: nat)
    requires grid.Length == Cells
    modifies grid
    ensures used <= |draws|
    ensures move.Some? ==> 1 <= used && DrawnCell(draws[used - 1]) == move.value
    ensures move.Some? ==> At(old(grid[..]), move.value.x, move.value.y) == Blank
    ensures move.Some? ==> grid[..] == SetCell(old(grid[..]), move.value.x, move.value.y, Player2Char)
    ensures move.Some? ==> forall k :: 0 <= k < used - 1 ==>
      At(old(grid[..]), DrawnCell(draws[k]).x, DrawnCell(draws[k]).y) != Blank
    ensures move.None? ==> used == |draws| && grid[..] == old(grid[..])
    ensures move.None? ==> forall k :: 0 <= k < |draws| ==>
      At(old(grid[..]), DrawnCell(draws[k]).x, DrawnCell(draws[k]).y) != Blank
    ensures FirstBlankDraw(old(grid[..]), draws) == if move.Some? then Some(Pick(move.value, used)) else None
  {
    used := 0;
    move := None;
    while used < |draws|
      invariant used <= |draws|
      invariant grid[..] == old(grid[..])
      invariant forall k :: 0 <= k < used ==>
        At(old(grid[..]), DrawnCell(draws[k]).x, DrawnCell(draws[k]).y) != Blank
    {
      var randomCell := draws[used] % Cells;
      var randomX := randomCell / GridSize;
      var randomY := randomCell - randomX * GridSize;
      assert Coord(randomX, randomY) == DrawnCell(draws[used]);
      used := used + 1;
      if GetGridCell(grid[..], randomX, randomY) == Blank as int {
        FirstBlankDrawAt(grid[..], draws, used);
        var aiChar := GetPlayerInfo(2, 'c') as char;
        var _ := SetGridCell(grid, randomX, randomY, aiChar);
        move := Some(Coord(randomX, randomY));
        return;
      }
    }
  }
}
