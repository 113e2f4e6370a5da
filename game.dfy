/**
 * The turn controller of ttt.c (playGame and startGame).
 *
 * playGame alternates the players, starting with player 1, until the
 * evaluator reports a result of 0 or more. Player 1 always moves from human
 * input; player 2 moves from human input in a two-player game and by the
 * computer otherwise. Each move fills one blank cell.
 */
module Game {
  import opened Board
  import opened Players
  import opened Evaluator
  import opened Moves

  /**
   * One move of a game: the player, the cell, whether the computer chose
   * it, and how many input lines (or, for the computer, draws) it took.
   */
  datatype Move = Move(player: int, at: Coord, byComputer: bool, took: nat)

  /**
   * How a game ends: with the value returned, or waiting for a move that
   * the input lines or the draws never supply (the source blocks or goes
   * on drawing).
   */
  datatype GameEnd = Returned(status: int) | Stalled

  /** The grid after the moves, each writing its player's character into its cell. */
  function Replay(g: Grid, moves: seq<Move>): (h: Grid)
    decreases |moves|
  {
    if moves == [] then g
    else
      var m := moves[|moves| - 1];
      SetCell(Replay(g, moves[..|moves| - 1]), m.at.x, m.at.y, Mark(m.player))
  }

  /**
   * The moves form a legal game from grid g: each move goes into a blank
   * cell of a grid whose game was still undecided.
   */
  predicate Legal(g: Grid, moves: seq<Move>)
    decreases |moves|
  {
    if moves == [] then true
    else
      var before, m := moves[..|moves| - 1], moves[|moves| - 1];
      Legal(g, before) &&
      InBounds(m.at.x, m.at.y) &&
      At(Replay(g, before), m.at.x, m.at.y) == Blank &&
      WinStatus(Replay(g, before)) == -1
  }

  /** The players take turns, starting with player 1. */
  predicate TakesTurns(moves: seq<Move>)
  {
    forall k :: 0 <= k < |moves| ==> moves[k].player == 1 + k % 2
  }

  /** After a move by the player whose turn it was, the other player is to move. */
  lemma NextTurn(moves: seq<Move>, m: Move)
    ensures 1 + |moves + [m]| % 2 == 3 - (1 + |moves| % 2)
  {
  }

  /** Who picks each move: the computer exactly for player 2 of a game that is not a two-player game. */
  predicate MoveSources(moves: seq<Move>, numPlayers: int)
  {
    forall k :: 0 <= k < |moves| ==> moves[k].byComputer == !(numPlayers == 2 || moves[k].player < 2)
  }

  /** Appending a legal move to a legal game gives a legal game, whose grid is the old one with that move written. */
  lemma LegalExtend(g: Grid, moves: seq<Move>, m: Move)
    requires Legal(g, moves) && InBounds(m.at.x, m.at.y)
    requires At(Replay(g, moves), m.at.x, m.at.y) == Blank && WinStatus(Replay(g, moves)) == -1
    ensures Legal(g, moves + [m])
    ensures Replay(g, moves + [m]) == SetCell(Replay(g, moves), m.at.x, m.at.y, Mark(m.player))
  {
    assert (moves + [m])[..|moves|] == moves;
  }

  /** Each legal move fills one blank cell, so a legal game has at most as many moves as the grid had blanks. */
  lemma {:induction false} LegalFillsBlanks(g: Grid, moves: seq<Move>)
    requires Legal(g, moves)
    ensures BlankCount(Replay(g, moves)) + |moves| == BlankCount(g)
    ensures |moves| <= BlankCount(g) <= Cells
    decreases |moves|
  {
    BlankCountBounds(g);
    if moves != [] {
      var before, m := moves[..|moves| - 1], moves[|moves| - 1];
      LegalFillsBlanks(g, before);
      var prev := Replay(g, before);
      BlankCountFill(prev, Index(m.at.x, m.at.y), Mark(m.player));
      BlankCountBounds(Replay(g, moves));
    }
  }

  /**
   * The result of a legal game from the empty grid, once decided: a win is
   * always credited to the player who made the last move, and 0 means a
   * full grid with no complete line.
   */
  lemma DecidedGameResult(moves: seq<Move>)
    requires Legal(EmptyGrid, moves) && TakesTurns(moves) && WinStatus(Replay(EmptyGrid, moves)) >= 0
    ensures moves != []
    ensures var g, r := Replay(EmptyGrid, moves), WinStatus(Replay(EmptyGrid, moves));
      (r == 0 ==> IsFull(g) && !AnyComplete(g)) && (r > 0 ==> r == moves[|moves| - 1].player)
  {
    EmptyGridUndecided();
    var before, m := moves[..|moves| - 1], moves[|moves| - 1];
    WinnerIsLastMover(Replay(EmptyGrid, before), m.at.x, m.at.y, m.player);
  }

  /** A move by the player whose turn it is, picked by the right source, keeps the turn order. */
  lemma TurnsExtend(moves: seq<Move>, m: Move, numPlayers: int)
    requires TakesTurns(moves) && MoveSources(moves, numPlayers)
    requires m.player == 1 + |moves| % 2 && m.byComputer == !(numPlayers == 2 || m.player < 2)
    ensures TakesTurns(moves + [m]) && MoveSources(moves + [m], numPlayers)
  {
  }

  /**
   * A move appended to a game keeps the game's invariants: it is legal when
   * it fills a blank cell of an undecided grid, the players still take turns
   * when it is by the player whose turn it is, and it removes one blank.
   */
  lemma ExtendGame(g: Grid, moves: seq<Move>, m: Move, numPlayers: int)
    requires Legal(g, moves) && TakesTurns(moves) && MoveSources(moves, numPlayers)
    requires BlankCount(Replay(g, moves)) + |moves| == BlankCount(g)
    requires InBounds(m.at.x, m.at.y) && At(Replay(g, moves), m.at.x, m.at.y) == Blank
    requires WinStatus(Replay(g, moves)) == -1
    requires m.player == 1 + |moves| % 2 && m.byComputer == !(numPlayers == 2 || m.player < 2)
    ensures Legal(g, moves + [m]) && TakesTurns(moves + [m]) && MoveSources(moves + [m], numPlayers)
    ensures Replay(g, moves + [m]) == SetCell(Replay(g, moves), m.at.x, m.at.y, Mark(m.player))
    ensures BlankCount(Replay(g, moves + [m])) + |moves + [m]| == BlankCount(g)
  {
    LegalExtend(g, moves, m);
    TurnsExtend(moves, m, numPlayers);
    BlankCountFill(Replay(g, moves), Index(m.at.x, m.at.y), Mark(m.player));
  }

  /** The cell the move source picks on grid g: the first accepted input line, or the first draw hitting a blank cell. */
  function NextPick(g: Grid, byComputer: bool, inputs: seq<MoveInput>, draws: seq<nat>): (r: Option<Pick>)
  {
    if byComputer then FirstBlankDraw(g, draws) else FirstAccepted(g, inputs)
  }

  /** The input lines the human moves took, in order. */
  function LinesUsed(moves: seq<Move>): (n: nat)
    decreases |moves|
  {
    if moves == [] then 0
    else
      var m := moves[|moves| - 1];
      LinesUsed(moves[..|moves| - 1]) + if m.byComputer then 0 else m.took
  }

  /** The draws the computer's moves took, in order. */
  function DrawsUsed(moves: seq<Move>): (n: nat)
    decreases |moves|
  {
    if moves == [] then 0
    else
      var m := moves[|moves| - 1];
      DrawsUsed(moves[..|moves| - 1]) + if m.byComputer then m.took else 0
  }

  /**
   * The moves are the ones the move sources pick: each move is the pick of
   * its source (NextPick) on the grid the earlier moves left, from the input
   * lines and draws the earlier moves did not take, and it took as many of
   * them as its `took` says.
   */
  predicate Follows(g: Grid, moves: seq<Move>, inputs: seq<MoveInput>, draws: seq<nat>)
    decreases |moves|
  {
    if moves == [] then true
    else
      var before, m := moves[..|moves| - 1], moves[|moves| - 1];
      Follows(g, before, inputs, draws) &&
      LinesUsed(before) <= |inputs| && DrawsUsed(before) <= |draws| &&
      NextPick(Replay(g, before), m.byComputer, inputs[LinesUsed(before)..], draws[DrawsUsed(before)..]) ==
        Some(Pick(m.at, m.took))
  }

  /** Appending the move a source picks keeps the game following the sources, and counts the lines or draws it took. */
  lemma FollowsExtend(g: Grid, moves: seq<Move>, m: Move, inputs: seq<MoveInput>, draws: seq<nat>, lines: nat, drawn: nat)
    requires Follows(g, moves, inputs, draws) && LinesUsed(moves) <= |inputs| && DrawsUsed(moves) <= |draws|
    requires NextPick(Replay(g, moves), m.byComputer, inputs[LinesUsed(moves)..], draws[DrawsUsed(moves)..]) ==
      Some(Pick(m.at, m.took))
    requires if m.byComputer then lines == 0 && drawn == m.took else lines == m.took && drawn == 0
    ensures Follows(g, moves + [m], inputs, draws)
    ensures LinesUsed(moves + [m]) == LinesUsed(moves) + lines
    ensures DrawsUsed(moves + [m]) == DrawsUsed(moves) + drawn
  {
    assert (moves + [m])[..|moves|] == moves;
  }

  /**
   * One turn of playGame: a human move through promptNextMove or a
   * computer move through performAIMove. The move is the one the player's
   * source picks (NextPick), taking exactly the lines or draws counted; the
   * player's character goes into that cell, which was blank, and nothing
   * else changes. With no move, no line or draw is acceptable and the grid
   * is unchanged.
   */
  method TakeTurn(grid: array<char>, player: int, byComputer: bool, inputs: seq<MoveInput>, draws: seq<nat>)
    returns (move: Option<Coord>, usedInputs: nat, usedDraws: nat)
    requires grid.Length == Cells && (player == 1 || player == 2)
    requires byComputer ==> player == 2
    modifies grid
    ensures usedInputs <= |inputs| && usedDraws <= |draws|
    ensures (if byComputer then usedInputs else usedDraws) == 0
    ensures NextPick(old(grid[..]), byComputer, inputs, draws) ==
      if move.Some? then Some(Pick(move.value, if byComputer then usedDraws else usedInputs)) else None
    ensures move.None? ==>
      if byComputer then NoBlankDrawn(old(grid[..]), draws) else NoAcceptedInput(old(grid[..]), inputs)
    ensures move.Some? ==>
      InBounds(move.value.x, move.value.y) && At(old(grid[..]), move.value.x, move.value.y) == Blank &&
      grid[..] == SetCell(old(grid[..]), move.value.x, move.value.y, Mark(player))
    ensures move.None? ==> grid[..] == old(grid[..])
  {
    usedInputs, usedDraws := 0, 0;
    if !byComputer {
      move, usedInputs := PromptNextMove(grid, inputs);
      if move.Some? {
        var _ := SetGridCell(grid, move.value.x, move.value.y, if player == 1 then Player1Char else Player2Char);
      }
    } else {
      move, usedDraws := PerformAIMove(grid, draws);
    }
  }

  /**
   * The player to move after a game with these moves stalled has nothing
   * left to move with: no remaining input line is accepted, or no remaining
   * draw hits a blank cell.
   */
  predicate StuckAfter(g: Grid, numPlayers: int, moves: seq<Move>, inputs: seq<MoveInput>, draws: seq<nat>)
  {
    var player := 1 + |moves| % 2;
    if numPlayers == 2 || player < 2 then NoAcceptedInput(g, inputs) else NoBlankDrawn(g, draws)
  }

  /**
   * playGame: while the evaluator reports -1, the current player moves
   * (from the input lines or, for the computer, from the draws), then the
   * turn passes to the other player. Each move is the one its source picks
   * from the lines and draws left, and the counts returned are the lines
   * and draws the moves took. The grid is the starting grid with the moves
   * written in order, the moves form a legal game, and each move filled one
   * blank cell. The value returned is the first result of the evaluator
   * that is 0 or more; getWinStatus as written is then 0 or more too, so
   * the source's loop stops after the same moves. The game stalls only when
   * the player to move has no acceptable line or draw left.
   */
  method PlayGame(grid: array<char>, numPlayers: int, inputs: seq<MoveInput>, draws: seq<nat>)
    returns (end: GameEnd, history: seq<Move>, usedInputs: nat, usedDraws: nat)
    requires grid.Length == Cells
    modifies grid
    ensures Follows(old(grid[..]), history, inputs, draws)
    ensures usedInputs == LinesUsed(history) <= |inputs| && usedDraws == DrawsUsed(history) <= |draws|
    ensures grid[..] == Replay(old(grid[..]), history)
    ensures Legal(old(grid[..]), history) && TakesTurns(history) && MoveSources(history, numPlayers)
    ensures BlankCount(grid[..]) + |history| == BlankCount(old(grid[..]))
    ensures end.Returned? ==> end.status == WinStatus(grid[..]) && end.status >= 0 && GetWinStatus(grid[..]) >= 0
    ensures end.Stalled? ==>
      WinStatus(grid[..]) == -1 && StuckAfter(grid[..], numPlayers, history, inputs[usedInputs..], draws[usedDraws..])
  {
    ghost var start := grid[..];
    var currentPlayer, nextPlayer := 1, 2;
    var nextInput, nextDraw := 0, 0;
    history := [];
    var winStatus := WinStatus(grid[..]);
    while winStatus < 0
      invariant grid[..] == Replay(start, history)
      invariant Legal(start, history) && TakesTurns(history) && MoveSources(history, numPlayers)
      invariant Follows(start, history, inputs, draws)
      invariant nextInput == LinesUsed(history) <= |inputs| && nextDraw == DrawsUsed(history) <= |draws|
      invariant BlankCount(grid[..]) + |history| == BlankCount(start)
      invariant currentPlayer == 1 + |history| % 2 && nextPlayer == 3 - currentPlayer
      invariant winStatus == WinStatus(grid[..])
      decreases BlankCount(grid[..])
    {
      var byComputer := !(numPlayers == 2 || currentPlayer < 2);
      var move, ui, ud := TakeTurn(grid, currentPlayer, byComputer, inputs[nextInput..], draws[nextDraw..]);
      if move.None? {
        end, usedInputs, usedDraws := Stalled, nextInput, nextDraw;
        return;
      }
      var m := Move(currentPlayer, move.value, byComputer, if byComputer then ud else ui);
      FollowsExtend(start, history, m, inputs, draws, ui, ud);
      ExtendGame(start, history, m, numPlayers);
      NextTurn(history, m);
      nextInput, nextDraw := nextInput + ui, nextDraw + ud;
      history := history + [m];
      currentPlayer := nextPlayer;
      nextPlayer := nextPlayer + 1;
      if nextPlayer > 2 {
        nextPlayer := 1;
      }
      winStatus := WinStatus(grid[..]);
    }
    AsWrittenDiffersOnlyOnColumns(grid[..]);
    end, usedInputs, usedDraws := Returned(winStatus), nextInput, nextDraw;
  }

  /**
   * startGame: refuses a player count other than 1 or 2 with -1 and leaves
   * the grid alone; otherwise it resets the grid and plays a game from the
   * empty grid, each move the one its source picks. Such a game has at most nine moves. With the
   * corrected evaluator its result is 0, 1 or 2: a win goes to the player
   * who moved last, and 0 is a full grid with no complete line. The source
   * returns getWinStatus as written on the same final grid, which is 0 or
   * more as well. A stalled game leaves the player to move with no
   * acceptable line or draw.
   */
  method StartGame(grid: array<char>, numPlayers: int, inputs: seq<MoveInput>, draws: seq<nat>)
    returns (end: GameEnd, history: seq<Move>, usedInputs: nat, usedDraws: nat)
    requires grid.Length == Cells
    modifies grid
    ensures !(1 <= numPlayers <= 2) ==>
      end == Returned(-1) && history == [] && usedInputs == 0 && usedDraws == 0 && grid[..] == old(grid[..])
    ensures 1 <= numPlayers <= 2 ==>
      Follows(EmptyGrid, history, inputs, draws) &&
      usedInputs == LinesUsed(history) <= |inputs| && usedDraws == DrawsUsed(history) <= |draws| &&
      grid[..] == Replay(EmptyGrid, history) && Legal(EmptyGrid, history) && TakesTurns(history) &&
      MoveSources(history, numPlayers) && |history| <= Cells
    ensures 1 <= numPlayers <= 2 && end.Returned? ==>
      end.status == WinStatus(grid[..]) && 0 <= end.status <= 2 && GetWinStatus(grid[..]) >= 0 &&
      (end.status == 0 ==> IsFull(grid[..]) && !AnyComplete(grid[..])) &&
      (end.status > 0 ==> end.status == history[|history| - 1].player)
    ensures 1 <= numPlayers <= 2 && end.Stalled? ==>
      WinStatus(grid[..]) == -1 &&
      StuckAfter(grid[..], numPlayers, history, inputs[usedInputs..], draws[usedDraws..])
  {
    if numPlayers < 1 || numPlayers > 2 {
      end, history, usedInputs, usedDraws := Returned(-1), [], 0, 0;
      return;
    }
    // resetGrid always returns GridSize, so the source's fatal exit on a negative result cannot happen.
    var _ := ResetGrid(grid);
    end, history, usedInputs, usedDraws := PlayGame(grid, numPlayers, inputs, draws);
    LegalFillsBlanks(EmptyGrid, history);
    if end.Returned? {
      DecidedGameResult(history);
    }
  }
}
