# Tic-Tac-Toe (ttt.c) in Dafny

This project models the console Tic-Tac-Toe game `ttt.c`, apart from its terminal input and output. The game state is the global 3x3 character grid. Players 1 and 2 write `'X'` and `'O'` into blank cells until the evaluator reports a result:

- a win, as the player's number;
- a tie, as 0;
- a game still going on, as -1.

The program uses two move sources. Human moves come from typed `x,y` coordinates, which are 1-based and are adjusted to 0-based. The computer opponent ("TerrAI") draws random cells until it finds a blank one.

Modules, one per part of the program:

- `Board` (board.dfy):
  - the grid, nine cells in the C array's row-major order;
  - `getGridCell`, `setGridCell`, `isFullGrid` and `resetGrid`.
- `Players` (players.dfy): the player table and `getPlayerInfo`.
- `Evaluator` (evaluator.dfy): `getWinStatus`. The eight lines are scanned in the source's order: row i and column i for each i, then the down diagonal, then the up diagonal.
- `Moves` (moves.dfy):
  - `adjustCoords`;
  - the checks `promptNextMove` applies to each line of input;
  - `performAIMove`.
- `Game` (game.dfy): `playGame` and `startGame`.

Where the source works in place on the grid (setting a cell, resetting, a move, the game loop), the model uses a method on an `array<char>` of nine cells. Each such method states its new grid as a function of the old one. Read-only operations are functions on the grid's value.

The environment enters as sequences the caller supplies:

- each element of a sequence of `MoveInput` stands for one line a human typed, already parsed by `fscanf`/`sscanf`;
- each element of a sequence of `nat` draws stands for one value of `rand()`.

The source loops forever when no acceptable move ever comes. In the model, running out of either sequence instead ends the move with `None` and the game with `Stalled`. A stalled game is one in which the player to move has no acceptable line or no draw that hits a blank cell left.

Each move of a modelled game is the one its source picks from the lines and draws the earlier moves left. `FirstAccepted` picks for promptNextMove and `FirstBlankDraw` for performAIMove.

Two defects in `ttt.c` are listed under "## Findings". For each, the model keeps the code as written (`UpperBoundGuard`, `GetWinStatus`), proves that it goes wrong on a concrete input, and runs the game on the corrected definition (`InBounds`, `WinStatus`). For the column win, the program's own comment on getWinStatus (ttt.c:238-240, "If it finds one, return the player number that won") describes the corrected behaviour.

## Model

| member | source | states |
|---|---|---|
| Board.GetGridCell | ttt.c:51-60 | -1 exactly for coordinates outside the grid; otherwise the code of the cell's character. |
| Board.SetCell | ttt.c:62-73 | After a set, cell (x, y) holds c and every other cell is unchanged. Outside the grid, the grid is unchanged. |
| Board.GetAfterSet | ttt.c:51-73 | A get after a set reads back the character written; every other cell reads as before; an out-of-bounds cell still reads -1. |
| Board.SetGridCell | ttt.c:62-73 | The array becomes `SetCell` of the old grid. The method returns c in bounds and -1 out of bounds. |
| Board.FullFrom | ttt.c:79-88 | The row-major scan from cell (i, j) returns 1 exactly when no later cell is blank, and 0 otherwise. |
| Board.IsFullGrid | ttt.c:75-89 | Returns 1 exactly when no cell is blank, and 0 otherwise. |
| Board.ResetGrid | ttt.c:101-117 | Every cell becomes blank, whatever the old grid held. Returns GridSize, so the failure return -1 cannot occur. |
| Board.BlankCountFill | ttt.c:62-73 | Writing a player's character into a blank cell removes exactly one blank. |
| Board.BlankCountBounds | ttt.c:75-89 | The blank count is at most the number of cells, and is 0 exactly when no cell is blank. |
| Players.Lookup | ttt.c:30-41 | The table scan returns 0 exactly when no row from i on matches the key. Otherwise it returns the other column of a matching row. |
| Players.GetPlayerInfo | ttt.c:16-49 | Under goal c/C: 1 maps to 'X', 2 to 'O', anything else to 0. Under goal n/N: 'X' maps to 1, 'O' to 2, anything else to 0. |
| Players.PlayerInfoRoundTrip | ttt.c:25-26 | The table agrees with PLAYER_1_CHAR and PLAYER_2_CHAR. Number to character to number is the identity, and so is character to number to character. |
| Players.PlayerNumberRange | ttt.c:36-41 | A character maps to 0, 1 or 2. It is nonzero exactly for 'X' and 'O', and the blank maps to 0. |
| Evaluator.LineStop | ttt.c:246-253 | The loop position where a line's check stops lies between its starting position and GRID_SIZE. LineStopSpec states when it reaches GRID_SIZE. |
| Evaluator.FirstFrom | ttt.c:244-297 | The line the scan's checks stop at, in the order row i, column i, ..., down diagonal, up diagonal, is complete. FirstFromSpec states that it is the first complete one. |
| Evaluator.LineStopSpec | ttt.c:246-253 | A line's check loop runs to GRID_SIZE from position j exactly when cells j to 2 are non-blank and equal to the line's first cell. |
| Evaluator.LineStopComplete | ttt.c:254-257 | The loop from 0 reaches GRID_SIZE exactly when the line holds three equal non-blank characters. |
| Evaluator.FirstFromSpec | ttt.c:244-297 | The scan from pair i finds no line exactly when no complete line comes at or after row i in checking order. A line it finds comes first among the complete lines from there on. |
| Evaluator.FirstCompleteLine | ttt.c:244-297 | Some line is complete exactly when the scan finds one. The line found is complete and no complete line precedes it. |
| Evaluator.ScanFromSpec | ttt.c:244-303 | The evaluator's control flow returns the report of the first complete line from pair i on. With no complete line, it returns the isFullGrid verdict (0 or -1). |
| Evaluator.GetWinStatus | ttt.c:237-304 | As written: -1 exactly when no line is complete and the grid is not full; 0 for a full grid with no line; otherwise the player number of the first complete line's reported cell, which is (i, 0) for column i. |
| Evaluator.WinStatus | ttt.c:237-304 | Corrected: the same classification, except that a win reports the player whose character fills the first complete line. |
| Evaluator.AsWrittenDiffersOnlyOnColumns | ttt.c:266-270 | Both evaluators agree on whether the game is over. They differ only when the first complete line is a column i with cell (i, 0) different from cell (0, i). |
| Evaluator.NewlyCompleteLineHasCell | ttt.c:244-297 | A line that becomes complete when cell (x, y) is written passes through (x, y). |
| Evaluator.WinnerIsLastMover | ttt.c:319-342 | With the corrected evaluator, a move into a blank cell of an undecided grid leaves one of three results: undecided; a win for the mover; or 0 with a full grid and no line. |
| Evaluator.EmptyGridUndecided | ttt.c:101-117 | After a reset, isFullGrid gives 0 and both evaluators give -1. |
| Evaluator.FirstLineColumn | ttt.c:266-270 | When column i is the first complete line, the code as written reports cell (i, 0), and the corrected evaluator reports cell (0, i). |
| Evaluator.ColumnWinReportedAsTie | ttt.c:266-270 | On the board `XOX / " O " / " OX"`, column 1 is complete and the grid is not full, yet the code as written returns 0 (a tie); the corrected evaluator returns 2. |
| Evaluator.ColumnWinCreditedToOtherPlayer | ttt.c:266-270 | On the board `" OX" / "XO " / " OX"`, column 1 is won by 'O', yet the code as written returns 1; the corrected evaluator returns 2. |
| Moves.AdjustCoords | ttt.c:143-150 | Both coordinates are shifted by the adjustment, and the method returns 0. With the adjustment -1, the result is in the grid exactly when both entered numbers are in 1..3. |
| Moves.Judge | ttt.c:162-179 | Classifies one input line as exactly one of: no input; coordinate missing; out of bounds; cell taken; accepted at the adjusted coordinates. Accepted means in bounds with a blank cell. |
| Moves.GuardAdmitsZeroCoordinate | ttt.c:51-60 | The input "0,1", adjusted to (-1, 0), passes the upper-bound-only guard although it is outside the grid. The corrected judgement rejects it as out of bounds. |
| Moves.FirstAccepted | ttt.c:152-185 | The move chosen from a run of lines is the first accepted line, a blank cell inside the grid, after exactly the lines it took, all earlier ones rejected. There is no move exactly when no line is accepted. |
| Moves.FirstAcceptedAt | ttt.c:152-185 | A line accepted after a run of rejected lines is the move FirstAccepted picks, after exactly that many lines. |
| Moves.GuardAdmitsAliasedCell | ttt.c:55-56 | The input "2,0", adjusted to (1, -1), passes the upper-bound-only guard. Its row-major offset is that of cell (0, 2). The corrected judgement rejects it as out of bounds. |
| Moves.PromptNextMove | ttt.c:152-185 | The move is the one FirstAccepted picks, and the count is the number of lines it took. The move is a blank cell of the grid, and every earlier line was rejected. With no acceptable line, there is no move. |
| Moves.DrawnCell | ttt.c:131-134 | Draw r picks cell number r % 9 in row-major order, and the coordinates it gives are in the grid. |
| Moves.DrawnCellOnto | ttt.c:126-134 | Every cell is drawn by its own number, so the computer can reach any blank cell. |
| Moves.FirstBlankDraw | ttt.c:130-135 | The cell chosen from a run of draws is the first drawn cell that is blank, after exactly the draws it took, all earlier ones hitting taken cells. There is no cell exactly when every draw hits a taken cell. |
| Moves.FirstBlankDrawAt | ttt.c:130-135 | A draw that hits a blank cell after a run of draws hitting taken ones is the cell FirstBlankDraw picks. |
| Moves.PerformAIMove | ttt.c:119-141 | The cell is the one FirstBlankDraw picks, after the draws it took. 'O' is written there, nothing else changes, and every earlier draw hit a taken cell. With no such draw, the grid is unchanged. |
| Game.LegalExtend | ttt.c:319-336 | A move into a blank cell of an undecided grid extends a legal game. The new grid is the old one with that move written. |
| Game.FollowsExtend | ttt.c:321-331 | Appending the move a source picks, from the lines and draws still untaken, keeps the game following the sources. It adds exactly the lines or draws the move took. |
| Game.TurnsExtend | ttt.c:321-336 | A move by the current player, from the right move source, keeps the players alternating, starting with player 1. |
| Game.ExtendGame | ttt.c:319-337 | One iteration of the loop keeps three invariants: the game is legal; the turns alternate; the number of moves plus the number of blanks is unchanged. |
| Game.LegalFillsBlanks | ttt.c:319-337 | Each legal move fills one blank. A legal game has at most as many moves as the starting grid had blanks, and so at most 9. |
| Game.DecidedGameResult | ttt.c:319-341 | With the corrected evaluator, a decided legal game from the empty grid has at least one move. A result of 0 means a full grid with no line, and a positive result is the number of the player who moved last. |
| Game.TakeTurn | ttt.c:321-331 | The move is the one the player's source picks, and the counts are the lines or draws it took. The mover's character goes into that cell, which was blank, and nothing else changes. With no move, no remaining line or draw is acceptable and the grid is unchanged. |
| Game.PlayGame | ttt.c:306-342 | Each move is the one its source picks from the lines and draws still untaken; the counts returned are the lines and draws the moves took. The final grid is the start grid with the moves replayed, and the moves form a legal game. Players alternate from 1, and the computer moves exactly for player 2 in a one-player game. Each move removes one blank. The value returned is the first result of the corrected evaluator that is 0 or more. getWinStatus as written is then 0 or more too, so the source's loop stops after the same moves. A stalled game leaves the player to move with no acceptable line or draw. |
| Game.StartGame | ttt.c:344-357 | A player count outside 1..2 returns -1 and leaves the grid alone. Otherwise the game starts from the empty grid, follows the move sources, and has at most 9 moves. With the corrected evaluator, its result is 0 (a full grid, no line) or the number of the player who moved last. getWinStatus as written is 0 or more on the same grid. A stalled game leaves the player to move with no acceptable line or draw. |

## Left out

- drawGrid, the prompts and the messages (`printf`, `puts`) are output only and are not modelled.
- clearInputStreamLine, the `fscanf` of a word of at most 80 characters and the `sscanf` of `"%d,%d"`: input parsing is outside the model. Each line arrives as a `MoveInput`.
- main (the menu and the score keeping) is not part of this model.
- `srand(time(NULL))` and `rand()`: the clock and the generator are replaced by the caller's sequence of draws.
- Moves.PromptNextMove: models the recursion on bad input as a loop over a finite sequence of lines. It returns `None` when the lines run out, where the source would keep asking. The `player` argument only appears in the prompt text and is dropped.
- Moves.PerformAIMove: returns `None` when the draws run out, where the source would keep drawing.
- Game.PlayGame: returns `Stalled` when the move sources run out, where the source waits forever. It runs on the corrected evaluator `WinStatus`, not on the code as written; see "## Findings".
- Players.GetPlayerInfo: an unknown goal, the source's fatal `exit(1)`, is excluded by a precondition. The key is an `int`, not a C `char`, so the conversion of a character to `char` is not modelled. For the characters the game uses this makes no difference.
- Board.ResetGrid: the source's fatal exit in startGame on a failed reset is shown unreachable (the result is always GridSize) instead of being modelled.
- Board.GetGridCell: checks both bounds and returns -1 for a negative coordinate. The code as written reads outside the array there (ttt.c:55-56), and that read is not modelled; see "## Findings".
- Board.SetCell: a negative coordinate leaves the grid unchanged. The code as written writes outside the array there (ttt.c:67-68), or into another cell of it; see "## Findings".
- Board.SetGridCell: the same as Board.SetCell. A negative coordinate returns -1 and changes nothing, where the source writes outside the array.
- Board.GetAfterSet: for a negative coordinate it states a read of -1 after the set. The source would read back the byte it wrote outside the array.
- Moves.Judge: an adjusted negative coordinate is judged out of bounds. The source reads outside the array there and may accept the move.
- Game.StartGame: the game runs on the corrected evaluator `WinStatus`. The source returns getWinStatus as written on the final grid. The two agree on when the game ends (AsWrittenDiffersOnlyOnColumns), but can differ on the value returned, as `ColumnWinReportedAsTie` shows.
- `char win_status` in playGame: where plain `char` is signed, as on x86, the evaluator's results -1..2 fit, so the narrowing is not modelled.
- Where plain `char` is unsigned (ARM and PowerPC Linux, or `-funsigned-char`), the -1 of getWinStatus is stored in `win_status` as 255, so the loop test at ttt.c:319 is never true. playGame then returns 255 without a single move, and main reports an error. The model assumes a signed `char` and does not model this.
- Moves.Judge: a failed word read (`NoInput`, ttt.c:162) only happens at end of input or on a read error. After it, clearInputStreamLine (ttt.c:97, called from ttt.c:183) loops forever on end of input, or discards the following line. The model instead goes on to judge the next line.

## Findings

| source | as written | input that shows it | evidently intended | confidence | as-written member | corrected member |
|---|---|---|---|---|---|---|
| ttt.c:55, ttt.c:67 | getGridCell and setGridCell test only `x < GRID_SIZE && y < GRID_SIZE` | input "0,1" adjusts to (-1, 0). That passes the test, so the code reads, and if the byte is blank writes, memory before the grid. Input "2,0" adjusts to (1, -1), whose row-major offset is that of cell (0, 2), so the move lands on a cell other than the one entered | coordinates below 0 are out of bounds, giving -1 and "Cell out of bounds" | high (not executed) | Board.UpperBoundGuard, Moves.GuardAdmitsZeroCoordinate, Moves.GuardAdmitsAliasedCell | Board.InBounds, Board.GetGridCell, Moves.Judge |
| ttt.c:268 | the column branch reports `getGridCell(i, 0)`, a cell of row i, not of column i | board `XOX / " O " / " OX"`, reached by X 1,1; O 1,2; X 1,3; O 2,2; X 3,3; O 3,2: the result is 0, a tie on a non-full board with 'O' winning | report the column's own character `getGridCell(0, i)`, giving 2 | high (not executed) | Evaluator.GetWinStatus, Evaluator.ColumnWinReportedAsTie, Evaluator.ColumnWinCreditedToOtherPlayer | Evaluator.WinStatus, Evaluator.WinnerIsLastMover |
