# Tic-tac-toe with minimax, modelled in Dafny

This project models `tictactoe.py`, a tic-tac-toe player. The player has two layers:

- **Board rules** over a 3×3 grid of cells, each `X`, `O` or `EMPTY`:
  - `initial_state` returns the empty board.
  - `player` counts the marks to decide whose turn it is.
  - `actions` collects the empty cells.
  - `result` places the mover's mark on a copy of the board and rejects an occupied cell.
  - `winner` scans the rows, then the columns, then the two diagonals.
  - `terminal` says whether the game is over.
  - `utility` maps the winner to 1, -1 or 0.
- **Minimax search**:
  - `max_value` and `min_value` compute the game value by mutual recursion, returning early at ±1.
  - `minimax` picks, for the player to move, the first move found with the best score.

The project has three modules, one per file:

- `board.dfy`, module `Board`: the data model and the rules as pure functions over immutable board values, with the properties they promise.
  - `Cell` is `Empty | X | O`. `Player` is a non-empty cell. `Board` is a 3×3 `seq<seq<Cell>>`. `Move` is `(int, int)`.
  - The functions are `NextPlayer`, `Moves`, `Apply`/`Child`, `WinnerOf`, `IsTerminal` and `UtilityOf`.
  - `ThreeInARow` is a reference definition of a win that does not depend on the scanning order.
- `rules.dfy`, module `Rules`: the source's loop-based functions as methods.
  - They use the same nested loops, counters, flags and early returns as the source.
  - Each one is proved to compute the matching function of `Board`.
- `search.dfy`, module `Search`: the search.
  - `MaxValueOf`/`MinValueOf` define the full minimax value over the legal moves.
  - The methods `MaxValue`, `MinValue` and `Minimax` follow the source's loops. They take the moves of the move set in an arbitrary order, as Python's set iteration does, and keep the source's early exits and its strict-improvement tie-break.
  - `Minimax` returns a ghost record `order` of the order in which the moves were taken. Its tie-break is stated against that record.

## Model

| member | source | states |
|---|---|---|
| Board.InitialState | tictactoe.py:12-18 | every one of the nine cells of the starting board is empty |
| Board.InitialStateFacts | tictactoe.py:12-33 | on the starting board X is to move, there are nine legal moves, and the mark counts are balanced |
| Board.NextPlayerBalanced | tictactoe.py:29-33 | on a board where X has as many marks as O or one more, X is to move exactly when the counts are equal, O exactly when X has one more |
| Board.MovesMembership | tictactoe.py:43-46 | a move is legal exactly when it is inside the grid and names an empty cell |
| Board.MovesCard | tictactoe.py:37-48 | the number of legal moves equals the number of empty cells, which is 9 minus the number of marks |
| Board.FullNoMoves | tictactoe.py:37-48 | a board is full exactly when it has no legal move, that is, when no cell is empty |
| Board.Apply | tictactoe.py:51-64 | a move succeeds exactly when it is a legal move; a successful move uses up one empty cell |
| Board.Child | tictactoe.py:51-64 | the board after a legal move has one empty cell fewer |
| Board.ApplyChangesOneCell | tictactoe.py:55-62 | after a legal move the named cell holds the mark of the player who was to move, and every other cell is unchanged |
| Board.ApplyCounts | tictactoe.py:60-62 | a move adds one mark of the mover, leaves the other player's count unchanged, and removes one empty cell |
| Board.ApplyAlternates | tictactoe.py:29-33 | on a balanced board a move passes the turn to the other player and keeps the board balanced |
| Board.ApplyRemovesMove | tictactoe.py:45-46 | after a move, its cell is no longer legal and the legal moves are the old ones minus that cell |
| Board.ApplyTwiceFails | tictactoe.py:57-58 | playing the same cell again on the resulting board is an invalid move |
| Board.PlayAlternates | tictactoe.py:21-33 | along any sequence of valid moves from a balanced board the board stays balanced, the turn alternates with the parity of the number of moves, and each move uses one empty cell |
| Board.PlayFromInitial | tictactoe.py:12-33 | from the starting board X moves after an even number of moves and O after an odd one, and 9 minus the number of moves remain legal |
| Board.WinnerSkip | tictactoe.py:67-108 | lines owned by neither player can be skipped without changing the winner the scan reports |
| Board.WinnerFromSound | tictactoe.py:67-108 | a winner reported from the k-th line on owns one of those lines; no winner means neither player owns any of them |
| Board.SomeLineOwned | tictactoe.py:67-108 | owning one of the eight scanned lines is the same as having three in a row by the reference definition |
| Board.WinnerSound | tictactoe.py:67-108 | a reported winner has three in a row |
| Board.WinnerNone | tictactoe.py:67-108 | there is no winner exactly when neither player has three in a row |
| Board.WinnerUnique | tictactoe.py:67-108 | when exactly one player has three in a row, that player is the winner |
| Board.TerminalCases | tictactoe.py:110-119 | three in a row ends the game even with empty cells; the game is over exactly when there is a winner or no legal move; an unfinished game has a legal move |
| Board.UtilityOf | tictactoe.py:121-128 | the utility is 1 exactly when X won, -1 exactly when O won, 0 exactly when there is no winner, and so lies in -1..1 |
| Board.UtilityLines | tictactoe.py:121-128 | utility 1 means X has three in a row, -1 means O has, and 0 means neither has |
| Rules.Player | tictactoe.py:21-33 | the nested counting loops return O exactly when X has more marks than O, otherwise X |
| Rules.Actions | tictactoe.py:37-48 | the nested loops collect exactly the set of empty cells (i, j) of the grid |
| Rules.Result | tictactoe.py:51-64 | the method places the mover's mark on the named cell of a copy, and reports an invalid move for an occupied cell or an off-grid one, as Board.Apply states |
| Rules.ScanLine | tictactoe.py:73-79 | after walking the three cells of a line, each player's flag is set exactly when that player owns the whole line |
| Rules.Winner | tictactoe.py:67-108 | scanning rows, columns, the main diagonal and then the anti-diagonal, testing X before O on each line, returns the winner of the reference scan order |
| Rules.Utility | tictactoe.py:121-128 | returns 1 exactly when X won, -1 exactly when O won, and 0 otherwise |
| Rules.Terminal | tictactoe.py:110-119 | returns true exactly when there is a winner or no cell is empty |
| Search.MoveList | tictactoe.py:37-48 | the row-major list of moves holds exactly the legal moves |
| Search.MaxOverChar | tictactoe.py:168-176 | the maximum over a list of moves bounds each move's value and is attained by one of them |
| Search.MinOverChar | tictactoe.py:158-166 | the minimum over a list of moves is below each move's value and is attained by one of them |
| Search.ValueRange | tictactoe.py:158-176 | every game value, with either player to move, lies in -1..1 |
| Search.MaxValueChar | tictactoe.py:168-176 | on an unfinished board, the value with X to move is at least the value of every move and equal to the value of some move |
| Search.MinValueChar | tictactoe.py:158-166 | on an unfinished board, the value with O to move is at most the value of every move and equal to the value of some move |
| Search.MaxValueAttained | tictactoe.py:174-175 | a move reaching 1, or a value that bounds every move and is attained, is the full minimax value with X to move, so the early exit at 1 loses nothing |
| Search.MinValueAttained | tictactoe.py:164-165 | a move reaching -1, or a value below every move and attained, is the full minimax value with O to move |
| Search.WinningMoveForX | tictactoe.py:168-176 | if X has a move that completes three in a row, the position is worth 1 |
| Search.WinningMoveForO | tictactoe.py:158-166 | if O has a move that completes three in a row, the position is worth -1 |
| Search.MaxValue | tictactoe.py:168-176 | the loop with early exit returns the full minimax value with X to move, in -1..1, whatever order the moves are taken in |
| Search.MinValue | tictactoe.py:158-166 | the loop with early exit returns the full minimax value with O to move, in -1..1, whatever order the moves are taken in |
| Search.ScanStep | tictactoe.py:141-145 | taking one more move, and keeping it only when its score is strictly better, keeps the kept move the first best one taken so far |
| Search.ScanDone | tictactoe.py:141-146 | a finished scan of an unfinished board has kept a move; that move is optimal for the player to move (OptimalMove) and is the first move of the scan to reach the value (FirstOptimal) |
| Search.ChosenFromScan | tictactoe.py:141-156 | the first best move of a scan that took every legal move is legal, reaches the value of the position for the player to move, is not beaten by any move, and is the first move of the scan to reach that value |
| Search.BestMoveForX | tictactoe.py:138-146 | for X to move, the legal move kept by the loop reaches the maximum value, no move beats it, and it is the first move in iteration order that reaches that value |
| Search.BestMoveForO | tictactoe.py:148-156 | for O to move, the legal move kept by the loop reaches the minimum value, no move beats it, and it is the first move in iteration order that reaches that value |
| Search.Minimax | tictactoe.py:131-156 | no move exactly on a finished board; otherwise a legal move whose resulting value is optimal for the player to move, which no other move beats, and which is the first move in iteration order to reach that value |

## Left out

- The `math.inf` sentinels (tictactoe.py:139, 149, 162, 172) are the integers -2 and 2. Both lie outside the range of every game value, so comparisons against them behave as they do against infinity.
- Python's set iteration order is not modelled. Each loop over `actions(board)` takes an arbitrary remaining move. The results are proved for every order, and the tie-break of `Minimax` is stated against the ghost record of the order actually taken.
- Off-grid moves in `result`: the code checks only occupancy.
  - A coordinate of 3 or more raises `IndexError`.
  - A coordinate from -3 to -1 indexes from the end of the list and places a mark there.
  - The model reports every off-grid coordinate as `InvalidMove`, as it does an occupied cell. It does not reproduce the negative-index writes.
- The "Invalid move" exception is the `InvalidMove` alternative of the `MoveResult` datatype.
- `result` copies the rows with `row[:]` before writing. Boards are immutable values here, so the copy is implicit and the input is unchanged by construction.
- Boards are exactly 3×3. The source's `len(board)` bounds are the constant 3.
- The cell values `"X"`, `"O"` and `None` are the constructors of `Cell`.
- `minimax` calls `player(board)` a second time in its `elif`, and that call returns the same value. The model calls it once and branches on the result.
- The game value of the starting board (a draw) is not proved. It would need an exhaustive evaluation of the game tree.
- The running time of the exhaustive search is not modelled. The model covers only its result and its termination, and the measure is the number of empty cells.
