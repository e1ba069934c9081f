# Tic-tac-toe against a deliberately weak computer

A Dafny model of the game engine in `script.js`. The human plays `O` and moves first. The computer plays `X` and tries to lose. The engine is four pieces of global state: the nine-cell board, whose turn it is, whether the game is still on, and the number of moves made.

The model has three modules:

- `Rules` (rules.dfy) holds the values of the game: cells, the board, and the fixed table of eight winning lines. It has the end-of-move evaluation (a win for the owner of the first complete line in table order, otherwise a draw at nine moves). It has the search for a cell that would complete a line for a player (`findWinningMove`), written as a loop proved against a specification function. It also counts marks.
- `Opponent` (opponent.dfy) is the computer's move policy. It computes the available moves and the filtered lists (non-blocking, non-winning, corners, edges) as functions. The decision itself is a method. Every `Math.random()` draw is a nondeterministic choice (`:|`) from the list being drawn from, so each guarantee holds whatever the draws are.
- `TicTacToe` (game.dfy) is the class `Game`. Its four fields are the four globals, and its methods update them in place: `MakeMove`, `CheckResult` (the table scan as a loop with `break`), `HandleCellClick` (the turn gate), `ComputerMove` and `ResetGame`, plus `ComputerTurn`, the computer's turn guarded by whose turn it is. `Valid()` is the object invariant: the counter equals the number of marks, and the game is on exactly when the evaluation says "ongoing". `TurnOrder()` states strict alternation with the human first, through the numbers of marks of each player.

## Model

| member | source | states |
|---|---|---|
| `Rules.FirstCompleteFrom` | script.js:86-96 | The result is a complete line (three equal non-empty cells), and no earlier line in table order is complete. None means no line from the starting position on is complete. |
| `Rules.EvaluateWonIff` | script.js:86-106 | The check reports a win exactly when some line of the table is complete. |
| `Rules.EvaluateFirstLine` | script.js:86-99 | When line `i` is the first complete line in table order, the winner is the owner of its first cell, and that player owns all of line `i`. |
| `Rules.WinnerHasLine` | script.js:98-100 | The reported winner has three in a row. |
| `Rules.SoleLineWins` | script.js:86-106 | When exactly one player has three in a row, that player is reported the winner. |
| `Rules.EvaluateNoLine` | script.js:109-121 | With no complete line, the result is a draw exactly when the counter is 9, and otherwise the game goes on. |
| `Rules.EmptyBoardOngoing` | script.js:12-15 | The initial board has no marks, no marks of either player, and the game on it is still on. |
| `Rules.MarkCount` | script.js:76 | The number of marked cells never exceeds the number of cells. |
| `Rules.CountOf` | script.js:74 | A player's mark count never exceeds the total number of marks. |
| `Rules.CountOfPlace` | script.js:74 | Writing `p`'s mark into an empty cell adds one to `p`'s count and leaves the other player's count unchanged. |
| `Rules.MarkCountSplit` | script.js:73-76 | Every mark belongs to exactly one of the two players. |
| `Rules.MarkCountPlace` | script.js:73-79 | Writing a mark into an empty cell raises the mark count by exactly one. This is why the counter keeps equal to the number of marks. |
| `Rules.MarkCountFull` | script.js:109 | The mark count equals the board size exactly when no cell is empty. So nine moves means a full board. |
| `Rules.MarkCountTwo` | script.js:168-170 | Two marked cells give a count of at least two. This is why corners remain free on the computer's first move. |
| `Rules.StaysDecided` | script.js:98-117 | A mark written into an empty cell cannot undo a win or a draw. A decided position stays decided. |
| `Rules.FirstEmptyOn` | script.js:191-193 | The cell returned for a line with an empty cell is empty. |
| `Rules.FirstThreatFrom` | script.js:186-195 | The result is a line with exactly two of `p`'s marks and an empty cell, and no earlier line in table order is one. None means no line from the starting position on is one. |
| `Rules.WinningMove` | script.js:185-197 | The search result is an empty cell. The result is None exactly when no line holds two of `p`'s marks and an empty cell. |
| `Rules.WinningMoveIsFirst` | script.js:186-194 | When line `i` is the first line with two of `p`'s marks and an empty cell, the result is that line's first empty cell. |
| `Rules.WinningMoveCompletes` | script.js:185-197 | Playing the returned cell gives `p` three in a row. |
| `Rules.WinningMoveExists` | script.js:185-197 | Completeness. If `p` has no line yet and some empty cell would give `p` one, the search finds a cell. |
| `Rules.FindWinningMove` | script.js:185-197 | The loop with its early returns computes exactly the specified first empty cell of the first threat line, or None. |
| `Opponent.EmptyCellsFrom` | script.js:126-128 | The list holds exactly the empty cells at or after the starting index, in strictly ascending order. |
| `Opponent.AvailableCount` | script.js:126-130 | There are as many available moves as unmarked cells. So the list is empty only when all nine cells are marked. |
| `Opponent.Without` | script.js:146 | The filtered list holds exactly the moves of the input other than the excluded cell. |
| `Opponent.KeepAvailable` | script.js:165-166 | The filtered list holds exactly the candidates (corners or edges) that are available. |
| `Opponent.ChooseMove` | script.js:134-178 | The chosen cell is empty. It is not the human's winning cell when another empty cell exists. With no human winning cell, it is not the first winning cell the search reports for the computer when another empty cell exists. On the computer's first move, with no winning cells and the centre free, it is a corner. |
| `Opponent.NotBlockingKeepsWin` | script.js:144-151 | If the computer plays any empty cell other than the human's winning cell, that cell stays empty and still completes a line for the human. |
| `Opponent.SecondOwnWinAllowed` | script.js:153-157 | A reachable board where the search reports the computer's winning cell 0, and cell 2, which the policy allows, completes another line for the computer. Only the first reported winning cell is avoided. |
| `Opponent.NonBlockingMoveMayWin` | script.js:145-148 | A reachable board (O0, X2, O3, X5, O1) where the search reports the human's cell 6, and cell 8, which the policy allows, completes the computer's own line. The policy does not prevent computer wins. |
| `TicTacToe.Game.constructor` | script.js:12-15 | Empty board, human to move, game on, counter 0. The invariant and the turn order hold. |
| `TicTacToe.Game.MoveCountParity` | script.js:59-60 | In a running game with strict alternation, the counter is twice the computer's moves, plus one while the computer is to move. |
| `TicTacToe.Game.MakeMove` | script.js:73-79 | Only the target cell changes, to the player's mark. The counter goes up by one and the turn is untouched. The game stays on only if the new position is still ongoing. The invariant is kept when the cell was empty. |
| `TicTacToe.Game.CheckResult` | script.js:82-122 | The table scan's outcome is the evaluation of the board and counter. The game is switched off exactly on a win or a draw, and never switched on. |
| `TicTacToe.Game.HandleCellClick` | script.js:49-70 | A click on a taken cell, after the game ended, or on the computer's turn changes nothing. Otherwise the human's mark is written, the counter goes up by one, and the turn passes to the computer exactly when the game goes on. The invariant and the turn order are kept. |
| `TicTacToe.Game.ComputerMove` | script.js:125-182 | Nothing happens after the game ended. Otherwise exactly one empty cell gets the computer's mark, chosen under the policy guarantees of `ChooseMove`, the counter goes up by one, and the turn returns to the human. The invariant is kept, and so is the turn order when it was the computer's turn. |
| `TicTacToe.Game.ComputerTurn` | script.js:64-68 | The delayed computer turn with a check of whose turn it is. It does nothing unless the game is on and the computer is to move; otherwise it does what `ComputerMove` does. The turn order is kept in every state. |
| `TicTacToe.ResetBeforeComputerMove` | script.js:49-68 | Clicking cell 0, resetting, and then running the pending computer move as written leaves a running game where the computer has one mark and the human none, with the human to move. The turn order is broken. |
| `TicTacToe.ResetBeforeComputerTurn` | script.js:49-68 | The same sequence with the guarded turn leaves the fresh game untouched, with the turn order kept. |
| `TicTacToe.Game.ResetGame` | script.js:200-204 | Back to an empty board, counter 0, human to move, game on. The invariant and the turn order hold. |

## Left out

- Rendering and DOM access: the element lookups, cell classes, status and bottom-status texts, and reset-button visibility (script.js:1-10, 75, 100-104, 110-114, 120, 205-214). The winner that `checkResult` announces is returned as `CheckResult`'s outcome instead.
- The start-screen animation and the event wiring (script.js:29-46). They are UI callbacks with no game logic.
- The 500 ms and 800 ms `setTimeout` delays. The computer's turn is the separate method `ComputerMove`. The re-check of `gameActive` before calling it (script.js:65) is subsumed by `ComputerMove`'s own check. Pending callbacks are modelled only by calling `ComputerMove` or `ComputerTurn` after other operations, as `ResetBeforeComputerMove` does.
- The probabilities of `Math.random()` and the 0.3 / 0.5 thresholds. The model keeps only which list each draw comes from, as a nondeterministic choice, not the distribution.
- `parseInt` of the `data-index` attribute (script.js:51). The index is an integer parameter, and `HandleCellClick` requires `0 <= index < 9`. The original does not range-check the index, but an index outside 0..8 (or `NaN`) reads `undefined`, which fails the emptiness test at script.js:53, so the click is ignored. The `requires` excludes only a path on which the original does nothing.
- `Opponent.ChooseMove`: requires that the counter equals the number of marks. This is the game's invariant; it guarantees that the corner list is not empty on the first-move branch. The original would index an empty list otherwise, which cannot happen in play.
- `TicTacToe.Game.ComputerMove`: states the turn order only when it was the computer's turn. Neither `computerMove` nor the `setTimeout` callback that calls it (script.js:64-68) checks `currentPlayer`; the callback checks only `gameActive`. A reset during the 500 ms delay sets `gameActive` again (script.js:200-204), so the pending move is played on the fresh board and the computer moves first; see the finding below. This needs the reset button to be clickable while it lacks its `'show'` class, which it gets only when a game ends (script.js:104, 114) and loses on reset (script.js:209); whether a hidden button can be clicked depends on a stylesheet that is not part of this model.
- `TicTacToe.Game.MakeMove`: keeps the invariant only for an empty target cell. `makeMove` does not check the cell, and its callers only pass empty cells.
- The draw test is `moveCount === 9` (script.js:109), not a full-board test; `Rules.MarkCountFull` and `Valid()` show that the two agree. Only `handleCellClick` rejects a taken cell (script.js:53); `makeMove` writes any cell it is given.

## Findings

| source | as written | input that shows it | evidently intended | confidence | as-written member | corrected member |
|---|---|---|---|---|---|---|
| script.js:64-68 | The delayed callback runs `computerMove` when `gameActive` holds, whatever `currentPlayer` is, and `resetGame` does not cancel it. | Provided the reset button can be clicked while it lacks `'show'` (it gets that class only at game end, script.js:104, 114): click cell 0, then reset within 500 ms, and the computer moves first on the fresh board. Click, reset, click leaves two callbacks, and the computer moves twice in a row. | The computer moves only on its own turn, so play strictly alternates with the human first. | low, not executed | `TicTacToe.ResetBeforeComputerMove` | `TicTacToe.Game.ComputerTurn` |
