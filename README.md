# Tic-tac-toe with move history, in Dafny

A model of the game logic of a browser tic-tac-toe game with time travel
(`src/index.js`): the winner evaluator `calculateWinner`, the `Game`
component's state (`history`, `stepNumber`, `xIsNext`, `sortAscend`) and its
three handlers `handleClick`, `jumpTo` and `toggleSort`, and the values
`Game.render` derives from the state (status line, move-list order and its
emphasised entry, the "last move" row and column, the highlighted squares).

Modules:

- `Wrappers` — `Option`, standing for the source's `null` results.
- `Board` — cells (`Empty` for `null`, `X`, `O`), boards as sequences of nine
  cells, the count of occupied cells, and the 1-based row/column a move records.
- `Evaluator` — the eight lines in their fixed order, `Winner` (the scan as a
  recursive function) and `CalculateWinner` (the loop with its early return,
  proved equal to `Winner`), with lemmas that characterise the result.
- `Rules` — the controller's state as a value, each handler as a function of
  the old state (`AfterClick`, `AfterJump`, `AfterToggle`), the invariant
  `Inv` of every reachable state, and lemmas about them.
- `Controller` — class `Game` with the four fields, updated in place by
  `HandleClick`, `JumpTo` and `ToggleSort`; each method's postcondition ties
  the new fields to the corresponding `Rules` function of the old ones.
- `View` — status, move order, last move and highlighting, with lemmas saying
  what each shows on a reachable state.

`Inv` says: history is non-empty and starts with the empty board with row and
column 0; the step is a valid index; the turn is X's exactly on even steps;
and each entry follows the previous one by one legal move — the recorded
row/column name a cell that was empty, that cell now holds X after an even
step and O after an odd one, nothing else changed, and the previous board had
no winner. From that chain the lemmas derive that entry k holds exactly k
marks, that marks are never overwritten, that history has at most ten
entries, and that step 9 is reached exactly when the board is full.

## Model

| member | source | states |
|---|---|---|
| `Evaluator.CalculateWinner` | src/index.js:179-197 | the loop over the eight lines with its early return yields exactly the scan result `Winner` |
| `Evaluator.Winner` | src/index.js:179-197 | `calculateWinner(squares)`: null, or a line of the table whose three cells hold the same mark, with that mark |
| `Evaluator.WinnerFrom` | src/index.js:190-196 | a result from the scan names a line whose three cells hold the same mark, and that mark |
| `Evaluator.WinnerNone` | src/index.js:190-196 | the evaluator returns null exactly when none of the eight lines has three equal non-empty cells |
| `Evaluator.WinnerIsFirstMatch` | src/index.js:190-196 | a non-null result is the first complete line in table order, and its mark is non-empty and equal on all three cells |
| `Evaluator.FirstMatchIsWinner` | src/index.js:190-196 | conversely, the first complete line in table order is the line returned, with its mark |
| `Evaluator.LinesOrder` | src/index.js:180-189 | the table lists the rows top to bottom, the columns left to right, then the diagonal 0-4-8 and the diagonal 2-4-6 |
| `Evaluator.WinnerIffThreeInARow` | src/index.js:179-197 | a winner is reported exactly when some row, column or diagonal holds three equal marks |
| `Board.Mark` | src/index.js:90 | the mover's mark is never empty, and is X exactly when `xIsNext` |
| `Board.Occupied` | src/index.js:87 | the number of occupied cells never exceeds the number of cells |
| `Board.OccupiedExtremes` | src/index.js:70 | the count is 0 exactly on a blank board and 9 exactly on a full one |
| `Board.OccupiedPlace` | src/index.js:87-90 | writing a mark into an empty cell raises the count by one |
| `Board.Row` | src/index.js:94 | the recorded row is in 1..3 |
| `Board.Col` | src/index.js:95 | the recorded column is in 1..3 |
| `Board.CellAtRowCol` | src/index.js:94-95 | the recorded row and column lead back to the clicked cell |
| `Board.RowColCellAt` | src/index.js:94-95 | every row/column pair in 1..3 is recorded for the cell it names; with `Board.CellAtRowCol` the pairs and the nine cells correspond one to one |
| `Rules.Initial` | src/index.js:68-77 | the constructor's state: one blank board with row and column 0, step 0, X to move, ascending list; it satisfies the invariant |
| `Rules.AfterClick` | src/index.js:80-100 | `handleClick(i)`: truncate after the current step; ignore the click on a won board or a taken cell, else append the copy with cell `i` marked and its row and column, step + 1, other player; either the state is unchanged or the new entry is the last one, one past the old step |
| `Rules.AfterJump` | src/index.js:102-107 | `jumpTo(step)`: the step becomes `step` (a valid index) and the turn follows its parity; history and sort order stay |
| `Rules.AfterToggle` | src/index.js:109-113 | `toggleSort()`: the sort flag flips; history, step and turn stay |
| `Rules.ClickIgnored` | src/index.js:86-89 | a click leaves the state unchanged exactly when the current board has a winner or the cell is occupied |
| `Rules.ClickAccepted` | src/index.js:81-98 | an accepted click keeps entries 0..stepNumber, drops later ones, appends one entry that differs from the current board only at the clicked cell (now the mover's mark) with its row and column in 1..3, advances the step by one and passes the turn |
| `Rules.MoveIsLegal` | src/index.js:86-95 | on a reachable state the appended snapshot is a legal move from the current board |
| `Rules.ChainExtend` | src/index.js:81-98 | cutting a legal history after an entry and appending a legal move keeps every consecutive pair legal |
| `Rules.AcceptedPreservesInv` | src/index.js:86-98 | an accepted click preserves the invariant |
| `Rules.ClickPreservesInv` | src/index.js:80-100 | `handleClick` preserves the invariant |
| `Rules.JumpPreservesInv` | src/index.js:102-107 | `jumpTo` preserves the invariant and leaves history and sort order alone |
| `Rules.TogglePreservesInv` | src/index.js:109-113 | `toggleSort` preserves the invariant and flips the sort flag |
| `Rules.OccupiedIsStep` | src/index.js:86-98 | the board at history entry k holds exactly k marks |
| `Rules.OccupiedAfterMove` | src/index.js:87-90 | a legal move adds exactly one mark to the board |
| `Rules.HistoryBound` | src/index.js:87-98 | history has at most ten entries and the step is at most 9 |
| `Rules.StepNineIffFull` | src/index.js:143 | the draw test `stepNumber === 9` holds exactly when the current board is full |
| `Rules.MarksPersist` | src/index.js:86-93 | a mark in an entry stays in every later entry of the same history |
| `Rules.NoPlayAfterWin` | src/index.js:87-89 | only the last history entry can have a winner |
| `Rules.JumpThenClick` | src/index.js:81-107 | jumping to step k and then making a move leaves k + 2 entries, the first k + 1 unchanged, with X placed after an even k and O after an odd one |
| `Rules.LeftColumnScenario` | src/index.js:80-100 | from the initial state, clicks 0, 1, 3, 4, 6 give five moves and X wins on the left column 0-3-6 |
| `Controller.Game.constructor` | src/index.js:66-78 | one empty-board entry with row and column 0, step 0, X to move, ascending list |
| `Controller.Game.HandleClick` | src/index.js:80-100 | the new fields are `AfterClick` of the old ones and the invariant holds; an ignored click changes nothing |
| `Controller.Game.JumpTo` | src/index.js:102-107 | only the step and the turn change, the turn by the step's parity |
| `Controller.Game.ToggleSort` | src/index.js:109-113 | only the sort flag changes, to its negation |
| `View.StatusOf` | src/index.js:140-147 | the status: winner exactly when the evaluator finds a line, with the evaluator's mark, else draw exactly when no line is complete at step 9, else the next player, X exactly when `xIsNext`; a named player is never empty |
| `View.StatusMeaning` | src/index.js:140-147 | on a reachable state: winner exactly when a line is complete (naming its mark), draw exactly when the board is full with no line, otherwise the next player by the parity of marks on the board |
| `View.StatusText` | src/index.js:142-146 | the status line is never empty and, for a winner or next player, ends with that player's symbol |
| `View.StatusTextDistinct` | src/index.js:140-147 | different statuses give different status lines |
| `View.MoveOrder` | src/index.js:122-123 | the move list has one row per history entry, each naming a valid step (its order is pinned by `View.MoveOrderDescending`) |
| `View.MoveOrderIsPermutation` | src/index.js:122-123 | in either order every step appears exactly once |
| `View.MoveOrderDescending` | src/index.js:122-123 | the ascending list is the steps 0..n-1 in play order, and the descending list is it reversed |
| `View.OneCurrentMove` | src/index.js:129-131 | exactly one row of the move list is the current step |
| `View.LastMove` | src/index.js:148-150 | "last move" is shown exactly when the entry's column is non-zero, and then shows the entry's row and column |
| `View.LastMoveShown` | src/index.js:148-150 | "last move" is shown for every entry but the start, naming the cell that move filled with the mover's mark |
| `View.Highlighted` | src/index.js:38 | a square is highlighted only when the evaluator found a winning line, and then it is occupied |
| `View.HighlightedCarryWinner` | src/index.js:38 | highlighted squares lie on a complete line and carry the winner's mark |

## Left out

- The React rendering (`Square`, `Board.renderSquare`, `renderRow`, `render`,
  the JSX of `Game.render`), `ReactDOM.render` and the stylesheet: a UI
  projection and host I/O. Only the highlight test of `renderRow` is modelled.
- The asynchronous, batched semantics of `setState`: each handler is one
  atomic update.
- The move-list button labels ("Go to move #n", "Go to game start") and the
  `<strong>` emphasis markup, beyond which row is the current step.
- The text of "last move" beyond the row and column it shows.
- `Controller.Game.HandleClick`: the cell index is a position 0..8; the board
  only ever passes those, so the JavaScript behaviour for other indices is
  not modelled.
- `Controller.Game.JumpTo`: requires a valid history index; the source does
  not check it, and the move list only offers valid steps.
- Boards are immutable values, so `slice()` before writing the cell is value
  semantics here: no snapshot can be aliased or mutated later.
