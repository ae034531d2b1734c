# Tic Tac Toe game engine — Dafny model

This project models the game logic inside the single React component of an
interactive Tic Tac Toe page (`react_frontend/src/App.js`): the status
evaluator `computeGameStatus`, the move transition `handleClick`, the
`handleRestart` reset, and the component's initial state. The component's
state (`squares`, `xIsNext`, `gameStatus`) becomes an immutable
`GameState` record, and each event handler becomes a pure function from
state to state.

- `board.dfy` (module `Grid`) holds the board's data. A `Cell` is `Empty`
  (the component's `null`) or `Mark(X)` / `Mark(O)`. A `Board` is a sequence
  of exactly 9 cells in row-major order. `WinLines` is the 8-entry win-line
  table, in the source's order: rows, then columns, then diagonals. The module
  also counts marks on a board.
- `status.dfy` (module `Status`) holds the evaluator. `ComputeGameStatus`
  scans the table and returns the first complete line as a `Win`. Without
  one, it returns `Draw` on a full board and `None` on any other board.
  `None` is the component's `null`, a game still going on. `Describes` states
  what a status means independently of the scan. `DescribesUnique` proves the
  evaluator's result is the only status that `Describes` a board.
- `game.dfy` (module `Game`) holds the state machine. It defines `Initial`,
  `HandleClick` and `HandleRestart`, and the invariant `Inv` of reachable
  states:
  - X has as many marks as O, or one more;
  - it is X's turn exactly when the counts are equal;
  - the stored status is the evaluator's verdict on the board;
  - only the player who moved last can own a complete line.

  `Run` replays any sequence of clicks and restarts, and `ReachableInv`
  proves that every state it reaches keeps `Inv`.

The component also has an effect (App.js:50-52) that recomputes the status
whenever the squares change. It is modelled as the invariant conjunct
`status == ComputeGameStatus(board)`, not as a separate step. `HandleClick`
and `HandleRestart` already store exactly that value, so the effect never
changes the state.

Two details of `handleClick` shape the model:
- `handleClick` does not range-check its index. The page only passes
  `row * 3 + col` with `row` and `col` in 0..2 (App.js:142-144), so the index
  has the type `Index` (0..8). The model has no rejection branch for
  out-of-range indices.
- `handleClick` returns no "accepted" flag. The predicate `Accepts` names the
  condition under which the click changes the state.

## Model

| member | source | states |
|---|---|---|
| Status.FirstCompleteFrom | react_frontend/src/App.js:57-72 | The scan from table entry `k` yields the first position at or after `k` whose line has three equal non-empty squares, with no complete line between `k` and it; it yields nothing exactly when no line from `k` on is complete |
| Status.ComputeGameStatus | react_frontend/src/App.js:55-77 | A win names the first complete line of the 8-line table and the player whose mark fills it; a draw is returned exactly when no line is complete and all 9 squares are marked; `None` exactly when no line is complete and some square is empty |
| Status.DescribesUnique | react_frontend/src/App.js:55-77 | A status satisfies the meaning of a win, a draw or an ongoing game on a board if and only if it is the evaluator's result, so the evaluator's answer is determined by the rules alone |
| Status.EmptyBoardIsOngoing | react_frontend/src/App.js:14 | The all-empty starting board is still in play: no line is complete and the board is not full |
| Status.TopRowWins | react_frontend/src/App.js:57-71 | Three X marks across the top row, rest empty, is a win for X along the line (0, 1, 2) |
| Status.FullBoardDraws | react_frontend/src/App.js:67-75 | The full board X O X / O X O / O X O completes no line and is a draw |
| Game.Initial | react_frontend/src/App.js:14-18 | The starting state has 9 empty squares, X to move, and a stored status that equals the evaluator's verdict on its board |
| Game.HandleClick | react_frontend/src/App.js:28-35 | A click when the game is decided or the square is taken leaves the state unchanged; otherwise exactly the clicked square gets the mover's mark, every other square keeps its value, the turn passes to the other player and the status is the evaluator's verdict on the new board; a marked square never changes |
| Game.HandleRestart | react_frontend/src/App.js:38-42 | Restart yields the starting state whatever the prior state |
| Game.InitialSatisfiesInv | react_frontend/src/App.js:14-18 | The starting state keeps the alternation invariant: no marks, X to move, status consistent with the board |
| Game.RestartSatisfiesInv | react_frontend/src/App.js:38-42 | The state after a restart keeps the invariant, from any prior state |
| Game.ClickCountsOneMark | react_frontend/src/App.js:30-31 | An accepted click raises the mover's mark count by exactly one and leaves the other player's count unchanged |
| Game.ClickCompletesOnlyMoversLines | react_frontend/src/App.js:29-34 | On a board with no complete line, every line an accepted click completes passes through the clicked square and carries the mark of the player who just moved |
| Game.ClickPreservesInv | react_frontend/src/App.js:29-34 | A click, accepted or not, keeps the invariant: the mark counts stay equal or X one ahead, the turn flag follows them, the stored status equals the evaluator's verdict, and only the player who moved last owns a complete line |
| Game.RunPreservesInv | react_frontend/src/App.js:28-42 | Any sequence of clicks and restarts from a state that keeps the invariant ends in a state that keeps it |
| Game.ReachableInv | react_frontend/src/App.js:14-52 | Every state reachable from the starting state by clicks and restarts keeps the invariant |
| Game.WinnerIsLastMover | react_frontend/src/App.js:29-34 | In a reachable state a win belongs to the player who moved last, and every complete line on the board is that player's, so two players never both have a line |
| Game.TurnParity | react_frontend/src/App.js:16 | Whenever X has as many marks as O or one more and the turn flag follows the counts, as in every reachable state, it is X's turn exactly when an even number of marks is on the board |
| Game.DecidedIsFinal | react_frontend/src/App.js:29 | Once a game is won or drawn, any sequence of clicks leaves the state unchanged |

## Left out

- The theme state, `toggleTheme` and the effect that writes `data-theme` on the document (App.js:20-24, 45-47): they are presentation and a DOM side effect, with no game logic.
- Rendering (App.js:79-157): the status text, CSS class names, the win-line highlight, the `disabled` flags and the aria labels only map the state to markup.
- React's state scheduling and batching: each handler is modelled as one synchronous transition whose state updates all take effect together.
- JavaScript truthiness and writes outside the 9-square array: the click index is restricted to 0..8 by its type, as the page's own calls guarantee.
