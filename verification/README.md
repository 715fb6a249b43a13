# Tic-tac-toe game state and winner evaluator

A Dafny model of the logic inside the `Game` component of a React tic-tac-toe
application (`src/App.js`): the winner evaluator `calculateWinner`, the
history state machine driven by `handleClick`, `restart` and `jumpTo`,
the turn-parity rule `xIsNext`, the status line and the labels of the history
buttons.

- `winner.dfy` (module `WinEvaluator`): cells (`Empty` for `null`, `Mark(X)`,
  `Mark(O)`), nine-cell boards, square indices 0..8, the eight lines in scan
  order (rows, columns, diagonals) and `CalculateWinner`, which returns
  `None` for the source's `null`. `HasLine(b, p)` is the reference notion "p
  has three in a row"; the evaluator's answer is characterised against it.
- `game.dfy` (module `GameState`): the state record `Game(history,
  currentMove)`, the three handlers as pure state-to-state functions, the
  invariant `Valid` (non-empty history starting at the empty board, `currentMove` in
  range, each snapshot is its predecessor plus one accepted move by the player
  whose turn it was) and the lemmas that every handler preserves it.
- `status.dfy` (module `GameStatus`): the status rule as a datatype
  `Winner(p) | Draw | Next(p)`.
- `labels.dfy` (module `MoveLabels`): "Go to game start" / "Go to move #k",
  with the decimal rendering of `k` and its inverse.
- `scenarios.dfy` (module `Scenarios`): `Play` folds clicks over a state; every
  state reached by clicks from the start is valid; two complete games.

On an arbitrary board `calculateWinner` does not return "the" player with a
line: if both players own a line, the first in scan order wins. The model
states the exact first-match behaviour for all boards, and proves that on every
board of a valid history at most one player (the one who moved last) can own a
line, so there the answer is `p` exactly when `p` has three in a row.

## Model

| member | source | states |
|---|---|---|
| WinEvaluator.ScanFrom | src/App.js:117-123 | scanning from line k yields none iff no line at index k or later is completed, otherwise the mark of a line that is completed with no completed line between k and it |
| WinEvaluator.CalculateWinner | src/App.js:106-124 | none iff none of the eight lines is completed, iff neither player has three in a row; a returned mark owns a line; when line j is the first completed line in scan order and p completes it, the answer is p |
| WinEvaluator.NoCompletedLineIffNoLine | src/App.js:119 | the scan's per-line test (first cell marked, other two equal to it) fails on every line iff neither player has three in a row |
| WinEvaluator.WinnerIffLine | src/App.js:106-124 | on a board where not both players own a line, the answer is p iff p has three in a row |
| WinEvaluator.EmptyBoardHasNoWinner | src/App.js:44 | the initial empty board has no line for either player and no winner |
| GameState.TurnsAlternate | src/App.js:47 | `X` moves at snapshot 0 and the mark to move switches to the other player with every move, so it repeats every two moves |
| GameState.LegalIffClickChanges | src/App.js:50-52 | the guard (square empty, no winner) holds exactly when the click changes the state; a rejected click leaves it as it was |
| GameState.HandleClick | src/App.js:49-58 | an occupied square or a board with a winner leaves the state unchanged; otherwise the history becomes the snapshots 0..currentMove followed by one new board, its length is currentMove + 2, `currentMove` is its last index, and the new board equals the current one except that square i holds X on even moves and O on odd ones |
| GameState.Restart | src/App.js:60-63 | from any state, the history is the single empty board and `currentMove` is 0 |
| GameState.JumpTo | src/App.js:65-67 | `currentMove` becomes `move`, the history is unchanged, and the displayed board is snapshot `move` |
| GameStatus.OpeningAnnouncesX | src/App.js:44-47 | the opening state shows the single empty board and its status announces `X` as the next player |
| GameState.StartValid | src/App.js:44-45 | the initial state satisfies the invariant |
| GameState.HandleClickPreservesValid | src/App.js:49-58 | every click, accepted or ignored, preserves the invariant |
| GameState.RestartPreservesValid | src/App.js:60-63 | restart yields a state satisfying the invariant |
| GameState.JumpToPreservesValid | src/App.js:65-67 | a jump to an existing snapshot preserves the invariant |
| GameState.SnapshotCounts | src/App.js:53-57 | snapshot k of a valid history has 9 - k empty squares, (k + 1) / 2 crosses and k / 2 noughts |
| GameState.SnapshotsDifferInOneSquare | src/App.js:53-55 | consecutive snapshots differ in exactly one square, which went from empty to a mark |
| GameState.HistoryBounded | src/App.js:50-57 | a valid history holds at most ten snapshots |
| GameState.OnlyLastMoverHasLine | src/App.js:50-54 | in a valid history, a player owning a line on snapshot k made the move that produced snapshot k |
| GameState.WinnerExactOnValidHistory | src/App.js:106-124 | on every snapshot of a valid history the evaluator returns p iff p has three in a row |
| GameState.TurnMatchesBoard | src/App.js:47 | X is to move iff the current board holds as many crosses as noughts, O iff it holds one cross more |
| GameState.JumpThenClickTruncates | src/App.js:55-57 | after jumping to snapshot k, an accepted click keeps snapshots 0..k, discards the rest and appends one board |
| GameState.ClickThenJumpBackUndoes | src/App.js:55-66 | after an accepted click, jumping back to the previous `currentMove` shows the board the click was made on |
| GameStatus.StatusOf | src/App.js:69-77 | the status names a next player iff some click would be accepted, and that player is the one whose mark the click places; it is a win iff the evaluator names a winner, the announced winner is exactly the evaluator's answer and owns a line; a full board without winner is a draw |
| GameStatus.GameOverFreezes | src/App.js:50-52 | once the status is a win or a draw every click is ignored |
| GameStatus.ClickPlacesAnnouncedMark | src/App.js:47-54 | an accepted click places the mark of the player the status line announces |
| GameStatus.WinnerIsLastMover | src/App.js:69-72 | in a valid state a win is announced only for the player who made the last move, and only from move five on |
| GameStatus.StatusWinnerIffLine | src/App.js:69-72 | in a valid state the status names p as winner iff p has three in a row |
| GameStatus.DrawIffNineMovesNoWinner | src/App.js:73-74 | in a valid state the status is a draw iff nine moves were made and there is no winner |
| MoveLabels.Decimal | src/App.js:80 | the rendering of a move number is a non-empty string of digits with no leading zero except for 0 |
| MoveLabels.ParseDecimalInverts | src/App.js:80 | reading the rendered digits back gives the move number |
| MoveLabels.DecimalInjective | src/App.js:80 | different numbers get different numerals |
| MoveLabels.CanonicalNumeralIsDecimal | src/App.js:80 | a digit string without leading zero is the decimal numeral of its value, so the rendering is the only one without leading zeros |
| MoveLabels.MoveLabel | src/App.js:80 | the label is "Go to game start" iff the move is 0; otherwise it is "Go to move #" followed by digits with no leading zero that read back as the move |
| MoveLabels.MoveLabelUnique | src/App.js:80 | for a move other than 0, any string of that prefix followed by a numeral without leading zero whose value is the move is the move's label |
| MoveLabels.MoveLabelInjective | src/App.js:79-83 | different snapshots get different button labels |
| MoveLabels.HistoryLabels | src/App.js:79-86 | one label per snapshot, in history order, the first one "Go to game start"; no two buttons carry the same label, so each label names exactly one snapshot |
| Scenarios.PlayPreservesValid | src/App.js:49-58 | any sequence of clicks from a valid state ends in a valid state |
| Scenarios.ReachableIsValid | src/App.js:44-58 | every state reached by clicks from the initial state is valid |
| Scenarios.ReplayScript | src/App.js:49-58 | replaying a sequence of accepted clicks yields exactly the scripted history, pointing at its last board |
| Scenarios.TopRowWinForX | src/App.js:49-77 | clicks 0, 4, 1, 3, 2 leave the top row (squares 0, 1, 2) completed by X, the status is a win for X, and a further click on square 5 is ignored |
| Scenarios.CatsGame | src/App.js:49-77 | clicks 0, 1, 2, 4, 3, 5, 7, 6, 8 fill the board with no line and the status is a draw |

## Left out

- The `Board` component, all JSX and Chakra layout and styling, and the `App` wrapper (src/App.js:4-41, 81-130): rendering only, no logic.
- React `useState` semantics (asynchronous setters, batching, re-rendering): each handler is one atomic, synchronous state transition.
- The status text (`Winner: X`, `Scratch: Cat's game`, `Next player: O`): the status is the datatype `Status`, and only its content is modelled.
- GameState.HandleClick: the square index is typed 0..8 because the board renders exactly nine buttons with those indices; the behaviour of a JavaScript out-of-range index is not modelled.
- GameState.JumpTo: requires the target to be an existing snapshot, since the history buttons are generated from the history itself.
