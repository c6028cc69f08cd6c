# Tic-tac-toe game state, in Dafny

A model of the game-state core of a small browser tic-tac-toe game
(`src/App.tsx`): the win evaluator `calculateWinner`, the state of the `Board`
component (the nine `squares` and the `xIsNext` turn flag), its only transition
`handleClick(i)`, and the status line derived from that state.

- `squares.dfy`, module `Squares`: marks (`X`, `O`), cells (`Option<Mark>`, with
  `None` for the source's `null`), the initial board of nine empty cells, and
  cell counts with their lemmas.
- `winner.dfy`, module `WinEvaluator`: the eight winning triples in the source's
  order (rows, columns, diagonals). `Winner` is the specification: the mark of
  the first complete triple. `HasLine` is the independent reference: "some
  triple holds three copies of the mark". `CalculateWinner` is the source's
  early-returning `for` loop, proved equal to `Winner`. Lemmas tie `Winner` to
  `HasLine` in both directions and show that the earliest triple decides.
- `game.dfy`, module `Game`: the status line `StatusText`, the invariant
  `Consistent` that every reachable state satisfies, and the class `Board` with the fields `squares` (an
  array) and `xIsNext`. The constructor builds the initial state. `HandleClick`
  is the transition. Like the source, it copies the board (`slice()`), writes
  the copy and installs it, so the previous board array is never written.

The invariant `Consistent` holds from the initial state on and is kept by every
click. It says that 'X' has made as many moves as 'O' or one more, that
`xIsNext` holds exactly when the two counts are equal, and that a winner, when
there is one, is the player who made the last move.

## Model

| member | source | states |
|---|---|---|
| `Squares.InitialBoard` | src/App.tsx:4 | the initial board has nine cells, every one empty |
| `Squares.ActiveMark` | src/App.tsx:46 | the mark written and announced is 'X' exactly when `xIsNext` holds and 'O' exactly when it does not |
| `Squares.MarkText` | src/App.tsx:59-60 | a mark is displayed as the one-character string "X" for 'X' and "O" for 'O' |
| `Squares.CountUpdate` | src/App.tsx:46 | writing a value into one cell moves exactly one occurrence from the cell's old value to the new one; every other count is unchanged |
| `Squares.CountPartition` | src/App.tsx:4 | every cell is empty, 'X' or 'O', so the three counts add up to the board size |
| `Squares.InitialBoardCounts` | src/App.tsx:4 | the initial board has nine cells, all empty, and no 'X' or 'O' |
| `WinEvaluator.LinesInRange` | src/App.tsx:7-16 | the constant `Lines` (the source's `lines`, in the same order) has eight triples and each names cells 0..8 |
| `WinEvaluator.Complete` | src/App.tsx:20 | the evaluator's test (first cell filled, other two equal to it) holds exactly when one of the two marks fills all three cells of the triple |
| `WinEvaluator.WinnerFrom` | src/App.tsx:18-24 | scanning from position k yields the mark of the first complete triple at or after k, and nothing exactly when none of them is complete |
| `WinEvaluator.Winner` | src/App.tsx:6-25 | the evaluator's result: the mark in the first complete triple of the whole list, and nothing exactly when no triple is complete |
| `WinEvaluator.WinnerSound` | src/App.tsx:18-22 | a mark the evaluator returns fills all three cells of one of the eight triples |
| `WinEvaluator.WinnerExists` | src/App.tsx:18-24 | the evaluator returns a mark if and only if some mark fills a whole triple; otherwise it returns nothing |
| `WinEvaluator.WinnerEarliest` | src/App.tsx:7-23 | when several triples are complete, the result is the mark of the earliest one in the order rows, columns, diagonals |
| `WinEvaluator.InitialBoardNoWinner` | src/App.tsx:4-25 | the empty initial board has no winner |
| `WinEvaluator.TopRowWins` | src/App.tsx:6-25 | a board whose top row is all 'X' and is otherwise empty has winner 'X' |
| `WinEvaluator.FirstRowDecides` | src/App.tsx:7-21 | with the top row all 'X' and the middle row all 'O', the top row is scanned first and 'X' is returned |
| `WinEvaluator.CalculateWinner` | src/App.tsx:6-25 | the loop returns the first complete triple's mark or nothing; the result is a mark filling some triple, and nothing exactly when no mark fills one |
| `Game.StatusText` | src/App.tsx:58-60 | the status begins "Winner: " exactly when there is a winner and then names it; otherwise it is "Next player: " followed by the mark the turn flag selects |
| `Game.StatusDetermines` | src/App.tsx:58-60 | equal status lines mean the same winner and, while there is none, the same player to move |
| `Game.InitialConsistent` | src/App.tsx:39-40 | the initial state (empty board, 'X' to move) satisfies the invariant |
| `Game.NewLineHoldsMove` | src/App.tsx:46 | a triple completed by writing one cell passes through that cell and holds the mark written |
| `Game.MoveKeepsConsistent` | src/App.tsx:43-49 | an accepted click (no winner yet, empty cell) keeps the invariant: counts stay balanced with the flipped flag and a new winner is the mover |
| `Game.FullBoardShowsNextPlayer` | src/App.tsx:58-60 | on a full board without a winner it is 'O's turn, and the status still reads "Next player: O"; no draw is shown |
| `Game.StatusNamesLastMover` | src/App.tsx:58-59 | once the game is won, the status names the player who made the last move |
| `Game.Board.constructor` | src/App.tsx:39-40 | a new board is nine empty cells with 'X' to move, and satisfies the invariant |
| `Game.Board.HandleClick` | src/App.tsx:43-49 | a click is ignored when the game is won or cell i is filled; otherwise a fresh copy with the active mark in cell i replaces the board, the turn flips and one fewer cell is empty; no filled cell changes, the old board array is untouched, and the invariant is kept |

## Left out

- React rendering: the `Square` component, the JSX layout of `Board` and `App`, CSS classes and the stylesheet import are presentation only.
- React's `useState` setters and re-render scheduling: the two fields are updated together, at the end of one `HandleClick` call.
- `winner` is a constant computed during each render and captured by `handleClick`; the model recomputes it from the current state at the start of `HandleClick`. Every click follows the render of the current state, so the two agree.
- Cells hold only `null`, 'X' or 'O', so JavaScript truthiness of a cell is modelled as "the cell is filled".
- Cell indices are taken as `i < 9` in `HandleClick`: every call site passes a literal 0..8 from `renderSquare`.
- `src/App.tsx` has no automated opponent, move timer, random move choice, pending-move flag or draw outcome, so the model has none of them; a full board without a winner still shows "Next player" (`Game.FullBoardShowsNextPlayer`).
