# Tic-tac-toe rules engine

A Dafny model of the rules behind the single React component of a tic-tac-toe
app. Two players, x and o, take turns on an n-by-n board stored row-major as a
flat list of n·n cells; x always moves first. After every move the app checks
only the lines through the cell just played: its row, its column, and each
diagonal if the cell lies on it. A player holding a whole line wins. A full
board with no line is a tie. A game in progress can also be ended by hand.

The model has five modules:

- `Markers`: the cell contents (`X`, `O`, `Empty`) and the turn order.
- `Arith`: the division facts the row-major layout relies on. These are helper
  lemmas with no source counterpart.
- `Lines`: `getRow`, `getCol` and `getDiags`.
  - Each is kept as the imperative `while` loops of the original.
  - Each is proved to build an exact sequence. `Row` gives that sequence in
    closed form; `Col`, `Ltr` and `Rtl` are built from the recursive functions
    `Down` and `Up`, which push exactly what the loops push.
  - Each sequence is also proved to cover exactly the cells of one geometric
    line, each cell once.
- `Outcomes`: `CheckOutcome`, the pure evaluator, with its checks in the
  original's order. Lemmas relate it to an independent definition of a line
  (`HasLine`, written as sets of cells by row and column arithmetic):
  - a reported win is a line of the mover;
  - if the mover had no line before the move, every line it has after the move
    is reported.
- `TicTacToe`: the state machine. It is a class `Game` with the component's
  four pieces of state (`n`, `board`, `currentPlayer`, `status`) and the three
  handlers as methods. Every handler preserves the invariant `Valid`:
  - once a game has started, n ≥ 1 and the board is n·n cells; before that, n
    is 0 and the board is the default 9 empty cells;
  - while a game is in progress, the move counts alternate, no player holds a
    line and the board is not full;
  - in a won game exactly one player holds a line, the winner;
  - a tie is a full board without a line.
- `Scenarios`: two complete 3-by-3 games, checked move by move. One is a
  column win by x; the other ends in a tie.

The status field of the original overloads the empty marker to mean "no game
yet" and stores the winner's marker directly. The model uses the tagged value
`NotStarted | Pending | Won(winner) | Tie | Ended` instead.

## Model

| member | source | states |
|---|---|---|
| Markers.Next | src/App.tsx:159 | the player after p is a player, and a different one |
| Markers.NextAlternates | src/App.tsx:159 | two turns bring a player back; the two players are x and o |
| Lines.GetRow | src/App.tsx:30-47 | the loops build exactly `Row(idx, n)`: idx first, then the cells to its left walking back to the row start, then the cells to its right up to the row end |
| Lines.RowCells | src/App.tsx:30-47 | for a cell of the board, getRow's list has n entries, starts with idx and has no repeats; it holds exactly the cells x with x / n == idx / n |
| Lines.GetCol | src/App.tsx:49-68 | the loops build exactly `Col(idx, n)`: idx, then upwards in steps of n while non-negative, then downwards while below n·n |
| Lines.ColCells | src/App.tsx:49-68 | for a cell of the board, getCol's list has n entries, starts with idx and has no repeats; it holds exactly the cells x with x % n == idx % n |
| Lines.GetDiags | src/App.tsx:70-90 | for n ≥ 2 the two loops build exactly `Ltr(n)` and `Rtl(n)` |
| Lines.LtrClosed | src/App.tsx:72-78 | the left-to-right diagonal is 0, n+1, 2(n+1), …, listing the cell of row k and column k in position k |
| Lines.LtrCells | src/App.tsx:72-78 | ltr has n distinct entries from 0 to n·n−1; a cell is on it iff its row equals its column, iff it is a multiple of n+1 |
| Lines.RtlClosed | src/App.tsx:81-87 | the right-to-left diagonal is n−1, 2(n−1), …, listing the cell of row k and column n−1−k in position k |
| Lines.RtlCells | src/App.tsx:81-87 | rtl has n distinct entries from n−1 to n·n−n; a cell is on it iff its row and column add up to n−1 |
| Lines.RowsOfThree | src/App.tsx:30-47 | the nine rows getRow builds on a 3-by-3 board, e.g. [4, 3, 5] for cell 4 |
| Lines.ColsOfThree | src/App.tsx:49-68 | the nine columns getCol builds on a 3-by-3 board, e.g. [4, 1, 7] for cell 4 |
| Lines.DiagsOfThree | src/App.tsx:70-90 | on a 3-by-3 board ltr is [0, 4, 8] and rtl is [2, 4, 6] |
| Outcomes.CheckOutcome | src/App.tsx:99-128 | the checks run in the original's order: row, column, ltr if the move is on it, rtl if the move is on it, then the full board. A win always names the mover, a tie means the board is full, and no outcome means a cell is still empty. On a 1-by-1 board every move wins. The meaning of a win is given by WinIsLine, LineIsWin and OutcomeOfMove |
| Outcomes.RowCheck | src/App.tsx:103-106 | the row check succeeds iff the mover fills the geometric row of the move |
| Outcomes.ColCheck | src/App.tsx:109-112 | the column check succeeds iff the mover fills the geometric column of the move |
| Outcomes.LtrCheck | src/App.tsx:115-118 | the move is in ltr iff it is on the main diagonal, and the check tests exactly that diagonal |
| Outcomes.RtlCheck | src/App.tsx:120-122 | the move is in rtl iff it is on the anti-diagonal, and the check tests exactly that diagonal |
| Outcomes.RowWin | src/App.tsx:103-106 | a row through the move filled by the mover makes checkOutcome report the mover's win |
| Outcomes.ColWin | src/App.tsx:109-112 | a column through the move filled by the mover makes checkOutcome report the mover's win |
| Outcomes.LtrWin | src/App.tsx:115-118 | a filled main diagonal through the move makes checkOutcome report the mover's win |
| Outcomes.RtlWin | src/App.tsx:120-122 | a filled anti-diagonal through the move makes checkOutcome report the mover's win, on every board size |
| Outcomes.WinIsLine | src/App.tsx:99-128 | a win reported by checkOutcome names the mover, who then holds a row, column or diagonal |
| Outcomes.LineIsWin | src/App.tsx:99-128 | if the mover had no line before the move and has one after it, checkOutcome reports the mover's win |
| Outcomes.OutcomeOfMove | src/App.tsx:99-128 | when the mover had no line before: a win iff the mover now has a line; a tie iff no line and the board is full; nothing iff no line and a cell is empty |
| Outcomes.NoLineForOthers | src/App.tsx:145-146 | writing the mover into a cell gives no line to any other player |
| Outcomes.OneByOneFirstMoveWins | src/App.tsx:103-106 | example of CheckOutcome's n = 1 clause: on the one-cell board the first move wins through the row check, before the diagonals are built |
| TicTacToe.InitializeBoard | src/App.tsx:16 | a board of the given size with every cell empty (NewGame calls it only for sizes below 2^32, the lengths `Array` accepts) |
| TicTacToe.CountWrite | src/App.tsx:145-146 | writing a player into an empty cell adds one to that player's count and leaves the other's alone |
| TicTacToe.CountEmpty | src/App.tsx:16 | an empty board holds no marker of either player |
| TicTacToe.EmptyBoardHasNoLine | src/App.tsx:132 | a freshly initialised board holds no line of either player |
| TicTacToe.Game.constructor | src/App.tsx:93-97 | initial state: no dimension, a 9-cell empty board, no current player, no game; the invariant holds |
| TicTacToe.Game.NewGame | src/App.tsx:130-136 | a dimension of 0 changes nothing, and neither does one whose board would have 2^32 or more cells, where `Array` throws before any state is set; otherwise an empty n·n board, x to move, the game in progress and n recorded; the invariant is preserved |
| TicTacToe.Game.EndGame | src/App.tsx:138-141 | the game is ended and no one is to move; board and n unchanged; the invariant is preserved |
| TicTacToe.Game.Click | src/App.tsx:143-161 | the mover's marker is written at idx. A win sets the status to the mover's win and clears the player; a tie sets Tie and clears the player; otherwise the turn passes to the other player. The status is a win iff the mover now holds a line, a tie iff the board is full without one, and still in progress otherwise. The invariant is preserved |
| Scenarios.CornerOpening | src/App.tsx:99-128 | x on cell 0 of an empty 3-by-3 board ends nothing |
| Scenarios.EdgeReply | src/App.tsx:99-128 | o on cell 1 after x on 0 ends nothing |
| Scenarios.ColumnWinMove3 | src/App.tsx:99-128 | x on 3 (after x 0, o 1) ends nothing |
| Scenarios.ColumnWinMove4 | src/App.tsx:99-128 | o on 4 ends nothing |
| Scenarios.ColumnWinMove5 | src/App.tsx:99-128 | x on 6 completes the column 0, 3, 6 and wins |
| Scenarios.TieMove3 | src/App.tsx:99-128 | x on 2 (after x 0, o 1) ends nothing |
| Scenarios.TieMove4 | src/App.tsx:99-128 | o on 4 ends nothing |
| Scenarios.TieMove5 | src/App.tsx:99-128 | x on 3 ends nothing |
| Scenarios.TieMove6 | src/App.tsx:99-128 | o on 5 ends nothing |
| Scenarios.TieMove7 | src/App.tsx:99-128 | x on 7 ends nothing |
| Scenarios.TieMove8 | src/App.tsx:99-128 | o on 6 ends nothing, since the anti-diagonal holds an x on 2 |
| Scenarios.TieMove9 | src/App.tsx:99-128 | x on 8 fills the board with no line: a tie |

## Left out

- Rendering is not modelled: the JSX, the `Outcome` component, the form, and which buttons are shown.
- handleNChange is not modelled: its `parseInt` and NaN handling are left out. The chosen dimension arrives as a natural number `formN`, and 0 stands for the falsy values (undefined, NaN, 0). Negative dimensions are not modelled.
- TicTacToe.Game.NewGame: when formN·formN is 2^32 or more, `Array(formN * formN)` throws a RangeError in the original. The model keeps only the effect on the state, which is unchanged. It does not model the exception or its report.
- React's `useState` scheduling is not modelled. Each handler is one atomic state change. checkOutcome reads the board it is passed and the mover, that is the current player before the turn passes, as it does in the original.
- Outcomes.CheckOutcome: the `if (!n) return` guard is not modelled. CheckOutcome requires n ≥ 1, because a move can only be played after a game has started, and then n ≥ 1.
- TicTacToe.Game.Click: the original does not guard its handler. A click on an occupied cell, or after the game is over, overwrites the cell. The model makes that a precondition: the game must be in progress and the cell empty.
- TicTacToe.Game.EndGame: the model requires a game in progress, as the button is only shown then. The original's handler itself has no guard.
- Lines.GetDiags: requires n ≥ 2. At n = 1 the right-to-left loop adds a step of 0 and never ends. checkOutcome never reaches it at n = 1, because the row check already wins (Outcomes.OneByOneFirstMoveWins).
- Lines.GetRow: requires n ≥ 1. With n = 0 the original's `i % n` is NaN, never 0, and the loop would not end.
- The scenarios are stated on CheckOutcome. The status after each click follows from TicTacToe.Game.Click's contract. Replaying the games through `Game` objects is left out because of the verifier's cost.
