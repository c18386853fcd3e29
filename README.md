# Tic-tac-toe engine — a Dafny model

This project models the game engine of a browser tic-tac-toe page (`script.js`).
It has three parts, one Dafny module each:

- **Board** (`board.dfy`) holds the three-valued cells (`Empty`, `X`, `O`; the
  strings `''`, `'X'`, `'O'` in the page). It has the table of the eight winning
  lines, `CheckWin` (a scan over that table that stops early) and `CheckTie`
  (the `every` test that the board is full).
- **Search** (`search.dfy`) holds the exhaustive minimax search. `MinimaxValue`
  and `ScanChildren` are the specification of `minimax`. `Minimax` is the
  method: it writes markers into an `array<Cell>` and undoes them, as the
  source does. `ScanMoves`/`BestCell` are the specification of `bestMove`'s
  root loop, which keeps the first cell with a strictly higher score.
  The search always maximises for X and minimises for O.
- **Session** (`session.dfy`) holds the page's four session variables. They
  are a `GameState` value and a class `Game` with fields `gameBoard` (an
  `array<Cell>`), `currentPlayer`, `gameActive` and `againstAI`. The class
  methods are the click handler, the computer's reply, the reset and the two
  mode buttons. Each method is proved equal to a pure transition function
  (`Click`, `Reply`, `Reset`, `ChooseMode`), and the lemmas are stated about
  those functions.

Two behaviours of the code are kept as written:

- The computer moves to the cell `bestMove` picks for X, but writes `O` there.
  `ReplyMissesOwnWin` exhibits a position where this makes the computer pass by
  its own immediate win.
- After a tie, the reply's branch still passes the turn (`ReplyTieKeepsToggle`).
  `ComputerClick` shows that this branch is never taken from a consistent
  session. After each human move the board holds an odd number of markers, so
  the computer's mark can never fill the ninth cell.

Two consequences of the code that the model makes explicit:

- On `O O _ / X X _ / _ _ _` with X to move, the search does not block at
  cell 2. It completes the middle row at cell 5, which scores 10
  (`BestCellPrefersWinToBlock`).
- The search always maximises for X, even when the computer plays O. The
  model keeps this.

## Model

| member | source | states |
|---|---|---|
| `Board.Toggle` | script.js:113 | the result is a marker, and it is the other one whenever the input is a marker |
| `Board.AnyComplete` | script.js:22-29 | the early-exit scan over a list of lines is true iff some line of the list has all three cells equal to the player |
| `Board.CheckWin` | script.js:15-30 | true iff one of the eight listed patterns has all three cells equal to the player |
| `Board.CheckTie` | script.js:32-34 | true iff no cell is empty, which is the same as an empty-cell count of zero; no winner is consulted |
| `Board.CheckWinIsLine` | script.js:16-20 | the eight patterns are exactly the three rows, three columns and two diagonals of the row-major 3x3 grid |
| `Board.WinSurvivesOffLineChanges` | script.js:22-27 | changing only cells that lie on no line complete for `p` cannot make `checkWin(board, p)` false |
| `Board.WinMonotone` | script.js:22-27 | a win for `p` survives every change that keeps all of `p`'s cells |
| `Board.PlaceGivesNoOtherWin` | script.js:24 | putting a marker on an empty cell creates no line for any other value |
| `Board.EveryPatternWins` | script.js:16-25 | the board with `m` on the three cells of any pattern and empty elsewhere is a win for `m`, and every ordering of the triple is complete on it |
| `Board.FullBoardWithoutWinner` | script.js:15-34 | a full board with no line: the tie test holds and the win test fails for both markers |
| `Board.FullBoardWithWinner` | script.js:32-34 | the tie test is independent of a winner: a full board can hold a line for X |
| `Board.NoWinFromPatterns` | script.js:22-29 | if each of the eight patterns misses, the win test is false |
| `Board.CountTotal` | script.js:10 | every cell is empty, X or O: the three counts add up to the board length |
| `Search.ScanChildrenFacts` | script.js:51-73 | the child loop ends at its accumulator or at one child score, and that score is at least (maximiser) or at most (minimiser) every child score |
| `Search.MinimaxValueBounds` | script.js:36-73 | when depth plus empty cells is at most 10 (every call the game makes), the score lies in `[-10 + depth, 10 - depth]`, so it is never an infinity |
| `Search.MinimaxValueIsExtremum` | script.js:51-73 | a board with no line that is not full has an empty cell; its score is the maximum (or minimum) child score over the empty cells, and some empty cell attains it |
| `Search.TopScoreIffXWon` | script.js:43-44 | the score `10 - depth` is reached iff X already has a line, because deeper X wins score less and terminal priority puts X first |
| `Search.SwapWin` | script.js:15-30 | exchanging the markers on the board exchanges who has a line |
| `Search.MinimaxSymmetric` | script.js:36-73 | exchanging X and O and the side to move negates the score, on boards where not both markers have a line |
| `Search.ScanSymmetric` | script.js:51-73 | the child loop of the swapped board with negated accumulator returns the negated result |
| `Search.MinimaxValue` | script.js:36-73 | the score `minimax` computes: `10 - depth` on an X line, else `-10 + depth` on an O line, else 0 on a full board, else the child scan from the infinity stand-in; its properties are the lemmas below |
| `Search.Child` | script.js:54-57 | the score of the board with the mover's marker on empty cell `j`, searched one level deeper with the other side to move |
| `Search.ScanChildren` | script.js:53-60 | the child loop from cell `i` on: every empty cell's child score is folded into the running best with `Math.max` (maximiser) or `Math.min` (minimiser) |
| `Search.Minimax` | script.js:36-74 | the in-place search returns `MinimaxValue` of its input and leaves the array exactly as it found it |
| `Search.ScanMoves` | script.js:79-89 | the root loop returns the move it was given or an empty cell at or after the current index |
| `Search.RootScore` | script.js:81-83 | the score `bestMove` gives cell `j`: X placed there, then `minimax` at depth 0 with O to move |
| `Search.BestCell` | script.js:76-91 | a move that `bestMove` returns is an empty cell of the board |
| `Search.RootScoreBounds` | script.js:82 | each root score lies in [-10, 10], so the strict comparison with the initial accumulator always takes the first empty cell |
| `Search.MovesSoFarTake` | script.js:84-87 | a strictly higher score makes the current cell the first best one so far |
| `Search.MovesSoFarKeep` | script.js:84-87 | a score that is not strictly higher keeps the earlier move |
| `Search.ScanMovesFirstBest` | script.js:79-89 | the root loop ends with the first empty cell of maximal score, or with none on a full board |
| `Search.BestCellIsFirstBest` | script.js:76-91 | `bestMove` gives no move iff the board is full; otherwise an empty cell whose score is maximal, and the lowest such |
| `Search.BestCellTakesImmediateWin` | script.js:76-91 | if X can complete a line in one move, `bestMove` returns the lowest cell that does |
| `Search.BestCellCompletesRow` | script.js:76-91 | on `X X _ / O O _ / _ _ _` the move is 2 |
| `Search.BestCellPrefersWinToBlock` | script.js:76-91 | on `O O _ / X X _ / _ _ _` the move is 5 (the win), not 2 (the block) |
| `Session.EmptyBoard` | script.js:151 | nine cells, all empty |
| `Session.EmptyBoardFacts` | script.js:151 | the empty board has no markers, no line and is not full |
| `Session.StartsConsistent` | script.js:149-152 | the initial state, each reset and each mode choice are consistent, and a reset starts an active game with X to move in the same mode |
| `Session.Initial` | script.js:9-12 | the state before a mode is chosen: empty board, X, game off, two-player mode; it is consistent |
| `Session.Reset` | script.js:149-152 | a fresh empty board, X to move, game on, mode kept; the result is consistent |
| `Session.ChooseMode` | script.js:164-172 | sets the mode, then resets: a consistent active game in the chosen mode |
| `Session.Consistent` | script.js:93-136 | the invariant of reachable sessions: X first and alternating counts, an active game has no line and is not full, X to move against the computer; a consistent active game has an empty cell |
| `Session.Click` | script.js:93-136 | the state after `handleCellClick`: a marker already placed never changes, the mode is kept, a finished game stays finished, and any change means a valid click that wrote the mover's marker |
| `Session.Reply` | script.js:117-134 | the state after the computer's reply: placed markers and the mode are kept and a finished game stays finished |
| `Session.ClickIgnored` | script.js:94 | a click on an inactive game, off the board or on a taken cell changes nothing |
| `Session.HumanClick` | script.js:93-114 | in two-player mode a valid click changes only the clicked cell, to the mover's marker; the game ends iff the mover wins or the board is full, with the mover still current, and otherwise the turn passes |
| `Session.ReplyFacts` | script.js:117-134 | from a consistent position with O to move, the reply writes O on `bestMove`'s cell, never fills the board, creates no X line, evens the counts, and ends the game iff O has a line |
| `Session.ComputerClick` | script.js:113-134 | against the computer a valid click writes X on the clicked cell; the computer replies iff that move neither wins nor fills the board, and then writes O on the cell `bestMove` picks for X; the reply never fills the board; while the game is on, X is to move |
| `Session.ClickKeepsConsistent` | script.js:93-136 | every click keeps the turns alternating, starting with X; an active game has no line and an empty cell |
| `Session.ClickEndsOnlyWhenDecided` | script.js:99-133 | from a consistent active game, the game stops iff the board shows a line or is full; a line on the board belongs to the current player alone |
| `Session.ReplyTieKeepsToggle` | script.js:127-133 | if the reply ends the game without a win, the board is full and the turn has still passed; after a win it has not |
| `Session.ReplyMissesOwnWin` | script.js:116-119 | a position where O could complete the top row, yet the reply writes O on cell 5 and the game goes on without a line for O |
| `Session.Game.constructor` | script.js:9-12 | an empty board, X to move, game off, two-player mode |
| `Session.Game.BestMove` | script.js:76-91 | returns `BestCell` of the board and leaves `gameBoard` unchanged |
| `Session.Game.ComputerReply` | script.js:117-134 | the new session state is `Reply` of the old one |
| `Session.Game.HandleCellClick` | script.js:93-136 | the new session state is `Click` of the old one; the array object is kept |
| `Session.Game.ResetGame` | script.js:149-157 | a fresh all-empty board, X to move, game on, mode unchanged |
| `Session.Game.PlayAgain` | script.js:159-162 | the same state change as a reset; the mode is kept |
| `Session.Game.ChoosePlayerMode` | script.js:164-167 | two-player mode and a reset |
| `Session.Game.ChooseComputerMode` | script.js:169-172 | computer mode and a reset |

## Left out

- Rendering and the page: `renderBoard`, element lookups, listeners, the status texts and the visibility of the reset button and mode options. They change no game state.
- The 500 ms `setTimeout` before the computer's reply: the reply runs at once. With the real timer, a click during the delay would find the game active with O to move and would place an O. The model does not cover that window.
- `-Infinity` and `Infinity` are modelled as -1000 and 1000. `MinimaxValueBounds` shows every score the game computes lies in [-10, 10], so the stand-ins behave the same.
- `bestMove` on a full board leaves `move` undefined, and the reply then writes to `gameBoard[undefined]`. That is a property that no cell test reads. The model returns `None` and writes nothing. `ReplyFacts` shows this case is never reached from the click handler.
- The empty-board answer (index 0) is not proved. It needs the value of the whole game tree from the empty board, which the verifier cannot evaluate in reasonable time.
- The click handler's `index` is an integer. Values that are not integers (which the page never passes) are not modelled.
- The running time of the exhaustive search is not modelled. Termination is proved through the decreasing count of empty cells.
- MinimaxValueIsExtremum: states the max/min characterisation only when depth plus empty cells is at most 10. For much deeper start depths, a score below -1000 would lose to the integer stand-in where `-Infinity` would not. The game never makes such a call.
