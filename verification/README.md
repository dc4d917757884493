# Tic-tac-toe: board, rules and minimax search

A Dafny model of the logic of a console tic-tac-toe game in which X (a
person) plays against O (the computer). The computer picks its move by an
exhaustive minimax search with no pruning.

The model follows the program's own representation. The board is a 3x3
`array2<char>`. A cell holds `'x'`, `'o'`, or, while free, its digit label
`'1'`..`'9'`. A cell is free when it holds neither mark (`Board.IsFree`).
The search writes a mark into a free cell, recurses, and then writes the
saved character back, so the label survives the search. A board can also be
read as a value, `Board.Grid`: the nine cells in row-major order, where the
cell in row `i`, column `j` sits at index `3*i + j`, one less than its move
number. `Board.Snapshot` gives that value for an array.

- `board.dfy` (module `Board`) models the board and the rules.
  - `MakeMove` is a method that writes into the array.
  - `checkForWin` and `checkForDraw` only read the board. They are functions
    on `Grid`. Their recursion follows the loops, including the early exit.
  - Each function is tied to a reference definition:
    - `HasThreeInARow`: some row, some column, or one of the two diagonals.
    - "no cell is free".
    - `FreeCount`: the number of free cells, which is also the search's
      termination measure.
- `search_spec.dfy` (module `SearchSpec`) holds two functions that give the
  search's results, and the lemmas about them.
  - `MinimaxScore` is the value `minimax` returns.
  - `ChosenMove` is the move `availableMoves` returns.
  - Both fold over the cells in row-major order, as the nested loops do. The
    folds start from the same 32-bit `INT_MIN` / `INT_MAX` seeds and replace
    the running best only on a strictly better score.
- `search.dfy` (module `Search`) holds `Minimax` and `AvailableMoves` as
  methods on the shared array.
  - Each is proved to return its specification function's value for the
    board it was given.
  - Each is proved to leave every cell as it found it.
- `game.dfy` (module `Game`) models the bookkeeping after an accepted move.
  A win by the mover is checked first, then a full board. Otherwise the
  turn passes to the other mark.

`minimax` has one branch for a maximising node and one for a minimising
node. The two branches differ only in the mark they place (`'o'` or `'x'`),
their seed (`INT_MIN` or `INT_MAX`) and the direction of the comparison.
`Search.Minimax` writes them as a single nested loop that picks these three
things by `isMaximizing`. The order of the cells, the comparisons and the
results are the same as in the program.

A three-state cell (empty, X, O) would not describe the program. The
program keeps the digit label in a free cell and treats any character other
than `'x'` and `'o'` as free. The model does the same.

## Model

| member | source | states |
|---|---|---|
| `Board.MoveCell` | main.c:26-27 | A move number 1..9 names the cell at row `(move-1)/3`, column `(move-1)%3`. Both lie in 0..2, and `3*row + col + 1` gives the move back. |
| `Board.MoveNumberNamesCell` | main.c:76 | The move number `i*3 + (j+1)` that the search reports names cell `(i, j)` again under `makeMove`'s decoding. |
| `Board.MakeMove` | main.c:25-35 | Reports success exactly when the target cell was free. On success only that cell changes, and it becomes `player`. On failure the board is unchanged. |
| `Board.OccupiedFrom` | main.c:38-45 | The scan from cell `k` succeeds exactly when no cell from `k` on is free. |
| `Board.CheckForDrawIffFull` | main.c:37-46 | `checkForDraw` holds exactly when no cell in any row or column is free. It does not look at wins. |
| `Board.DrawIffNoFreeCell` | main.c:37-46 | A board is full exactly when its count of free cells is zero. |
| `Board.OrthogonalFrom` | main.c:50-55 | The row/column loop from index `i` finds a line exactly when row `n` or column `n` is all `player`, for some `n >= i`. |
| `Board.CheckForWinIffThreeInARow` | main.c:48-62 | `checkForWin(board, p)` holds exactly when `p` fills some row, some column or one of the two diagonals. |
| `Board.InitialGridOpens` | main.c:132-136 | The opening board labels each cell with its move number, so every cell is free: nine free cells, no line for either mark, not full. |
| `Board.FreeCount` | main.c:69 | The number of free cells is at most the number of cells. |
| `Board.FreeCountPlace` | main.c:93-96 | Placing a mark on a free cell leaves exactly one free cell fewer, so each recursive call of the search sees fewer free cells. |
| `Board.FreeCountZero` | main.c:40 | The count of free cells is zero exactly when no cell is free. |
| `SearchSpec.SomeFreeCell` | main.c:87-93 | On a board that `checkForDraw` does not call full, some cell is free. |
| `SearchSpec.BestFromIsBest` | main.c:89-121 | The scan returns its seed or the score of some free cell. No free cell beats the result: none is higher at a maximising node, none lower at a minimising node. |
| `SearchSpec.ScoreRange` | main.c:84-121 | For depths where `10 + abs(depth) + free cells` stays below `INT_MAX`, the minimax value lies within that bound of zero. |
| `SearchSpec.NonTerminalScore` | main.c:89-121 | On a board that is not terminal, the value is the score of some free cell's child at `depth + 1` with the turn flipped. It is the maximum of the children when maximising and the minimum when minimising. The `INT_MIN` / `INT_MAX` seed is never returned. |
| `SearchSpec.TerminalScore` | main.c:85-87 | An O line scores `10 - depth`, even when X also has a line. Otherwise an X line scores `depth - 10`. A full board with no line scores 0. |
| `SearchSpec.RootScoreRange` | main.c:72 | Every score `availableMoves` computes for a cell lies in -22..22, far above `INT_MIN`. |
| `SearchSpec.ChooseFromKeepsChoice` | main.c:67-80 | The loop of `availableMoves` keeps its invariant. Either no move has been chosen and no free cell has been seen yet. Or the chosen cell is free, has the best score so far, and is strictly better than every free cell before it. |
| `SearchSpec.ChosenMoveIsBest` | main.c:64-82 | The result is -1 exactly when no cell is free. Otherwise it is the move number 1..9 of a free cell whose score is the greatest, and it is the first such cell in row-major order. |
| `Search.Minimax` | main.c:84-122 | Returns `MinimaxScore` of the board it was given and leaves every cell as it found it, digit labels included. |
| `Search.AvailableMoves` | main.c:64-82 | Returns `ChosenMove` of the board it was given and leaves every cell as it found it. |
| `Game.AfterMove` | main.c:162-171 | After a move by `current`, the game is won exactly when `current` owns a line. It is drawn exactly when `current` has no line and no cell is free. Otherwise the other mark moves next. |

## Left out

- `printGrid` and every `printf`: console output only.
- Reading a character with `scanf`, turning it into a move number with
  `move - '0'`, and the range check before `makeMove`. These are console
  input. `Board.MakeMove` requires a move number in 1..9, which is what that
  check guarantees.
- The rest of the interactive loop in `main`: prompting, re-prompting after
  a rejected move, and the end-of-game messages. Only the outcome after an
  accepted move is modelled (`Game.AfterMove`).
- Search.Minimax: does not model 32-bit overflow of `depth + 1`, `10 - depth`
  or `depth - 10`. Scores and depths are unbounded integers. The program
  only ever passes depths 3 through 11: `availableMoves` starts the search
  at depth 3, and at most eight more marks can follow.
- SearchSpec.ScoreRange: is stated only for depths where
  `10 + abs(depth) + free cells` stays below `INT_MAX`. That covers every
  call the program makes: at depths 3 through 11 the sum is at most 31, and
  `SearchSpec.RootScoreRange` applies it to the search `availableMoves`
  starts. Larger depths are never reached, so the lemma says nothing about
  them.
- SearchSpec.NonTerminalScore: carries the same bound, for the same reason;
  the proof that the `INT_MIN` / `INT_MAX` seed is always replaced rests on
  `SearchSpec.ScoreRange`.
- That O never loses when it plays by `availableMoves` is not proved. The
  program does not state it, and proving it means exhausting the game tree
  in the verifier.
- That X and O never both own a line on a board reached by legal play is not
  proved. It depends on the whole game history, and the core never relies on
  it.
