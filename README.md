# Tic-tac-toe search engine in Dafny

A model of the game engine of a 3x3 tic-tac-toe AI (`tic-tac-toe.cpp`, lines
16-216). It covers these parts of the C++ code:

- the `GameState` value: a 3x3 board of `char` cells and the side to move;
- the game-over test, `game_over`;
- the signed outcome, `evaluate`;
- the move generator, `get_possible_moves`;
- the transitions, `make_move` and `undo_move`;
- alpha-beta `minimax`;
- the top-level selector, `find_best_move`.

The project has five modules, one file each:

- `board.dfy` (`Board`): constants, `Move`, `GameState`, the constructor and
  `operator==`.
- `rules.dfy` (`Rules`): the eight lines, the game-over predicate and the
  outcome, with the loop methods `GameOver` and `Evaluate`.
- `moves.dfy` (`Moves`): the move generator, and `make_move` / `undo_move`
  with their round trips.
- `search.dfy` (`Search`): plain minimax (`Value`), the alpha-beta search
  (`Minimax`) and the selector (`FindBestMove`).
- `scenarios.dfy` (`Scenarios`): two concrete positions.

How the model is built:

- **States are values.** The C++ struct is copied on every transition, so
  `GameState` is a Dafny datatype, and `MakeMove` / `UndoMove` return a new
  state.
- **Loops are methods.** Every C++ function that works by loops is a method
  with the same loops and early returns. Each one is proved against a pure
  reference function:
  - `GameOver` against `Terminal`;
  - `Evaluate` against `Score`;
  - `GetPossibleMoves` against `PossibleMoves`;
  - `Minimax` against `Value`, the unpruned depth-bounded minimax over the
    generated moves;
  - `FindBestMove` against `IsBestMove`.
- **`minimax` is proved fail-soft.** For every window with alpha < beta:
  - below the window, the result is an upper bound of the true value;
  - inside the window, it is exactly the true value;
  - above the window, it is a lower bound.

  With the full window `INT_MIN`, `INT_MAX`, used by `find_best_move`, the
  result therefore equals plain minimax, so the cutoffs never change a
  move's score.
- **Termination.** A move by X or O fills an EMPTY cell, so the number of
  EMPTY cells drops. When the side to move is EMPTY, `make_move` writes
  EMPTY over EMPTY and the board is unchanged, but the side to move becomes
  X; the termination measure counts that case with an extra 1. So the
  search terminates for every depth, including a negative depth, which
  searches to the end of the game.
- **Split of `minimax`.** The one C++ function is split into `Minimax` (the
  base case), `MaxNode` and `MinNode` (its two loops), and `SearchChild`
  (`make_move` followed by the recursive call).

Behaviour of the code worth noting:

- **Alpha and beta are passed by value** (tic-tac-toe.cpp:180, :192).
  Updates made inside a child's search do not reach the parent.
- **Any mark other than X counts as -1** (tic-tac-toe.cpp:89-93, :100-121).
  A complete line scores -1 whenever its mark is not `'X'`, not only when it
  is `'O'`.
- **The maximizing flag is independent of the side to move**
  (tic-tac-toe.cpp:209). `find_best_move` scores every move with
  `maximize == false`, that is, from X's point of view, whoever is to move.
- **Only a negative depth searches to the end** (tic-tac-toe.cpp:172). Depth
  0 returns `evaluate` at once. A negative depth, such as the -1 that
  `find_best_move(s, 0)` passes down, never counts down to 0, and the search
  still ends because the termination measure drops with every move.

No I/O, clock or randomness is involved.

## Model

| member | source | states |
|---|---|---|
| `Board.NewGameState` | tic-tac-toe.cpp:26-33 | the constructor leaves every cell EMPTY and X to move |
| `Board.Equals` | tic-tac-toe.cpp:35-44 | `==` is true exactly when the two boards agree cell by cell; the side to move plays no part |
| `Board.Other` | tic-tac-toe.cpp:149-153 | the side to move after `make_move` (and, by the same code at lines 162-166, after `undo_move`) is always X or O, and never the side that moved |
| `Board.OtherInvolution` | tic-tac-toe.cpp:145-168 | flipping the side to move twice restores X or O |
| `Rules.FirstComplete` | tic-tac-toe.cpp:87-122 | the first complete line, in the scan order rows, columns, main diagonal, anti-diagonal, with all lines before it incomplete |
| `Rules.Score` | tic-tac-toe.cpp:85-126 | the outcome of a board is always -1, 0 or +1 |
| `Rules.ScoreNonzeroIffLine` | tic-tac-toe.cpp:85-126 | the outcome is nonzero exactly when some row, column or diagonal holds three equal non-EMPTY marks |
| `Rules.ScoreIsFirstLineOwner` | tic-tac-toe.cpp:87-122 | the outcome is +1 when the first complete line in scan order holds X and -1 when it holds any other mark |
| `Rules.ScoreNonzeroIsTerminal` | tic-tac-toe.cpp:48-69 | a nonzero outcome implies the game is over |
| `Rules.GameOver` | tic-tac-toe.cpp:48-82 | the loops return true exactly when some line is complete or no cell is EMPTY |
| `Rules.Evaluate` | tic-tac-toe.cpp:85-126 | the loops with early returns compute the outcome of the board: the owner of the first complete line, or 0 |
| `Moves.RowCellsSound` | tic-tac-toe.cpp:133-138 | the inner loop's list holds only EMPTY cells of its row, in increasing column order |
| `Moves.RowCellsComplete` | tic-tac-toe.cpp:133-138 | every EMPTY cell of the row is in the inner loop's list |
| `Moves.BoardCellsSound` | tic-tac-toe.cpp:131-139 | the pushed cells are EMPTY cells of the board, strictly increasing in row-major order |
| `Moves.BoardCellsComplete` | tic-tac-toe.cpp:131-139 | every EMPTY cell of the board is pushed |
| `Moves.NoCellsIffFull` | tic-tac-toe.cpp:129-142 | no cell is pushed exactly when the board is full |
| `Moves.PossibleMoves` | tic-tac-toe.cpp:129-142 | each listed move is an in-range EMPTY cell; the list is empty exactly when the board is full |
| `Moves.PossibleMovesExact` | tic-tac-toe.cpp:129-142 | every EMPTY cell is listed, and the list is strictly increasing in row-major order, so each cell appears once |
| `Moves.GetPossibleMoves` | tic-tac-toe.cpp:129-142 | the nested `push_back` loops return exactly `PossibleMoves` |
| `Moves.Place` | tic-tac-toe.cpp:147-148 | the copied board holds the new mark at the move and every other cell unchanged |
| `Moves.MakeMove` | tic-tac-toe.cpp:145-155 | the new state has the mover's mark at the move, every other cell unchanged, and the side to move flipped: X to O, anything else to X |
| `Moves.UndoMove` | tic-tac-toe.cpp:158-168 | the new state has the move's cell EMPTY, every other cell unchanged, and the side to move flipped |
| `Moves.UndoMakeRoundTrip` | tic-tac-toe.cpp:145-168 | undoing a move onto an EMPTY cell restores the board and the side to move, when that side is X or O |
| `Moves.MakeUndoRoundTrip` | tic-tac-toe.cpp:145-168 | replaying an undone move restores the state, when the cell held the mark of the side that moved before |
| `Moves.TerminalIffScoreOrNoMoves` | tic-tac-toe.cpp:48-82 | a state is game over exactly when its outcome is nonzero or it has no legal move |
| `Moves.RowCountAfterFill` | tic-tac-toe.cpp:133-138 | filling one EMPTY cell of a row drops exactly one cell from that row's list |
| `Moves.BoardCountAfterFill` | tic-tac-toe.cpp:131-139 | filling one EMPTY cell of the board drops exactly one move from the list |
| `Moves.MeasureDecreases` | tic-tac-toe.cpp:178-180 | playing any EMPTY cell strictly decreases the termination measure, so the recursion ends |
| `Search.Max` | tic-tac-toe.cpp:181-182 | `std::max` is an upper bound of both arguments and equals one of them |
| `Search.Min` | tic-tac-toe.cpp:193-194 | `std::min` is a lower bound of both arguments and equals one of them |
| `Search.Value` | tic-tac-toe.cpp:171-201 | plain depth-bounded minimax is always -1, 0 or +1 |
| `Search.DepthCutoffIsNeutral` | tic-tac-toe.cpp:172-173 | at depth 0 a state that is not game over is worth a neutral 0 |
| `Search.Fold` | tic-tac-toe.cpp:176-199 | once at least one child has been seen, the running maximum or minimum, started at the `INT_MIN` or `INT_MAX` sentinel, is an outcome and no longer a sentinel |
| `Search.ChildValue` | tic-tac-toe.cpp:179-180 | the value of the state after the k-th generated move is an outcome |
| `Search.FoldMonotone` | tic-tac-toe.cpp:181-194 | more children can only raise the running maximum and lower the running minimum |
| `Search.MaxStep` | tic-tac-toe.cpp:180-185 | one child of a maximizing node either keeps the node's exact-or-upper-bound invariant, or triggers the cutoff with a lower bound |
| `Search.MinStep` | tic-tac-toe.cpp:192-197 | one child of a minimizing node either keeps the node's exact-or-lower-bound invariant, or triggers the cutoff with an upper bound |
| `Search.CutoffIsFailSoft` | tic-tac-toe.cpp:183-187 | a node cut off at the window's far edge returns a fail-soft bound |
| `Search.ExhaustedIsFailSoft` | tic-tac-toe.cpp:186-199 | a node that searched every child returns a fail-soft value |
| `Search.Minimax` | tic-tac-toe.cpp:171-201 | the search terminates for every depth, returns -1, 0 or +1 (never a sentinel), for every window alpha < beta is fail-soft with respect to plain minimax, and with the full window `INT_MIN`, `INT_MAX` equals plain minimax |
| `Search.MaxNode` | tic-tac-toe.cpp:176-187 | the maximizing loop, raising alpha and breaking at `beta <= alpha`, returns a fail-soft approximation of the maximum over all children |
| `Search.MinNode` | tic-tac-toe.cpp:188-199 | the minimizing loop, lowering beta and breaking at `beta <= alpha`, returns a fail-soft approximation of the minimum over all children |
| `Search.SearchChild` | tic-tac-toe.cpp:179-180 | playing the k-th move and searching one ply down with the flag flipped is fail-soft with respect to that child's plain minimax value |
| `Search.FullWindowIsExact` | tic-tac-toe.cpp:209 | with the full window `INT_MIN`, `INT_MAX`, a fail-soft result equals the true value |
| `Search.BestMoveUnique` | tic-tac-toe.cpp:204-216 | at most one move satisfies the selector's specification, so its answer is determined by the state and the depth |
| `Search.BestIndexIsBestMove` | tic-tac-toe.cpp:207-214 | because moves are generated in row-major order, the first index of highest score is the row-major first move of highest score |
| `Search.FindBestMove` | tic-tac-toe.cpp:204-216 | when a move exists, returns a legal move with the highest score from X's point of view; every legal move before it in row-major order scores strictly less, because of the strict `>` |
| `Scenarios.WinInOneIsChosen` | tic-tac-toe.cpp:204-216 | with X to move, X X - in the top row and O O - in the middle row, the selector picks the winning cell (0, 2) at every depth |
| `Scenarios.DrawnBoardIsDraw` | tic-tac-toe.cpp:71-81 | a full board with no line is game over, scores 0, has no move, and is worth 0 at every depth |

## Left out

- `print_board` and `main` (tic-tac-toe.cpp:219-269): console I/O and the interactive loop. They are not part of the engine.
- Search.Minimax: `depth` is an unbounded integer. In C++, `depth - 1` overflows when `depth` is `INT_MIN`; the model does not represent that wrap-around.
- Search.FindBestMove: requires that a legal move exists. On a full board the C++ function returns a default-initialised `Move` whose fields are indeterminate; the model does not give those fields a value.
- Moves.MakeMove: requires an in-range move, because out-of-range indices are undefined behaviour in C++. An occupied cell is allowed and is overwritten, as the code does.
- Moves.UndoMove: requires an in-range move, for the same reason.
- Moves.PossibleMoves: its contract states soundness and emptiness only. Completeness and row-major order are stated separately in `Moves.PossibleMovesExact`, which keeps the search proofs small.
- Alpha-beta is not modelled as an optimisation. Nothing states how many nodes the cutoff saves.
- A deep scenario is not proved: neither the empty board searched at full depth nor blocking an opponent's line. Each needs an exhaustive evaluation of the game tree inside the verifier. The immediate-win and drawn-board positions are proved instead.
- Rotations and reflections of the board are not modelled. The source has no notion of symmetry.
