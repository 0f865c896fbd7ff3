/** The move generator and the transition function. */
module Moves {
  import opened Board
  import opened Rules

  /** The EMPTY cells of `row`, the first columns of row `i`, left to right:
      what the source's inner column loop pushes. */
  function RowCells(row: seq<char>, i: int): seq<Move>
    decreases |row|
  {
    if row == [] then []
    else RowCells(row[..|row| - 1], i) + (if row[|row| - 1] == EMPTY then [Move(i, |row| - 1)] else [])
  }

  /** The EMPTY cells of `rows`, the first rows of a board, in the order the
      source's nested row/column loops push them. */
  function BoardCells(rows: seq<seq<char>>): seq<Move>
    decreases |rows|
  {
    if rows == [] then []
    else BoardCells(rows[..|rows| - 1]) + RowCells(rows[|rows| - 1], |rows| - 1)
  }

  /** Every entry of `RowCells(row, i)` is an EMPTY cell of `row`, in row `i`,
      and the columns strictly increase. */
  lemma {:induction false} RowCellsSound(row: seq<char>, i: int)
    ensures forall t | 0 <= t < |RowCells(row, i)| ::
      RowCells(row, i)[t].row == i && 0 <= RowCells(row, i)[t].col < |row| && row[RowCells(row, i)[t].col] == EMPTY
    ensures forall t, u | 0 <= t < u < |RowCells(row, i)| :: RowCells(row, i)[t].col < RowCells(row, i)[u].col
    decreases |row|
  {
    if row != [] {
      RowCellsSound(row[..|row| - 1], i);
    }
  }

  /** Every EMPTY cell of `row` is in `RowCells(row, i)`. */
  lemma {:induction false} RowCellsComplete(row: seq<char>, i: int)
    ensures forall c | 0 <= c < |row| && row[c] == EMPTY :: Move(i, c) in RowCells(row, i)
    decreases |row|
  {
    if row != [] {
      RowCellsComplete(row[..|row| - 1], i);
    }
  }

  /** Every entry of `BoardCells(rows)` is an EMPTY cell of `rows`, and the
      entries strictly increase in row-major order. */
  lemma {:induction false} BoardCellsSound(rows: seq<seq<char>>)
    ensures forall t | 0 <= t < |BoardCells(rows)| ::
      0 <= BoardCells(rows)[t].row < |rows| && 0 <= BoardCells(rows)[t].col < |rows[BoardCells(rows)[t].row]|
      && rows[BoardCells(rows)[t].row][BoardCells(rows)[t].col] == EMPTY
    ensures forall t, u | 0 <= t < u < |BoardCells(rows)| :: RowMajorBefore(BoardCells(rows)[t], BoardCells(rows)[u])
    decreases |rows|
  {
    if rows != [] {
      BoardCellsSound(rows[..|rows| - 1]);
      RowCellsSound(rows[|rows| - 1], |rows| - 1);
    }
  }

  /** Every EMPTY cell of `rows` is in `BoardCells(rows)`. */
  lemma {:induction false} BoardCellsComplete(rows: seq<seq<char>>)
    ensures forall r, c | 0 <= r < |rows| && 0 <= c < |rows[r]| && rows[r][c] == EMPTY :: Move(r, c) in BoardCells(rows)
    decreases |rows|
  {
    if rows != [] {
      BoardCellsComplete(rows[..|rows| - 1]);
      RowCellsComplete(rows[|rows| - 1], |rows| - 1);
    }
  }

  /** A board lists no EMPTY cell exactly when it is full. */
  lemma NoCellsIffFull(b: Grid)
    ensures BoardCells(b) == [] <==> IsFull(b)
  {
    BoardCellsSound(b);
    BoardCellsComplete(b);
    var ms := BoardCells(b);
    if ms != [] {
      assert b[ms[0].row][ms[0].col] == EMPTY;
    }
  }

  /** The legal moves of a state: EMPTY cells of the board, none exactly
      when the board is full. */
  function PossibleMoves(s: GameState): (ms: seq<Move>)
    ensures forall t | 0 <= t < |ms| :: InRange(ms[t]) && At(s.board, ms[t]) == EMPTY
    ensures ms == [] <==> IsFull(s.board)
  {
    BoardCellsSound(s.board);
    NoCellsIffFull(s.board);
    BoardCells(s.board)
  }

  /** The legal moves are exactly the EMPTY cells, each listed once, in
      row-major order. */
  lemma PossibleMovesExact(s: GameState)
    ensures forall r, c | 0 <= r < BOARD_SIZE && 0 <= c < BOARD_SIZE && s.board[r][c] == EMPTY :: Move(r, c) in PossibleMoves(s)
    ensures forall t, u | 0 <= t < u < |PossibleMoves(s)| :: RowMajorBefore(PossibleMoves(s)[t], PossibleMoves(s)[u])
  {
    BoardCellsSound(s.board);
    BoardCellsComplete(s.board);
  }

  /** `get_possible_moves`: nested loops that push every EMPTY cell. */
  method GetPossibleMoves(s: GameState) returns (moves: seq<Move>)
    ensures moves == PossibleMoves(s)
  {
    var b := s.board;
    moves := [];
    for i := 0 to BOARD_SIZE
      invariant moves == BoardCells(b[..i])
    {
      for j := 0 to BOARD_SIZE
        invariant moves == BoardCells(b[..i]) + RowCells(b[i][..j], i)
      {
        assert b[i][..j + 1][..j] == b[i][..j];
        if b[i][j] == EMPTY {
          moves := moves + [Move(i, j)];
        }
      }
      assert b[i][..BOARD_SIZE] == b[i];
      assert b[..i + 1][..i] == b[..i];
    }
    assert b[..BOARD_SIZE] == b;
  }

  /** The board with cell `m` set to `c` and every other cell kept. */
  function Place(b: Grid, m: Move, c: char): (b': Grid)
    requires InRange(m)
    ensures b'[m.row][m.col] == c
    ensures forall i, j {:trigger b'[i][j]} | 0 <= i < BOARD_SIZE && 0 <= j < BOARD_SIZE && (i != m.row || j != m.col) :: b'[i][j] == b[i][j]
  {
    b[m.row := b[m.row][m.col := c]]
  }

  /** `make_move`: a copy of the state with the mover's mark at `m` and the
      side to move flipped. The input state is a value and is not changed. */
  function MakeMove(s: GameState, m: Move): (r: GameState)
    requires InRange(m)
    ensures r.board[m.row][m.col] == s.player
    ensures forall i, j {:trigger r.board[i][j]} | 0 <= i < BOARD_SIZE && 0 <= j < BOARD_SIZE && (i != m.row || j != m.col) :: r.board[i][j] == s.board[i][j]
    ensures r.player == Other(s.player)
  {
    GameState(Place(s.board, m, s.player), Other(s.player))
  }

  /** `undo_move`: a copy of the state with cell `m` cleared and the side to
      move flipped. */
  function UndoMove(s: GameState, m: Move): (r: GameState)
    requires InRange(m)
    ensures r.board[m.row][m.col] == EMPTY
    ensures forall i, j {:trigger r.board[i][j]} | 0 <= i < BOARD_SIZE && 0 <= j < BOARD_SIZE && (i != m.row || j != m.col) :: r.board[i][j] == s.board[i][j]
    ensures r.player == Other(s.player)
  {
    GameState(Place(s.board, m, EMPTY), Other(s.player))
  }

  /** Two grids that agree on every cell are equal. */
  lemma GridExt(b: Grid, b': Grid)
    requires forall i, j | 0 <= i < BOARD_SIZE && 0 <= j < BOARD_SIZE :: b[i][j] == b'[i][j]
    ensures b == b'
  {
    forall i | 0 <= i < BOARD_SIZE
      ensures b[i] == b'[i]
    {
      assert forall j | 0 <= j < BOARD_SIZE :: b[i][j] == b'[i][j];
    }
  }

  /** Undoing a move onto an EMPTY cell restores the board and the side to move. */
  lemma UndoMakeRoundTrip(s: GameState, m: Move)
    requires InRange(m) && s.board[m.row][m.col] == EMPTY
    requires s.player == PLAYER_X || s.player == PLAYER_O
    ensures UndoMove(MakeMove(s, m), m) == s
  {
    GridExt(UndoMove(MakeMove(s, m), m).board, s.board);
  }

  /** Replaying the move that was last undone restores the state, when that
      cell held the mark of the player who moved before `s`. */
  lemma MakeUndoRoundTrip(s: GameState, m: Move)
    requires InRange(m) && s.board[m.row][m.col] == Other(s.player)
    requires s.player == PLAYER_X || s.player == PLAYER_O
    ensures MakeMove(UndoMove(s, m), m) == s
  {
    GridExt(MakeMove(UndoMove(s, m), m).board, s.board);
  }

  /** The game-over test agrees with the outcome and the move list: a state is
      terminal exactly when its outcome is nonzero or it has no legal move. */
  lemma TerminalIffScoreOrNoMoves(s: GameState)
    ensures Terminal(s) <==> Score(s.board) != 0 || PossibleMoves(s) == []
  {
    ScoreNonzeroIffLine(s.board);
  }

  /** A termination measure for the search: the EMPTY cells, plus one while
      the side to move is itself EMPTY (such a move writes EMPTY once and then
      hands the turn to X). */
  function Measure(s: GameState): nat {
    |PossibleMoves(s)| + (if s.player == EMPTY then 1 else 0)
  }

  /** Filling one EMPTY cell of a row removes exactly one cell from its list. */
  lemma {:induction false} RowCountAfterFill(row: seq<char>, row': seq<char>, i: int, c: int)
    requires |row| == |row'|
    requires forall d | 0 <= d < |row| && d != c :: row'[d] == row[d]
    requires 0 <= c < |row| ==> row[c] == EMPTY && row'[c] != EMPTY
    ensures |RowCells(row', i)| == |RowCells(row, i)| - (if 0 <= c < |row| then 1 else 0)
    decreases |row|
  {
    if row != [] {
      RowCountAfterFill(row[..|row| - 1], row'[..|row| - 1], i, c);
    }
  }

  /** Filling one EMPTY cell of a board removes exactly one cell from its list. */
  lemma {:induction false} BoardCountAfterFill(rows: seq<seq<char>>, rows': seq<seq<char>>, m: Move)
    requires |rows| == |rows'|
    requires forall r | 0 <= r < |rows| && r != m.row :: rows'[r] == rows[r]
    requires 0 <= m.row < |rows| ==> |rows'[m.row]| == |rows[m.row]|
    requires 0 <= m.row < |rows| ==> forall d | 0 <= d < |rows[m.row]| && d != m.col :: rows'[m.row][d] == rows[m.row][d]
    requires 0 <= m.row < |rows| ==> 0 <= m.col < |rows[m.row]| && rows[m.row][m.col] == EMPTY && rows'[m.row][m.col] != EMPTY
    ensures |BoardCells(rows')| == |BoardCells(rows)| - (if 0 <= m.row < |rows| then 1 else 0)
    decreases |rows|
  {
    if rows != [] {
      var n := |rows| - 1;
      BoardCountAfterFill(rows[..n], rows'[..n], m);
      RowCountAfterFill(rows[n], rows'[n], n, if m.row == n then m.col else -1);
    }
  }

  /** Every move the generator offers brings the search closer to the end. */
  lemma MeasureDecreases(s: GameState, m: Move)
    requires InRange(m) && At(s.board, m) == EMPTY
    ensures Measure(MakeMove(s, m)) < Measure(s)
  {
    var r := MakeMove(s, m);
    if s.player == EMPTY {
      GridExt(r.board, s.board);
    } else {
      BoardCountAfterFill(s.board, r.board, m);
    }
  }
}
