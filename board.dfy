/** The state model of the tic-tac-toe engine: a 3x3 board of marks and the
    side to move. A game state is a value; every transition builds a new one. */
module Board {

  const BOARD_SIZE: int := 3

  const PLAYER_X: char := 'X'
  const PLAYER_O: char := 'O'
  const EMPTY: char := '-'

  /** The extremes of a 32-bit C++ `int`, used as search sentinels. */
  const INT_MIN: int := -0x8000_0000
  const INT_MAX: int := 0x7fff_ffff

  /** A value of the C++ type `int`. */
  type Int32 = x: int | INT_MIN <= x <= INT_MAX

  /** A 3x3 grid of cells, indexed `board[row][col]`. */
  type Grid = b: seq<seq<char>> | |b| == BOARD_SIZE && forall i | 0 <= i < BOARD_SIZE :: |b[i]| == BOARD_SIZE
    witness ["---", "---", "---"]

  /** A move names a cell by zero-based row and column. */
  datatype Move = Move(row: int, col: int)

  datatype GameState = GameState(board: Grid, player: char)

  predicate InRange(m: Move) {
    0 <= m.row < BOARD_SIZE && 0 <= m.col < BOARD_SIZE
  }

  /** Row-major order on cells: row ascending, then column ascending. */
  predicate RowMajorBefore(m: Move, n: Move) {
    m.row < n.row || (m.row == n.row && m.col < n.col)
  }

  /** The opponent of `p`, as the source flips the side to move: X becomes O,
      anything else becomes X. The result is always a real player, and the
      side to move always changes. */
  function Other(p: char): (q: char)
    ensures q == PLAYER_X || q == PLAYER_O
    ensures q != p
  {
    if p == PLAYER_X then PLAYER_O else PLAYER_X
  }

  /** Flipping twice gives back X or O. */
  lemma OtherInvolution(p: char)
    requires p == PLAYER_X || p == PLAYER_O
    ensures Other(Other(p)) == p
  {
  }

  predicate IsEmptyBoard(b: Grid) {
    forall i, j | 0 <= i < BOARD_SIZE && 0 <= j < BOARD_SIZE :: b[i][j] == EMPTY
  }

  /** The default constructor: every cell EMPTY, X to move. */
  method NewGameState() returns (s: GameState)
    ensures IsEmptyBoard(s.board)
    ensures s.player == PLAYER_X
  {
    var rows: seq<seq<char>> := [];
    for i := 0 to BOARD_SIZE
      invariant |rows| == i
      invariant forall r | 0 <= r < i :: |rows[r]| == BOARD_SIZE
      invariant forall r, c | 0 <= r < i && 0 <= c < BOARD_SIZE :: rows[r][c] == EMPTY
    {
      var row: seq<char> := [];
      for j := 0 to BOARD_SIZE
        invariant |row| == j
        invariant forall c | 0 <= c < j :: row[c] == EMPTY
      {
        row := row + [EMPTY];
      }
      rows := rows + [row];
    }
    s := GameState(rows, PLAYER_X);
  }

  /** `operator==`: compares the cells of the two boards and nothing else;
      the side to move is ignored. */
  method Equals(s: GameState, other: GameState) returns (eq: bool)
    ensures eq <==> s.board == other.board
  {
    for i := 0 to BOARD_SIZE
      invariant forall r | 0 <= r < i :: s.board[r] == other.board[r]
    {
      for j := 0 to BOARD_SIZE
        invariant forall c | 0 <= c < j :: s.board[i][c] == other.board[i][c]
      {
        if s.board[i][j] != other.board[i][j] {
          return false;
        }
      }
      assert s.board[i] == other.board[i];
    }
    assert s.board == other.board;
    return true;
  }
}
