/** The terminal evaluator: the eight winning lines, the game-over test and
    the signed outcome of a board. */
module Rules {
  import opened Board

  /** Line `k` of the eight, numbered in the order the source scans them:
      rows 0..2 (k = 0..2), columns 0..2 (k = 3..5), the main diagonal (k = 6)
      and the anti-diagonal (k = 7). `LineCell(k, t)` is its t-th cell. */
  function LineCell(k: nat, t: nat): (m: Move)
    requires k < 8 && t < 3
    ensures InRange(m)
  {
    if k < 3 then Move(k, t)
    else if k < 6 then Move(t, k - 3)
    else if k == 6 then Move(t, t)
    else Move(t, 2 - t)
  }

  function At(b: Grid, m: Move): char
    requires InRange(m)
  {
    b[m.row][m.col]
  }

  /** Line `k` holds three equal marks that are not EMPTY. */
  predicate LineComplete(b: Grid, k: nat)
    requires k < 8
  {
    var c0, c1, c2 := At(b, LineCell(k, 0)), At(b, LineCell(k, 1)), At(b, LineCell(k, 2));
    c0 != EMPTY && c0 == c1 && c1 == c2
  }

  predicate HasCompleteLine(b: Grid) {
    exists k | 0 <= k < 8 :: LineComplete(b, k)
  }

  predicate IsFull(b: Grid) {
    forall i, j | 0 <= i < BOARD_SIZE && 0 <= j < BOARD_SIZE :: b[i][j] != EMPTY
  }

  /** The game-over predicate: some line is complete, or no cell is EMPTY. */
  predicate Terminal(s: GameState) {
    HasCompleteLine(s.board) || IsFull(s.board)
  }

  /** The index of the first complete line at or after `from`, or 8 when there
      is none. */
  function FirstComplete(b: Grid, from: nat): (k: nat)
    requires from <= 8
    ensures from <= k <= 8
    ensures k < 8 ==> LineComplete(b, k)
    ensures forall j | from <= j < k :: !LineComplete(b, j)
    decreases 8 - from
  {
    if from == 8 then 8
    else if LineComplete(b, from) then from
    else FirstComplete(b, from + 1)
  }

  /** The outcome of a board: +1 when the first complete line (in scan order)
      is X's, -1 when it belongs to any other mark, 0 when no line is complete. */
  function Score(b: Grid): (r: int)
    ensures r == -1 || r == 0 || r == 1
  {
    var k := FirstComplete(b, 0);
    if k == 8 then 0
    else if At(b, LineCell(k, 0)) == PLAYER_X then 1
    else -1
  }

  /** `Score` is nonzero exactly when some line is complete. */
  lemma ScoreNonzeroIffLine(b: Grid)
    ensures Score(b) != 0 <==> HasCompleteLine(b)
  {
    var k := FirstComplete(b, 0);
    if HasCompleteLine(b) {
      var w :| 0 <= w < 8 && LineComplete(b, w);
      assert k <= w;
    }
  }

  /** A board with a nonzero outcome is game over. */
  lemma ScoreNonzeroIsTerminal(s: GameState)
    requires Score(s.board) != 0
    ensures Terminal(s)
  {
    ScoreNonzeroIffLine(s.board);
  }

  /** `Score` is +1 or -1 by the owner of the first complete line. */
  lemma ScoreIsFirstLineOwner(b: Grid, k: nat)
    requires k < 8 && LineComplete(b, k)
    requires forall j | 0 <= j < k :: !LineComplete(b, j)
    ensures Score(b) == (if At(b, LineCell(k, 0)) == PLAYER_X then 1 else -1)
  {
    var f := FirstComplete(b, 0);
    assert f <= k;
  }

  /** `game_over`: rows, columns and diagonals first, then the full-board scan. */
  method GameOver(s: GameState) returns (over: bool)
    ensures over == Terminal(s)
  {
    var b := s.board;
    for i := 0 to BOARD_SIZE
      invariant forall k | 0 <= k < i :: !LineComplete(b, k)
    {
      if b[i][0] != EMPTY && b[i][0] == b[i][1] && b[i][1] == b[i][2] {
        assert LineComplete(b, i);
        return true;
      }
    }
    for j := 0 to BOARD_SIZE
      invariant forall k | 0 <= k < 3 + j :: !LineComplete(b, k)
    {
      if b[0][j] != EMPTY && b[0][j] == b[1][j] && b[1][j] == b[2][j] {
        assert LineComplete(b, 3 + j);
        return true;
      }
    }
    if b[0][0] != EMPTY && b[0][0] == b[1][1] && b[1][1] == b[2][2] {
      assert LineComplete(b, 6);
      return true;
    }
    if b[0][2] != EMPTY && b[0][2] == b[1][1] && b[1][1] == b[2][0] {
      assert LineComplete(b, 7);
      return true;
    }
    assert !LineComplete(b, 6) && !LineComplete(b, 7);
    assert !HasCompleteLine(b);
    for i := 0 to BOARD_SIZE
      invariant forall r, c | 0 <= r < i && 0 <= c < BOARD_SIZE :: b[r][c] != EMPTY
    {
      for j := 0 to BOARD_SIZE
        invariant forall r, c | (0 <= r < i && 0 <= c < BOARD_SIZE) || (r == i && 0 <= c < j) :: b[r][c] != EMPTY
      {
        if b[i][j] == EMPTY {
          return false;
        }
      }
    }
    return true;
  }

  /** `evaluate`: the same scan order, returning at the first complete line. */
  method Evaluate(s: GameState) returns (r: int)
    ensures r == Score(s.board)
  {
    var b := s.board;
    for i := 0 to BOARD_SIZE
      invariant forall k | 0 <= k < i :: !LineComplete(b, k)
    {
      if b[i][0] != EMPTY && b[i][0] == b[i][1] && b[i][1] == b[i][2] {
        ScoreIsFirstLineOwner(b, i);
        if b[i][0] == PLAYER_X {
          return 1;
        } else {
          return -1;
        }
      }
    }
    for j := 0 to BOARD_SIZE
      invariant forall k | 0 <= k < 3 + j :: !LineComplete(b, k)
    {
      if b[0][j] != EMPTY && b[0][j] == b[1][j] && b[1][j] == b[2][j] {
        ScoreIsFirstLineOwner(b, 3 + j);
        if b[0][j] == PLAYER_X {
          return 1;
        } else {
          return -1;
        }
      }
    }
    if b[0][0] != EMPTY && b[0][0] == b[1][1] && b[1][1] == b[2][2] {
      ScoreIsFirstLineOwner(b, 6);
      if b[0][0] == PLAYER_X {
        return 1;
      } else {
        return -1;
      }
    }
    if b[0][2] != EMPTY && b[0][2] == b[1][1] && b[1][1] == b[2][0] {
      ScoreIsFirstLineOwner(b, 7);
      if b[0][2] == PLAYER_X {
        return 1;
      } else {
        return -1;
      }
    }
    assert !LineComplete(b, 6) && !LineComplete(b, 7);
    ScoreNonzeroIffLine(b);
    return 0;
  }
}
