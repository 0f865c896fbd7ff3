/** Concrete positions: what the engine's specification says about a few
    boards that can be worked out by hand. */
module Scenarios {
  import opened Board
  import opened Rules
  import opened Moves
  import opened Search

  /** X to move with two in the top row and the third cell free. */
  function WinInOne(): GameState {
    GameState(["XX-", "OO-", "---"], PLAYER_X)
  }

  /** A full board with no complete line. */
  function DrawnBoard(): GameState {
    GameState(["XOX", "XOO", "OXX"], PLAYER_O)
  }

  /** Completing the top row wins at once, so the selector picks it at every
      depth: it scores +1, and every other legal move lies after it in
      row-major order, so none can displace it. */
  lemma WinInOneIsChosen(depth: int, best: Move)
    requires IsBestMove(WinInOne(), depth, best)
    ensures best == Move(0, 2)
  {
    var s := WinInOne();
    var win := Move(0, 2);
    var after := MakeMove(s, win);
    assert LineComplete(after.board, 0);
    assert Terminal(after);
    ScoreIsFirstLineOwner(after.board, 0);
    assert MoveValue(s, depth, win) == 1;
    PossibleMovesExact(s);
    assert win in PossibleMoves(s);
    var i :| 0 <= i < |PossibleMoves(s)| && PossibleMoves(s)[i] == best;
    assert At(s.board, best) == EMPTY;
  }

  /** A full board without a line is game over, is worth 0, offers no move,
      and the search values it 0 at every depth for either side. */
  lemma DrawnBoardIsDraw(depth: int, maximize: bool)
    ensures Terminal(DrawnBoard())
    ensures Score(DrawnBoard().board) == 0
    ensures PossibleMoves(DrawnBoard()) == []
    ensures Value(DrawnBoard(), depth, maximize) == 0
  {
    var b := DrawnBoard().board;
    assert IsFull(b);
    forall k | 0 <= k < 8
      ensures !LineComplete(b, k)
    {
    }
    ScoreNonzeroIffLine(b);
  }
}
