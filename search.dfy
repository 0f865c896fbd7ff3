/** The search engine: depth-bounded minimax with alpha-beta pruning and the
    top-level best-move selector. */
module Search {
  import opened Board
  import opened Rules
  import opened Moves

  /** `std::max` and `std::min` on the values the search compares. */
  function Max(a: int, b: int): (r: int)
    ensures r >= a && r >= b && (r == a || r == b)
  {
    if a < b then b else a
  }

  function Min(a: int, b: int): (r: int)
    ensures r <= a && r <= b && (r == a || r == b)
  {
    if b < a then b else a
  }

  /** Plain depth-bounded minimax over the generated moves, without pruning:
      the value the search is specified against. A state that is game over,
      or reached with depth 0, is worth its outcome; otherwise the side that
      the flag names takes the best of its children. */
  function Value(s: GameState, depth: int, maximize: bool): (v: int)
    ensures -1 <= v <= 1
    decreases Measure(s), 2
  {
    if depth == 0 || Terminal(s) then Score(s.board)
    else Fold(s, depth, maximize, |PossibleMoves(s)|)
  }

  /** At the depth cutoff a state that is not game over is worth a neutral 0:
      no positional estimate is made. */
  lemma DepthCutoffIsNeutral(s: GameState, maximize: bool)
    requires !Terminal(s)
    ensures Value(s, 0, maximize) == 0
  {
    ScoreNonzeroIffLine(s.board);
  }

  /** The running maximum (or minimum) of the values of the first `n`
      children, starting from the `INT_MIN` (or `INT_MAX`) sentinel. */
  function Fold(s: GameState, depth: int, maximize: bool, n: nat): (v: int)
    requires n <= |PossibleMoves(s)|
    ensures 0 < n ==> -1 <= v <= 1
    decreases Measure(s), 1, n
  {
    if n == 0 then (if maximize then INT_MIN else INT_MAX)
    else if maximize then Max(Fold(s, depth, maximize, n - 1), ChildValue(s, depth, maximize, n - 1))
    else Min(Fold(s, depth, maximize, n - 1), ChildValue(s, depth, maximize, n - 1))
  }

  /** The value of the state reached by the `k`-th generated move, one ply
      down, with the other side choosing. */
  function ChildValue(s: GameState, depth: int, maximize: bool, k: nat): (v: int)
    requires k < |PossibleMoves(s)|
    ensures -1 <= v <= 1
    decreases Measure(s), 0
  {
    var m := PossibleMoves(s)[k];
    MeasureDecreases(s, m);
    Value(MakeMove(s, m), depth - 1, !maximize)
  }

  /** More children can only raise a running maximum and lower a running
      minimum. */
  lemma {:induction false} FoldMonotone(s: GameState, depth: int, maximize: bool, k: nat, n: nat)
    requires k <= n <= |PossibleMoves(s)|
    ensures maximize ==> Fold(s, depth, maximize, k) <= Fold(s, depth, maximize, n)
    ensures !maximize ==> Fold(s, depth, maximize, k) >= Fold(s, depth, maximize, n)
    decreases n
  {
    if k < n {
      FoldMonotone(s, depth, maximize, k, n - 1);
    }
  }

  /** The fail-soft alpha-beta guarantee relating the true value `v` of a node
      to the value `f` the pruned search returns for the window (alpha, beta):
      below the window `f` is an upper bound, inside it `f` is exact, above it
      `f` is a lower bound. */
  predicate FailSoft(v: int, f: int, alpha: int, beta: int) {
    && (v <= alpha ==> v <= f <= alpha)
    && (alpha < v < beta ==> f == v)
    && (beta <= v ==> beta <= f <= v)
  }

  /** One child of a maximizing node: if the node's invariant held before the
      child was searched with the window (max(alpha, m), beta), it holds after
      `m` absorbs the child's result, or the node is cut off with a lower
      bound on its value. */
  lemma MaxStep(alpha: int, beta: int, m: int, vk: int, f: int, vc: int)
    requires alpha < beta && Max(alpha, m) < beta
    requires m <= alpha ==> vk <= m
    requires alpha < m ==> vk == m
    requires FailSoft(vc, f, Max(alpha, m), beta)
    ensures Max(alpha, Max(m, f)) < beta ==>
      (Max(m, f) <= alpha ==> Max(vk, vc) <= Max(m, f)) && (alpha < Max(m, f) ==> Max(vk, vc) == Max(m, f))
    ensures beta <= Max(alpha, Max(m, f)) ==> beta <= Max(m, f) <= Max(vk, vc)
  {
  }

  /** The mirror image of `MaxStep` for a minimizing node. */
  lemma MinStep(alpha: int, beta: int, m: int, vk: int, f: int, vc: int)
    requires alpha < beta && alpha < Min(beta, m)
    requires beta <= m ==> m <= vk
    requires m < beta ==> vk == m
    requires FailSoft(vc, f, alpha, Min(beta, m))
    ensures alpha < Min(beta, Min(m, f)) ==>
      (beta <= Min(m, f) ==> Min(m, f) <= Min(vk, vc)) && (Min(m, f) < beta ==> Min(vk, vc) == Min(m, f))
    ensures Min(beta, Min(m, f)) <= alpha ==> Min(vk, vc) <= Min(m, f) <= alpha
  {
  }

  /** A node cut off with its result at or beyond the window's far edge. */
  lemma CutoffIsFailSoft(v: int, f: int, alpha: int, beta: int, maximize: bool)
    requires alpha < beta
    requires maximize ==> beta <= f <= v
    requires !maximize ==> v <= f <= alpha
    ensures FailSoft(v, f, alpha, beta)
  {
  }

  /** A node that searched every child without a cutoff. */
  lemma ExhaustedIsFailSoft(v: int, f: int, alpha: int, beta: int, maximize: bool)
    requires alpha < beta
    requires maximize ==> Max(alpha, f) < beta && (f <= alpha ==> v <= f) && (alpha < f ==> v == f)
    requires !maximize ==> alpha < Min(beta, f) && (beta <= f ==> f <= v) && (f < beta ==> v == f)
    ensures FailSoft(v, f, alpha, beta)
  {
  }

  /** `minimax`: alpha-beta search. It ends for every depth, even a negative
      one, which never counts down to 0 and so searches to the end of the
      game, because `Measure` drops with every move; its value is always an
      outcome, never a sentinel; for any window alpha < beta it is fail-soft
      with respect to unpruned minimax, and with the full window it is
      exactly unpruned minimax. */
  method Minimax(s: GameState, depth: int, alpha: Int32, beta: Int32, maximize: bool) returns (r: int)
    ensures -1 <= r <= 1
    ensures alpha < beta ==> FailSoft(Value(s, depth, maximize), r, alpha, beta)
    ensures alpha == INT_MIN && beta == INT_MAX ==> r == Value(s, depth, maximize)
    decreases Measure(s), 2
  {
    if depth == 0 {
      r := Evaluate(s);
      return;
    }
    var over := GameOver(s);
    if over {
      r := Evaluate(s);
      return;
    }
    var moves := GetPossibleMoves(s);
    if maximize {
      r := MaxNode(s, depth, alpha, beta, moves);
    } else {
      r := MinNode(s, depth, alpha, beta, moves);
    }
  }

  /** The maximizing branch of `minimax`: every child is searched with the
      minimizing side to move, the window's lower edge rising with the best
      value so far, until the window closes. */
  method MaxNode(s: GameState, depth: int, alpha: Int32, beta: Int32, moves: seq<Move>) returns (r: int)
    requires moves == PossibleMoves(s) && moves != []
    ensures -1 <= r <= 1
    ensures alpha < beta ==> FailSoft(Fold(s, depth, true, |moves|), r, alpha, beta)
    decreases Measure(s), 1
  {
    var maxValue := INT_MIN;
    var a := alpha;
    var k := 0;
    while k < |moves|
      invariant 0 <= k <= |moves|
      invariant a == Max(alpha, maxValue)
      invariant k == 0 ==> maxValue == INT_MIN
      invariant 0 < k ==> -1 <= maxValue <= 1 && a < beta
      invariant maxValue <= alpha ==> Fold(s, depth, true, k) <= maxValue
      invariant alpha < maxValue ==> Fold(s, depth, true, k) == maxValue
    {
      var value := SearchChild(s, depth, k, a, beta, true);
      if alpha < beta {
        MaxStep(alpha, beta, maxValue, Fold(s, depth, true, k), value, ChildValue(s, depth, true, k));
      }
      maxValue := Max(maxValue, value);
      a := Max(a, value);
      k := k + 1;
      if beta <= a {
        FoldMonotone(s, depth, true, k, |moves|);
        if alpha < beta {
          CutoffIsFailSoft(Fold(s, depth, true, |moves|), maxValue, alpha, beta, true);
        }
        return maxValue;
      }
    }
    if alpha < beta {
      ExhaustedIsFailSoft(Fold(s, depth, true, |moves|), maxValue, alpha, beta, true);
    }
    r := maxValue;
  }

  /** The minimizing branch of `minimax`, the mirror image of `MaxNode`. */
  method MinNode(s: GameState, depth: int, alpha: Int32, beta: Int32, moves: seq<Move>) returns (r: int)
    requires moves == PossibleMoves(s) && moves != []
    ensures -1 <= r <= 1
    ensures alpha < beta ==> FailSoft(Fold(s, depth, false, |moves|), r, alpha, beta)
    decreases Measure(s), 1
  {
    var minValue := INT_MAX;
    var b := beta;
    var k := 0;
    while k < |moves|
      invariant 0 <= k <= |moves|
      invariant b == Min(beta, minValue)
      invariant k == 0 ==> minValue == INT_MAX
      invariant 0 < k ==> -1 <= minValue <= 1 && alpha < b
      invariant beta <= minValue ==> minValue <= Fold(s, depth, false, k)
      invariant minValue < beta ==> Fold(s, depth, false, k) == minValue
    {
      var value := SearchChild(s, depth, k, alpha, b, false);
      if alpha < beta {
        MinStep(alpha, beta, minValue, Fold(s, depth, false, k), value, ChildValue(s, depth, false, k));
      }
      minValue := Min(minValue, value);
      b := Min(b, value);
      k := k + 1;
      if b <= alpha {
        FoldMonotone(s, depth, false, k, |moves|);
        if alpha < beta {
          CutoffIsFailSoft(Fold(s, depth, false, |moves|), minValue, alpha, beta, false);
        }
        return minValue;
      }
    }
    if alpha < beta {
      ExhaustedIsFailSoft(Fold(s, depth, false, |moves|), minValue, alpha, beta, false);
    }
    r := minValue;
  }

  /** One child of a node: play the `k`-th generated move and search the
      resulting state one ply shallower, with the other side to choose. */
  method SearchChild(s: GameState, depth: int, k: nat, alpha: Int32, beta: Int32, maximize: bool) returns (value: int)
    requires k < |PossibleMoves(s)|
    ensures -1 <= value <= 1
    ensures alpha < beta ==> FailSoft(ChildValue(s, depth, maximize, k), value, alpha, beta)
    decreases Measure(s), 0
  {
    var m := PossibleMoves(s)[k];
    MeasureDecreases(s, m);
    value := Minimax(MakeMove(s, m), depth - 1, alpha, beta, !maximize);
  }

  /** With the full window the pruned search returns exactly unpruned minimax. */
  lemma FullWindowIsExact(v: int, r: int)
    requires -1 <= v <= 1
    requires FailSoft(v, r, INT_MIN, INT_MAX)
    ensures r == v
  {
  }

  /** The score `find_best_move` gives a move: X's minimax value of the
      resulting state one ply down, with the minimizing side to choose. */
  function MoveValue(s: GameState, depth: int, m: Move): (v: int)
    requires InRange(m)
  {
    Value(MakeMove(s, m), depth - 1, false)
  }

  /** `best` is a legal move of maximal score, and every legal move before it
      in row-major order scores strictly less. */
  predicate IsBestMove(s: GameState, depth: int, best: Move) {
    && best in PossibleMoves(s)
    && (forall m | m in PossibleMoves(s) :: MoveValue(s, depth, m) <= MoveValue(s, depth, best))
    && (forall m | m in PossibleMoves(s) && RowMajorBefore(m, best) :: MoveValue(s, depth, m) < MoveValue(s, depth, best))
  }

  /** At most one move is best, so the selector's answer is determined by the
      state and the depth. */
  lemma BestMoveUnique(s: GameState, depth: int, m: Move, n: Move)
    requires IsBestMove(s, depth, m) && IsBestMove(s, depth, n)
    ensures m == n
  {
  }

  /** The index form of `IsBestMove`: move `bi` scores highest, and every
      earlier move scores strictly less. */
  predicate IsBestIndex(s: GameState, depth: int, bi: nat) {
    && bi < |PossibleMoves(s)|
    && (forall t | 0 <= t < |PossibleMoves(s)| :: ChildValue(s, depth, true, t) <= ChildValue(s, depth, true, bi))
    && (forall t | 0 <= t < bi :: ChildValue(s, depth, true, t) < ChildValue(s, depth, true, bi))
  }

  /** Because the moves are generated in row-major order, the first index of
      highest score is the row-major first move of highest score. */
  lemma BestIndexIsBestMove(s: GameState, depth: int, bi: nat)
    requires IsBestIndex(s, depth, bi)
    ensures IsBestMove(s, depth, PossibleMoves(s)[bi])
  {
    var ms := PossibleMoves(s);
    PossibleMovesExact(s);
    forall m | m in ms
      ensures MoveValue(s, depth, m) <= MoveValue(s, depth, ms[bi])
      ensures RowMajorBefore(m, ms[bi]) ==> MoveValue(s, depth, m) < MoveValue(s, depth, ms[bi])
    {
      var t :| 0 <= t < |ms| && ms[t] == m;
      assert ChildValue(s, depth, true, t) == MoveValue(s, depth, m);
      assert ChildValue(s, depth, true, bi) == MoveValue(s, depth, ms[bi]);
      if RowMajorBefore(m, ms[bi]) {
        assert t < bi;
      }
    }
  }

  /** `find_best_move`: scores every legal move with a full-window search
      and keeps the first one with the highest score. */
  method FindBestMove(s: GameState, depth: int) returns (best: Move)
    requires PossibleMoves(s) != []
    ensures IsBestMove(s, depth, best)
  {
    var bestValue := INT_MIN;
    best := *;
    var moves := GetPossibleMoves(s);
    ghost var bi := 0;
    for k := 0 to |moves|
      invariant k == 0 ==> bestValue == INT_MIN
      invariant 0 <= bi <= k
      invariant 0 < k ==> bi < k && best == moves[bi] && bestValue == ChildValue(s, depth, true, bi)
      invariant forall t | 0 <= t < k :: ChildValue(s, depth, true, t) <= bestValue
      invariant forall t | 0 <= t < bi :: ChildValue(s, depth, true, t) < bestValue
    {
      var value := SearchChild(s, depth, k, INT_MIN, INT_MAX, true);
      FullWindowIsExact(ChildValue(s, depth, true, k), value);
      if value > bestValue {
        bestValue := value;
        best := moves[k];
        bi := k;
      }
      assert value <= bestValue;
    }
    BestIndexIsBestMove(s, depth, bi);
  }
}
