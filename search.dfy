/**
 * The search of src/test.ts as functions on board values: the depth-adjusted
 * alpha-beta `minimax` exactly as written (AlphaBeta), the same tree searched without
 * pruning (MinimaxValue), and the choice `findBestMove` makes at the root.
 * 'o' is the maximizing side, 'x' the minimizing one.
 */
module Search {
  import opened Wrappers
  import opened Boards
  import opened Evaluation

  /** -Infinity and +Infinity: integers below and above every score the search produces. */
  const MinusInfinity: int := -1000000
  const PlusInfinity: int := 1000000

  /** The depth at which `minimax` stops and scores 0. */
  const DepthLimit: int := 9

  function Max(a: int, b: int): int
  {
    if a >= b then a else b
  }

  function Min(a: int, b: int): int
  {
    if a <= b then a else b
  }

  /** v forced into [lo, hi]. */
  function Clamp(v: int, lo: int, hi: int): int
  {
    if v < lo then lo else if v > hi then hi else v
  }

  /**
   * The three checks `minimax` makes before it searches: an 'o' win, an 'x' win,
   * then a stalemate or the depth limit. None means the node is searched.
   */
  function Terminal(b: Board, depth: int): Option<int>
  {
    var t := TotalValue(b, O);
    if t == Some(WinScore) then Some(WinScore - depth)
    else if t == Some(-WinScore) then Some(-WinScore + depth)
    else if t == Some(0) || depth >= DepthLimit then Some(0)
    else None
  }

  // ---------------------------------------------------------------- plain minimax

  /** The value of the tree `minimax` searches, every child visited. */
  function MinimaxValue(b: Board, isMax: bool, depth: int): int
    decreases EmptyCells(b), 1, 0
  {
    match Terminal(b, depth)
    case Some(v) => v
    case None =>
      if isMax then MaxOver(b, Moves(b), depth, MinusInfinity)
      else MinOver(b, Moves(b), depth, PlusInfinity)
  }

  /** best, raised to the value of each move of ms played by 'o'. */
  function MaxOver(b: Board, ms: seq<(int, int)>, depth: int, best: int): int
    requires AllOpen(b, ms)
    decreases EmptyCells(b), 0, |ms|
  {
    if ms == [] then best
    else MaxOver(b, ms[1..], depth, Max(best, MinimaxValue(Play(b, ms[0], O), false, depth + 1)))
  }

  /** best, lowered to the value of each move of ms played by 'x'. */
  function MinOver(b: Board, ms: seq<(int, int)>, depth: int, best: int): int
    requires AllOpen(b, ms)
    decreases EmptyCells(b), 0, |ms|
  {
    if ms == [] then best
    else MinOver(b, ms[1..], depth, Min(best, MinimaxValue(Play(b, ms[0], X), true, depth + 1)))
  }

  // ---------------------------------------------------------------- alpha-beta, as written

  /** minimax(isMax, depth, alpha, beta) of src/test.ts. */
  function AlphaBeta(b: Board, isMax: bool, depth: int, alpha: int, beta: int): int
    decreases EmptyCells(b), 1, 0
  {
    match Terminal(b, depth)
    case Some(v) => v
    case None =>
      if isMax then AlphaBetaMax(b, Moves(b), depth, alpha, beta, MinusInfinity)
      else AlphaBetaMin(b, Moves(b), depth, alpha, beta, PlusInfinity)
  }

  /** The maximizing loop from the move ms[0] on: raise best, raise alpha, stop once beta <= alpha. */
  function AlphaBetaMax(b: Board, ms: seq<(int, int)>, depth: int, alpha: int, beta: int, best: int): int
    requires AllOpen(b, ms)
    decreases EmptyCells(b), 0, |ms|
  {
    if ms == [] then best
    else
      var score := AlphaBeta(Play(b, ms[0], O), false, depth + 1, alpha, beta);
      var best' := if score > best then score else best;
      var alpha' := Max(alpha, best');
      if beta <= alpha' then best' else AlphaBetaMax(b, ms[1..], depth, alpha', beta, best')
  }

  /** The minimizing loop from the move ms[0] on: lower best, lower beta, stop once beta <= alpha. */
  function AlphaBetaMin(b: Board, ms: seq<(int, int)>, depth: int, alpha: int, beta: int, best: int): int
    requires AllOpen(b, ms)
    decreases EmptyCells(b), 0, |ms|
  {
    if ms == [] then best
    else
      var score := AlphaBeta(Play(b, ms[0], X), true, depth + 1, alpha, beta);
      var best' := if score < best then score else best;
      var beta' := Min(beta, best');
      if beta' <= alpha then best' else AlphaBetaMin(b, ms[1..], depth, alpha, beta', best')
  }

  /** One turn of the maximizing loop at index i, given the score s of the move ms[i]. */
  lemma AlphaBetaMaxNext(b: Board, ms: seq<(int, int)>, i: nat, depth: int, alpha: int, beta: int, best: int, s: int)
    requires AllOpen(b, ms) && i < |ms|
    requires s == AlphaBeta(Play(b, ms[i], O), false, depth + 1, alpha, beta)
    ensures AllOpen(b, ms[i..]) && AllOpen(b, ms[i + 1..])
    ensures var best' := if s > best then s else best;
            AlphaBetaMax(b, ms[i..], depth, alpha, beta, best) ==
            if beta <= Max(alpha, best') then best' else AlphaBetaMax(b, ms[i + 1..], depth, Max(alpha, best'), beta, best')
  {
  }

  /** One turn of the minimizing loop at index i, given the score s of the move ms[i]. */
  lemma AlphaBetaMinNext(b: Board, ms: seq<(int, int)>, i: nat, depth: int, alpha: int, beta: int, best: int, s: int)
    requires AllOpen(b, ms) && i < |ms|
    requires s == AlphaBeta(Play(b, ms[i], X), true, depth + 1, alpha, beta)
    ensures AllOpen(b, ms[i..]) && AllOpen(b, ms[i + 1..])
    ensures var best' := if s < best then s else best;
            AlphaBetaMin(b, ms[i..], depth, alpha, beta, best) ==
            if Min(beta, best') <= alpha then best' else AlphaBetaMin(b, ms[i + 1..], depth, alpha, Min(beta, best'), best')
  {
  }

  // ---------------------------------------------------------------- the root

  /** The score `findBestMove` gets for 'o' taking m: minimax(false, 1, -Infinity, Infinity). */
  function RootScore(b: Board, m: (int, int)): int
    requires Open(b, m)
  {
    AlphaBeta(Play(b, m, O), false, 1, MinusInfinity, PlusInfinity)
  }

  function RootScores(b: Board): (scores: seq<int>)
    ensures |scores| == |Moves(b)|
  {
    var ms := Moves(b);
    seq(|ms|, i requires 0 <= i < |ms| => RootScore(b, ms[i]))
  }

  /**
   * The root loop from index i on: a score replaces the best so far only when it is
   * strictly higher. best is the index of the best move so far, -1 before any.
   */
  function FirstBest(scores: seq<int>, i: nat, bestScore: int, best: int): (r: int)
    requires i <= |scores| && -1 <= best < |scores|
    ensures -1 <= r < |scores|
    decreases |scores| - i
  {
    if i == |scores| then best
    else if scores[i] > bestScore then FirstBest(scores, i + 1, scores[i], i)
    else FirstBest(scores, i + 1, bestScore, best)
  }

  /** What `findBestMove` picks: None (`[]`) on a full board, else the move it encodes. */
  function BestMove(b: Board): Option<(int, int)>
  {
    var ms := Moves(b);
    if ms == [] then None
    else
      var j := FirstBest(RootScores(b), 0, MinusInfinity, -1);
      Some(if j < 0 then (-99, -99) else ms[j])
  }

  // ---------------------------------------------------------------- lemmas

  /**
   * `minimax` returns 100000 - depth when 'o' is the reported winner, -100000 + depth
   * when 'x' is, 0 on a stalemate or at depth 9 or more, and otherwise searches the
   * moves: a positive heuristic value never ends the search.
   */
  lemma MinimaxOutcomes(b: Board, isMax: bool, depth: int, alpha: int, beta: int)
    ensures Winner(b) == Some(O) ==> AlphaBeta(b, isMax, depth, alpha, beta) == WinScore - depth
    ensures Winner(b) == Some(X) ==> AlphaBeta(b, isMax, depth, alpha, beta) == -WinScore + depth
    ensures Winner(b) == None && (None !in b || depth >= DepthLimit) ==>
              AlphaBeta(b, isMax, depth, alpha, beta) == 0
    ensures Winner(b) == None && None in b && depth < DepthLimit ==>
              Terminal(b, depth) == None && Moves(b) != []
  {
    TotalValueSpec(b, O);
    WinnerSpec(b);
    MovesSpec(b);
  }

  /** A node the search does not stop at has a move to try, and is below the depth limit. */
  lemma NonTerminalHasMoves(b: Board, depth: int)
    requires Terminal(b, depth) == None
    ensures Moves(b) != [] && depth < DepthLimit
  {
    TotalValueSpec(b, O);
    MovesSpec(b);
  }

  lemma {:induction false} MaxOverAtLeast(b: Board, ms: seq<(int, int)>, depth: int, best: int)
    requires AllOpen(b, ms)
    ensures MaxOver(b, ms, depth, best) >= best
    decreases |ms|
  {
    if ms != [] {
      MaxOverAtLeast(b, ms[1..], depth, Max(best, MinimaxValue(Play(b, ms[0], O), false, depth + 1)));
    }
  }

  lemma {:induction false} MinOverAtMost(b: Board, ms: seq<(int, int)>, depth: int, best: int)
    requires AllOpen(b, ms)
    ensures MinOver(b, ms, depth, best) <= best
    decreases |ms|
  {
    if ms != [] {
      MinOverAtMost(b, ms[1..], depth, Min(best, MinimaxValue(Play(b, ms[0], X), true, depth + 1)));
    }
  }

  /** Starting values that agree once clamped give results that agree once clamped. */
  lemma {:induction false} MaxOverClamp(b: Board, ms: seq<(int, int)>, depth: int, a1: int, a2: int, lo: int, hi: int)
    requires AllOpen(b, ms) && lo <= hi
    requires Clamp(a1, lo, hi) == Clamp(a2, lo, hi)
    ensures Clamp(MaxOver(b, ms, depth, a1), lo, hi) == Clamp(MaxOver(b, ms, depth, a2), lo, hi)
    decreases |ms|
  {
    if ms != [] {
      var v := MinimaxValue(Play(b, ms[0], O), false, depth + 1);
      MaxOverClamp(b, ms[1..], depth, Max(a1, v), Max(a2, v), lo, hi);
    }
  }

  lemma {:induction false} MinOverClamp(b: Board, ms: seq<(int, int)>, depth: int, a1: int, a2: int, lo: int, hi: int)
    requires AllOpen(b, ms) && lo <= hi
    requires Clamp(a1, lo, hi) == Clamp(a2, lo, hi)
    ensures Clamp(MinOver(b, ms, depth, a1), lo, hi) == Clamp(MinOver(b, ms, depth, a2), lo, hi)
    decreases |ms|
  {
    if ms != [] {
      var v := MinimaxValue(Play(b, ms[0], X), true, depth + 1);
      MinOverClamp(b, ms[1..], depth, Min(a1, v), Min(a2, v), lo, hi);
    }
  }

  /**
   * Alpha-beta as written agrees with plain minimax inside the window: clamped to
   * [alpha, beta], the two values are equal (the pruned value is a bound outside it).
   */
  lemma {:induction false} AlphaBetaAgrees(b: Board, isMax: bool, depth: int, alpha: int, beta: int)
    requires MinusInfinity <= alpha < beta <= PlusInfinity
    ensures Clamp(AlphaBeta(b, isMax, depth, alpha, beta), alpha, beta) ==
            Clamp(MinimaxValue(b, isMax, depth), alpha, beta)
    decreases EmptyCells(b), 1, 0
  {
    if Terminal(b, depth) == None {
      if isMax {
        AlphaBetaMaxAgrees(b, Moves(b), depth, alpha, beta, MinusInfinity);
      } else {
        AlphaBetaMinAgrees(b, Moves(b), depth, alpha, beta, PlusInfinity);
      }
    }
  }

  lemma {:induction false} AlphaBetaMaxAgrees(b: Board, ms: seq<(int, int)>, depth: int, alpha0: int, beta: int, best: int)
    requires AllOpen(b, ms)
    requires MinusInfinity <= alpha0 < beta <= PlusInfinity && best < beta
    ensures Clamp(AlphaBetaMax(b, ms, depth, Max(alpha0, best), beta, best), alpha0, beta) ==
            Clamp(MaxOver(b, ms, depth, best), alpha0, beta)
    decreases EmptyCells(b), 0, |ms|
  {
    if ms != [] {
      var alpha := Max(alpha0, best);
      var child := Play(b, ms[0], O);
      var s := AlphaBeta(child, false, depth + 1, alpha, beta);
      var v := MinimaxValue(child, false, depth + 1);
      AlphaBetaAgrees(child, false, depth + 1, alpha, beta);
      var best' := if s > best then s else best;
      var alpha' := Max(alpha, best');
      if beta <= alpha' {
        MaxOverAtLeast(b, ms[1..], depth, Max(best, v));
      } else {
        assert alpha' == Max(alpha0, best');
        AlphaBetaMaxAgrees(b, ms[1..], depth, alpha0, beta, best');
        MaxOverClamp(b, ms[1..], depth, best', Max(best, v), alpha0, beta);
      }
    }
  }

  lemma {:induction false} AlphaBetaMinAgrees(b: Board, ms: seq<(int, int)>, depth: int, alpha: int, beta0: int, best: int)
    requires AllOpen(b, ms)
    requires MinusInfinity <= alpha < beta0 <= PlusInfinity && alpha < best
    ensures Clamp(AlphaBetaMin(b, ms, depth, alpha, Min(beta0, best), best), alpha, beta0) ==
            Clamp(MinOver(b, ms, depth, best), alpha, beta0)
    decreases EmptyCells(b), 0, |ms|
  {
    if ms != [] {
      var beta := Min(beta0, best);
      var child := Play(b, ms[0], X);
      var s := AlphaBeta(child, true, depth + 1, alpha, beta);
      var v := MinimaxValue(child, true, depth + 1);
      AlphaBetaAgrees(child, true, depth + 1, alpha, beta);
      var best' := if s < best then s else best;
      var beta' := Min(beta, best');
      if beta' <= alpha {
        MinOverAtMost(b, ms[1..], depth, Min(best, v));
      } else {
        assert beta' == Min(beta0, best');
        AlphaBetaMinAgrees(b, ms[1..], depth, alpha, beta0, best');
        MinOverClamp(b, ms[1..], depth, best', Min(best, v), alpha, beta0);
      }
    }
  }

  /** Between depth 0 and the depth limit every minimax value lies in [-100000, 100000]. */
  lemma {:induction false} MinimaxBounds(b: Board, isMax: bool, depth: int)
    requires 0 <= depth <= DepthLimit
    ensures -WinScore <= MinimaxValue(b, isMax, depth) <= WinScore
    decreases EmptyCells(b), 1, 0
  {
    if Terminal(b, depth) == None {
      NonTerminalHasMoves(b, depth);
      if isMax {
        MaxOverBounds(b, Moves(b), depth, MinusInfinity);
      } else {
        MinOverBounds(b, Moves(b), depth, PlusInfinity);
      }
    }
  }

  lemma {:induction false} MaxOverBounds(b: Board, ms: seq<(int, int)>, depth: int, best: int)
    requires AllOpen(b, ms) && 0 <= depth < DepthLimit && best <= WinScore
    ensures MaxOver(b, ms, depth, best) <= WinScore
    ensures ms != [] || best >= -WinScore ==> MaxOver(b, ms, depth, best) >= -WinScore
    decreases EmptyCells(b), 0, |ms|
  {
    if ms != [] {
      var v := MinimaxValue(Play(b, ms[0], O), false, depth + 1);
      MinimaxBounds(Play(b, ms[0], O), false, depth + 1);
      MaxOverBounds(b, ms[1..], depth, Max(best, v));
    }
  }

  lemma {:induction false} MinOverBounds(b: Board, ms: seq<(int, int)>, depth: int, best: int)
    requires AllOpen(b, ms) && 0 <= depth < DepthLimit && best >= -WinScore
    ensures MinOver(b, ms, depth, best) >= -WinScore
    ensures ms != [] || best <= WinScore ==> MinOver(b, ms, depth, best) <= WinScore
    decreases EmptyCells(b), 0, |ms|
  {
    if ms != [] {
      var v := MinimaxValue(Play(b, ms[0], X), true, depth + 1);
      MinimaxBounds(Play(b, ms[0], X), true, depth + 1);
      MinOverBounds(b, ms[1..], depth, Min(best, v));
    }
  }

  /**
   * Between depth 0 and the depth limit every alpha-beta value lies in [-100000, 100000],
   * whatever the window: the sentinels -1000000 and 1000000 never tie with a score.
   */
  lemma {:induction false} AlphaBetaBounds(b: Board, isMax: bool, depth: int, alpha: int, beta: int)
    requires 0 <= depth <= DepthLimit
    ensures -WinScore <= AlphaBeta(b, isMax, depth, alpha, beta) <= WinScore
    decreases EmptyCells(b), 1, 0
  {
    if Terminal(b, depth) == None {
      NonTerminalHasMoves(b, depth);
      if isMax {
        AlphaBetaMaxBounds(b, Moves(b), depth, alpha, beta, MinusInfinity);
      } else {
        AlphaBetaMinBounds(b, Moves(b), depth, alpha, beta, PlusInfinity);
      }
    }
  }

  lemma {:induction false} AlphaBetaMaxBounds(b: Board, ms: seq<(int, int)>, depth: int, alpha: int, beta: int, best: int)
    requires AllOpen(b, ms) && 0 <= depth < DepthLimit && best <= WinScore
    ensures AlphaBetaMax(b, ms, depth, alpha, beta, best) <= WinScore
    ensures ms != [] || best >= -WinScore ==> AlphaBetaMax(b, ms, depth, alpha, beta, best) >= -WinScore
    decreases EmptyCells(b), 0, |ms|
  {
    if ms != [] {
      var score := AlphaBeta(Play(b, ms[0], O), false, depth + 1, alpha, beta);
      AlphaBetaBounds(Play(b, ms[0], O), false, depth + 1, alpha, beta);
      var best' := if score > best then score else best;
      var alpha' := Max(alpha, best');
      if beta > alpha' {
        AlphaBetaMaxBounds(b, ms[1..], depth, alpha', beta, best');
      }
    }
  }

  lemma {:induction false} AlphaBetaMinBounds(b: Board, ms: seq<(int, int)>, depth: int, alpha: int, beta: int, best: int)
    requires AllOpen(b, ms) && 0 <= depth < DepthLimit && best >= -WinScore
    ensures AlphaBetaMin(b, ms, depth, alpha, beta, best) >= -WinScore
    ensures ms != [] || best <= WinScore ==> AlphaBetaMin(b, ms, depth, alpha, beta, best) <= WinScore
    decreases EmptyCells(b), 0, |ms|
  {
    if ms != [] {
      var score := AlphaBeta(Play(b, ms[0], X), true, depth + 1, alpha, beta);
      AlphaBetaBounds(Play(b, ms[0], X), true, depth + 1, alpha, beta);
      var best' := if score < best then score else best;
      var beta' := Min(beta, best');
      if beta' > alpha {
        AlphaBetaMinBounds(b, ms[1..], depth, alpha, beta', best');
      }
    }
  }

  /**
   * Called with the full window (-Infinity, +Infinity), as `findBestMove` calls it,
   * alpha-beta returns exactly the unpruned minimax value.
   */
  lemma FullWindowIsMinimax(b: Board, isMax: bool, depth: int)
    requires 0 <= depth <= DepthLimit
    ensures AlphaBeta(b, isMax, depth, MinusInfinity, PlusInfinity) == MinimaxValue(b, isMax, depth)
  {
    AlphaBetaAgrees(b, isMax, depth, MinusInfinity, PlusInfinity);
    MinimaxBounds(b, isMax, depth);
  }

  /**
   * The root loop ends on the first index holding the highest score, provided every
   * score beats -Infinity and the state so far is what the loop keeps.
   */
  lemma {:induction false} FirstBestSpec(scores: seq<int>, i: nat, bestScore: int, best: int)
    requires i <= |scores| && -1 <= best < |scores| && |scores| > 0
    requires forall k :: 0 <= k < |scores| ==> scores[k] > MinusInfinity
    requires best == -1 ==> i == 0 && bestScore == MinusInfinity
    requires best != -1 ==>
               (best < i && bestScore == scores[best] &&
                (forall k :: 0 <= k < best ==> scores[k] < bestScore) &&
                (forall k :: 0 <= k < i ==> scores[k] <= bestScore))
    ensures var r := FirstBest(scores, i, bestScore, best);
            0 <= r < |scores| &&
            (forall k :: 0 <= k < r ==> scores[k] < scores[r]) &&
            (forall k :: 0 <= k < |scores| ==> scores[k] <= scores[r])
    decreases |scores| - i
  {
    if i < |scores| {
      if scores[i] > bestScore {
        FirstBestSpec(scores, i + 1, scores[i], i);
      } else {
        FirstBestSpec(scores, i + 1, bestScore, best);
      }
    }
  }

  /**
   * `findBestMove` returns `[]` exactly on a full board; otherwise it picks an open cell
   * whose minimax score is the highest of all moves and strictly higher than that of
   * every move before it in row-major order.
   */
  lemma BestMoveSpec(b: Board)
    ensures BestMove(b) == None <==> None !in b
    ensures BestMove(b).Some? ==>
              var ms := Moves(b);
              var j := FirstBest(RootScores(b), 0, MinusInfinity, -1);
              0 <= j < |ms| && BestMove(b) == Some(ms[j]) && Open(b, ms[j]) &&
              (forall k :: 0 <= k < |ms| ==>
                 MinimaxValue(Play(b, ms[k], O), false, 1) <= MinimaxValue(Play(b, ms[j], O), false, 1)) &&
              (forall k :: 0 <= k < j ==>
                 MinimaxValue(Play(b, ms[k], O), false, 1) < MinimaxValue(Play(b, ms[j], O), false, 1))
  {
    MovesSpec(b);
    var ms := Moves(b);
    if ms != [] {
      var scores := RootScores(b);
      forall k | 0 <= k < |ms|
        ensures scores[k] == MinimaxValue(Play(b, ms[k], O), false, 1) && scores[k] > MinusInfinity
      {
        FullWindowIsMinimax(Play(b, ms[k], O), false, 1);
        MinimaxBounds(Play(b, ms[k], O), false, 1);
      }
      FirstBestSpec(scores, 0, MinusInfinity, -1);
    }
  }
}
