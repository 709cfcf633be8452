/**
 * The older engine of src/test.js. Its board helpers are those of src/test.ts (the
 * Game class), but `totalPositionValue` has its heuristic sums commented out, and
 * `minimax` has neither depth nor alpha-beta window. With only three possible
 * values left, every call of `minimax` stops at one of its terminal checks, so the
 * root picks the first move that wins outright for 'o', and otherwise the first
 * open cell.
 */
module LegacyEngine {
  import opened Wrappers
  import opened MoveCodec
  import opened Boards
  import opened Evaluation
  import opened Search
  import opened Engine

  // ---------------------------------------------------------------- specification

  /** `totalPositionValue(player)`: 100000 for a win, -100000 for a loss, reset to 0 on a stalemate. */
  function LegacyValue(b: Board, p: Player): int
  {
    var value := match Winner(b)
      case Some(w) => if w == p then WinScore else -WinScore
      case None => 0;
    if Stalemate(b) == Some(true) then 0 else value
  }

  /** 'o' taking m completes a line and is then the reported winner. */
  predicate WinsFor(b: Board, m: (int, int))
    requires Open(b, m)
  {
    Winner(Play(b, m, O)) == Some(O)
  }

  /** The score `findBestMove` gets for each move: `minimax(false)` after 'o' takes it. */
  function LegacyScores(b: Board): (scores: seq<int>)
    ensures |scores| == |Moves(b)|
  {
    var ms := Moves(b);
    seq(|ms|, i requires 0 <= i < |ms| => LegacyValue(Play(b, ms[i], O), O))
  }

  /** What `findBestMove` picks: None (`[]`) on a full board, else the move it encodes. */
  function LegacyBestMove(b: Board): Option<(int, int)>
  {
    var ms := Moves(b);
    if ms == [] then None
    else
      var j := FirstBest(LegacyScores(b), 0, MinusInfinity, -1);
      Some(if j < 0 then (-99, -99) else ms[j])
  }

  // ---------------------------------------------------------------- lemmas

  /** The value is exactly one of a win, a loss and 0, as the reported winner says. */
  lemma LegacyValueSpec(b: Board, p: Player)
    ensures LegacyValue(b, p) == WinScore <==> Winner(b) == Some(p)
    ensures LegacyValue(b, p) == -WinScore <==> Winner(b) == Some(Other(p))
    ensures LegacyValue(b, p) == 0 <==> Winner(b) == None
  {
  }

  /**
   * The src/test.js evaluation is the src/test.ts one without its heuristic: both report
   * the same win and loss, and everything else, a stalemate or a positive sum or `null`
   * alike, is 0.
   */
  lemma LegacyDropsHeuristic(b: Board, p: Player)
    ensures TotalValue(b, p) == Some(WinScore) || TotalValue(b, p) == Some(-WinScore) ==>
              TotalValue(b, p) == Some(LegacyValue(b, p))
    ensures TotalValue(b, p) != Some(WinScore) && TotalValue(b, p) != Some(-WinScore) ==>
              LegacyValue(b, p) == 0
  {
    TotalValueSpec(b, p);
    LegacyValueSpec(b, p);
  }

  /**
   * A move that does not win for 'o' scores -100000 when 'x' already holds a line
   * (that line survives the move), and 0 otherwise (an 'o' move cannot give 'x' a line).
   */
  lemma NonWinningScore(b: Board, m: (int, int))
    requires Open(b, m) && !WinsFor(b, m)
    ensures LegacyValue(Play(b, m, O), O) == if HasLine(b, X) then -WinScore else 0
  {
    var r := Play(b, m, O);
    PlayKeepsOtherLines(b, m, O);
    WinnerSpec(r);
    LegacyValueSpec(r, O);
  }

  /**
   * `findBestMove` of src/test.js returns `[]` exactly on a full board; otherwise the
   * first open cell, in row-major order, where 'o' wins at once, or the first open
   * cell when there is none.
   */
  lemma LegacyBestMoveSpec(b: Board)
    ensures LegacyBestMove(b) == None <==> None !in b
    ensures LegacyBestMove(b).Some? ==>
              var ms := Moves(b);
              exists j :: 0 <= j < |ms| && LegacyBestMove(b) == Some(ms[j]) &&
                (forall k :: 0 <= k < j ==> !WinsFor(b, ms[k])) &&
                (WinsFor(b, ms[j]) || (j == 0 && forall k :: 0 <= k < |ms| ==> !WinsFor(b, ms[k])))
  {
    MovesSpec(b);
    var ms := Moves(b);
    if ms != [] {
      var scores := LegacyScores(b);
      var c := if HasLine(b, X) then -WinScore else 0;
      forall k | 0 <= k < |ms|
        ensures scores[k] == if WinsFor(b, ms[k]) then WinScore else c
      {
        if WinsFor(b, ms[k]) {
          LegacyValueSpec(Play(b, ms[k], O), O);
        } else {
          NonWinningScore(b, ms[k]);
        }
      }
      FirstBestSpec(scores, 0, MinusInfinity, -1);
      var j := FirstBest(scores, 0, MinusInfinity, -1);
      assert LegacyBestMove(b) == Some(ms[j]);
    }
  }

  // ---------------------------------------------------------------- the engine

  /** `totalPositionValue(player)` of src/test.js over the game's board. */
  method TotalPositionValue(game: Game, player: Player) returns (value: int)
    requires game.Valid()
    ensures value == LegacyValue(game.cells, player)
  {
    value := 0;
    var winner := game.IsWinState();
    if winner.Some? {
      if winner.value == player {
        value := WinScore;
      } else {
        value := -WinScore;
      }
    }
    var stalemate := game.IsStalemate();
    if stalemate == Some(true) {
      value := 0;
    }
  }

  /**
   * `minimax(isMax)` of src/test.js: one of its three terminal checks always holds, so it
   * returns the value of the board it is given and never writes into the board.
   */
  method Minimax(game: Game, isMax: bool) returns (score: int)
    requires game.Valid()
    ensures score == LegacyValue(game.cells, O)
    ensures score == WinScore || score == -WinScore || score == 0
  {
    var winner := TotalPositionValue(game, O);
    if winner == WinScore {
      return winner;
    }
    if winner == -WinScore {
      return winner;
    }
    if winner == 0 {
      return 0;
    }
    assert false;
  }

  /**
   * `findBestMove()` of src/test.js: places 'o' on each open cell with placeMove, scores
   * it with `minimax(false)`, clears the cell, and returns the encoding of the first
   * move with the strictly highest score (None for `[]` on a full board).
   */
  method FindBestMove(game: Game) returns (result: Option<string>)
    requires game.Valid()
    modifies game, game.board
    ensures game.Valid() && game.board == old(game.board) && game.cells == old(game.cells)
    ensures result == match LegacyBestMove(old(game.cells))
                      case None => None
                      case Some(m) => Some(EncodeMove(m.0, m.1))
  {
    ghost var b := game.cells;
    var bestScore := MinusInfinity;
    var bestMove := (-99, -99);
    ghost var best := -1;
    var moves := game.AvailableMoves();
    if |moves| == 0 {
      return None;  // "No moves available"
    }
    ghost var scores := LegacyScores(b);
    for i := 0 to |moves|
      invariant game.Valid() && game.board == old(game.board) && game.cells == b
      invariant -1 <= best < |moves|
      invariant FirstBest(scores, 0, MinusInfinity, -1) == FirstBest(scores, i, bestScore, best)
      invariant bestMove == if best < 0 then (-99, -99) else moves[best]
    {
      var (x, y) := moves[i];
      var encodedMove := EncodeMove(x, y);
      RoundTrip(x, y);
      var _ := game.PlaceMove(encodedMove, O);
      assert game.cells == Play(b, moves[i], O);
      var score := Minimax(game, false);
      assert score == scores[i];
      game.Write(x, y, None);
      if score > bestScore {
        bestScore := score;
        bestMove := (x, y);
        best := i;
      }
    }
    return Some(EncodeMove(bestMove.0, bestMove.1));
  }
}
