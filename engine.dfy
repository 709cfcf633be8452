/**
 * The engine of src/test.ts over its global `gameboard`: a Game owns the 3x3 array and
 * its methods scan it with the source's loops and counters, write moves into it and
 * undo them, each proved against the board-value functions of Boards, Evaluation and
 * Search. The board helpers of src/test.js are the same code and are modelled here too.
 */
module Engine {
  import opened Wrappers
  import opened MoveCodec
  import opened Boards
  import opened Evaluation
  import opened Search

  class Game {
    /** `gameboard`: board[row, column]. */
    var board: array2<Cell>
    /** The same board as a value, row by row. */
    ghost var cells: Board

    /** The array is 3x3 and cell (i, j) of it is cell 3 * i + j of `cells`. */
    ghost predicate Valid()
      reads this, board
    {
      && board.Length0 == 3 && board.Length1 == 3
      && forall i, j :: 0 <= i < 3 && 0 <= j < 3 ==> board[i, j] == cells[3 * i + j]
    }

    /** `gameboard[x][y] = c`, with the board value kept in step. */
    method Write(x: int, y: int, c: Cell)
      requires Valid() && 0 <= x < 3 && 0 <= y < 3
      modifies this, board
      ensures Valid() && board == old(board) && cells == old(cells)[3 * x + y := c]
    {
      board[x, y] := c;
      cells := cells[3 * x + y := c];
    }

    /** A game on the given starting board (InitialBoard for src/test.ts). */
    constructor (init: Board)
      ensures Valid() && fresh(board) && cells == init
    {
      board := new Cell[3, 3]((i, j) requires 0 <= i < 3 && 0 <= j < 3 => init[3 * i + j]);
      cells := init;
    }

    /** isLegalMove(x, y): the cell is `undefined`; a column off the board reads `undefined` too. */
    method IsLegalMove(x: int, y: int) returns (legal: bool)
      requires Valid() && 0 <= x < 3
      ensures legal <==> !(0 <= y < 3) || Open(cells, (x, y))
    {
      if 0 <= y < board.Length1 {
        legal := board[x, y] == None;
      } else {
        legal := true;
      }
    }

    /**
     * placeMove(move, player): writes player into the decoded cell and answers true only
     * when the cell is on the board and empty; otherwise answers false and writes nothing.
     */
    method PlaceMove(move: string, player: Player) returns (placed: bool)
      requires Valid()
      modifies this, board
      ensures Valid() && board == old(board)
      ensures var (x, y) := DecipherMove(move);
              placed <==> y.Some? && Open(old(cells), (x, y.value))
      ensures var (x, y) := DecipherMove(move);
              cells == if placed then Play(old(cells), (x, y.value), player) else old(cells)
    {
      var (x, y) := DecipherMove(move);
      if 0 <= x < board.Length0 && y.Some? && 0 <= y.value < board.Length1 {
        var legal := IsLegalMove(x, y.value);
        if legal {
          Write(x, y.value, Some(player));
          placed := true;
        } else {
          placed := false;  // "Illegal move - Not empty"
        }
      } else {
        placed := false;  // "Invalid move"; NaN fails every comparison
      }
    }

    /** isWinState(): the four scans with their `x`/`o` counters, in the source's order. */
    method IsWinState() returns (winner: Option<Player>)
      requires Valid()
      ensures winner == Winner(cells)
    {
      ghost var b := cells;
      for i := 0 to 3
        invariant WinnerFrom(b, i) == Winner(b)
      {
        var xs, os := 0, 0;
        for z := 0 to 3
          invariant xs == LineCount(b, i, z, X)
          invariant os == LineCount(b, i, z, O)
        {
          var cell := board[i, z];
          if cell == Some(X) {
            xs := xs + 1;
            continue;
          }
          if cell == Some(O) {
            os := os + 1;
          }
        }
        LineCountComplete(b, i, X);
        LineCountComplete(b, i, O);
        if xs == 3 {
          return Some(X);
        }
        if os == 3 {
          return Some(O);
        }
      }
      for i := 0 to 3
        invariant WinnerFrom(b, 3 + i) == Winner(b)
      {
        var xs, os := 0, 0;
        for z := 0 to 3
          invariant xs == LineCount(b, 3 + i, z, X)
          invariant os == LineCount(b, 3 + i, z, O)
        {
          var cell := board[z, i];
          if cell == Some(X) {
            xs := xs + 1;
          }
          if cell == Some(O) {
            os := os + 1;
          }
        }
        LineCountComplete(b, 3 + i, X);
        LineCountComplete(b, 3 + i, O);
        if xs == 3 {
          return Some(X);
        }
        if os == 3 {
          return Some(O);
        }
      }
      var xs, os := 0, 0;
      for i := 0 to 3
        invariant xs == LineCount(b, 6, i, X)
        invariant os == LineCount(b, 6, i, O)
        invariant xs < 3 && os < 3
      {
        var cell := board[i, i];
        if cell == Some(X) {
          xs := xs + 1;
        }
        if cell == Some(O) {
          os := os + 1;
        }
        if xs == 3 {
          LineCountComplete(b, 6, X);
          return Some(X);
        }
        if os == 3 {
          LineCountComplete(b, 6, O);
          return Some(O);
        }
      }
      LineCountComplete(b, 6, X);
      LineCountComplete(b, 6, O);
      assert WinnerFrom(b, 7) == Winner(b);
      xs, os := 0, 0;
      for i := 0 to 3
        invariant xs == LineCount(b, 7, i, X)
        invariant os == LineCount(b, 7, i, O)
        invariant xs < 3 && os < 3
      {
        var cell := board[i, 2 - i];
        if cell == Some(X) {
          xs := xs + 1;
        }
        if cell == Some(O) {
          os := os + 1;
        }
        if xs == 3 {
          LineCountComplete(b, 7, X);
          return Some(X);
        }
        if os == 3 {
          LineCountComplete(b, 7, O);
          return Some(O);
        }
      }
      LineCountComplete(b, 7, X);
      LineCountComplete(b, 7, O);
      assert WinnerFrom(b, 8) == Winner(b);
      return None;
    }

    /** isStalemate(): `undefined` (None) when there is a winner, else whether no cell is empty. */
    method IsStalemate() returns (stalemate: Option<bool>)
      requires Valid()
      ensures stalemate == Stalemate(cells)
    {
      ghost var b := cells;
      var winner := IsWinState();
      if winner == None {
        for i := 0 to 3
          invariant forall k :: 0 <= k < 3 * i ==> b[k] != None
        {
          for z := 0 to 3
            invariant forall k :: 0 <= k < 3 * i + z ==> b[k] != None
          {
            if board[i, z] == None {
              return Some(false);
            }
          }
        }
        return Some(true);
      }
      stalemate := None;
    }

    /** clearBoard(): a fresh board of `undefined` cells. */
    method ClearBoard()
      modifies this
      ensures Valid() && fresh(board) && cells == EmptyBoard
    {
      board := new Cell[3, 3]((i, j) => None);
      cells := EmptyBoard;
    }

    /** availableMoves(): the empty cells, row by row. */
    method AvailableMoves() returns (moves: seq<(int, int)>)
      requires Valid()
      ensures moves == Moves(cells)
    {
      ghost var b := cells;
      moves := [];
      for i := 0 to 3
        invariant moves == EmptyBefore(b, 3 * i)
      {
        for z := 0 to 3
          invariant moves == EmptyBefore(b, 3 * i + z)
        {
          assert (3 * i + z) / 3 == i && (3 * i + z) % 3 == z;
          if board[i, z] == None {
            moves := moves + [(i, z)];
          }
        }
      }
    }

    /** positionValueRow(player): looks three times at each cell of the top row. */
    method PositionValueRow(player: Player) returns (value: int)
      requires Valid()
      ensures value == RowValue(cells, player, 3)
    {
      ghost var b := cells;
      value := 0;
      var enemy := Other(player);
      var playerCount, enemyCount := 0, 0;
      for i := 0 to 3
        invariant value == RowValue(b, player, i)
        invariant playerCount == 0 && enemyCount == 0
      {
        for z := 0 to 3
          invariant playerCount == if b[i] == Some(player) then z else 0
          invariant enemyCount == if b[i] == Some(enemy) then z else 0
          invariant value == RowValue(b, player, i) + 10 * Tri(playerCount) - 5 * Tri(enemyCount)
        {
          if board[0, i] == Some(player) {
            playerCount := playerCount + 1;
            value := value + 10 * playerCount;
          }
          if board[0, i] == Some(enemy) {
            enemyCount := enemyCount + 1;
            value := value - 5 * enemyCount;
          }
        }
        playerCount := 0;
        enemyCount := 0;
      }
    }

    /** positionValueColumn(player): scans each column top to bottom. */
    method PositionValueColumn(player: Player) returns (value: int)
      requires Valid()
      ensures value == ColumnValue(cells, player, 3)
    {
      ghost var b := cells;
      value := 0;
      var enemy := Other(player);
      var playerCount, enemyCount := 0, 0;
      for i := 0 to 3
        invariant value == ColumnValue(b, player, i)
        invariant playerCount == 0 && enemyCount == 0
      {
        for z := 0 to 3
          invariant playerCount == LineCount(b, 3 + i, z, player)
          invariant enemyCount == LineCount(b, 3 + i, z, enemy)
          invariant value == ColumnValue(b, player, i) + 10 * Tri(playerCount) - 5 * Tri(enemyCount)
        {
          if board[z, i] == Some(player) {
            playerCount := playerCount + 1;
            value := value + 10 * playerCount;
          }
          if board[z, i] == Some(enemy) {
            enemyCount := enemyCount + 1;
            value := value - 5 * enemyCount;
          }
        }
        playerCount := 0;
        enemyCount := 0;
      }
    }

    /** positionValueDiagonalLeft(player): scans board[i, i]. */
    method PositionValueDiagonalLeft(player: Player) returns (value: int)
      requires Valid()
      ensures value == LineValue(cells, 6, player)
    {
      ghost var b := cells;
      value := 0;
      var enemy := Other(player);
      var playerCount, enemyCount := 0, 0;
      for i := 0 to 3
        invariant playerCount == LineCount(b, 6, i, player)
        invariant enemyCount == LineCount(b, 6, i, enemy)
        invariant value == 10 * Tri(playerCount) - 5 * Tri(enemyCount)
      {
        if board[i, i] == Some(player) {
          playerCount := playerCount + 1;
          value := value + 10 * playerCount;
        }
        if board[i, i] == Some(enemy) {
          enemyCount := enemyCount + 1;
          value := value - 5 * enemyCount;
        }
      }
    }

    /** positionValueDiagonalRight(player): scans board[i, 2 - i]. */
    method PositionValueDiagonalRight(player: Player) returns (value: int)
      requires Valid()
      ensures value == LineValue(cells, 7, player)
    {
      ghost var b := cells;
      value := 0;
      var enemy := Other(player);
      var playerCount, enemyCount := 0, 0;
      for i := 0 to 3
        invariant playerCount == LineCount(b, 7, i, player)
        invariant enemyCount == LineCount(b, 7, i, enemy)
        invariant value == 10 * Tri(playerCount) - 5 * Tri(enemyCount)
      {
        if board[i, 2 - i] == Some(player) {
          playerCount := playerCount + 1;
          value := value + 10 * playerCount;
        }
        if board[i, 2 - i] == Some(enemy) {
          enemyCount := enemyCount + 1;
          value := value - 5 * enemyCount;
        }
      }
    }

    /**
     * totalPositionValue(player): the heuristic sum, then a win (100000), a loss
     * (-100000), a stalemate (0), a positive sum, or `null` (None).
     */
    method TotalPositionValue(player: Player) returns (result: Option<int>)
      requires Valid()
      ensures result == TotalValue(cells, player)
    {
      var value := 0;
      var v := PositionValueRow(player);
      value := value + v;
      v := PositionValueColumn(player);
      value := value + v;
      v := PositionValueDiagonalLeft(player);
      value := value + v;
      v := PositionValueDiagonalRight(player);
      value := value + v;
      var winner := IsWinState();
      if winner.Some? {
        if winner.value == player {
          return Some(WinScore);
        } else {
          return Some(-WinScore);
        }
      }
      var stalemate := IsStalemate();
      if stalemate == Some(true) {
        return Some(0);
      }
      if value > 0 {
        return Some(value);
      }
      return None;
    }

    /**
     * minimax(isMax, depth, alpha, beta): the three terminal checks, then the loop of
     * the side to move. Every move is written into the board, searched and undone, so
     * the board ends as it began; the value is AlphaBeta of that board.
     */
    method Minimax(isMax: bool, depth: int, alpha: int, beta: int) returns (score: int)
      requires Valid()
      modifies this, board
      ensures Valid() && board == old(board) && cells == old(cells)
      ensures score == AlphaBeta(old(cells), isMax, depth, alpha, beta)
      decreases EmptyCells(cells), 1
    {
      var winner := TotalPositionValue(O);
      if winner == Some(WinScore) {
        return WinScore - depth;
      }
      if winner == Some(-WinScore) {
        return -WinScore + depth;
      }
      if winner == Some(0) || depth >= DepthLimit {
        return 0;
      }
      var moves := AvailableMoves();
      if isMax {
        score := MaximizingLoop(moves, depth, alpha, beta);
      } else {
        score := MinimizingLoop(moves, depth, alpha, beta);
      }
    }

    /**
     * The `isMax` branch of minimax: 'o' tries each move, best and alpha rise, and the
     * loop stops once beta <= alpha.
     */
    method MaximizingLoop(moves: seq<(int, int)>, depth: int, alpha: int, beta: int) returns (best: int)
      requires Valid() && AllOpen(cells, moves)
      modifies this, board
      ensures Valid() && board == old(board) && cells == old(cells)
      ensures best == AlphaBetaMax(old(cells), moves, depth, alpha, beta, MinusInfinity)
      decreases EmptyCells(cells), 0
    {
      ghost var b := cells;
      var a := alpha;
      best := MinusInfinity;
      var i := 0;
      while i < |moves|
        invariant 0 <= i <= |moves|
        invariant Valid() && board == old(board) && cells == b
        invariant AlphaBetaMax(b, moves, depth, alpha, beta, MinusInfinity) ==
                  AlphaBetaMax(b, moves[i..], depth, a, beta, best)
      {
        var (x, y) := moves[i];
        Write(x, y, Some(O));
        var s := Minimax(false, depth + 1, a, beta);
        Write(x, y, None);
        AlphaBetaMaxNext(b, moves, i, depth, a, beta, best, s);
        if s > best {
          best := s;
        }
        a := Max(a, best);
        if beta <= a {
          break;
        }
        i := i + 1;
      }
    }

    /**
     * The other branch of minimax: 'x' tries each move, best and beta fall, and the
     * loop stops once beta <= alpha.
     */
    method MinimizingLoop(moves: seq<(int, int)>, depth: int, alpha: int, beta: int) returns (best: int)
      requires Valid() && AllOpen(cells, moves)
      modifies this, board
      ensures Valid() && board == old(board) && cells == old(cells)
      ensures best == AlphaBetaMin(old(cells), moves, depth, alpha, beta, PlusInfinity)
      decreases EmptyCells(cells), 0
    {
      ghost var b := cells;
      var bt := beta;
      best := PlusInfinity;
      var i := 0;
      while i < |moves|
        invariant 0 <= i <= |moves|
        invariant Valid() && board == old(board) && cells == b
        invariant AlphaBetaMin(b, moves, depth, alpha, beta, PlusInfinity) ==
                  AlphaBetaMin(b, moves[i..], depth, alpha, bt, best)
      {
        var (x, y) := moves[i];
        Write(x, y, Some(X));
        var s := Minimax(true, depth + 1, alpha, bt);
        Write(x, y, None);
        AlphaBetaMinNext(b, moves, i, depth, alpha, bt, best, s);
        if s < best {
          best := s;
        }
        bt := Min(bt, best);
        if bt <= alpha {
          break;
        }
        i := i + 1;
      }
    }

    /**
     * findBestMove(): tries every open cell for 'o' with placeMove, scores it with the
     * full-window minimax, clears the cell, and returns the encoding of the first move
     * with the strictly highest score (None for `[]` on a full board).
     */
    method FindBestMove() returns (result: Option<string>)
      requires Valid()
      modifies this, board
      ensures Valid() && board == old(board) && cells == old(cells)
      ensures result == match BestMove(old(cells))
                        case None => None
                        case Some(m) => Some(EncodeMove(m.0, m.1))
    {
      ghost var b := cells;
      var bestScore := MinusInfinity;
      var bestMove := (-99, -99);
      ghost var best := -1;
      var moves := AvailableMoves();
      if |moves| == 0 {
        return None;  // "No moves available"
      }
      ghost var scores := RootScores(b);
      for i := 0 to |moves|
        invariant Valid() && board == old(board) && cells == b
        invariant -1 <= best < |moves|
        invariant FirstBest(scores, 0, MinusInfinity, -1) == FirstBest(scores, i, bestScore, best)
        invariant bestMove == if best < 0 then (-99, -99) else moves[best]
      {
        var (x, y) := moves[i];
        var encodedMove := EncodeMove(x, y);
        RoundTrip(x, y);
        var _ := PlaceMove(encodedMove, O);
        assert cells == Play(b, moves[i], O);
        var score := Minimax(false, 1, MinusInfinity, PlusInfinity);
        assert score == scores[i];
        Write(x, y, None);
        if score > bestScore {
          bestScore := score;
          bestMove := (x, y);
          best := i;
        }
      }
      return Some(EncodeMove(bestMove.0, bestMove.1));
    }
  }
}
