/**
 * The static evaluation of src/test.ts: the line heuristic of the four
 * `positionValue*` routines and `totalPositionValue`, which lets a win, a loss or a
 * stalemate take precedence over it.
 */
module Evaluation {
  import opened Wrappers
  import opened Boards

  /** The score of a won position (and, negated, of a lost one). */
  const WinScore: int := 100000

  /** 1 + 2 + ... + n: the total a counter adds when it is bumped n times and added each time. */
  function Tri(n: nat): nat
  {
    if n == 0 then 0 else Tri(n - 1) + n
  }

  /**
   * One scan of line l by a `positionValue*` loop: the k-th own piece met adds 10 * k,
   * the k-th enemy piece met subtracts 5 * k.
   */
  function LineValue(b: Board, l: nat, p: Player): int
    requires l < 8
  {
    10 * Tri(LineCount(b, l, 3, p)) - 5 * Tri(LineCount(b, l, 3, Other(p)))
  }

  /** A scan that meets the same cell c three times. */
  function RepeatedCellValue(c: Cell, p: Player): int
  {
    10 * Tri(if c == Some(p) then 3 else 0) - 5 * Tri(if c == Some(Other(p)) then 3 else 0)
  }

  /**
   * positionValueRow: for each i the inner loop looks three times at gameboard[0][i],
   * so only the top row is ever read.
   */
  function RowValue(b: Board, p: Player, n: nat): int
    requires n <= 3
  {
    if n == 0 then 0 else RowValue(b, p, n - 1) + RepeatedCellValue(b[n - 1], p)
  }

  /** positionValueColumn: the scans of the first n columns. */
  function ColumnValue(b: Board, p: Player, n: nat): int
    requires n <= 3
  {
    if n == 0 then 0 else ColumnValue(b, p, n - 1) + LineValue(b, 3 + (n - 1), p)
  }

  /** The sum `totalPositionValue` accumulates before it looks for a winner. */
  function Heuristic(b: Board, p: Player): int
  {
    RowValue(b, p, 3) + ColumnValue(b, p, 3) + LineValue(b, 6, p) + LineValue(b, 7, p)
  }

  /**
   * totalPositionValue(p): a win for p, a loss, a stalemate, the heuristic when it is
   * positive, and None (`null`) otherwise.
   */
  function TotalValue(b: Board, p: Player): Option<int>
  {
    var w := Winner(b);
    if w.Some? then Some(if w.value == p then WinScore else -WinScore)
    else if Stalemate(b) == Some(true) then Some(0)
    else if Heuristic(b, p) > 0 then Some(Heuristic(b, p))
    else None
  }

  /** What one top-row cell is worth to positionValueRow. */
  function TopCellValue(c: Cell, p: Player): int
  {
    if c == Some(p) then 60 else if c == Some(Other(p)) then -30 else 0
  }

  // ---------------------------------------------------------------- lemmas

  /** A line is worth between -30 and 60, and 60 exactly when p holds all three cells. */
  lemma LineValueBounds(b: Board, l: nat, p: Player)
    requires l < 8
    ensures -30 <= LineValue(b, l, p) <= 60
    ensures LineValue(b, l, p) == 60 <==> Complete(b, l, p)
  {
    LineCountBoth(b, l, 3, p);
    LineCountComplete(b, l, p);
    assert Tri(1) == 1 && Tri(2) == 3 && Tri(3) == 6;
  }

  /** positionValueRow rewards only the top row: 60 per own piece there, -30 per enemy piece. */
  lemma RowValueReadsTopRow(b: Board, p: Player)
    ensures RowValue(b, p, 3) == TopCellValue(b[0], p) + TopCellValue(b[1], p) + TopCellValue(b[2], p)
  {
    RepeatedCellIsTop(b[0], p);
    RepeatedCellIsTop(b[1], p);
    RepeatedCellIsTop(b[2], p);
    assert RowValue(b, p, 1) == RepeatedCellValue(b[0], p);
    assert RowValue(b, p, 2) == RowValue(b, p, 1) + RepeatedCellValue(b[1], p);
  }

  /** Three looks at one cell: 10 + 20 + 30 for an own piece, -(5 + 10 + 15) for an enemy one. */
  lemma RepeatedCellIsTop(c: Cell, p: Player)
    ensures RepeatedCellValue(c, p) == TopCellValue(c, p)
  {
    assert Tri(3) == 6;
  }

  /** positionValueColumn: between -90 and 180. */
  lemma {:induction false} ColumnValueBounds(b: Board, p: Player, n: nat)
    requires n <= 3
    ensures -30 * n <= ColumnValue(b, p, n) <= 60 * n
  {
    if n > 0 {
      ColumnValueBounds(b, p, n - 1);
      LineValueBounds(b, 3 + (n - 1), p);
    }
  }

  /** The heuristic stays within [-240, 480]: it can never be mistaken for a win or a loss. */
  lemma HeuristicBounds(b: Board, p: Player)
    ensures -240 <= Heuristic(b, p) <= 480
  {
    RowValueReadsTopRow(b, p);
    ColumnValueBounds(b, p, 3);
    LineValueBounds(b, 6, p);
    LineValueBounds(b, 7, p);
  }

  /**
   * totalPositionValue(p) is 100000 exactly when p is the reported winner, -100000
   * exactly when the opponent is, 0 exactly on a stalemate, and otherwise the heuristic,
   * a value in 1..480, or `null` when the heuristic is not positive.
   */
  lemma TotalValueSpec(b: Board, p: Player)
    ensures TotalValue(b, p) == Some(WinScore) <==> Winner(b) == Some(p)
    ensures TotalValue(b, p) == Some(-WinScore) <==> Winner(b) == Some(Other(p))
    ensures TotalValue(b, p) == Some(0) <==> !HasLine(b, X) && !HasLine(b, O) && None !in b
    ensures TotalValue(b, p) == None <==> Winner(b) == None && None in b && Heuristic(b, p) <= 0
    ensures Winner(b) == None && None in b && TotalValue(b, p).Some? ==>
              0 < TotalValue(b, p).value <= 480
  {
    HeuristicBounds(b, p);
    StalemateSpec(b);
    WinnerSpec(b);
    if Winner(b).Some? && Winner(b) != Some(p) {
      assert Winner(b).value == Other(p);
    }
  }
}
