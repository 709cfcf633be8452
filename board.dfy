/**
 * The tic-tac-toe board as a value: who holds each cell, the eight lines,
 * the winner `isWinState` reports, the stalemate test and the open cells.
 */
module Boards {
  import opened Wrappers

  datatype Player = X | O

  /** The opponent (`enemy` in the heuristic). */
  function Other(p: Player): (q: Player)
    ensures q != p
  {
    if p == X then O else X
  }

  /** A cell of `gameboard`: None is `undefined`. */
  type Cell = Option<Player>

  /** The 3x3 board flattened row by row: cell (row, column) is at 3 * row + column. */
  type Board = b: seq<Cell> | |b| == 9 witness [None, None, None, None, None, None, None, None, None]

  /** The board `clearBoard` installs. */
  const EmptyBoard: Board := [None, None, None, None, None, None, None, None, None]

  /** The board src/test.ts starts from. */
  const InitialBoard: Board := [Some(O), Some(O), Some(O), None, Some(X), None, None, None, Some(X)]

  /** The board src/test.js starts from. */
  const LegacyInitialBoard: Board := [Some(O), None, Some(X), None, None, None, Some(X), None, None]

  /** The flat index of a (row, column) move. */
  function Index(m: (int, int)): int
  {
    3 * m.0 + m.1
  }

  /** A move that is on the board and lands on an empty cell. */
  predicate Open(b: Board, m: (int, int))
  {
    0 <= m.0 < 3 && 0 <= m.1 < 3 && b[Index(m)] == None
  }

  predicate AllOpen(b: Board, ms: seq<(int, int)>)
  {
    forall i :: 0 <= i < |ms| ==> Open(b, ms[i])
  }

  /** The set of empty cells: it shrinks with every move, which bounds the search. */
  function EmptyCells(b: Board): set<int>
  {
    set k | 0 <= k < 9 && b[k] == None
  }

  /** The board after `player` takes the open cell m. */
  function Play(b: Board, m: (int, int), p: Player): (r: Board)
    requires Open(b, m)
    ensures r[Index(m)] == Some(p)
    ensures forall k :: 0 <= k < 9 && k != Index(m) ==> r[k] == b[k]
    ensures EmptyCells(r) < EmptyCells(b)
  {
    var r := b[Index(m) := Some(p)];
    assert Index(m) in EmptyCells(b) - EmptyCells(r);
    r
  }

  // ---------------------------------------------------------------- lines

  /**
   * The k-th cell of line l, in the order `isWinState` scans the lines:
   * rows 0..2, then columns 0..2, then the main diagonal, then the anti-diagonal.
   */
  function LineIndex(l: nat, k: nat): (i: nat)
    requires l < 8 && k < 3
    ensures i < 9
  {
    if l < 3 then 3 * l + k
    else if l < 6 then 3 * k + (l - 3)
    else if l == 6 then 3 * k + k
    else 3 * k + (2 - k)
  }

  /** Line l holds p in all three cells. */
  predicate Complete(b: Board, l: nat, p: Player)
    requires l < 8
  {
    b[LineIndex(l, 0)] == Some(p) && b[LineIndex(l, 1)] == Some(p) && b[LineIndex(l, 2)] == Some(p)
  }

  /** p holds some row, column or diagonal. */
  predicate HasLine(b: Board, p: Player)
  {
    exists l :: 0 <= l < 8 && Complete(b, l, p)
  }

  /**
   * How many of the first n cells of line l hold p: the length of the `x` or `o`
   * array after `isWinState` has looked at n cells of the line.
   */
  function LineCount(b: Board, l: nat, n: nat, p: Player): (c: nat)
    requires l < 8 && n <= 3
    ensures c <= n
  {
    if n == 0 then 0 else LineCount(b, l, n - 1, p) + (if b[LineIndex(l, n - 1)] == Some(p) then 1 else 0)
  }

  /** The winner found scanning lines l..7 in order, 'x' before 'o' on each line. */
  function WinnerFrom(b: Board, l: nat): Option<Player>
    requires l <= 8
    decreases 8 - l
  {
    if l == 8 then None
    else if Complete(b, l, X) then Some(X)
    else if Complete(b, l, O) then Some(O)
    else WinnerFrom(b, l + 1)
  }

  /** What `isWinState` returns: `[true, p]` is Some(p), `false` is None. */
  function Winner(b: Board): Option<Player>
  {
    WinnerFrom(b, 0)
  }

  /** What `isStalemate` returns: `undefined` (None) when there is a winner, else whether the board is full. */
  function Stalemate(b: Board): Option<bool>
  {
    if Winner(b).Some? then None else Some(None !in b)
  }

  // ---------------------------------------------------------------- open cells

  /** The empty cells among the first n, in row-major order, as `availableMoves` pushes them. */
  function EmptyBefore(b: Board, n: nat): (ms: seq<(int, int)>)
    requires n <= 9
    ensures AllOpen(b, ms)
    ensures forall i :: 0 <= i < |ms| ==> Index(ms[i]) < n
    ensures forall i, j :: 0 <= i < j < |ms| ==> Index(ms[i]) < Index(ms[j])
  {
    if n == 0 then []
    else EmptyBefore(b, n - 1) + (if b[n - 1] == None then [((n - 1) / 3, (n - 1) % 3)] else [])
  }

  /** What `availableMoves` returns. */
  function Moves(b: Board): (ms: seq<(int, int)>)
    ensures AllOpen(b, ms)
  {
    EmptyBefore(b, 9)
  }

  // ---------------------------------------------------------------- lemmas

  /** `isWinState`'s test on one line: three pieces of p counted means the line is complete. */
  lemma LineCountComplete(b: Board, l: nat, p: Player)
    requires l < 8
    ensures LineCount(b, l, 3, p) == 3 <==> Complete(b, l, p)
  {
    assert LineCount(b, l, 2, p) == LineCount(b, l, 1, p) + (if b[LineIndex(l, 1)] == Some(p) then 1 else 0);
  }

  /** A player holds at most the cells of a line the opponent does not. */
  lemma {:induction false} LineCountBoth(b: Board, l: nat, n: nat, p: Player)
    requires l < 8 && n <= 3
    ensures LineCount(b, l, n, p) + LineCount(b, l, n, Other(p)) <= n
  {
    if n > 0 {
      LineCountBoth(b, l, n - 1, p);
    }
  }

  /**
   * The winner scan agrees with the lines: a winner holds a line, all lines before
   * its first one are incomplete for both players, and there is no winner exactly
   * when neither player holds a line.
   */
  lemma {:induction false} WinnerFromLines(b: Board, l: nat)
    requires l <= 8
    ensures WinnerFrom(b, l) == None <==>
              forall j :: l <= j < 8 ==> !Complete(b, j, X) && !Complete(b, j, O)
    ensures WinnerFrom(b, l).Some? ==>
              exists j :: l <= j < 8 && Complete(b, j, WinnerFrom(b, l).value) &&
                forall i :: l <= i < j ==> !Complete(b, i, X) && !Complete(b, i, O)
    decreases 8 - l
  {
    if l < 8 && !Complete(b, l, X) && !Complete(b, l, O) {
      WinnerFromLines(b, l + 1);
      if WinnerFrom(b, l).Some? {
        var j :| l + 1 <= j < 8 && Complete(b, j, WinnerFrom(b, l).value) &&
                   forall i :: l + 1 <= i < j ==> !Complete(b, i, X) && !Complete(b, i, O);
        assert forall i :: l <= i < j ==> !Complete(b, i, X) && !Complete(b, i, O);
      }
    }
  }

  /**
   * `isWinState` reports a winner iff some row, column or diagonal is complete; the
   * reported player holds the first complete line in scan order; when only one player
   * holds lines, that player is reported.
   */
  lemma WinnerSpec(b: Board)
    ensures Winner(b) == None <==> !HasLine(b, X) && !HasLine(b, O)
    ensures Winner(b).Some? ==>
              exists l :: 0 <= l < 8 && Complete(b, l, Winner(b).value) &&
                forall i :: 0 <= i < l ==> !Complete(b, i, X) && !Complete(b, i, O)
    ensures forall p :: HasLine(b, p) && !HasLine(b, Other(p)) ==> Winner(b) == Some(p)
  {
    WinnerFromLines(b, 0);
    if Winner(b).Some? {
      var l :| 0 <= l < 8 && Complete(b, l, Winner(b).value);
      assert HasLine(b, Winner(b).value);
    }
  }

  /** `isStalemate` is true iff nobody holds a line and the board is full; `undefined` iff someone does. */
  lemma StalemateSpec(b: Board)
    ensures Stalemate(b) == Some(true) <==> !HasLine(b, X) && !HasLine(b, O) && None !in b
    ensures Stalemate(b) == Some(false) <==> !HasLine(b, X) && !HasLine(b, O) && None in b
    ensures Stalemate(b) == None <==> HasLine(b, X) || HasLine(b, O)
  {
  }

  /** Cell k, for k in 0..8, is (k / 3, k % 3) and no other cell on the board. */
  lemma CellOfIndex(k: int)
    requires 0 <= k < 9
    ensures 0 <= k / 3 < 3 && 0 <= k % 3 < 3 && Index((k / 3, k % 3)) == k
    ensures forall m: (int, int) :: 0 <= m.0 < 3 && 0 <= m.1 < 3 && Index(m) == k ==> m == (k / 3, k % 3)
  {
  }

  /** The empty cells among the first n are exactly the open moves below index n. */
  lemma {:induction false} EmptyBeforeExact(b: Board, n: nat, m: (int, int))
    requires n <= 9
    ensures m in EmptyBefore(b, n) <==> Open(b, m) && Index(m) < n
  {
    if n > 0 {
      EmptyBeforeExact(b, n - 1, m);
      CellOfIndex(n - 1);
    }
  }

  /** `availableMoves` lists exactly the empty cells. */
  lemma MovesExact(b: Board)
    ensures forall m :: m in Moves(b) <==> Open(b, m)
  {
    forall m ensures m in Moves(b) <==> Open(b, m) {
      EmptyBeforeExact(b, 9, m);
    }
  }

  /** `availableMoves` lists the cells in strictly increasing row-major order, so each once. */
  lemma MovesOrdered(b: Board)
    ensures forall i, j :: 0 <= i < j < |Moves(b)| ==> Index(Moves(b)[i]) < Index(Moves(b)[j])
  {
  }

  /** `availableMoves` is empty iff no cell is `undefined`. */
  lemma MovesEmptyIffFull(b: Board)
    ensures Moves(b) == [] <==> None !in b
  {
    if None in b {
      var k :| 0 <= k < 9 && b[k] == None;
      CellOfIndex(k);
      EmptyBeforeExact(b, 9, (k / 3, k % 3));
    }
    if Moves(b) != [] {
      var m := Moves(b)[0];
      assert Open(b, m) && b[Index(m)] == None;
    }
  }

  /**
   * `availableMoves` lists exactly the empty cells, each once, in row-major order,
   * and is empty iff no cell is `undefined`.
   */
  lemma MovesSpec(b: Board)
    ensures forall m :: m in Moves(b) <==> Open(b, m)
    ensures forall i, j :: 0 <= i < j < |Moves(b)| ==> Index(Moves(b)[i]) < Index(Moves(b)[j])
    ensures Moves(b) == [] <==> None !in b
  {
    MovesExact(b);
    MovesOrdered(b);
    MovesEmptyIffFull(b);
  }

  /** Taking an empty cell never gives the opponent a line nor takes one away, and keeps the mover's lines. */
  lemma PlayKeepsOtherLines(b: Board, m: (int, int), p: Player)
    requires Open(b, m)
    ensures HasLine(Play(b, m, p), Other(p)) <==> HasLine(b, Other(p))
    ensures HasLine(b, p) ==> HasLine(Play(b, m, p), p)
  {
    var r := Play(b, m, p);
    forall l | 0 <= l < 8
      ensures Complete(r, l, Other(p)) <==> Complete(b, l, Other(p))
      ensures Complete(b, l, p) ==> Complete(r, l, p)
    {
    }
    if HasLine(b, Other(p)) {
      var l :| 0 <= l < 8 && Complete(b, l, Other(p));
      assert Complete(r, l, Other(p));
    }
    if HasLine(r, Other(p)) {
      var l :| 0 <= l < 8 && Complete(r, l, Other(p));
      assert Complete(b, l, Other(p));
    }
    if HasLine(b, p) {
      var l :| 0 <= l < 8 && Complete(b, l, p);
      assert Complete(r, l, p);
    }
  }

  /**
   * The src/test.ts starting board already has 'o' on the top row, so the game it
   * starts is won by 'o'; the src/test.js one has no line and open cells.
   */
  lemma StartingBoards()
    ensures Winner(InitialBoard) == Some(O) && Stalemate(InitialBoard) == None
    ensures Winner(LegacyInitialBoard) == None && Stalemate(LegacyInitialBoard) == Some(false)
  {
    assert !Complete(InitialBoard, 0, X) && Complete(InitialBoard, 0, O);
    var b := LegacyInitialBoard;
    forall l | 0 <= l < 8
      ensures !Complete(b, l, X) && !Complete(b, l, O)
    {
      assert b[LineIndex(l, 1)] == None;  // the middle cell of every line is open
    }
    WinnerSpec(b);
    assert b[1] == None;
  }
}
