# Tic-tac-toe minimax engine, modelled and proved in Dafny

This project models the tic-tac-toe engine in `src/test.ts` and its older version in
`src/test.js`. The engine keeps a global 3x3 `gameboard` of `'x'`, `'o'` and
`undefined` cells. It reads and writes moves as strings such as `"A1"`
(`decipherMove`, `encodeMove`, `placeMove`, `isLegalMove`). It finds a winner by
scanning rows, columns and the two diagonals (`isWinState`), detects a full board
(`isStalemate`) and lists the empty cells (`availableMoves`). It scores a position with
a line heuristic (`positionValueRow`, `positionValueColumn` and the two
`positionValueDiagonal*`) combined in `totalPositionValue`. `minimax` is a
depth-adjusted alpha-beta search with 'o' maximizing, and `findBestMove` returns the
encoded move for 'o' with the strictly highest score, the first one on ties.

The project has two layers.

- **Values.** A board is a `seq<Cell>` of length 9, row by row. Each routine becomes a
  function on board values, and lemmas prove what it means:
  - the codec round trip;
  - which player the line scan reports;
  - the bounds of the heuristic and the cases of `totalPositionValue`;
  - alpha-beta agreeing with plain minimax;
  - which move the root picks.
- **The engine itself.** `Engine.Game` is a class that owns the board as an
  `array2<Cell>`. Each routine is a method with the source's own loops and counters.
  Every method is proved against the value-level function that specifies it. `Minimax`
  and `FindBestMove` write moves into the array and undo them, and they are proved to
  leave the board as they found it.

`LegacyEngine` models the `src/test.js` versions of `totalPositionValue`, `minimax` and
`findBestMove` over the same class. The `src/test.js` board helpers are the same code as
in `src/test.ts`, so they are modelled once.

Modules: `Wrappers` (Option), `MoveCodec`, `Boards`, `Evaluation`, `Search`, `Engine`,
`LegacyEngine`.

JavaScript values are mapped as follows:

- `undefined` in a cell is `None`.
- `isWinState`'s `[true, p]` and `false` become `Option<Player>`.
- `isStalemate`'s `undefined` is the `None` of an `Option<bool>`.
- `totalPositionValue`'s `null` is `None`.
- `parseInt`'s `NaN` is `None`.
- `findBestMove`'s `[]` is `None`.
- `-Infinity` and `Infinity` are the integers -1000000 and 1000000. Every score the
  search produces, pruned or not and in any window, lies strictly between them (Search.AlphaBetaBounds).

## Model

| member | source | states |
|---|---|---|
| MoveCodec.ParseDigit | src/test.ts:22 | `parseInt` of one character is a number exactly for a digit, its value 0..9; otherwise NaN (None) |
| MoveCodec.IntToString | src/test.ts:49 | `toString` of a number is non-empty and starts with '-' exactly for a negative number |
| MoveCodec.EncodeMove | src/test.ts:39-51 | the string is the row letter (A for 0, B for 1, C for anything else) followed by the column's decimal string |
| MoveCodec.DecipherMove | src/test.ts:18-31 | row 0 exactly for a leading 'A', 1 for 'B', 2 for any other first character or an empty string; column is a number exactly when the second character is a digit, and then it is the digit that character denotes, in 0..9 |
| MoveCodec.NatToStringHead | src/test.ts:49 | the first character of a number's decimal string is its leading digit |
| MoveCodec.RoundTrip | src/test.ts:18-51 | decoding the encoding of row 0..2 and column 0..9 gives back that row and column |
| MoveCodec.DecodedColumn | src/test.ts:18-51 | for a column of two or more digits only the leading digit comes back; a negative column decodes to NaN |
| MoveCodec.EncodeDecipher | src/test.ts:18-51 | a two-character move with row letter A..C and a digit column is re-encoded to the same string |
| Boards.Play | src/test.ts:63 | writing p into an empty cell sets that cell, leaves the other eight unchanged and removes one empty cell |
| Boards.LineCount | src/test.ts:95-196 | the counter of one player's pieces on a line never exceeds the number of cells scanned |
| Boards.LineCountComplete | src/test.ts:112-118 | a scan counts three pieces of p on a line exactly when p holds all three of its cells |
| Boards.LineCountBoth | src/test.ts:95-196 | on any line, both players together hold at most the cells scanned |
| Boards.WinnerFromLines | src/test.ts:95-196 | the scan from line l on reports a player who holds a line; every earlier line from l on is incomplete for both; it reports nothing exactly when no line from l on is complete |
| Boards.WinnerSpec | src/test.ts:95-196 | a winner is reported iff some row, column or diagonal is complete; the reported player holds the first complete line in scan order; a player who alone holds lines is reported |
| Boards.StalemateSpec | src/test.ts:202-214 | stalemate is true iff nobody holds a line and no cell is empty, false iff nobody holds a line and a cell is empty, `undefined` iff somebody holds a line |
| Boards.EmptyBefore | src/test.ts:231-241 | the moves collected from the first n cells are open, lie below n, and come in strictly increasing row-major order |
| Boards.EmptyBeforeExact | src/test.ts:231-241 | a move is collected from the first n cells iff it is open and its index is below n |
| Boards.Moves | src/test.ts:231-241 | every move `availableMoves` lists is an empty cell on the board |
| Boards.MovesExact | src/test.ts:231-241 | `availableMoves` lists a move iff it is an empty cell of the board |
| Boards.MovesOrdered | src/test.ts:231-241 | `availableMoves` lists the cells in strictly increasing row-major order, so none twice |
| Boards.MovesEmptyIffFull | src/test.ts:231-241 | `availableMoves` is empty iff no cell is `undefined` |
| Boards.MovesSpec | src/test.ts:231-241 | `availableMoves` lists exactly the empty cells, in strictly increasing row-major order, and is empty iff the board is full |
| Boards.StartingBoards | src/test.ts:1-5 | the src/test.ts starting board is already won by 'o' (top row), so `isStalemate` is `undefined`; the src/test.js starting board (src/test.js:5-9) has no line and open cells, so `isStalemate` is false |
| Boards.PlayKeepsOtherLines | src/test.ts:63 | taking an empty cell neither gives the opponent a line nor takes one away, and the mover keeps its lines |
| Evaluation.LineValueBounds | src/test.ts:268-327 | one column or diagonal scan is worth between -30 and 60, and 60 exactly when p holds the whole line |
| Evaluation.RepeatedCellIsTop | src/test.ts:250-261 | three looks at the same cell add 60 for an own piece, -30 for an enemy piece, 0 for an empty one |
| Evaluation.RowValueReadsTopRow | src/test.ts:244-266 | `positionValueRow` depends only on the top row: 60 per own piece there, -30 per enemy piece |
| Evaluation.ColumnValueBounds | src/test.ts:268-289 | the scans of n columns sum to between -30n and 60n |
| Evaluation.HeuristicBounds | src/test.ts:330-334 | the heuristic sum lies in [-240, 480], so it never equals a win or loss score |
| Evaluation.TotalValueSpec | src/test.ts:329-359 | 100000 iff p is the reported winner, -100000 iff the opponent is, 0 iff no line and a full board, `null` iff no winner, an empty cell and a heuristic of at most 0; otherwise a value in 1..480 |
| Search.MinimaxOutcomes | src/test.ts:411-427 | with 'o' the winner the search returns 100000 - depth, with 'x' -100000 + depth, 0 on a stalemate or at depth 9 or more; otherwise it searches a non-empty list of moves |
| Search.NonTerminalHasMoves | src/test.ts:411-427 | a node not stopped by the three checks has an open cell and is below depth 9 |
| Search.MaxOverAtLeast | src/test.ts:429-447 | the unpruned maximizing fold (every move visited, no cut-off) never returns less than its starting best |
| Search.MinOverAtMost | src/test.ts:448-468 | the unpruned minimizing fold (every move visited, no cut-off) never returns more than its starting best |
| Search.MaxOverClamp | src/test.ts:429-447 | two starting bests that agree once clamped to a window give results of the unpruned maximizing fold that agree once clamped |
| Search.MinOverClamp | src/test.ts:448-468 | the same for the unpruned minimizing fold |
| Search.AlphaBetaMaxNext | src/test.ts:433-444 | the step MaximizingLoop's invariant advances by: one turn of the maximizing loop unfolded (raise best, raise alpha, stop once beta <= alpha, else go on with the next move) |
| Search.AlphaBetaMinNext | src/test.ts:452-463 | the step MinimizingLoop's invariant advances by: one turn of the minimizing loop unfolded (lower best, lower beta, stop once beta <= alpha, else go on with the next move) |
| Search.AlphaBetaAgrees | src/test.ts:410-471 | the alpha-beta value as written, clamped to [alpha, beta], equals the unpruned minimax value clamped the same way |
| Search.AlphaBetaMaxAgrees | src/test.ts:429-447 | the pruned maximizing loop agrees with the unpruned one inside the window |
| Search.AlphaBetaMinAgrees | src/test.ts:448-468 | the pruned minimizing loop agrees with the unpruned one inside the window |
| Search.MinimaxBounds | src/test.ts:410-471 | from depth 0 to 9 every minimax value lies in [-100000, 100000] |
| Search.MaxOverBounds | src/test.ts:429-447 | the unpruned maximizing fold stays at or below 100000, and at or above -100000 once a move is tried |
| Search.MinOverBounds | src/test.ts:448-468 | the unpruned minimizing fold stays at or above -100000, and at or below 100000 once a move is tried |
| Search.AlphaBetaBounds | src/test.ts:410-471 | from depth 0 to 9 every alpha-beta value lies in [-100000, 100000] for every window, so the ±Infinity sentinels never equal a score |
| Search.AlphaBetaMaxBounds | src/test.ts:429-447 | the pruned maximizing loop stays at or below 100000, and at or above -100000 once a move is tried, cut-off or not |
| Search.AlphaBetaMinBounds | src/test.ts:448-468 | the pruned minimizing loop stays at or above -100000, and at or below 100000 once a move is tried, cut-off or not |
| Search.FullWindowIsMinimax | src/test.ts:395 | called with (-Infinity, Infinity), alpha-beta returns exactly the unpruned minimax value |
| Search.FirstBest | src/test.ts:392-403 | the root loop ends on -1 or an index into the scores |
| Search.FirstBestSpec | src/test.ts:392-403 | the root loop ends on the first index holding the highest score: every earlier score is strictly lower, no score is higher |
| Search.BestMoveSpec | src/test.ts:381-407 | `findBestMove` returns `[]` iff the board is full; otherwise an open cell whose minimax score is the highest of all moves and strictly higher than that of every earlier move |
| Engine.Game.Write | src/test.ts:63 | a cell assignment changes that cell of the board value and nothing else |
| Engine.Game.constructor | src/test.ts:1-5 | the game starts from the given board |
| Engine.Game.IsLegalMove | src/test.ts:82-87 | legal iff the cell is empty, or the column is off the board (an `undefined` read) |
| Engine.Game.PlaceMove | src/test.ts:59-74 | placed iff the decoded column is a number and the decoded cell is on the board and empty; the board then gains that piece, and otherwise is unchanged |
| Engine.Game.IsWinState | src/test.ts:95-196 | the four scans with their counters report exactly the winner of the line scan |
| Engine.Game.IsStalemate | src/test.ts:202-214 | the result is the stalemate of the board |
| Engine.Game.ClearBoard | src/test.ts:219-225 | the board becomes a fresh all-empty array |
| Engine.Game.AvailableMoves | src/test.ts:231-241 | the nested loops collect exactly `Moves` of the board |
| Engine.Game.PositionValueRow | src/test.ts:244-266 | the loops compute the row heuristic, which reads only the top row |
| Engine.Game.PositionValueColumn | src/test.ts:268-289 | the loops compute the sum of the three column scans |
| Engine.Game.PositionValueDiagonalLeft | src/test.ts:291-308 | the loop computes the scan of the main diagonal |
| Engine.Game.PositionValueDiagonalRight | src/test.ts:310-327 | the loop computes the scan of the anti-diagonal |
| Engine.Game.TotalPositionValue | src/test.ts:329-359 | the result is `totalPositionValue` of the board, with the cases of Evaluation.TotalValueSpec |
| Engine.Game.Minimax | src/test.ts:410-471 | the board ends as it began and the score is the alpha-beta value of the starting board |
| Engine.Game.MaximizingLoop | src/test.ts:429-447 | each 'o' move is written, searched and undone; the result is the maximizing loop's value with its cut-off |
| Engine.Game.MinimizingLoop | src/test.ts:448-468 | each 'x' move is written, searched and undone; the result is the minimizing loop's value with its cut-off |
| Engine.Game.FindBestMove | src/test.ts:381-407 | the board ends as it began; the result is `[]` or the encoding of the move described in Search.BestMoveSpec |
| LegacyEngine.LegacyValueSpec | src/test.js:287-308 | the value is 100000 iff p is the reported winner, -100000 iff the opponent is, and 0 iff there is no winner |
| LegacyEngine.LegacyDropsHeuristic | src/test.js:289-292 | the value agrees with the src/test.ts one on a win or a loss, and is 0 in every other case |
| LegacyEngine.NonWinningScore | src/test.js:346-359 | a move that does not win for 'o' scores -100000 when 'x' already holds a line, and 0 otherwise |
| LegacyEngine.LegacyBestMoveSpec | src/test.js:324-345 | returns `[]` iff the board is full; otherwise the first open cell where 'o' wins at once, or the first open cell when no such cell exists |
| LegacyEngine.TotalPositionValue | src/test.js:287-308 | the result is the value of the board, with the cases of LegacyValueSpec |
| LegacyEngine.Minimax | src/test.js:346-384 | one of the three terminal checks always holds: the score is the board's value (100000, -100000 or 0), and the board is not touched |
| LegacyEngine.FindBestMove | src/test.js:324-345 | the board ends as it began; the result is `[]` or the encoding of the move described in LegacyBestMoveSpec |

## Left out

- Console output (`console.log`, `drawBoard`), the DOM input (`getInput`) and `main` are I/O. They are not modelled.
- `isMove` is a type guard that nothing in the engine calls. It is not modelled.
- `src/App.tsx` and `src/mahoraga.ts` are outside this model.
- The `src/test.js` copies of `decipherMove`, `encodeMove`, `placeMove`, `isLegalMove`, `isWinState`, `isStalemate`, `clearBoard`, `availableMoves` and the `positionValue*` routines (src/test.js:18-286) are the same code as in src/test.ts. They are modelled once, by MoveCodec and Engine.Game.
- LegacyEngine.Minimax: the move loops of src/test.js:360-383 can never be reached, because `totalPositionValue` there only returns 100000, -100000 or 0. The model proves that and has no code for them.
- Engine.Game.Minimax: the two move loops are separate methods (MaximizingLoop, MinimizingLoop), each looping exactly as its branch of `minimax` does.
- -Infinity and Infinity are modelled as the integers -1000000 and 1000000. This is exact for every comparison the search makes, because all its scores lie in [-100000, 100000], whatever the window (Search.AlphaBetaBounds).
- MoveCodec.DecipherMove: strings are sequences of Unicode characters, while `charAt` indexes UTF-16 code units. The two differ only when the first character lies outside the Basic Multilingual Plane (for such a string the source reads half of a surrogate pair as the column and gets NaN). The `move` type and the only caller, `findBestMove`, which passes `encodeMove` output, never produce such a string.
- JavaScript numbers are unbounded integers here. Fractional and non-numeric arguments are not modelled, except for the NaN that `parseInt` returns, which is None.
- Engine.Game.IsLegalMove requires a row in 0..2: indexing a missing row throws a TypeError in JavaScript. `placeMove` only calls it on board cells.
- Engine.Game.ClearBoard gives the game a fresh array, as the source does. Other aliases of the old array are not modelled.
- The alias between `gameboard` in the module and the Game object is not modelled: the model has one board per Game.
