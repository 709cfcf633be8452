/**
 * The move-string codec of the tic-tac-toe engine (src/test.ts and src/test.js):
 * a move is a row letter 'A'..'C' followed by the column as JavaScript prints a number.
 */
module MoveCodec {
  import opened Wrappers

  /** The character of a decimal digit. */
  function DigitChar(d: int): (c: char)
    requires 0 <= d <= 9
    ensures '0' <= c <= '9'
  {
    ('0' as int + d) as char
  }

  /** `parseInt` of a one-character string: the digit's value, or None for NaN. */
  function ParseDigit(c: char): (r: Option<int>)
    ensures r.Some? <==> '0' <= c <= '9'
    ensures r.Some? ==> 0 <= r.value <= 9 && DigitChar(r.value) == c
  {
    if '0' <= c <= '9' then Some(c as int - '0' as int) else None
  }

  /** `Number.prototype.toString` of a natural number: its decimal digits. */
  function NatToString(n: nat): (s: string)
    ensures |s| >= 1
    ensures forall i :: 0 <= i < |s| ==> '0' <= s[i] <= '9'
  {
    if n < 10 then [DigitChar(n)] else NatToString(n / 10) + [DigitChar(n % 10)]
  }

  /** `Number.prototype.toString` of an integer. */
  function IntToString(n: int): (s: string)
    ensures |s| >= 1
    ensures (s[0] == '-') <==> n < 0
  {
    if n < 0 then "-" + NatToString(-n) else NatToString(n)
  }

  /** The most significant decimal digit of n. */
  function LeadingDigit(n: nat): (d: nat)
    ensures d <= 9
    ensures n > 0 ==> d > 0
  {
    if n < 10 then n else LeadingDigit(n / 10)
  }

  /** The row letter `encodeMove` writes: 0 is 'A', 1 is 'B', anything else 'C'. */
  function RowLetter(x: int): (c: char)
    ensures c == 'A' <==> x == 0
    ensures c == 'B' <==> x == 1
    ensures c == 'C' <==> x != 0 && x != 1
  {
    if x == 0 then 'A' else if x == 1 then 'B' else 'C'
  }

  /** encodeMove(x, y): the row letter followed by `y.toString()`. */
  function EncodeMove(x: int, y: int): (s: string)
    ensures |s| >= 2
    ensures s[0] == RowLetter(x) && s[1..] == IntToString(y)
  {
    [RowLetter(x)] + IntToString(y)
  }

  /**
   * decipherMove(move): the row is 0 for 'A', 1 for 'B' and 2 for any other first
   * character (an empty string included); the column is `parseInt` of the second
   * character alone, None standing for NaN.
   */
  function DecipherMove(move: string): (r: (int, Option<int>))
    ensures r.0 == 0 <==> |move| > 0 && move[0] == 'A'
    ensures r.0 == 1 <==> |move| > 0 && move[0] == 'B'
    ensures r.0 == 2 <==> |move| == 0 || (move[0] != 'A' && move[0] != 'B')
    ensures r.1.Some? <==> |move| > 1 && '0' <= move[1] <= '9'
    ensures r.1.Some? ==> 0 <= r.1.value <= 9 && DigitChar(r.1.value) == move[1]
  {
    var x := if |move| > 0 && move[0] == 'A' then 0
             else if |move| > 0 && move[0] == 'B' then 1
             else 2;
    var y := if |move| > 1 then ParseDigit(move[1]) else None;
    (x, y)
  }

  /** The first character of a number's decimal string is its leading digit. */
  lemma {:induction false} NatToStringHead(n: nat)
    ensures NatToString(n)[0] == DigitChar(LeadingDigit(n))
  {
    if n >= 10 {
      NatToStringHead(n / 10);
    }
  }

  /** Round trip: a move on the board decodes back to the row and column it was encoded from. */
  lemma RoundTrip(x: int, y: int)
    requires 0 <= x <= 2 && 0 <= y <= 9
    ensures DecipherMove(EncodeMove(x, y)) == (x, Some(y))
  {
  }

  /**
   * The decoded column is only the leading digit of a column of two or more digits,
   * and NaN for a negative column: `decipherMove` reads one character.
   */
  lemma {:induction false} DecodedColumn(x: int, y: int)
    requires 0 <= x <= 2
    ensures y >= 0 ==> DecipherMove(EncodeMove(x, y)) == (x, Some(LeadingDigit(y)))
    ensures y < 0 ==> DecipherMove(EncodeMove(x, y)) == (x, None)
  {
    var s := EncodeMove(x, y);
    if y >= 0 {
      NatToStringHead(y);
      assert s[1] == NatToString(y)[0];
      var d := LeadingDigit(y);
      assert ParseDigit(DigitChar(d)) == Some(d);
    } else {
      assert s[1] == '-';
    }
  }

  /** The other direction: a well-formed move string is re-encoded exactly. */
  lemma EncodeDecipher(move: string)
    requires |move| == 2 && move[0] in "ABC" && '0' <= move[1] <= '9'
    ensures var (x, y) := DecipherMove(move); y.Some? && EncodeMove(x, y.value) == move
  {
  }
}
