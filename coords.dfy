/** Conversion between algebraic squares ("e4") and (row, column) indices,
    with row 0 at rank 8 and column 0 at file 'a'. */
module Coords {

  predicate IsSquare(s: string) {
    |s| == 2 && 'a' <= s[0] <= 'h' && '1' <= s[1] <= '8'
  }

  /** squareToCoords: the file letter gives the column, the rank digit,
      counted from the top, gives the row. The source does not validate its
      argument; the callers only pass board squares. */
  function SquareToCoords(s: string): (rc: (int, int))
    requires IsSquare(s)
    ensures 0 <= rc.0 < 8 && 0 <= rc.1 < 8
    ensures rc.0 == 0 <==> s[1] == '8'
    ensures rc.1 == 0 <==> s[0] == 'a'
    ensures CoordsToSquare(rc.0, rc.1) == s
  {
    var file := s[0] as int - 97;
    var rank := (s[1] as int - '0' as int) - 1;
    (7 - rank, file)
  }

  /** coordsToSquare: file letter 'a' + col, rank digit 8 - row. */
  function CoordsToSquare(row: int, col: int): (s: string)
    requires 0 <= row < 8 && 0 <= col < 8
    ensures IsSquare(s)
  {
    var file := (97 + col) as char;
    var rank := ((8 - row) + '0' as int) as char;
    [file] + [rank]
  }

  /** The two conversions are mutual inverses on the 64 squares. */
  lemma CoordsRoundTrip(row: int, col: int)
    requires 0 <= row < 8 && 0 <= col < 8
    ensures SquareToCoords(CoordsToSquare(row, col)) == (row, col)
  {
  }
}
