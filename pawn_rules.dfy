/** The pawn movement rule that every variant's move check repeats:
    forward one, forward two from the start row over an empty square, and a
    diagonal capture of an opposing piece. */
module PawnRules {
  import opened GameTypes

  /** White pawns move up the grid (towards row 0), black pawns down. */
  function Direction(c: Color): int {
    if c == White then -1 else 1
  }

  function StartRow(c: Color): int {
    if c == White then 6 else 1
  }

  function Abs(x: int): nat {
    if x < 0 then -x else x
  }

  /** The three pawn patterns, in the order the source tries them. */
  predicate PawnMove(b: Board, fr: int, fc: int, tr: int, tc: int, color: Color)
    requires WellFormed(b) && OnBoard(fr, fc) && OnBoard(tr, tc)
    ensures PawnMove(b, fr, fc, tr, tc, color) ==>
      && Abs(tc - fc) <= 1
      && (tr - fr == Direction(color) || tr - fr == 2 * Direction(color))
      && (b[tr][tc].None? || b[tr][tc].value.color != color)
  {
    var direction := Direction(color);
    var rowDiff := tr - fr;
    var colDiff := Abs(tc - fc);
    var target := b[tr][tc];
    || (colDiff == 0 && rowDiff == direction && target.None?)
    || (colDiff == 0 && rowDiff == 2 * direction && fr == StartRow(color) && target.None?
        && b[fr + direction][fc].None?)
    || (colDiff == 1 && rowDiff == direction && target.Some? && target.value.color != color)
  }

  predicate OpponentAt(b: Board, row: int, col: int, color: Color)
    requires WellFormed(b) && OnBoard(row, col)
  {
    b[row][col].Some? && b[row][col].value.color != color
  }

  /** Reference definition: the set of squares a pawn of the given colour on
      (fr, fc) may move to, built square by square. */
  function PawnTargets(b: Board, fr: int, fc: int, color: Color): set<(int, int)>
    requires WellFormed(b) && OnBoard(fr, fc)
  {
    var d := Direction(color);
    var one := if OnBoard(fr + d, fc) && b[fr + d][fc].None? then {(fr + d, fc)} else {};
    var two :=
      if fr == StartRow(color) && b[fr + d][fc].None? && b[fr + 2 * d][fc].None?
      then {(fr + 2 * d, fc)} else {};
    var left :=
      if OnBoard(fr + d, fc - 1) && OpponentAt(b, fr + d, fc - 1, color)
      then {(fr + d, fc - 1)} else {};
    var right :=
      if OnBoard(fr + d, fc + 1) && OpponentAt(b, fr + d, fc + 1, color)
      then {(fr + d, fc + 1)} else {};
    one + two + left + right
  }

  /** The move check accepts exactly the squares of the reference set. */
  lemma PawnMoveMatchesTargets(b: Board, fr: int, fc: int, tr: int, tc: int, color: Color)
    requires WellFormed(b) && OnBoard(fr, fc) && OnBoard(tr, tc)
    ensures PawnMove(b, fr, fc, tr, tc, color) <==> (tr, tc) in PawnTargets(b, fr, fc, color)
  {
  }

  /** A pawn only ever moves towards its promotion row, by one or two rows,
      never more than one column sideways, and never onto a piece of its own
      colour; a sideways step needs an opposing piece on the destination. */
  lemma PawnMoveShape(b: Board, fr: int, fc: int, tr: int, tc: int, color: Color)
    requires WellFormed(b) && OnBoard(fr, fc) && OnBoard(tr, tc)
    requires PawnMove(b, fr, fc, tr, tc, color)
    ensures tr - fr == Direction(color) || (tr - fr == 2 * Direction(color) && fr == StartRow(color) && tc == fc)
    ensures Abs(tc - fc) <= 1
    ensures b[tr][tc].None? || b[tr][tc].value.color != color
    ensures tc != fc <==> OpponentAt(b, tr, tc, color)
    ensures (tr, tc) != (fr, fc)
  {
  }

  /** A two-row step whose middle square is occupied is rejected even when the
      destination is empty. */
  lemma BlockedDoubleStep(b: Board, fr: int, fc: int, color: Color)
    requires WellFormed(b) && fr == StartRow(color) && OnBoard(fr, fc)
    requires b[fr + Direction(color)][fc].Some?
    ensures !PawnMove(b, fr, fc, fr + 2 * Direction(color), fc, color)
  {
  }
}
