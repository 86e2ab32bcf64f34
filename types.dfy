/** Value types of the Eco Chess rules engine: pieces, colours, the 8x8 board
    and the game-state record that the session object keeps and hands out. */
module GameTypes {

  datatype Option<+T> = None | Some(value: T)

  /** The six piece letters 'p', 'r', 'n', 'b', 'q', 'k'. */
  datatype PieceType = Pawn | Rook | Knight | Bishop | Queen | King

  /** The two colour letters 'w' and 'b'. */
  datatype Color = White | Black

  datatype Piece = Piece(kind: PieceType, color: Color)

  datatype GameStatus = Playing | WhiteWins | BlackWins | Draw

  /** A cell is a piece or null. */
  type Cell = Option<Piece>

  /** Row 0 is rank 8 (black's home side), column 0 is file 'a'. */
  type Board = seq<seq<Cell>>

  datatype GameState = GameState(
    board: Board,
    currentPlayer: Color,
    gameStatus: GameStatus,
    winner: Option<Color>,
    moveHistory: seq<string>)

  const WhitePawn := Piece(Pawn, White)
  const BlackPawn := Piece(Pawn, Black)
  const WhiteBishop := Piece(Bishop, White)

  predicate OnBoard(row: int, col: int) {
    0 <= row < 8 && 0 <= col < 8
  }

  /** Every board of the engine has exactly 8 rows of 8 cells. */
  predicate WellFormed(b: Board) {
    |b| == 8 && forall r :: 0 <= r < 8 ==> |b[r]| == 8
  }

  function Opponent(c: Color): (o: Color)
    ensures o != c
  {
    if c == White then Black else White
  }

  /** Assignment of one cell, `board[row][col] = cell`. */
  function SetCell(b: Board, row: int, col: int, cell: Cell): (b': Board)
    requires WellFormed(b) && OnBoard(row, col)
    ensures WellFormed(b')
    ensures b'[row][col] == cell
    ensures forall r, c :: OnBoard(r, c) && (r != row || c != col) ==> b'[r][c] == b[r][c]
  {
    b[row := b[row][col := cell]]
  }

  /** An 8x8 grid of empty cells, as every builder starts with (lib/ecoChess.ts:43). */
  function EmptyBoard(): (b: Board)
    ensures WellFormed(b)
    ensures forall r, c :: OnBoard(r, c) ==> b[r][c] == None
  {
    seq(8, _ => seq(8, _ => None))
  }
}
