/** The three shipped variant policies (Pawn Race, Three Pawns Sprint, Bishop
    Hunt): each supplies an initial board, a move check and a win condition.
    The source keeps them as records with function-valued fields; here the
    variant is a tag and each capability a function dispatched on it. The
    capabilities that the source computes with loops are methods proved equal
    to those functions. */
module Variants {
  import opened GameTypes
  import opened Coords
  import opened PawnRules

  datatype Variant = PawnRace | ThreePawns | BishopHunt {

    function Name(): string {
      match this
      case PawnRace => "Pawn Race"
      case ThreePawns => "Three Pawns Sprint"
      case BishopHunt => "Bishop Hunt"
    }

    function Description(): string {
      match this
      case PawnRace => "Only pawns remain. First player to promote a pawn wins!"
      case ThreePawns => "Only the 3 rightmost pawns remain. A faster, more intense race to promotion!"
      case BishopHunt => "3 black pawns try to promote while a white bishop hunts them down!"
    }

    function AllowedPieces(): seq<PieceType> {
      match this
      case PawnRace => [Pawn]
      case ThreePawns => [Pawn]
      case BishopHunt => [Pawn, Bishop]
    }
  }

  // ---------------------------------------------------------------- initial boards

  /** What each variant puts on a cell at the start. */
  function InitialCell(v: Variant, row: int, col: int): Cell {
    match v
    case PawnRace =>
      if row == 6 then Some(WhitePawn)
      else if row == 1 then Some(BlackPawn)
      else None
    case ThreePawns =>
      if row == 6 && 5 <= col then Some(WhitePawn)
      else if row == 1 && 5 <= col then Some(BlackPawn)
      else None
    case BishopHunt =>
      if row == 1 && col < 3 then Some(BlackPawn)
      else if row == 7 && col == 5 then Some(WhiteBishop)
      else None
  }

  function InitialBoard(v: Variant): (b: Board)
    ensures WellFormed(b)
    ensures forall r, c :: OnBoard(r, c) ==> b[r][c] == InitialCell(v, r, c)
    ensures forall r, c :: OnBoard(r, c) && b[r][c].Some? ==> b[r][c].value.kind in v.AllowedPieces()
    ensures forall c :: 0 <= c < 8 ==> b[0][c] == None && b[7][c] != Some(BlackPawn)
  {
    seq(8, r => seq(8, c => InitialCell(v, r, c)))
  }

  /** One builder loop: puts the piece on columns lo..hi-1 of one row
      (lib/ecoChess.ts:46-48 and the five loops like it). */
  method FillRow(board: Board, row: int, lo: int, hi: int, p: Piece) returns (b: Board)
    requires WellFormed(board) && 0 <= row < 8 && 0 <= lo <= hi <= 8
    ensures WellFormed(b)
    ensures forall r, c :: OnBoard(r, c) ==>
      b[r][c] == if r == row && lo <= c < hi then Some(p) else board[r][c]
  {
    b := board;
    for col := lo to hi
      invariant WellFormed(b)
      invariant forall r, c :: OnBoard(r, c) ==>
        b[r][c] == if r == row && lo <= c < col then Some(p) else board[r][c]
    {
      b := SetCell(b, row, col, Some(p));
    }
  }

  /** The initial-board builders: an empty grid filled by the variant's loops. */
  method BuildInitialBoard(v: Variant) returns (board: Board)
    ensures board == InitialBoard(v)
  {
    board := EmptyBoard();
    match v {
      case PawnRace =>
        board := FillRow(board, 6, 0, 8, WhitePawn);
        board := FillRow(board, 1, 0, 8, BlackPawn);
      case ThreePawns =>
        board := FillRow(board, 6, 5, 8, WhitePawn);
        board := FillRow(board, 1, 5, 8, BlackPawn);
      case BishopHunt =>
        board := FillRow(board, 1, 0, 3, BlackPawn);
        board := SetCell(board, 7, 5, Some(WhiteBishop));
    }
    var init := InitialBoard(v);
    forall r | 0 <= r < 8
      ensures board[r] == init[r]
    {
      assert forall c :: 0 <= c < 8 ==> board[r][c] == init[r][c];
    }
  }

  // ---------------------------------------------------------------- move checks

  /** isValidMove of Pawn Race and of Three Pawns Sprint (identical): the
      source holds a pawn of the side to move and a pawn pattern matches. */
  predicate PawnVariantMove(from: string, to: string, s: GameState)
    requires IsSquare(from) && IsSquare(to) && WellFormed(s.board)
    ensures PawnVariantMove(from, to, s) ==>
      && s.board[SquareToCoords(from).0][SquareToCoords(from).1] == Some(Piece(Pawn, s.currentPlayer))
      && SquareToCoords(from) != SquareToCoords(to)
  {
    var (fr, fc) := SquareToCoords(from);
    var (tr, tc) := SquareToCoords(to);
    var piece := s.board[fr][fc];
    && piece.Some?
    && piece.value.color == s.currentPlayer
    && piece.value.kind == Pawn
    && PawnMove(s.board, fr, fc, tr, tc, piece.value.color)
  }

  /** Square k steps from `from` towards `to` along one axis. */
  function Toward(from: int, to: int, k: int): int {
    if to > from then from + k else from - k
  }

  /** Every square strictly between the ends of a diagonal is empty. */
  ghost predicate PathClear(b: Board, fr: int, fc: int, tr: int, tc: int)
    requires WellFormed(b) && OnBoard(fr, fc) && OnBoard(tr, tc)
    requires Abs(tr - fr) == Abs(tc - fc)
  {
    forall k :: 0 < k < Abs(tr - fr) ==> b[Toward(fr, tr, k)][Toward(fc, tc, k)].None?
  }

  /** isValidMove of Bishop Hunt: only black pawns (pawn rule, moving down)
      and the white bishop (clear diagonal, no capture of a white piece) move. */
  ghost predicate BishopHuntMove(from: string, to: string, s: GameState)
    requires IsSquare(from) && IsSquare(to) && WellFormed(s.board)
    ensures BishopHuntMove(from, to, s) ==>
      var piece := s.board[SquareToCoords(from).0][SquareToCoords(from).1];
      && (piece == Some(BlackPawn) || piece == Some(WhiteBishop))
      && piece.value.color == s.currentPlayer
      && SquareToCoords(from) != SquareToCoords(to)
  {
    var (fr, fc) := SquareToCoords(from);
    var (tr, tc) := SquareToCoords(to);
    var piece := s.board[fr][fc];
    var target := s.board[tr][tc];
    && piece.Some?
    && piece.value.color == s.currentPlayer
    && if piece.value.kind == Pawn then
         piece.value.color == Black && PawnMove(s.board, fr, fc, tr, tc, Black)
       else if piece.value.kind == Bishop then
         && piece.value.color == White
         && Abs(tr - fr) == Abs(tc - fc) && tr != fr
         && PathClear(s.board, fr, fc, tr, tc)
         && !(target.Some? && target.value.color == White)
       else
         false
  }

  ghost predicate ValidMove(v: Variant, from: string, to: string, s: GameState)
    requires IsSquare(from) && IsSquare(to) && WellFormed(s.board)
    ensures ValidMove(v, from, to, s) ==>
      var piece := s.board[SquareToCoords(from).0][SquareToCoords(from).1];
      && piece.Some?
      && piece.value.color == s.currentPlayer
      && piece.value.kind in v.AllowedPieces()
      && SquareToCoords(from) != SquareToCoords(to)
  {
    match v
    case PawnRace => PawnVariantMove(from, to, s)
    case ThreePawns => PawnVariantMove(from, to, s)
    case BishopHunt => BishopHuntMove(from, to, s)
  }

  /** Bishop Hunt's isValidMove, with the ray-cast loop that walks the
      diagonal from the square after `from` up to, not including, `to`. */
  method BishopHuntIsValidMove(from: string, to: string, s: GameState) returns (ok: bool)
    requires IsSquare(from) && IsSquare(to) && WellFormed(s.board)
    ensures ok == BishopHuntMove(from, to, s)
  {
    var (fromRow, fromCol) := SquareToCoords(from);
    var (toRow, toCol) := SquareToCoords(to);
    var piece := s.board[fromRow][fromCol];
    var targetPiece := s.board[toRow][toCol];
    if piece.None? || piece.value.color != s.currentPlayer {
      return false;
    }
    if piece.value.kind == Pawn {
      if piece.value.color != Black {
        return false;
      }
      return PawnMove(s.board, fromRow, fromCol, toRow, toCol, Black);
    } else if piece.value.kind == Bishop {
      if piece.value.color != White {
        return false;
      }
      var rowDiff := Abs(toRow - fromRow);
      var colDiff := Abs(toCol - fromCol);
      if rowDiff != colDiff || rowDiff == 0 {
        return false;
      }
      var rowStep := if toRow > fromRow then 1 else -1;
      var colStep := if toCol > fromCol then 1 else -1;
      var currentRow := fromRow + rowStep;
      var currentCol := fromCol + colStep;
      ghost var k := 1;
      while currentRow != toRow && currentCol != toCol
        invariant 1 <= k <= rowDiff
        invariant currentRow == Toward(fromRow, toRow, k)
        invariant currentCol == Toward(fromCol, toCol, k)
        invariant forall j :: 0 < j < k ==> s.board[Toward(fromRow, toRow, j)][Toward(fromCol, toCol, j)].None?
        decreases rowDiff - k
      {
        if s.board[currentRow][currentCol].Some? {
          return false;
        }
        currentRow := currentRow + rowStep;
        currentCol := currentCol + colStep;
        k := k + 1;
      }
      if targetPiece.Some? && targetPiece.value.color == piece.value.color {
        return false;
      }
      return true;
    }
    return false;
  }

  /** The variant's isValidMove. */
  method IsValidMove(v: Variant, from: string, to: string, s: GameState) returns (ok: bool)
    requires IsSquare(from) && IsSquare(to) && WellFormed(s.board)
    ensures ok == ValidMove(v, from, to, s)
  {
    match v {
      case PawnRace => ok := PawnVariantMove(from, to, s);
      case ThreePawns => ok := PawnVariantMove(from, to, s);
      case BishopHunt => ok := BishopHuntIsValidMove(from, to, s);
    }
  }

  // ---------------------------------------------------------------- win conditions

  predicate WhitePromotedAt(b: Board, col: int)
    requires WellFormed(b) && 0 <= col < 8
  {
    b[0][col] == Some(WhitePawn)
  }

  predicate BlackPromotedAt(b: Board, col: int)
    requires WellFormed(b) && 0 <= col < 8
  {
    b[7][col] == Some(BlackPawn)
  }

  /** The promotion scan of Pawn Race (columns 0..7) and Three Pawns Sprint
      (columns 5..7): column by column, a white pawn on row 0 is tested before
      a black pawn on row 7. */
  function PromotionScan(b: Board, col: int, hi: int): (r: GameStatus)
    requires WellFormed(b) && 0 <= col <= hi <= 8
    ensures r != Draw
    ensures r == WhiteWins ==> exists c :: col <= c < hi && WhitePromotedAt(b, c)
    ensures r == BlackWins ==> exists c :: col <= c < hi && BlackPromotedAt(b, c)
    decreases hi - col
  {
    if col == hi then Playing
    else if WhitePromotedAt(b, col) then WhiteWins
    else if BlackPromotedAt(b, col) then BlackWins
    else PromotionScan(b, col + 1, hi)
  }

  /** Number of occurrences of piece p in a row. */
  function RowCount(row: seq<Cell>, p: Piece): nat {
    if row == [] then 0
    else RowCount(row[..|row| - 1], p) + (if row[|row| - 1] == Some(p) then 1 else 0)
  }

  /** Number of occurrences of piece p on a list of rows. */
  function BoardCount(rows: seq<seq<Cell>>, p: Piece): nat {
    if rows == [] then 0
    else BoardCount(rows[..|rows| - 1], p) + RowCount(rows[|rows| - 1], p)
  }

  /** Bishop Hunt: black wins by a pawn on row 7 in columns 0..2; otherwise
      white wins once no black pawn is left. */
  function BishopHuntStatus(b: Board): (r: GameStatus)
    requires WellFormed(b)
    ensures r != Draw
    ensures r == BlackWins ==> exists c :: 0 <= c < 3 && b[7][c] == Some(BlackPawn)
  {
    if exists c :: 0 <= c < 3 && BlackPromotedAt(b, c) then BlackWins
    else if BoardCount(b, BlackPawn) == 0 then WhiteWins
    else Playing
  }

  function WinCondition(v: Variant, s: GameState): (r: GameStatus)
    requires WellFormed(s.board)
    ensures r != Draw
    ensures v != BishopHunt && r == WhiteWins ==> exists c :: 0 <= c < 8 && WhitePromotedAt(s.board, c)
    ensures v != BishopHunt && r == BlackWins ==> exists c :: 0 <= c < 8 && BlackPromotedAt(s.board, c)
    ensures v == BishopHunt && r == BlackWins ==> exists c :: 0 <= c < 3 && s.board[7][c] == Some(BlackPawn)
  {
    match v
    case PawnRace => PromotionScan(s.board, 0, 8)
    case ThreePawns => PromotionScan(s.board, 5, 8)
    case BishopHunt => BishopHuntStatus(s.board)
  }

  /** The promotion loop over columns lo..hi-1 with its two early returns
      (lib/ecoChess.ts:60-69 and 172-181). */
  method ScanPromotions(b: Board, lo: int, hi: int) returns (status: GameStatus)
    requires WellFormed(b) && 0 <= lo <= hi <= 8
    ensures status == PromotionScan(b, lo, hi)
  {
    for col := lo to hi
      invariant PromotionScan(b, lo, hi) == PromotionScan(b, col, hi)
    {
      if b[0][col] == Some(WhitePawn) {
        return WhiteWins;
      }
      if b[7][col] == Some(BlackPawn) {
        return BlackWins;
      }
    }
    return Playing;
  }

  /** The nested loops of Bishop Hunt that count the black pawns. */
  method CountBlackPawns(b: Board) returns (blackPawnCount: nat)
    requires WellFormed(b)
    ensures blackPawnCount == BoardCount(b, BlackPawn)
  {
    blackPawnCount := 0;
    for row := 0 to 8
      invariant blackPawnCount == BoardCount(b[..row], BlackPawn)
    {
      for col := 0 to 8
        invariant blackPawnCount == BoardCount(b[..row], BlackPawn) + RowCount(b[row][..col], BlackPawn)
      {
        assert b[row][..col + 1][..col] == b[row][..col];
        if b[row][col] == Some(BlackPawn) {
          blackPawnCount := blackPawnCount + 1;
        }
      }
      assert b[..row + 1][..row] == b[..row];
      assert b[row][..8] == b[row];
    }
    assert b[..8] == b;
  }

  /** Bishop Hunt's winCondition. */
  method BishopHuntWinCondition(b: Board) returns (status: GameStatus)
    requires WellFormed(b)
    ensures status == BishopHuntStatus(b)
  {
    for col := 0 to 3
      invariant forall c :: 0 <= c < col ==> !BlackPromotedAt(b, c)
    {
      if b[7][col] == Some(BlackPawn) {
        assert BlackPromotedAt(b, col);
        return BlackWins;
      }
    }
    var blackPawnCount := CountBlackPawns(b);
    if blackPawnCount == 0 {
      return WhiteWins;
    }
    return Playing;
  }

  /** The variant's winCondition. */
  method EvaluateWinCondition(v: Variant, s: GameState) returns (status: GameStatus)
    requires WellFormed(s.board)
    ensures status == WinCondition(v, s)
  {
    match v {
      case PawnRace => status := ScanPromotions(s.board, 0, 8);
      case ThreePawns => status := ScanPromotions(s.board, 5, 8);
      case BishopHunt => status := BishopHuntWinCondition(s.board);
    }
  }
}
