/** What the variant policies promise: the meaning of each win condition, the
    shape of the legal moves, and the facts about the initial positions. */
module VariantFacts {
  import opened GameTypes
  import opened Coords
  import opened PawnRules
  import opened Variants

  predicate PromotedAt(b: Board, col: int)
    requires WellFormed(b) && 0 <= col < 8
  {
    WhitePromotedAt(b, col) || BlackPromotedAt(b, col)
  }

  /** The promotion scan answers for the first column (in scan order) that
      holds a promoted pawn, white before black within one column, and says
      `playing` when no column of the range holds one; it never says `draw`. */
  lemma {:induction false} PromotionScanMeaning(b: Board, lo: int, hi: int)
    requires WellFormed(b) && 0 <= lo <= hi <= 8
    ensures PromotionScan(b, lo, hi) != Draw
    ensures PromotionScan(b, lo, hi) == Playing <==>
      forall c :: lo <= c < hi ==> !PromotedAt(b, c)
    ensures PromotionScan(b, lo, hi) == WhiteWins <==>
      exists c :: lo <= c < hi && WhitePromotedAt(b, c) &&
        forall c' :: lo <= c' < c ==> !PromotedAt(b, c')
    ensures PromotionScan(b, lo, hi) == BlackWins <==>
      exists c :: lo <= c < hi && BlackPromotedAt(b, c) && !WhitePromotedAt(b, c) &&
        forall c' :: lo <= c' < c ==> !PromotedAt(b, c')
    decreases hi - lo
  {
    if lo < hi && !PromotedAt(b, lo) {
      PromotionScanMeaning(b, lo + 1, hi);
      var st := PromotionScan(b, lo, hi);
      if st == WhiteWins {
        var c :| lo + 1 <= c < hi && WhitePromotedAt(b, c) &&
          forall c' :: lo + 1 <= c' < c ==> !PromotedAt(b, c');
        assert forall c' :: lo <= c' < c ==> !PromotedAt(b, c');
      }
      if st == BlackWins {
        var c :| lo + 1 <= c < hi && BlackPromotedAt(b, c) && !WhitePromotedAt(b, c) &&
          forall c' :: lo + 1 <= c' < c ==> !PromotedAt(b, c');
        assert forall c' :: lo <= c' < c ==> !PromotedAt(b, c');
      }
    }
  }

  /** When only one colour has a promoted pawn in the scanned columns, that
      colour wins. */
  lemma PromotionScanDecides(b: Board, lo: int, hi: int)
    requires WellFormed(b) && 0 <= lo <= hi <= 8
    ensures (exists c :: lo <= c < hi && WhitePromotedAt(b, c)) &&
            (forall c :: lo <= c < hi ==> !BlackPromotedAt(b, c))
            ==> PromotionScan(b, lo, hi) == WhiteWins
    ensures (exists c :: lo <= c < hi && BlackPromotedAt(b, c)) &&
            (forall c :: lo <= c < hi ==> !WhitePromotedAt(b, c))
            ==> PromotionScan(b, lo, hi) == BlackWins
  {
    PromotionScanMeaning(b, lo, hi);
    if (exists c :: lo <= c < hi && WhitePromotedAt(b, c)) &&
       (forall c :: lo <= c < hi ==> !BlackPromotedAt(b, c)) {
      assert PromotionScan(b, lo, hi) != BlackWins;
      assert PromotionScan(b, lo, hi) != Playing;
    }
    if (exists c :: lo <= c < hi && BlackPromotedAt(b, c)) &&
       (forall c :: lo <= c < hi ==> !WhitePromotedAt(b, c)) {
      assert PromotionScan(b, lo, hi) != WhiteWins;
      assert PromotionScan(b, lo, hi) != Playing;
    }
  }

  /** A row holds no copy of p exactly when its count is zero. */
  lemma {:induction false} RowCountZero(row: seq<Cell>, p: Piece)
    ensures RowCount(row, p) == 0 <==> forall c :: 0 <= c < |row| ==> row[c] != Some(p)
  {
    if row != [] {
      var init := row[..|row| - 1];
      RowCountZero(init, p);
      assert forall c :: 0 <= c < |init| ==> init[c] == row[c];
    }
  }

  /** The board count of p is zero exactly when no cell holds p. */
  lemma {:induction false} BoardCountZero(rows: seq<seq<Cell>>, p: Piece)
    ensures BoardCount(rows, p) == 0 <==>
      forall r, c :: 0 <= r < |rows| && 0 <= c < |rows[r]| ==> rows[r][c] != Some(p)
  {
    if rows != [] {
      var init := rows[..|rows| - 1];
      BoardCountZero(init, p);
      RowCountZero(rows[|rows| - 1], p);
      assert forall r :: 0 <= r < |init| ==> init[r] == rows[r];
    }
  }

  function Occurs(x: Cell, p: Piece): nat {
    if x == Some(p) then 1 else 0
  }

  /** Overwriting one cell of a row changes its count of p by what left and
      what arrived. */
  lemma {:induction false} RowCountUpdate(row: seq<Cell>, c: int, x: Cell, p: Piece)
    requires 0 <= c < |row|
    ensures RowCount(row[c := x], p) + Occurs(row[c], p) == RowCount(row, p) + Occurs(x, p)
    decreases |row|
  {
    var n := |row|;
    var row' := row[c := x];
    if c == n - 1 {
      assert row'[..n - 1] == row[..n - 1];
    } else {
      assert row'[..n - 1] == row[..n - 1][c := x];
      RowCountUpdate(row[..n - 1], c, x, p);
    }
  }

  /** Replacing one row changes the board count of p by the two rows' counts. */
  lemma {:induction false} BoardCountUpdate(rows: seq<seq<Cell>>, r: int, newRow: seq<Cell>, p: Piece)
    requires 0 <= r < |rows|
    ensures BoardCount(rows[r := newRow], p) + RowCount(rows[r], p) == BoardCount(rows, p) + RowCount(newRow, p)
    decreases |rows|
  {
    var n := |rows|;
    var rows' := rows[r := newRow];
    if r == n - 1 {
      assert rows'[..n - 1] == rows[..n - 1];
    } else {
      assert rows'[..n - 1] == rows[..n - 1][r := newRow];
      BoardCountUpdate(rows[..n - 1], r, newRow, p);
    }
  }

  /** Setting one cell changes the board count of p by what left and what arrived. */
  lemma SetCellCount(b: Board, row: int, col: int, x: Cell, p: Piece)
    requires WellFormed(b) && OnBoard(row, col)
    ensures BoardCount(SetCell(b, row, col, x), p) + Occurs(b[row][col], p) == BoardCount(b, p) + Occurs(x, p)
  {
    RowCountUpdate(b[row], col, x, p);
    BoardCountUpdate(b, row, b[row][col := x], p);
  }

  /** Bishop Hunt: black wins exactly when a black pawn stands on row 7 in
      columns 0..2; otherwise white wins exactly when no black pawn is left on
      the board; the result is never `draw`. */
  lemma BishopHuntStatusMeaning(b: Board)
    requires WellFormed(b)
    ensures BishopHuntStatus(b) != Draw
    ensures BishopHuntStatus(b) == BlackWins <==> exists c :: 0 <= c < 3 && b[7][c] == Some(BlackPawn)
    ensures BishopHuntStatus(b) == WhiteWins <==>
      (forall c :: 0 <= c < 3 ==> b[7][c] != Some(BlackPawn)) &&
      (forall r, c :: OnBoard(r, c) ==> b[r][c] != Some(BlackPawn))
  {
    BoardCountZero(b, BlackPawn);
    if exists c :: 0 <= c < 3 && b[7][c] == Some(BlackPawn) {
      var c :| 0 <= c < 3 && b[7][c] == Some(BlackPawn);
      assert BlackPromotedAt(b, c);
    }
  }

  /** No variant ever reports `draw`. */
  lemma WinConditionNeverDraw(v: Variant, s: GameState)
    requires WellFormed(s.board)
    ensures WinCondition(v, s) != Draw
  {
    match v {
      case PawnRace => PromotionScanMeaning(s.board, 0, 8);
      case ThreePawns => PromotionScanMeaning(s.board, 5, 8);
      case BishopHunt => BishopHuntStatusMeaning(s.board);
    }
  }

  /** Every variant's initial position is still in play, and holds only
      pieces of the variant's allowed types. */
  lemma InitialBoardInPlay(v: Variant, s: GameState)
    requires s.board == InitialBoard(v)
    ensures WinCondition(v, s) == Playing
    ensures forall r, c :: OnBoard(r, c) && s.board[r][c].Some? ==>
      s.board[r][c].value.kind in v.AllowedPieces()
  {
    var b := s.board;
    match v {
      case PawnRace =>
        PromotionScanMeaning(b, 0, 8);
      case ThreePawns =>
        PromotionScanMeaning(b, 5, 8);
      case BishopHunt =>
        BishopHuntStatusMeaning(b);
        assert b[1][0] == Some(BlackPawn);
    }
  }

  /** A move any variant accepts starts from a piece of the side to move, of
      an allowed type, and ends on another square that does not hold a piece
      of the mover's colour. */
  lemma ValidMoveShape(v: Variant, from: string, to: string, s: GameState)
    requires IsSquare(from) && IsSquare(to) && WellFormed(s.board)
    requires ValidMove(v, from, to, s)
    ensures var (fr, fc) := SquareToCoords(from);
            var (tr, tc) := SquareToCoords(to);
            && s.board[fr][fc].Some?
            && s.board[fr][fc].value.color == s.currentPlayer
            && s.board[fr][fc].value.kind in v.AllowedPieces()
            && (fr, fc) != (tr, tc)
            && (s.board[tr][tc].None? || s.board[tr][tc].value.color != s.currentPlayer)
  {
  }

  /** Pawn Race and Three Pawns Sprint: a move is accepted exactly when the
      source holds a pawn of the side to move and the destination is in the
      pawn's reference target set (one forward onto an empty square, two from
      the start row over an empty square, or one diagonal onto an opponent). */
  lemma PawnVariantMoveIff(v: Variant, from: string, to: string, s: GameState)
    requires v == PawnRace || v == ThreePawns
    requires IsSquare(from) && IsSquare(to) && WellFormed(s.board)
    ensures var (fr, fc) := SquareToCoords(from);
            var (tr, tc) := SquareToCoords(to);
            ValidMove(v, from, to, s) <==>
              && s.board[fr][fc] == Some(Piece(Pawn, s.currentPlayer))
              && (tr, tc) in PawnTargets(s.board, fr, fc, s.currentPlayer)
  {
    var (fr, fc) := SquareToCoords(from);
    var (tr, tc) := SquareToCoords(to);
    PawnMoveMatchesTargets(s.board, fr, fc, tr, tc, s.currentPlayer);
  }

  /** Bishop Hunt rejects a move from an empty square, of the opponent's
      piece, of a white pawn, of a black bishop, or of any other piece type. */
  lemma BishopHuntRejects(from: string, to: string, s: GameState)
    requires IsSquare(from) && IsSquare(to) && WellFormed(s.board)
    ensures var (fr, fc) := SquareToCoords(from);
            var piece := s.board[fr][fc];
            || piece.None?
            || piece.value.color != s.currentPlayer
            || piece.value == WhitePawn
            || piece.value == Piece(Bishop, Black)
            || piece.value.kind !in {Pawn, Bishop}
            ==> !ValidMove(BishopHunt, from, to, s)
  {
  }

  /** Bishop Hunt: a black pawn of the side to move obeys the shared pawn rule
      moving down from row 1; the white bishop's move is accepted exactly when
      it is a proper diagonal, every square strictly between is empty, and the
      destination is not a white piece. */
  lemma BishopHuntMoveIff(from: string, to: string, s: GameState)
    requires IsSquare(from) && IsSquare(to) && WellFormed(s.board)
    ensures var (fr, fc) := SquareToCoords(from);
            var (tr, tc) := SquareToCoords(to);
            && (s.board[fr][fc] == Some(BlackPawn) && s.currentPlayer == Black ==>
                 (ValidMove(BishopHunt, from, to, s) <==>
                    (tr, tc) in PawnTargets(s.board, fr, fc, Black)))
            && (s.board[fr][fc] == Some(WhiteBishop) && s.currentPlayer == White ==>
                 (ValidMove(BishopHunt, from, to, s) <==>
                    && Abs(tr - fr) == Abs(tc - fc) > 0
                    && (forall k :: 0 < k < Abs(tr - fr) ==>
                          s.board[Toward(fr, tr, k)][Toward(fc, tc, k)].None?)
                    && (s.board[tr][tc].None? || s.board[tr][tc].value.color == Black)))
  {
    var (fr, fc) := SquareToCoords(from);
    var (tr, tc) := SquareToCoords(to);
    PawnMoveMatchesTargets(s.board, fr, fc, tr, tc, Black);
  }

  /** Once the bishop is gone, white has no accepted move in Bishop Hunt:
      with white to move the game can no longer change. */
  lemma BishopHuntWhiteWithoutPieces(from: string, to: string, s: GameState)
    requires IsSquare(from) && IsSquare(to) && WellFormed(s.board)
    requires s.currentPlayer == White
    requires forall r, c :: OnBoard(r, c) && s.board[r][c].Some? ==> s.board[r][c].value.color == Black
    ensures !ValidMove(BishopHunt, from, to, s)
  {
  }

  /** From the Pawn Race start, "e2"-"e4" is accepted and "e2"-"e1" is not. */
  lemma PawnRaceOpening(s: GameState)
    requires s.board == InitialBoard(PawnRace) && s.currentPlayer == White
    ensures ValidMove(PawnRace, "e2", "e4", s)
    ensures ValidMove(PawnRace, "e2", "e3", s)
    ensures !ValidMove(PawnRace, "e2", "e1", s)
    ensures !ValidMove(PawnRace, "e7", "e5", s)
  {
    assert SquareToCoords("e2") == (6, 4);
    assert SquareToCoords("e4") == (4, 4);
    assert SquareToCoords("e3") == (5, 4);
    assert SquareToCoords("e1") == (7, 4);
    assert SquareToCoords("e7") == (1, 4);
  }
}
