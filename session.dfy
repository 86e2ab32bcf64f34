/** The game session: one board, the side to move, the status, the winner and
    the move history, changed in place by makeMove and replaced by resetGame.
    `Step` is the functional specification of makeMove; the class is proved
    to follow it, and the lemmas below say what a step does. */
module Session {
  import opened GameTypes
  import opened Coords
  import opened Variants
  import opened VariantFacts

  /** A history entry: the origin square, "x" when the capture test holds,
      then the destination square (lib/ecoChess.ts:473-474). */
  function MoveRecord(from: string, to: string, capture: bool): (m: string)
    ensures |m| == |from| + |to| + (if capture then 1 else 0)
    ensures m[..|from|] == from && m[|m| - |to|..] == to
    ensures capture ==> m[|from|] == 'x'
  {
    from + (if capture then "x" else "") + to
  }

  /** The state the constructor and resetGame install (white to move, no
      winner yet, empty history). */
  function InitialState(v: Variant): GameState {
    GameState(InitialBoard(v), White, Playing, None, [])
  }

  /** The winner a status implies. */
  function WinnerOf(st: GameStatus): Option<Color> {
    match st
    case WhiteWins => Some(White)
    case BlackWins => Some(Black)
    case _ => None
  }

  /** What holds of every state a session goes through. */
  ghost predicate Invariant(v: Variant, s: GameState) {
    && WellFormed(s.board)
    // the stored status is the variant's verdict on the stored board
    && s.gameStatus == WinCondition(v, s)
    && s.winner == WinnerOf(s.gameStatus)
    // white moves after an even number of moves
    && (s.currentPlayer == White <==> |s.moveHistory| % 2 == 0)
    && forall r, c :: OnBoard(r, c) && s.board[r][c].Some? ==>
         s.board[r][c].value.kind in v.AllowedPieces()
  }

  /** makeMove as a function of the old state: (accepted?, new state). */
  ghost function Step(v: Variant, s: GameState, from: string, to: string): (r: (bool, GameState))
    requires IsSquare(from) && IsSquare(to) && WellFormed(s.board)
    ensures !r.0 ==> r.1 == s
    ensures r.0 ==> s.gameStatus == Playing && ValidMove(v, from, to, s)
    ensures r.0 ==>
      && WellFormed(r.1.board)
      && r.1.currentPlayer == Opponent(s.currentPlayer)
      && |r.1.moveHistory| == |s.moveHistory| + 1
  {
    var (fr, fc) := SquareToCoords(from);
    var (tr, tc) := SquareToCoords(to);
    var piece := s.board[fr][fc];
    if s.gameStatus != Playing || !ValidMove(v, from, to, s) || piece.None? then
      (false, s)
    else
      var placed := SetCell(SetCell(s.board, tr, tc, piece), fr, fc, None);
      // the capture marker is read from the destination after the piece is placed
      var capture := placed[tr][tc].Some?;
      var moved := s.(
        board := placed,
        moveHistory := s.moveHistory + [MoveRecord(from, to, capture)],
        currentPlayer := Opponent(s.currentPlayer));
      var status := WinCondition(v, moved);
      var winner :=
        if status == WhiteWins then Some(White)
        else if status == BlackWins then Some(Black)
        else s.winner;
      (true, moved.(gameStatus := status, winner := winner))
  }

  class EcoChessGame {
    const variant: Variant
    var gameState: GameState

    ghost predicate Valid()
      reads this
    {
      Invariant(variant, gameState)
    }

    /** Starts the variant's game from a fresh copy of its initial board. */
    constructor (v: Variant)
      ensures Valid()
      ensures variant == v && gameState == InitialState(v)
    {
      variant := v;
      var board := BuildInitialBoard(v);
      gameState := GameState(board, White, Playing, None, []);
      InitialStateInvariant(v);
    }

    method MakeMove(from: string, to: string) returns (ok: bool)
      requires Valid() && IsSquare(from) && IsSquare(to)
      modifies this
      ensures Valid()
      ensures (ok, gameState) == Step(variant, old(gameState), from, to)
    {
      ghost var before := gameState;
      if gameState.gameStatus != Playing {
        return false;
      }
      var valid := IsValidMove(variant, from, to, gameState);
      if !valid {
        return false;
      }
      var (fromRow, fromCol) := SquareToCoords(from);
      var (toRow, toCol) := SquareToCoords(to);
      // The source re-checks that the piece exists; a move the variant
      // accepted always starts from a piece (ValidMoveShape).
      ValidMoveShape(variant, from, to, gameState);
      var piece := gameState.board[fromRow][fromCol];
      var board := SetCell(gameState.board, toRow, toCol, piece);
      board := SetCell(board, fromRow, fromCol, None);
      gameState := gameState.(
        board := board,
        moveHistory := gameState.moveHistory + [MoveRecord(from, to, board[toRow][toCol].Some?)],
        currentPlayer := Opponent(gameState.currentPlayer));
      var status := EvaluateWinCondition(variant, gameState);
      gameState := gameState.(gameStatus := status);
      if status == WhiteWins {
        gameState := gameState.(winner := Some(White));
      } else if status == BlackWins {
        gameState := gameState.(winner := Some(Black));
      }
      StepPreservesInvariant(variant, before, from, to);
      return true;
    }

    /** The current state, as a value. */
    method GetGameState() returns (s: GameState)
      ensures s == gameState
    {
      s := gameState;
    }

    /** Back to the start of the same variant. */
    method ResetGame()
      modifies this
      ensures Valid()
      ensures gameState == InitialState(variant)
    {
      var board := BuildInitialBoard(variant);
      gameState := GameState(board, White, Playing, None, []);
      InitialStateInvariant(variant);
    }
  }

  lemma InitialStateInvariant(v: Variant)
    ensures Invariant(v, InitialState(v))
  {
    InitialBoardInPlay(v, InitialState(v));
  }

  /** A move is refused, and the state left exactly as it was, when the game
      is over, when the variant rejects the move, or when the source square is
      empty; otherwise it is accepted. */
  lemma StepRejection(v: Variant, s: GameState, from: string, to: string)
    requires IsSquare(from) && IsSquare(to) && WellFormed(s.board)
    ensures var (fr, fc) := SquareToCoords(from);
            && (!Step(v, s, from, to).0 ==> Step(v, s, from, to).1 == s)
            && (s.gameStatus != Playing ==> !Step(v, s, from, to).0)
            && (!ValidMove(v, from, to, s) ==> !Step(v, s, from, to).0)
            && (s.board[fr][fc].None? ==> !Step(v, s, from, to).0)
            && (Step(v, s, from, to).0 <==> s.gameStatus == Playing && ValidMove(v, from, to, s))
  {
    if ValidMove(v, from, to, s) {
      ValidMoveShape(v, from, to, s);
    }
  }

  /** An accepted move puts the moving piece on the destination, empties the
      source, leaves every other cell alone, hands the turn to the other side
      and appends exactly one history entry, `from + "x" + to`: the marker is
      present even when the destination was empty. */
  lemma StepSuccess(v: Variant, s: GameState, from: string, to: string)
    requires IsSquare(from) && IsSquare(to) && WellFormed(s.board)
    requires Step(v, s, from, to).0
    ensures var (fr, fc) := SquareToCoords(from);
            var (tr, tc) := SquareToCoords(to);
            var t := Step(v, s, from, to).1;
            && WellFormed(t.board)
            && t.board[tr][tc] == s.board[fr][fc]
            && t.board[fr][fc] == None
            && (forall r, c :: OnBoard(r, c) && (r, c) != (fr, fc) && (r, c) != (tr, tc) ==>
                  t.board[r][c] == s.board[r][c])
            && t.currentPlayer == Opponent(s.currentPlayer)
            && t.moveHistory == s.moveHistory + [from + "x" + to]
  {
    ValidMoveShape(v, from, to, s);
  }

  /** After an accepted move the status is the variant's verdict on the new
      state; the winner is set to the winning colour on a win and otherwise
      kept as it was. */
  lemma StepStatus(v: Variant, s: GameState, from: string, to: string)
    requires IsSquare(from) && IsSquare(to) && WellFormed(s.board)
    requires Step(v, s, from, to).0
    ensures var t := Step(v, s, from, to).1;
            && WellFormed(t.board)
            && t.gameStatus == WinCondition(v, t)
            && t.gameStatus != Draw
            && (t.gameStatus == WhiteWins ==> t.winner == Some(White))
            && (t.gameStatus == BlackWins ==> t.winner == Some(Black))
            && (t.gameStatus == Playing ==> t.winner == s.winner)
  {
    ValidMoveShape(v, from, to, s);
    WinConditionNeverDraw(v, Step(v, s, from, to).1);
  }

  /** Once the game is over every move is refused: a finished game stays
      finished until it is reset. */
  lemma FinishedGameIsFrozen(v: Variant, s: GameState, from: string, to: string)
    requires IsSquare(from) && IsSquare(to) && WellFormed(s.board)
    requires s.gameStatus != Playing
    ensures Step(v, s, from, to) == (false, s)
  {
  }

  /** Every step keeps the session invariant: the stored status always equals
      the variant's verdict on the board, the winner matches the status, the
      side to move follows the parity of the history, and only the variant's
      allowed piece types are on the board. */
  lemma StepPreservesInvariant(v: Variant, s: GameState, from: string, to: string)
    requires IsSquare(from) && IsSquare(to) && Invariant(v, s)
    ensures Invariant(v, Step(v, s, from, to).1)
  {
    if Step(v, s, from, to).0 {
      var t := Step(v, s, from, to).1;
      var (fr, fc) := SquareToCoords(from);
      var (tr, tc) := SquareToCoords(to);
      ValidMoveShape(v, from, to, s);
      StepSuccess(v, s, from, to);
      StepStatus(v, s, from, to);
      assert |t.moveHistory| == |s.moveHistory| + 1;
      assert s.winner == None;
      forall r, c | OnBoard(r, c) && t.board[r][c].Some?
        ensures t.board[r][c].value.kind in v.AllowedPieces()
      {
        if (r, c) == (tr, tc) {
          assert t.board[r][c] == s.board[fr][fc];
        } else {
          assert t.board[r][c] == s.board[r][c];
        }
      }
    }
  }

  /** Moves never create pieces: an accepted move keeps the count of every
      piece except the captured one, which loses exactly the one captured. */
  lemma StepPieceCounts(v: Variant, s: GameState, from: string, to: string, p: Piece)
    requires IsSquare(from) && IsSquare(to) && WellFormed(s.board)
    requires Step(v, s, from, to).0
    ensures var (tr, tc) := SquareToCoords(to);
            var t := Step(v, s, from, to).1;
            BoardCount(t.board, p) == BoardCount(s.board, p) - Occurs(s.board[tr][tc], p)
    ensures BoardCount(Step(v, s, from, to).1.board, p) <= BoardCount(s.board, p)
  {
    var (fr, fc) := SquareToCoords(from);
    var (tr, tc) := SquareToCoords(to);
    ValidMoveShape(v, from, to, s);
    var piece := s.board[fr][fc];
    var b1 := SetCell(s.board, tr, tc, piece);
    SetCellCount(s.board, tr, tc, piece, p);
    SetCellCount(b1, fr, fc, None, p);
    assert b1[fr][fc] == piece;
  }

  /** Bishop Hunt: the capture of the last black pawn ends the game in white's
      favour, whether or not any pawn ever reached row 7. */
  lemma BishopHuntLastCapture(s: GameState, from: string, to: string)
    requires IsSquare(from) && IsSquare(to) && Invariant(BishopHunt, s)
    requires Step(BishopHunt, s, from, to).0
    requires var (tr, tc) := SquareToCoords(to);
             s.board[tr][tc] == Some(BlackPawn) && BoardCount(s.board, BlackPawn) == 1
    ensures Step(BishopHunt, s, from, to).1.gameStatus == WhiteWins
    ensures Step(BishopHunt, s, from, to).1.winner == Some(White)
  {
    var t := Step(BishopHunt, s, from, to).1;
    StepPieceCounts(BishopHunt, s, from, to, BlackPawn);
    StepSuccess(BishopHunt, s, from, to);
    BoardCountZero(t.board, BlackPawn);
    BishopHuntStatusMeaning(t.board);
  }

  /** Pawn Race from the start: "e2"-"e4" is accepted, black is to move and the
      history reads ["e2xe4"]; then "e2"-"e1" would be refused. */
  lemma PawnRaceFirstMove()
    ensures var t := Step(PawnRace, InitialState(PawnRace), "e2", "e4");
            && t.0
            && t.1.currentPlayer == Black
            && t.1.gameStatus == Playing
            && t.1.moveHistory == ["e2xe4"]
  {
    var s := InitialState(PawnRace);
    PawnRaceOpening(s);
    InitialStateInvariant(PawnRace);
    StepSuccess(PawnRace, s, "e2", "e4");
    StepPreservesInvariant(PawnRace, s, "e2", "e4");
    var t := Step(PawnRace, s, "e2", "e4").1;
    assert t.board[4][4] == Some(WhitePawn) && t.board[6][4] == None;
    assert forall c :: 0 <= c < 8 ==> !PromotedAt(t.board, c);
    PromotionScanMeaning(t.board, 0, 8);
    assert "e2" + "x" + "e4" == "e2xe4";
  }
}
