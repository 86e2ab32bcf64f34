# Eco Chess rules engine in Dafny

This project models the rules engine of Eco Chess, a web game that offers three
pawn-race chess variants. It covers:

- the conversion between algebraic squares (`"e4"`) and board indices. Row 0 is
  rank 8 and column 0 is file `a`;
- the three variant policies: Pawn Race, Three Pawns Sprint and Bishop Hunt.
  Each has an initial board, a move check and a win condition;
- the `EcoChessGame` session object, which holds the board, the side to move,
  the status, the winner and the move history. `makeMove` changes this state in
  place and `resetGame` replaces it.

Files and modules:

- `types.dfy` (`GameTypes`): pieces, colours, statuses, the 8×8 board as
  `seq<seq<Option<Piece>>>`, and the `GameState` record.
- `coords.dfy` (`Coords`): `squareToCoords` and `coordsToSquare`.
- `pawn_rules.dfy` (`PawnRules`): the pawn rule that all three move checks
  share. It also gives an independent reference set of pawn destinations.
- `variants.dfy` (`Variants`): the variant tag, the initial boards, the move
  checks and the win conditions. Each is a specification function. Wherever the
  source uses loops, a method with those loops is proved equal to the function.
  These loops are the board builders, the bishop's ray-cast, the promotion
  column scan and the black-pawn count.
- `variant_facts.dfy` (`VariantFacts`): what the win conditions mean, what the
  legal moves look like, and facts about the initial positions.
- `session.dfy` (`Session`): `Step`, the functional specification of
  `makeMove`; the session invariant; the class `EcoChessGame`, proved to follow
  `Step`; and the lemmas about a step.

The source builds each variant's initial board once, when the module loads
(lib/ecoChess.ts:41-56, 153-168, 256-269), and the constructor and
`resetGame` deep-copy it (lines 408 and 500). The model instead runs the same
builder loops again in the constructor and in `resetGame`; the board they
produce is proved equal to the variant's initial board. Boards are values
here, so moves change only the session's own board and never the variant's.

The session invariant holds for every state a session reaches. It says:

- the stored status is the variant's win condition applied to the stored board;
- the winner matches the status;
- white is to move exactly when the history has an even length;
- only the variant's allowed piece types are on the board.

Behaviour of the code that the model keeps as it is:

- The history entry is always `from + "x" + to`, even for a move onto an
  empty cell, because line 473 reads the destination after line 457 has
  placed the piece there.
- In Bishop Hunt black wins only with a pawn on row 7 in columns 0–2
  (line 273); a pawn that reaches row 7 in another column does not win.
- The code never produces `draw` and has no stalemate detection. In Bishop
  Hunt, if black captures the bishop without winning on that move, white has
  no accepted move and the game stays `playing` for good
  (`BishopHuntWhiteWithoutPieces`). A capture by a pawn that lands on row 7
  in columns 0–2 instead ends the game with `black-wins`.

## Model

| member | source | states |
|---|---|---|
| `Coords.SquareToCoords` | lib/ecoChess.ts:5-9 | a well-formed square maps to a cell on the board; row 0 is rank 8, column 0 is file a; converting back gives the same square |
| `Coords.CoordsToSquare` | lib/ecoChess.ts:11-15 | every board cell maps to a well-formed square `[a-h][1-8]` |
| `Coords.CoordsRoundTrip` | lib/ecoChess.ts:5-15 | converting a cell to a square and back gives the same (row, col) for all 64 cells |
| `PawnRules.PawnMove` | lib/ecoChess.ts:105-145 | the shared pawn rule (forward one, forward two from the start row over an empty middle cell, diagonal capture); an accepted move goes one or two rows in the colour's direction, at most one column sideways, and never onto its own colour |
| `PawnRules.PawnMoveMatchesTargets` | lib/ecoChess.ts:105-145 | the pawn check accepts a destination iff it is in the reference target set: one forward onto an empty cell, two forward from the start row over an empty cell onto an empty cell, or one diagonal onto an opposing piece |
| `PawnRules.PawnMoveShape` | lib/ecoChess.ts:105-145 | an accepted pawn move goes one row forward, or two from the start row in the same column; it moves at most one column sideways, never lands on its own colour, and moves sideways iff it captures |
| `PawnRules.BlockedDoubleStep` | lib/ecoChess.ts:121-134 | a two-row step whose middle cell is occupied is rejected |
| `Variants.InitialBoard` | lib/ecoChess.ts:41-56 | the variant's initial placement, also of lines 153-168 and 256-269: white pawns on row 6 and black pawns on row 1 (Pawn Race all columns, Three Pawns Sprint columns 5-7), or black pawns on row 1 in columns 0-2 and the white bishop on row 7, column 5 (Bishop Hunt); only allowed piece types, and no pawn starts on its promotion row |
| `Variants.PawnVariantMove` | lib/ecoChess.ts:75-146 | the move check of Pawn Race, and of Three Pawns Sprint (lines 185-249): an accepted move starts from a pawn of the side to move and goes to another cell |
| `Variants.BishopHuntMove` | lib/ecoChess.ts:295-396 | Bishop Hunt's move rule: an accepted move is by a black pawn or the white bishop of the side to move and goes to another cell |
| `Variants.PromotionScan` | lib/ecoChess.ts:58-74 | the promotion scan of Pawn Race and of Three Pawns Sprint (lines 170-184) is never `draw`; a white or black win names a column of the range holding a promoted pawn of that colour |
| `Variants.BishopHuntStatus` | lib/ecoChess.ts:271-294 | Bishop Hunt's status is never `draw`, and a black win names a column 0-2 of row 7 holding a black pawn |
| `Variants.FillRow` | lib/ecoChess.ts:45-53 | the builder loop puts the piece on columns lo..hi-1 of one row and leaves every other cell as it was |
| `Variants.BuildInitialBoard` | lib/ecoChess.ts:41-56 | the builder loops of each variant produce exactly the variant's initial board (the Three Pawns and Bishop Hunt builders are at lines 153-168 and 256-269) |
| `Variants.BishopHuntIsValidMove` | lib/ecoChess.ts:295-396 | Bishop Hunt's move check, with its ray-cast loop, accepts exactly the moves of the declarative rule, in which every cell strictly between the ends of the diagonal is empty |
| `Variants.ValidMove` | types/game.ts:25 | the variant's `isValidMove` field, as called at lib/ecoChess.ts:443: an accepted move starts from a piece of the side to move whose type the variant allows, and goes to a different cell |
| `Variants.IsValidMove` | lib/ecoChess.ts:443 | the session's call to the variant's move check returns the variant's move rule |
| `Variants.ScanPromotions` | lib/ecoChess.ts:58-74 | the promotion loop with its two early returns computes the column scan of Pawn Race (and of Three Pawns Sprint, lines 170-184) |
| `Variants.CountBlackPawns` | lib/ecoChess.ts:280-287 | the nested counting loops return the number of black pawns on the board |
| `Variants.BishopHuntWinCondition` | lib/ecoChess.ts:271-294 | Bishop Hunt's win-condition loops compute the Bishop Hunt status |
| `Variants.WinCondition` | types/game.ts:24 | the variant's `winCondition` field, as called at lib/ecoChess.ts:480: never `draw`; a pawn-variant win names a column with a promoted pawn of the winning colour; a Bishop Hunt black win names a column 0-2 of row 7 holding a black pawn |
| `Variants.EvaluateWinCondition` | lib/ecoChess.ts:480 | the session's call to the variant's win condition returns that variant's status |
| `VariantFacts.PromotionScanMeaning` | lib/ecoChess.ts:58-74 | the scan returns `playing` iff no scanned column has a promoted pawn. Otherwise it names the first such column, white before black within a column. It is never `draw` |
| `VariantFacts.PromotionScanDecides` | lib/ecoChess.ts:170-184 | if only white has a pawn on row 0 in the scanned columns, white wins; if only black has a pawn on row 7 there, black wins |
| `VariantFacts.RowCountZero` | lib/ecoChess.ts:282-286 | a row's count of a piece is zero iff no cell of the row holds it |
| `VariantFacts.BoardCountZero` | lib/ecoChess.ts:280-291 | the board count is zero iff no cell holds the piece |
| `VariantFacts.RowCountUpdate` | lib/ecoChess.ts:457-458 | overwriting one cell changes a row's count by what left and what arrived |
| `VariantFacts.BoardCountUpdate` | lib/ecoChess.ts:457-458 | replacing one row changes the board count by the difference of the two rows' counts |
| `VariantFacts.SetCellCount` | lib/ecoChess.ts:457-458 | a single-cell assignment changes a board count by what left and what arrived |
| `VariantFacts.BishopHuntStatusMeaning` | lib/ecoChess.ts:271-294 | black wins iff a black pawn is on row 7 in columns 0-2; otherwise white wins iff no black pawn is on the board; it is never `draw` |
| `VariantFacts.WinConditionNeverDraw` | lib/ecoChess.ts:71-73 | no variant's win condition yields `draw` |
| `VariantFacts.InitialBoardInPlay` | lib/ecoChess.ts:41-57 | every variant's initial board is still `playing` and holds only the variant's allowed piece types |
| `VariantFacts.ValidMoveShape` | lib/ecoChess.ts:88-103 | an accepted move starts from a piece of the side to move that has an allowed type; it goes to a different cell, which holds no piece of the mover's colour |
| `VariantFacts.PawnVariantMoveIff` | lib/ecoChess.ts:185-249 | in Pawn Race and Three Pawns Sprint, a move is accepted iff the source holds a pawn of the side to move and the destination is in its pawn target set |
| `VariantFacts.BishopHuntRejects` | lib/ecoChess.ts:308-357 | Bishop Hunt rejects a move from an empty cell, of the opponent's piece, of a white pawn, of a black bishop, or of any other piece type |
| `VariantFacts.BishopHuntMoveIff` | lib/ecoChess.ts:315-391 | a black pawn to move follows the pawn target set moving down. The white bishop's move is accepted iff `|Δrow| == |Δcol| > 0`, every cell strictly between is empty and the destination is not white |
| `VariantFacts.BishopHuntWhiteWithoutPieces` | lib/ecoChess.ts:308-312 | with no white piece on the board and white to move, Bishop Hunt accepts no move |
| `VariantFacts.PawnRaceOpening` | lib/ecoChess.ts:114-134 | from the Pawn Race start, e2-e4 and e2-e3 are accepted; e2-e1 and e7-e5 (with white to move) are not |
| `Session.MoveRecord` | lib/ecoChess.ts:473-474 | a history entry starts with the origin square, ends with the destination square, and has `x` between them exactly when the capture test holds |
| `Session.Step` | lib/ecoChess.ts:438-488 | makeMove as a function of the old state: a refused move changes nothing; an accepted one needs status `playing` and a variant-accepted move, hands the turn to the other side and appends one history entry |
| `Session.InitialStateInvariant` | lib/ecoChess.ts:404-412 | the initial state (white to move, `playing`, no winner, empty history) satisfies the session invariant |
| `Session.EcoChessGame.constructor` | lib/ecoChess.ts:404-415 | a new session holds a fresh copy of the variant's initial board, white to move, `playing`, no winner and an empty history |
| `Session.EcoChessGame.MakeMove` | lib/ecoChess.ts:438-488 | the result and the new state are exactly `Step` of the old state; the session invariant is kept |
| `Session.EcoChessGame.GetGameState` | lib/ecoChess.ts:490-492 | returns the current state |
| `Session.EcoChessGame.ResetGame` | lib/ecoChess.ts:498-506 | the state becomes the variant's initial state, whatever happened before, and the invariant holds |
| `Session.StepRejection` | lib/ecoChess.ts:438-454 | a move is refused iff the game is over or the variant rejects it. An empty source is always refused. A refused move changes nothing |
| `Session.StepSuccess` | lib/ecoChess.ts:456-477 | an accepted move puts the piece on the destination and empties the source; every other cell is unchanged; the turn flips; exactly `from + "x" + to` is appended to the history |
| `Session.StepStatus` | lib/ecoChess.ts:479-485 | after an accepted move the status is the variant's win condition on the new state. The winner is set to `w`/`b` on a white/black win and otherwise kept |
| `Session.FinishedGameIsFrozen` | lib/ecoChess.ts:439-441 | once the status is not `playing`, every move is refused and nothing changes |
| `Session.StepPreservesInvariant` | lib/ecoChess.ts:438-488 | every step keeps the session invariant. The status equals the win condition of the board and the winner matches the status. The side to move follows the history's parity. Only allowed piece types are on the board |
| `Session.StepPieceCounts` | lib/ecoChess.ts:456-458 | an accepted move keeps the count of every piece except the captured one, which drops by one; no piece is created |
| `Session.BishopHuntLastCapture` | lib/ecoChess.ts:279-291 | in Bishop Hunt, capturing the last black pawn gives `white-wins` with winner `w` |
| `Session.PawnRaceFirstMove` | lib/ecoChess.ts:472-477 | from the Pawn Race start, e2-e4 is accepted, black is to move, the game goes on, and the history is `["e2xe4"]` |

## Left out

- The chess.js mirror is not modelled: `chessJsToGameBoard` (lib/ecoChess.ts:18-35), `setupBoard` (lib/ecoChess.ts:417-436), the rebuild loop in `makeMove` (lib/ecoChess.ts:461-470) and `getCurrentFen` (lib/ecoChess.ts:494-496). They call a foreign library, and nothing in the rules reads them.
- Position-notation (FEN) round trips: the repository has no codec of its own, and the session has no load operation.
- Malformed square strings: `squareToCoords` does not validate its input. The model requires `[a-h][1-8]` squares, which is what the callers pass.
- `Session.EcoChessGame.GetGameState` returns the state as a value. The source returns a shallow copy whose board and history are shared with the session. The model does not capture that sharing.
- The board is a value held in a field. The source's in-place cell assignments become two single-cell updates of that value.
- `makeMove`'s re-check of the source piece (lib/ecoChess.ts:451-454) is in `Step`'s refusal condition. The method has no such branch, because the variant check has already established that the piece exists (`VariantFacts.ValidMoveShape`).
- The variant's name, description and allowed-piece list are data (`Variants.Variant.Name`, `Description`, `AllowedPieces`). Only the allowed-piece list takes part in a property, the session invariant.
- The `Move` interface (types/game.ts:28-34) is not used by the engine.
- Logging (`console.log`), the UI components, the context reducer, the move timer and the database and realtime services are outside the engine.
- Stalemate, draw detection, promotion and en passant are not in the code, so the model does not have them either.
