/**
 * Moves and their long-algebraic text form ("e2e4", "e7e8q"). The board
 * services the parser needs are parameters: square decoding, the piece code
 * on a square (-1 when it is empty) and the piece built from a code.
 */
module Moves {
  import opened Wrappers
  import opened Pieces

  datatype CastlingType = Short | Long

  datatype Move = Move(
    startSquare: int,
    targetSquare: int,
    piece: Piece,
    isCapture: bool,
    capturedPiece: Option<Piece>,
    isCastling: bool,
    castleType: CastlingType,
    isEnPassant: bool,
    enPassantSquare: int,
    isPromotion: bool,
    promotionPiece: Option<Piece>)

  /** The field-wise constructor, with the source's default arguments. */
  function NewMove(
    startSquare: int, targetSquare: int, piece: Piece,
    isCapture: bool := false, capturedPiece: Option<Piece> := None,
    isCastling: bool := false, castleType: CastlingType := Short,
    isEnPassant: bool := false, enPassantSquare: int := -1,
    isPromotion: bool := false, promotionPiece: Option<Piece> := None): (m: Move)
    ensures m.startSquare == startSquare && m.targetSquare == targetSquare && m.piece == piece
    ensures m.isCapture == isCapture && m.capturedPiece == capturedPiece
    ensures m.isCastling == isCastling && m.castleType == castleType
    ensures m.isEnPassant == isEnPassant && m.enPassantSquare == enPassantSquare
    ensures m.isPromotion == isPromotion && m.promotionPiece == promotionPiece
  {
    Move(startSquare, targetSquare, piece, isCapture, capturedPiece, isCastling, castleType,
         isEnPassant, enPassantSquare, isPromotion, promotionPiece)
  }

  /** A move that is not a capture, castling, en passant or promotion. */
  predicate IsQuiet(m: Move) {
    && !m.isCapture && m.capturedPiece == None
    && !m.isCastling && m.castleType == Short
    && !m.isEnPassant && m.enPassantSquare == -1
    && !m.isPromotion && m.promotionPiece == None
  }

  /** With only the three required arguments the constructor builds a quiet move. */
  lemma NewMoveDefaults(startSquare: int, targetSquare: int, piece: Piece)
    ensures IsQuiet(NewMove(startSquare, targetSquare, piece))
    ensures NewMove(startSquare, targetSquare, piece).startSquare == startSquare
    ensures NewMove(startSquare, targetSquare, piece).targetSquare == targetSquare
  {
  }

  /** What the parser reads from the board; none of it is part of this model. */
  datatype BoardView = BoardView(
    squareOf: string -> int,     // Board.ConvertNotationSquare
    pieceCodeAt: int -> int,     // Board.FindPieceType, -1 for an empty square
    pieceOfCode: int -> Piece)   // the Piece(int) constructor

  datatype ParseError =
    | TooShort                   // fewer than four characters: the square slices fail
    | UnknownPromotion(c: char)  // a fifth character outside p n b r q

  /** The promotion letters the parser accepts. */
  function PromotionType(c: char): Option<PieceType>
  {
    match c
    case 'p' => Some(Pawn)
    case 'n' => Some(Knight)
    case 'b' => Some(Bishop)
    case 'r' => Some(Rook)
    case 'q' => Some(Queen)
    case _ => None
  }

  /** Inverse of PromotionType on the five promotable types. */
  function PromotionLetter(t: PieceType): (c: char)
    requires t in {Pawn, Knight, Bishop, Rook, Queen}
    ensures PromotionType(c) == Some(t)
  {
    match t
    case Pawn => 'p'
    case Knight => 'n'
    case Bishop => 'b'
    case Rook => 'r'
    case Queen => 'q'
  }

  /** The source's offset rule for a pawn stepping diagonally. */
  predicate IsDiagonalStep(start: int, target: int) {
    start - target in {7, -7, 9, -9}
  }

  /** Builds the move a text denotes on a board, classifying the special moves. */
  function ParseMove(text: string, view: BoardView): (r: Result<Move, ParseError>)
    ensures |text| < 4 <==> r == Failure(TooShort)
    ensures |text| == 5 && PromotionType(text[4]).None? <==> r.Failure? && r.error.UnknownPromotion?
    ensures r.Success? ==>
      var m := r.value;
      && m.startSquare == view.squareOf(text[0..2])
      && m.targetSquare == view.squareOf(text[2..4])
      && m.piece == view.pieceOfCode(view.pieceCodeAt(m.startSquare))
      && (m.isCapture <==> view.pieceCodeAt(m.targetSquare) != -1)
      && (m.isCastling <==> m.piece.kind == King && (m.startSquare - m.targetSquare) in {2, -2})
      && (m.castleType == Long <==> m.isCastling && m.targetSquare > m.startSquare)
      && (m.isEnPassant <==>
            m.piece.kind == Pawn && view.pieceCodeAt(m.targetSquare) == -1
            && IsDiagonalStep(m.startSquare, m.targetSquare))
      && (m.isEnPassant ==>
            m.enPassantSquare == (if m.startSquare > m.targetSquare then m.targetSquare + 8 else m.targetSquare - 8))
      && (!m.isEnPassant ==> m.enPassantSquare == -1)
      && m.capturedPiece == Some(view.pieceOfCode(view.pieceCodeAt(
           if m.isEnPassant then m.enPassantSquare else m.targetSquare)))
      && (m.isPromotion <==> |text| == 5)
      && (m.isPromotion ==> m.promotionPiece == Some(Piece(m.piece.colour, PromotionType(text[4]).value)))
      && (!m.isPromotion ==> m.promotionPiece == None)
  {
    if |text| < 4 then Failure(TooShort)
    else
      var start := view.squareOf(text[0..2]);
      var target := view.squareOf(text[2..4]);
      var piece := view.pieceOfCode(view.pieceCodeAt(start));
      var isCapture := view.pieceCodeAt(target) != -1;
      var captured := view.pieceOfCode(view.pieceCodeAt(target));
      var isCastling := piece.kind == King && (start - target == 2 || start - target == -2);
      var castleType := if isCastling then (if target > start then Long else Short) else Short;
      var isEnPassant := piece.kind == Pawn && !isCapture
        && (start - target == 7 || start - target == -7 || start - target == 9 || start - target == -9);
      var enPassantSquare :=
        if isEnPassant then (if start - target > 0 then target + 8 else target - 8) else -1;
      var capturedPiece := if isEnPassant then view.pieceOfCode(view.pieceCodeAt(enPassantSquare)) else captured;
      if |text| == 5 then
        match PromotionType(text[4])
        case None => Failure(UnknownPromotion(text[4]))
        case Some(t) =>
          Success(Move(start, target, piece, isCapture, Some(capturedPiece), isCastling, castleType,
                       isEnPassant, enPassantSquare, true, Some(Piece(piece.colour, t))))
      else
        Success(Move(start, target, piece, isCapture, Some(capturedPiece), isCastling, castleType,
                     isEnPassant, enPassantSquare, false, None))
  }

  /**
   * The consistency every parsed move has: castling only for kings, en
   * passant never flagged as a capture and never together with castling,
   * non-castling moves typed Short, a promotion piece of the mover's colour
   * exactly when promoting.
   */
  predicate Consistent(m: Move) {
    && (m.isCastling ==> m.piece.kind == King && !m.isEnPassant)
    && (!m.isCastling ==> m.castleType == Short)
    && (m.isEnPassant ==> !m.isCapture && m.piece.kind == Pawn)
    && (m.isEnPassant ==> m.enPassantSquare - m.targetSquare in {8, -8})
    && (!m.isEnPassant ==> m.enPassantSquare == -1)
    && m.capturedPiece.Some?
    && (m.isPromotion <==> m.promotionPiece.Some?)
    && (m.isPromotion ==>
          (m.promotionPiece.value.colour == m.piece.colour
           && m.promotionPiece.value.kind in {Pawn, Knight, Bishop, Rook, Queen}))
  }

  lemma ParsedMovesConsistent(text: string, view: BoardView)
    ensures ParseMove(text, view).Success? ==> Consistent(ParseMove(text, view).value)
  {
  }

  /** The text of a move: both square names, then the promotion letter if any. */
  function MoveText(m: Move, squareName: int -> string): string
    requires m.isPromotion ==> m.promotionPiece.Some? && m.promotionPiece.value.kind in {Pawn, Knight, Bishop, Rook, Queen}
  {
    squareName(m.startSquare) + squareName(m.targetSquare)
    + (if m.isPromotion then [PromotionLetter(m.promotionPiece.value.kind)] else [])
  }

  /**
   * Writing a parsed move back as text and parsing that text on the same
   * board gives the same move, provided the square names are two characters
   * long and decode back to their squares.
   */
  lemma ParseMoveTextRoundTrip(text: string, view: BoardView, squareName: int -> string)
    requires ParseMove(text, view).Success?
    requires var m := ParseMove(text, view).value;
      && |squareName(m.startSquare)| == 2 && |squareName(m.targetSquare)| == 2
      && view.squareOf(squareName(m.startSquare)) == m.startSquare
      && view.squareOf(squareName(m.targetSquare)) == m.targetSquare
    ensures Consistent(ParseMove(text, view).value)
    ensures ParseMove(MoveText(ParseMove(text, view).value, squareName), view) == ParseMove(text, view)
  {
    var m := ParseMove(text, view).value;
    ParsedMovesConsistent(text, view);
    var t := MoveText(m, squareName);
    assert t[0..2] == squareName(m.startSquare);
    assert t[2..4] == squareName(m.targetSquare);
    assert |t| == 5 <==> m.isPromotion;
    if m.isPromotion {
      assert t[4] == PromotionLetter(m.promotionPiece.value.kind);
    }
  }
}
