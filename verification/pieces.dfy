/** The piece vocabulary of the engine: colours, piece types and pieces. */
module Pieces {

  /** The side a piece belongs to; White is declared first (ordinal 0). */
  datatype Colour = White | Black

  /** The six real piece types in declaration order, then the sentinel Empty. */
  datatype PieceType = Pawn | Knight | Bishop | Rook | Queen | King | Empty

  /** A piece is a colour paired with a type, and nothing else. */
  datatype Piece = Piece(colour: Colour, kind: PieceType)

  /** The enum value of a colour (White = 0, Black = 1). */
  function ColourOrdinal(c: Colour): (n: nat)
    ensures n < 2
  {
    match c
    case White => 0
    case Black => 1
  }

  /** The enum value of a piece type, in declaration order. */
  function TypeOrdinal(t: PieceType): (n: nat)
    ensures n < 7
    ensures n == 6 <==> t == Empty
  {
    match t
    case Pawn => 0
    case Knight => 1
    case Bishop => 2
    case Rook => 3
    case Queen => 4
    case King => 5
    case Empty => 6
  }

  /** The colour with a given enum value. */
  function ColourOfOrdinal(n: nat): (c: Colour)
    requires n < 2
    ensures ColourOrdinal(c) == n
  {
    if n == 0 then White else Black
  }

  /** The piece type with a given enum value. */
  function TypeOfOrdinal(n: nat): (t: PieceType)
    requires n < 7
    ensures TypeOrdinal(t) == n
  {
    [Pawn, Knight, Bishop, Rook, Queen, King, Empty][n]
  }

  /** Enum values identify colours and piece types: the two conversions are mutually inverse. */
  lemma OrdinalsRoundTrip(c: Colour, t: PieceType, m: nat, n: nat)
    ensures ColourOfOrdinal(ColourOrdinal(c)) == c
    ensures TypeOfOrdinal(TypeOrdinal(t)) == t
    ensures m < 2 ==> ColourOrdinal(ColourOfOrdinal(m)) == m
    ensures n < 7 ==> TypeOrdinal(TypeOfOrdinal(n)) == n
  {
  }

  /** A real piece: one whose type is not the Empty sentinel. */
  predicate IsReal(p: Piece) {
    p.kind != Empty
  }

  /**
   * The per-colour bitboard slot of a real piece: white types take 0..5 and
   * black types 6..11, each in piece-type order.
   */
  function StandardSlot(p: Piece): (k: nat)
    requires IsReal(p)
    ensures k < 12
    ensures k / 6 == ColourOrdinal(p.colour) && k % 6 == TypeOrdinal(p.kind)
  {
    6 * ColourOrdinal(p.colour) + TypeOrdinal(p.kind)
  }

  /** The piece stored in a slot; the inverse of StandardSlot. */
  function SlotPiece(k: nat): (p: Piece)
    requires k < 12
    ensures IsReal(p) && StandardSlot(p) == k
  {
    Piece(ColourOfOrdinal(k / 6), TypeOfOrdinal(k % 6))
  }

  /** The board letter of each slot: upper case for White, lower case for Black. */
  const SlotLetters: seq<char> := ['P', 'N', 'B', 'R', 'Q', 'K', 'p', 'n', 'b', 'r', 'q', 'k']

  /** The conventional letter of a real piece, defined by cases. */
  function PieceLetter(p: Piece): char
    requires IsReal(p)
  {
    var upper := match p.kind
      case Pawn => 'P'
      case Knight => 'N'
      case Bishop => 'B'
      case Rook => 'R'
      case Queen => 'Q'
      case King => 'K'
      case Empty => ' ';
    if p.colour == White then upper else (upper as int + 32) as char
  }

  /**
   * The declaration order of the six real types is the slot order of the
   * rendering table: slot StandardSlot(p) shows the letter of p, and the
   * slots are a bijection between the 12 real pieces and 0..11.
   */
  lemma SlotOrderMatchesLetters(p: Piece, q: Piece)
    requires IsReal(p) && IsReal(q)
    ensures SlotLetters[StandardSlot(p)] == PieceLetter(p)
    ensures StandardSlot(p) == StandardSlot(q) ==> p == q
  {
    OrdinalsRoundTrip(p.colour, p.kind, 0, 0);
    OrdinalsRoundTrip(q.colour, q.kind, 0, 0);
  }
}
