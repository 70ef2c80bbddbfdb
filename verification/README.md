# Gravy chess engine core, modelled in Dafny

Gravy is a UCI chess engine written in C#. This project models six parts of
its core as pure Dafny functions over immutable values, and proves
properties of them:

- **Pieces** (`pieces.dfy`): colours, piece types and pieces, their enum
  values, and the twelve bitboard slots that the board's print table
  assumes (white pawn .. white king, then black pawn .. black king).
- **Moves** (`moves.dfy`): the `Move` record, its field-wise constructor
  with its default arguments, and the parser from long algebraic text
  (`"e2e4"`, `"e7e8q"`). The parser classifies captures, castling (a king
  moving two squares; long when the target index is larger), en passant (a
  pawn stepping diagonally onto an empty square, with the captured pawn
  one rank behind) and promotion (a fifth letter from `p n b r q`).
  Texts under four characters and unknown promotion letters are errors.
- **Board** (`board.dfy`): loading the placement field of a FEN string
  into twelve bitboards. The walk starts at square 63; a digit skips that
  many squares; a letter sets the current square in its piece's bitboard;
  `/` is skipped; the shift count wraps as a `ulong` shift does. Printing
  the bitboards gives 64 characters, from square 63 down: for each square
  the letter of the first bitboard that holds it, or a space, with a line
  break after every eighth square. The loader takes its letter table as a
  parameter: the program's own table, which gives 'K' and 'k' knights, or
  a corrected one with kings. A letter outside the table is an error that
  keeps the bitboards set before it. For any table, printing a freshly
  loaded 64-square placement shows each square as the letter of the piece
  the table gives it, eight a line; with the corrected table that is the
  placement's own letters and blanks.
- **Rook magic bitboards** (`rook_rays.dfy`, `blocker_subsets.dfy`,
  `magic_bitboards.dfy`):
  - the relevance mask of a square;
  - its ray walks, stopping at the first blocker;
  - the enumeration of all blocker subsets of a mask, bit `j` of index `i`
    selecting the `j`-th lowest square;
  - the lookup tables, keyed by `(blockers * magic) >> shift` with 64-bit
    wrap-around, filled in enumeration order so that a later subset
    overwrites an earlier one with the same key.

  Bitboards are sets of squares 0..63, and `Value` gives their numeric
  `ulong` value.
- **LimitedSizeDictionary** (`limited_size_dictionary.dfy`): a dictionary
  that queues each key it stores and, once the count exceeds the limit,
  dequeues one key and removes it. The getter and the overwriting setter
  queue the key again.
- **Evaluation** (`evaluation.dfy`):
  - material, castling and the isolated-pawn term;
  - the game phase and the tapered blend of the middle-game and end-game
    piece-square tables;
  - the end-game scores, and the board score built from them.

  It works on the chess library's board. That board is modelled as 64
  optional pieces, with the library's type order P, R, N, B, Q, K.

`arith.dfy` holds the arithmetic the model needs:
- powers of two;
- C#'s truncating integer division;
- the masking of shift counts (a `ulong` shift uses the count modulo 64, an
  `int` shift modulo 32).

`wrappers.dfy` holds `Option` and `Result`; the model uses `Result` for
the paths on which the source throws, except the few that "## Left out"
lists, which a precondition excludes instead.

## Model

| member | source | states |
|---|---|---|
| Pieces.TypeOrdinal | src/Gravy/Chess/Piece.cs:15-24 | the enum value of a piece type is below 7, and it is 6 exactly for Empty |
| Pieces.ColourOfOrdinal | src/Gravy/Chess/Piece.cs:9-13 | every colour enum value 0..1 names a colour whose value it is |
| Pieces.TypeOfOrdinal | src/Gravy/Chess/Piece.cs:15-24 | every type enum value 0..6 names a piece type whose value it is |
| Pieces.OrdinalsRoundTrip | src/Gravy/Chess/Piece.cs:9-24 | enum values and colours, and enum values and piece types, convert into each other in both directions without loss |
| Pieces.StandardSlot | src/Gravy/Chess/Board.cs:55-68 | a real piece's slot is below 12; its quotient by 6 is the colour's value and its remainder the type's value |
| Pieces.SlotPiece | src/Gravy/Chess/Board.cs:55-68 | every slot 0..11 belongs to a real piece |
| Pieces.SlotOrderMatchesLetters | src/Gravy/Chess/Board.cs:55-68 | the print table's letter for a piece's slot is that piece's letter, and different real pieces have different slots |
| Moves.NewMove | src/Gravy/Chess/Move.cs:35-52 | every field of the built move is the argument given for it |
| Moves.NewMoveDefaults | src/Gravy/Chess/Move.cs:35 | with only start, target and piece given, the move has no capture, castling, en passant or promotion; its en passant square is -1 |
| Moves.PromotionLetter | src/Gravy/Chess/Move.cs:98-105 | each of the five promotable types has a letter that the promotion table maps back to it |
| Moves.ParseMove | src/Gravy/Chess/Move.cs:54-115 | a text under 4 characters is exactly the TooShort error; a 5-character text with an unknown fifth letter is exactly the promotion error. Otherwise the move's squares come from characters 0-1 and 2-3, and its piece from the start square. Capture holds iff the target holds a piece. Castling holds iff the piece is a king moving two squares, and it is long iff the target index is larger. En passant holds iff a pawn steps diagonally onto an empty square; then its square is one rank behind the target, otherwise -1. The captured piece comes from that square or the target. Promotion holds iff the text has 5 characters, to the mover's colour and the letter's type |
| Moves.ParsedMovesConsistent | src/Gravy/Chess/Move.cs:64-114 | every parsed move is self-consistent: castling only by a king, en passant only by a non-capturing pawn with the captured square 8 away, a promotion piece exactly when promoting, of the mover's colour |
| Moves.ParseMoveTextRoundTrip | src/Gravy/Chess/Move.cs:54-115 | writing a parsed move back as text (given square names the parser decodes) and parsing that text again yields the same move |
| Board.EmptyBoards | src/Gravy/Chess/Board.cs:10-13 | a new board's twelve bitboards are all empty |
| Board.Placement | src/Gravy/Chess/Board.cs:34 | the placement field is the prefix of the FEN text up to, and not including, its first space |
| Board.PieceLookupShape | src/Gravy/Chess/Board.cs:17-30 | the table as written and the corrected table both have exactly the twelve letters P N B R Q K p n b r q k, each giving a real piece |
| Board.LettersApart | src/Gravy/Chess/Board.cs:38-44 | no table letter is a digit or '/', so a character is skipped, counted or looked up, never two of these |
| Board.WalkRejects | src/Gravy/Chess/Board.cs:36-47 | a failed walk names the first character that is no separator, digit or table letter, and leaves behind the bitboards the characters before it set, since the updates are made in place before the failing lookup throws |
| Board.RejectsShift | src/Gravy/Chess/Board.cs:36-47 | a rejection at position i of the rest of a placement, after one accepted character, is a rejection at position i + 1 of the whole |
| Board.WalkAccepts | src/Gravy/Chess/Board.cs:36-47 | a successful walk read only separators, digits and letters and moved the square index down by the placement's width |
| Board.WalkOutcome | src/Gravy/Chess/Board.cs:34-50 | for any letter table, the walk fails iff some character is no separator, digit or table letter, and then with that first character and the bitboards set before it; on success the final index is the start minus the width |
| Board.WalkOnlyAdds | src/Gravy/Chess/Board.cs:44 | loading only sets bits: every bitboard keeps all the squares it had |
| Board.LoadFenReadsPlacementOnly | src/Gravy/Chess/Board.cs:34 | whatever follows the first space of the FEN text does not change the loaded boards |
| Board.PlacementOfPrefix | src/Gravy/Chess/Board.cs:34 | splitting off the placement of `placement + " " + rest` gives back the placement |
| Board.WalkPlaces | src/Gravy/Chess/Board.cs:36-48 | for any letter table, including the one as written, on placement characters the walk succeeds; it adds to each slot exactly the squares of the pieces of that slot the placement describes under that table, and moves the index down by the number of squares described |
| Board.ExpandWidth | src/Gravy/Chess/Board.cs:38-47 | for any letter table a placement describes as many squares as its width |
| Board.LoadedBoards | src/Gravy/Chess/Board.cs:32-50 | for any letter table, loading into empty boards from square 63 succeeds and ends 63 minus the number of described squares |
| Board.LoadedSquare | src/Gravy/Chess/Board.cs:32-48 | for any letter table, after loading 64 described squares, square i is in bitboard k iff the description at position 63 - i is a piece of slot k under that table |
| Board.FirstHolderNone | src/Gravy/Chess/Board.cs:84-87 | a square no bitboard holds prints as a space |
| Board.FirstHolderAt | src/Gravy/Chess/Board.cs:74-82 | a square prints as the letter of the first bitboard that holds it |
| Board.RenderStep | src/Gravy/Chess/Board.cs:70-93 | the printed text from square i is its character, then a line break when i is a multiple of 8, then the text from square i - 1 |
| Board.RenderLayout | src/Gravy/Chess/Board.cs:70-93 | the printed text is eight lines of eight characters and a line break, 72 characters in all |
| Board.RenderedSquare | src/Gravy/Chess/Board.cs:72-87 | on a board loaded with any letter table each square prints as the letter of the piece that table gives it, or a space |
| Board.LoadThenRender | src/Gravy/Chess/Board.cs:15-94 | for any letter table, loading a 64-square placement and printing it shows the described squares line by line, each as its piece's letter or a space |
| Board.LoadFenLoaded | src/Gravy/Chess/Board.cs:32-50 | loading a placement without a space reads all of it and gives the loaded boards |
| Board.RenderLoaded | src/Gravy/Chess/Board.cs:70-93 | printing the loaded boards gives the picture of the described squares |
| Board.AsWrittenKingsAreKnights | src/Gravy/Chess/Board.cs:17-30 | in the table as written, 'K' and 'k' give knights, which print as 'N' and 'n'; it agrees with the corrected table on every other letter |
| Board.LettersRoundTrip | src/Gravy/Chess/Board.cs:17-30 | with the corrected table every letter's piece prints as that same letter |
| Board.ShownDisplays | src/Gravy/Chess/Board.cs:36-48 | for any letter table, each described square prints as the character in its place of the shown text: the letter of the piece the table gives, or a space for each square a digit skips |
| Board.ShownCorrected | src/Gravy/Chess/Board.cs:17-30 | under the corrected table the shown text is the placement's own letters and a space per skipped square |
| Board.PrintBack | src/Gravy/Chess/Board.cs:15-94 | for any letter table, loading a 64-square placement into a new board and printing it gives the shown text, eight squares a line |
| Board.LoadThenPrintBack | src/Gravy/Chess/Board.cs:15-94 | with the corrected table, loading a 64-square placement into a new board and printing it gives back the placement's letters, a space for every skipped square, eight squares a line |
| Board.EmptyRanksShape | src/Gravy/Chess/Board.cs:34-40 | n ranks written "/8" are placement characters of width 8 n |
| Board.LoneKingShape | src/Gravy/Chess/Board.cs:34-47 | the placement "K7/8/8/8/8/8/8/8" has only placement characters and width 64 |
| Board.LoneKingAt | src/Gravy/Chess/Board.cs:15-94 | loading "K7/8/8/8/8/8/8/8" with any letter table puts square 63 in exactly the slot of the piece the table gives 'K', and the first printed character is that piece's letter |
| Board.AsWrittenKingLoadsKnight | src/Gravy/Chess/Board.cs:15-94 | as written, "K7/8/8/8/8/8/8/8" loads square 63 into the white knight's bitboard and not the white king's, and prints 'N' first |
| Board.CorrectedKingLoadsKing | src/Gravy/Chess/Board.cs:15-94 | with the corrected table the same placement loads a white king on square 63, which prints as 'K' |
| RookRays.SpanMembers | src/Gravy/Chess/MagicBitboards.cs:165-173 | the squares a counted loop visits are those from its start below its end, on the start's file when it steps by 8 |
| RookRays.UnitSpanSize | src/Gravy/Chess/MagicBitboards.cs:165-168 | a loop stepping by 1 visits hi - lo squares |
| RookRays.StrideSpanSize | src/Gravy/Chess/MagicBitboards.cs:170-173 | a loop stepping by 8 visits (hi - lo + 7) / 8 squares |
| RookRays.RankInteriorMembers | src/Gravy/Chess/MagicBitboards.cs:165-168 | the rank part of the mask is the squares of s's rank on files 1..6 |
| RookRays.FileInteriorMembers | src/Gravy/Chess/MagicBitboards.cs:170-173 | the file part of the mask is the squares of s's file on ranks 1..6 |
| RookRays.RookMaskMembers | src/Gravy/Chess/MagicBitboards.cs:161-178 | t is in the mask of s iff t is not s and lies on s's rank with file 1..6 or on s's file with rank 1..6 |
| RookRays.InteriorPartsMeet | src/Gravy/Chess/MagicBitboards.cs:175 | the two parts of the mask share s alone when s is interior, and nothing otherwise |
| RookRays.RookMaskSize | src/Gravy/Chess/MagicBitboards.cs:161-178 | the mask excludes s and has 12 squares on a corner, 11 on another edge square, 10 inside |
| RookRays.RayUpByOne | src/Gravy/Chess/MagicBitboards.cs:119-122 | an ascending ray reaches t iff t is in range and no blocker lies from the start up to just below t |
| RookRays.RayDownByOne | src/Gravy/Chess/MagicBitboards.cs:124-127 | a descending ray reaches t iff t is in range and no blocker lies from just above t up to the start |
| RookRays.RayUpByRank | src/Gravy/Chess/MagicBitboards.cs:129-132 | a ray stepping up a file reaches t iff t is on that file, in range, and unblocked below it |
| RookRays.RayDownByRank | src/Gravy/Chess/MagicBitboards.cs:134-137 | a ray stepping down a file reaches t iff t is on that file, in range, and unblocked above it |
| RookRays.EastRay | src/Gravy/Chess/MagicBitboards.cs:119-122 | the first loop yields exactly the reference attacks to the east of s |
| RookRays.WestRay | src/Gravy/Chess/MagicBitboards.cs:124-127 | the second loop yields exactly the reference attacks to the west of s |
| RookRays.NorthRay | src/Gravy/Chess/MagicBitboards.cs:129-132 | the third loop yields exactly the reference attacks to the north of s |
| RookRays.SouthRay | src/Gravy/Chess/MagicBitboards.cs:134-137 | the fourth loop yields exactly the reference attacks to the south of s |
| RookRays.RookAttacksMatchSpec | src/Gravy/Chess/MagicBitboards.cs:104-147 | the legal bitboard equals the reference: the squares on s's rank or file with no blocker strictly between |
| RookRays.RookAttacksOnLine | src/Gravy/Chess/MagicBitboards.cs:104-147 | the legal bitboard never holds s and only holds squares on its rank or file |
| RookRays.RankLineMembers | src/Gravy/Chess/MagicBitboards.cs:119-127 | the full rank of s is the squares with s's rank |
| RookRays.FileLineMembers | src/Gravy/Chess/MagicBitboards.cs:129-137 | the full file of s is the squares with s's file |
| RookRays.RookAttacksUnblocked | src/Gravy/Chess/MagicBitboards.cs:104-147 | on an empty board a rook attacks its whole rank and file except its own square: 14 squares |
| RookRays.RookAttacksAntitone | src/Gravy/Chess/MagicBitboards.cs:104-147 | more blockers never give more attacked squares |
| RookRays.BetweenInMask | src/Gravy/Chess/MagicBitboards.cs:161-178 | every square strictly between s and a square on its line is in s's mask |
| RookRays.RookAttacksRelevant | src/Gravy/Chess/MagicBitboards.cs:104-178 | only blockers inside the mask matter: masking the occupancy leaves the attacks unchanged |
| RookRays.RookAttacksStopAtFirstBlocker | src/Gravy/Chess/MagicBitboards.cs:108-117 | the first blocker on a line is attacked (it is added before the loop stops), and no square beyond it is |
| BlockerSubsets.MaskSquaresElems | src/Gravy/Chess/MagicBitboards.cs:196-202 | the scan lists exactly the mask's squares from its start |
| BlockerSubsets.MaskSquaresIncreasing | src/Gravy/Chess/MagicBitboards.cs:196-202 | the scanned squares are in increasing order, none below the start |
| BlockerSubsets.MaskSquaresSize | src/Gravy/Chess/MagicBitboards.cs:196-202 | the scan lists as many squares as the mask has from the start |
| BlockerSubsets.MaskSquaresAll | src/Gravy/Chess/MagicBitboards.cs:196-202 | the full scan lists each square of the mask exactly once |
| BlockerSubsets.DepositWithin | src/Gravy/Chess/MagicBitboards.cs:209-213 | the subset built from index i only holds listed squares |
| BlockerSubsets.ExtractBound | src/Gravy/Chess/MagicBitboards.cs:207-214 | the index of a subset is below 2 to the number of listed squares |
| BlockerSubsets.ExtractDeposit | src/Gravy/Chess/MagicBitboards.cs:207-214 | building the subset of index i and reading its index back gives i |
| BlockerSubsets.DepositExtract | src/Gravy/Chess/MagicBitboards.cs:207-214 | every subset of the listed squares is the subset built from its own index |
| BlockerSubsets.DepositSize | src/Gravy/Chess/MagicBitboards.cs:209-213 | the subset of index i has as many squares as i has set bits |
| BlockerSubsets.DepositNone | src/Gravy/Chess/MagicBitboards.cs:209-213 | index 0 gives the empty subset |
| BlockerSubsets.DepositAll | src/Gravy/Chess/MagicBitboards.cs:209-213 | the last index gives all the listed squares |
| BlockerSubsets.EnumerateAt | src/Gravy/Chess/MagicBitboards.cs:204-214 | the enumeration has 2^n entries and entry i is the subset built from the bits of i |
| BlockerSubsets.BlockerBitmasksAt | src/Gravy/Chess/MagicBitboards.cs:192-217 | a mask's enumeration has 2^popcount entries; entry i deposits the bits of i into the mask's squares in increasing order |
| BlockerSubsets.BlockerBitmasksEnds | src/Gravy/Chess/MagicBitboards.cs:192-217 | the first entry is empty and the last is the whole mask |
| BlockerSubsets.BlockerBitmasksSubsets | src/Gravy/Chess/MagicBitboards.cs:192-217 | every entry is a subset of the mask, with as many squares as its index has set bits |
| BlockerSubsets.BlockerBitmasksDistinct | src/Gravy/Chess/MagicBitboards.cs:192-217 | no subset is enumerated twice |
| BlockerSubsets.BlockerBitmasksComplete | src/Gravy/Chess/MagicBitboards.cs:192-217 | every subset of the mask is enumerated, at the index its bits give |
| MagicBitboards.ConstantsShape | src/Gravy/Chess/MagicBitboards.cs:18-19 | there are 64 magics and 64 shifts, every shift in 50..54 |
| MagicBitboards.WrappingMul | src/Gravy/Chess/MagicBitboards.cs:96 | the product of a ulong multiplication is below 2^64 |
| MagicBitboards.KeyBound | src/Gravy/Chess/MagicBitboards.cs:96 | a key has at most 64 minus the masked shift count bits |
| MagicBitboards.KeyFits | src/Gravy/Chess/MagicBitboards.cs:92-96 | with a shift of 50..54 a key is below 2^14, which is no more than the table length `1 << shift` (an int shift, count taken modulo 32) |
| MagicBitboards.KeysFitTable | src/Gravy/Chess/MagicBitboards.cs:92-97 | for every square and every blocker set, the key indexes inside that square's table |
| MagicBitboards.FillLastWins | src/Gravy/Chess/MagicBitboards.cs:94-98 | a slot holds the legal bitboard of the last subset written to it |
| MagicBitboards.FillUntouched | src/Gravy/Chess/MagicBitboards.cs:94-98 | a slot that no subset's key hits keeps its initial value |
| MagicBitboards.SquareSubsets | src/Gravy/Chess/MagicBitboards.cs:180-190 | a square's blocker list has 2^(mask size) entries, every one a subset of the mask, and every subset of the mask appears |
| MagicBitboards.BuildTable | src/Gravy/Chess/MagicBitboards.cs:92-98 | the table has `1 << shift` slots |
| MagicBitboards.SquareLookup | src/Gravy/Chess/MagicBitboards.cs:92 | a square's table length is `1 << shift` for its shift |
| MagicBitboards.RookLookup | src/Gravy/Chess/MagicBitboards.cs:86-102 | there is one table per square |
| MagicBitboards.BuildTableLastWins | src/Gravy/Chess/MagicBitboards.cs:92-98 | the slot of a subset's key holds that subset's legal bitboard when no later subset shares the key |
| MagicBitboards.LookupCorrect | src/Gravy/Chess/MagicBitboards.cs:86-102 | if keys collide only between subsets with equal attacks, then keying any occupancy masked by the relevance mask indexes the table and yields exactly the rook attacks for that occupancy |
| MagicBitboards.UniqueKeysCollisionFree | src/Gravy/Chess/MagicBitboards.cs:35-39 | pairwise different keys, the magic search's acceptance test, imply that keys collide only between subsets with equal attacks |
| MagicBitboards.UniqueKeysLookupCorrect | src/Gravy/Chess/MagicBitboards.cs:62-72 | for a magic the search accepts, every lookup is exact |
| Evaluation.TypeIndex | src/Gravy/Evaluation.cs:12 | a library type indexes one of the six value columns |
| Evaluation.TotalPhaseValue | src/Gravy/Evaluation.cs:25 | the starting phase weight is 24 |
| Evaluation.PieceValueByKind | src/Gravy/Evaluation.cs:12-16 | a white piece is worth 100, 500, 320, 330, 900 or 20000 by type, and a black piece the negation |
| Evaluation.PiecePhaseByKind | src/Gravy/Evaluation.cs:18-23 | the phase weights by library type are 0, 2, 1, 1, 4, 0 |
| Evaluation.SumCells | src/Gravy/Evaluation.cs:114-123 | the double loop over the squares computes the sum of the term over all 64 cells |
| Evaluation.CellSumUpdate | src/Gravy/Evaluation.cs:114-123 | changing one cell changes a sum by that cell's new term minus its old one |
| Evaluation.SwapColours | src/Gravy/Evaluation.cs:110-126 | swapping colours keeps exactly the same squares occupied |
| Evaluation.MaterialSwap | src/Gravy/Evaluation.cs:110-126 | material is antisymmetric: swapping all colours negates it |
| Evaluation.MaterialUpdate | src/Gravy/Evaluation.cs:110-126 | replacing one square's piece changes material by the difference of their values |
| Evaluation.LosingQueen | src/Gravy/Evaluation.cs:110-126 | removing a white queen lowers material by exactly 900 |
| Evaluation.MaterialBound | src/Gravy/Evaluation.cs:110-126 | material, and each partial sum of its loop, lies within plus or minus 64 times 20000 |
| Evaluation.PhaseOfWeightRange | src/Gravy/Evaluation.cs:75-92 | full starting weight gives phase 0 and no weight gives 256; the phase is within 0..256 for weights 0..24, never rises as the weight grows, and is negative above 24 |
| Evaluation.PhaseWeightNonNegative | src/Gravy/Evaluation.cs:80-89 | the weight subtracted from the total lies within 0..256 |
| Evaluation.TaperBetween | src/Gravy/Evaluation.cs:69-70 | the blend is the middle-game score at phase 0 and the end-game score at phase 256, and between the two for any phase in between |
| Evaluation.PieceTablesBound | src/Gravy/Evaluation.cs:41-73 | with table entries bounded by B and a phase in range, the piece-table score lies within plus or minus 64 B |
| Evaluation.TableSumBound | src/Gravy/Evaluation.cs:45-55 | a table sum over the board, and each of its partial sums, lies within plus or minus 64 B |
| Evaluation.EvaluateCastling | src/Gravy/Evaluation.cs:94-108 | the castling score is 100, 0 or -100; positive iff only the first flag is set, negative iff only the second is |
| Evaluation.CastlingAntisymmetric | src/Gravy/Evaluation.cs:94-108 | swapping the two flags negates the castling score |
| Evaluation.PawnFiles | src/Gravy/Evaluation.cs:132-145 | the flag of index i is set iff that colour has a pawn there |
| Evaluation.PawnsFromCounts | src/Gravy/Evaluation.cs:147-186 | the pawn score is 75 times Black's isolated pawn files minus White's |
| Evaluation.IsolatedAtMostFour | src/Gravy/Evaluation.cs:147-186 | at most four of eight files can be isolated |
| Evaluation.PawnsBound | src/Gravy/Evaluation.cs:128-189 | the pawn score is a multiple of 75 within plus or minus 300 |
| Evaluation.PawnsSwap | src/Gravy/Evaluation.cs:128-189 | swapping all colours negates the pawn score |
| Evaluation.SwapPawnFiles | src/Gravy/Evaluation.cs:132-145 | after swapping colours one side's pawn files are the other side's |
| Evaluation.EvaluateEndGame | src/Gravy/Evaluation.cs:191-198 | a draw scores 0; every score lies strictly inside the int range; a White win scores at least int.MaxValue - 1 and a Black win at most int.MinValue + 1, the most extreme scores short of the bounds |
| Evaluation.EvaluateBoard | src/Gravy/Evaluation.cs:27-39 | a finished game scores exactly int.MaxValue - 1 when White won, int.MinValue + 1 when Black won and 0 for a draw, so positive iff White won and negative iff Black won; the castling flags are needed only for an unfinished game, since a finished one returns before they are read |
| Evaluation.TerminalIgnoresBoard | src/Gravy/Evaluation.cs:29 | two finished games with the same winner score the same, whatever their pieces, castling flags (of any length, even none) or tables |
| Evaluation.WinsDominate | src/Gravy/Evaluation.cs:27-73 | with table entries within 2^16 in size and at most the starting phase weight, every value computed in `int` fits in 32 bits: each partial sum of the material and table loops, the two products of the blend at line 70 and their sum; and an unfinished position scores strictly between a Black win and a White win |
| Evaluation.BlendProducts | src/Gravy/Evaluation.cs:69-70 | with both scores within plus or minus b and a phase in 0..256, each product of the blend and their sum lie within plus or minus 256 b |
| Evaluation.MirrorInvolution | src/Gravy/Evaluation.cs:52 | reversing the second index j of a square index i * 8 + j, the rank, since the pawn term at line 142 takes i as the file, twice gives the square back |
| Evaluation.FileSumSplit | src/Gravy/Evaluation.cs:45-55 | the first m cells of a file plus the rest give the whole file |
| Evaluation.CellSumFiles | src/Gravy/Evaluation.cs:45-55 | the double loop's sum over the board is the sum of its eight files' sums |
| Evaluation.FileSumMirror | src/Gravy/Evaluation.cs:45-55 | the first m cells of a file of the mirrored board are, up to sign, the last m cells of the same file of the board |
| Evaluation.CellSumMirror | src/Gravy/Evaluation.cs:45-55 | a sum over every cell of the board with each file reversed equals, up to sign, the same sum over the board, since reversing the ranks within each file only reorders the cells |
| Evaluation.MaterialMirror | src/Gravy/Evaluation.cs:110-126 | flipping the ranks (the second board index, within each file) and swapping every colour negates the material score |
| Evaluation.PhaseMirror | src/Gravy/Evaluation.cs:75-92 | flipping the ranks and swapping every colour leaves the game phase unchanged |
| Evaluation.TableSumMirror | src/Gravy/Evaluation.cs:45-66 | when each colour's table is the other's with the ranks flipped and the sign changed, the table sum of the mirrored position is the negation |
| Evaluation.TaperNegate | src/Gravy/Evaluation.cs:69-70 | blending negated middle-game and end-game scores gives the negated blend, because the division truncates toward zero |
| Evaluation.EvaluateBoardMirror | src/Gravy/Evaluation.cs:27-39 | with mirrored tables, an unfinished position seen from the other side (ranks flipped, colours and castling flags swapped) scores exactly the negation |
| LimitedDictionary.New | src/Gravy/Engine/LimitedSizeDictionary.cs:6-10 | a new dictionary keeps its limit and starts with no entries and an empty queue |
| LimitedDictionary.NewIsExact | src/Gravy/Engine/LimitedSizeDictionary.cs:6-10 | a new dictionary's queue is exactly its (no) stored keys |
| LimitedDictionary.Get | src/Gravy/Engine/LimitedSizeDictionary.cs:14-19 | reading succeeds iff the key is stored, else KeyNotFound; it returns the stored value, changes no entry, and queues the key once more |
| LimitedDictionary.Insert | src/Gravy/Engine/LimitedSizeDictionary.cs:29-35 | storing a new key adds it; when the count then exceeds the limit the oldest queued key is removed; no other key appears and every other value is kept; the key is appended to the queue, and over the limit the queue's head is dequeued |
| LimitedDictionary.Set | src/Gravy/Engine/LimitedSizeDictionary.cs:20-37 | overwriting a stored key replaces its value and queues it again; a new key is inserted as by Insert |
| LimitedDictionary.Add | src/Gravy/Engine/LimitedSizeDictionary.cs:40-49 | adding fails with DuplicateKey iff the key is stored; otherwise the result is exactly Insert's: entries, queue and limit |
| LimitedDictionary.TrackedPreserved | src/Gravy/Engine/LimitedSizeDictionary.cs:6-49 | every call keeps every stored key somewhere in the queue |
| LimitedDictionary.InsertKeepsExact | src/Gravy/Engine/LimitedSizeDictionary.cs:42-48 | when the queue lists the stored keys exactly once each, inserting a new key keeps it so and keeps the count within the limit; the queue gains the key and, over the limit, loses its head |
| LimitedDictionary.FreshAddsKeepLast | src/Gravy/Engine/LimitedSizeDictionary.cs:40-49 | from a new dictionary, Adds of distinct keys keep exactly the last min(n, limit) keys, queued oldest first |
| LimitedDictionary.FreshAddStep | src/Gravy/Engine/LimitedSizeDictionary.cs:40-49 | one more fresh Add keeps the stored keys the last min(n, limit) of those added |
| LimitedDictionary.AsWrittenExceedsLimit | src/Gravy/Engine/LimitedSizeDictionary.cs:14-49 | as written, with limit 1, adding 1, reading 1, adding 2 and adding 3 leaves two entries |
| LimitedDictionary.AsWrittenLosesAdd | src/Gravy/Engine/LimitedSizeDictionary.cs:40-49 | as written, after adding 1, reading 1 and adding 2 with limit 1, adding 1 again succeeds but leaves 1 unstored |
| LimitedDictionary.GetRecent | src/Gravy/Engine/LimitedSizeDictionary.cs:14-19 | the corrected getter returns what the getter returns, changes no entry, and makes the key the newest in the queue |
| LimitedDictionary.SetRecent | src/Gravy/Engine/LimitedSizeDictionary.cs:20-37 | the corrected setter stores what the setter stores and makes an overwritten key the newest in the queue |
| LimitedDictionary.StepRecentKeepsExact | src/Gravy/Engine/LimitedSizeDictionary.cs:12-49 | every corrected call keeps the queue exactly the stored keys and the count within the limit |
| LimitedDictionary.RunRecentWithinLimit | src/Gravy/Engine/LimitedSizeDictionary.cs:12-49 | after any calls from a new corrected dictionary, the count never exceeds the limit (none stored for a negative limit) |
| LimitedDictionary.SetRecentStores | src/Gravy/Engine/LimitedSizeDictionary.cs:20-37 | with a positive limit the corrected setter always stores the value given |
| LimitedDictionary.AddStores | src/Gravy/Engine/LimitedSizeDictionary.cs:40-49 | with a positive limit and an exact queue, an Add that succeeds stores the value given |

## Left out

- GenerateRookMagics (MagicBitboards.cs:33-84) is left out: it searches at random, in parallel, and writes to the console. Its acceptance test, all keys pairwise different, is modelled as `KeysUnique`.
- MagicBitboards.LookupCorrect: it is stated under the hypothesis that the magic of the square is collision-free. The verifier does not check this for the 64 hard-coded constants: that would mean evaluating up to 4096 wide products per square.
- The static constructor's order of initialisation (MagicBitboards.cs:21-31) is left out. The tables are pure functions of the constants here.
- BlockerSubsets.BlockerBitmasks requires a mask of fewer than 31 squares, because `1 << count` is an `int` shift. Rook masks have at most 12 squares.
- MagicBitboards.TableLength requires the masked shift count to be below 31, because `1 << 31` is negative as an `int`. The hard-coded shifts give 18..22.
- The `mailbox` array (Board.cs:6, 45) is left out, and the model follows the bitboards only. As written the field is never allocated, since the constructor allocates only the bitboards. The model therefore neither throws at the mailbox write nor bounds-checks the square index there.
- `Piece.BitboardIndex()`, `Board.ConvertNotationSquare`, `Board.FindPieceType` and the `Piece(int)` constructor are not part of this model and do not appear in the source files. They are parameters: `slot` in the loader, and the `BoardView` in the move parser.
- Every Board lemma that loads a placement and then reads slots or prints assumes the standard slot order, `StandardIndex`, which the print table at Board.cs:55-68 presupposes. These are LoadedBoards, LoadedSquare, RenderedSquare, LoadThenRender, LoadFenLoaded, RenderLoaded, PrintBack, LoadThenPrintBack, LoneKingAt, AsWrittenKingLoadsKnight and CorrectedKingLoadsKing. The walk lemmas (WalkRejects, WalkAccepts, WalkOutcome, WalkOnlyAdds, WalkPlaces) hold for any slot function that sends the table's pieces to slots 0..11.
- `char.IsDigit` is modelled as the ASCII digits '0'..'9'. Other Unicode decimal digits are left out.
- Console output of PrintBoard is modelled as the returned string. `Console.WriteLine` ends each line with `Environment.NewLine`, which is "\r\n" on Windows; the model always writes "\n".
- The search, the UCI front end, the engine tester and the piece-square table contents are left out. The tables are parameters of the evaluation.
- Evaluation.EvaluateBoard: scores are unbounded integers, so a 32-bit overflow of the sums is not modelled. Evaluation.WinsDominate shows that none occurs when the table entries are within 2^16 in size and the phase weight is at most 24, that is, no promotions beyond the starting material. The table contents are parameters, so nothing is claimed for larger entries.
- Evaluation.EvaluateCastling: fewer than two flags throw an IndexOutOfRangeException at Evaluation.cs:98 and 102. The model requires two flags instead of modelling the exception, and so does EvaluateBoard for an unfinished game.
- The `short` loop counters of Evaluation.cs are left out; they never leave 0..8.
- The chess library's board (`ChessBoard`: its indexer, `IsEndGame`, `EndGame.WonSide`) is modelled by the `Position` record.
- The isolated-pawn term is modelled, but, as in the source, it is not part of EvaluateBoard, where its call is commented out.
- LimitedDictionary.Step: a call that throws (a missing key on read, a duplicate on Add) is modelled as leaving the dictionary unchanged.
- The base class members that LimitedSizeDictionary hides with `new` are not modelled. The other Dictionary members are left out as well.
- Moves.ParseMove: every text under four characters is the TooShort error, since the slices at Move.cs:56-57 throw. Texts of length 4 or of 6 and more are accepted as the code slices them.
- The rook's material value is 500, as the code has it. Some descriptions of the engine give 525.

## Findings

| source | as written | input that shows it | evidently intended | confidence | as-written member | corrected member |
|---|---|---|---|---|---|---|
| src/Gravy/Engine/LimitedSizeDictionary.cs:17 | the getter, and the setter on a stored key (line 24), queue the key again, so the queue holds stale copies and a later eviction removes nothing | limit 1: Add(1), read 1, Add(2), Add(3) leaves 2 entries | the count never exceeds the limit | not executed | LimitedDictionary.AsWrittenExceedsLimit | LimitedDictionary.RunRecentWithinLimit |
| src/Gravy/Engine/LimitedSizeDictionary.cs:44-47 | eviction dequeues the queue's head even when it is a stale copy of the key just added, and removes that key | limit 1: Add(1), read 1, Add(2), then Add(1) succeeds and stores nothing | a successful Add stores its value | not executed | LimitedDictionary.AsWrittenLosesAdd | LimitedDictionary.AddStores |
| src/Gravy/Chess/Board.cs:23 | 'K' maps to a white knight, and 'k' (line 29) to a black knight | placement "K7/8/8/8/8/8/8/8" loads a white knight on square 63, which prints as 'N' | 'K' and 'k' give kings | not executed | Board.AsWrittenKingLoadsKnight | Board.CorrectedKingLoadsKing |
