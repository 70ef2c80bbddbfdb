/**
 * The static evaluation of a position held by the external chess library:
 * material, castling, piece-square tables blended by game phase, and the
 * scores of finished games. Positive scores favour White.
 */
module Evaluation {
  import opened Wrappers
  import opened Pieces
  import opened Arith

  /** The library's piece types, in the library's order (Type.Value - 1 = 0..5). */
  datatype LibType = LibPawn | LibRook | LibKnight | LibBishop | LibQueen | LibKing

  /** A piece of the library board; its colour's Color - 1 is ColourOrdinal. */
  datatype LibPiece = LibPiece(colour: Colour, kind: LibType)

  /** The library board's 64 cells; cell i * 8 + j is `board[i, j]`, None when empty. */
  type Grid = g: seq<Option<LibPiece>> | |g| == 64 witness seq(64, _ => None)

  /** `Type.Value - 1`. */
  function TypeIndex(t: LibType): (n: nat)
    ensures n < 6
  {
    match t
    case LibPawn => 0
    case LibRook => 1
    case LibKnight => 2
    case LibBishop => 3
    case LibQueen => 4
    case LibKing => 5
  }

  /** Material values by colour, then by library type: P, R, N, B, Q, K. */
  const PieceValues: seq<seq<int>> := [
    [100, 500, 320, 330, 900, 20000],
    [-100, -500, -320, -330, -900, -20000]]

  const PawnPhase: int := 0
  const KnightPhase: int := 1
  const BishopPhase: int := 1
  const RookPhase: int := 2
  const QueenPhase: int := 4

  /** Phase weights by library type; kings weigh nothing. */
  const PiecePhases: seq<int> := [PawnPhase, RookPhase, KnightPhase, BishopPhase, QueenPhase, 0]

  /** The phase weight of the full starting material. */
  const TotalPhase: int := PawnPhase * 16 + KnightPhase * 4 + BishopPhase * 4 + RookPhase * 4 + QueenPhase * 2

  lemma TotalPhaseValue()
    ensures TotalPhase == 24
  {
  }

  function PieceValue(p: LibPiece): int
  {
    PieceValues[ColourOrdinal(p.colour)][TypeIndex(p.kind)]
  }

  /**
   * The table order matches the type order: a white pawn is worth 100, a
   * rook 500, a knight 320, a bishop 330, a queen 900, a king 20000, and a
   * black piece the negation.
   */
  lemma PieceValueByKind(t: LibType)
    ensures PieceValue(LibPiece(White, t)) == match t
      case LibPawn => 100
      case LibRook => 500
      case LibKnight => 320
      case LibBishop => 330
      case LibQueen => 900
      case LibKing => 20000
    ensures PieceValue(LibPiece(Black, t)) == -PieceValue(LibPiece(White, t))
  {
  }

  /** Phase weights by name: minor pieces 1, rooks 2, queens 4, pawns and kings 0. */
  lemma PiecePhaseByKind(t: LibType)
    ensures PiecePhases[TypeIndex(t)] == match t
      case LibPawn => 0
      case LibRook => 2
      case LibKnight => 1
      case LibBishop => 1
      case LibQueen => 4
      case LibKing => 0
  {
  }

  // ---------------------------------------------------------------------
  // Sums over the grid

  /** The sum of f over cells 0 .. n - 1, f seeing each cell and its index i * 8 + j. */
  function CellSum(g: Grid, f: (Option<LibPiece>, nat) -> int, n: nat): int
    requires n <= 64
  {
    if n == 0 then 0 else CellSum(g, f, n - 1) + f(g[n - 1], n - 1)
  }

  /** The source's nested loops over i and j: they add f over every cell, in index order. */
  method SumCells(g: Grid, f: (Option<LibPiece>, nat) -> int) returns (s: int)
    ensures s == CellSum(g, f, 64)
  {
    s := 0;
    var i := 0;
    while i < 8
      invariant 0 <= i <= 8
      invariant s == CellSum(g, f, i * 8)
    {
      var j := 0;
      while j < 8
        invariant 0 <= j <= 8
        invariant s == CellSum(g, f, i * 8 + j)
      {
        s := s + f(g[i * 8 + j], i * 8 + j);
        j := j + 1;
      }
      i := i + 1;
    }
  }

  lemma {:induction false} CellSumNegate(g: Grid, h: Grid, f: (Option<LibPiece>, nat) -> int, n: nat)
    requires n <= 64
    requires forall k :: 0 <= k < n ==> f(h[k], k) == -f(g[k], k)
    ensures CellSum(h, f, n) == -CellSum(g, f, n)
  {
    if n > 0 {
      CellSumNegate(g, h, f, n - 1);
    }
  }

  lemma {:induction false} CellSumUpdate(g: Grid, k: nat, o: Option<LibPiece>, f: (Option<LibPiece>, nat) -> int, n: nat)
    requires k < 64 && n <= 64
    ensures CellSum(g[k := o], f, n) == CellSum(g, f, n) + if k < n then f(o, k) - f(g[k], k) else 0
  {
    if n > 0 {
      CellSumUpdate(g, k, o, f, n - 1);
    }
  }

  lemma {:induction false} CellSumBound(g: Grid, f: (Option<LibPiece>, nat) -> int, n: nat, lo: int, hi: int)
    requires n <= 64
    requires forall k :: 0 <= k < n ==> lo <= f(g[k], k) <= hi
    ensures n * lo <= CellSum(g, f, n) <= n * hi
  {
    if n > 0 {
      CellSumBound(g, f, n - 1, lo, hi);
    }
  }

  // ---------------------------------------------------------------------
  // Material

  function MaterialOf(o: Option<LibPiece>, k: nat): int
  {
    match o
    case None => 0
    case Some(p) => PieceValue(p)
  }

  /** EvaluateMaterial: the signed value of every piece on the board. */
  function EvaluateMaterial(g: Grid): int
  {
    CellSum(g, MaterialOf, 64)
  }

  function Opponent(c: Colour): Colour
  {
    if c == White then Black else White
  }

  /** The same position with every piece given to the other side. */
  function SwapColours(g: Grid): (h: Grid)
    ensures forall k :: 0 <= k < 64 ==> (h[k].Some? <==> g[k].Some?)
  {
    seq(64, k requires 0 <= k < 64 =>
      match g[k]
      case None => None
      case Some(p) => Some(LibPiece(Opponent(p.colour), p.kind)))
  }

  /** Material is antisymmetric: swapping every piece's colour negates it. */
  lemma MaterialSwap(g: Grid)
    ensures EvaluateMaterial(SwapColours(g)) == -EvaluateMaterial(g)
  {
    var h := SwapColours(g);
    forall k | 0 <= k < 64
      ensures MaterialOf(h[k], k) == -MaterialOf(g[k], k)
    {
      if g[k].Some? {
        PieceValueByKind(g[k].value.kind);
      }
    }
    CellSumNegate(g, h, MaterialOf, 64);
  }

  /** Changing one cell changes material by the new piece's value less the old one's. */
  lemma MaterialUpdate(g: Grid, k: nat, o: Option<LibPiece>)
    requires k < 64
    ensures EvaluateMaterial(g[k := o]) == EvaluateMaterial(g) - MaterialOf(g[k], k) + MaterialOf(o, k)
  {
    CellSumUpdate(g, k, o, MaterialOf, 64);
  }

  /** Taking a white queen off the board lowers the evaluation by 900. */
  lemma LosingQueen(g: Grid, k: nat)
    requires k < 64 && g[k] == Some(LibPiece(White, LibQueen))
    ensures EvaluateMaterial(g[k := None]) == EvaluateMaterial(g) - 900
  {
    MaterialUpdate(g, k, None);
  }

  /** Every partial sum of the source's material loop, and so the material score, is within 64 kings' worth. */
  lemma MaterialBound(g: Grid)
    ensures forall n :: 0 <= n <= 64 ==> -64 * 20000 <= CellSum(g, MaterialOf, n) <= 64 * 20000
    ensures -64 * 20000 <= EvaluateMaterial(g) <= 64 * 20000
  {
    forall k | 0 <= k < 64
      ensures -20000 <= MaterialOf(g[k], k) <= 20000
    {
      if g[k].Some? {
        PieceValueByKind(g[k].value.kind);
      }
    }
    forall n | 0 <= n <= 64
      ensures -64 * 20000 <= CellSum(g, MaterialOf, n) <= 64 * 20000
    {
      CellSumBound(g, MaterialOf, n, -20000, 20000);
    }
  }

  // ---------------------------------------------------------------------
  // Game phase and tapering

  function PhaseOf(o: Option<LibPiece>, k: nat): int
  {
    match o
    case None => 0
    case Some(p) => PiecePhases[TypeIndex(p.kind)]
  }

  /** The phase weight of the material on the board (24 at the start). */
  function PhaseWeight(g: Grid): int
  {
    CellSum(g, PhaseOf, 64)
  }

  /** The phase for a given weight of material, rounded as the source's truncating int division does. */
  function PhaseOfWeight(weight: int): int
  {
    TotalPhaseValue();
    CsDiv((TotalPhase - weight) * 256 + TotalPhase / 2, TotalPhase)
  }

  /** GetGamePhase: 0 with all the starting material, 256 with none. */
  function GetGamePhase(g: Grid): int
  {
    PhaseOfWeight(PhaseWeight(g))
  }

  /**
   * The phase runs from 0 at full material to 256 with only pawns and kings,
   * never rising as material is added; with more weight than the starting
   * material (after promotions) it goes below 0.
   */
  lemma PhaseOfWeightRange(w: int, w': int)
    ensures PhaseOfWeight(24) == 0 && PhaseOfWeight(0) == 256
    ensures 0 <= w <= 24 ==> 0 <= PhaseOfWeight(w) <= 256
    ensures w <= w' ==> PhaseOfWeight(w') <= PhaseOfWeight(w)
    ensures w > 24 ==> PhaseOfWeight(w) < 0
  {
    TotalPhaseValue();
    if w <= w' {
      MulMonotone(24 - w', 24 - w, 256);
      CsDivMonotone((24 - w') * 256 + 12, (24 - w) * 256 + 12, 24);
    }
    if 0 <= w <= 24 {
      MulMonotone(24 - 24, 24 - w, 256);
      MulMonotone(24 - w, 24 - 0, 256);
      CsDivMonotone(12, (24 - w) * 256 + 12, 24);
      CsDivMonotone((24 - w) * 256 + 12, 24 * 256 + 12, 24);
    }
    if w > 24 {
      MulMonotone(24 - w, -1, 256);
      CsDivMonotone((24 - w) * 256 + 12, -244, 24);
    }
  }

  /** The phase weight of the material on a board is never negative. */
  lemma PhaseWeightNonNegative(g: Grid)
    ensures 0 <= PhaseWeight(g) <= 64 * 4
  {
    forall k | 0 <= k < 64
      ensures 0 <= PhaseOf(g[k], k) <= 4
    {
      if g[k].Some? {
        PiecePhaseByKind(g[k].value.kind);
      }
    }
    CellSumBound(g, PhaseOf, 64, 0, 4);
  }

  /** The blend of middle-game and end-game scores: phase 0 is all middle game, 256 all end game. */
  function Taper(mg: int, eg: int, phase: int): int
  {
    CsDiv(mg * (256 - phase) + eg * phase, 256)
  }

  /** Tapering returns the middle-game score at phase 0, the end-game score at 256, and lies between them in between. */
  lemma TaperBetween(mg: int, eg: int, phase: int)
    ensures Taper(mg, eg, 0) == mg && Taper(mg, eg, 256) == eg
    ensures 0 <= phase <= 256 ==>
      (if mg <= eg then mg else eg) <= Taper(mg, eg, phase) <= (if mg <= eg then eg else mg)
  {
    CsDivExact(mg, 256);
    CsDivExact(eg, 256);
    if 0 <= phase <= 256 {
      var lo := if mg <= eg then mg else eg;
      var hi := if mg <= eg then eg else mg;
      var x := mg * (256 - phase) + eg * phase;
      assert lo * (256 - phase) <= mg * (256 - phase) by { MulLeft(lo, mg, 256 - phase); }
      assert lo * phase <= eg * phase by { MulLeft(lo, eg, phase); }
      assert mg * (256 - phase) <= hi * (256 - phase) by { MulLeft(mg, hi, 256 - phase); }
      assert eg * phase <= hi * phase by { MulLeft(eg, hi, phase); }
      assert lo * 256 == lo * (256 - phase) + lo * phase;
      assert hi * 256 == hi * (256 - phase) + hi * phase;
      CsDivMonotone(lo * 256, x, 256);
      CsDivMonotone(x, hi * 256, 256);
      CsDivExact(lo, 256);
      CsDivExact(hi, 256);
    }
  }

  lemma MulLeft(x: int, y: int, c: int)
    requires x <= y && c >= 0
    ensures x * c <= y * c
  {
    if c > 0 {
      MulMonotone(x, y, c);
    }
  }

  /** The middle-game or end-game table as a per-cell score: table[colour][type][i * 8 + j]. */
  function TableOf(table: (nat, nat, nat) -> int): (Option<LibPiece>, nat) -> int
  {
    (o: Option<LibPiece>, k: nat) =>
      match o
      case None => 0
      case Some(p) => table(ColourOrdinal(p.colour), TypeIndex(p.kind), k)
  }

  /** EvaluatePieceTables: the two table sums blended by the game phase. */
  function EvaluatePieceTables(g: Grid, mgTables: (nat, nat, nat) -> int, egTables: (nat, nat, nat) -> int): int
  {
    Taper(CellSum(g, TableOf(mgTables), 64), CellSum(g, TableOf(egTables), 64), GetGamePhase(g))
  }

  /** Every table entry lies within -bound .. bound. */
  predicate TableBounded(table: (nat, nat, nat) -> int, bound: int)
  {
    bound >= 0 &&
    forall c: nat, t: nat, k: nat :: c < 2 && t < 6 && k < 64 ==> -bound <= table(c, t, k) <= bound
  }

  /** With tables bounded by B and at most the starting phase weight, the blended table score is within 64 B. */
  lemma PieceTablesBound(g: Grid, mgTables: (nat, nat, nat) -> int, egTables: (nat, nat, nat) -> int, bound: int)
    requires TableBounded(mgTables, bound) && TableBounded(egTables, bound)
    requires PhaseWeight(g) <= TotalPhase
    ensures -64 * bound <= EvaluatePieceTables(g, mgTables, egTables) <= 64 * bound
  {
    TableSumBound(g, mgTables, bound);
    TableSumBound(g, egTables, bound);
    PhaseWeightNonNegative(g);
    TotalPhaseValue();
    PhaseOfWeightRange(PhaseWeight(g), PhaseWeight(g));
    TaperBetween(CellSum(g, TableOf(mgTables), 64), CellSum(g, TableOf(egTables), 64), GetGamePhase(g));
  }

  /** Every partial sum of the source's table loop, and so the table sum, is within 64 B. */
  lemma TableSumBound(g: Grid, table: (nat, nat, nat) -> int, bound: int)
    requires TableBounded(table, bound)
    ensures forall n :: 0 <= n <= 64 ==> -64 * bound <= CellSum(g, TableOf(table), n) <= 64 * bound
  {
    var f := TableOf(table);
    forall k | 0 <= k < 64
      ensures -bound <= f(g[k], k) <= bound
    {
      if g[k].Some? {
        var p := g[k].value;
        assert f(g[k], k) == table(ColourOrdinal(p.colour), TypeIndex(p.kind), k);
      }
    }
    forall n | 0 <= n <= 64
      ensures -64 * bound <= CellSum(g, f, n) <= 64 * bound
    {
      CellSumBound(g, f, n, -bound, bound);
      MulLeft(n, 64, bound);
    }
  }

  // ---------------------------------------------------------------------
  // Castling, pawns, finished games

  /** EvaluateCastling: +100 when status[0] is set, -100 when status[1] is set. */
  function EvaluateCastling(status: seq<bool>): (r: int)
    requires |status| >= 2
    ensures r == 100 || r == 0 || r == -100
    ensures r > 0 <==> status[0] && !status[1]
    ensures r < 0 <==> !status[0] && status[1]
  {
    (if status[0] then 100 else 0) - (if status[1] then 100 else 0)
  }

  /** Swapping the two flags negates the castling score. */
  lemma CastlingAntisymmetric(a: bool, b: bool)
    ensures EvaluateCastling([b, a]) == -EvaluateCastling([a, b])
  {
  }

  /** The cell `board[i, j]`. */
  function Cell(g: Grid, i: int, j: int): Option<LibPiece>
    requires 0 <= i < 8 && 0 <= j < 8
  {
    g[i * 8 + j]
  }

  /** Some pawn of colour c stands on a cell board[i, j]. */
  predicate HasPawn(g: Grid, c: Colour, i: int)
    requires 0 <= i < 8
  {
    exists j :: 0 <= j < 8 && Cell(g, i, j) == Some(LibPiece(c, LibPawn))
  }

  /** pawnFiles[colour]: entry i is set when the colour has a pawn on some cell board[i, j]. */
  function PawnFiles(g: Grid, c: Colour): (files: seq<bool>)
    ensures |files| == 8
    ensures forall i :: 0 <= i < 8 ==> (files[i] <==> HasPawn(g, c, i))
  {
    seq(8, i requires 0 <= i < 8 => HasPawn(g, c, i))
  }

  /** A file holding pawns with no pawns of the same side on either neighbouring file. */
  predicate Isolated(files: seq<bool>, x: int)
    requires |files| == 8 && 0 <= x < 8
  {
    files[x] && !(x > 0 && files[x - 1]) && !(x < 7 && files[x + 1])
  }

  /** The number of isolated files among files x .. 7. */
  function IsolatedCount(files: seq<bool>, x: int): nat
    requires |files| == 8 && 0 <= x <= 8
    decreases 8 - x
  {
    if x == 8 then 0 else (if Isolated(files, x) then 1 else 0) + IsolatedCount(files, x + 1)
  }

  /** The file loop of EvaluatePawns from file x on: -75 per isolated white file, +75 per isolated black one. */
  function PawnsFrom(white: seq<bool>, black: seq<bool>, x: int): int
    requires |white| == 8 && |black| == 8 && 0 <= x <= 8
    decreases 8 - x
  {
    if x == 8 then 0
    else (if Isolated(white, x) then -75 else 0) + (if Isolated(black, x) then 75 else 0) + PawnsFrom(white, black, x + 1)
  }

  /** EvaluatePawns (not part of EvaluateBoard in the source). */
  function EvaluatePawns(g: Grid): int
  {
    PawnsFrom(PawnFiles(g, White), PawnFiles(g, Black), 0)
  }

  lemma {:induction false} PawnsFromCounts(white: seq<bool>, black: seq<bool>, x: int)
    requires |white| == 8 && |black| == 8 && 0 <= x <= 8
    ensures PawnsFrom(white, black, x) == 75 * (IsolatedCount(black, x) - IsolatedCount(white, x))
    decreases 8 - x
  {
    if x < 8 {
      PawnsFromCounts(white, black, x + 1);
    }
  }

  /** Of two neighbouring files at most one is isolated, so at most four of the eight are. */
  lemma IsolatedAtMostFour(files: seq<bool>)
    requires |files| == 8
    ensures IsolatedCount(files, 0) <= 4
  {
    assert IsolatedCount(files, 6) <= 1;
    assert IsolatedCount(files, 4) <= 1 + IsolatedCount(files, 6);
    assert IsolatedCount(files, 2) <= 1 + IsolatedCount(files, 4);
    assert IsolatedCount(files, 0) <= 1 + IsolatedCount(files, 2);
  }

  /** The pawn score is a multiple of 75 within -300 .. 300. */
  lemma PawnsBound(g: Grid)
    ensures EvaluatePawns(g) % 75 == 0 && -300 <= EvaluatePawns(g) <= 300
  {
    var w, b := PawnFiles(g, White), PawnFiles(g, Black);
    PawnsFromCounts(w, b, 0);
    IsolatedAtMostFour(w);
    IsolatedAtMostFour(b);
    ScaledCount(IsolatedCount(b, 0) - IsolatedCount(w, 0));
  }

  lemma ScaledCount(n: int)
    requires -4 <= n <= 4
    ensures (75 * n) % 75 == 0 && -300 <= 75 * n <= 300
  {
    CsDivExact(n, 75);
  }

  /** Swapping every piece's colour negates the pawn score. */
  lemma PawnsSwap(g: Grid)
    ensures EvaluatePawns(SwapColours(g)) == -EvaluatePawns(g)
  {
    var w, b := PawnFiles(g, White), PawnFiles(g, Black);
    SwapPawnFiles(g, White);
    SwapPawnFiles(g, Black);
    PawnsFromCounts(w, b, 0);
    PawnsFromCounts(b, w, 0);
  }

  lemma SwapPawnFiles(g: Grid, c: Colour)
    ensures PawnFiles(SwapColours(g), Opponent(c)) == PawnFiles(g, c)
  {
    var h := SwapColours(g);
    forall i | 0 <= i < 8
      ensures HasPawn(h, Opponent(c), i) == HasPawn(g, c, i)
    {
      forall j | 0 <= j < 8
        ensures Cell(h, i, j) == Some(LibPiece(Opponent(c), LibPawn)) <==> Cell(g, i, j) == Some(LibPiece(c, LibPawn))
      {
      }
    }
  }

  const IntMax: int := 0x7fff_ffff
  const IntMin: int := -0x8000_0000

  /**
   * EvaluateEndGame: 0 for a draw; a win is the most extreme score strictly
   * inside the int range, int.MaxValue - 1 for White and int.MinValue + 1
   * for Black.
   */
  function EvaluateEndGame(wonSide: Option<Colour>): (r: int)
    ensures wonSide == None ==> r == 0
    ensures IntMin < r < IntMax
    ensures wonSide == Some(White) ==> r >= IntMax - 1
    ensures wonSide == Some(Black) ==> r <= IntMin + 1
  {
    match wonSide
    case None => 0
    case Some(White) => IntMax - 1
    case Some(Black) => IntMin + 1
  }

  /** What EvaluateBoard reads from the library board. */
  datatype Position = Position(grid: Grid, isEndGame: bool, wonSide: Option<Colour>)

  /**
   * EvaluateBoard: a finished game's score, else material plus castling
   * plus the blended tables. A finished game returns before the castling
   * flags are read, so only an unfinished one needs two of them.
   */
  function EvaluateBoard(pos: Position, castlingStatus: seq<bool>, mgTables: (nat, nat, nat) -> int, egTables: (nat, nat, nat) -> int): (r: int)
    requires !pos.isEndGame ==> |castlingStatus| >= 2
    ensures pos.isEndGame ==> (r > 0 <==> pos.wonSide == Some(White)) && (r < 0 <==> pos.wonSide == Some(Black))
    ensures pos.isEndGame && pos.wonSide == Some(White) ==> r == IntMax - 1
    ensures pos.isEndGame && pos.wonSide == Some(Black) ==> r == IntMin + 1
    ensures pos.isEndGame && pos.wonSide == None ==> r == 0
  {
    if pos.isEndGame then EvaluateEndGame(pos.wonSide)
    else EvaluateMaterial(pos.grid) + EvaluateCastling(castlingStatus) + EvaluatePieceTables(pos.grid, mgTables, egTables)
  }

  /** x fits in a 32-bit C# int. */
  predicate InInt(x: int)
  {
    IntMin <= x <= IntMax
  }

  /**
   * With piece-square entries of at most 2^16 in size and no more than the
   * starting phase weight, every value the source computes in `int` fits:
   * each partial sum of the material and table loops, the two products of
   * the blend and their sum. The score of an unfinished position then lies
   * strictly between a Black win and a White win.
   */
  lemma WinsDominate(pos: Position, castlingStatus: seq<bool>, mgTables: (nat, nat, nat) -> int, egTables: (nat, nat, nat) -> int)
    requires |castlingStatus| >= 2 && !pos.isEndGame
    requires TableBounded(mgTables, 0x1_0000) && TableBounded(egTables, 0x1_0000)
    requires PhaseWeight(pos.grid) <= TotalPhase
    ensures forall n :: 0 <= n <= 64 ==> InInt(CellSum(pos.grid, MaterialOf, n))
    ensures forall n :: 0 <= n <= 64 ==> InInt(CellSum(pos.grid, TableOf(mgTables), n)) && InInt(CellSum(pos.grid, TableOf(egTables), n))
    ensures var mg, eg, phase := CellSum(pos.grid, TableOf(mgTables), 64), CellSum(pos.grid, TableOf(egTables), 64), GetGamePhase(pos.grid);
      InInt(mg * (256 - phase)) && InInt(eg * phase) && InInt(mg * (256 - phase) + eg * phase)
    ensures EvaluateEndGame(Some(Black)) < EvaluateBoard(pos, castlingStatus, mgTables, egTables) < EvaluateEndGame(Some(White))
  {
    var g := pos.grid;
    MaterialBound(g);
    TableSumBound(g, mgTables, 0x1_0000);
    TableSumBound(g, egTables, 0x1_0000);
    PieceTablesBound(g, mgTables, egTables, 0x1_0000);
    var mg, eg, phase := CellSum(g, TableOf(mgTables), 64), CellSum(g, TableOf(egTables), 64), GetGamePhase(g);
    PhaseWeightNonNegative(g);
    TotalPhaseValue();
    PhaseOfWeightRange(PhaseWeight(g), PhaseWeight(g));
    BlendProducts(mg, eg, phase, 64 * 0x1_0000);
  }

  /** With |mg|, |eg| <= b and a phase in 0 .. 256, each product of the blend and their sum lie within 256 b. */
  lemma BlendProducts(mg: int, eg: int, phase: int, b: int)
    requires -b <= mg <= b && -b <= eg <= b && 0 <= phase <= 256
    ensures -b * (256 - phase) <= mg * (256 - phase) <= b * (256 - phase)
    ensures -b * phase <= eg * phase <= b * phase
    ensures -256 * b <= mg * (256 - phase) + eg * phase <= 256 * b
  {
    MulLeft(-b, mg, 256 - phase);
    MulLeft(mg, b, 256 - phase);
    MulLeft(-b, eg, phase);
    MulLeft(eg, b, phase);
    assert -b * (256 - phase) + -b * phase == -256 * b;
    assert b * (256 - phase) + b * phase == 256 * b;
  }

  /** A finished game's score depends on the winner alone: not on the pieces, the castling rights or the tables. */
  lemma TerminalIgnoresBoard(pos: Position, castlingStatus: seq<bool>, mgTables: (nat, nat, nat) -> int, egTables: (nat, nat, nat) -> int,
                             pos': Position, castlingStatus': seq<bool>, mgTables': (nat, nat, nat) -> int, egTables': (nat, nat, nat) -> int)
    requires pos.isEndGame && pos'.isEndGame && pos.wonSide == pos'.wonSide
    ensures EvaluateBoard(pos, castlingStatus, mgTables, egTables) == EvaluateBoard(pos', castlingStatus', mgTables', egTables')
  {
  }

  // ---------------------------------------------------------------------
  // Colour symmetry: the position seen from the other side
  //
  // The pawn term takes the first index i of board[i, j] as the file
  // (Evaluation.cs:142), so the second index j is the rank, and seeing the
  // board from the other side reverses j.

  /** The square board[i, 7 - j] for the square board[i, j] = k: the same file, the rank seen from the other side. */
  function Mirror(k: nat): (m: nat)
    requires k < 64
    ensures m < 64
  {
    (k / 8) * 8 + (7 - k % 8)
  }

  lemma MirrorCell(i: nat, j: nat)
    requires i < 8 && j < 8
    ensures Mirror(i * 8 + j) == i * 8 + (7 - j)
  {
  }

  lemma MirrorInvolution(k: nat)
    requires k < 64
    ensures Mirror(Mirror(k)) == k
  {
    MirrorCell(k / 8, k % 8);
    MirrorCell(k / 8, 7 - k % 8);
  }

  /** The position with the ranks flipped and every piece given to the other side. */
  function MirrorColours(g: Grid): (h: Grid)
    ensures forall k :: 0 <= k < 64 ==> h[k] == SwapColours(g)[Mirror(k)]
  {
    seq(64, k requires 0 <= k < 64 => SwapColours(g)[Mirror(k)])
  }

  /** -x when neg holds, x otherwise. */
  function Signed(neg: bool, x: int): int
  {
    if neg then -x else x
  }

  /** The sum of f over the cells board[i, 0] .. board[i, m - 1] of one file. */
  function FileSum(g: Grid, f: (Option<LibPiece>, nat) -> int, i: nat, m: nat): int
    requires i < 8 && m <= 8
  {
    if m == 0 then 0 else FileSum(g, f, i, m - 1) + f(g[i * 8 + m - 1], i * 8 + m - 1)
  }

  /** The sum of f over the cells board[i, m] .. board[i, 7] of one file. */
  function FileSumFrom(g: Grid, f: (Option<LibPiece>, nat) -> int, i: nat, m: nat): int
    requires i < 8 && m <= 8
    decreases 8 - m
  {
    if m == 8 then 0 else f(g[i * 8 + m], i * 8 + m) + FileSumFrom(g, f, i, m + 1)
  }

  lemma {:induction false} FileSumSplit(g: Grid, f: (Option<LibPiece>, nat) -> int, i: nat, m: nat)
    requires i < 8 && m <= 8
    ensures FileSum(g, f, i, m) + FileSumFrom(g, f, i, m) == FileSum(g, f, i, 8)
    decreases 8 - m
  {
    if m < 8 {
      FileSumSplit(g, f, i, m + 1);
    }
  }

  lemma {:induction false} CellSumFile(g: Grid, f: (Option<LibPiece>, nat) -> int, i: nat, m: nat)
    requires i < 8 && m <= 8
    ensures CellSum(g, f, i * 8 + m) == CellSum(g, f, i * 8) + FileSum(g, f, i, m)
  {
    if m > 0 {
      CellSumFile(g, f, i, m - 1);
    }
  }

  /** The eight files' sums add up to the whole board's. */
  lemma CellSumFiles(g: Grid, f: (Option<LibPiece>, nat) -> int)
    ensures CellSum(g, f, 64) ==
      FileSum(g, f, 0, 8) + FileSum(g, f, 1, 8) + FileSum(g, f, 2, 8) + FileSum(g, f, 3, 8) +
      FileSum(g, f, 4, 8) + FileSum(g, f, 5, 8) + FileSum(g, f, 6, 8) + FileSum(g, f, 7, 8)
  {
    forall i: nat | i < 8
      ensures CellSum(g, f, i * 8 + 8) == CellSum(g, f, i * 8) + FileSum(g, f, i, 8)
    {
      CellSumFile(g, f, i, 8);
    }
  }

  /** The first m cells of file i of h are, signed and in reverse order, the last m of file i of g. */
  lemma {:induction false} FileSumMirror(g: Grid, f: (Option<LibPiece>, nat) -> int, h: Grid, f': (Option<LibPiece>, nat) -> int,
                                         neg: bool, i: nat, m: nat)
    requires i < 8 && m <= 8
    requires forall k :: 0 <= k < 64 ==> f'(h[k], k) == Signed(neg, f(g[Mirror(k)], Mirror(k)))
    ensures FileSum(h, f', i, m) == Signed(neg, FileSumFrom(g, f, i, 8 - m))
  {
    if m > 0 {
      FileSumMirror(g, f, h, f', neg, i, m - 1);
      MirrorCell(i, m - 1);
      assert f'(h[i * 8 + m - 1], i * 8 + m - 1) == Signed(neg, f(g[i * 8 + (8 - m)], i * 8 + (8 - m)));
    }
  }

  /** A sum over the mirrored board is the (signed) sum over the board: flipping the ranks only reorders the cells. */
  lemma CellSumMirror(g: Grid, f: (Option<LibPiece>, nat) -> int, h: Grid, f': (Option<LibPiece>, nat) -> int, neg: bool)
    requires forall k :: 0 <= k < 64 ==> f'(h[k], k) == Signed(neg, f(g[Mirror(k)], Mirror(k)))
    ensures CellSum(h, f', 64) == Signed(neg, CellSum(g, f, 64))
  {
    CellSumFiles(g, f);
    CellSumFiles(h, f');
    forall i: nat | i < 8
      ensures FileSum(h, f', i, 8) == Signed(neg, FileSum(g, f, i, 8))
    {
      FileSumMirror(g, f, h, f', neg, i, 8);
      FileSumSplit(g, f, i, 0);
    }
  }

  /**
   * Each side's table is the other's with the ranks flipped and the sign
   * changed: the entry for colour 1 - c at the mirrored square is minus the
   * entry for colour c.
   */
  predicate TableMirrored(table: (nat, nat, nat) -> int)
  {
    forall c: nat, t: nat, k: nat :: c < 2 && t < 6 && k < 64 ==> table(1 - c, t, Mirror(k)) == -table(c, t, k)
  }

  lemma MaterialMirror(g: Grid)
    ensures EvaluateMaterial(MirrorColours(g)) == -EvaluateMaterial(g)
  {
    var h := MirrorColours(g);
    forall k | 0 <= k < 64
      ensures MaterialOf(h[k], k) == Signed(true, MaterialOf(g[Mirror(k)], Mirror(k)))
    {
      if g[Mirror(k)].Some? {
        PieceValueByKind(g[Mirror(k)].value.kind);
      }
    }
    CellSumMirror(g, MaterialOf, h, MaterialOf, true);
  }

  lemma PhaseMirror(g: Grid)
    ensures GetGamePhase(MirrorColours(g)) == GetGamePhase(g)
  {
    var h := MirrorColours(g);
    CellSumMirror(g, PhaseOf, h, PhaseOf, false);
  }

  lemma TableSumMirror(g: Grid, table: (nat, nat, nat) -> int)
    requires TableMirrored(table)
    ensures CellSum(MirrorColours(g), TableOf(table), 64) == -CellSum(g, TableOf(table), 64)
  {
    var h := MirrorColours(g);
    var f := TableOf(table);
    forall k | 0 <= k < 64
      ensures f(h[k], k) == Signed(true, f(g[Mirror(k)], Mirror(k)))
    {
      var m := Mirror(k);
      if g[m].Some? {
        var p := g[m].value;
        MirrorInvolution(k);
        assert h[k] == Some(LibPiece(Opponent(p.colour), p.kind));
        assert ColourOrdinal(Opponent(p.colour)) == 1 - ColourOrdinal(p.colour);
        assert table(1 - ColourOrdinal(p.colour), TypeIndex(p.kind), Mirror(m)) == -table(ColourOrdinal(p.colour), TypeIndex(p.kind), m);
      }
    }
    CellSumMirror(g, f, h, f, true);
  }

  /** Truncating division is odd, so blending negated scores negates the blend. */
  lemma TaperNegate(mg: int, eg: int, phase: int)
    ensures Taper(-mg, -eg, phase) == -Taper(mg, eg, phase)
  {
    assert -mg * (256 - phase) + -eg * phase == -(mg * (256 - phase) + eg * phase);
  }

  /**
   * An unfinished position seen from the other side (ranks flipped, colours
   * swapped, castling flags swapped) scores the negation, provided each
   * table is the mirror of the other colour's.
   */
  lemma EvaluateBoardMirror(pos: Position, a: bool, b: bool, mgTables: (nat, nat, nat) -> int, egTables: (nat, nat, nat) -> int)
    requires !pos.isEndGame
    requires TableMirrored(mgTables) && TableMirrored(egTables)
    ensures EvaluateBoard(pos.(grid := MirrorColours(pos.grid)), [b, a], mgTables, egTables) == -EvaluateBoard(pos, [a, b], mgTables, egTables)
  {
    var g := pos.grid;
    MaterialMirror(g);
    PhaseMirror(g);
    TableSumMirror(g, mgTables);
    TableSumMirror(g, egTables);
    TaperNegate(CellSum(g, TableOf(mgTables), 64), CellSum(g, TableOf(egTables), 64), GetGamePhase(g));
    CastlingAntisymmetric(a, b);
  }
}
