/**
 * The board's twelve bitboards: loading the piece-placement field of a FEN
 * string into them, and rendering them as eight lines of eight characters.
 */
module Board {
  import opened Wrappers
  import opened Pieces
  import opened RookRays

  /** One bitboard per slot; slot k holds the squares of one colour and piece type. */
  type Bitboards = b: seq<Bitboard> | |b| == 12 witness seq(12, _ => {})

  /** The state the board constructor leaves: every bitboard zero. */
  function EmptyBoards(): (b: Bitboards)
    ensures forall k :: 0 <= k < 12 ==> b[k] == {}
  {
    seq(12, _ => {})
  }

  // ---------------------------------------------------------------------
  // Loading

  /** The placement field `fen.Split(" ")[0]`: everything before the first space. */
  function Placement(fen: string): (p: string)
    ensures p <= fen && ' ' !in p
    ensures |p| < |fen| ==> fen[|p|] == ' '
  {
    if |fen| == 0 || fen[0] == ' ' then [] else [fen[0]] + Placement(fen[1..])
  }

  /** The twelve letters LoadFen's table knows: the white pieces upper case, the black lower case. */
  const Letters: set<char> := {'P', 'N', 'B', 'R', 'Q', 'K', 'p', 'n', 'b', 'r', 'q', 'k'}

  /** A letter table of LoadFen's shape: the twelve letters, each giving a real piece. */
  predicate LetterTable(table: map<char, Piece>) {
    forall c :: (c in table <==> c in Letters) && (c in table ==> IsReal(table[c]))
  }

  /**
   * LoadFen's letter table as the source writes it: 'K' and 'k' map to the
   * Knight type, so a king letter loads a knight.
   */
  const AsWrittenLookup: map<char, Piece> := map[
    'P' := Piece(White, Pawn), 'N' := Piece(White, Knight), 'B' := Piece(White, Bishop),
    'R' := Piece(White, Rook), 'Q' := Piece(White, Queen), 'K' := Piece(White, Knight),
    'p' := Piece(Black, Pawn), 'n' := Piece(Black, Knight), 'b' := Piece(Black, Bishop),
    'r' := Piece(Black, Rook), 'q' := Piece(Black, Queen), 'k' := Piece(Black, Knight)]

  /** LoadFen's letter table, corrected: each letter gives the piece it names. */
  const PieceLookup: map<char, Piece> := map[
    'P' := Piece(White, Pawn), 'N' := Piece(White, Knight), 'B' := Piece(White, Bishop),
    'R' := Piece(White, Rook), 'Q' := Piece(White, Queen), 'K' := Piece(White, King),
    'p' := Piece(Black, Pawn), 'n' := Piece(Black, Knight), 'b' := Piece(Black, Bishop),
    'r' := Piece(Black, Rook), 'q' := Piece(Black, Queen), 'k' := Piece(Black, King)]

  /** No digit or '/' is among the letters, so the walk's three cases never overlap. */
  lemma LettersApart()
    ensures forall c :: c in Letters ==> !IsDigit(c) && c != '/'
  {
  }

  /** Both tables have the twelve letters, all of them real pieces. */
  lemma PieceLookupShape()
    ensures LetterTable(PieceLookup) && LetterTable(AsWrittenLookup)
  {
    CorrectedTableShape();
    AsWrittenTableShape();
  }

  lemma CorrectedTableShape()
    ensures LetterTable(PieceLookup)
  {
    assert PieceLookup.Keys == Letters;
    KeysMakeLetterTable(PieceLookup);
  }

  lemma AsWrittenTableShape()
    ensures LetterTable(AsWrittenLookup)
  {
    assert AsWrittenLookup.Keys == Letters;
    KeysMakeLetterTable(AsWrittenLookup);
  }

  lemma KeysMakeLetterTable(table: map<char, Piece>)
    requires table.Keys == Letters && forall c :: c in table ==> IsReal(table[c])
    ensures LetterTable(table)
  {
  }

  predicate IsDigit(c: char) {
    '0' <= c <= '9'
  }

  /** A character the walk accepts: a rank separator, a digit or a table letter. */
  predicate IsPlacementChar(c: char) {
    c == '/' || IsDigit(c) || c in Letters
  }

  /** A table of LoadFen's shape, and `BitboardIndex()` sending each of its pieces to one of the twelve slots. */
  predicate FenTable(table: map<char, Piece>, slot: Piece -> int) {
    LetterTable(table) && forall c :: c in table ==> 0 <= slot(table[c]) < 12
  }

  /** The bit `1ul << index`: a ulong shift takes its count modulo 64. */
  function SquareAt(index: int): Square
  {
    index % 64
  }

  /**
   * The KeyNotFoundException for a character outside the table. The
   * bitboards are updated in place, so `partial` is what the squares read
   * before it left behind.
   */
  datatype FenError = UnknownPiece(c: char, partial: Bitboards)

  /**
   * The walk over the placement characters, from the given square index:
   * a digit skips that many squares, a letter ORs the current square into
   * its piece's bitboard and moves one square on. Splitting on '/' and
   * visiting each part in turn is the same as skipping every '/'.
   * Returns the bitboards and the final square index.
   */
  function Walk(boards: Bitboards, index: int, placement: string, table: map<char, Piece>, slot: Piece -> int): Result<(Bitboards, int), FenError>
    requires FenTable(table, slot)
    decreases |placement|
  {
    if |placement| == 0 then Success((boards, index))
    else
      var c := placement[0];
      if c == '/' then Walk(boards, index, placement[1..], table, slot)
      else if IsDigit(c) then Walk(boards, index - (c as int - '0' as int), placement[1..], table, slot)
      else if c !in table then Failure(UnknownPiece(c, boards))
      else
        var k := slot(table[c]);
        Walk(boards[k := boards[k] + {SquareAt(index)}], index - 1, placement[1..], table, slot)
  }

  /**
   * LoadFen with letter table `table`: walk the placement field from square
   * 63, on top of the current bitboards. The program as written is
   * `LoadFen(_, _, AsWrittenLookup, _)`.
   */
  function LoadFen(boards: Bitboards, fen: string, table: map<char, Piece>, slot: Piece -> int): Result<Bitboards, FenError>
    requires FenTable(table, slot)
  {
    var r :- Walk(boards, 63, Placement(fen), table, slot);
    Success(r.0)
  }

  /** Squares a placement covers: one per letter, the value of each digit. */
  function Width(placement: string): int
  {
    if |placement| == 0 then 0
    else
      var c := placement[0];
      (if c == '/' then 0 else if IsDigit(c) then c as int - '0' as int else 1) + Width(placement[1..])
  }

  /**
   * Character i of the placement is the first outside the table, the error
   * names it, and its partial bitboards are what walking the characters
   * before it produces.
   */
  ghost predicate RejectsAt(boards: Bitboards, index: int, placement: string, table: map<char, Piece>, slot: Piece -> int, e: FenError, i: int)
    requires FenTable(table, slot)
  {
    0 <= i < |placement| && !IsPlacementChar(placement[i])
    && (forall i' :: 0 <= i' < i ==> IsPlacementChar(placement[i']))
    && e.c == placement[i]
    && Walk(boards, index, placement[..i], table, slot) == Success((e.partial, index - Width(placement[..i])))
  }

  /**
   * A failed walk reports the first character outside the table, and
   * leaves behind the bitboards that walking the characters before it
   * produces.
   */
  lemma {:induction false} WalkRejects(boards: Bitboards, index: int, placement: string, table: map<char, Piece>, slot: Piece -> int)
    requires FenTable(table, slot)
    ensures Walk(boards, index, placement, table, slot).Failure? ==>
      exists i :: RejectsAt(boards, index, placement, table, slot, Walk(boards, index, placement, table, slot).error, i)
    decreases |placement|
  {
    if |placement| > 0 {
      var c := placement[0];
      var rest := placement[1..];
      var w := Walk(boards, index, placement, table, slot);
      if w.Failure? {
        if !IsPlacementChar(c) {
          assert c !in table;
          assert w.error == UnknownPiece(c, boards);
          assert placement[..0] == [];
          assert RejectsAt(boards, index, placement, table, slot, w.error, 0);
        } else {
          var (b1, i1) := StepChar(boards, index, c, table, slot);
          assert placement == [c] + rest;
          WalkCons(boards, index, c, rest, table, slot);
          WalkRejects(b1, i1, rest, table, slot);
          var i :| RejectsAt(b1, i1, rest, table, slot, w.error, i);
          RejectsShift(boards, index, placement, table, slot, w.error, i);
        }
      }
    }
  }

  /** A rejection at i in the rest of the placement is one at i + 1 in the whole. */
  lemma RejectsShift(boards: Bitboards, index: int, placement: string, table: map<char, Piece>, slot: Piece -> int, e: FenError, i: int)
    requires FenTable(table, slot)
    requires |placement| > 0 && IsPlacementChar(placement[0])
    requires RejectsAt(StepChar(boards, index, placement[0], table, slot).0, StepChar(boards, index, placement[0], table, slot).1,
                       placement[1..], table, slot, e, i)
    ensures RejectsAt(boards, index, placement, table, slot, e, i + 1)
  {
    var c := placement[0];
    var rest := placement[1..];
    var pre := placement[..i + 1];
    assert pre == [c] + rest[..i];
    WalkCons(boards, index, c, rest[..i], table, slot);
    WidthAppend([c], rest[..i]);
    assert placement[i + 1] == rest[i];
    assert forall i' :: 1 <= i' < i + 1 ==> placement[i'] == rest[i' - 1];
  }

  /** The bitboards and square index after one accepted placement character. */
  function StepChar(boards: Bitboards, index: int, c: char, table: map<char, Piece>, slot: Piece -> int): (r: (Bitboards, int))
    requires FenTable(table, slot) && IsPlacementChar(c)
    ensures r.1 == index - Width([c])
  {
    assert [c][1..] == [];
    if c == '/' then (boards, index)
    else if IsDigit(c) then (boards, index - (c as int - '0' as int))
    else
      var k := slot(table[c]);
      (boards[k := boards[k] + {SquareAt(index)}], index - 1)
  }

  /** Walking an accepted character and then p is walking p from the state that character leaves. */
  lemma WalkCons(boards: Bitboards, index: int, c: char, p: string, table: map<char, Piece>, slot: Piece -> int)
    requires FenTable(table, slot) && IsPlacementChar(c)
    ensures Walk(boards, index, [c] + p, table, slot) ==
            Walk(StepChar(boards, index, c, table, slot).0, StepChar(boards, index, c, table, slot).1, p, table, slot)
  {
    assert ([c] + p)[0] == c && ([c] + p)[1..] == p;
  }

  /** A successful walk read table characters only and moved the index back by the placement's width. */
  lemma {:induction false} WalkAccepts(boards: Bitboards, index: int, placement: string, table: map<char, Piece>, slot: Piece -> int)
    requires FenTable(table, slot)
    ensures Walk(boards, index, placement, table, slot).Success? ==>
      (forall i :: 0 <= i < |placement| ==> IsPlacementChar(placement[i]))
      && Walk(boards, index, placement, table, slot).value.1 == index - Width(placement)
    decreases |placement|
  {
    if |placement| > 0 && Walk(boards, index, placement, table, slot).Success? {
      var c := placement[0];
      var rest := placement[1..];
      var b1, i1 := boards, index - 1;
      if c == '/' {
        i1 := index;
      } else if IsDigit(c) {
        i1 := index - (c as int - '0' as int);
      } else {
        var k := slot(table[c]);
        b1 := boards[k := boards[k] + {SquareAt(index)}];
      }
      assert Walk(boards, index, placement, table, slot) == Walk(b1, i1, rest, table, slot);
      WalkAccepts(b1, i1, rest, table, slot);
      assert forall i :: 1 <= i < |placement| ==> placement[i] == rest[i - 1];
    }
  }

  /**
   * The walk fails exactly when the placement holds a character outside the
   * table, and then reports the first such character with the bitboards the
   * characters before it produced; otherwise its final
   * index is the start index less the placement's width.
   */
  lemma WalkOutcome(boards: Bitboards, index: int, placement: string, table: map<char, Piece>, slot: Piece -> int)
    requires FenTable(table, slot)
    ensures Walk(boards, index, placement, table, slot).Failure? <==> exists i :: 0 <= i < |placement| && !IsPlacementChar(placement[i])
    ensures Walk(boards, index, placement, table, slot).Failure? ==>
      exists i :: RejectsAt(boards, index, placement, table, slot, Walk(boards, index, placement, table, slot).error, i)
    ensures Walk(boards, index, placement, table, slot).Success? ==>
      Walk(boards, index, placement, table, slot).value.1 == index - Width(placement)
  {
    WalkRejects(boards, index, placement, table, slot);
    WalkAccepts(boards, index, placement, table, slot);
  }

  /** Loading never clears a bit: every bitboard only gains squares. */
  lemma {:induction false} WalkOnlyAdds(boards: Bitboards, index: int, placement: string, table: map<char, Piece>, slot: Piece -> int)
    requires FenTable(table, slot)
    requires Walk(boards, index, placement, table, slot).Success?
    ensures forall k :: 0 <= k < 12 ==> boards[k] <= Walk(boards, index, placement, table, slot).value.0[k]
    decreases |placement|
  {
    if |placement| > 0 {
      var c := placement[0];
      var rest := placement[1..];
      if c == '/' {
        WalkOnlyAdds(boards, index, rest, table, slot);
      } else if IsDigit(c) {
        WalkOnlyAdds(boards, index - (c as int - '0' as int), rest, table, slot);
      } else {
        var k := slot(table[c]);
        WalkOnlyAdds(boards[k := boards[k] + {SquareAt(index)}], index - 1, rest, table, slot);
      }
    }
  }

  /** Only the placement field is read: anything after the first space is ignored. */
  lemma LoadFenReadsPlacementOnly(boards: Bitboards, placement: string, rest: string, table: map<char, Piece>, slot: Piece -> int)
    requires FenTable(table, slot) && ' ' !in placement
    ensures LoadFen(boards, placement + " " + rest, table, slot) == LoadFen(boards, placement, table, slot)
  {
    PlacementOfPrefix(placement, rest);
    PlacementOfPrefix(placement, "");
    assert placement + "" == placement;
  }

  lemma {:induction false} PlacementOfPrefix(placement: string, rest: string)
    requires ' ' !in placement
    ensures Placement(placement + " " + rest) == placement
    ensures rest == "" ==> Placement(placement) == placement
  {
    if |placement| > 0 {
      PlacementOfPrefix(placement[1..], rest);
      assert (placement + " " + rest)[1..] == placement[1..] + " " + rest;
    } else {
      assert (placement + " " + rest)[0] == ' ';
    }
  }

  // ---------------------------------------------------------------------
  // Rendering

  /** The letter PrintBoard writes for square i: that of the lowest slot holding it, else a space. */
  function SquareChar(boards: Bitboards, i: Square): char
  {
    FirstHolder(boards, SlotLetters, i)
  }

  /** The letter paired with the first of the bitboards bs that holds square i; a space when none does. */
  function FirstHolder(bs: seq<Bitboard>, letters: seq<char>, i: Square): char
    requires |bs| <= |letters|
    decreases |bs|
  {
    if |bs| == 0 then ' '
    else if i in bs[0] then letters[0]
    else FirstHolder(bs[1..], letters[1..], i)
  }

  /** A square none of the bitboards holds prints as a space. */
  lemma {:induction false} FirstHolderNone(bs: seq<Bitboard>, letters: seq<char>, i: Square)
    requires |bs| <= |letters|
    requires forall k :: 0 <= k < |bs| ==> i !in bs[k]
    ensures FirstHolder(bs, letters, i) == ' '
    decreases |bs|
  {
    if |bs| > 0 {
      assert forall k :: 0 <= k < |bs| - 1 ==> bs[1..][k] == bs[k + 1];
      FirstHolderNone(bs[1..], letters[1..], i);
    }
  }

  /** A square whose lowest holding bitboard is bs[k] prints as letter k. */
  lemma {:induction false} FirstHolderAt(bs: seq<Bitboard>, letters: seq<char>, i: Square, k: int)
    requires |bs| <= |letters| && 0 <= k < |bs| && i in bs[k]
    requires forall k' :: 0 <= k' < k ==> i !in bs[k']
    ensures FirstHolder(bs, letters, i) == letters[k]
    decreases k
  {
    if k > 0 {
      assert i !in bs[0];
      assert forall k' :: 0 <= k' < k - 1 ==> bs[1..][k'] == bs[k' + 1];
      FirstHolderAt(bs[1..], letters[1..], i, k - 1);
    }
  }

  /** PrintBoard's loop from square i down to square 0, with a line break after each square i % 8 == 0. */
  function RenderFrom(boards: Bitboards, i: int): string
    requires i < 64
    decreases i + 1
  {
    if i < 0 then []
    else [SquareChar(boards, i)] + (if i % 8 == 0 then "\n" else "") + RenderFrom(boards, i - 1)
  }

  /** PrintBoard writes one line per rank. */
  const LineCount: int := 8

  /** The text PrintBoard writes. */
  function Render(boards: Bitboards): string
  {
    RenderFrom(boards, 8 * LineCount - 1)
  }

  /** Squares hi, hi - 1, ..., lo as PrintBoard writes them, without line breaks. */
  function Run(boards: Bitboards, hi: int, lo: nat): (r: string)
    requires lo <= hi + 1 && hi < 64
    ensures |r| == hi + 1 - lo
    decreases hi + 1 - lo
  {
    if hi < lo then [] else [SquareChar(boards, hi)] + Run(boards, hi - 1, lo)
  }

  lemma {:induction false} RunIndex(boards: Bitboards, hi: int, lo: nat, c: nat)
    requires lo <= hi + 1 && hi < 64 && c < hi + 1 - lo
    ensures Run(boards, hi, lo)[c] == SquareChar(boards, hi - c)
    decreases c
  {
    if c > 0 {
      RunIndex(boards, hi - 1, lo, c - 1);
    }
  }

  lemma Assoc<T>(a: seq<T>, b: seq<T>, c: seq<T>)
    ensures a + (b + c) == (a + b) + c
  {
  }

  lemma ModEight(q: int, c: int)
    requires 0 <= c < 8
    ensures (8 * q + c) % 8 == c
  {
  }

  /** One iteration of PrintBoard's loop. */
  lemma RenderStep(boards: Bitboards, i: int)
    requires 0 <= i < 64
    ensures i % 8 != 0 ==> RenderFrom(boards, i) == [SquareChar(boards, i)] + RenderFrom(boards, i - 1)
    ensures i % 8 == 0 ==> RenderFrom(boards, i) == [SquareChar(boards, i)] + "\n" + RenderFrom(boards, i - 1)
  {
    var a := [SquareChar(boards, i)];
    var rest := RenderFrom(boards, i - 1);
    var br: string := if i % 8 == 0 then "\n" else "";
    assert RenderFrom(boards, i) == a + br + rest;
    if i % 8 != 0 {
      assert a + br == a;
    }
  }

  /** From square 8q + c down to square 8q, then the line break. */
  lemma {:induction false} RenderFromLine(boards: Bitboards, q: int, c: int)
    requires 0 <= q < 8 && 0 <= c < 8
    ensures RenderFrom(boards, 8 * q + c) == Run(boards, 8 * q + c, 8 * q) + "\n" + RenderFrom(boards, 8 * q - 1)
    decreases c
  {
    var i := 8 * q + c;
    var a := [SquareChar(boards, i)];
    ModEight(q, c);
    RenderStep(boards, i);
    assert Run(boards, i, 8 * q) == a + Run(boards, i - 1, 8 * q);
    if c > 0 {
      RenderFromLine(boards, q, c - 1);
      var x := Run(boards, i - 1, 8 * q);
      var y := RenderFrom(boards, 8 * q - 1);
      Assoc(a, x + "\n", y);
      Assoc(a, x, "\n");
    } else {
      assert Run(boards, i - 1, 8 * q) == [];
      assert a + [] == a;
    }
  }

  /** Line r of the picture, top first: squares 63 - 8r down to 56 - 8r, then a line break. */
  function Line(boards: Bitboards, r: int): (l: string)
    requires 0 <= r < 8
    ensures |l| == 9
  {
    Run(boards, 63 - 8 * r, 56 - 8 * r) + "\n"
  }

  /** The lines from line 8 - m to line 7. */
  function LinesFrom(boards: Bitboards, m: int): (s: string)
    requires 0 <= m <= 8
    ensures |s| == 9 * m
    decreases m
  {
    if m == 0 then [] else Line(boards, 8 - m) + LinesFrom(boards, m - 1)
  }

  lemma {:induction false} RenderFromLines(boards: Bitboards, m: int)
    requires 0 <= m <= 8
    ensures RenderFrom(boards, 8 * m - 1) == LinesFrom(boards, m)
    decreases m
  {
    if m > 0 {
      RenderFromLines(boards, m - 1);
      RenderFromLine(boards, m - 1, 7);
      assert 63 - 8 * (8 - m) == 8 * (m - 1) + 7;
    }
  }

  lemma {:induction false} LinesFromIndex(boards: Bitboards, m: int, q: int, c: int)
    requires 0 <= m <= 8 && 0 <= q < m && 0 <= c < 9
    ensures LinesFrom(boards, m)[9 * q + c] == Line(boards, 8 - m + q)[c]
    decreases m
  {
    if q > 0 {
      LinesFromIndex(boards, m - 1, q - 1, c);
    }
  }

  /**
   * PrintBoard writes 8 lines, each of the 8 squares 63 - 8r down to
   * 56 - 8r followed by a line break: the first line is the eighth rank
   * read from the a-file, the last the first rank.
   */
  lemma RenderLayout(boards: Bitboards)
    ensures Render(boards) == LinesFrom(boards, LineCount)
    ensures |Render(boards)| == 72
  {
    RenderFromLines(boards, LineCount);
  }

  // ---------------------------------------------------------------------
  // Loading then rendering

  /** `BitboardIndex()` under the slot order the rendering table implies; -1 for the Empty type. */
  function StandardIndex(p: Piece): int
  {
    if IsReal(p) then StandardSlot(p) else -1
  }

  lemma StandardIndexInRange(table: map<char, Piece>)
    requires LetterTable(table)
    ensures FenTable(table, StandardIndex)
  {
  }

  /** n empty squares. */
  function Blanks(n: nat): (e: seq<Option<Piece>>)
    ensures |e| == n && forall j :: 0 <= j < n ==> e[j] == None
  {
    if n == 0 then [] else [None] + Blanks(n - 1)
  }

  /** The squares a placement describes under a letter table, from the start square onwards: a piece or nothing. */
  function Expand(placement: string, table: map<char, Piece>): seq<Option<Piece>>
  {
    if |placement| == 0 then []
    else ExpandChar(placement[0], table) + Expand(placement[1..], table)
  }

  /** The squares one placement character describes. */
  function ExpandChar(c: char, table: map<char, Piece>): seq<Option<Piece>>
  {
    if c == '/' then []
    else if IsDigit(c) then Blanks(c as int - '0' as int)
    else if c in table then [Some(table[c])]
    else []
  }

  /** Squares of slot k that the described squares e occupy when e[0] sits on square index. */
  function Placed(e: seq<Option<Piece>>, index: int, slot: Piece -> int, k: int): Bitboard
  {
    set j | 0 <= j < |e| && e[j].Some? && slot(e[j].value) == k :: SquareAt(index - j)
  }

  lemma PlacedAppend(a: seq<Option<Piece>>, b: seq<Option<Piece>>, index: int, slot: Piece -> int, k: int)
    ensures Placed(a + b, index, slot, k) == Placed(a, index, slot, k) + Placed(b, index - |a|, slot, k)
  {
    var ab := a + b;
    forall x | x in Placed(a, index, slot, k)
      ensures x in Placed(ab, index, slot, k)
    {
      var j :| 0 <= j < |a| && a[j].Some? && slot(a[j].value) == k && x == SquareAt(index - j);
      assert ab[j] == a[j];
    }
    forall x | x in Placed(ab, index, slot, k)
      ensures x in Placed(a, index, slot, k) + Placed(b, index - |a|, slot, k)
    {
      var j :| 0 <= j < |ab| && ab[j].Some? && slot(ab[j].value) == k && x == SquareAt(index - j);
      if j >= |a| {
        assert b[j - |a|] == ab[j];
        assert SquareAt(index - |a| - (j - |a|)) == x;
      }
    }
    forall x | x in Placed(b, index - |a|, slot, k)
      ensures x in Placed(ab, index, slot, k)
    {
      var j :| 0 <= j < |b| && b[j].Some? && slot(b[j].value) == k && x == SquareAt(index - |a| - j);
      assert ab[j + |a|] == b[j];
      assert SquareAt(index - (j + |a|)) == x;
    }
  }

  /** What one placement character adds to slot k: its square when it is a letter of slot k. */
  lemma PlacedChar(c: char, index: int, table: map<char, Piece>, slot: Piece -> int, k: int)
    ensures Placed(ExpandChar(c, table), index, slot, k) ==
      if c in table && !IsDigit(c) && c != '/' && slot(table[c]) == k then {SquareAt(index)} else {}
  {
    var e := ExpandChar(c, table);
    if c in table && !IsDigit(c) && c != '/' {
      assert e == [Some(table[c])];
      assert e[0] == Some(table[c]);
    }
  }

  /** The walk's result holds, in each slot, the old squares and those the described squares place there. */
  ghost predicate AddsPlaced(result: Bitboards, boards: Bitboards, e: seq<Option<Piece>>, index: int, slot: Piece -> int)
  {
    forall k :: 0 <= k < 12 ==> result[k] == boards[k] + Placed(e, index, slot, k)
  }

  lemma CombineSteps(boards: Bitboards, b1: Bitboards, result: Bitboards, head: seq<Option<Piece>>, tail: seq<Option<Piece>>, index: int, slot: Piece -> int)
    requires forall k :: 0 <= k < 12 ==> b1[k] == boards[k] + Placed(head, index, slot, k)
    requires AddsPlaced(result, b1, tail, index - |head|, slot)
    ensures AddsPlaced(result, boards, head + tail, index, slot)
  {
    forall k | 0 <= k < 12
      ensures result[k] == boards[k] + Placed(head + tail, index, slot, k)
    {
      PlacedAppend(head, tail, index, slot, k);
    }
  }

  /** One walk step: the bitboards b1 after the first character, which add the squares it places. */
  lemma WalkFirst(boards: Bitboards, index: int, placement: string, table: map<char, Piece>, slot: Piece -> int) returns (b1: Bitboards)
    requires FenTable(table, slot)
    requires |placement| > 0 && IsPlacementChar(placement[0])
    ensures Walk(boards, index, placement, table, slot) == Walk(b1, index - |ExpandChar(placement[0], table)|, placement[1..], table, slot)
    ensures forall k :: 0 <= k < 12 ==> b1[k] == boards[k] + Placed(ExpandChar(placement[0], table), index, slot, k)
  {
    var c := placement[0];
    b1 := boards;
    if c in table && !IsDigit(c) && c != '/' {
      var k := slot(table[c]);
      b1 := boards[k := boards[k] + {SquareAt(index)}];
    }
    forall k | 0 <= k < 12
      ensures b1[k] == boards[k] + Placed(ExpandChar(c, table), index, slot, k)
    {
      PlacedChar(c, index, table, slot, k);
    }
  }

  /**
   * A placement of table characters only loads without error, moves the
   * square index past every square it describes, and adds to slot k
   * exactly the squares it describes as holding a piece of slot k, the
   * pieces being those the letter table gives.
   */
  lemma {:induction false} WalkPlaces(boards: Bitboards, index: int, placement: string, table: map<char, Piece>, slot: Piece -> int)
    requires FenTable(table, slot)
    requires forall i :: 0 <= i < |placement| ==> IsPlacementChar(placement[i])
    ensures Walk(boards, index, placement, table, slot).Success?
    ensures Walk(boards, index, placement, table, slot).value.1 == index - |Expand(placement, table)|
    ensures AddsPlaced(Walk(boards, index, placement, table, slot).value.0, boards, Expand(placement, table), index, slot)
    decreases |placement|
  {
    if |placement| == 0 {
      forall k | 0 <= k < 12
        ensures Placed([], index, slot, k) == {}
      {
      }
    } else {
      var rest := placement[1..];
      assert forall i :: 0 <= i < |rest| ==> rest[i] == placement[i + 1];
      var head := ExpandChar(placement[0], table);
      var b1 := WalkFirst(boards, index, placement, table, slot);
      WalkPlaces(b1, index - |head|, rest, table, slot);
      var w := Walk(b1, index - |head|, rest, table, slot);
      assert Walk(boards, index, placement, table, slot) == w;
      assert Expand(placement, table) == head + Expand(rest, table);
      assert w.value.1 == index - |head| - |Expand(rest, table)|;
      assert |Expand(placement, table)| == |head| + |Expand(rest, table)|;
      CombineSteps(boards, b1, w.value.0, head, Expand(rest, table), index, slot);
    }
  }

  /** A placement of table characters describes as many squares as its width, whichever the letter table. */
  lemma {:induction false} ExpandWidth(placement: string, table: map<char, Piece>)
    requires LetterTable(table)
    requires forall i :: 0 <= i < |placement| ==> IsPlacementChar(placement[i])
    ensures |Expand(placement, table)| == Width(placement)
    decreases |placement|
  {
    if |placement| > 0 {
      var rest := placement[1..];
      assert forall i :: 0 <= i < |rest| ==> rest[i] == placement[i + 1];
      ExpandWidth(rest, table);
    }
  }

  /** The boards loading a complete placement into an empty board produces. */
  function LoadedBoards(placement: string, table: map<char, Piece>): (b: Bitboards)
    requires LetterTable(table)
    requires forall n :: 0 <= n < |placement| ==> IsPlacementChar(placement[n])
    ensures FenTable(table, StandardIndex)
    ensures Walk(EmptyBoards(), 63, placement, table, StandardIndex) == Success((b, 63 - |Expand(placement, table)|))
  {
    StandardIndexInRange(table);
    WalkPlaces(EmptyBoards(), 63, placement, table, StandardIndex);
    Walk(EmptyBoards(), 63, placement, table, StandardIndex).value.0
  }

  /** When 64 described squares start at square 63, square i is the (63 - i)-th of them. */
  lemma PlacedFull(e: seq<Option<Piece>>, slot: Piece -> int, k: int, i: Square)
    requires |e| == 64
    ensures i in Placed(e, 63, slot, k) <==> e[63 - i].Some? && slot(e[63 - i].value) == k
  {
    if i in Placed(e, 63, slot, k) {
      var j :| 0 <= j < |e| && e[j].Some? && slot(e[j].value) == k && i == SquareAt(63 - j);
      assert j == 63 - i;
    }
    if e[63 - i].Some? && slot(e[63 - i].value) == k {
      assert SquareAt(63 - (63 - i)) == i;
    }
  }

  /** A square of the empty board that loading a 64-square placement puts a piece on: the slot of the piece the table gives. */
  lemma LoadedSquare(placement: string, table: map<char, Piece>, i: Square)
    requires LetterTable(table)
    requires forall n :: 0 <= n < |placement| ==> IsPlacementChar(placement[n])
    requires |Expand(placement, table)| == 64
    ensures forall k :: 0 <= k < 12 ==>
      (i in LoadedBoards(placement, table)[k] <==>
        Expand(placement, table)[63 - i].Some? && StandardIndex(Expand(placement, table)[63 - i].value) == k)
  {
    var boards := LoadedBoards(placement, table);
    WalkPlaces(EmptyBoards(), 63, placement, table, StandardIndex);
    var e := Expand(placement, table);
    assert AddsPlaced(boards, EmptyBoards(), e, 63, StandardIndex);
    forall k | 0 <= k < 12
      ensures i in boards[k] <==> e[63 - i].Some? && StandardIndex(e[63 - i].value) == k
    {
      assert boards[k] == Placed(e, 63, StandardIndex, k);
      PlacedFull(e, StandardIndex, k, i);
    }
  }

  /** The lettered pieces are all real. */
  lemma {:induction false} ExpandReal(placement: string, table: map<char, Piece>, j: int)
    requires LetterTable(table)
    requires 0 <= j < |Expand(placement, table)| && Expand(placement, table)[j].Some?
    ensures IsReal(Expand(placement, table)[j].value)
    decreases |placement|
  {
    var head := ExpandChar(placement[0], table);
    assert Expand(placement, table) == head + Expand(placement[1..], table);
    if j >= |head| {
      ExpandReal(placement[1..], table, j - |head|);
    } else {
      assert head[j] == Expand(placement, table)[j];
    }
  }

  /** What a square shows in the picture of a described board. */
  function Display(o: Option<Piece>): char
  {
    match o
    case None => ' '
    case Some(p) => if IsReal(p) then PieceLetter(p) else ' '
  }

  /** The described squares j .. end - 1, each shown as its piece's letter or a space. */
  function DisplayRun(e: seq<Option<Piece>>, j: nat, end: nat): (r: string)
    requires j <= end <= |e|
    ensures |r| == end - j
    decreases end - j
  {
    if j == end then [] else [Display(e[j])] + DisplayRun(e, j + 1, end)
  }

  /** The expected picture of the described squares: lines 8 - m .. 7, eight squares each, top first. */
  function Picture(e: seq<Option<Piece>>, m: int): string
    requires |e| == 64 && 0 <= m <= 8
    decreases m
  {
    if m == 0 then [] else PictureLine(e, 8 - m) + Picture(e, m - 1)
  }

  /** Line r of the expected picture: described squares 8r .. 8r + 7, then a line break. */
  function PictureLine(e: seq<Option<Piece>>, r: int): string
    requires |e| == 64 && 0 <= r < 8
  {
    DisplayRun(e, 8 * r, 8 * r + 8) + "\n"
  }

  /** Each square of the loaded board prints as the letter of the piece the table gives there, or a space. */
  lemma RenderedSquare(placement: string, table: map<char, Piece>, i: Square)
    requires LetterTable(table)
    requires forall n :: 0 <= n < |placement| ==> IsPlacementChar(placement[n])
    requires |Expand(placement, table)| == 64
    ensures SquareChar(LoadedBoards(placement, table), i) == Display(Expand(placement, table)[63 - i])
  {
    var boards := LoadedBoards(placement, table);
    var e := Expand(placement, table);
    LoadedSquare(placement, table, i);
    if e[63 - i].Some? {
      ExpandReal(placement, table, 63 - i);
      var q := e[63 - i].value;
      SlotOrderMatchesLetters(q, q);
      FirstHolderAt(boards, SlotLetters, i, StandardSlot(q));
    } else {
      FirstHolderNone(boards, SlotLetters, i);
    }
  }

  /** Square s of the boards prints as the display of the square described for it. */
  ghost predicate ShowsAt(boards: Bitboards, e: seq<Option<Piece>>, s: Square)
    requires |e| == 64
  {
    SquareChar(boards, s) == Display(e[63 - s])
  }

  /** Every square of the boards prints as the display of the square described for it. */
  ghost predicate Shows(boards: Bitboards, e: seq<Option<Piece>>)
    requires |e| == 64
  {
    forall s: Square :: ShowsAt(boards, e, s)
  }

  lemma {:induction false} DisplayRunIndex(e: seq<Option<Piece>>, j: nat, end: nat, c: nat)
    requires j <= end <= |e| && c < end - j
    ensures DisplayRun(e, j, end)[c] == Display(e[j + c])
    decreases c
  {
    if c > 0 {
      DisplayRunIndex(e, j + 1, end, c - 1);
    }
  }

  lemma RunMatchesPicture(boards: Bitboards, e: seq<Option<Piece>>, hi: int, lo: nat)
    requires |e| == 64 && Shows(boards, e)
    requires lo <= hi + 1 && hi < 64
    ensures Run(boards, hi, lo) == DisplayRun(e, 63 - hi, 64 - lo)
  {
    var r := Run(boards, hi, lo);
    var d := DisplayRun(e, 63 - hi, 64 - lo);
    forall c | 0 <= c < |r|
      ensures r[c] == d[c]
    {
      RunIndex(boards, hi, lo, c);
      DisplayRunIndex(e, 63 - hi, 64 - lo, c);
      var s: Square := hi - c;
      assert ShowsAt(boards, e, s);
    }
  }

  lemma {:induction false} LinesMatchPicture(boards: Bitboards, e: seq<Option<Piece>>, m: int)
    requires |e| == 64 && Shows(boards, e)
    requires 0 <= m <= 8
    ensures LinesFrom(boards, m) == Picture(e, m)
    decreases m
  {
    if m > 0 {
      LineMatchesPicture(boards, e, 8 - m);
      LinesMatchPicture(boards, e, m - 1);
    }
  }

  lemma LineMatchesPicture(boards: Bitboards, e: seq<Option<Piece>>, r: int)
    requires |e| == 64 && Shows(boards, e)
    requires 0 <= r < 8
    ensures Line(boards, r) == PictureLine(e, r)
  {
    RunMatchesPicture(boards, e, 63 - 8 * r, 56 - 8 * r);
  }

  lemma LoadedShows(placement: string, table: map<char, Piece>)
    requires LetterTable(table)
    requires forall n :: 0 <= n < |placement| ==> IsPlacementChar(placement[n])
    requires |Expand(placement, table)| == 64
    ensures Shows(LoadedBoards(placement, table), Expand(placement, table))
  {
    forall s: Square
      ensures ShowsAt(LoadedBoards(placement, table), Expand(placement, table), s)
    {
      RenderedSquare(placement, table, s);
    }
  }

  /**
   * Loading a placement of 64 squares into an empty board and printing it
   * shows, line by line from the top, the pieces the placement describes
   * under the letter table, in its own order, each by its letter and each
   * empty square as a space.
   */
  lemma LoadThenRender(placement: string, table: map<char, Piece>)
    requires LetterTable(table)
    requires forall n :: 0 <= n < |placement| ==> IsPlacementChar(placement[n])
    requires |Expand(placement, table)| == 64
    ensures FenTable(table, StandardIndex)
    ensures LoadFen(EmptyBoards(), placement, table, StandardIndex) == Success(LoadedBoards(placement, table))
    ensures Render(LoadedBoards(placement, table)) == Picture(Expand(placement, table), LineCount)
  {
    LoadFenLoaded(placement, table);
    RenderLoaded(placement, table);
  }

  lemma LoadFenLoaded(placement: string, table: map<char, Piece>)
    requires LetterTable(table)
    requires forall n :: 0 <= n < |placement| ==> IsPlacementChar(placement[n])
    ensures FenTable(table, StandardIndex)
    ensures LoadFen(EmptyBoards(), placement, table, StandardIndex) == Success(LoadedBoards(placement, table))
  {
    StandardIndexInRange(table);
    var p := Placement(placement);
    assert ' ' !in placement by {
      forall n | 0 <= n < |placement|
        ensures placement[n] != ' '
      {
        assert IsPlacementChar(placement[n]);
      }
    }
    assert |p| == |placement|;
    assert p == placement;
  }

  lemma RenderLoaded(placement: string, table: map<char, Piece>)
    requires LetterTable(table)
    requires forall n :: 0 <= n < |placement| ==> IsPlacementChar(placement[n])
    requires |Expand(placement, table)| == 64
    ensures Render(LoadedBoards(placement, table)) == Picture(Expand(placement, table), LineCount)
  {
    var boards := LoadedBoards(placement, table);
    RenderLayout(boards);
    LoadedShows(placement, table);
    LinesMatchPicture(boards, Expand(placement, table), LineCount);
  }

  // ---------------------------------------------------------------------
  // Printing back what was loaded

  /**
   * As written, a king letter loads a knight, which prints as 'N' or 'n'
   * where the FEN had 'K' or 'k'; on every other letter the two tables agree.
   */
  lemma AsWrittenKingsAreKnights()
    ensures AsWrittenLookup['K'] == Piece(White, Knight) && Display(Some(AsWrittenLookup['K'])) == 'N'
    ensures AsWrittenLookup['k'] == Piece(Black, Knight) && Display(Some(AsWrittenLookup['k'])) == 'n'
    ensures AsWrittenLookup == PieceLookup['K' := Piece(White, Knight)]['k' := Piece(Black, Knight)]
  {
  }

  /** With the corrected table every letter prints back as itself. */
  lemma LettersRoundTrip()
    ensures forall c :: c in PieceLookup ==> IsReal(PieceLookup[c]) && Display(Some(PieceLookup[c])) == c
  {
  }

  function Spaces(n: nat): (s: string)
    ensures |s| == n && forall j :: 0 <= j < n ==> s[j] == ' '
  {
    if n == 0 then [] else [' '] + Spaces(n - 1)
  }

  /** The placement as flat text: letters kept, a digit n as n spaces, rank separators dropped. */
  function Flat(placement: string): string
  {
    if |placement| == 0 then [] else FlatChar(placement[0]) + Flat(placement[1..])
  }

  function FlatChar(c: char): string
  {
    if c == '/' then []
    else if IsDigit(c) then Spaces(c as int - '0' as int)
    else if c in Letters then [c]
    else []
  }

  /** The flat text a letter table makes of the placement: each letter shown as the letter of the piece the table gives it. */
  function Shown(placement: string, table: map<char, Piece>): string
  {
    if |placement| == 0 then [] else ShownChar(placement[0], table) + Shown(placement[1..], table)
  }

  function ShownChar(c: char, table: map<char, Piece>): string
  {
    if c == '/' then []
    else if IsDigit(c) then Spaces(c as int - '0' as int)
    else if c in table then [Display(Some(table[c]))]
    else []
  }

  lemma ShownCharDisplays(c: char, table: map<char, Piece>)
    ensures |ShownChar(c, table)| == |ExpandChar(c, table)|
    ensures forall j :: 0 <= j < |ExpandChar(c, table)| ==> Display(ExpandChar(c, table)[j]) == ShownChar(c, table)[j]
  {
  }

  /** Each described square prints as the character the shown text has in its place. */
  lemma {:induction false} ShownDisplays(placement: string, table: map<char, Piece>)
    ensures |Shown(placement, table)| == |Expand(placement, table)|
    ensures forall j :: 0 <= j < |Expand(placement, table)| ==> Display(Expand(placement, table)[j]) == Shown(placement, table)[j]
    decreases |placement|
  {
    if |placement| > 0 {
      var rest := placement[1..];
      ShownDisplays(rest, table);
      ShownCharDisplays(placement[0], table);
      var a, b := ExpandChar(placement[0], table), Expand(rest, table);
      var f, g := ShownChar(placement[0], table), Shown(rest, table);
      forall j | 0 <= j < |a + b|
        ensures Display((a + b)[j]) == (f + g)[j]
      {
        if j < |a| {
          assert (a + b)[j] == a[j] && (f + g)[j] == f[j];
        } else {
          assert (a + b)[j] == b[j - |a|] && (f + g)[j] == g[j - |a|];
        }
      }
    }
  }

  /** Under the corrected table the shown text is the placement's own flat text. */
  lemma {:induction false} ShownCorrected(placement: string)
    ensures Shown(placement, PieceLookup) == Flat(placement)
    decreases |placement|
  {
    if |placement| > 0 {
      ShownCorrected(placement[1..]);
      LettersRoundTrip();
      assert ShownChar(placement[0], PieceLookup) == FlatChar(placement[0]);
    }
  }

  /** Text of 64 characters cut into lines of eight, each ended by a line break: the last m lines. */
  function TextLines(t: string, m: int): string
    requires |t| == 64 && 0 <= m <= 8
    decreases m
  {
    if m == 0 then [] else t[8 * (8 - m)..8 * (8 - m) + 8] + "\n" + TextLines(t, m - 1)
  }

  lemma {:induction false} PictureIsText(e: seq<Option<Piece>>, t: string, m: int)
    requires |e| == 64 && |t| == 64 && 0 <= m <= 8
    requires forall j :: 0 <= j < 64 ==> Display(e[j]) == t[j]
    ensures Picture(e, m) == TextLines(t, m)
    decreases m
  {
    if m > 0 {
      PictureIsText(e, t, m - 1);
      var r := 8 - m;
      var run := DisplayRun(e, 8 * r, 8 * r + 8);
      forall c | 0 <= c < 8
        ensures run[c] == t[8 * r..8 * r + 8][c]
      {
        DisplayRunIndex(e, 8 * r, 8 * r + 8, c);
      }
      assert run == t[8 * r..8 * r + 8];
    }
  }

  /**
   * PrintBoard prints back the placement LoadFen read, each letter replaced
   * by the letter of the piece the table gives it, a space for each empty
   * square, eight squares a line.
   */
  lemma PrintBack(placement: string, table: map<char, Piece>)
    requires LetterTable(table)
    requires forall n :: 0 <= n < |placement| ==> IsPlacementChar(placement[n])
    requires Width(placement) == 64
    ensures FenTable(table, StandardIndex)
    ensures LoadFen(EmptyBoards(), placement, table, StandardIndex).Success?
    ensures |Shown(placement, table)| == 64
    ensures Render(LoadFen(EmptyBoards(), placement, table, StandardIndex).value) == TextLines(Shown(placement, table), LineCount)
  {
    ExpandWidth(placement, table);
    LoadThenRender(placement, table);
    ShownDisplays(placement, table);
    PictureIsText(Expand(placement, table), Shown(placement, table), LineCount);
  }

  /**
   * With the corrected table PrintBoard prints back exactly the placement
   * LoadFen read: its letters, a space for each empty square, eight squares
   * a line.
   */
  lemma LoadThenPrintBack(placement: string)
    requires forall n :: 0 <= n < |placement| ==> IsPlacementChar(placement[n])
    requires Width(placement) == 64
    ensures FenTable(PieceLookup, StandardIndex)
    ensures LoadFen(EmptyBoards(), placement, PieceLookup, StandardIndex).Success?
    ensures |Flat(placement)| == 64
    ensures Render(LoadFen(EmptyBoards(), placement, PieceLookup, StandardIndex).value) == TextLines(Flat(placement), LineCount)
  {
    PieceLookupShape();
    PrintBack(placement, PieceLookup);
    ShownCorrected(placement);
  }

  /** n empty ranks, each written "/8". */
  function EmptyRanks(n: nat): string
  {
    if n == 0 then [] else "/8" + EmptyRanks(n - 1)
  }

  /** A lone king on the top-left square, the rest of the board empty: "K7/8/8/8/8/8/8/8". */
  const LoneKing: string := "K7" + EmptyRanks(7)

  lemma {:induction false} EmptyRanksShape(n: nat)
    ensures forall i :: 0 <= i < |EmptyRanks(n)| ==> IsPlacementChar(EmptyRanks(n)[i])
    ensures Width(EmptyRanks(n)) == 8 * n
  {
    if n > 0 {
      EmptyRanksShape(n - 1);
      WidthAppend("/8", EmptyRanks(n - 1));
      assert Width("/8") == 8;
      CharsAppend("/8", EmptyRanks(n - 1));
    }
  }

  lemma CharsAppend(a: string, b: string)
    requires forall i :: 0 <= i < |a| ==> IsPlacementChar(a[i])
    requires forall i :: 0 <= i < |b| ==> IsPlacementChar(b[i])
    ensures forall i :: 0 <= i < |a + b| ==> IsPlacementChar((a + b)[i])
  {
    forall i | 0 <= i < |a + b|
      ensures IsPlacementChar((a + b)[i])
    {
      if i >= |a| {
        assert (a + b)[i] == b[i - |a|];
      }
    }
  }

  lemma LoneKingShape()
    ensures forall n :: 0 <= n < |LoneKing| ==> IsPlacementChar(LoneKing[n])
    ensures Width(LoneKing) == 64
  {
    LoneKingChars();
    LoneKingWidth();
  }

  lemma LoneKingChars()
    ensures forall n :: 0 <= n < |LoneKing| ==> IsPlacementChar(LoneKing[n])
  {
    EmptyRanksShape(7);
    assert IsPlacementChar("K7"[0]) && IsPlacementChar("K7"[1]);
    CharsAppend("K7", EmptyRanks(7));
  }

  lemma LoneKingWidth()
    ensures Width(LoneKing) == 64
  {
    EmptyRanksShape(7);
    WidthAppend("K7", EmptyRanks(7));
    assert Width("K7") == 8;
  }

  lemma {:induction false} WidthAppend(a: string, b: string)
    ensures Width(a + b) == Width(a) + Width(b)
    decreases |a|
  {
    if |a| > 0 {
      assert (a + b)[0] == a[0] && (a + b)[1..] == a[1..] + b;
      WidthAppend(a[1..], b);
    } else {
      assert a + b == b;
    }
  }

  /**
   * The program as written loads the lone king of LoneKing as a white
   * knight: square 63 lands in the knight's bitboard, not the king's, and
   * PrintBoard's first character is 'N'.
   */
  lemma AsWrittenKingLoadsKnight()
    ensures FenTable(AsWrittenLookup, StandardIndex)
    ensures LoadFen(EmptyBoards(), LoneKing, AsWrittenLookup, StandardIndex).Success?
    ensures 63 in LoadFen(EmptyBoards(), LoneKing, AsWrittenLookup, StandardIndex).value[StandardIndex(Piece(White, Knight))]
    ensures 63 !in LoadFen(EmptyBoards(), LoneKing, AsWrittenLookup, StandardIndex).value[StandardIndex(Piece(White, King))]
    ensures Render(LoadFen(EmptyBoards(), LoneKing, AsWrittenLookup, StandardIndex).value)[0] == 'N'
  {
    AsWrittenTableShape();
    AsWrittenKingEntry();
    LoneKingAt(AsWrittenLookup);
  }

  /** With the corrected table the same placement loads a white king, printed 'K'. */
  lemma CorrectedKingLoadsKing()
    ensures FenTable(PieceLookup, StandardIndex)
    ensures LoadFen(EmptyBoards(), LoneKing, PieceLookup, StandardIndex).Success?
    ensures 63 in LoadFen(EmptyBoards(), LoneKing, PieceLookup, StandardIndex).value[StandardIndex(Piece(White, King))]
    ensures 63 !in LoadFen(EmptyBoards(), LoneKing, PieceLookup, StandardIndex).value[StandardIndex(Piece(White, Knight))]
    ensures Render(LoadFen(EmptyBoards(), LoneKing, PieceLookup, StandardIndex).value)[0] == 'K'
  {
    CorrectedTableShape();
    CorrectedKingEntry();
    LoneKingAt(PieceLookup);
  }

  lemma AsWrittenKingEntry()
    ensures 'K' in AsWrittenLookup && AsWrittenLookup['K'] == Piece(White, Knight)
  {
  }

  lemma CorrectedKingEntry()
    ensures 'K' in PieceLookup && PieceLookup['K'] == Piece(White, King)
  {
  }

  /** Square 63 of LoneKing, loaded with any letter table: it holds the piece the table gives 'K', and prints as its letter. */
  lemma LoneKingAt(table: map<char, Piece>)
    requires LetterTable(table)
    ensures FenTable(table, StandardIndex)
    ensures LoadFen(EmptyBoards(), LoneKing, table, StandardIndex).Success?
    ensures forall k :: 0 <= k < 12 ==>
      (63 in LoadFen(EmptyBoards(), LoneKing, table, StandardIndex).value[k] <==> k == StandardIndex(table['K']))
    ensures Render(LoadFen(EmptyBoards(), LoneKing, table, StandardIndex).value)[0] == Display(Some(table['K']))
  {
    LoneKingShape();
    ExpandWidth(LoneKing, table);
    LoadFenLoaded(LoneKing, table);
    var b := LoadedBoards(LoneKing, table);
    var e := Expand(LoneKing, table);
    assert e == ExpandChar('K', table) + Expand(LoneKing[1..], table);
    assert e[0] == Some(table['K']);
    LoadedSquare(LoneKing, table, 63);
    RenderedSquare(LoneKing, table, 63);
    assert Render(b)[0] == SquareChar(b, 63);
  }
}
