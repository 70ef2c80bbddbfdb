/**
 * Rook geometry on a bitboard: the relevance mask of a square and the
 * ray-traced attack set for a set of blockers. Square i is bit i of a
 * 64-bit board; its rank is i / 8 and its file (column) is i % 8.
 */
module RookRays {

  type Square = x: int | 0 <= x < 64

  /** A bitboard, as the set of squares whose bit is one. */
  type Bitboard = set<Square>

  function Rank(s: int): int { s / 8 }

  function File(s: int): int { s % 8 }

  /** The squares visited by `for (i = lo; i < hi; i += step)`. */
  function Span(lo: int, hi: int, step: int): Bitboard
    requires 0 <= lo && hi <= 64 && step > 0
    decreases hi - lo
  {
    if lo >= hi then {}
    else
      var sq: Square := lo;
      {sq} + Span(lo + step, hi, step)
  }

  lemma {:induction false} SpanMembers(lo: int, hi: int, step: int, x: int)
    requires 0 <= lo && hi <= 64 && (step == 1 || step == 8)
    ensures x in Span(lo, hi, step) <==> lo <= x < hi && (step == 8 ==> x % 8 == lo % 8)
    decreases hi - lo
  {
    if lo < hi {
      SpanMembers(lo + step, hi, step, x);
    }
  }

  /** Every integer splits into its rank and file. */
  lemma Coordinates(t: int)
    ensures t == 8 * Rank(t) + File(t) && 0 <= File(t) < 8
  {
  }

  /** The rank of t is r exactly when t lies in the eight squares of rank r. */
  lemma RankRange(t: int, r: int)
    ensures Rank(t) == r <==> 8 * r <= t < 8 * r + 8
  {
    Coordinates(t);
  }

  /** A unit-step span has one square per index. */
  lemma {:induction false} UnitSpanSize(lo: int, hi: int)
    requires 0 <= lo <= hi <= 64
    ensures |Span(lo, hi, 1)| == hi - lo
    decreases hi - lo
  {
    if lo < hi {
      UnitSpanSize(lo + 1, hi);
      SpanMembers(lo + 1, hi, 1, lo);
    }
  }

  /** A span with step 8 has one square per started group of eight indices. */
  lemma {:induction false} StrideSpanSize(lo: int, hi: int)
    requires 0 <= lo <= hi <= 64
    ensures |Span(lo, hi, 8)| == (hi - lo + 7) / 8
    decreases hi - lo
  {
    if lo < hi {
      if lo + 8 <= hi {
        StrideSpanSize(lo + 8, hi);
      } else {
        assert Span(lo + 8, hi, 8) == {};
      }
      SpanMembers(lo + 8, hi, 8, lo);
    }
  }

  /** Files 1..6 of s's rank: the first loop of the mask construction. */
  function RankInterior(s: Square): Bitboard
  {
    Span(Rank(s) * 8 + 1, Rank(s) * 8 + 7, 1)
  }

  /** Ranks 1..6 of s's file: the second loop of the mask construction. */
  function FileInterior(s: Square): Bitboard
  {
    Span(8 + File(s), 48 + File(s) + 1, 8)
  }

  /**
   * The relevance mask of a rook on s: the interior squares of its rank
   * and of its file, with s itself cleared.
   */
  function RookMask(s: Square): Bitboard
  {
    (RankInterior(s) + FileInterior(s)) - {s}
  }

  lemma RankInteriorMembers(s: Square, t: int)
    ensures t in RankInterior(s) <==> Rank(t) == Rank(s) && 1 <= File(t) <= 6
  {
    var r := Rank(s);
    SpanMembers(r * 8 + 1, r * 8 + 7, 1, t);
    Coordinates(t);
    RankRange(t, r);
  }

  lemma FileInteriorMembers(s: Square, t: int)
    ensures t in FileInterior(s) <==> File(t) == File(s) && 1 <= Rank(t) <= 6
  {
    var f := File(s);
    SpanMembers(8 + f, 48 + f + 1, 8, t);
    assert (8 + f) % 8 == f;
    Coordinates(t);
  }

  /** t is in the mask of s exactly when it is an interior square of s's rank or file, other than s. */
  lemma RookMaskMembers(s: Square, t: int)
    ensures t in RookMask(s) <==>
      t != s && ((Rank(t) == Rank(s) && 1 <= File(t) <= 6) || (File(t) == File(s) && 1 <= Rank(t) <= 6))
  {
    RankInteriorMembers(s, t);
    FileInteriorMembers(s, t);
  }

  predicate IsCorner(s: Square) {
    (File(s) == 0 || File(s) == 7) && (Rank(s) == 0 || Rank(s) == 7)
  }

  predicate IsEdge(s: Square) {
    File(s) == 0 || File(s) == 7 || Rank(s) == 0 || Rank(s) == 7
  }

  predicate IsInterior(s: Square) {
    1 <= File(s) <= 6 && 1 <= Rank(s) <= 6
  }

  lemma InteriorPartsSize(s: Square)
    ensures |RankInterior(s)| == 6 && |FileInterior(s)| == 6
  {
    UnitSpanSize(Rank(s) * 8 + 1, Rank(s) * 8 + 7);
    StrideSpanSize(8 + File(s), 48 + File(s) + 1);
  }

  /** The two interior parts meet only in s, and only when s is itself interior. */
  lemma InteriorPartsMeet(s: Square)
    ensures RankInterior(s) * FileInterior(s) == if IsInterior(s) then {s} else {}
  {
    forall t | t in RankInterior(s) * FileInterior(s)
      ensures t == s && IsInterior(s)
    {
      RankInteriorMembers(s, t);
      FileInteriorMembers(s, t);
      Coordinates(t);
      Coordinates(s);
    }
    RankInteriorMembers(s, s);
    FileInteriorMembers(s, s);
  }

  /** The mask never contains its own square and has 12 squares at a corner, 11 on another edge square, 10 inside. */
  lemma RookMaskSize(s: Square)
    ensures s !in RookMask(s)
    ensures |RookMask(s)| == if IsCorner(s) then 12 else if IsEdge(s) then 11 else 10
  {
    var a, c := RankInterior(s), FileInterior(s);
    InteriorPartsSize(s);
    InteriorPartsMeet(s);
    RankInteriorMembers(s, s);
    FileInteriorMembers(s, s);
    assert |a + c| == 12 - |a * c|;
    if s in a + c {
      assert |(a + c) - {s}| == |a + c| - 1;
    } else {
      assert (a + c) - {s} == a + c;
    }
  }

  /** Loop `for (i = start; i < limit; i += step)` that adds i and stops after the first blocker. */
  function RayUp(b: Bitboard, i: int, step: int, limit: int): Bitboard
    requires 0 <= i && limit <= 64 && step > 0
    decreases limit - i
  {
    if i >= limit then {}
    else
      var sq: Square := i;
      if sq in b then {sq} else {sq} + RayUp(b, i + step, step, limit)
  }

  /** Loop `for (i = start; i >= limit; i -= step)` that adds i and stops after the first blocker. */
  function RayDown(b: Bitboard, i: int, step: int, limit: int): Bitboard
    requires i < 64 && 0 <= limit && step > 0
    decreases i - limit
  {
    if i < limit then {}
    else
      var sq: Square := i;
      if sq in b then {sq} else {sq} + RayDown(b, i - step, step, limit)
  }

  /**
   * The rook attack set from s for blockers b, traced the way the source
   * does: east along the rank, west, north along the file, then south.
   */
  function RookAttacks(b: Bitboard, s: Square): Bitboard
  {
    RayUp(b, s + 1, 1, Rank(s) * 8 + 8)
    + RayDown(b, s - 1, 1, Rank(s) * 8)
    + RayUp(b, s + 8, 8, 56 + File(s) + 1)
    + RayDown(b, s - 8, 8, File(s))
  }

  // ---------------------------------------------------------------------
  // Reference definition of the attack set

  /** t shares a rank or a file with s and is not s. */
  predicate OnLine(s: int, t: int) {
    s != t && (Rank(t) == Rank(s) || File(t) == File(s))
  }

  /** u lies strictly between s and t on the rank or file they share. */
  predicate Between(s: int, u: int, t: int) {
    ((Rank(u) == Rank(s) && Rank(t) == Rank(s)) || (File(u) == File(s) && File(t) == File(s)))
    && (s < u < t || t < u < s)
  }

  /** No blocker lies strictly between s and t. */
  predicate Clear(b: Bitboard, s: int, t: int) {
    forall u :: Between(s, u, t) ==> u !in b
  }

  /**
   * Reference attack set: every square on s's rank or file that is reached
   * before or at the first blocker of its ray.
   */
  function AttackSpec(b: Bitboard, s: Square): Bitboard
  {
    set t: Square | OnLine(s, t) && Clear(b, s, t)
  }

  lemma {:induction false} RayUpByOne(b: Bitboard, i: int, limit: int, t: int)
    requires 0 <= i && limit <= 64
    ensures t in RayUp(b, i, 1, limit) <==> i <= t < limit && forall u :: i <= u < t ==> u !in b
    decreases limit - i
  {
    if i < limit {
      RayUpByOne(b, i + 1, limit, t);
    }
  }

  lemma {:induction false} RayDownByOne(b: Bitboard, i: int, limit: int, t: int)
    requires i < 64 && 0 <= limit
    ensures t in RayDown(b, i, 1, limit) <==> limit <= t <= i && forall u :: t < u <= i ==> u !in b
    decreases i - limit
  {
    if i >= limit {
      RayDownByOne(b, i - 1, limit, t);
    }
  }

  lemma {:induction false} RayUpByRank(b: Bitboard, i: int, limit: int, t: int)
    requires 0 <= i && limit <= 64
    ensures t in RayUp(b, i, 8, limit) <==>
      i <= t < limit && t % 8 == i % 8 && forall u :: i <= u < t && u % 8 == i % 8 ==> u !in b
    decreases limit - i
  {
    if i < limit {
      RayUpByRank(b, i + 8, limit, t);
    }
  }

  lemma {:induction false} RayDownByRank(b: Bitboard, i: int, limit: int, t: int)
    requires i < 64 && 0 <= limit
    ensures t in RayDown(b, i, 8, limit) <==>
      limit <= t <= i && t % 8 == i % 8 && forall u :: t < u <= i && u % 8 == i % 8 ==> u !in b
    decreases i - limit
  {
    if i >= limit {
      RayDownByRank(b, i - 8, limit, t);
    }
  }

  lemma EastRay(b: Bitboard, s: Square, t: Square)
    ensures t in RayUp(b, s + 1, 1, Rank(s) * 8 + 8) <==> t in AttackSpec(b, s) && Rank(t) == Rank(s) && t > s
  {
    RayUpByOne(b, s + 1, Rank(s) * 8 + 8, t);
    RankRange(t, Rank(s));
    RankRange(s, Rank(s));
    if Rank(t) == Rank(s) && t > s {
      Coordinates(s);
      Coordinates(t);
      forall u | s < u < t ensures Between(s, u, t) {
        RankRange(u, Rank(s));
      }
      forall u | Between(s, u, t) ensures s < u < t {
      }
    }
  }

  lemma WestRay(b: Bitboard, s: Square, t: Square)
    ensures t in RayDown(b, s - 1, 1, Rank(s) * 8) <==> t in AttackSpec(b, s) && Rank(t) == Rank(s) && t < s
  {
    RayDownByOne(b, s - 1, Rank(s) * 8, t);
    RankRange(t, Rank(s));
    RankRange(s, Rank(s));
    if Rank(t) == Rank(s) && t < s {
      Coordinates(s);
      Coordinates(t);
      forall u | t < u < s ensures Between(s, u, t) {
        RankRange(u, Rank(s));
      }
      forall u | Between(s, u, t) ensures t < u < s {
      }
    }
  }

  lemma NorthRay(b: Bitboard, s: Square, t: Square)
    ensures t in RayUp(b, s + 8, 8, 56 + File(s) + 1) <==> t in AttackSpec(b, s) && File(t) == File(s) && t > s
  {
    RayUpByRank(b, s + 8, 56 + File(s) + 1, t);
    Coordinates(s);
    Coordinates(t);
    assert (s + 8) % 8 == File(s);
    if File(t) == File(s) && t > s {
      assert Rank(t) != Rank(s);
      forall u | s < u < t && File(u) == File(s) ensures Between(s, u, t) {
      }
      forall u | Between(s, u, t) ensures s + 8 <= u < t && u % 8 == File(s) {
        Coordinates(u);
      }
      forall u | s + 8 <= u < t && u % 8 == (s + 8) % 8 ensures Between(s, u, t) {
      }
    }
  }

  lemma SouthRay(b: Bitboard, s: Square, t: Square)
    ensures t in RayDown(b, s - 8, 8, File(s)) <==> t in AttackSpec(b, s) && File(t) == File(s) && t < s
  {
    RayDownByRank(b, s - 8, File(s), t);
    Coordinates(s);
    Coordinates(t);
    assert (s - 8) % 8 == File(s);
    if File(t) == File(s) && t < s {
      assert Rank(t) != Rank(s);
      forall u | Between(s, u, t) ensures t < u <= s - 8 && u % 8 == File(s) {
        Coordinates(u);
      }
      forall u | t < u <= s - 8 && u % 8 == (s - 8) % 8 ensures Between(s, u, t) {
      }
    }
  }

  /**
   * The source's ray tracing computes exactly the reference attack set:
   * on each ray every square up to and including the first blocker, and no
   * square beyond it.
   */
  lemma RookAttacksMatchSpec(b: Bitboard, s: Square)
    ensures RookAttacks(b, s) == AttackSpec(b, s)
  {
    forall t: Square
      ensures t in RookAttacks(b, s) <==> t in AttackSpec(b, s)
    {
      EastRay(b, s, t);
      WestRay(b, s, t);
      NorthRay(b, s, t);
      SouthRay(b, s, t);
    }
  }

  // ---------------------------------------------------------------------
  // Properties of the attack set

  /** The attack set never contains the rook's own square and lies within its rank and file. */
  lemma RookAttacksOnLine(b: Bitboard, s: Square)
    ensures s !in RookAttacks(b, s)
    ensures forall t :: t in RookAttacks(b, s) ==> Rank(t) == Rank(s) || File(t) == File(s)
  {
    RookAttacksMatchSpec(b, s);
  }

  /** All eight squares of s's rank. */
  function RankLine(s: Square): Bitboard
  {
    Span(Rank(s) * 8, Rank(s) * 8 + 8, 1)
  }

  /** All eight squares of s's file. */
  function FileLine(s: Square): Bitboard
  {
    Span(File(s), 64, 8)
  }

  lemma RankLineMembers(s: Square, t: int)
    ensures t in RankLine(s) <==> 0 <= t < 64 && Rank(t) == Rank(s)
  {
    SpanMembers(Rank(s) * 8, Rank(s) * 8 + 8, 1, t);
    RankRange(t, Rank(s));
  }

  lemma FileLineMembers(s: Square, t: int)
    ensures t in FileLine(s) <==> 0 <= t < 64 && File(t) == File(s)
  {
    SpanMembers(File(s), 64, 8, t);
    assert File(s) % 8 == File(s);
  }

  lemma LinesMembers(s: Square, t: int)
    ensures t in RankLine(s) <==> 0 <= t < 64 && Rank(t) == Rank(s)
    ensures t in FileLine(s) <==> 0 <= t < 64 && File(t) == File(s)
  {
    RankLineMembers(s, t);
    FileLineMembers(s, t);
  }

  /** With no blockers a rook attacks exactly the 14 other squares of its rank and file. */
  lemma RookAttacksUnblocked(s: Square)
    ensures RookAttacks({}, s) == (RankLine(s) + FileLine(s)) - {s}
    ensures |RookAttacks({}, s)| == 14
  {
    RookAttacksMatchSpec({}, s);
    forall t: Square ensures t in AttackSpec({}, s) <==> t in (RankLine(s) + FileLine(s)) - {s} {
      LinesMembers(s, t);
    }
    UnitSpanSize(Rank(s) * 8, Rank(s) * 8 + 8);
    StrideSpanSize(File(s), 64);
    forall t | t in RankLine(s) * FileLine(s) ensures t == s {
      LinesMembers(s, t);
      Coordinates(s);
      Coordinates(t);
    }
    LinesMembers(s, s);
    assert RankLine(s) * FileLine(s) == {s};
    assert |RankLine(s) + FileLine(s)| == 15;
  }

  /** Adding blockers never enlarges the attack set. */
  lemma RookAttacksAntitone(b1: Bitboard, b2: Bitboard, s: Square)
    requires b1 <= b2
    ensures RookAttacks(b2, s) <= RookAttacks(b1, s)
  {
    RookAttacksMatchSpec(b1, s);
    RookAttacksMatchSpec(b2, s);
  }

  /** A square strictly between s and another square of its line is never a board edge of that line. */
  lemma BetweenInMask(s: Square, u: int, t: Square)
    requires Between(s, u, t)
    ensures u in RookMask(s)
  {
    RookMaskMembers(s, u);
    Coordinates(s);
    Coordinates(t);
    Coordinates(u);
    if Rank(t) == Rank(s) && Rank(u) == Rank(s) {
      assert 1 <= File(u) <= 6;
    } else {
      assert 1 <= Rank(u) <= 6;
    }
  }

  /** Attacks depend only on the blockers inside the relevance mask. */
  lemma RookAttacksRelevant(b: Bitboard, s: Square)
    ensures RookAttacks(b, s) == RookAttacks(b * RookMask(s), s)
  {
    RookAttacksMatchSpec(b, s);
    RookAttacksMatchSpec(b * RookMask(s), s);
    forall t: Square | OnLine(s, t)
      ensures Clear(b, s, t) <==> Clear(b * RookMask(s), s, t)
    {
      forall u | Between(s, u, t) ensures u in RookMask(s) {
        BetweenInMask(s, u, t);
      }
    }
  }

  /** The first blocker on a ray is attacked, and every square beyond it is not. */
  lemma RookAttacksStopAtFirstBlocker(b: Bitboard, s: Square, t: Square, beyond: Square)
    requires t in b && OnLine(s, t) && Clear(b, s, t)
    ensures t in RookAttacks(b, s)
    ensures Between(s, t, beyond) ==> beyond !in RookAttacks(b, s)
  {
    RookAttacksMatchSpec(b, s);
  }
}
