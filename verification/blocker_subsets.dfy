/**
 * Enumeration of every blocker subset of a relevance mask: subset number i
 * has square j of the mask exactly when bit j of i is set.
 */
module BlockerSubsets {
  import opened Arith
  import opened RookRays

  /** The squares of a mask in increasing order, as found by scanning bits from..63. */
  function MaskSquares(mask: Bitboard, from: nat): (sq: seq<Square>)
    decreases 64 - from
  {
    if from >= 64 then []
    else
      var here: Square := from;
      (if here in mask then [here] else []) + MaskSquares(mask, from + 1)
  }

  /** The mask bits at positions from..63. */
  function Above(mask: Bitboard, from: int): Bitboard
  {
    set t | t in mask && t >= from
  }

  /** The squares listed in sq. */
  function Elems(sq: seq<Square>): Bitboard
  {
    set t | t in sq
  }

  predicate Increasing(sq: seq<Square>) {
    forall i, j :: 0 <= i < j < |sq| ==> sq[i] < sq[j]
  }

  predicate Distinct(sq: seq<Square>) {
    forall i, j :: 0 <= i < j < |sq| ==> sq[i] != sq[j]
  }

  lemma {:induction false} MaskSquaresElems(mask: Bitboard, from: nat)
    ensures Elems(MaskSquares(mask, from)) == Above(mask, from)
    decreases 64 - from
  {
    if from < 64 {
      MaskSquaresElems(mask, from + 1);
      var here: Square := from;
      if here in mask {
        assert Above(mask, from) == {here} + Above(mask, from + 1);
      } else {
        assert Above(mask, from) == Above(mask, from + 1);
      }
    } else {
      assert Above(mask, from) == {};
    }
  }

  lemma {:induction false} MaskSquaresIncreasing(mask: Bitboard, from: nat)
    ensures Increasing(MaskSquares(mask, from))
    ensures forall t :: t in MaskSquares(mask, from) ==> t >= from
    decreases 64 - from
  {
    if from < 64 {
      MaskSquaresIncreasing(mask, from + 1);
      var here: Square := from;
      var rest := MaskSquares(mask, from + 1);
      if here in mask {
        var sq := MaskSquares(mask, from);
        assert sq == [here] + rest;
        forall i, j | 0 <= i < j < |sq| ensures sq[i] < sq[j] {
          if i > 0 {
            assert sq[i] == rest[i - 1] && sq[j] == rest[j - 1];
          } else {
            assert sq[j] in rest;
          }
        }
      } else {
        assert MaskSquares(mask, from) == rest;
      }
    }
  }

  lemma {:induction false} MaskSquaresSize(mask: Bitboard, from: nat)
    ensures |MaskSquares(mask, from)| == |Above(mask, from)|
    decreases 64 - from
  {
    if from < 64 {
      MaskSquaresSize(mask, from + 1);
      var here: Square := from;
      if here in mask {
        assert Above(mask, from) == {here} + Above(mask, from + 1);
        assert here !in Above(mask, from + 1);
      } else {
        assert Above(mask, from) == Above(mask, from + 1);
      }
    } else {
      assert Above(mask, from) == {};
    }
  }

  /**
   * The subset selected by index i: `masks[i] |= ((i >> j) & 1) << squares[j]`
   * for every j, written as a recursion that consumes bit 0 of i per square.
   */
  function Deposit(i: nat, sq: seq<Square>): Bitboard
  {
    if |sq| == 0 then {}
    else (if i % 2 == 1 then {sq[0]} else {}) + Deposit(i / 2, sq[1..])
  }

  /** The inverse of Deposit: the index whose bit j says whether sq[j] is in b. */
  function Extract(b: Bitboard, sq: seq<Square>): nat
  {
    if |sq| == 0 then 0
    else (if sq[0] in b then 1 else 0) + 2 * Extract(b, sq[1..])
  }

  lemma {:induction false} DepositWithin(i: nat, sq: seq<Square>)
    ensures Deposit(i, sq) <= Elems(sq)
  {
    if |sq| > 0 {
      DepositWithin(i / 2, sq[1..]);
    }
  }

  lemma {:induction false} ExtractBound(b: Bitboard, sq: seq<Square>)
    ensures Extract(b, sq) < Pow2(|sq|)
  {
    if |sq| > 0 {
      ExtractBound(b, sq[1..]);
    }
  }

  /** Extract only looks at the listed squares. */
  lemma {:induction false} ExtractIgnores(b: Bitboard, x: Square, sq: seq<Square>)
    requires x !in sq
    ensures Extract(b + {x}, sq) == Extract(b, sq) == Extract(b - {x}, sq)
  {
    if |sq| > 0 {
      ExtractIgnores(b, x, sq[1..]);
    }
  }

  lemma DistinctTail(sq: seq<Square>)
    requires |sq| > 0 && Distinct(sq)
    ensures Distinct(sq[1..]) && sq[0] !in sq[1..]
  {
  }

  /** Index to subset and back is the identity on 0 .. 2^k - 1. */
  lemma {:induction false} ExtractDeposit(i: nat, sq: seq<Square>)
    requires Distinct(sq) && i < Pow2(|sq|)
    ensures Extract(Deposit(i, sq), sq) == i
  {
    if |sq| > 0 {
      DistinctTail(sq);
      assert i / 2 < Pow2(|sq| - 1);
      ExtractDeposit(i / 2, sq[1..]);
      DepositWithin(i / 2, sq[1..]);
      var rest := Deposit(i / 2, sq[1..]);
      ExtractIgnores(rest, sq[0], sq[1..]);
      assert sq[0] !in rest;
      var d := Deposit(i, sq);
      if i % 2 == 1 {
        assert d == rest + {sq[0]};
      } else {
        assert d == rest;
      }
      assert sq[0] in d <==> i % 2 == 1;
      assert Extract(d, sq[1..]) == i / 2;
    } else {
      assert i == 0;
    }
  }

  /** Subset to index and back is the identity on subsets of the listed squares. */
  lemma {:induction false} DepositExtract(b: Bitboard, sq: seq<Square>)
    requires Distinct(sq) && b <= Elems(sq)
    ensures Deposit(Extract(b, sq), sq) == b
  {
    if |sq| == 0 {
      assert b == {};
    } else {
      DistinctTail(sq);
      var rest := b - {sq[0]};
      ExtractIgnores(rest, sq[0], sq[1..]);
      assert b - {sq[0]} == rest && (rest + {sq[0]} == b || rest == b);
      if sq[0] in b {
        assert rest + {sq[0]} == b;
      } else {
        assert rest == b;
      }
      assert Extract(b, sq[1..]) == Extract(rest, sq[1..]);
      DepositExtract(rest, sq[1..]);
    }
  }

  /** The subset for index i has as many squares as i has one bits. */
  lemma {:induction false} DepositSize(i: nat, sq: seq<Square>)
    requires Distinct(sq) && i < Pow2(|sq|)
    ensures |Deposit(i, sq)| == Popcount(i)
  {
    if |sq| > 0 {
      DistinctTail(sq);
      DepositSize(i / 2, sq[1..]);
      DepositWithin(i / 2, sq[1..]);
    }
  }

  lemma {:induction false} DepositNone(sq: seq<Square>)
    ensures Deposit(0, sq) == {}
  {
    if |sq| > 0 {
      DepositNone(sq[1..]);
    }
  }

  lemma {:induction false} DepositAll(sq: seq<Square>)
    ensures Deposit(Pow2(|sq|) - 1, sq) == Elems(sq)
  {
    if |sq| > 0 {
      DepositAll(sq[1..]);
      assert (Pow2(|sq|) - 1) / 2 == Pow2(|sq| - 1) - 1;
    }
  }

  /** Subsets of the listed squares, subset i taking square j exactly when bit j of i is set. */
  function Enumerate(sq: seq<Square>): (subsets: seq<Bitboard>)
    requires |sq| < 31
  {
    Subsets(sq, Pow2(|sq|))
  }

  /** The subsets with indices 0 .. n - 1, filled in index order. */
  function Subsets(sq: seq<Square>, n: nat): (subsets: seq<Bitboard>)
    ensures |subsets| == n
  {
    if n == 0 then [] else Subsets(sq, n - 1) + [Deposit(n - 1, sq)]
  }

  lemma {:induction false} SubsetsAt(sq: seq<Square>, n: nat, i: int)
    requires 0 <= i < n
    ensures Subsets(sq, n)[i] == Deposit(i, sq)
    decreases n
  {
    if i < n - 1 {
      SubsetsAt(sq, n - 1, i);
    }
  }

  lemma EnumerateAt(sq: seq<Square>, i: int)
    requires |sq| < 31 && 0 <= i < Pow2(|sq|)
    ensures |Enumerate(sq)| == Pow2(|sq|)
    ensures Enumerate(sq)[i] == Deposit(i, sq)
  {
    SubsetsAt(sq, Pow2(|sq|), i);
  }

  /** The scanned squares of a whole mask are exactly the mask, without repeats. */
  lemma MaskSquaresAll(mask: Bitboard)
    ensures Elems(MaskSquares(mask, 0)) == mask
    ensures Distinct(MaskSquares(mask, 0))
    ensures |MaskSquares(mask, 0)| == |mask|
  {
    MaskSquaresElems(mask, 0);
    MaskSquaresIncreasing(mask, 0);
    MaskSquaresSize(mask, 0);
    assert Above(mask, 0) == mask;
  }

  /**
   * Every blocker subset of a mask, indexed as the source fills its array.
   * Masks of 31 or more squares are outside the model (see README).
   */
  function BlockerBitmasks(mask: Bitboard): (subsets: seq<Bitboard>)
    requires |mask| < 31
  {
    MaskSquaresAll(mask);
    Enumerate(MaskSquares(mask, 0))
  }

  /** Entry i of the enumeration deposits the bits of i into the scanned mask squares. */
  lemma BlockerBitmasksAt(mask: Bitboard, i: int)
    requires |mask| < 31 && 0 <= i < Pow2(|mask|)
    ensures |BlockerBitmasks(mask)| == Pow2(|mask|)
    ensures BlockerBitmasks(mask)[i] == Deposit(i, MaskSquares(mask, 0))
  {
    MaskSquaresAll(mask);
    EnumerateAt(MaskSquares(mask, 0), i);
  }

  /**
   * For a mask of k squares the enumeration has 2^k entries, starting with
   * the empty set and ending with the whole mask.
   */
  lemma BlockerBitmasksEnds(mask: Bitboard)
    requires |mask| < 31
    ensures |BlockerBitmasks(mask)| == Pow2(|mask|)
    ensures BlockerBitmasks(mask)[0] == {}
    ensures BlockerBitmasks(mask)[Pow2(|mask|) - 1] == mask
  {
    MaskSquaresAll(mask);
    EnumerateEnds(MaskSquares(mask, 0), mask);
  }

  lemma EnumerateEnds(sq: seq<Square>, b: Bitboard)
    requires |sq| < 31 && Elems(sq) == b
    ensures |Enumerate(sq)| == Pow2(|sq|)
    ensures Enumerate(sq)[0] == {}
    ensures Enumerate(sq)[Pow2(|sq|) - 1] == b
  {
    EnumerateAt(sq, 0);
    EnumerateAt(sq, Pow2(|sq|) - 1);
    DepositNone(sq);
    DepositAll(sq);
  }

  /** Every entry is a subset of the mask, and entry i has popcount(i) squares. */
  lemma BlockerBitmasksSubsets(mask: Bitboard, i: int)
    requires |mask| < 31 && 0 <= i < |BlockerBitmasks(mask)|
    ensures BlockerBitmasks(mask)[i] <= mask
    ensures |BlockerBitmasks(mask)[i]| == Popcount(i)
  {
    var sq := MaskSquares(mask, 0);
    MaskSquaresAll(mask);
    BlockerBitmasksAt(mask, i);
    DepositWithin(i, sq);
    DepositSize(i, sq);
  }

  /** Distinct indices give distinct subsets. */
  lemma BlockerBitmasksDistinct(mask: Bitboard, i: int, j: int)
    requires |mask| < 31 && 0 <= i < |BlockerBitmasks(mask)| && 0 <= j < |BlockerBitmasks(mask)|
    ensures BlockerBitmasks(mask)[i] == BlockerBitmasks(mask)[j] ==> i == j
  {
    var sq := MaskSquares(mask, 0);
    MaskSquaresAll(mask);
    BlockerBitmasksAt(mask, i);
    BlockerBitmasksAt(mask, j);
    ExtractDeposit(i, sq);
    ExtractDeposit(j, sq);
  }

  /** Every subset of the mask occurs in the enumeration, at the index Extract gives. */
  lemma BlockerBitmasksComplete(mask: Bitboard, b: Bitboard)
    requires |mask| < 31 && b <= mask
    ensures Extract(b, MaskSquares(mask, 0)) < |BlockerBitmasks(mask)|
    ensures BlockerBitmasks(mask)[Extract(b, MaskSquares(mask, 0))] == b
  {
    var sq := MaskSquares(mask, 0);
    MaskSquaresAll(mask);
    ExtractBound(b, sq);
    BlockerBitmasksAt(mask, Extract(b, sq));
    DepositExtract(b, sq);
  }
}
