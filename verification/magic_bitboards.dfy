/**
 * The rook lookup tables: for each square, an array indexed by the magic
 * key of a blocker subset and holding that subset's attack set.
 */
module MagicBitboards {
  import opened Arith
  import opened RookRays
  import opened BlockerSubsets

  /** The per-square multipliers, as hard-coded in the source. */
  const RookMagics: seq<nat> :=
    [6302813242384170221, 5742673882911820088, 8103471518102492298, 5734081564827947961, 8133547980671227035, 6093374702486619280, 4613095546263609464, 5679040094644847128]
    + [4764642141007754339, 478193962044271057, 1620869994536952545, 1279740764825841811, 7247126610875058480, 6109102119361894428, 1094970162217252233, 46726669191978088]
    + [7902599288076368093, 4847479427210040796, 3506932468554891120, 1020984679073937488, 6285920083561092756, 7670357973234742752, 5912008052659263128, 8430328281526010923]
    + [7008723023808468578, 335205079719479138, 7263996334238680442, 1493101562418572851, 2090315856632185431, 8267251524589817568, 1450326257323491074, 3420245881310675913]
    + [1972209083367818562, 6732747837839644300, 6469529381327867184, 3071094364859406026, 4760676533121531616, 7224694299914404235, 8066105464762415190, 6257418805721172325]
    + [4357268100719362049, 842720436676245924, 5643457919961793035, 7594832747636790004, 6264772759994102346, 3257791587822993412, 3869032301546700808, 6135949450851516455]
    + [3215292645937285632, 6583058775242815256, 7474291688865866240, 836141212232073728, 5063760697986002945, 4277595246031477531, 3036710063851414528, 1541895527254213778]
    + [1754400546720073234, 5251479176361694722, 4307414596289421313, 635757485424132130, 6532723571648446838, 6586888392247611298, 2541049080768895516, 47902990073506370]

  /** The per-square right-shift amounts, as hard-coded in the source. */
  const RookShifts: seq<int> :=
    [50, 52, 51, 52, 51, 52, 52, 51] + [52, 53, 53, 53, 53, 53, 53, 52]
    + [52, 53, 53, 53, 53, 53, 54, 52] + [52, 53, 53, 53, 53, 53, 54, 53]
    + [52, 53, 53, 53, 53, 53, 54, 52] + [52, 53, 53, 53, 53, 53, 54, 53]
    + [53, 53, 54, 54, 53, 53, 54, 52] + [52, 53, 53, 53, 52, 52, 53, 52]

  /** One magic and one shift per square; every shift lies in 50..54. */
  lemma ConstantsShape(s: Square)
    ensures |RookMagics| == 64 && |RookShifts| == 64
    ensures 50 <= RookShifts[s] <= 54
  {
  }

  /** Width of a ulong in bits. */
  const UlongBits: nat := 64

  /** The unsigned 64-bit value of a bitboard: the sum of 2^t over its squares below n. */
  function ValueBelow(b: Bitboard, n: nat): nat
    requires n <= 64
  {
    if n == 0 then 0 else ValueBelow(b, n - 1) + (if (n - 1) in b then Pow2(n - 1) else 0)
  }

  function Value(b: Bitboard): nat
  {
    ValueBelow(b, UlongBits)
  }

  /** 2^64, the modulus of ulong arithmetic. */
  const UlongModulus: nat := Pow2(UlongBits)

  /** ulong multiplication: the product wraps modulo 2^64. */
  function WrappingMul(a: nat, m: nat): (r: nat)
    ensures r < UlongModulus
  {
    (a * m) % UlongModulus
  }

  /**
   * The magic key `(blockers * magic) >> shift` on ulong operands: the
   * product wraps and the shift count is reduced to its low six bits.
   */
  function Key(b: Bitboard, magic: nat, shift: int): nat
  {
    ShiftRight(WrappingMul(Value(b), magic), ShiftCount(shift, UlongBits))
  }

  /** `x >> k` on an unsigned operand: the quotient by 2^k. */
  function ShiftRight(x: nat, k: nat): nat
  {
    var d := Pow2(k);
    DivMonotone(0, x, d);
    x / d
  }

  /** Every key is below 2^(64 - shift). */
  lemma KeyBound(b: Bitboard, magic: nat, shift: int)
    ensures Key(b, magic, shift) < Pow2(UlongBits - ShiftCount(shift, UlongBits))
  {
    var sh := ShiftCount(shift, UlongBits);
    Pow2Add(sh, UlongBits - sh);
    DivBelow(WrappingMul(Value(b), magic), Pow2(sh), Pow2(UlongBits - sh));
  }

  /**
   * The length of the table allocated with `new ulong[1 << shift]`: the int
   * shift uses only the low five bits of its count, and a reduced count
   * of 31 would give a negative length, which the source never asks for.
   */
  function TableLength(shift: int): nat
    requires ShiftCount(shift, 32) < 31
  {
    Pow2(ShiftCount(shift, 32))
  }

  /** The widest key the hard-coded shifts allow: 64 - 50 bits. */
  const MaxKeyBits: nat := 14

  lemma KeyBelowWidest(b: Bitboard, magic: nat, shift: int)
    requires 50 <= shift <= 54
    ensures Key(b, magic, shift) < Pow2(MaxKeyBits)
  {
    assert ShiftCount(shift, UlongBits) == shift;
    KeyBound(b, magic, shift);
    Pow2Monotone(UlongBits - shift, MaxKeyBits);
    assert Pow2(UlongBits - shift) <= Pow2(MaxKeyBits);
  }

  lemma WidestBelowTable(shift: int)
    requires 50 <= shift <= 54
    ensures Pow2(MaxKeyBits) <= TableLength(shift)
  {
    assert ShiftCount(shift, 32) == shift - 32 by {
      assert ShiftCount(shift - 32, 32) == shift - 32;
    }
    Pow2Monotone(MaxKeyBits, shift - 32);
  }

  /** With a shift in 50..54 every key is below 2^14, inside a table of 2^18 or more slots. */
  lemma KeyFits(b: Bitboard, magic: nat, shift: int)
    requires 50 <= shift <= 54
    ensures Key(b, magic, shift) < Pow2(MaxKeyBits) <= TableLength(shift)
  {
    KeyBelowWidest(b, magic, shift);
    WidestBelowTable(shift);
  }

  /** Every key of every square fits in that square's table. */
  lemma KeysFitTable(s: Square, b: Bitboard)
    ensures 50 <= RookShifts[s] <= 54
    ensures Key(b, RookMagics[s], RookShifts[s]) < TableLength(RookShifts[s])
  {
    ConstantsShape(s);
    KeyFits(b, RookMagics[s], RookShifts[s]);
  }

  /**
   * Writes, for each subset in order, its attack set into the slot of its
   * key; a later subset with the same key overwrites an earlier one.
   */
  function Fill(table: seq<Bitboard>, subsets: seq<Bitboard>, s: Square, magic: nat, shift: int): (r: seq<Bitboard>)
    requires forall j :: 0 <= j < |subsets| ==> Key(subsets[j], magic, shift) < |table|
    ensures |r| == |table|
    decreases |subsets|
  {
    if |subsets| == 0 then table
    else Fill(table[Key(subsets[0], magic, shift) := RookAttacks(subsets[0], s)], subsets[1..], s, magic, shift)
  }

  /** A slot holds the attack set of the last subset whose key is that slot. */
  lemma {:induction false} FillLastWins(table: seq<Bitboard>, subsets: seq<Bitboard>, s: Square, magic: nat, shift: int, j: int)
    requires forall i :: 0 <= i < |subsets| ==> Key(subsets[i], magic, shift) < |table|
    requires 0 <= j < |subsets|
    requires forall i :: j < i < |subsets| ==> Key(subsets[i], magic, shift) != Key(subsets[j], magic, shift)
    ensures Fill(table, subsets, s, magic, shift)[Key(subsets[j], magic, shift)] == RookAttacks(subsets[j], s)
    decreases |subsets|
  {
    var k := Key(subsets[0], magic, shift);
    var next := table[k := RookAttacks(subsets[0], s)];
    if j == 0 {
      FillUntouched(next, subsets[1..], s, magic, shift, k);
    } else {
      FillLastWins(next, subsets[1..], s, magic, shift, j - 1);
    }
  }

  /** A slot that no subset's key reaches keeps its initial contents. */
  lemma {:induction false} FillUntouched(table: seq<Bitboard>, subsets: seq<Bitboard>, s: Square, magic: nat, shift: int, k: int)
    requires forall i :: 0 <= i < |subsets| ==> Key(subsets[i], magic, shift) < |table|
    requires 0 <= k < |table|
    requires forall i :: 0 <= i < |subsets| ==> Key(subsets[i], magic, shift) != k
    ensures Fill(table, subsets, s, magic, shift)[k] == table[k]
    decreases |subsets|
  {
    if |subsets| > 0 {
      var next := table[Key(subsets[0], magic, shift) := RookAttacks(subsets[0], s)];
      FillUntouched(next, subsets[1..], s, magic, shift, k);
    }
  }

  /** The blocker subsets enumerated for square s: every subset of its relevance mask, and nothing else. */
  function SquareSubsets(s: Square): (r: seq<Bitboard>)
    ensures |r| == Pow2(|RookMask(s)|)
    ensures forall i :: 0 <= i < |r| ==> r[i] <= RookMask(s)
    ensures forall b :: b <= RookMask(s) ==> b in r
  {
    var mask := RookMask(s);
    RookMaskSize(s);
    var r := BlockerBitmasks(mask);
    BlockerBitmasksEnds(mask);
    assert forall i :: 0 <= i < |r| ==> r[i] <= mask by {
      forall i | 0 <= i < |r|
        ensures r[i] <= mask
      {
        BlockerBitmasksSubsets(mask, i);
      }
    }
    assert forall b :: b <= mask ==> b in r by {
      forall b | b <= mask
        ensures b in r
      {
        BlockerBitmasksComplete(mask, b);
      }
    }
    r
  }

  /** A table of `1 << shift` empty slots, filled from the given subsets. */
  function BuildTable(subsets: seq<Bitboard>, s: Square, magic: nat, shift: int): (r: seq<Bitboard>)
    requires 50 <= shift <= 54
    ensures |r| == TableLength(shift)
  {
    var empty: seq<Bitboard> := seq(TableLength(shift), _ => {});
    assert forall j :: 0 <= j < |subsets| ==> Key(subsets[j], magic, shift) < |empty| by {
      forall j | 0 <= j < |subsets| {
        KeyFits(subsets[j], magic, shift);
      }
    }
    Fill(empty, subsets, s, magic, shift)
  }

  /** The table of square s. */
  function SquareLookup(s: Square): (r: seq<Bitboard>)
    ensures |r| == TableLength(RookShifts[s])
  {
    ConstantsShape(s);
    BuildTable(SquareSubsets(s), s, RookMagics[s], RookShifts[s])
  }

  /** The lookup arrays of all 64 squares. */
  function RookLookup(): (r: seq<seq<Bitboard>>)
    ensures |r| == 64
  {
    seq(64, s requires 0 <= s < 64 => SquareLookup(s))
  }

  /** The magic of s maps subsets with different attack sets to different keys. */
  ghost predicate CollisionFree(s: Square) {
    var subsets := SquareSubsets(s);
    forall i, j :: 0 <= i < |subsets| && 0 <= j < |subsets|
      && Key(subsets[i], RookMagics[s], RookShifts[s]) == Key(subsets[j], RookMagics[s], RookShifts[s])
      ==> RookAttacks(subsets[i], s) == RookAttacks(subsets[j], s)
  }

  /**
   * The magic search's acceptance test for square s: the keys of all the
   * enumerated subsets are pairwise different.
   */
  ghost predicate KeysUnique(s: Square) {
    var subsets := SquareSubsets(s);
    forall i, j :: 0 <= i < |subsets| && 0 <= j < |subsets| && i != j
      ==> Key(subsets[i], RookMagics[s], RookShifts[s]) != Key(subsets[j], RookMagics[s], RookShifts[s])
  }

  /** A magic the search accepts is free of harmful collisions, so its lookups are exact. */
  lemma UniqueKeysLookupCorrect(s: Square, occupancy: Bitboard)
    requires KeysUnique(s)
    ensures CollisionFree(s)
    ensures Key(occupancy * RookMask(s), RookMagics[s], RookShifts[s]) < |RookLookup()[s]|
    ensures RookLookup()[s][Key(occupancy * RookMask(s), RookMagics[s], RookShifts[s])] == RookAttacks(occupancy, s)
  {
    UniqueKeysCollisionFree(s);
    LookupCorrect(s, occupancy);
  }

  lemma UniqueKeysCollisionFree(s: Square)
    requires KeysUnique(s)
    ensures CollisionFree(s)
  {
    var subsets := SquareSubsets(s);
    forall i, j | 0 <= i < |subsets| && 0 <= j < |subsets|
      && Key(subsets[i], RookMagics[s], RookShifts[s]) == Key(subsets[j], RookMagics[s], RookShifts[s])
      ensures i == j
    {
    }
  }

  /**
   * Looking up any occupancy, masked by the relevance mask and keyed by the
   * magic of s, yields the true attack set whenever the magic of s is free of
   * harmful collisions; the slot holds the attack set of the last enumerated
   * subset with that key in every case.
   */
  lemma LookupCorrect(s: Square, occupancy: Bitboard)
    requires CollisionFree(s)
    ensures Key(occupancy * RookMask(s), RookMagics[s], RookShifts[s]) < |RookLookup()[s]|
    ensures RookLookup()[s][Key(occupancy * RookMask(s), RookMagics[s], RookShifts[s])] == RookAttacks(occupancy, s)
  {
    ConstantsShape(s);
    var magic, shift := RookMagics[s], RookShifts[s];
    var b := occupancy * RookMask(s);
    var subsets := SquareSubsets(s);
    var i := SubsetIndex(s, b);
    var k := Key(b, magic, shift);
    // the last enumerated subset with key k
    var j := LastWithKey(subsets, magic, shift, k, i);
    CollisionFreeUse(s, i, j);
    BuildTableLastWins(subsets, s, magic, shift, j);
    assert RookLookup()[s] == SquareLookup(s) == BuildTable(subsets, s, magic, shift);
    RookAttacksRelevant(occupancy, s);
  }

  /** Every subset of the mask of s sits at some index of the enumeration of s. */
  lemma SubsetIndex(s: Square, b: Bitboard) returns (i: int)
    requires b <= RookMask(s)
    ensures 0 <= i < |SquareSubsets(s)| && SquareSubsets(s)[i] == b
  {
    RookMaskSize(s);
    BlockerBitmasksComplete(RookMask(s), b);
    i := Extract(b, MaskSquares(RookMask(s), 0));
  }

  lemma CollisionFreeUse(s: Square, i: int, j: int)
    requires CollisionFree(s)
    requires 0 <= i < |SquareSubsets(s)| && 0 <= j < |SquareSubsets(s)|
    requires Key(SquareSubsets(s)[i], RookMagics[s], RookShifts[s]) == Key(SquareSubsets(s)[j], RookMagics[s], RookShifts[s])
    ensures RookAttacks(SquareSubsets(s)[i], s) == RookAttacks(SquareSubsets(s)[j], s)
  {
  }

  lemma BuildTableLastWins(subsets: seq<Bitboard>, s: Square, magic: nat, shift: int, j: int)
    requires 50 <= shift <= 54
    requires 0 <= j < |subsets|
    requires forall i :: j < i < |subsets| ==> Key(subsets[i], magic, shift) != Key(subsets[j], magic, shift)
    ensures Key(subsets[j], magic, shift) < TableLength(shift)
    ensures BuildTable(subsets, s, magic, shift)[Key(subsets[j], magic, shift)] == RookAttacks(subsets[j], s)
  {
    forall i | 0 <= i < |subsets| ensures Key(subsets[i], magic, shift) < TableLength(shift) {
      KeyFits(subsets[i], magic, shift);
    }
    FillLastWins(seq(TableLength(shift), _ => {}), subsets, s, magic, shift, j);
  }

  /** The largest index at or after `from` whose subset has key k. */
  lemma LastWithKey(subsets: seq<Bitboard>, magic: nat, shift: int, k: nat, from: int) returns (j: int)
    requires 0 <= from < |subsets| && Key(subsets[from], magic, shift) == k
    ensures from <= j < |subsets| && Key(subsets[j], magic, shift) == k
    ensures forall i :: j < i < |subsets| ==> Key(subsets[i], magic, shift) != k
    decreases |subsets| - from
  {
    j := from;
    var i := from + 1;
    while i < |subsets|
      invariant from <= j < i <= |subsets| && Key(subsets[j], magic, shift) == k
      invariant forall i' :: j < i' < i ==> Key(subsets[i'], magic, shift) != k
    {
      if Key(subsets[i], magic, shift) == k {
        j := i;
      }
      i := i + 1;
    }
  }
}
