/** Integer helpers with the semantics of the C# operators the source uses. */
module Arith {

  /** 2 to the power n. */
  function Pow2(n: nat): (r: nat)
    ensures r >= 1
  {
    if n == 0 then 1 else 2 * Pow2(n - 1)
  }

  lemma {:induction false} Pow2Add(a: nat, b: nat)
    ensures Pow2(a + b) == Pow2(a) * Pow2(b)
    decreases a
  {
    if a > 0 {
      Pow2Add(a - 1, b);
    }
  }

  lemma {:induction false} Pow2Monotone(a: nat, b: nat)
    requires a <= b
    ensures Pow2(a) <= Pow2(b)
    decreases b
  {
    if a < b {
      Pow2Monotone(a, b - 1);
    }
  }

  /**
   * The count a C# shift actually uses when its operand is `width` bits
   * wide (width 32 for int, 64 for ulong): the low bits of the requested
   * count, i.e. the count reduced into 0..width-1.
   */
  function ShiftCount(count: int, width: nat): (r: nat)
    requires width > 0
    ensures r < width
    decreases if count < 0 then width - count else count
  {
    if count < 0 then ShiftCount(count + width, width)
    else if count < width then count
    else ShiftCount(count - width, width)
  }

  /** The reduced count is the requested one modulo the width. */
  lemma {:induction false} ShiftCountIsMod(count: int, width: nat)
    requires width > 0
    ensures ShiftCount(count, width) == count % width
    decreases if count < 0 then width - count else count
  {
    if count < 0 {
      ShiftCountIsMod(count + width, width);
      ModAddWidth(count, width);
    } else if count >= width {
      ShiftCountIsMod(count - width, width);
      ModAddWidth(count - width, width);
    }
  }

  lemma ModAddWidth(a: int, w: int)
    requires w > 0
    ensures (a + w) % w == a % w
  {
    var q := a / w;
    assert (q + 1) * w == q * w + w;
    DivUnique(a + w, w, q + 1);
  }

  /** Number of one bits in the binary expansion of n. */
  function Popcount(n: nat): nat
  {
    if n == 0 then 0 else n % 2 + Popcount(n / 2)
  }

  /** Bit j of n, i.e. (n >> j) & 1 == 1. */
  predicate Bit(n: nat, j: nat)
  {
    (n / Pow2(j)) % 2 == 1
  }

  /** C# integer division of int operands: the quotient is truncated toward zero. */
  function CsDiv(a: int, b: int): (q: int)
    requires b > 0
    ensures a >= 0 ==> q == a / b
    ensures -b < a - q * b < b
    ensures a >= 0 ==> q >= 0
    ensures a <= 0 ==> q <= 0
  {
    if a >= 0 then a / b else -((-a) / b)
  }

  /** Truncating division by a positive divisor is monotone in the dividend. */
  lemma CsDivMonotone(a: int, c: int, b: int)
    requires b > 0 && a <= c
    ensures CsDiv(a, b) <= CsDiv(c, b)
  {
    if a < 0 && c >= 0 {
    } else if a < 0 {
      DivMonotone(-c, -a, b);
    } else {
      DivMonotone(a, c, b);
    }
  }

  lemma DivMonotone(a: nat, c: nat, b: int)
    requires b > 0 && a <= c
    ensures a / b <= c / b
  {
    var q1, q2 := a / b, c / b;
    if q1 > q2 {
      MulMonotone(q2 + 1, q1, b);
      assert false;
    }
  }

  lemma MulMonotone(x: int, y: int, b: int)
    requires x <= y && b > 0
    ensures x * b <= y * b
  {
    assert y * b - x * b == (y - x) * b;
  }

  /** The quotient is determined by the bracketing multiples of the divisor. */
  lemma DivUnique(a: int, b: int, q: int)
    requires b > 0 && q * b <= a < q * b + b
    ensures a / b == q
  {
    var d := a / b;
    if d < q {
      MulMonotone(d + 1, q, b);
      assert false;
    } else if d > q {
      MulMonotone(q + 1, d, b);
      assert false;
    }
  }

  /** Exact multiples divide back exactly. */
  lemma CsDivExact(x: int, b: int)
    requires b > 0
    ensures CsDiv(x * b, b) == x
  {
    if x < 0 {
      assert -(x * b) == (-x) * b;
      DivUnique((-x) * b, b, -x);
    } else {
      DivUnique(x * b, b, x);
    }
  }

  /** A value below p * q divides by p to a quotient below q. */
  lemma DivBelow(x: nat, p: nat, q: nat)
    requires p >= 1 && x < p * q
    ensures x / p < q
  {
    if x / p >= q {
      MulMonotone(q, x / p, p);
      assert false;
    }
  }
}
