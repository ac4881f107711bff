/** Bit-level vocabulary for buffer units: powers of two, single bits and the
    bitwise OR that the point writer applies with `(*iter) |= m_unit`.
    Units are unsigned integers of some chunk width, modelled as naturals. */
module Bits {

  /** 2^k. */
  function Pow2(k: nat): (r: nat)
    ensures r >= 1
    ensures k > 0 ==> r >= 2
  {
    if k == 0 then 1 else 2 * Pow2(k - 1)
  }

  /** Bit k of x; bit 0 is the least significant one. */
  predicate Bit(x: nat, k: nat)
  {
    if k == 0 then x % 2 == 1 else Bit(x / 2, k - 1)
  }

  /** Bitwise OR of two unsigned values, computed one bit at a time. */
  function Or(a: nat, b: nat): nat
    decreases a + b
  {
    if a == 0 then b
    else if b == 0 then a
    else (if a % 2 == 1 || b % 2 == 1 then 1 else 0) + 2 * Or(a / 2, b / 2)
  }

  /** Zero has no bit set. */
  lemma {:induction false} ZeroHasNoBit(k: nat)
    ensures !Bit(0, k)
  {
    if k > 0 {
      ZeroHasNoBit(k - 1);
    }
  }

  /** A bit of `a | b` is set exactly when it is set in `a` or in `b`. */
  lemma {:induction false} OrBit(a: nat, b: nat, k: nat)
    ensures Bit(Or(a, b), k) == (Bit(a, k) || Bit(b, k))
    decreases k
  {
    if a == 0 {
      ZeroHasNoBit(k);
    } else if b == 0 {
      ZeroHasNoBit(k);
    } else if k > 0 {
      var lo := if a % 2 == 1 || b % 2 == 1 then 1 else 0;
      assert Or(a, b) == lo + 2 * Or(a / 2, b / 2);
      assert Or(a, b) / 2 == Or(a / 2, b / 2);
      OrBit(a / 2, b / 2, k - 1);
    }
  }

  /** OR of two values of n bits is a value of n bits: the unit stays a unit. */
  lemma {:induction false} OrBelow(a: nat, b: nat, n: nat)
    requires a < Pow2(n) && b < Pow2(n)
    ensures Or(a, b) < Pow2(n)
    decreases n
  {
    if a != 0 && b != 0 {
      assert n > 0;
      OrBelow(a / 2, b / 2, n - 1);
    }
  }

  /** The only bit of 2^j is bit j. */
  lemma {:induction false} Pow2Bit(j: nat, k: nat)
    ensures Bit(Pow2(j), k) == (j == k)
    decreases k
  {
    if k > 0 {
      if j == 0 {
        ZeroHasNoBit(k - 1);
      } else {
        Pow2Bit(j - 1, k - 1);
      }
    }
  }

  /** A value below 2^j has no bit at position j or above. */
  lemma {:induction false} NoBitAbove(x: nat, j: nat, k: nat)
    requires x < Pow2(j) && j <= k
    ensures !Bit(x, k)
    decreases k
  {
    if j == 0 {
      ZeroHasNoBit(k);
    } else {
      NoBitAbove(x / 2, j - 1, k - 1);
    }
  }
}
