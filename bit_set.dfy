/**
 * Setting or clearing one bit of a 64-bit signed integer with a shifted mask.
 *
 * The int64 argument is modelled by its 64-bit two's-complement pattern (bv64):
 * `|` and `&^` act on that pattern bit by bit, so no arithmetic on the signed
 * value is involved. The bit position is an unsigned 64-bit integer (bv64 as
 * well) and may be 64 or more. The requested value is a signed 64-bit integer.
 *
 * The properties of SetBit are proved in two layers: one lemma per branch
 * (SetOne for `|`, SetZero for `&^`), and the SetBit lemma that splits on the
 * requested value and uses the lemma of the branch it takes.
 */
module BitSet {
  newtype int64 = x: int | -0x8000_0000_0000_0000 <= x < 0x8000_0000_0000_0000

  /**
   * `int64(1) << i`: a shift by 64 or more positions gives 0, as shifts do
   * for fixed-width integers in the source language.
   */
  function Mask(i: bv64): (m: bv64)
    ensures m == 0 <==> i >= 64
    ensures m & (m - 1) == 0
  {
    if i < 64 then 1 << i else 0
  }

  /** Bit k (0 = least significant) of the pattern n is 1. */
  predicate Bit(n: bv64, k: bv64)
    requires k < 64
  {
    (n >> k) & 1 == 1
  }

  /** `n | mask`: the branch taken when the requested value is 1. */
  function SetOne(n: bv64, i: bv64): bv64
  {
    n | Mask(i)
  }

  /** `n &^ mask`: the branch taken for every other requested value. */
  function SetZero(n: bv64, i: bv64): bv64
  {
    n & !Mask(i)
  }

  /** Sets bit i of n to 1 when value is 1, and clears it for every other value. */
  function SetBit(n: bv64, i: bv64, value: int64): (r: bv64)
    ensures i >= 64 ==> r == n
  {
    if value == 1 then SetOne(n, i) else SetZero(n, i)
  }

  /** The mask has exactly bit i set, and no bit at all when i >= 64. */
  lemma MaskBit(i: bv64, k: bv64)
    requires k < 64
    ensures Bit(Mask(i), k) <==> k == i
  {
  }

  /**
   * Two patterns that agree once bit i is cleared in both agree on every
   * bit k != i.
   */
  lemma SameClearedSameBit(a: bv64, b: bv64, i: bv64, k: bv64)
    requires k < 64 && k != i && SetZero(a, i) == SetZero(b, i)
    ensures Bit(a, k) == Bit(b, k)
  {
  }

  // One lemma per branch.

  lemma SetOneTarget(n: bv64, i: bv64)
    requires i < 64
    ensures Bit(SetOne(n, i), i)
  {
  }

  lemma SetZeroTarget(n: bv64, i: bv64)
    requires i < 64
    ensures !Bit(SetZero(n, i), i)
  {
  }

  lemma SetOneThenClear(n: bv64, i: bv64)
    ensures SetZero(SetOne(n, i), i) == SetZero(n, i)
  {
  }

  lemma SetOneCovered(n: bv64, i: bv64)
    requires i < 64 && Bit(n, i)
    ensures SetOne(n, i) == n
  {
  }

  lemma SetZeroCovered(n: bv64, i: bv64)
    requires i < 64 && !Bit(n, i)
    ensures SetZero(n, i) == n
  {
  }

  lemma SetOneTwice(n: bv64, i: bv64)
    ensures SetOne(SetOne(n, i), i) == SetOne(n, i)
  {
  }

  lemma SetZeroTwice(n: bv64, i: bv64)
    ensures SetZero(SetZero(n, i), i) == SetZero(n, i)
  {
  }

  lemma SetOneBeyond(n: bv64, i: bv64)
    requires i >= 64
    ensures SetOne(n, i) == n
  {
  }

  lemma SetZeroBeyond(n: bv64, i: bv64)
    requires i >= 64
    ensures SetZero(n, i) == n
  {
  }

  // Properties of SetBit.

  /** With value 1 the target bit is 1; with any other value it is 0. */
  lemma SetBitTarget(n: bv64, i: bv64, value: int64)
    requires i < 64
    ensures Bit(SetBit(n, i, value), i) <==> value == 1
  {
    if value == 1 {
      SetOneTarget(n, i);
    } else {
      SetZeroTarget(n, i);
    }
  }

  /** Outside position i the result is n, whatever the value. */
  lemma SetBitRest(n: bv64, i: bv64, value: int64)
    ensures SetZero(SetBit(n, i, value), i) == SetZero(n, i)
  {
    if value == 1 {
      SetOneThenClear(n, i);
    } else {
      SetZeroTwice(n, i);
    }
  }

  /**
   * Bit k of the result: the requested value at position i (1 exactly when
   * value is 1), the bit of n at every other position.
   */
  lemma SetBitAt(n: bv64, i: bv64, value: int64, k: bv64)
    requires k < 64
    ensures Bit(SetBit(n, i, value), k) <==> if k == i then value == 1 else Bit(n, k)
  {
    if k == i {
      SetBitTarget(n, i, value);
    } else {
      SetBitRest(n, i, value);
      SameClearedSameBit(SetBit(n, i, value), n, i, k);
    }
  }

  /** Every bit other than i is the same in n and in the result. */
  lemma SetBitKeepsOthers(n: bv64, i: bv64, value: int64)
    ensures forall k: bv64 | k < 64 && k != i :: Bit(SetBit(n, i, value), k) == Bit(n, k)
  {
    forall k: bv64 | k < 64 && k != i
      ensures Bit(SetBit(n, i, value), k) == Bit(n, k)
    {
      SetBitAt(n, i, value, k);
    }
  }

  /** A position of 64 or more leaves n unchanged, in both branches. */
  lemma SetBitOutOfRange(n: bv64, i: bv64, value: int64)
    requires i >= 64
    ensures SetBit(n, i, value) == n
  {
    if value == 1 {
      SetOneBeyond(n, i);
    } else {
      SetZeroBeyond(n, i);
    }
  }

  /** Setting the same bit to the same value twice is the same as doing it once. */
  lemma SetBitIdempotent(n: bv64, i: bv64, value: int64)
    ensures SetBit(SetBit(n, i, value), i, value) == SetBit(n, i, value)
  {
    if value == 1 {
      SetOneTwice(n, i);
    } else {
      SetZeroTwice(n, i);
    }
  }

  /** When bit i of n already has the requested value, the result is n. */
  lemma SetBitNoChange(n: bv64, i: bv64, value: int64)
    requires i < 64 && (Bit(n, i) <==> value == 1)
    ensures SetBit(n, i, value) == n
  {
    if value == 1 {
      SetOneCovered(n, i);
    } else {
      SetZeroCovered(n, i);
    }
  }

  /** 5 (binary 0101) with bit 0 cleared is 4 (binary 0100). */
  lemma ClearLowestBitOfFive()
    ensures SetBit(5, 0, 0) == 4
  {
  }
}
