/**
 * Logical shifts of 32-bit words by a variable amount `s` (0 to 32), defined
 * as `s` shifts by one bit: `ShiftLeft(x, s)` is `x << s` and
 * `ShiftRight(x, s)` is `x >> s` on an unsigned 32-bit word, with a shift by
 * 32 giving 0. Every shift the prefix tests of the router perform is one of
 * these.
 */
module Bits {

  /** `x << s`, as `s` single-bit shifts: the first shift is applied to `x`. */
  function ShiftLeft(x: bv32, s: nat): bv32
    requires s <= 32
    decreases s
  {
    if s == 0 then x else ShiftLeft(x << 1, s - 1)
  }

  /** `x >> s`, as `s` single-bit shifts: the last shift is applied to the result of the others. */
  function ShiftRight(x: bv32, s: nat): bv32
    requires s <= 32
    decreases s
  {
    if s == 0 then x else ShiftRight(x, s - 1) >> 1
  }

  lemma ShiftLeftUnfold(x: bv32, s: nat)
    requires 1 <= s <= 32
    ensures ShiftLeft(x, s) == ShiftLeft(x << 1, s - 1)
  {
  }

  lemma ShiftRightUnfold(m: bv32, s: nat)
    requires 1 <= s <= 32
    ensures ShiftRight(m, s) == ShiftRight(m, s - 1) >> 1
  {
  }

  /** Doubling two words makes them agree under `k` only if they agree under `k >> 1`. */
  lemma DoubledAgreeOnly(x: bv32, y: bv32, k: bv32, j: bv32)
    ensures j == k >> 1 && (x << 1) & k == (y << 1) & k ==> x & j == y & j
  {
  }

  /** Two words that agree under `k >> 1` agree under `k` once doubled. */
  lemma DoubledAgreeIf(x: bv32, y: bv32, k: bv32, j: bv32)
    ensures j == k >> 1 && x & j == y & j ==> (x << 1) & k == (y << 1) & k
  {
  }

  /** One step of `ShiftedEqualOnly`: agreement of the doubled words under the mask for `s - 1`. */
  lemma DoubledAgree(x: bv32, y: bv32, s: nat)
    requires 1 <= s <= 32
    requires (x << 1) & ShiftRight(0xffff_ffff, s - 1) == (y << 1) & ShiftRight(0xffff_ffff, s - 1)
    ensures x & ShiftRight(0xffff_ffff, s) == y & ShiftRight(0xffff_ffff, s)
  {
    ShiftRightUnfold(0xffff_ffff, s);
    DoubledAgreeOnly(x, y, ShiftRight(0xffff_ffff, s - 1), ShiftRight(0xffff_ffff, s));
  }

  /** One step of `ShiftedEqualIf`: the converse of `DoubledAgree`. */
  lemma AgreeDoubled(x: bv32, y: bv32, s: nat)
    requires 1 <= s <= 32
    requires x & ShiftRight(0xffff_ffff, s) == y & ShiftRight(0xffff_ffff, s)
    ensures (x << 1) & ShiftRight(0xffff_ffff, s - 1) == (y << 1) & ShiftRight(0xffff_ffff, s - 1)
  {
    ShiftRightUnfold(0xffff_ffff, s);
    DoubledAgreeIf(x, y, ShiftRight(0xffff_ffff, s - 1), ShiftRight(0xffff_ffff, s));
  }

  /**
   * Two words that agree once shifted left by `s` agree in the bits of
   * `0xffffffff >> s`: the bits pushed out at the top are the only ones lost.
   */
  lemma {:induction false} ShiftedEqualOnly(x: bv32, y: bv32, s: nat)
    requires s <= 32 && ShiftLeft(x, s) == ShiftLeft(y, s)
    ensures x & ShiftRight(0xffff_ffff, s) == y & ShiftRight(0xffff_ffff, s)
    decreases s
  {
    if s != 0 {
      ShiftLeftUnfold(x, s);
      ShiftLeftUnfold(y, s);
      ShiftedEqualOnly(x << 1, y << 1, s - 1);
      DoubledAgree(x, y, s);
    }
  }

  /** The converse of `ShiftedEqualOnly`. */
  lemma {:induction false} ShiftedEqualIf(x: bv32, y: bv32, s: nat)
    requires s <= 32 && x & ShiftRight(0xffff_ffff, s) == y & ShiftRight(0xffff_ffff, s)
    ensures ShiftLeft(x, s) == ShiftLeft(y, s)
    decreases s
  {
    if s != 0 {
      AgreeDoubled(x, y, s);
      ShiftedEqualIf(x << 1, y << 1, s - 1);
      ShiftLeftUnfold(x, s);
      ShiftLeftUnfold(y, s);
    }
  }

  /** Two words agree once shifted left by `s` exactly when they agree in the bits of `0xffffffff >> s`. */
  lemma ShiftedEqualIsMaskedEqual(x: bv32, y: bv32, s: nat)
    requires s <= 32
    ensures ShiftLeft(x, s) == ShiftLeft(y, s) ==> x & ShiftRight(0xffff_ffff, s) == y & ShiftRight(0xffff_ffff, s)
    ensures x & ShiftRight(0xffff_ffff, s) == y & ShiftRight(0xffff_ffff, s) ==> ShiftLeft(x, s) == ShiftLeft(y, s)
  {
    if ShiftLeft(x, s) == ShiftLeft(y, s) {
      ShiftedEqualOnly(x, y, s);
    }
    if x & ShiftRight(0xffff_ffff, s) == y & ShiftRight(0xffff_ffff, s) {
      ShiftedEqualIf(x, y, s);
    }
  }

  /** Halving a mask of the form 2^k - 1 gives another such mask. */
  lemma HalvedLowMask(m: bv32)
    requires m & (m + 1) == 0
    ensures (m >> 1) & ((m >> 1) + 1) == 0
  {
  }

  /** `0xffffffff >> s` has the form 2^k - 1: ones in the low bits, zeros above. */
  lemma {:induction false} OnesShiftedIsLowMask(s: nat)
    requires s <= 32
    ensures ShiftRight(0xffff_ffff, s) & (ShiftRight(0xffff_ffff, s) + 1) == 0
    decreases s
  {
    if s != 0 {
      OnesShiftedIsLowMask(s - 1);
      ShiftRightUnfold(0xffff_ffff, s);
      HalvedLowMask(ShiftRight(0xffff_ffff, s - 1));
    }
  }

  /** A mask of the form 2^k - 1 whose second bit is set has its lowest bit set too. */
  lemma LowMaskLowBit(m: bv32)
    requires m & (m + 1) == 0 && (m >> 1) & 1 == 1
    ensures m & 1 == 1
  {
  }

  /** `0xffffffff >> 31` is 1, evaluated a byte at a time. */
  lemma OnesShiftedBy31()
    ensures ShiftRight(0xffff_ffff, 31) == 1
  {
    assert ShiftRight(0xffff_ffff, 8) == 0x00ff_ffff;
    assert ShiftRight(0xffff_ffff, 16) == 0x0000_ffff;
    assert ShiftRight(0xffff_ffff, 24) == 0x0000_00ff;
  }

  /** `0xffffffff >> s` keeps its lowest bit for every shift up to 31. */
  lemma {:induction false} OnesShiftedIsOdd(s: nat)
    requires s <= 31
    ensures ShiftRight(0xffff_ffff, s) & 1 == 1
    decreases 31 - s
  {
    if s == 31 {
      OnesShiftedBy31();
    } else {
      OnesShiftedIsOdd(s + 1);
      ShiftRightUnfold(0xffff_ffff, s + 1);
      OnesShiftedIsLowMask(s);
      LowMaskLowBit(ShiftRight(0xffff_ffff, s));
    }
  }

  /** `0xffffffff >> s` is all ones only for the shift by 0. */
  lemma OnesShiftedIsNotOnes(s: nat)
    requires 1 <= s <= 32
    ensures ShiftRight(0xffff_ffff, s) != 0xffff_ffff
  {
    ShiftRightUnfold(0xffff_ffff, s);
  }

  /** Adding one to an odd mask 2^k - 1 (k < 32) and halving gives the half mask plus one: 2^k / 2 = 2^(k-1). */
  lemma IncrementHalved(m: bv32)
    requires m & (m + 1) == 0 && m & 1 == 1 && m != 0xffff_ffff
    ensures (m + 1) >> 1 == (m >> 1) + 1
  {
  }

  /** Shifting 0 right leaves 0. */
  lemma {:induction false} ZeroShifted(s: nat)
    requires s <= 32
    ensures ShiftRight(0, s) == 0
    decreases s
  {
    if s != 0 {
      ZeroShifted(s - 1);
    }
  }

  /** `0xffffffff >> 32` is 0. */
  lemma OnesShiftedBy32()
    ensures ShiftRight(0xffff_ffff, 32) == 0
  {
    OnesShiftedBy31();
  }
}
