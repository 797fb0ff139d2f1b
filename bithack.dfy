/**
 * The pointer-cast bit tricks of include/bithack_Functions.h.
 *
 * `asInt`/`asFloat` reinterpret a float's storage as an unsigned integer
 * and back; with floats held as bit patterns they are the field access
 * and the constructor of `F32`/`F64`. Every other function is an integer
 * expression on the bit pattern, computed with unsigned wrap-around.
 */
module Bithack {
  import opened BaseType

  const OneAsInt32: bv32 := 0x3F80_0000
  const OneAsInt64: bv64 := 0x3FF0_0000_0000_0000
  const NegZero32: bv32 := 0x8000_0000
  const NegZero64: bv64 := 0x8000_0000_0000_0000
  const NNegZero32: bv32 := 0x7FFF_FFFF
  const NNegZero64: bv64 := 0x7FFF_FFFF_FFFF_FFFF

  /**
   * 1.0 has a zero mantissa and the bias as its exponent field, at both
   * widths; the `nneg` masks are the complements of the sign masks.
   */
  lemma MagicConstants()
    ensures OneAsInt32 >> 23 == 127 && OneAsInt32 & 0x7F_FFFF == 0
    ensures OneAsInt64 >> 52 == 1023 && OneAsInt64 & 0xF_FFFF_FFFF_FFFF == 0
    ensures NNegZero32 == !NegZero32 && NNegZero64 == !NegZero64
  {
  }

  // ---------------------------------------------------------------------
  // Conversions
  // ---------------------------------------------------------------------

  function AsInt32(f: F32): (i: bv32)
    ensures AsFloat32(i) == f
  {
    f.bits
  }

  function AsInt64(f: F64): (i: bv64)
    ensures AsFloat64(i) == f
  {
    f.bits
  }

  function AsFloat32(i: bv32): (f: F32)
    ensures f.bits == i
  {
    F32(i)
  }

  function AsFloat64(i: bv64): (f: F64)
    ensures f.bits == i
  {
    F64(i)
  }

  // ---------------------------------------------------------------------
  // Sign
  // ---------------------------------------------------------------------

  predicate IsNegative32(f: F32)
  {
    AsInt32(f) & NegZero32 != 0
  }

  predicate IsNegative64(f: F64)
  {
    AsInt64(f) & NegZero64 != 0
  }

  /** `negate`: flip the sign bit; every other bit is kept. */
  function Negate32(f: F32): (r: F32)
    ensures r.bits & NNegZero32 == f.bits & NNegZero32
    ensures r.bits & NegZero32 != 0 <==> f.bits & NegZero32 == 0
  {
    AsFloat32(AsInt32(f) ^ NegZero32)
  }

  function Negate64(f: F64): (r: F64)
    ensures r.bits & NNegZero64 == f.bits & NNegZero64
    ensures r.bits & NegZero64 != 0 <==> f.bits & NegZero64 == 0
  {
    AsFloat64(AsInt64(f) ^ NegZero64)
  }

  /** `abs`: clear the sign bit; every other bit is kept. */
  function Abs32(f: F32): (r: F32)
    ensures r.bits & NNegZero32 == f.bits & NNegZero32
    ensures r.bits & NegZero32 == 0
  {
    AsFloat32(AsInt32(f) & NNegZero32)
  }

  function Abs64(f: F64): (r: F64)
    ensures r.bits & NNegZero64 == f.bits & NNegZero64
    ensures r.bits & NegZero64 == 0
  {
    AsFloat64(AsInt64(f) & NNegZero64)
  }

  lemma SignBits32(x: bv32)
    ensures (x ^ NegZero32) ^ NegZero32 == x
    ensures (x & NNegZero32) & NNegZero32 == x & NNegZero32
    ensures (x ^ NegZero32) & NNegZero32 == x & NNegZero32
    ensures x & NegZero32 == 0 ==> x & NNegZero32 == x
    ensures (x & NNegZero32) & NegZero32 == 0
  {
  }

  lemma SignBits64(x: bv64)
    ensures (x ^ NegZero64) ^ NegZero64 == x
    ensures (x & NNegZero64) & NNegZero64 == x & NNegZero64
    ensures (x ^ NegZero64) & NNegZero64 == x & NNegZero64
    ensures x & NegZero64 == 0 ==> x & NNegZero64 == x
    ensures (x & NNegZero64) & NegZero64 == 0
  {
  }

  /** `negate` flips `isNegative`, and negating twice gives the float back. */
  lemma NegateLaws32(f: F32)
    ensures IsNegative32(Negate32(f)) == !IsNegative32(f)
    ensures Negate32(Negate32(f)) == f
  {
    NegateBits32(f);
    NegateBits32(Negate32(f));
    SignBits32(f.bits);
  }

  lemma NegateLaws64(f: F64)
    ensures IsNegative64(Negate64(f)) == !IsNegative64(f)
    ensures Negate64(Negate64(f)) == f
  {
    NegateBits64(f);
    NegateBits64(Negate64(f));
    SignBits64(f.bits);
  }

  /** `abs` is never negative, is idempotent and keeps a non-negative float. */
  lemma AbsLaws32(f: F32)
    ensures !IsNegative32(Abs32(f))
    ensures Abs32(Abs32(f)) == Abs32(f)
    ensures !IsNegative32(f) ==> Abs32(f) == f
  {
    var x := f.bits;
    AbsBits32(x);
    AbsBits32(x & NNegZero32);
    ClearTwice32(x);
    if !IsNegative32(f) {
      ClearNonNegative32(x);
    }
  }

  lemma ClearTwice32(x: bv32)
    ensures (x & NNegZero32) & NNegZero32 == x & NNegZero32
    ensures (x & NNegZero32) & NegZero32 == 0
  {
  }

  lemma ClearNonNegative32(x: bv32)
    requires x & NegZero32 == 0
    ensures F32(x & NNegZero32) == F32(x)
  {
  }

  /** `abs` of a negated float is `abs` of the float. */
  lemma AbsOfNegate32(f: F32)
    ensures Abs32(Negate32(f)) == Abs32(f)
  {
    var x := f.bits;
    NegateBits32(f);
    AbsBits32(x ^ NegZero32);
    AbsBits32(x);
    ClearAfterFlip32(x);
  }

  lemma NegateBits32(f: F32)
    ensures Negate32(f) == F32(f.bits ^ NegZero32)
  {
  }

  lemma AbsBits32(x: bv32)
    ensures Abs32(F32(x)) == F32(x & NNegZero32)
  {
  }

  lemma ClearAfterFlip32(x: bv32)
    ensures F32((x ^ NegZero32) & NNegZero32) == F32(x & NNegZero32)
  {
    SignBits32(x);
  }

  lemma AbsLaws64(f: F64)
    ensures !IsNegative64(Abs64(f))
    ensures Abs64(Abs64(f)) == Abs64(f)
    ensures !IsNegative64(f) ==> Abs64(f) == f
  {
    var x := f.bits;
    AbsBits64(x);
    AbsBits64(x & NNegZero64);
    ClearTwice64(x);
    if !IsNegative64(f) {
      ClearNonNegative64(x);
    }
  }

  lemma ClearTwice64(x: bv64)
    ensures (x & NNegZero64) & NNegZero64 == x & NNegZero64
    ensures (x & NNegZero64) & NegZero64 == 0
  {
  }

  lemma ClearNonNegative64(x: bv64)
    requires x & NegZero64 == 0
    ensures F64(x & NNegZero64) == F64(x)
  {
  }

  /** `abs` of a negated float is `abs` of the float. */
  lemma AbsOfNegate64(f: F64)
    ensures Abs64(Negate64(f)) == Abs64(f)
  {
    var x := f.bits;
    NegateBits64(f);
    AbsBits64(x ^ NegZero64);
    AbsBits64(x);
    ClearAfterFlip64(x);
  }

  lemma NegateBits64(f: F64)
    ensures Negate64(f) == F64(f.bits ^ NegZero64)
  {
  }

  lemma AbsBits64(x: bv64)
    ensures Abs64(F64(x)) == F64(x & NNegZero64)
  {
  }

  lemma ClearAfterFlip64(x: bv64)
    ensures F64((x ^ NegZero64) & NNegZero64) == F64(x & NNegZero64)
  {
    SignBits64(x);
  }

  // ---------------------------------------------------------------------
  // Square roots
  // ---------------------------------------------------------------------

  /** The `sqrt_magic` of `sqrt_b`, written `(1 << 29) - (1 << 22)` in the source. */
  const SqrtMagic32: bv32 := 0x1FC0_0000

  /** `sqrt_magic` is half of 1.0's bit pattern. */
  lemma SqrtMagicIsHalfOne()
    ensures SqrtMagic32 == (1 << 29) - (1 << 22)
    ensures SqrtMagic32 == OneAsInt32 >> 1
    ensures OneAsInt32 == SqrtMagic32 + SqrtMagic32
  {
  }

  /**
   * `sqrt`: halve the exponent by averaging the bit pattern with 1.0's,
   * `(b + oneAsInt32) >> 1` with unsigned wrap-around. The shift is
   * logical, so the result is never negative, whatever the input.
   */
  function Sqrt32(f: F32): (r: F32)
    ensures r.bits & NegZero32 == 0
  {
    AsFloat32((AsInt32(f) + OneAsInt32) >> 1)
  }

  function Sqrt64(f: F64): (r: F64)
    ensures r.bits & NegZero64 == 0
  {
    AsFloat64((AsInt64(f) + OneAsInt64) >> 1)
  }

  /** `sqrt_b`: add `sqrt_magic` to half the bit pattern. The sum never wraps. */
  function SqrtB32(f: F32): (r: F32)
    ensures AsInt32(f) >> 1 <= r.bits
  {
    AsFloat32(SqrtMagic32 + (AsInt32(f) >> 1))
  }

  /** `sqrt(1.0)` and `sqrt_b(1.0)` are exactly 1.0. */
  lemma SqrtOfOne()
    ensures Sqrt32(F32(OneAsInt32)) == F32(OneAsInt32)
    ensures Sqrt64(F64(OneAsInt64)) == F64(OneAsInt64)
    ensures SqrtB32(F32(OneAsInt32)) == F32(OneAsInt32)
  {
  }

  lemma SqrtSumBits32(b: bv32)
    requires b & NegZero32 == 0
    ensures b <= b + OneAsInt32
  {
  }

  lemma SqrtSumBits64(b: bv64)
    requires b & NegZero64 == 0
    ensures b <= b + OneAsInt64
  {
  }

  lemma SqrtBSignBits(b: bv32)
    requires b & NegZero32 == 0
    ensures (SqrtMagic32 + (b >> 1)) & NegZero32 == 0
  {
  }

  /** For a non-negative input the sum inside `sqrt` does not wrap. */
  lemma SqrtNoOverflow32(f: F32)
    requires !IsNegative32(f)
    ensures AsInt32(f) <= AsInt32(f) + OneAsInt32
  {
    SqrtSumBits32(f.bits);
  }

  /** `sqrt_b` of a non-negative input is non-negative. */
  lemma SqrtBNonNegative(f: F32)
    requires !IsNegative32(f)
    ensures !IsNegative32(SqrtB32(f))
  {
    SqrtBits(f.bits);
    SqrtBSignBits(f.bits);
  }

  /** For a non-negative input the sum inside the 64-bit `sqrt` does not wrap. */
  lemma SqrtNoOverflow64(g: F64)
    requires !IsNegative64(g)
    ensures AsInt64(g) <= AsInt64(g) + OneAsInt64
  {
    SqrtSumBits64(g.bits);
  }

  lemma HalfSumBits(b: bv32)
    requires b <= b + OneAsInt32
    ensures (b + OneAsInt32) >> 1 == SqrtMagic32 + (b >> 1)
  {
  }

  /**
   * Because `sqrt_magic` is half of `oneAsInt32`, `sqrt_b` and `sqrt`
   * give the same bits whenever `asInt(x) + oneAsInt32` does not wrap,
   * and in particular for every non-negative input.
   */
  lemma SqrtBAgrees(f: F32)
    requires AsInt32(f) <= AsInt32(f) + OneAsInt32
    ensures SqrtB32(f) == Sqrt32(f)
  {
    SqrtBits(f.bits);
    HalfSumBits(f.bits);
  }

  lemma SqrtBits(b: bv32)
    ensures Sqrt32(F32(b)) == F32((b + OneAsInt32) >> 1)
    ensures SqrtB32(F32(b)) == F32(SqrtMagic32 + (b >> 1))
  {
  }

  lemma Sqrt64Bits(b: bv64)
    ensures Sqrt64(F64(b)) == F64((b + OneAsInt64) >> 1)
  {
  }
}
