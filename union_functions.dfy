/**
 * The union-based bit tricks of include/union_Functions.h.
 *
 * A `union { f32 x; u32 i; }` holds one word seen either as a float or as
 * an unsigned integer. With floats held as bit patterns, both views read
 * the same bits: `Word32`/`Word64` keep the integer view `i` and give the
 * float view through `X()`. Each function copies its argument into a
 * union, updates the integer view and reads the float view back.
 */
module UnionFns {
  import opened BaseType
  import Bithack

  const OneAsInt32: bv32 := 0x3F80_0000
  const OneAsInt64: bv64 := 0x3FF0_0000_0000_0000
  const NegZero32: bv32 := 0x8000_0000
  const NegZero64: bv64 := 0x8000_0000_0000_0000
  const NNegZero32: bv32 := 0x7FFF_FFFF
  const NNegZero64: bv64 := 0x7FFF_FFFF_FFFF_FFFF

  /** The constants are the same words as the pointer-cast family's. */
  lemma ConstantsAgree()
    ensures OneAsInt32 == Bithack.OneAsInt32 && OneAsInt64 == Bithack.OneAsInt64
    ensures NegZero32 == Bithack.NegZero32 && NegZero64 == Bithack.NegZero64
    ensures NNegZero32 == !NegZero32 && NNegZero64 == !NegZero64
  {
  }

  /** `ff32`/`if32`: a 32-bit word with an integer and a float view. */
  datatype Word32 = Word32(i: bv32)
  {
    function X(): (x: F32)
      ensures x.bits == i
    {
      F32(i)
    }
  }

  /** `ff64`/`if64`: a 64-bit word with an integer and a float view. */
  datatype Word64 = Word64(i: bv64)
  {
    function X(): (x: F64)
      ensures x.bits == i
    {
      F64(i)
    }
  }

  /** `ff32{x}`: the union initialised through its float view. */
  function OfFloat32(x: F32): (u: Word32)
    ensures u.X() == x
  {
    Word32(x.bits)
  }

  function OfFloat64(x: F64): (u: Word64)
    ensures u.X() == x
  {
    Word64(x.bits)
  }

  // ---------------------------------------------------------------------
  // Sign
  // ---------------------------------------------------------------------

  predicate IsNegative32(x: F32)
  {
    OfFloat32(x).i & NegZero32 != 0
  }

  predicate IsNegative64(x: F64)
  {
    OfFloat64(x).i & NegZero64 != 0
  }

  /** `negate`: `r.i ^= negZero` on a copy of the argument. */
  function Negate32(x: F32): (y: F32)
    ensures y.bits & NNegZero32 == x.bits & NNegZero32
    ensures y.bits & NegZero32 != 0 <==> x.bits & NegZero32 == 0
  {
    var r := OfFloat32(x);
    var r' := r.(i := r.i ^ NegZero32);
    r'.X()
  }

  function Negate64(x: F64): (y: F64)
    ensures y.bits & NNegZero64 == x.bits & NNegZero64
    ensures y.bits & NegZero64 != 0 <==> x.bits & NegZero64 == 0
  {
    var r := OfFloat64(x);
    var r' := r.(i := r.i ^ NegZero64);
    r'.X()
  }

  /** `abs`: `r.i &= nnegZero` on a copy of the argument. */
  function Abs32(x: F32): (y: F32)
    ensures y.bits & NNegZero32 == x.bits & NNegZero32
    ensures y.bits & NegZero32 == 0
  {
    var r := OfFloat32(x);
    var r' := r.(i := r.i & NNegZero32);
    r'.X()
  }

  function Abs64(x: F64): (y: F64)
    ensures y.bits & NNegZero64 == x.bits & NNegZero64
    ensures y.bits & NegZero64 == 0
  {
    var r := OfFloat64(x);
    var r' := r.(i := r.i & NNegZero64);
    r'.X()
  }

  lemma NegateBits32(x: F32)
    ensures Negate32(x) == F32(x.bits ^ NegZero32)
  {
  }

  lemma NegateBits64(x: F64)
    ensures Negate64(x) == F64(x.bits ^ NegZero64)
  {
  }

  lemma AbsBits32(x: F32)
    ensures Abs32(x) == F32(x.bits & NNegZero32)
  {
  }

  lemma AbsBits64(x: F64)
    ensures Abs64(x) == F64(x.bits & NNegZero64)
  {
  }

  /** `negate` flips `isNegative` and is an involution, at both widths. */
  lemma NegateLaws32(x: F32)
    ensures IsNegative32(Negate32(x)) == !IsNegative32(x)
    ensures Negate32(Negate32(x)) == x
  {
    NegateBits32(x);
    NegateBits32(Negate32(x));
    Bithack.SignBits32(x.bits);
  }

  lemma NegateLaws64(x: F64)
    ensures IsNegative64(Negate64(x)) == !IsNegative64(x)
    ensures Negate64(Negate64(x)) == x
  {
    NegateBits64(x);
    NegateBits64(Negate64(x));
    Bithack.SignBits64(x.bits);
  }

  /** `abs` is never negative and is idempotent, at both widths. */
  lemma AbsLaws32(x: F32)
    ensures !IsNegative32(Abs32(x))
    ensures Abs32(Abs32(x)) == Abs32(x)
  {
    AbsBits32(x);
    AbsBits32(Abs32(x));
    Bithack.SignBits32(x.bits);
  }

  lemma AbsLaws64(x: F64)
    ensures !IsNegative64(Abs64(x))
    ensures Abs64(Abs64(x)) == Abs64(x)
  {
    AbsBits64(x);
    AbsBits64(Abs64(x));
    Bithack.SignBits64(x.bits);
  }

  // ---------------------------------------------------------------------
  // Square roots
  // ---------------------------------------------------------------------

  const SqrtMagic32: bv32 := 0x1FC0_0000

  /** `sqrt`: `(i + oneAsInt) >> 1` on the integer view; never negative. */
  function Sqrt32(x: F32): (y: F32)
    ensures y.bits & NegZero32 == 0
  {
    Word32((OfFloat32(x).i + OneAsInt32) >> 1).X()
  }

  function Sqrt64(x: F64): (y: F64)
    ensures y.bits & NegZero64 == 0
  {
    Word64((OfFloat64(x).i + OneAsInt64) >> 1).X()
  }

  /** `sqrt_b`: `u.i = sqrt_magic + (u.i >> 1)`. */
  function SqrtB32(x: F32): (y: F32)
    ensures x.bits >> 1 <= y.bits
  {
    var u := OfFloat32(x);
    var u' := u.(i := SqrtMagic32 + (u.i >> 1));
    u'.X()
  }

  /** `sqrt(1.0)` is exactly 1.0 at both widths. */
  lemma SqrtOfOne()
    ensures Sqrt32(F32(OneAsInt32)) == F32(OneAsInt32)
    ensures Sqrt64(F64(OneAsInt64)) == F64(OneAsInt64)
  {
  }

  lemma SqrtBits32(x: F32)
    ensures Sqrt32(x) == F32((x.bits + OneAsInt32) >> 1)
    ensures SqrtB32(x) == F32(SqrtMagic32 + (x.bits >> 1))
  {
  }

  lemma SqrtBits64(x: F64)
    ensures Sqrt64(x) == F64((x.bits + OneAsInt64) >> 1)
  {
  }

  /**
   * The union family and the pointer-cast family compute the same bits:
   * sign test, negate, abs and both square roots.
   */
  lemma AgreesWithBithack32(x: F32)
    ensures IsNegative32(x) == Bithack.IsNegative32(x)
    ensures Negate32(x) == Bithack.Negate32(x)
    ensures Abs32(x) == Bithack.Abs32(x)
  {
    NegateBits32(x);
    Bithack.NegateBits32(x);
    AbsBits32(x);
    Bithack.AbsBits32(x.bits);
  }

  lemma SqrtAgreesWithBithack(x: F32, y: F64)
    ensures Sqrt32(x) == Bithack.Sqrt32(x)
    ensures SqrtB32(x) == Bithack.SqrtB32(x)
    ensures Sqrt64(y) == Bithack.Sqrt64(y)
  {
    SqrtBits32(x);
    Bithack.SqrtBits(x.bits);
    SqrtBits64(y);
    Bithack.Sqrt64Bits(y.bits);
  }

  lemma AgreesWithBithack64(x: F64)
    ensures IsNegative64(x) == Bithack.IsNegative64(x)
    ensures Negate64(x) == Bithack.Negate64(x)
    ensures Abs64(x) == Bithack.Abs64(x)
  {
    NegateBits64(x);
    Bithack.NegateBits64(x);
    AbsBits64(x);
    Bithack.AbsBits64(x.bits);
  }

  // ---------------------------------------------------------------------
  // Inverse square root: the integer step
  // ---------------------------------------------------------------------

  /** The magic constant of the inverse square root estimate. */
  const RsqrtMagic: bv32 := 0x5F37_59DF

  /**
   * The integer step of `rsqrt_quake`, `y.i = 0x5f3759df - (y.i >> 1)` on
   * the `u32` view; the Newton step that follows is float arithmetic.
   */
  function RsqrtEstimate(x: F32): (y: F32)
    ensures y.bits + (x.bits >> 1) == RsqrtMagic
  {
    var u := OfFloat32(x);
    var u' := u.(i := RsqrtMagic - (u.i >> 1));
    u'.X()
  }

  lemma RsqrtEstimateBits(b: bv32)
    requires b & NegZero32 == 0
    ensures b >> 1 <= RsqrtMagic
    ensures (RsqrtMagic - (b >> 1)) & NegZero32 == 0
  {
  }

  /**
   * For a non-negative input the subtraction does not underflow and the
   * estimate is non-negative.
   */
  lemma RsqrtEstimateNonNegative(x: F32)
    requires !IsNegative32(x)
    ensures x.bits >> 1 <= RsqrtMagic
    ensures !IsNegative32(RsqrtEstimate(x))
  {
    RsqrtEstimateBits(x.bits);
  }

  /** The estimate for 1.0, before the Newton step, is 0x3F7759DF (about 0.966). */
  lemma RsqrtEstimateOfOne()
    ensures RsqrtEstimate(F32(OneAsInt32)) == F32(0x3F77_59DF)
  {
  }
}
