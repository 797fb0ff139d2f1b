/**
 * The free-standing bit tricks of include/trickFunctions.h.
 *
 * Signed integers (`s8`, `s16`, `s32`) are handled here as their bit
 * patterns, read through the two's-complement value functions of
 * `BaseType`. The C++ promotions leave the low bits of `i ^ mask` and
 * `i & mask` equal to those of the bit patterns, so every operation is a
 * bit-vector operation of the same width.
 */
module Tricks {
  import opened BaseType
  import Bithack

  const OneAsInt32: bv32 := 0x3F80_0000

  /** The source's sign masks; the 8-bit one is bit 3, not bit 7. */
  const NegZero8: bv8 := 0x08
  const NegZero16: bv16 := 0x8000
  const NegZero32: bv32 := 0x8000_0000
  const NegZero64: bv64 := 0x8000_0000_0000_0000

  // ---------------------------------------------------------------------
  // Signed integers
  // ---------------------------------------------------------------------

  /** `negate(s8)`, as written: flips bit 3. */
  function Negate8(i: bv8): (r: bv8)
    ensures r & 0xF7 == i & 0xF7
    ensures r & 0x08 != i & 0x08
  {
    i ^ NegZero8
  }

  /** `isNegative(s8)`, as written: tests bit 3. */
  predicate IsNegative8(i: bv8)
  {
    i & NegZero8 != 0
  }

  /**
   * With the mask 0x8 the 8-bit sign test and negation look at bit 3:
   * 8 is reported negative, -128 is reported non-negative, and negating 1
   * gives 9.
   */
  lemma NegZero8Misses()
    ensures IsNegative8(8) && S8Value(8) == 8
    ensures !IsNegative8(0x80) && S8Value(0x80) == -128
    ensures S8Value(Negate8(1)) == 9
  {
  }

  /** The 8-bit sign mask that the other widths suggest: bit 7. */
  const SignBit8: bv8 := 0x80

  /** `negate(s8)` with the sign mask at bit 7. */
  function NegateSign8(i: bv8): (r: bv8)
    ensures r & 0x7F == i & 0x7F
    ensures S8Value(r) < 0 <==> 0 <= S8Value(i)
  {
    i ^ SignBit8
  }

  /** `isNegative(s8)` with the sign mask at bit 7. */
  predicate IsNegativeSign8(i: bv8)
  {
    i & SignBit8 != 0
  }

  /** With bit 7, the sign test is exactly "the value is below zero". */
  lemma IsNegativeSign8Exact(i: bv8)
    ensures IsNegativeSign8(i) <==> S8Value(i) < 0
    ensures IsNegativeSign8(NegateSign8(i)) <==> !IsNegativeSign8(i)
    ensures NegateSign8(NegateSign8(i)) == i
  {
  }

  /** `negate(s16)`: flips the sign bit, bit 15. */
  function Negate16(i: bv16): (r: bv16)
    ensures r & 0x7FFF == i & 0x7FFF
    ensures S16Value(r) < 0 <==> 0 <= S16Value(i)
  {
    i ^ NegZero16
  }

  predicate IsNegative16(i: bv16)
  {
    i & NegZero16 != 0
  }

  /** `negate(s32)`: flips the sign bit, bit 31. */
  function Negate32(i: bv32): (r: bv32)
    ensures r & 0x7FFF_FFFF == i & 0x7FFF_FFFF
    ensures S32Value(r) < 0 <==> 0 <= S32Value(i)
  {
    i ^ NegZero32
  }

  predicate IsNegative32(i: bv32)
  {
    i & NegZero32 != 0
  }

  /**
   * For `s16` and `s32`, `isNegative` holds exactly for values below zero
   * and `negate` is an involution that flips it.
   */
  lemma SignedLaws(i: bv16, j: bv32)
    ensures IsNegative16(i) <==> S16Value(i) < 0
    ensures IsNegative32(j) <==> S32Value(j) < 0
    ensures Negate16(Negate16(i)) == i
    ensures Negate32(Negate32(j)) == j
    ensures IsNegative16(Negate16(i)) <==> !IsNegative16(i)
    ensures IsNegative32(Negate32(j)) <==> !IsNegative32(j)
  {
  }

  /**
   * `negate` on `s16` and `s32` is not arithmetic negation: it moves the
   * value by 2^15 (2^31), so 1 becomes -32767 (-2147483647) and -1 becomes
   * 32767 (2147483647).
   */
  lemma NegateIsNotMinus()
    ensures S16Value(Negate16(1)) == -0x7FFF
    ensures S16Value(Negate16(0xFFFF)) == 0x7FFF
    ensures S32Value(Negate32(1)) == -0x7FFF_FFFF
    ensures S32Value(Negate32(0xFFFF_FFFF)) == 0x7FFF_FFFF
  {
  }

  // ---------------------------------------------------------------------
  // Floats
  // ---------------------------------------------------------------------

  function NegateF32(f: F32): (r: F32)
    ensures r.bits & 0x7FFF_FFFF == f.bits & 0x7FFF_FFFF
    ensures r.bits & NegZero32 != 0 <==> f.bits & NegZero32 == 0
  {
    F32(f.bits ^ NegZero32)
  }

  function NegateF64(f: F64): (r: F64)
    ensures r.bits & 0x7FFF_FFFF_FFFF_FFFF == f.bits & 0x7FFF_FFFF_FFFF_FFFF
    ensures r.bits & NegZero64 != 0 <==> f.bits & NegZero64 == 0
  {
    F64(f.bits ^ NegZero64)
  }

  /** `fastAbs(f32)`: clears the sign bit with `~negZero32`. */
  function FastAbs32(f: F32): (r: F32)
    ensures r.bits & 0x7FFF_FFFF == f.bits & 0x7FFF_FFFF
    ensures r.bits & NegZero32 == 0
  {
    F32(f.bits & !NegZero32)
  }

  /** `fastAbsV`: the same as `fastAbs`, taking its argument by value. */
  function FastAbsV32(f: F32): (r: F32)
    ensures r.bits & 0x7FFF_FFFF == f.bits & 0x7FFF_FFFF
    ensures r.bits & NegZero32 == 0
  {
    F32(f.bits & !NegZero32)
  }

  function FastAbs64(f: F64): (r: F64)
    ensures r.bits & 0x7FFF_FFFF_FFFF_FFFF == f.bits & 0x7FFF_FFFF_FFFF_FFFF
    ensures r.bits & NegZero64 == 0
  {
    F64(f.bits & !NegZero64)
  }

  predicate IsNegativeF32(f: F32)
  {
    f.bits & NegZero32 != 0
  }

  predicate IsNegativeF64(f: F64)
  {
    f.bits & NegZero64 != 0
  }

  lemma FloatSignBits32(x: bv32)
    ensures x & !NegZero32 == x & Bithack.NNegZero32
  {
  }

  lemma FloatSignBits64(x: bv64)
    ensures x & !NegZero64 == x & Bithack.NNegZero64
  {
  }

  lemma FastAbsBits32(x: bv32)
    ensures FastAbs32(F32(x)) == F32(x & Bithack.NNegZero32)
    ensures FastAbsV32(F32(x)) == F32(x & Bithack.NNegZero32)
  {
    FloatSignBits32(x);
  }

  lemma FastAbsBits64(x: bv64)
    ensures FastAbs64(F64(x)) == F64(x & Bithack.NNegZero64)
  {
    FloatSignBits64(x);
  }

  /**
   * The float sign tricks are those of the pointer-cast family: sign
   * test, negate, and both `fastAbs` forms as `abs`.
   */
  lemma FloatSignAgrees32(f: F32)
    ensures IsNegativeF32(f) == Bithack.IsNegative32(f)
    ensures NegateF32(f) == Bithack.Negate32(f)
    ensures FastAbs32(f) == Bithack.Abs32(f)
    ensures FastAbsV32(f) == Bithack.Abs32(f)
  {
    Bithack.NegateBits32(f);
    Bithack.AbsBits32(f.bits);
    FastAbsBits32(f.bits);
  }

  lemma FloatSignAgrees64(f: F64)
    ensures IsNegativeF64(f) == Bithack.IsNegative64(f)
    ensures NegateF64(f) == Bithack.Negate64(f)
    ensures FastAbs64(f) == Bithack.Abs64(f)
  {
    Bithack.NegateBits64(f);
    Bithack.AbsBits64(f.bits);
    FastAbsBits64(f.bits);
  }

  // ---------------------------------------------------------------------
  // Square roots
  // ---------------------------------------------------------------------

  const SqrtOneL29: bv32 := 0x2000_0000
  const SqrtOneL22: bv32 := 0x40_0000
  const SqrtMagic: bv32 := 0x1FC0_0000

  /** `sqrt_magic` is `(1 << 29) - (1 << 22)`, which is half of 1.0's pattern. */
  lemma SqrtConstants()
    ensures SqrtOneL29 == 1 << 29 && SqrtOneL22 == 1 << 22
    ensures SqrtMagic == SqrtOneL29 - SqrtOneL22
    ensures SqrtMagic == OneAsInt32 >> 1
    ensures SqrtMagic == Bithack.SqrtMagic32
  {
  }

  /**
   * `u.i >> 1` on an `s32`: an arithmetic shift, which keeps the sign bit
   * and moves every other bit one place down.
   */
  function Ashr1(i: bv32): bv32
  {
    (i >> 1) | (i & NegZero32)
  }

  lemma Ashr1Bits(i: bv32)
    ensures ((i >> 1) | (i & NegZero32)) & NegZero32 == i & NegZero32
    ensures ((i >> 1) | (i & NegZero32)) & 0x7FFF_FFFF == i >> 1
  {
  }

  /** The arithmetic shift keeps the sign bit and shifts the other bits down. */
  lemma Ashr1Fields(i: bv32)
    ensures Ashr1(i) & NegZero32 == i & NegZero32
    ensures Ashr1(i) & 0x7FFF_FFFF == i >> 1
  {
    Ashr1Bits(i);
  }

  /**
   * The `s32` expression of `fastSqrt` never overflows, and the bits the
   * model computes are those of its exact value. With v the value of the
   * union's integer view, `u.i >> 1` is v halved towards minus infinity,
   * which lies in [-2^30, 2^30). So `(1 << 29) + (v >> 1) - (1 << 22)`
   * stays within `s32`, and `fastSqrt_` gives the same value.
   */
  lemma FastSqrtInRange(x: F32)
    ensures -0x8000_0000 <= 0x2000_0000 + S32Value(x.bits) / 2 - 0x40_0000 < 0x8000_0000
    ensures S32Value(FastSqrt(x).bits) == 0x2000_0000 + S32Value(x.bits) / 2 - 0x40_0000
    ensures S32Value(FastSqrtU(x).bits) == 0x2000_0000 + S32Value(x.bits) / 2 - 0x40_0000
  {
    var a := Ashr1(x.bits);
    Ashr1Value(x.bits);
    MagicAddValue(a);
    FastSqrtUForm(x, a);
    ArithmeticPairAgrees(x);
  }

  /** The arithmetic shift halves the `s32` value, rounding towards minus infinity. */
  lemma Ashr1Value(b: bv32)
    ensures S32Value(Ashr1(b)) == S32Value(b) / 2
  {
    var r := Ashr1(b);
    Ashr1Bytes(b);
    SignedHalf8(Byte3(b));
    HalfByte(Byte2(b), Byte3(b));
    HalfByte(Byte1(b), Byte2(b));
    HalfByte(Byte0(b), Byte1(b));
    OddSigned8(Byte3(b));
    HalfAssembly(S8Value(Byte3(b)), Byte2(b) as int, Byte1(b) as int, Byte0(b) as int,
      S8Value(Byte3(r)), Byte2(r) as int, Byte1(r) as int, Byte0(r) as int);
  }

  /** Each byte of `Ashr1(b)` takes its low bit from the byte above. */
  lemma Ashr1Bytes(b: bv32)
    ensures Byte3(Ashr1(b)) == (Byte3(b) >> 1) | (Byte3(b) & 0x80)
    ensures Byte2(Ashr1(b)) == (Byte2(b) >> 1) | ((Byte3(b) & 1) << 7)
    ensures Byte1(Ashr1(b)) == (Byte1(b) >> 1) | ((Byte2(b) & 1) << 7)
    ensures Byte0(Ashr1(b)) == (Byte0(b) >> 1) | ((Byte1(b) & 1) << 7)
  {
  }

  lemma HalfByteBits(y: bv8, z: bv8)
    ensures y >> 1 < 0x80
    ensures (y >> 1) | ((z & 1) << 7) == (y >> 1) + (if z & 1 == 0 then 0 else 0x80)
  {
  }

  lemma HalfValue8(y: bv8)
    ensures (y >> 1) as int == y as int / 2
  {
  }

  lemma OddValue8(z: bv8)
    ensures z & 1 == 0 <==> z as int % 2 == 0
  {
  }

  lemma AddHigh8(w: bv8)
    requires w < 0x80
    ensures (w + 0x80) as int == w as int + 0x80
  {
  }

  /** A byte shifted right, with the low bit of the byte above moved into bit 7. */
  lemma HalfByte(y: bv8, z: bv8)
    ensures ((y >> 1) | ((z & 1) << 7)) as int == y as int / 2 + (z as int % 2) * 0x80
  {
    HalfByteBits(y, z);
    HalfValue8(y);
    OddValue8(z);
    if z & 1 != 0 {
      AddHigh8(y >> 1);
    }
  }

  /** The arithmetic shift of the high byte halves its signed value. */
  lemma SignedHalf8(y: bv8)
    ensures S8Value((y >> 1) | (y & 0x80)) == S8Value(y) / 2
  {
  }

  lemma OddSigned8(y: bv8)
    ensures y as int % 2 == S8Value(y) % 2
  {
  }

  /** Halving four bytes one at a time halves their value. */
  lemma HalfAssembly(s3: int, u2: int, u1: int, u0: int, r3: int, r2: int, r1: int, r0: int)
    requires 0 <= u2 < 0x100 && 0 <= u1 < 0x100 && 0 <= u0 < 0x100
    requires r3 == s3 / 2 && r2 == u2 / 2 + (s3 % 2) * 0x80
    requires r1 == u1 / 2 + (u2 % 2) * 0x80 && r0 == u0 / 2 + (u1 % 2) * 0x80
    ensures Assemble32(r3, r2, r1, r0) == Assemble32(s3, u2, u1, u0) / 2
  {
    assert Assemble32(s3, u2, u1, u0) == 2 * Assemble32(r3, r2, r1, r0) + u0 % 2;
  }

  /**
   * Adding `sqrt_magic` to an `s32` pattern whose value lies in
   * [-2^30, 2^30) adds 0x1FC00000 to the value, without overflow.
   */
  lemma MagicAddValue(a: bv32)
    requires -0x4000_0000 <= S32Value(a) < 0x4000_0000
    ensures S32Value(SqrtMagic + a) == 0x1FC0_0000 + S32Value(a)
  {
    var r := SqrtMagic + a;
    MagicAddBytes(a);
    AddC0(Byte2(a));
    TopByteRange(S8Value(Byte3(a)), Byte2(a) as int, Byte1(a) as int, Byte0(a) as int);
    if Byte2(a) < 0x40 {
      SignedAdd1F(Byte3(a));
    } else {
      SignedAdd20(Byte3(a));
    }
    AddAssembly(S8Value(Byte3(a)), Byte2(a) as int, Byte1(a) as int, Byte0(a) as int,
      S8Value(Byte3(r)), Byte2(r) as int);
  }

  /** `sqrt_magic` is the bytes 1F C0 00 00; the carry out of byte 2 goes to byte 3. */
  lemma MagicAddBytes(a: bv32)
    ensures Byte0(SqrtMagic + a) == Byte0(a)
    ensures Byte1(SqrtMagic + a) == Byte1(a)
    ensures Byte2(SqrtMagic + a) == Byte2(a) + 0xC0
    ensures Byte3(SqrtMagic + a) == Byte3(a) + (if Byte2(a) < 0x40 then 0x1F else 0x20)
  {
  }

  lemma AddC0(y: bv8)
    ensures y < 0x40 ==> (y + 0xC0) as int == y as int + 0xC0
    ensures 0x40 <= y ==> (y + 0xC0) as int == y as int - 0x40
  {
  }

  lemma SignedAdd1F(y: bv8)
    requires -0x40 <= S8Value(y) < 0x40
    ensures S8Value(y + 0x1F) == S8Value(y) + 0x1F
  {
  }

  lemma SignedAdd20(y: bv8)
    requires -0x40 <= S8Value(y) < 0x40
    ensures S8Value(y + 0x20) == S8Value(y) + 0x20
  {
  }

  /** A value in [-2^30, 2^30) has its high byte in [-64, 64). */
  lemma TopByteRange(s3: int, u2: int, u1: int, u0: int)
    requires 0 <= u2 < 0x100 && 0 <= u1 < 0x100 && 0 <= u0 < 0x100
    requires -0x4000_0000 <= Assemble32(s3, u2, u1, u0) < 0x4000_0000
    ensures -0x40 <= s3 < 0x40
  {
  }

  /** Adding 0x1FC00000 byte by byte, with the carry from byte 2. */
  lemma AddAssembly(s3: int, u2: int, u1: int, u0: int, r3: int, r2: int)
    requires 0 <= u2 < 0x100
    requires u2 < 0x40 ==> r2 == u2 + 0xC0 && r3 == s3 + 0x1F
    requires 0x40 <= u2 ==> r2 == u2 - 0x40 && r3 == s3 + 0x20
    ensures Assemble32(r3, r2, u1, u0) == 0x1FC0_0000 + Assemble32(s3, u2, u1, u0)
  {
  }

  /** `fastSqrt`: the `s32` union view, `(1 << 29) + (u.i >> 1) - (1 << 22)`. */
  function FastSqrt(x: F32): F32
  {
    F32(SqrtOneL29 + Ashr1(x.bits) - SqrtOneL22)
  }

  /** `fastSqrt_`: the `s32` union view, `sqrt_magic + (u.i >> 1)`. */
  function FastSqrtU(x: F32): F32
  {
    F32(SqrtMagic + Ashr1(x.bits))
  }

  /** `fastSqrt2`: `(1 << 29) + (asInt(x) >> 1) - (1 << 22)` on `u32`. */
  function FastSqrt2(x: F32): F32
  {
    F32(SqrtOneL29 + (x.bits >> 1) - SqrtOneL22)
  }

  /** `fastSqrt3`: `sqrt_magic + (asInt(x) >> 1)` on `u32`. */
  function FastSqrt3(x: F32): F32
  {
    F32(SqrtMagic + (x.bits >> 1))
  }

  /** `fasterSqrt`: `(asInt(f) + oneAsInt32) >> 1`. */
  function FasterSqrt(f: F32): F32
  {
    F32((f.bits + OneAsInt32) >> 1)
  }

  lemma SqrtResultBits(b: bv32)
    ensures b >> 1 <= SqrtMagic + (b >> 1)
    ensures ((b + OneAsInt32) >> 1) & NegZero32 == 0
  {
  }

  /**
   * The sum in `fastSqrt3` never wraps, and the logical shift makes
   * `fasterSqrt` non-negative on every input.
   */
  lemma SqrtResultBounds(x: F32)
    ensures x.bits >> 1 <= FastSqrt3(x).bits
    ensures !IsNegativeF32(FasterSqrt(x))
  {
    SqrtResultBits(x.bits);
  }

  lemma MagicSplit(a: bv32)
    ensures SqrtOneL29 + a - SqrtOneL22 == SqrtMagic + a
  {
  }

  /**
   * Adding 2^29 and subtracting 2^22 is adding `sqrt_magic`, modulo 2^32:
   * `fastSqrt2` and `fastSqrt3` agree on every input, and so do
   * `fastSqrt` and `fastSqrt_`.
   */
  lemma SqrtPairsAgree(x: F32)
    ensures FastSqrt2(x) == FastSqrt3(x)
    ensures FastSqrt(x) == FastSqrtU(x)
  {
    LogicalPairAgrees(x);
    ArithmeticPairAgrees(x);
  }

  lemma LogicalPairAgrees(x: F32)
    ensures FastSqrt2(x) == FastSqrt3(x)
  {
    var h := x.bits >> 1;
    FastSqrt2Form(x, h);
    FastSqrt3Form(x, h);
    MagicSplit(h);
  }

  lemma ArithmeticPairAgrees(x: F32)
    ensures FastSqrt(x) == FastSqrtU(x)
  {
    var a := Ashr1(x.bits);
    FastSqrtForm(x, a);
    FastSqrtUForm(x, a);
    MagicSplit(a);
  }

  lemma FastSqrtForm(x: F32, a: bv32)
    requires a == Ashr1(x.bits)
    ensures FastSqrt(x) == F32(SqrtOneL29 + a - SqrtOneL22)
  {
  }

  lemma FastSqrtUForm(x: F32, a: bv32)
    requires a == Ashr1(x.bits)
    ensures FastSqrtU(x) == F32(SqrtMagic + a)
  {
  }

  lemma FastSqrt2Form(x: F32, h: bv32)
    requires h == x.bits >> 1
    ensures FastSqrt2(x) == F32(SqrtOneL29 + h - SqrtOneL22)
  {
  }

  lemma FastSqrt3Form(x: F32, h: bv32)
    requires h == x.bits >> 1
    ensures FastSqrt3(x) == F32(SqrtMagic + h)
  {
  }

  lemma FasterSqrtForm(x: F32)
    ensures FasterSqrt(x) == F32((x.bits + OneAsInt32) >> 1)
  {
  }

  lemma ShiftBits(b: bv32)
    requires b & NegZero32 == 0
    ensures (b >> 1) | (b & NegZero32) == b >> 1
  {
  }

  /**
   * On a non-negative input the arithmetic and the logical shift agree
   * and `asInt(f) + oneAsInt32` does not wrap, so all five variants give
   * the same bits.
   */
  lemma SqrtVariantsAgree(x: F32)
    requires !IsNegativeF32(x)
    ensures FastSqrt(x) == FastSqrt3(x)
    ensures FastSqrtU(x) == FastSqrt3(x)
    ensures FastSqrt2(x) == FastSqrt3(x)
    ensures FasterSqrt(x) == FastSqrt3(x)
  {
    SqrtPairsAgree(x);
    ShiftsAgree(x);
    NoWrapAgrees(x);
  }

  lemma ShiftsAgree(x: F32)
    requires !IsNegativeF32(x)
    ensures FastSqrtU(x) == FastSqrt3(x)
  {
    var h := x.bits >> 1;
    Ashr1OfNonNegative(x.bits);
    FastSqrtUForm(x, h);
    FastSqrt3Form(x, h);
  }

  lemma Ashr1OfNonNegative(b: bv32)
    requires b & NegZero32 == 0
    ensures Ashr1(b) == b >> 1
  {
    ShiftBits(b);
  }

  lemma NoWrapAgrees(x: F32)
    requires !IsNegativeF32(x)
    ensures FasterSqrt(x) == FastSqrt3(x)
  {
    SqrtAgreesWithBithack(x);
    Bithack.SqrtNoOverflow32(x);
    Bithack.SqrtBAgrees(x);
  }

  /**
   * `fasterSqrt` is the pointer-cast `sqrt`, and `fastSqrt3` is the
   * pointer-cast `sqrt_b`, on every input.
   */
  lemma SqrtAgreesWithBithack(x: F32)
    ensures FasterSqrt(x) == Bithack.Sqrt32(x)
    ensures FastSqrt3(x) == Bithack.SqrtB32(x)
  {
    Bithack.SqrtBits(x.bits);
  }

  /** `fasterSqrt` on 1.0, 9.0 and 10000.0: 1.0, 3.125 and 103.0625. */
  lemma FasterSqrtValues()
    ensures FasterSqrt(F32(0x3F80_0000)) == F32(0x3F80_0000)
    ensures FasterSqrt(F32(0x4110_0000)) == F32(0x4048_0000)
    ensures FasterSqrt(F32(0x461C_4000)) == F32(0x42CE_2000)
  {
  }
}
