# FloatingNumber bit-level core in Dafny

FloatingNumber is a small C++ toolkit of fast, approximate floating-point
routines. Most of them work by reading an IEEE 754 float as an unsigned
integer and then doing integer arithmetic on its bits. This project models
the integer half of that toolkit:

- the bit-view types `BitDouble` (binary64) and `explicitFloat` (binary32), with
  their field accessors, setters, classification predicates, bitwise and shift
  operators, and '0'/'1' renderings;
- the three families of bit tricks: pointer casts (`bithack`), unions (`_union`)
  and the free functions of `trickFunctions.h`. These cover the sign test,
  negate, abs, the square-root variants and the integer step of the inverse
  square root;
- the integer helpers `sign`, `abs`, `clamp`, `min`, `max`, the single-bit
  operations on `u8` and `u64`, and `log2i`;
- the xorshift64 `RandomGenerator`;
- `getStats` for the `u32` element type.

A float is held as its bit pattern (`F32(bits: bv32)`, `F64(bits: bv64)`), so
`asInt` and `asFloat` are field access and construction. Field layouts and
constants are those of IEEE 754-2008 section 3.4 with the parameters of
table 3.5: binary32 has w = 8, t = 23 and bias 127; binary64 has w = 11,
t = 52 and bias 1023. Unsigned C++ arithmetic is Dafny bit-vector
arithmetic, which wraps the same way. Where the source does arithmetic that
is not bitwise (modulo, division, sums), the values are bounded integers
(`U16`, `U32`, `U64`) and the narrowing is written out as a remainder.

State that the source updates in place is a class:

- `BitDouble` and `ExplicitFloat` keep one `data` word;
- `RandomGenerator` keeps its `seed`.

The reference-taking bit operations of `baseFunctions.h` are methods that
return the new number. `getStats` is a method whose loop carries the running
sums as invariants. Everything else is functions and lemmas.

Modules, one per header: `BaseType` (base_type.dfy), `DoubleType`,
`FloatType`, `Bithack`, `UnionFns`, `Tricks`, `BaseFunctions` and `BaseLog`
(both in base_functions.dfy), `Rng` and `Stats`.

## Model

| member | source | states |
|---|---|---|
| BaseType.S8Value | include/baseType.h:21 | the two's-complement value of an `s8` pattern lies in [-128, 127] and is negative exactly when bit 7 is set |
| BaseType.S16Value | include/baseType.h:19 | the value of an `s16` pattern lies in [-32768, 32767] and is negative exactly when bit 15 is set |
| BaseType.S32Value | include/baseType.h:17 | the two's-complement value of an `s32` pattern, assembled from its signed high byte and three unsigned low bytes, lies in [-2^31, 2^31) and is negative exactly when bit 31 is set |
| BaseType.BitChars | include/DoubleType.h:617-624 | a rendering of n bits from bit hi down has n characters, each '0' or '1', and character i is '1' exactly when `(x & mask) == mask` for bit hi - i |
| BaseType.BitCharsStep | include/DoubleType.h:619-622 | one loop iteration appends the character of the next lower bit to the rendering built so far |
| BaseType.BitChars32 | include/FloatType.h:74-81 | the same rendering for a 32-bit word with 32-bit masks |
| BaseType.BitChars32Split | include/FloatType.h:103-110 | a 32-bit rendering is the concatenation of the renderings of consecutive bit ranges |
| DoubleType.LayoutConstants | include/DoubleType.h:18-29 | the bias is `(1 << 10) - 1`, the `not*` masks are complements, `fullExpo` and `implicitBit` are derived as in the source, and the three field masks are disjoint and cover the word |
| DoubleType.ExponentRawOf | include/DoubleType.h:612 | the biased exponent field is at most 0x7FF |
| DoubleType.ExponentOf | include/DoubleType.h:629 | the unbiased exponent plus 1023 is the raw field, and its `s16` value lies in [-1023, 1024] |
| DoubleType.MantissaRawOf | include/DoubleType.h:646 | the mantissa field is below 2^52 |
| DoubleType.MantissaOf | include/DoubleType.h:663 | the mantissa with its implicit bit lies in [2^52, 2^53) and keeps the low 52 bits of the word |
| DoubleType.FieldsDetermineWord | include/DoubleType.h:596-646 | two words with equal sign, exponent and mantissa fields are equal |
| DoubleType.WithSign | include/DoubleType.h:601 | `setSign(s)` on a word makes the sign bit `s` and keeps the exponent and mantissa bits |
| DoubleType.Toggled | include/DoubleType.h:605 | `toggleSign` inverts the sign bit and keeps the exponent and mantissa bits |
| DoubleType.WithExponentRaw | include/DoubleType.h:634 | `setExponentRaw(e)` puts the low 11 bits of e in the exponent field and keeps sign and mantissa bits |
| DoubleType.WithExponent | include/DoubleType.h:639 | `setExponent` keeps the sign and mantissa bits |
| DoubleType.WithMantissaRaw | include/DoubleType.h:668 | `setMantissaRaw(m)` puts the low 52 bits of m in the mantissa field and keeps sign and exponent bits |
| DoubleType.WithSignFields | include/DoubleType.h:596-601 | after `setSign(s)`, `sign()` is s and `exponentRaw()`, `mantissaRaw()` are unchanged |
| DoubleType.ToggledFields | include/DoubleType.h:605 | after `toggleSign`, `sign()` is negated and the other two fields are unchanged |
| DoubleType.ToggledTwice | include/DoubleType.h:605 | toggling the sign twice restores the word |
| DoubleType.WithExponentRawFields | include/DoubleType.h:634 | after `setExponentRaw(e)`, `exponentRaw()` is `e & 0x7FF`, and sign and mantissa are unchanged |
| DoubleType.S16Range | include/DoubleType.h:629-639 | an `s16` exponent lies in [-1023, 1024] exactly when adding the bias fits 11 bits |
| DoubleType.WithExponentFields | include/DoubleType.h:639 | when e + 1023 fits 11 bits, `setExponent(e)` stores e + 1023 in the exponent field and keeps sign and mantissa |
| DoubleType.ExponentRoundTrip | include/DoubleType.h:629-639 | for every e in [-1023, 1024], `exponent()` after `setExponent(e)` is e |
| DoubleType.WithMantissaRawFields | include/DoubleType.h:668 | after `setMantissaRaw(m)`, `mantissaRaw()` is `m & mantMask`, and sign and exponent are unchanged |
| DoubleType.RewriteSignIsIdentity | include/DoubleType.h:596-601 | setting the current sign leaves the word unchanged |
| DoubleType.RewriteExponentRawIsIdentity | include/DoubleType.h:612-634 | setting the current raw exponent leaves the word unchanged |
| DoubleType.RewriteExponentIsIdentity | include/DoubleType.h:629-639 | setting the current unbiased exponent leaves the word unchanged |
| DoubleType.RewriteMantissaIsIdentity | include/DoubleType.h:646-668 | setting the current mantissa leaves the word unchanged |
| DoubleType.Classification | include/DoubleType.h:721-744 | infinite and NaN are the all-ones exponent with zero and non-zero mantissa, never both, each implies denormalized, and normalized means exponent in 1..2046 or a zero |
| DoubleType.SignBitChars | include/DoubleType.h:676 | the one-bit rendering of `sign()` is bit 63 of the word |
| DoubleType.ExponentBitChars | include/DoubleType.h:676 | the 11-bit rendering of `exponentRaw()` is bits 62..52 of the word |
| DoubleType.MantissaBitChars | include/DoubleType.h:676 | the 52-bit rendering of `mantissaRaw()` is bits 51..0 of the word |
| DoubleType.RawBitsOf | include/DoubleType.h:674-678 | `rawBits` has 70 characters and is "[" sign "][" bits 62..52 "][" bits 51..0 "]" |
| DoubleType.ComplementLaws | include/DoubleType.h:582-586 | `f & ~f` is 0, and `f \| ~f` and `f ^ ~f` are all ones |
| DoubleType.BitDouble.constructor | include/DoubleType.h:46 | default construction holds the all-zero word |
| DoubleType.BitDouble.FromFloat | include/DoubleType.h:59-60 | construction from a double keeps its bit pattern |
| DoubleType.BitDouble.FromBits | include/DoubleType.h:71 | construction from a `u64` stores it unchanged |
| DoubleType.BitDouble.Copy | include/DoubleType.h:50 | copy construction copies the word |
| DoubleType.BitDouble.Assign | include/DoubleType.h:82 | assignment copies the other word |
| DoubleType.BitDouble.AssignFloat | include/DoubleType.h:94-97 | assigning a double stores its bit pattern |
| DoubleType.BitDouble.AssignBits | include/DoubleType.h:112-115 | assigning a `u64` stores it unchanged |
| DoubleType.BitDouble.ShlAssign | include/DoubleType.h:407-410 | `<<= k` with k < 64 shifts the word left |
| DoubleType.BitDouble.ShlAssignBy | include/DoubleType.h:398-401 | `<<=` by a `BitDouble` shifts by its bits |
| DoubleType.BitDouble.Shl | include/DoubleType.h:425-428 | `<< k` returns a new object holding the shifted word |
| DoubleType.BitDouble.ShlBy | include/DoubleType.h:416-419 | `<<` by a `BitDouble` returns the shifted copy |
| DoubleType.BitDouble.ShrAssign | include/DoubleType.h:444-447 | `>>= k` with k < 64 shifts the word right, logically |
| DoubleType.BitDouble.ShrAssignBy | include/DoubleType.h:434-437 | `>>=` by a `BitDouble` shifts by its bits |
| DoubleType.BitDouble.Shr | include/DoubleType.h:462-465 | `>> k` returns the shifted copy |
| DoubleType.BitDouble.ShrBy | include/DoubleType.h:453-456 | `>>` by a `BitDouble` returns the shifted copy |
| DoubleType.BitDouble.AndAssign | include/DoubleType.h:483-486 | `&=` ands the word with the operand |
| DoubleType.BitDouble.AndAssignBy | include/DoubleType.h:474-477 | `&=` by a `BitDouble` ands with its bits |
| DoubleType.BitDouble.And | include/DoubleType.h:501-504 | `&` returns a new object holding the conjunction |
| DoubleType.BitDouble.AndBy | include/DoubleType.h:492-495 | `&` by a `BitDouble` returns the conjunction |
| DoubleType.BitDouble.OrAssign | include/DoubleType.h:519-522 | `\|=` ors the word with the operand |
| DoubleType.BitDouble.OrAssignBy | include/DoubleType.h:510-513 | `\|=` by a `BitDouble` ors with its bits |
| DoubleType.BitDouble.Or | include/DoubleType.h:537-540 | `\|` returns a new object holding the disjunction |
| DoubleType.BitDouble.OrBy | include/DoubleType.h:528-531 | `\|` by a `BitDouble` returns the disjunction |
| DoubleType.BitDouble.XorAssign | include/DoubleType.h:555-558 | `^=` xors the word with the operand |
| DoubleType.BitDouble.XorAssignBy | include/DoubleType.h:546-549 | `^=` by a `BitDouble` xors with its bits |
| DoubleType.BitDouble.Xor | include/DoubleType.h:573-576 | `^` returns a new object holding the exclusive or |
| DoubleType.BitDouble.XorBy | include/DoubleType.h:564-567 | `^` by a `BitDouble` returns the exclusive or |
| DoubleType.BitDouble.Not | include/DoubleType.h:582-586 | `~` returns a new object holding the complemented word |
| DoubleType.BitDouble.Negated | include/DoubleType.h:271-275 | unary minus returns a new object with the sign toggled, exponent and mantissa unchanged; the receiver is untouched |
| DoubleType.BitDouble.SetSign | include/DoubleType.h:601 | `setSign(s)` updates the word so that `sign()` is s, with exponent and mantissa unchanged |
| DoubleType.BitDouble.ToggleSign | include/DoubleType.h:605 | `toggleSign` inverts `sign()` and leaves exponent and mantissa unchanged |
| DoubleType.BitDouble.ExponentRawBits | include/DoubleType.h:617-624 | the loop returns the 11 characters of bits 62..52, the same as characters 4..14 of `rawBits()` |
| DoubleType.BitDouble.SetExponentRaw | include/DoubleType.h:634 | `setExponentRaw(e)` makes `exponentRaw()` equal to `e & 0x7FF`, sign and mantissa unchanged |
| DoubleType.BitDouble.SetExponent | include/DoubleType.h:639 | `setExponent(e)` gives `exponent() == e` for e in [-1023, 1024] and never changes sign or mantissa bits |
| DoubleType.BitDouble.MantissaRawBits | include/DoubleType.h:651-658 | the loop returns the 52 characters of bits 51..0, the same as characters 17..68 of `rawBits()` |
| DoubleType.BitDouble.SetMantissaRaw | include/DoubleType.h:668 | `setMantissaRaw(m)` makes `mantissaRaw()` equal to `m & mantMask`, sign and exponent unchanged |
| DoubleType.FieldExamples | test/UnitTests/test_double.cpp:34-54 | -1789.523 has sign set, raw exponent 0b10000001001, exponent 10, and the expected mantissa values |
| DoubleType.UpdateExamples | test/UnitTests/test_double.cpp:45-58 | `setExponent(11)` on -1789.523 gives the bits of -3579.046, and the `setMantissaRaw` of the unit test gives the bits of -(1789.523 + 0.125) |
| DoubleType.ShiftExamples | test/UnitTests/test_double.cpp:132-133 | -1789.523 shifted left and right by 3 gives the two expected integers |
| DoubleType.RenderExample | test/UnitTests/test_double.cpp:98 | the exponent rendering of -1789.523 is "10000001001" |
| DoubleType.RenderOneExample | test/UnitTests/test_double.cpp:102 | the exponent rendering of 1.0 is "01111111111" |
| DoubleType.RenderPowerExample | test/UnitTests/test_double.cpp:106 | the exponent rendering of 512.0 is "10000001000" |
| DoubleType.ClassifyExamples | test/UnitTests/test_double.cpp:62-81 | the expected classifications of -1789.523, zero, infinity, a NaN and a subnormal |
| DoubleType.ManipulateExample | test/UnitTests/test_double.cpp:34-49 | the sequence of sign and exponent updates on one object yields signs true then false, exponents 10 then 11, and the doubled word |
| FloatType.LayoutConstants | include/FloatType.h:14-19 | the masks are disjoint and cover the word, `NotSign` is the complement of `signMask`, and 1.0f has exponent field 127 and a zero mantissa |
| FloatType.ExponentOf | include/FloatType.h:82 | `exponent()` plus 127 is `exponentRaw()`; raw 0..254 gives -127..127 and raw 255 wraps to -128 |
| FloatType.MantissaRawOf | include/FloatType.h:83 | `mantissaRaw()` is at most the mantissa mask |
| FloatType.ExponentInPlace | include/FloatType.h:73 | `exponentRaw()` shifted back by 23 is the word under the exponent mask |
| FloatType.Reassemble | include/FloatType.h:72-83 | sign bit, exponent field and mantissa field put back in place give the whole word |
| FloatType.Classification | include/FloatType.h:112-117 | normalized means exponent field in 1..254; zero counts as denormalized |
| FloatType.BitsLayout | include/FloatType.h:103-110 | `bits()` is the sign character, then the 8 exponent characters, then the 23 mantissa characters |
| FloatType.ExplicitFloat.constructor | include/FloatType.h:30 | default construction holds the all-zero word |
| FloatType.ExplicitFloat.FromFloat | include/FloatType.h:33-34 | construction from a float keeps its bit pattern |
| FloatType.ExplicitFloat.FromBits | include/FloatType.h:37 | construction from a `u32` stores it, and `asUInt()` returns it |
| FloatType.ExplicitFloat.Copy | include/FloatType.h:31 | copy construction copies the word |
| FloatType.ExplicitFloat.Assign | include/FloatType.h:39 | assignment copies the other word |
| FloatType.ExplicitFloat.AssignFloat | include/FloatType.h:41-44 | assigning a float stores its bit pattern |
| FloatType.ExplicitFloat.AssignBits | include/FloatType.h:49-52 | assigning a `u32` stores it, and `asUInt()` returns it |
| FloatType.ExplicitFloat.ExponentRawBits | include/FloatType.h:74-81 | the loop returns 8 characters, character i being bit 30 - i |
| FloatType.ExplicitFloat.MantissaRawBits | include/FloatType.h:84-91 | the loop returns 23 characters, character i being bit 22 - i |
| FloatType.ExplicitFloat.Bits | include/FloatType.h:103-110 | the loop returns 32 characters, character i being bit 31 - i |
| FloatType.ExplicitFloatExamples | include/FloatType.h:72-116 | -1789.523f has sign set, raw exponent 0x89, exponent 10, exponent rendering "10001001", and is normalized; +infinity is denormalized |
| FloatType.RenderOne | include/FloatType.h:74-81 | an object built from 1.0f's bits renders its exponent as "01111111" |
| FloatType.RenderOneBits | include/FloatType.h:103-110 | an object built from 1.0f's bits renders all 32 bits as "00111111100000000000000000000000" |
| Bithack.MagicConstants | include/bithack_Functions.h:22-33 | `oneAsInt32` and `oneAsInt64` have exponent field equal to the bias and zero mantissa; the `nnegZero` masks are the complements of the `negZero` masks |
| Bithack.AsInt32 | include/bithack_Functions.h:41 | `asFloat(asInt(f)) == f` for binary32 |
| Bithack.AsInt64 | include/bithack_Functions.h:47 | `asFloat(asInt(f)) == f` for binary64 |
| Bithack.AsFloat32 | include/bithack_Functions.h:53 | `asInt(asFloat(i)) == i` for 32 bits |
| Bithack.AsFloat64 | include/bithack_Functions.h:59 | `asInt(asFloat(i)) == i` for 64 bits |
| Bithack.Negate32 | include/bithack_Functions.h:81 | `negate` inverts the sign bit and keeps the other 31 bits |
| Bithack.Negate64 | include/bithack_Functions.h:87 | `negate` inverts the sign bit and keeps the other 63 bits |
| Bithack.Abs32 | include/bithack_Functions.h:95 | `abs` clears the sign bit and keeps the other 31 bits |
| Bithack.Abs64 | include/bithack_Functions.h:101 | `abs` clears the sign bit and keeps the other 63 bits |
| Bithack.NegateLaws32 | include/bithack_Functions.h:67-81 | `isNegative(negate(f)) == !isNegative(f)`, and `negate` is an involution |
| Bithack.NegateLaws64 | include/bithack_Functions.h:73-87 | the same at 64 bits |
| Bithack.AbsLaws32 | include/bithack_Functions.h:95 | `abs` is never negative, is idempotent, and keeps a non-negative float |
| Bithack.AbsLaws64 | include/bithack_Functions.h:101 | the same at 64 bits |
| Bithack.AbsOfNegate32 | include/bithack_Functions.h:81-95 | `abs(negate(f)) == abs(f)` |
| Bithack.AbsOfNegate64 | include/bithack_Functions.h:87-101 | `abs(negate(f)) == abs(f)` at 64 bits |
| Bithack.SqrtMagicIsHalfOne | include/bithack_Functions.h:199-201 | `sqrt_magic` is `(1 << 29) - (1 << 22)` = 0x1FC00000, which is `oneAsInt32 >> 1` and half of `oneAsInt32` |
| Bithack.Sqrt32 | include/bithack_Functions.h:185 | `sqrt` is never negative, because of the logical shift |
| Bithack.Sqrt64 | include/bithack_Functions.h:192 | the 64-bit `sqrt` is never negative |
| Bithack.SqrtB32 | include/bithack_Functions.h:199-202 | the sum in `sqrt_b` does not wrap: the result is at least half the input pattern |
| Bithack.SqrtOfOne | include/bithack_Functions.h:185-202 | `sqrt(1.0)` is exactly 1.0 at both widths, and so is `sqrt_b(1.0)` |
| Bithack.SqrtNoOverflow32 | include/bithack_Functions.h:185 | for a sign-clear input, `asInt(f) + oneAsInt32` does not wrap |
| Bithack.SqrtBNonNegative | include/bithack_Functions.h:199-202 | for a sign-clear input, `sqrt_b` has its sign bit clear |
| Bithack.SqrtNoOverflow64 | include/bithack_Functions.h:192 | for a sign-clear input, `asInt(g) + oneAsInt64` does not wrap |
| Bithack.SqrtBAgrees | include/bithack_Functions.h:185-202 | `sqrt_b(x)` and `sqrt(x)` give the same bits whenever `asInt(x) + oneAsInt32` does not wrap |
| UnionFns.ConstantsAgree | include/union_Functions.h:21-32 | the union family's constants are the pointer-cast family's, and the `nneg` masks are complements |
| UnionFns.OfFloat32 | include/union_Functions.h:35 | a union initialised with a float reads that float back through its float view |
| UnionFns.OfFloat64 | include/union_Functions.h:36 | the same for the 64-bit union |
| UnionFns.Negate32 | include/union_Functions.h:60 | `r.i ^= negZero32` inverts the sign bit and keeps the others |
| UnionFns.Negate64 | include/union_Functions.h:66 | the same at 64 bits |
| UnionFns.Abs32 | include/union_Functions.h:74 | `r.i &= nnegZero32` clears the sign bit and keeps the others |
| UnionFns.Abs64 | include/union_Functions.h:80 | the same at 64 bits |
| UnionFns.NegateLaws32 | include/union_Functions.h:46-60 | `negate` flips `isNegative` and is an involution |
| UnionFns.NegateLaws64 | include/union_Functions.h:52-66 | the same at 64 bits |
| UnionFns.AbsLaws32 | include/union_Functions.h:74 | `abs` is never negative and is idempotent |
| UnionFns.AbsLaws64 | include/union_Functions.h:80 | the same at 64 bits |
| UnionFns.Sqrt32 | include/union_Functions.h:165-167 | `sqrt` is never negative |
| UnionFns.Sqrt64 | include/union_Functions.h:173-175 | the 64-bit `sqrt` is never negative |
| UnionFns.SqrtB32 | include/union_Functions.h:182-187 | `sqrt_b` is at least half the input pattern: the sum does not wrap |
| UnionFns.SqrtOfOne | include/union_Functions.h:165-175 | `sqrt(1.0)` is exactly 1.0 at both widths |
| UnionFns.AgreesWithBithack32 | include/union_Functions.h:46-74 | the union `isNegative`, `negate` and `abs` give the pointer-cast results at 32 bits |
| UnionFns.AgreesWithBithack64 | include/union_Functions.h:52-80 | the same at 64 bits |
| UnionFns.SqrtAgreesWithBithack | include/union_Functions.h:165-187 | the union `sqrt` (both widths) and `sqrt_b` give the pointer-cast results |
| UnionFns.RsqrtEstimate | include/union_Functions.h:192 | the estimate plus half the input pattern is 0x5F3759DF |
| UnionFns.RsqrtEstimateNonNegative | include/union_Functions.h:192 | for a sign-clear input the subtraction does not underflow and the estimate has its sign bit clear |
| UnionFns.RsqrtEstimateOfOne | include/union_Functions.h:189-192 | the estimate for 1.0 is 0x3F7759DF |
| Tricks.Negate8 | include/trickFunctions.h:32 | `negate(s8)` flips bit 3 and keeps every other bit |
| Tricks.NegZero8Misses | include/trickFunctions.h:20 | with the mask 0x8, 8 is reported negative, -128 is not, and negating 1 gives 9 |
| Tricks.NegateSign8 | include/trickFunctions.h:32 | with the mask at bit 7, `negate` keeps the low 7 bits and changes the sign of the value |
| Tricks.IsNegativeSign8Exact | include/trickFunctions.h:44 | with the mask at bit 7, `isNegative` holds exactly for values below 0, and `negate` flips it and is an involution |
| Tricks.Negate16 | include/trickFunctions.h:33 | `negate(s16)` keeps the low 15 bits and changes the sign of the value |
| Tricks.Negate32 | include/trickFunctions.h:34 | `negate(s32)` keeps the low 31 bits and changes the sign of the value |
| Tricks.SignedLaws | include/trickFunctions.h:45-46 | for `s16` and `s32`, `isNegative` holds exactly below 0, and `negate` is an involution that flips it |
| Tricks.NegateIsNotMinus | include/trickFunctions.h:33-34 | `negate` is not arithmetic negation: 1 becomes -32767 (-2147483647) and -1 becomes 32767 (2147483647) |
| Tricks.NegateF32 | include/trickFunctions.h:35 | `negate(f32)` inverts the sign bit and keeps the others |
| Tricks.NegateF64 | include/trickFunctions.h:36 | `negate(f64)` inverts the sign bit and keeps the others |
| Tricks.FastAbs32 | include/trickFunctions.h:39 | `fastAbs(f32)` clears the sign bit and keeps the others |
| Tricks.FastAbsV32 | include/trickFunctions.h:40 | `fastAbsV` clears the sign bit and keeps the others |
| Tricks.FastAbs64 | include/trickFunctions.h:41 | `fastAbs(f64)` clears the sign bit and keeps the others |
| Tricks.FloatSignAgrees32 | include/trickFunctions.h:35-47 | the f32 `isNegative`, `negate`, `fastAbs` and `fastAbsV` give the pointer-cast `isNegative`, `negate` and `abs` results |
| Tricks.FloatSignAgrees64 | include/trickFunctions.h:36-48 | the same at 64 bits |
| Tricks.SqrtConstants | include/trickFunctions.h:59-61 | `sqrt_magic` is `(1 << 29) - (1 << 22)` = `oneAsInt32 >> 1`, the pointer-cast family's constant |
| Tricks.Ashr1Fields | include/trickFunctions.h:68 | `u.i >> 1` on an `s32` keeps the sign bit and shifts the other bits down |
| Tricks.Ashr1Value | include/trickFunctions.h:68 | the `s32` value of `u.i >> 1` is the value of `u.i` halved, rounding towards minus infinity |
| Tricks.MagicAddValue | include/trickFunctions.h:73 | adding `sqrt_magic` to an `s32` whose value lies in [-2^30, 2^30) adds 0x1FC00000 to its value, with no wrap |
| Tricks.FastSqrtInRange | include/trickFunctions.h:62-75 | for every input with `s32` view v, `(1 << 29) + (v >> 1) - (1 << 22)` lies within `s32`, and the bits `fastSqrt` and `fastSqrt_` produce have exactly that value |
| Tricks.SqrtResultBounds | include/trickFunctions.h:77-78 | the sum in `fastSqrt3` never wraps, and `fasterSqrt` is never negative |
| Tricks.SqrtPairsAgree | include/trickFunctions.h:62-77 | `fastSqrt2` and `fastSqrt3` agree on every input, and so do `fastSqrt` and `fastSqrt_` |
| Tricks.SqrtVariantsAgree | include/trickFunctions.h:62-78 | on a sign-clear input all five square-root variants give the same bits |
| Tricks.SqrtAgreesWithBithack | include/trickFunctions.h:77-78 | `fasterSqrt` is the pointer-cast `sqrt` and `fastSqrt3` is `sqrt_b`, on every input |
| Tricks.FasterSqrtValues | test/UnitTests/test_tricks.cpp:50-73 | `fasterSqrt` maps 1.0, 9.0 and 10000.0 to 1.0, 3.125 and 103.0625 |
| BaseFunctions.Sign | include/baseFunctions.h:11 | `sign` is -1, 0 or 1 exactly as x is negative, zero or positive |
| BaseFunctions.Abs | include/baseFunctions.h:15 | `abs` is non-negative, equals x or -x and has the same square; the most negative `s64` is excluded |
| BaseFunctions.Clamp | include/baseFunctions.h:19 | with a <= b the result lies in [a, b], it is x inside the range, a below it and b above it |
| BaseFunctions.Min | include/baseFunctions.h:23-28 | `min` returns one of its arguments and is at most both |
| BaseFunctions.Max | include/baseFunctions.h:31-36 | `max` returns one of its arguments and is at least both |
| BaseFunctions.MinMaxPair | include/baseFunctions.h:23-36 | `min` and `max` sum to a + b and coincide exactly when a == b |
| BaseFunctions.BitSet64 | include/baseFunctions.h:45 | `bitSet(u64)` makes `bitGet` true and keeps every other bit |
| BaseFunctions.BitDefine64 | include/baseFunctions.h:46 | `bitDefine(u64)` makes `bitGet` equal to the value and keeps every other bit |
| BaseFunctions.BitClear64 | include/baseFunctions.h:47 | `bitClear(u64)` makes `bitGet` false and keeps every other bit |
| BaseFunctions.BitToggle64 | include/baseFunctions.h:48 | `bitToggle(u64)` inverts `bitGet` and keeps every other bit |
| BaseFunctions.ToggleTwice64 | include/baseFunctions.h:48 | toggling the same bit twice restores the number |
| BaseFunctions.Mask8 | include/baseFunctions.h:40 | the 64-bit mask narrowed to `u8` is 0 for a count of 8 or more |
| BaseFunctions.BitAndRestDetermine8 | include/baseFunctions.h:44 | for a count below 8, a `u8` is determined by `bitGet` and the bits outside the mask |
| BaseFunctions.BitSet8 | include/baseFunctions.h:40 | `bitSet(u8)` makes `bitGet` true for counts below 8 and keeps every other bit |
| BaseFunctions.BitDefine8 | include/baseFunctions.h:41 | `bitDefine(u8)` makes `bitGet` equal to the value for counts below 8 and keeps every other bit |
| BaseFunctions.BitClear8 | include/baseFunctions.h:42 | `bitClear(u8)` makes `bitGet` false and keeps every other bit |
| BaseFunctions.BitToggle8 | include/baseFunctions.h:43 | `bitToggle(u8)` inverts `bitGet` for counts below 8 and keeps every other bit |
| BaseLog.BitLengthBounds | include/baseFunctions.h:58 | a positive x with r significant bits satisfies 2^(r-1) <= x < 2^r |
| BaseLog.Clz | include/baseFunctions.h:58 | `__builtin_clz` of a non-zero `u32` is n < 32 with 2^(31-n) <= x < 2^(32-n) |
| BaseLog.Log2i | include/baseFunctions.h:52-60 | for x != 0, `log2i(x)` is r in 1..32 with 2^(r-1) <= x < 2^r |
| BaseLog.Log2iUnique | include/baseFunctions.h:58 | any r with 2^(r-1) <= x < 2^r is `log2i(x)` |
| BaseLog.Log2iValues | include/baseFunctions.h:58 | `log2i` of 1, 2, 3, 8 and 2^31 is 1, 2, 2, 4 and 32 |
| Rng.XorshiftZero | include/rng.h:37-45 | seed 0 is a fixed point of `rand()`, and a non-zero seed never becomes 0 |
| Rng.XorshiftOfOne | include/rng.h:40-44 | one step from seed 1 gives 0x40822041 |
| Rng.BoundedU64 | include/rng.h:25 | `rand() % bound` is below the bound |
| Rng.BoundedU32 | include/rng.h:26 | the `u32` remainder is below the bound |
| Rng.BoundedU16 | include/rng.h:27 | the `u16` remainder is below the bound |
| Rng.RangedU64 | include/rng.h:28 | `a + getRandomU64(b - a + 1)` lies in [a, b] when a <= b and the span does not wrap to 0 |
| Rng.RangedU32 | include/rng.h:29 | the same for `u32` |
| Rng.RangedU16 | include/rng.h:30 | the same for `u16` |
| Rng.SpanZero | include/rng.h:28 | for a <= b, the `u64` span wraps to 0 only for the whole range 0..2^64-1 |
| Rng.RandomGenerator.constructor | include/rng.h:18-24 | a non-zero seed is stored unchanged; seed 0 stores the clock reading |
| Rng.RandomGenerator.Rand | include/rng.h:37-45 | `rand()` sets the seed to the 13/7/17 xorshift of the old seed and returns it |
| Rng.RandomGenerator.GetRandomU64 | include/rng.h:25 | one `rand()` step, and the result is the new seed modulo the bound |
| Rng.RandomGenerator.GetRandomU32 | include/rng.h:26 | the same for `u32` |
| Rng.RandomGenerator.GetRandomU16 | include/rng.h:27 | the same for `u16` |
| Rng.RandomGenerator.GetRandomU64Range | include/rng.h:28 | one `rand()` step, and the result is the ranged value of the new seed |
| Rng.RandomGenerator.GetRandomU32Range | include/rng.h:29 | the same for `u32` |
| Rng.RandomGenerator.GetRandomU16Range | include/rng.h:30 | the same for `u16` |
| Stats.WrapAdd | include/stdComputeStats.h:42-43 | adding to a value already narrowed to `u32` narrows the exact sum |
| Stats.AccumulateStep | include/stdComputeStats.h:41-44 | one loop step keeps `sum` and `squareSum` equal to the narrowed exact sums of the prefix |
| Stats.MinElement | include/stdComputeStats.h:47 | `min_element` returns the index of the first element that is at most every element |
| Stats.MaxElement | include/stdComputeStats.h:48 | `max_element` returns the index of the first element that is at least every element |
| Stats.GetStats | include/stdComputeStats.h:36-48 | `sum` and `squareSum` are the exact sums modulo 2^32, `mean` is `sum / size`, the square-root argument is `squareSum / size - mean * mean` in `u32` arithmetic, and `min`/`max` are elements bounding all the others |
| Stats.TotalConstant | include/stdComputeStats.h:41-42 | the sum of n copies of c is n * c |
| Stats.SquareTotalConstant | include/stdComputeStats.h:41-43 | the sum of squares of n copies of c is n * c * c |
| Stats.SameElementsMean | include/stdComputeStats.h:45 | for n copies of c with n * c < 2^32, the sum is n * c and the mean is c |
| Stats.ZeroRadicand | include/stdComputeStats.h:46 | with sum of squares n * c * c and mean c, the argument of the square root is 0 |
| Stats.SameElements | include/stdComputeStats.h:41-46 | for n copies of c whose sums fit `u32`, the sum is n * c, the mean c and the square-root argument 0 |
| Stats.EightTwentyThrees | test/UnitTests/test_stats.cpp:24-30 | eight 23s give sum 184, sum of squares 4232, mean 23 and a square-root argument of 0 |

## Left out

- Floating-point arithmetic is not modelled. This covers `log2`, `exp2`, `pow` and `sqrt_pow` in all three families, `log2_inf1`, `explicitFloat::log2/log2a/exp2`, `mantissaEval`, `sqrtNewRaph` and `fasterlog`. It also covers the arithmetic operators and float comparisons of `BitDouble` and `explicitFloat`. A float is only its bit pattern here, so none of these has a meaning in the model.
- The Newton step of `rsqrt_quake` (union family) is float arithmetic; only its integer estimate is modelled.
- `bithack::rsqrt_quake` reads a `long` through a `float*`, whose width and aliasing are platform-dependent, so it is not modelled.
- The float overloads of `sign`, `abs`, `clamp`, `min` and `max` in include/baseFunctions.h are float comparisons and are not modelled.
- `getStats` is modelled for `u32` elements only. `stdDeviation` is `std::sqrt` of a float or integer; only its argument is modelled, as the `radicand` field of the result. The `print` branch writes to standard output and is left out.
- `getRandomF32` and `getRandomF64` are float arithmetic and are not modelled.
- `Rng.RandomGenerator.constructor`: the `time(0)` reading is a parameter (`clock`), not a clock.
- The MSVC branch of `log2i` (`_BitScanReverse`) is not modelled; only the GCC branch is. The MSVC branch returns the index of the highest set bit, one less than the GCC branch.
- The reference-returning accessors `bits()` and `fl()` of `BitDouble` are modelled only through `GetBits` and `GetFloat`. Writes through the returned reference are ordinary assignments to `data`.
- Shifts of a `BitDouble` by 64 or more are undefined behaviour in C++ and are excluded by a precondition.
- `BaseFunctions.BitDefine8`: the bit count is limited to below 32, because the source shifts the `bool` value promoted to `int`.
- `BaseFunctions.BitGet8`: a count from 8 to 31 reads false. A count of 32 or more, undefined for the `int` shift, is excluded.
- The bit-and-rest uniqueness lemma is stated for `u8` only (`BaseFunctions.BitAndRestDetermine8`). For `u64` the set, clear, toggle and define contracts state the new bit and the unchanged rest directly.
- `Tricks.Negate16`, `Tricks.Negate32`: the contracts state the kept low bits and the sign change. The exact value after `negate` is stated by the examples of `Tricks.NegateIsNotMinus`.
- include/DoubleFunctions.h, include/FloatFunctions.h and include/Timing.h are not part of this model. They are float wrappers, code for a `BitFloat` type, and a clock.
- `BitDouble` comparison operators compare doubles and are not modelled.
- The concrete 52-character mantissa renderings of the tests are not restated. `DoubleType.BitDouble.MantissaRawBits` is proved character by character against the word for every input.

## Findings

| source | as written | input that shows it | evidently intended | confidence | as-written member | corrected member |
|---|---|---|---|---|---|---|
| include/trickFunctions.h:20 | `negZero8 = 0x8`, so `negate(s8)` and `isNegative(s8)` use bit 3 | `isNegative((s8)8)` is true; `isNegative((s8)-128)` is false; `negate((s8)1)` is 9 | `0x80`, the `s8` sign bit, as the 16-, 32- and 64-bit masks are | high (not executed) | Tricks.NegZero8Misses | Tricks.IsNegativeSign8Exact |
