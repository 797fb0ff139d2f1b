/**
 * Fixed-width scalar types of the toolkit (include/baseType.h).
 *
 * Unsigned integers are Dafny bit-vectors (`bv8` .. `bv64`), so the
 * wrap-around of C++ unsigned arithmetic is Dafny's own. A float is kept
 * only as its IEEE 754 binary32 / binary64 bit pattern: the model never
 * interprets a float numerically, it only moves and combines its bits.
 * Signed integers appear twice, according to how the source uses them:
 * those whose bits are manipulated are bit patterns read through a
 * two's-complement value function; those used only arithmetically are
 * range-bounded integers.
 */
module BaseType {

  /** A binary32 float (`f32`), held as its bit pattern. */
  datatype F32 = F32(bits: bv32)

  /** A binary64 float (`f64`), held as its bit pattern. */
  datatype F64 = F64(bits: bv64)

  /** `u16`, `u32`, `u64`, `s32` and `s64` values used arithmetically. */
  newtype U16 = x: int | 0 <= x < 0x1_0000
  newtype U32 = x: int | 0 <= x < 0x1_0000_0000
  newtype U64 = x: int | 0 <= x < 0x1_0000_0000_0000_0000
  newtype S32 = x: int | -0x8000_0000 <= x < 0x8000_0000
  newtype S64 = x: int | -0x8000_0000_0000_0000 <= x < 0x8000_0000_0000_0000

  /** The two's-complement value of an `s8` bit pattern. */
  function S8Value(b: bv8): (v: int)
    ensures -0x80 <= v < 0x80
    ensures v < 0 <==> b & 0x80 != 0
  {
    if b & 0x80 == 0 then b as int else b as int - 0x100
  }

  /** The two's-complement value of an `s16` bit pattern. */
  function S16Value(b: bv16): (v: int)
    ensures -0x8000 <= v < 0x8000
    ensures v < 0 <==> b & 0x8000 != 0
  {
    SignBit16(b);
    if b < 0x8000 then b as int else b as int - 0x1_0000
  }

  /** The sign bit of an `s16` pattern is set exactly when the pattern is at least 0x8000. */
  lemma SignBit16(b: bv16)
    ensures b & 0x8000 != 0 <==> b >= 0x8000
  {
  }

  /** The bytes of a 32-bit pattern, least significant first. */
  function Byte0(b: bv32): bv8 { (b & 0xFF) as bv8 }
  function Byte1(b: bv32): bv8 { ((b >> 8) & 0xFF) as bv8 }
  function Byte2(b: bv32): bv8 { ((b >> 16) & 0xFF) as bv8 }
  function Byte3(b: bv32): bv8 { (b >> 24) as bv8 }

  /** The value of four bytes with weights 2^24, 2^16, 2^8 and 1. */
  function Assemble32(b3: int, b2: int, b1: int, b0: int): int
  {
    b3 * 0x100_0000 + b2 * 0x1_0000 + b1 * 0x100 + b0
  }

  /**
   * The two's-complement value of an `s32` bit pattern: its high byte read
   * as an `s8`, then its three low bytes read as unsigned. Assembling the
   * value byte by byte keeps its arithmetic within the reach of 8-bit
   * reasoning.
   */
  function S32Value(b: bv32): (v: int)
    ensures -0x8000_0000 <= v < 0x8000_0000
    ensures v < 0 <==> b & 0x8000_0000 != 0
  {
    SignByte32(b);
    Assemble32(S8Value(Byte3(b)), Byte2(b) as int, Byte1(b) as int, Byte0(b) as int)
  }

  /** Bit 31 of a pattern is bit 7 of its high byte. */
  lemma SignByte32(b: bv32)
    ensures Byte3(b) & 0x80 != 0 <==> b & 0x8000_0000 != 0
  {
  }

  /** True when bit `k` of `x` is set. */
  predicate BitSet64(x: bv64, k: nat)
    requires k < 64
  {
    x & (1 << k) == 1 << k
  }

  /**
   * The character the `...Bits()` renderings append for bit `k`: with
   * `bitMask = 1 << k`, '1' when `(x & bitMask) == bitMask`, else '0'.
   */
  function BitChar(x: bv64, k: nat): (c: char)
    requires k < 64
    ensures c == '0' || c == '1'
    ensures c == '1' <==> BitSet64(x, k)
  {
    if BitSet64(x, k) then '1' else '0'
  }

  /** The characters for bits hi, hi-1, ..., hi-n+1 of `x`, most significant first. */
  function BitChars(x: bv64, hi: nat, n: nat): (s: string)
    requires n <= hi + 1 <= 64
    ensures |s| == n
    ensures forall i :: 0 <= i < n ==> s[i] == '0' || s[i] == '1'
    ensures forall i :: 0 <= i < n ==> (s[i] == '1' <==> BitSet64(x, hi - i))
  {
    seq(n, i requires 0 <= i < n => BitChar(x, hi - i))
  }

  /** Appending the next lower bit's character extends the rendering by one. */
  lemma BitCharsStep(x: bv64, hi: nat, n: nat)
    requires n < hi + 1 <= 64
    ensures BitChars(x, hi, n + 1) == BitChars(x, hi, n) + [BitChar(x, hi - n)]
  {
    var a := BitChars(x, hi, n + 1);
    var b := BitChars(x, hi, n) + [BitChar(x, hi - n)];
    forall i | 0 <= i < n + 1
      ensures a[i] == b[i]
    {
    }
  }

  /** True when bit `k` of the 32-bit word `x` is set. */
  predicate BitSet32(x: bv32, k: nat)
    requires k < 32
  {
    x & (1 << k) == 1 << k
  }

  /** `BitChar` for a 32-bit word, whose renderings use 32-bit masks. */
  function BitChar32(x: bv32, k: nat): (c: char)
    requires k < 32
    ensures c == '0' || c == '1'
    ensures c == '1' <==> BitSet32(x, k)
  {
    if BitSet32(x, k) then '1' else '0'
  }

  /** `BitChars` for a 32-bit word. */
  function BitChars32(x: bv32, hi: nat, n: nat): (s: string)
    requires n <= hi + 1 <= 32
    ensures |s| == n
    ensures forall i :: 0 <= i < n ==> s[i] == '0' || s[i] == '1'
    ensures forall i :: 0 <= i < n ==> (s[i] == '1' <==> BitSet32(x, hi - i))
  {
    seq(n, i requires 0 <= i < n => BitChar32(x, hi - i))
  }

  lemma BitChars32Step(x: bv32, hi: nat, n: nat)
    requires n < hi + 1 <= 32
    ensures BitChars32(x, hi, n + 1) == BitChars32(x, hi, n) + [BitChar32(x, hi - n)]
  {
    var a := BitChars32(x, hi, n + 1);
    var b := BitChars32(x, hi, n) + [BitChar32(x, hi - n)];
    forall i | 0 <= i < n + 1
      ensures a[i] == b[i]
    {
    }
  }

  /** A 32-bit rendering splits into consecutive renderings of its parts. */
  lemma BitChars32Split(x: bv32, hi: nat, n: nat, m: nat)
    requires n <= hi && n + m <= hi + 1 <= 32
    ensures BitChars32(x, hi, n + m) == BitChars32(x, hi, n) + BitChars32(x, hi - n, m)
  {
    var a := BitChars32(x, hi, n + m);
    var b := BitChars32(x, hi, n) + BitChars32(x, hi - n, m);
    forall i | 0 <= i < n + m
      ensures a[i] == b[i]
    {
      if i >= n {
        assert b[i] == BitChars32(x, hi - n, m)[i - n];
      }
    }
  }
}
