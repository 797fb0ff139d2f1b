/**
 * The binary64 bit-view type of include/DoubleType.h.
 *
 * `BitDouble` wraps one 64-bit word that the source reads either as a
 * double or as a `u64`. The model keeps the word (`data`) and nothing
 * else: float views are the same bits wrapped in `F64`. Field layout and
 * constants are those of IEEE 754-2008 section 3.4 for binary64
 * (1 sign bit, w = 11 exponent bits, t = 52 trailing significand bits,
 * bias 1023).
 *
 * Every field access and field update is first defined on a bare word
 * (`SignOf`, `WithSign`, ...); the class methods apply those to `data`.
 * Bit-level facts are proved over plain words (the `...Bits` lemmas) and
 * then carried over to the named functions.
 */
module DoubleType {
  import opened BaseType

  // ---------------------------------------------------------------------
  // const64: masks and field parameters
  // ---------------------------------------------------------------------

  const One: bv64 := 1
  const MantBitNum: bv64 := 52
  const ExpoBitNum: bv64 := 11
  const SignMask: bv64 := 0x8000_0000_0000_0000
  const ExpoMask: bv64 := 0x7FF0_0000_0000_0000
  const MantMask: bv64 := 0x000F_FFFF_FFFF_FFFF
  const ExpoBias: bv64 := 1023
  const NotSign: bv64 := 0x7FFF_FFFF_FFFF_FFFF
  const NotExpo: bv64 := 0x800F_FFFF_FFFF_FFFF
  const NotMant: bv64 := 0xFFF0_0000_0000_0000
  const FullExpo: bv64 := 0x7FF
  const ImplicitBit: bv64 := 0x10_0000_0000_0000

  /**
   * The constants are the ones the source derives from the field widths,
   * and the three field masks tile the word.
   */
  lemma LayoutConstants()
    ensures ExpoBias == (One << (ExpoBitNum - 1)) - One
    ensures NotSign == !SignMask && NotExpo == !ExpoMask && NotMant == !MantMask
    ensures FullExpo == ExpoMask >> MantBitNum && ImplicitBit == One << MantBitNum
    ensures SignMask & ExpoMask == 0 && SignMask & MantMask == 0 && ExpoMask & MantMask == 0
    ensures SignMask | ExpoMask | MantMask == 0xFFFF_FFFF_FFFF_FFFF
  {
  }

  // ---------------------------------------------------------------------
  // Field access on a word
  // ---------------------------------------------------------------------

  /** The sign bit. */
  predicate SignOf(x: bv64)
  {
    x & SignMask != 0
  }

  /** The biased exponent field, as the `u16` the source returns. */
  function ExponentRawOf(x: bv64): (r: bv16)
    ensures r <= 0x7FF
  {
    ((x & ExpoMask) >> MantBitNum) as bv16
  }

  /**
   * The unbiased exponent as an `s16` bit pattern: the raw field minus the
   * bias, narrowed to 16 bits as the source's return type does.
   */
  function ExponentOf(x: bv64): (r: bv16)
    ensures r + 1023 == ExponentRawOf(x)
    ensures -1023 <= S16Value(r) <= 1024
  {
    ExponentRawOf(x) - 1023
  }

  /** The trailing significand field. */
  function MantissaRawOf(x: bv64): (r: bv64)
    ensures r < ImplicitBit
  {
    x & MantMask
  }

  /** The significand with its implicit leading bit made explicit. */
  function MantissaOf(x: bv64): (r: bv64)
    ensures ImplicitBit <= r < 0x20_0000_0000_0000
    ensures r & MantMask == x & MantMask
  {
    (x & MantMask) | ImplicitBit
  }

  lemma ExpoBits(x: bv64, y: bv64)
    requires x & ExpoMask == y & ExpoMask
    ensures ((x & ExpoMask) >> MantBitNum) as bv16 == ((y & ExpoMask) >> MantBitNum) as bv16
  {
  }

  /** Words that agree under the exponent mask have the same exponent field. */
  lemma ExpoAgree(x: bv64, y: bv64)
    requires x & ExpoMask == y & ExpoMask
    ensures ExponentRawOf(x) == ExponentRawOf(y)
  {
    ExpoBits(x, y);
  }

  lemma WordBits(x: bv64, y: bv64)
    requires x & SignMask == y & SignMask
    requires ((x & ExpoMask) >> MantBitNum) as bv16 == ((y & ExpoMask) >> MantBitNum) as bv16
    requires x & MantMask == y & MantMask
    ensures x == y
  {
  }

  /** The three fields determine the word. */
  lemma FieldsDetermineWord(x: bv64, y: bv64)
    requires SignOf(x) == SignOf(y)
    requires ExponentRawOf(x) == ExponentRawOf(y)
    requires MantissaRawOf(x) == MantissaRawOf(y)
    ensures x == y
  {
    WordBits(x, y);
  }

  // ---------------------------------------------------------------------
  // Field update on a word
  // ---------------------------------------------------------------------

  /** `setSign`: clear the sign bit, then or in the requested one. */
  function WithSign(x: bv64, s: bool): (r: bv64)
    ensures r & SignMask != 0 <==> s
    ensures r & ExpoMask == x & ExpoMask
    ensures r & MantMask == x & MantMask
  {
    (x & NotSign) | (if s then SignMask else 0)
  }

  /** `toggleSign`: flip the sign bit. */
  function Toggled(x: bv64): (r: bv64)
    ensures r & SignMask != 0 <==> x & SignMask == 0
    ensures r & ExpoMask == x & ExpoMask
    ensures r & MantMask == x & MantMask
  {
    x ^ SignMask
  }

  /** `setExponentRaw`: only the low 11 bits of `e` reach the field. */
  function WithExponentRaw(x: bv64, e: bv64): (r: bv64)
    ensures r & SignMask == x & SignMask
    ensures r & ExpoMask == (e & FullExpo) << MantBitNum
    ensures r & MantMask == x & MantMask
  {
    (x & NotExpo) | ((e << MantBitNum) & ExpoMask)
  }

  /** The conversion of an `s16` to a `u64`: two's-complement sign extension. */
  function SignExtend(e: bv16): bv64
  {
    if e & 0x8000 == 0 then e as bv64 else (e as bv64) | 0xFFFF_FFFF_FFFF_0000
  }

  /** `setExponent`: add the bias in 64 bits and store the result as the raw field. */
  function WithExponent(x: bv64, e: bv16): (r: bv64)
    ensures r & SignMask == x & SignMask
    ensures r & MantMask == x & MantMask
  {
    WithExponentRaw(x, SignExtend(e) + ExpoBias)
  }

  /** `setMantissaRaw`: only the low 52 bits of `m` reach the field. */
  function WithMantissaRaw(x: bv64, m: bv64): (r: bv64)
    ensures r & SignMask == x & SignMask
    ensures r & ExpoMask == x & ExpoMask
    ensures r & MantMask == m & MantMask
  {
    (x & NotMant) | (m & MantMask)
  }

  // ---------------------------------------------------------------------
  // What each update does to the three fields
  // ---------------------------------------------------------------------

  /** `setSign` sets the sign and leaves exponent and mantissa alone. */
  lemma WithSignFields(x: bv64, s: bool)
    ensures SignOf(WithSign(x, s)) == s
    ensures ExponentRawOf(WithSign(x, s)) == ExponentRawOf(x)
    ensures MantissaRawOf(WithSign(x, s)) == MantissaRawOf(x)
  {
    ExpoAgree(WithSign(x, s), x);
  }

  /** `toggleSign` flips the sign and leaves exponent and mantissa alone. */
  lemma ToggledFields(x: bv64)
    ensures SignOf(Toggled(x)) == !SignOf(x)
    ensures ExponentRawOf(Toggled(x)) == ExponentRawOf(x)
    ensures MantissaRawOf(Toggled(x)) == MantissaRawOf(x)
  {
    ExpoAgree(Toggled(x), x);
  }

  /** Toggling the sign twice gives back the word (unary minus is an involution on bits). */
  lemma ToggledTwice(x: bv64)
    ensures Toggled(Toggled(x)) == x
  {
    ToggledFields(x);
    ToggledFields(Toggled(x));
    FieldsDetermineWord(Toggled(Toggled(x)), x);
  }

  lemma ExpoFieldBits(r: bv64, v: bv64)
    requires r & ExpoMask == (v & FullExpo) << MantBitNum
    ensures ((r & ExpoMask) >> MantBitNum) as bv16 == (v & FullExpo) as bv16
  {
  }

  /** `setExponentRaw` stores the low 11 bits of its argument and nothing else changes. */
  lemma WithExponentRawFields(x: bv64, e: bv64)
    ensures SignOf(WithExponentRaw(x, e)) == SignOf(x)
    ensures ExponentRawOf(WithExponentRaw(x, e)) == (e & FullExpo) as bv16
    ensures MantissaRawOf(WithExponentRaw(x, e)) == MantissaRawOf(x)
  {
    ExpoFieldBits(WithExponentRaw(x, e), e);
  }

  /** The unbiased exponent of binary64 lies in -1023 .. 1024 exactly when the biased one fits 11 bits. */
  lemma S16Range(e: bv16)
    ensures -1023 <= S16Value(e) <= 1024 <==> e + 1023 <= 0x7FF
  {
  }

  lemma BiasBits(e: bv16, s: bv64)
    requires e + 1023 <= 0x7FF
    requires s == (if e & 0x8000 == 0 then e as bv64 else (e as bv64) | 0xFFFF_FFFF_FFFF_0000)
    ensures ((s + ExpoBias) & FullExpo) as bv16 == e + 1023
  {
  }

  lemma Cancel1023(a: bv16, b: bv16)
    requires a + 1023 == b + 1023
    ensures a == b
  {
  }

  /**
   * `setExponent` stores the biased exponent whenever it fits the 11-bit
   * field; sign and mantissa do not change.
   */
  lemma WithExponentFields(x: bv64, e: bv16)
    requires e + 1023 <= 0x7FF
    ensures ExponentRawOf(WithExponent(x, e)) == e + 1023
    ensures SignOf(WithExponent(x, e)) == SignOf(x)
    ensures MantissaRawOf(WithExponent(x, e)) == MantissaRawOf(x)
  {
    var v := SignExtend(e) + ExpoBias;
    assert WithExponent(x, e) == WithExponentRaw(x, v);
    WithExponentRawFields(x, v);
    BiasBits(e, SignExtend(e));
  }

  /**
   * `setExponent` then `exponent` gives back every exponent a binary64 can
   * hold, -1023 .. 1024.
   */
  lemma ExponentRoundTrip(x: bv64, e: bv16)
    requires -1023 <= S16Value(e) <= 1024
    ensures ExponentOf(WithExponent(x, e)) == e
  {
    S16Range(e);
    WithExponentFields(x, e);
    Cancel1023(ExponentOf(WithExponent(x, e)), e);
  }

  /** `setMantissaRaw` stores the low 52 bits of its argument and nothing else changes. */
  lemma WithMantissaRawFields(x: bv64, m: bv64)
    ensures SignOf(WithMantissaRaw(x, m)) == SignOf(x)
    ensures ExponentRawOf(WithMantissaRaw(x, m)) == ExponentRawOf(x)
    ensures MantissaRawOf(WithMantissaRaw(x, m)) == m & MantMask
  {
    ExpoAgree(WithMantissaRaw(x, m), x);
  }

  lemma SmallFieldBits(f: bv16)
    requires f <= 0x7FF
    ensures ((f as bv64) & FullExpo) as bv16 == f
  {
  }

  /** Writing back a field's current value leaves the word unchanged. */
  lemma RewriteSignIsIdentity(x: bv64)
    ensures WithSign(x, SignOf(x)) == x
  {
    WithSignFields(x, SignOf(x));
    FieldsDetermineWord(WithSign(x, SignOf(x)), x);
  }

  lemma RewriteExponentRawIsIdentity(x: bv64)
    ensures WithExponentRaw(x, ExponentRawOf(x) as bv64) == x
  {
    WithExponentRawFields(x, ExponentRawOf(x) as bv64);
    SmallFieldBits(ExponentRawOf(x));
    FieldsDetermineWord(WithExponentRaw(x, ExponentRawOf(x) as bv64), x);
  }

  lemma RewriteExponentIsIdentity(x: bv64)
    ensures WithExponent(x, ExponentOf(x)) == x
  {
    S16Range(ExponentOf(x));
    WithExponentFields(x, ExponentOf(x));
    FieldsDetermineWord(WithExponent(x, ExponentOf(x)), x);
  }

  lemma RewriteMantissaIsIdentity(x: bv64)
    ensures WithMantissaRaw(x, MantissaRawOf(x)) == x
  {
    WithMantissaRawFields(x, MantissaRawOf(x));
    FieldsDetermineWord(WithMantissaRaw(x, MantissaRawOf(x)), x);
  }

  // ---------------------------------------------------------------------
  // Classification
  // ---------------------------------------------------------------------

  /**
   * `isDenormalized` as the source defines it: a non-zero subnormal, or an
   * all-ones exponent (infinities and NaNs). Zero does not count.
   */
  predicate IsDenormalizedWord(x: bv64)
  {
    (ExponentRawOf(x) == 0 && MantissaRawOf(x) != 0) || ExponentRawOf(x) == FullExpo as bv16
  }

  /** `isNormalized`: the negation of `isDenormalized`. */
  predicate IsNormalizedWord(x: bv64)
  {
    !IsDenormalizedWord(x)
  }

  /** `isInfinite`: exponent all ones, mantissa zero. */
  predicate IsInfiniteWord(x: bv64)
  {
    x & ExpoMask == ExpoMask && x & MantMask == 0
  }

  /** `isNaN`: exponent all ones, mantissa non-zero. */
  predicate IsNaNWord(x: bv64)
  {
    x & ExpoMask == ExpoMask && x & MantMask != 0
  }

  lemma FullExpoBits(x: bv64)
    ensures x & ExpoMask == ExpoMask <==> ((x & ExpoMask) >> MantBitNum) as bv16 == 0x7FF
  {
  }

  lemma ZeroExpoBits(x: bv64)
    ensures x & ExpoMask == 0 <==> ((x & ExpoMask) >> MantBitNum) as bv16 == 0
  {
  }

  /**
   * The four tests partition binary64 words as IEEE 754 does: infinities
   * and NaNs are the all-ones exponent, split by the mantissa; both count
   * as denormalized; the normalized words are the finite normal numbers
   * and the two zeros.
   */
  lemma Classification(x: bv64)
    ensures IsInfiniteWord(x) <==> ExponentRawOf(x) == 0x7FF && MantissaRawOf(x) == 0
    ensures IsNaNWord(x) <==> ExponentRawOf(x) == 0x7FF && MantissaRawOf(x) != 0
    ensures !(IsInfiniteWord(x) && IsNaNWord(x))
    ensures IsInfiniteWord(x) || IsNaNWord(x) ==> IsDenormalizedWord(x)
    ensures IsNormalizedWord(x) <==>
      (0 < ExponentRawOf(x) < 0x7FF) || (ExponentRawOf(x) == 0 && MantissaRawOf(x) == 0)
  {
    FullExpoBits(x);
  }

  // ---------------------------------------------------------------------
  // Bit renderings
  // ---------------------------------------------------------------------

  lemma ExpoBit(x: bv64, j: nat)
    requires j < 11
    ensures BitSet64((((x & ExpoMask) >> MantBitNum) as bv16) as bv64, j) == BitSet64(x, 52 + j)
  {
  }

  lemma MantBit(x: bv64, j: nat)
    requires j < 52
    ensures BitSet64(x & MantMask, j) == BitSet64(x, j)
  {
  }

  lemma SignBit(x: bv64)
    ensures BitSet64(if x & SignMask != 0 then 1 else 0, 0) == BitSet64(x, 63)
  {
  }

  /** The sign rendered as one bit is the word's bit 63. */
  lemma SignBitChars(x: bv64)
    ensures BitChars(if SignOf(x) then 1 else 0, 0, 1) == BitChars(x, 63, 1)
  {
    SignBit(x);
  }

  /** The exponent field rendered in 11 bits is bits 62 .. 52 of the word. */
  lemma ExponentBitChars(x: bv64)
    ensures BitChars(ExponentRawOf(x) as bv64, 10, 11) == BitChars(x, 62, 11)
  {
    var a := BitChars(ExponentRawOf(x) as bv64, 10, 11);
    var b := BitChars(x, 62, 11);
    forall i | 0 <= i < 11
      ensures a[i] == b[i]
    {
      ExpoBit(x, 10 - i);
    }
  }

  /** The mantissa field rendered in 52 bits is bits 51 .. 0 of the word. */
  lemma MantissaBitChars(x: bv64)
    ensures BitChars(MantissaRawOf(x), 51, 52) == BitChars(x, 51, 52)
  {
    var a := BitChars(MantissaRawOf(x), 51, 52);
    var b := BitChars(x, 51, 52);
    forall i | 0 <= i < 52
      ensures a[i] == b[i]
    {
      MantBit(x, 51 - i);
    }
  }

  /**
   * `rawBits`: the sign, exponent and mantissa fields, each as a fixed-width
   * bit string in brackets. Together they are the word's 64 bits, most
   * significant first.
   */
  function RawBitsOf(x: bv64): (s: string)
    ensures |s| == 70
    ensures s == "[" + BitChars(x, 63, 1) + "][" + BitChars(x, 62, 11) + "][" + BitChars(x, 51, 52) + "]"
  {
    SignBitChars(x);
    ExponentBitChars(x);
    MantissaBitChars(x);
    "[" + BitChars(if SignOf(x) then 1 else 0, 0, 1)
      + "][" + BitChars(ExponentRawOf(x) as bv64, 10, 11)
      + "][" + BitChars(MantissaRawOf(x), 51, 52) + "]"
  }

  /** A word against its complement: `f & ~f`, `f | ~f` and `f ^ ~f`. */
  lemma ComplementLaws(x: bv64)
    ensures x & !x == 0
    ensures x | !x == 0xFFFF_FFFF_FFFF_FFFF
    ensures x ^ !x == 0xFFFF_FFFF_FFFF_FFFF
  {
  }

  // ---------------------------------------------------------------------
  // The bit-view class
  // ---------------------------------------------------------------------

  class BitDouble {
    /** The shared storage of the float and integer views. */
    var data: bv64

    /** Default construction: the all-zero word, +0.0. */
    constructor ()
      ensures data == 0
    {
      data := 0;
    }

    /** Construction from a double keeps its bit pattern. */
    constructor FromFloat(a: F64)
      ensures data == a.bits
    {
      data := a.bits;
    }

    /** Construction from a `u64` stores it as the bit pattern. */
    constructor FromBits(a: bv64)
      ensures data == a
    {
      data := a;
    }

    /** Copy construction. */
    constructor Copy(o: BitDouble)
      ensures data == o.data
    {
      data := o.data;
    }

    /** Assignment from another `BitDouble`. */
    method Assign(o: BitDouble)
      modifies this
      ensures data == old(o.data)
    {
      data := o.data;
    }

    /** Assignment from a double. */
    method AssignFloat(a: F64)
      modifies this
      ensures data == a.bits
    {
      data := a.bits;
    }

    /** Assignment from a `u64`. */
    method AssignBits(a: bv64)
      modifies this
      ensures data == a
    {
      data := a;
    }

    // Bit shifts. A shift by 64 or more is undefined in C++, so the
    // amount must be below 64; a `BitDouble` amount is its bits.

    method ShlAssign(k: bv64)
      requires k < 64
      modifies this
      ensures data == old(data) << k
    {
      data := data << k;
    }

    method ShlAssignBy(b: BitDouble)
      requires b.data < 64
      modifies this
      ensures data == old(data) << old(b.data)
    {
      data := data << b.data;
    }

    method Shl(k: bv64) returns (r: BitDouble)
      requires k < 64
      ensures fresh(r) && r.data == old(data) << k
    {
      var v := data << k;
      r := new BitDouble.FromBits(v);
    }

    method ShlBy(b: BitDouble) returns (r: BitDouble)
      requires b.data < 64
      ensures fresh(r) && r.data == old(data) << old(b.data)
    {
      var v := data << b.data;
      r := new BitDouble.FromBits(v);
    }

    method ShrAssign(k: bv64)
      requires k < 64
      modifies this
      ensures data == old(data) >> k
    {
      data := data >> k;
    }

    method ShrAssignBy(b: BitDouble)
      requires b.data < 64
      modifies this
      ensures data == old(data) >> old(b.data)
    {
      data := data >> b.data;
    }

    method Shr(k: bv64) returns (r: BitDouble)
      requires k < 64
      ensures fresh(r) && r.data == old(data) >> k
    {
      var v := data >> k;
      r := new BitDouble.FromBits(v);
    }

    method ShrBy(b: BitDouble) returns (r: BitDouble)
      requires b.data < 64
      ensures fresh(r) && r.data == old(data) >> old(b.data)
    {
      var v := data >> b.data;
      r := new BitDouble.FromBits(v);
    }

    // Bitwise operators, each with a `u64` and a `BitDouble` operand.

    method AndAssign(b: bv64)
      modifies this
      ensures data == old(data) & b
    {
      data := data & b;
    }

    method AndAssignBy(b: BitDouble)
      modifies this
      ensures data == old(data) & old(b.data)
    {
      data := data & b.data;
    }

    method And(b: bv64) returns (r: BitDouble)
      ensures fresh(r) && r.data == data & b
    {
      var v := data & b;
      r := new BitDouble.FromBits(v);
    }

    method AndBy(b: BitDouble) returns (r: BitDouble)
      ensures fresh(r) && r.data == data & b.data
    {
      var v := data & b.data;
      r := new BitDouble.FromBits(v);
    }

    method OrAssign(b: bv64)
      modifies this
      ensures data == old(data) | b
    {
      data := data | b;
    }

    method OrAssignBy(b: BitDouble)
      modifies this
      ensures data == old(data) | old(b.data)
    {
      data := data | b.data;
    }

    method Or(b: bv64) returns (r: BitDouble)
      ensures fresh(r) && r.data == data | b
    {
      var v := data | b;
      r := new BitDouble.FromBits(v);
    }

    method OrBy(b: BitDouble) returns (r: BitDouble)
      ensures fresh(r) && r.data == data | b.data
    {
      var v := data | b.data;
      r := new BitDouble.FromBits(v);
    }

    method XorAssign(b: bv64)
      modifies this
      ensures data == old(data) ^ b
    {
      data := data ^ b;
    }

    method XorAssignBy(b: BitDouble)
      modifies this
      ensures data == old(data) ^ old(b.data)
    {
      data := data ^ b.data;
    }

    method Xor(b: bv64) returns (r: BitDouble)
      ensures fresh(r) && r.data == data ^ b
    {
      var v := data ^ b;
      r := new BitDouble.FromBits(v);
    }

    method XorBy(b: BitDouble) returns (r: BitDouble)
      ensures fresh(r) && r.data == data ^ b.data
    {
      var v := data ^ b.data;
      r := new BitDouble.FromBits(v);
    }

    /** `operator~`: a copy with every bit complemented. */
    method Not() returns (r: BitDouble)
      ensures fresh(r) && r.data == !data
    {
      var v := !data;
      r := new BitDouble.FromBits(v);
    }

    /** Unary minus: a copy with the sign toggled. */
    method Negated() returns (r: BitDouble)
      ensures fresh(r) && r.data == Toggled(data)
      ensures SignOf(r.data) == !SignOf(data)
      ensures ExponentRawOf(r.data) == ExponentRawOf(data)
      ensures MantissaRawOf(r.data) == MantissaRawOf(data)
    {
      r := new BitDouble.Copy(this);
      r.ToggleSign();
    }

    // Field access.

    function Sign(): bool
      reads this
    {
      SignOf(data)
    }

    method SetSign(s: bool)
      modifies this
      ensures data == WithSign(old(data), s)
      ensures Sign() == s
      ensures ExponentRaw() == old(ExponentRaw()) && MantissaRaw() == old(MantissaRaw())
    {
      var v := WithSign(data, s);
      WithSignFields(data, s);
      data := v;
    }

    method ToggleSign()
      modifies this
      ensures data == Toggled(old(data))
      ensures Sign() == !old(Sign())
      ensures ExponentRaw() == old(ExponentRaw()) && MantissaRaw() == old(MantissaRaw())
    {
      var v := Toggled(data);
      ToggledFields(data);
      data := v;
    }

    function ExponentRaw(): bv16
      reads this
    {
      ExponentRawOf(data)
    }

    /** `exponentRawBits`: bits 62 .. 52 of the word, most significant first. */
    method ExponentRawBits() returns (a: string)
      ensures a == BitChars(data, 62, 11)
      ensures a == RawBits()[4..15]
    {
      var x := data;
      a := "";
      var i: nat := 0;
      while i < 11
        invariant i <= 11
        invariant a == BitChars(x, 62, i)
      {
        BitCharsStep(x, 62, i);
        a := a + [BitChar(x, 11 + 52 - 1 - i)];
        i := i + 1;
      }
    }

    function Exponent(): bv16
      reads this
    {
      ExponentOf(data)
    }

    method SetExponentRaw(e: bv64)
      modifies this
      ensures data == WithExponentRaw(old(data), e)
      ensures ExponentRaw() == (e & FullExpo) as bv16
      ensures Sign() == old(Sign()) && MantissaRaw() == old(MantissaRaw())
    {
      var v := WithExponentRaw(data, e);
      WithExponentRawFields(data, e);
      data := v;
    }

    method SetExponent(e: bv16)
      modifies this
      ensures data == WithExponent(old(data), e)
      ensures -1023 <= S16Value(e) <= 1024 ==> Exponent() == e
      ensures data & SignMask == old(data) & SignMask
      ensures data & MantMask == old(data) & MantMask
    {
      var v := WithExponent(data, e);
      if -1023 <= S16Value(e) <= 1024 {
        ExponentRoundTrip(data, e);
      }
      data := v;
    }

    function MantissaRaw(): bv64
      reads this
    {
      MantissaRawOf(data)
    }

    /** `mantissaRawBits`: bits 51 .. 0 of the word, most significant first. */
    method MantissaRawBits() returns (a: string)
      ensures a == BitChars(data, 51, 52)
      ensures a == RawBits()[17..69]
    {
      var x := data;
      a := "";
      var i: nat := 0;
      while i < 52
        invariant i <= 52
        invariant a == BitChars(x, 51, i)
      {
        BitCharsStep(x, 51, i);
        a := a + [BitChar(x, 52 - 1 - i)];
        i := i + 1;
      }
    }

    function Mantissa(): bv64
      reads this
    {
      MantissaOf(data)
    }

    method SetMantissaRaw(m: bv64)
      modifies this
      ensures data == WithMantissaRaw(old(data), m)
      ensures MantissaRaw() == m & MantMask
      ensures Sign() == old(Sign()) && ExponentRaw() == old(ExponentRaw())
    {
      var v := WithMantissaRaw(data, m);
      WithMantissaRawFields(data, m);
      data := v;
    }

    function RawBits(): string
      reads this
    {
      RawBitsOf(data)
    }

    // Direct access.

    function GetFloat(): F64
      reads this
    {
      F64(data)
    }

    function GetBits(): bv64
      reads this
    {
      data
    }

    // Normalization information.

    predicate IsNormalized()
      reads this
    {
      IsNormalizedWord(data)
    }

    predicate IsDenormalized()
      reads this
    {
      IsDenormalizedWord(data)
    }

    predicate IsInfinite()
      reads this
    {
      IsInfiniteWord(data)
    }

    predicate IsNaN()
      reads this
    {
      IsNaNWord(data)
    }
  }

  // ---------------------------------------------------------------------
  // Worked values: -1789.523 is the word 0xC09B_F617_8D4F_DF3B
  // ---------------------------------------------------------------------

  /** Field values of -1789.523. */
  lemma FieldExamples()
    ensures SignOf(0xC09B_F617_8D4F_DF3B)
    ensures ExponentRawOf(0xC09B_F617_8D4F_DF3B) == 0x409
    ensures ExponentOf(0xC09B_F617_8D4F_DF3B) == 10
    ensures MantissaRawOf(0xC09B_F617_8D4F_DF3B) == 0xB_F617_8D4F_DF3B
    ensures MantissaOf(0xC09B_F617_8D4F_DF3B) == 0x1B_F617_8D4F_DF3B
  {
  }

  /** Field updates of -1789.523. */
  lemma UpdateExamples()
    // setExponent(11) doubles the value: -3579.046
    ensures WithExponent(0xC09B_F617_8D4F_DF3B, 11) == 0xC0AB_F617_8D4F_DF3B
    // a mantissa one larger at weight 2^-3: -(1789.523 + 0.125)
    ensures WithMantissaRaw(0xC09B_F617_8D4F_DF3B, 0xB_F697_8D4F_DF3B) == 0xC09B_F697_8D4F_DF3B
  {
  }

  /** The shifts of -1789.523 by three places. */
  lemma ShiftExamples()
    ensures (0xC09B_F617_8D4F_DF3B as bv64) << 3 == 351193619245234648
    ensures (0xC09B_F617_8D4F_DF3B as bv64) >> 3 == 1734869657210977255
  {
  }

  /** The exponent rendering of -1789.523. */
  lemma RenderExample()
    ensures BitChars(0xC09B_F617_8D4F_DF3B, 62, 11) == "10000001001"
  {
    var s := BitChars(0xC09B_F617_8D4F_DF3B, 62, 11);
    assert s[0] == '1';
    assert s[1] == '0';
    assert s[2] == '0';
    assert s[3] == '0';
    assert s[4] == '0';
    assert s[5] == '0';
    assert s[6] == '0';
    assert s[7] == '1';
    assert s[8] == '0';
    assert s[9] == '0';
    assert s[10] == '1';
  }

  /** The exponent rendering of 1.0: the bias. */
  lemma RenderOneExample()
    ensures BitChars(0x3FF0_0000_0000_0000, 62, 11) == "01111111111"
  {
    var s := BitChars(0x3FF0_0000_0000_0000, 62, 11);
    assert s[0] == '0';
    assert s[1] == '1';
    assert s[2] == '1';
    assert s[3] == '1';
    assert s[4] == '1';
    assert s[5] == '1';
    assert s[6] == '1';
    assert s[7] == '1';
    assert s[8] == '1';
    assert s[9] == '1';
    assert s[10] == '1';
  }

  /** The exponent rendering of 512.0. */
  lemma RenderPowerExample()
    ensures BitChars(0x4080_0000_0000_0000, 62, 11) == "10000001000"
  {
    var s := BitChars(0x4080_0000_0000_0000, 62, 11);
    assert s[0] == '1';
    assert s[1] == '0';
    assert s[2] == '0';
    assert s[3] == '0';
    assert s[4] == '0';
    assert s[5] == '0';
    assert s[6] == '0';
    assert s[7] == '1';
    assert s[8] == '0';
    assert s[9] == '0';
    assert s[10] == '0';
  }

  /** Classification of -1789.523, zero, infinity, a NaN and a subnormal. */
  lemma ClassifyExamples()
    ensures IsNormalizedWord(0xC09B_F617_8D4F_DF3B)
    ensures !IsDenormalizedWord(0) && !IsInfiniteWord(0) && !IsNaNWord(0)
    ensures IsDenormalizedWord(WithExponentRaw(0, 2047)) && IsInfiniteWord(WithExponentRaw(0, 2047))
    ensures IsNaNWord(WithMantissaRaw(WithExponentRaw(0, 2047), 128))
    ensures IsDenormalizedWord(WithMantissaRaw(0, 128)) && !IsNaNWord(WithMantissaRaw(0, 128))
  {
  }

  /** The sign and exponent manipulations of a `BitDouble` holding -1789.523. */
  method ManipulateExample() returns (s0: bool, s1: bool, e0: bv16, e1: bv16, bits: bv64)
    ensures s0 && !s1
    ensures e0 == 10 && e1 == 11
    ensures bits == 0xC0AB_F617_8D4F_DF3B
  {
    var f := new BitDouble.FromFloat(F64(0xC09B_F617_8D4F_DF3B));
    s0 := f.Sign();
    f.ToggleSign();
    s1 := f.Sign();
    f.SetSign(true);
    e0 := f.Exponent();
    f.SetExponent(11);
    e1 := f.Exponent();
    bits := f.GetBits();
  }
}
