/**
 * The binary32 bit-view type of include/FloatType.h.
 *
 * `ExplicitFloat` is one 32-bit word with read-only field accessors and
 * '0'/'1' renderings. Field layout and constants follow IEEE 754-2008
 * section 3.4 for binary32 (1 sign bit, w = 8 exponent bits, t = 23
 * trailing significand bits, bias 127).
 */
module FloatType {
  import opened BaseType

  // ---------------------------------------------------------------------
  // f32const
  // ---------------------------------------------------------------------

  const SignMask: bv32 := 0x8000_0000
  const ExpoMask: bv32 := 0x7F80_0000
  const MantMask: bv32 := 0x007F_FFFF
  const ExpoBias: bv8 := 127
  const OneAsInt: bv32 := 0x3F80_0000
  const NotSign: bv32 := 0x7FFF_FFFF
  const MantShift: bv32 := 23

  /** The masks tile the word, and `oneAsInt` (1.0f) has exponent field equal to the bias. */
  lemma LayoutConstants()
    ensures SignMask & ExpoMask == 0 && SignMask & MantMask == 0 && ExpoMask & MantMask == 0
    ensures SignMask | ExpoMask | MantMask == 0xFFFF_FFFF
    ensures NotSign == !SignMask
    ensures (OneAsInt & ExpoMask) >> MantShift == ExpoBias as bv32 && OneAsInt & MantMask == 0
  {
  }

  // ---------------------------------------------------------------------
  // Field access on a word
  // ---------------------------------------------------------------------

  /** `sign`: bit 31. */
  predicate SignOf(x: bv32)
  {
    x & SignMask != 0
  }

  /** `exponentRaw`: bits 30 .. 23, as the `u8` the source returns. */
  function ExponentRawOf(x: bv32): (r: bv8)
  {
    ((x & ExpoMask) >> MantShift) as bv8
  }

  /**
   * `exponent`: the raw field minus the bias, narrowed to `s8`. Raw values
   * 0 .. 254 give -127 .. 127; 255 (infinities and NaNs) wraps to -128.
   */
  function ExponentOf(x: bv32): (r: bv8)
    ensures r + ExpoBias == ExponentRawOf(x)
    ensures ExponentRawOf(x) != 0xFF ==> -127 <= S8Value(r) <= 127
    ensures ExponentRawOf(x) == 0xFF ==> S8Value(r) == -128
  {
    ExponentRawOf(x) - ExpoBias
  }

  /** `mantissaRaw`: bits 22 .. 0. */
  function MantissaRawOf(x: bv32): (r: bv32)
    ensures r <= MantMask
  {
    x & MantMask
  }

  lemma ExpoFieldBits(x: bv32)
    ensures (((x & ExpoMask) >> MantShift) as bv8) as bv32 << MantShift == x & ExpoMask
  {
  }

  /** The exponent field shifted back into place is the word under the exponent mask. */
  lemma ExponentInPlace(x: bv32)
    ensures ExponentRawOf(x) as bv32 << MantShift == x & ExpoMask
  {
    ExpoFieldBits(x);
  }

  lemma MaskSplit(x: bv32, e: bv32, m: bv32)
    requires e == x & ExpoMask && m == x & MantMask
    ensures x == (x & SignMask) | e | m
  {
  }

  /** Sign bit, exponent and mantissa put back in place give the whole word. */
  lemma Reassemble(x: bv32)
    ensures x == (x & SignMask) | (ExponentRawOf(x) as bv32 << MantShift) | MantissaRawOf(x)
  {
    ExponentInPlace(x);
    MaskSplit(x, ExponentRawOf(x) as bv32 << MantShift, MantissaRawOf(x));
  }

  /**
   * `isDenormalized`: exponent field all zeros or all ones. Unlike the
   * binary64 type, this includes the two zeros.
   */
  predicate IsDenormalizedWord(x: bv32)
  {
    ExponentRawOf(x) == 0 || ExponentRawOf(x) == 0xFF
  }

  /** `isNormalized`: the negation of `isDenormalized`. */
  predicate IsNormalizedWord(x: bv32)
  {
    !IsDenormalizedWord(x)
  }

  lemma ZeroBits()
    ensures ((0 & ExpoMask) >> MantShift) as bv8 == 0
  {
  }

  /** The normalized words are those with an exponent field in 1 .. 254; zero is not one of them. */
  lemma Classification(x: bv32)
    ensures IsNormalizedWord(x) <==> 0 < ExponentRawOf(x) < 0xFF
    ensures IsDenormalizedWord(0)
  {
    ZeroBits();
  }

  /** `bits()` is the sign character, then the exponent bits, then the mantissa bits. */
  lemma BitsLayout(x: bv32)
    ensures BitChars32(x, 31, 32) == BitChars32(x, 31, 1) + BitChars32(x, 30, 8) + BitChars32(x, 22, 23)
    ensures BitChars32(x, 31, 1) == if SignOf(x) then "1" else "0"
  {
    BitChars32Split(x, 31, 1, 31);
    BitChars32Split(x, 30, 8, 23);
    assert BitSet32(x, 31) == SignOf(x);
  }

  // ---------------------------------------------------------------------
  // The bit-view class
  // ---------------------------------------------------------------------

  class ExplicitFloat {
    /** The shared storage of the float and integer views. */
    var data: bv32

    /** Default construction: the all-zero word, +0.0f. */
    constructor ()
      ensures data == 0
    {
      data := 0;
    }

    constructor FromFloat(a: F32)
      ensures data == a.bits
    {
      data := a.bits;
    }

    constructor FromBits(a: bv32)
      ensures data == a && AsUInt() == a
    {
      data := a;
    }

    constructor Copy(o: ExplicitFloat)
      ensures data == o.data
    {
      data := o.data;
    }

    method Assign(o: ExplicitFloat)
      modifies this
      ensures data == old(o.data)
    {
      data := o.data;
    }

    method AssignFloat(a: F32)
      modifies this
      ensures data == a.bits
    {
      data := a.bits;
    }

    method AssignBits(a: bv32)
      modifies this
      ensures data == a && AsUInt() == a
    {
      data := a;
    }

    function Sign(): bool
      reads this
    {
      SignOf(data)
    }

    function ExponentRaw(): bv8
      reads this
    {
      ExponentRawOf(data)
    }

    /** `exponentRawBits`: bits 30 .. 23, most significant first. */
    method ExponentRawBits() returns (a: string)
      ensures a == BitChars32(data, 30, 8)
    {
      var x := data;
      a := "";
      var i: nat := 0;
      while i < 8
        invariant i <= 8
        invariant a == BitChars32(x, 30, i)
      {
        BitChars32Step(x, 30, i);
        a := a + [BitChar32(x, 30 - i)];
        i := i + 1;
      }
    }

    function Exponent(): bv8
      reads this
    {
      ExponentOf(data)
    }

    function MantissaRaw(): bv32
      reads this
    {
      MantissaRawOf(data)
    }

    /** `mantissaRawBits`: bits 22 .. 0, most significant first. */
    method MantissaRawBits() returns (a: string)
      ensures a == BitChars32(data, 22, 23)
    {
      var x := data;
      a := "";
      var i: nat := 0;
      while i < 23
        invariant i <= 23
        invariant a == BitChars32(x, 22, i)
      {
        BitChars32Step(x, 22, i);
        a := a + [BitChar32(x, 22 - i)];
        i := i + 1;
      }
    }

    /** `bits`: all 32 bits, most significant first. */
    method Bits() returns (a: string)
      ensures a == BitChars32(data, 31, 32)
    {
      var x := data;
      a := "";
      var i: nat := 0;
      while i < 32
        invariant i <= 32
        invariant a == BitChars32(x, 31, i)
      {
        BitChars32Step(x, 31, i);
        a := a + [BitChar32(x, 31 - i)];
        i := i + 1;
      }
    }

    predicate IsNormalized()
      reads this
    {
      IsNormalizedWord(data)
    }

    predicate IsDenormalized()
      reads this
    {
      IsDenormalizedWord(data)
    }

    function AsFloat(): F32
      reads this
    {
      F32(data)
    }

    function AsUInt(): bv32
      reads this
    {
      data
    }
  }

  /** -1789.523f is 0xC4DF_B0BC: its fields and renderings. */
  lemma ExplicitFloatExamples()
    ensures SignOf(0xC4DF_B0BC) && ExponentRawOf(0xC4DF_B0BC) == 0x89 && ExponentOf(0xC4DF_B0BC) == 10
    ensures MantissaRawOf(0xC4DF_B0BC) == 0x5F_B0BC
    ensures BitChars32(0xC4DF_B0BC, 30, 8) == "10001001"
    ensures IsNormalizedWord(0xC4DF_B0BC) && IsDenormalizedWord(0x7F80_0000)
  {
  }

  /** The exponent rendering of an `ExplicitFloat` built from the bits of 1.0f. */
  method RenderOne() returns (e: string)
    ensures e == "01111111"
  {
    var f := new ExplicitFloat.FromBits(OneAsInt);
    e := f.ExponentRawBits();
  }

  /** The full rendering of 1.0. */
  method RenderOneBits() returns (b: string)
    ensures b == "00111111100000000000000000000000"
  {
    var f := new ExplicitFloat.FromBits(OneAsInt);
    b := f.Bits();
  }
}
