/**
 * The xorshift64 generator of include/rng.h.
 *
 * `RandomGenerator` holds one `u64` seed that every draw overwrites. The
 * seed is a 64-bit word, so the shifts and exclusive-ors of `rand()` are
 * bit-vector operations; the bounded getters reduce the drawn word modulo
 * a bound, which is integer arithmetic, so their bounds and results are
 * range-bounded integers with the wrap-around of the getter's unsigned
 * type written out.
 */
module Rng {
  import opened BaseType

  /** `a ^= a << k`: one left xorshift step. */
  function XorShl(a: bv64, k: bv64): bv64
    requires k < 64
  {
    a ^ (a << k)
  }

  /** `a ^= a >> k`: one right xorshift step. */
  function XorShr(a: bv64, k: bv64): bv64
    requires k < 64
  {
    a ^ (a >> k)
  }

  /** The xorshift64 update of `rand()`: steps 13 left, 7 right, 17 left. */
  function Xorshift(a: bv64): bv64
  {
    XorShl(XorShr(XorShl(a, 13), 7), 17)
  }

  // A step keeps a non-zero word non-zero: the lowest set bit survives a
  // left step and the highest set bit survives a right step.

  lemma XorShlNonZero(a: bv64, k: bv64)
    requires 0 < k < 64 && a != 0
    ensures XorShl(a, k) != 0
  {
  }

  lemma XorShrNonZero(a: bv64, k: bv64)
    requires 0 < k < 64 && a != 0
    ensures XorShr(a, k) != 0
  {
  }

  /**
   * `rand()` maps seed 0 to 0, a fixed point, and every non-zero seed to a
   * non-zero seed.
   */
  lemma XorshiftZero(a: bv64)
    ensures Xorshift(a) == 0 <==> a == 0
  {
    if a != 0 {
      XorShlNonZero(a, 13);
      XorShrNonZero(XorShl(a, 13), 7);
      XorShlNonZero(XorShr(XorShl(a, 13), 7), 17);
    }
  }

  /** From seed 1 one step gives 0x2001, then 0x2041, then 0x4082_2041. */
  lemma XorshiftOfOne()
    ensures Xorshift(1) == 0x4082_2041
  {
  }

  /** The `u64` value of a 64-bit word. */
  function Value(r: bv64): U64
  {
    r as int as U64
  }

  /** Narrowing to `u64`, `u32` and `u16`: the value modulo 2^64, 2^32, 2^16. */
  function Wrap64(x: int): U64
  {
    (x % 0x1_0000_0000_0000_0000) as U64
  }

  function Wrap32(x: int): U32
  {
    (x % 0x1_0000_0000) as U32
  }

  function Wrap16(x: int): U16
  {
    (x % 0x1_0000) as U16
  }

  /** `rand() % bound` for a `u64` bound: below the bound. */
  function BoundedU64(r: bv64, bound: U64): (v: U64)
    requires bound != 0
    ensures v < bound
  {
    (Value(r) as int % bound as int) as U64
  }

  /**
   * `rand() % bound` for a `u32` bound: the bound is widened to `u64`, and
   * the remainder, being below the bound, survives the narrowing to `u32`.
   */
  function BoundedU32(r: bv64, bound: U32): (v: U32)
    requires bound != 0
    ensures v < bound
  {
    (Value(r) as int % bound as int) as U32
  }

  /** `rand() % bound` for a `u16` bound. */
  function BoundedU16(r: bv64, bound: U16): (v: U16)
    requires bound != 0
    ensures v < bound
  {
    (Value(r) as int % bound as int) as U16
  }

  /**
   * The bound `b - a + 1` the ranged `u64` getter passes on, with `u64`
   * wrap-around: it is 0, and the remainder undefined, when b = a - 1.
   */
  function SpanU64(a: U64, b: U64): U64
  {
    Wrap64(b as int - a as int + 1)
  }

  /**
   * The `u32` getter computes `b - a` in `u32`, adds a `u64` one and
   * narrows the sum back to `u32`; the `u16` getter computes in `int` and
   * narrows to `u16`. Either way the bound is `b - a + 1` modulo the
   * getter's width.
   */
  function SpanU32(a: U32, b: U32): U32
  {
    Wrap32(b as int - a as int + 1)
  }

  function SpanU16(a: U16, b: U16): U16
  {
    Wrap16(b as int - a as int + 1)
  }

  /** `a + getRandomU64(b - a + 1)`: in [a, b] whenever a <= b. */
  function RangedU64(r: bv64, a: U64, b: U64): (v: U64)
    requires SpanU64(a, b) != 0
    ensures a <= b ==> a <= v <= b
  {
    Wrap64(a as int + BoundedU64(r, SpanU64(a, b)) as int)
  }

  function RangedU32(r: bv64, a: U32, b: U32): (v: U32)
    requires SpanU32(a, b) != 0
    ensures a <= b ==> a <= v <= b
  {
    Wrap32(a as int + BoundedU32(r, SpanU32(a, b)) as int)
  }

  function RangedU16(r: bv64, a: U16, b: U16): (v: U16)
    requires SpanU16(a, b) != 0
    ensures a <= b ==> a <= v <= b
  {
    Wrap16(a as int + BoundedU16(r, SpanU16(a, b)) as int)
  }

  /** The only range a <= b whose span wraps to 0 is the whole type. */
  lemma SpanZero(a: U64, b: U64)
    requires a <= b
    ensures SpanU64(a, b) == 0 <==> a == 0 && b == 0xFFFF_FFFF_FFFF_FFFF
  {
  }

  /** The xorshift64 generator: one `u64` seed, advanced by every draw. */
  class RandomGenerator {
    var seed: bv64

    /**
     * A non-zero seed is kept; seed 0 asks for the clock, whose reading
     * `clock` is a parameter here.
     */
    constructor(seed0: bv64, clock: bv64)
      ensures seed == (if seed0 == 0 then clock else seed0)
    {
      if seed0 == 0 {
        seed := clock;
      } else {
        seed := seed0;
      }
    }

    /** `rand()`: one xorshift64 step on the seed, which it also returns. */
    method Rand() returns (r: bv64)
      modifies this
      ensures seed == Xorshift(old(seed))
      ensures r == seed
    {
      var a := seed;
      a := XorShl(a, 13);
      a := XorShr(a, 7);
      a := XorShl(a, 17);
      seed := a;
      r := a;
    }

    method GetRandomU64(bound: U64) returns (v: U64)
      requires bound != 0
      modifies this
      ensures seed == Xorshift(old(seed))
      ensures v == BoundedU64(seed, bound)
    {
      var r := Rand();
      v := BoundedU64(r, bound);
    }

    method GetRandomU32(bound: U32) returns (v: U32)
      requires bound != 0
      modifies this
      ensures seed == Xorshift(old(seed))
      ensures v == BoundedU32(seed, bound)
    {
      var r := Rand();
      v := BoundedU32(r, bound);
    }

    method GetRandomU16(bound: U16) returns (v: U16)
      requires bound != 0
      modifies this
      ensures seed == Xorshift(old(seed))
      ensures v == BoundedU16(seed, bound)
    {
      var r := Rand();
      v := BoundedU16(r, bound);
    }

    /** The ranged getters draw once through the bounded getter. */
    method GetRandomU64Range(a: U64, b: U64) returns (v: U64)
      requires SpanU64(a, b) != 0
      modifies this
      ensures seed == Xorshift(old(seed))
      ensures v == RangedU64(seed, a, b)
    {
      var x := GetRandomU64(SpanU64(a, b));
      v := Wrap64(a as int + x as int);
    }

    method GetRandomU32Range(a: U32, b: U32) returns (v: U32)
      requires SpanU32(a, b) != 0
      modifies this
      ensures seed == Xorshift(old(seed))
      ensures v == RangedU32(seed, a, b)
    {
      var x := GetRandomU32(SpanU32(a, b));
      v := Wrap32(a as int + x as int);
    }

    method GetRandomU16Range(a: U16, b: U16) returns (v: U16)
      requires SpanU16(a, b) != 0
      modifies this
      ensures seed == Xorshift(old(seed))
      ensures v == RangedU16(seed, a, b)
    {
      var x := GetRandomU16(SpanU16(a, b));
      v := Wrap16(a as int + x as int);
    }
  }
}
