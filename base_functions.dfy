/**
 * The integer helpers of include/baseFunctions.h: sign, absolute value,
 * clamp, min and max, and single-bit operations on `u8` and `u64`
 * (`log2i` is module `BaseLog` below).
 *
 * The bit operations take their number by reference in the source; here
 * they are methods that receive the number and return its new value.
 */
module BaseFunctions {
  import opened BaseType

  // ---------------------------------------------------------------------
  // Sign, abs, clamp, min, max
  // ---------------------------------------------------------------------

  /** `sign(s32)`: -1, 0 or 1 as `x` is negative, zero or positive. */
  function Sign(x: S32): (r: S32)
    ensures r == -1 <==> x < 0
    ensures r == 0 <==> x == 0
    ensures r == 1 <==> x > 0
  {
    if x < 0 then -1 else if x > 0 then 1 else 0
  }

  /**
   * `abs(s64)`. The most negative `s64` has no positive counterpart, and
   * negating it overflows, so it is excluded.
   */
  function Abs(x: S64): (r: S64)
    requires x != -0x8000_0000_0000_0000
    ensures 0 <= r
    ensures r == x || r == -x
    ensures r as int * r as int == x as int * x as int
  {
    if x < 0 then -x else x
  }

  /**
   * `clamp(s32)`: `a` below the range, `b` above it, `x` inside it. The
   * lower bound is compared first, so with `a > b` a value below `a` gives `a`.
   */
  function Clamp(x: S32, a: S32, b: S32): (r: S32)
    ensures a <= b ==> a <= r <= b
    ensures a <= x <= b ==> r == x
    ensures x < a ==> r == a
    ensures a <= x && b < x ==> r == b
  {
    if x < a then a else if x > b then b else x
  }

  /**
   * `min` on integers. Every integer overload (`u8` to `u64`, `s32`,
   * `s64`) compares the values and returns one of its arguments, so one
   * definition over integers describes them all.
   */
  function Min(a: int, b: int): (r: int)
    ensures r == a || r == b
    ensures r <= a && r <= b
  {
    if a > b then b else a
  }

  /** `max` on integers; see `Min`. */
  function Max(a: int, b: int): (r: int)
    ensures r == a || r == b
    ensures a <= r && b <= r
  {
    if a > b then a else b
  }

  /** `min` and `max` split a pair: together they are its two values. */
  lemma MinMaxPair(a: int, b: int)
    ensures Min(a, b) + Max(a, b) == a + b
    ensures Min(a, b) == Max(a, b) <==> a == b
  {
  }

  // ---------------------------------------------------------------------
  // Single bits of a u64
  // ---------------------------------------------------------------------

  /** `bitGet(u64)`: bit `bit` of `number`. */
  predicate BitGet64(number: bv64, bit: bv8)
    requires bit < 64
  {
    (number >> bit) & 1 == 1
  }

  /** `bitSet(u64)`: sets bit `bit`, keeps every other bit. */
  method BitSet64(number: bv64, bit: bv8) returns (n: bv64)
    requires bit < 64
    ensures BitGet64(n, bit)
    ensures n & !(1 << bit) == number & !(1 << bit)
  {
    n := number | (1 << bit);
    SetBits64(number, bit);
  }

  lemma SetBits64(x: bv64, bit: bv8)
    requires bit < 64
    ensures ((x | (1 << bit)) >> bit) & 1 == 1
    ensures (x | (1 << bit)) & !(1 << bit) == x & !(1 << bit)
  {
  }

  /** `bitClear(u64)`: clears bit `bit`, keeps every other bit. */
  method BitClear64(number: bv64, bit: bv8) returns (n: bv64)
    requires bit < 64
    ensures !BitGet64(n, bit)
    ensures n & !(1 << bit) == number & !(1 << bit)
  {
    n := number & !(1 << bit);
    ClearBits64(number, bit);
  }

  lemma ClearBits64(x: bv64, bit: bv8)
    requires bit < 64
    ensures ((x & !(1 << bit)) >> bit) & 1 == 0
  {
  }

  /** `bitToggle(u64)`: flips bit `bit`, keeps every other bit. */
  method BitToggle64(number: bv64, bit: bv8) returns (n: bv64)
    requires bit < 64
    ensures BitGet64(n, bit) == !BitGet64(number, bit)
    ensures n & !(1 << bit) == number & !(1 << bit)
  {
    n := number ^ (1 << bit);
    ToggleBits64(number, bit);
    ToggleRest64(number, bit);
  }

  lemma ToggleBits64(x: bv64, bit: bv8)
    requires bit < 64
    ensures ((x ^ (1 << bit)) >> bit) & 1 != (x >> bit) & 1
  {
  }

  lemma ToggleRest64(x: bv64, bit: bv8)
    requires bit < 64
    ensures (x ^ (1 << bit)) & !(1 << bit) == x & !(1 << bit)
  {
  }

  /** Toggling the same bit twice restores the number. */
  lemma ToggleTwice64(x: bv64, bit: bv8)
    requires bit < 64
    ensures (x ^ (1 << bit)) ^ (1 << bit) == x
  {
  }

  /**
   * `bitDefine(u64)`: sets bit `bit` to `value`, keeps every other bit.
   * The widened `value` is 1 or 0, and the two cases are written apart.
   */
  method BitDefine64(number: bv64, bit: bv8, value: bool) returns (n: bv64)
    requires bit < 64
    ensures BitGet64(n, bit) == value
    ensures n & !(1 << bit) == number & !(1 << bit)
  {
    if value {
      n := (number & !(1 << bit)) | (1 << bit);
      DefineOne64(number, bit);
    } else {
      n := (number & !(1 << bit)) | (0 << bit);
      DefineZero64(number, bit);
    }
  }

  lemma DefineOne64(x: bv64, bit: bv8)
    requires bit < 64
    ensures (((x & !(1 << bit)) | (1 << bit)) >> bit) & 1 == 1
    ensures ((x & !(1 << bit)) | (1 << bit)) & !(1 << bit) == x & !(1 << bit)
  {
  }

  lemma DefineZero64(x: bv64, bit: bv8)
    requires bit < 64
    ensures (((x & !(1 << bit)) | (0 << bit)) >> bit) & 1 == 0
    ensures ((x & !(1 << bit)) | (0 << bit)) & !(1 << bit) == x & !(1 << bit)
  {
  }

  // ---------------------------------------------------------------------
  // Single bits of a u8
  // ---------------------------------------------------------------------

  /**
   * The `u8` overloads shift a 64-bit one (`1ul << bit`) and narrow the
   * result back to `u8`, and `bitGet` shifts the number promoted to `int`.
   * A bit count from 8 up to the shifted operand's width therefore leaves
   * the number unchanged and reads as false; a larger count is undefined
   * behaviour and excluded.
   */
  predicate BitGet8(number: bv8, bit: bv8)
    requires bit < 32
  {
    bit < 8 && (number >> bit) & 1 == 1
  }

  /** The mask of bit `bit` as it survives the narrowing to `u8`. */
  function Mask8(bit: bv8): (m: bv8)
    requires bit < 64
    ensures bit >= 8 ==> m == 0
  {
    if bit < 8 then 1 << bit else 0
  }

  lemma BitAndRestDetermine8(x: bv8, y: bv8, bit: bv8)
    requires bit < 8
    requires BitGet8(x, bit) == BitGet8(y, bit)
    requires x & !Mask8(bit) == y & !Mask8(bit)
    ensures x == y
  {
    var m := Mask8(bit);
    assert m == 1 << bit;
    SplitAtBit8(x, y, bit, m);
  }

  lemma SplitAtBit8(x: bv8, y: bv8, bit: bv8, m: bv8)
    requires bit < 8 && m == 1 << bit
    requires (x >> bit) & 1 == (y >> bit) & 1
    requires x & !m == y & !m
    ensures x == y
  {
  }

  /** `bitSet(u8)`: sets bit `bit` (when it is below 8), keeps every other bit. */
  method BitSet8(number: bv8, bit: bv8) returns (n: bv8)
    requires bit < 64
    ensures bit < 8 ==> BitGet8(n, bit)
    ensures n & !Mask8(bit) == number & !Mask8(bit)
  {
    var m := Mask8(bit);
    n := number | m;
    SetBits8(number, bit, m);
  }

  lemma SetBits8(x: bv8, bit: bv8, m: bv8)
    requires bit < 64 && m == (if bit < 8 then 1 << bit else 0)
    ensures bit < 8 ==> ((x | m) >> bit) & 1 == 1
    ensures (x | m) & !m == x & !m
  {
  }

  /** `bitClear(u8)`: clears bit `bit`, keeps every other bit. */
  method BitClear8(number: bv8, bit: bv8) returns (n: bv8)
    requires bit < 64
    ensures bit < 32 ==> !BitGet8(n, bit)
    ensures n & !Mask8(bit) == number & !Mask8(bit)
  {
    var m := Mask8(bit);
    n := number & !m;
    ClearBits8(number, bit, m);
  }

  lemma ClearBits8(x: bv8, bit: bv8, m: bv8)
    requires bit < 64 && m == (if bit < 8 then 1 << bit else 0)
    ensures bit < 8 ==> ((x & !m) >> bit) & 1 == 0
    ensures (x & !m) & !m == x & !m
  {
  }

  /** `bitToggle(u8)`: flips bit `bit` (when it is below 8), keeps every other bit. */
  method BitToggle8(number: bv8, bit: bv8) returns (n: bv8)
    requires bit < 64
    ensures bit < 8 ==> BitGet8(n, bit) == !BitGet8(number, bit)
    ensures n & !Mask8(bit) == number & !Mask8(bit)
  {
    var m := Mask8(bit);
    n := number ^ m;
    ToggleBits8(number, bit, m);
  }

  lemma ToggleBits8(x: bv8, bit: bv8, m: bv8)
    requires bit < 64 && m == (if bit < 8 then 1 << bit else 0)
    ensures bit < 8 ==> (((x ^ m) >> bit) & 1 == 1 <==> (x >> bit) & 1 == 0)
    ensures (x ^ m) & !m == x & !m
  {
  }

  /**
   * `bitDefine(u8)`: sets bit `bit` to `value`. The value is shifted as an
   * `int`, so the count must stay below 32. The two values are written
   * apart: with `false` the shifted value is 0 and only the clearing remains.
   */
  method BitDefine8(number: bv8, bit: bv8, value: bool) returns (n: bv8)
    requires bit < 32
    ensures bit < 8 ==> BitGet8(n, bit) == value
    ensures n & !Mask8(bit) == number & !Mask8(bit)
  {
    if value {
      n := (number & !Mask8(bit)) | Mask8(bit);
      DefineOne8(number, bit);
    } else {
      n := number & !Mask8(bit);
      DefineZero8(number, bit);
    }
  }

  lemma DefineOne8(x: bv8, bit: bv8)
    requires bit < 32
    ensures bit < 8 ==> BitGet8((x & !Mask8(bit)) | Mask8(bit), bit)
    ensures ((x & !Mask8(bit)) | Mask8(bit)) & !Mask8(bit) == x & !Mask8(bit)
  {
    SetBits8(x & !Mask8(bit), bit, Mask8(bit));
    ClearBits8(x, bit, Mask8(bit));
  }

  lemma DefineZero8(x: bv8, bit: bv8)
    requires bit < 32
    ensures bit < 8 ==> !BitGet8(x & !Mask8(bit), bit)
    ensures (x & !Mask8(bit)) & !Mask8(bit) == x & !Mask8(bit)
  {
    ClearBits8(x, bit, Mask8(bit));
  }
}

/**
 * `log2i` of include/baseFunctions.h: the integer base-2 logarithm,
 * stated over powers of two. It is kept apart from the bit operations
 * above because its proofs are about integers, not bit-vectors.
 */
module BaseLog {
  import opened BaseType

  /** 2 to the power `k`. */
  function Pow2(k: nat): (p: nat)
    ensures 1 <= p
  {
    if k == 0 then 1 else 2 * Pow2(k - 1)
  }

  /** Powers of two grow with the exponent. */
  lemma {:induction false} Pow2Monotone(i: nat, j: nat)
    requires i <= j
    ensures Pow2(i) <= Pow2(j)
    decreases j
  {
    if i < j {
      Pow2Monotone(i, j - 1);
    }
  }

  lemma Pow2Of32()
    ensures Pow2(32) == 0x1_0000_0000
  {
    assert Pow2(8) == 0x100;
    assert Pow2(16) == 0x1_0000;
    assert Pow2(24) == 0x100_0000;
  }

  /** Powers of two determine their exponent: a smaller power has a smaller exponent. */
  lemma Pow2Reflect(i: nat, j: nat)
    requires Pow2(i) < Pow2(j)
    ensures i < j
  {
    if j <= i {
      Pow2Monotone(j, i);
      assert false;
    }
  }

  /** The number of significant bits of `x`: halve until nothing is left. */
  function BitLength(x: nat): (r: nat)
    ensures r == 0 <==> x == 0
  {
    if x == 0 then 0 else 1 + BitLength(x / 2)
  }

  /** A positive `x` with r significant bits lies in [2^(r-1), 2^r). */
  lemma {:induction false} BitLengthBounds(x: nat)
    requires x != 0
    ensures Pow2(BitLength(x) - 1) <= x < Pow2(BitLength(x))
  {
    if x >= 2 {
      BitLengthBounds(x / 2);
    }
  }

  /**
   * `__builtin_clz`: the number of zero bits above the highest set bit of
   * a 32-bit word; undefined for 0.
   */
  function Clz(x: U32): (n: nat)
    requires x != 0
    ensures n < 32
    ensures Pow2(31 - n) <= x as int < Pow2(32 - n)
  {
    BitLengthBounds(x as int);
    Pow2Of32();
    Pow2Reflect(BitLength(x as int) - 1, 32);
    32 - BitLength(x as int)
  }

  /**
   * `log2i` (the GCC branch): `32 - __builtin_clz(x)`, the number of
   * significant bits of `x`, so 2^(r-1) <= x < 2^r. `__builtin_clz(0)` is
   * undefined, so `x` must not be 0.
   */
  function Log2i(x: U32): (r: nat)
    requires x != 0
    ensures 1 <= r <= 32
    ensures Pow2(r - 1) <= x as int < Pow2(r)
  {
    32 - Clz(x)
  }

  /** Only one count r has 2^(r-1) <= x < 2^r. */
  lemma Log2iUnique(x: U32, r: nat)
    requires x != 0 && 1 <= r
    requires Pow2(r - 1) <= x as int < Pow2(r)
    ensures Log2i(x) == r
  {
    SameCount(x as int, r, Log2i(x));
  }

  /** Two counts that both bracket x are equal. */
  lemma SameCount(x: int, r: nat, s: nat)
    requires 1 <= r && 1 <= s
    requires Pow2(r - 1) <= x < Pow2(r)
    requires Pow2(s - 1) <= x < Pow2(s)
    ensures r == s
  {
    Pow2Reflect(r - 1, s);
    Pow2Reflect(s - 1, r);
  }

  /** `log2i` of 1, 2, 3, 8 and 2^31. */
  lemma Log2iValues()
    ensures Log2i(1) == 1 && Log2i(2) == 2 && Log2i(3) == 2
    ensures Log2i(8) == 4 && Log2i(0x8000_0000) == 32
  {
    Log2iUnique(1, 1);
    Log2iUnique(2, 2);
    Log2iUnique(3, 2);
    Log2iUnique(8, 4);
    Pow2Of32();
    Log2iUnique(0x8000_0000, 32);
  }
}
