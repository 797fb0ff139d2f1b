/**
 * `getStats` of include/stdComputeStats.h, for the `u32` element type.
 *
 * One pass accumulates the sum and the sum of squares, then the mean is
 * the sum divided by the element count and two scans find the smallest
 * and the largest element. All arithmetic is `u32` arithmetic, so every
 * sum and product is taken modulo 2^32 (`Wrap`); the exact sums are
 * `Total` and `SquareTotal`.
 */
module Stats {
  import opened BaseType

  /** A value narrowed to `u32`: its remainder modulo 2^32. */
  function Wrap(x: int): U32
  {
    (x % 0x1_0000_0000) as U32
  }

  /** Adding after a narrowing narrows the exact sum. */
  lemma WrapAdd(a: int, b: int)
    ensures Wrap(Wrap(a) as int + b) == Wrap(a + b)
    ensures Wrap(a + Wrap(b) as int) == Wrap(a + b)
  {
    var m := 0x1_0000_0000;
    assert a == (a / m) * m + Wrap(a) as int;
    assert b == (b / m) * m + Wrap(b) as int;
    ModShift(Wrap(a) as int + b, a / m);
    ModShift(a + Wrap(b) as int, b / m);
  }

  lemma ModShift(x: int, q: int)
    ensures Wrap(x + q * 0x1_0000_0000) == Wrap(x)
  {
  }

  /**
   * One loop step, `sum += i; squareSum += i * i` in `u32`, keeps the
   * accumulators equal to the narrowed exact sums.
   */
  lemma AccumulateStep(p: seq<U32>, x: U32, sum: U32, squareSum: U32)
    requires sum == Wrap(Total(p)) && squareSum == Wrap(SquareTotal(p))
    ensures Wrap(sum as int + x as int) == Wrap(Total(p + [x]))
    ensures Wrap(squareSum as int + Wrap(x as int * x as int) as int) == Wrap(SquareTotal(p + [x]))
  {
    assert (p + [x])[..|p|] == p;
    var xx := x as int * x as int;
    WrapAdd(Total(p), x as int);
    WrapAdd(SquareTotal(p), xx);
    WrapAdd(squareSum as int, xx);
  }

  /** The exact sum of the elements. */
  function Total(s: seq<U32>): int
  {
    if |s| == 0 then 0 else Total(s[..|s| - 1]) + s[|s| - 1] as int
  }

  /** The exact sum of the squares of the elements. */
  function SquareTotal(s: seq<U32>): int
  {
    if |s| == 0 then 0 else SquareTotal(s[..|s| - 1]) + s[|s| - 1] as int * s[|s| - 1] as int
  }

  /** `static_cast<u32>(dataset.size())`: the element count narrowed to `u32`. */
  function Count(s: seq<U32>): U32
  {
    Wrap(|s|)
  }

  /**
   * The results `getStats` computes for an integer type. `radicand` is the
   * argument of the square root that gives `stdDeviation`.
   */
  datatype Summary = Summary(mean: U32, sum: U32, squareSum: U32, radicand: U32, min: U32, max: U32)

  /**
   * The argument of the standard-deviation square root,
   * `squareSum / size - mean * mean`, in `u32` arithmetic.
   */
  function Radicand(squareSum: U32, mean: U32, n: U32): U32
    requires n != 0
  {
    Wrap(squareSum as int / n as int - mean as int * mean as int)
  }

  /** `std::min_element`: the index of the first smallest element. */
  method MinElement(s: seq<U32>) returns (k: nat)
    requires |s| > 0
    ensures k < |s|
    ensures forall j :: 0 <= j < |s| ==> s[k] <= s[j]
    ensures forall j :: 0 <= j < k ==> s[k] < s[j]
  {
    k := 0;
    var i := 1;
    while i < |s|
      invariant 1 <= i <= |s| && k < i
      invariant forall j :: 0 <= j < i ==> s[k] <= s[j]
      invariant forall j :: 0 <= j < k ==> s[k] < s[j]
    {
      if s[i] < s[k] {
        k := i;
      }
      i := i + 1;
    }
  }

  /** `std::max_element`: the index of the first largest element. */
  method MaxElement(s: seq<U32>) returns (k: nat)
    requires |s| > 0
    ensures k < |s|
    ensures forall j :: 0 <= j < |s| ==> s[j] <= s[k]
    ensures forall j :: 0 <= j < k ==> s[j] < s[k]
  {
    k := 0;
    var i := 1;
    while i < |s|
      invariant 1 <= i <= |s| && k < i
      invariant forall j :: 0 <= j < i ==> s[j] <= s[k]
      invariant forall j :: 0 <= j < k ==> s[j] < s[k]
    {
      if s[k] < s[i] {
        k := i;
      }
      i := i + 1;
    }
  }

  /**
   * `getStats`: the sum and the sum of squares modulo 2^32, their mean, and
   * the smallest and largest elements. The mean divides by the narrowed
   * count, which must not be 0; in particular the dataset is not empty, as
   * the scans need. The dataset is a value and cannot change.
   */
  method GetStats(dataset: seq<U32>) returns (res: Summary)
    requires Count(dataset) != 0
    ensures res.sum == Wrap(Total(dataset))
    ensures res.squareSum == Wrap(SquareTotal(dataset))
    ensures res.mean == res.sum / Count(dataset)
    ensures res.radicand == Radicand(res.squareSum, res.mean, Count(dataset))
    ensures res.min in dataset && forall j :: 0 <= j < |dataset| ==> res.min <= dataset[j]
    ensures res.max in dataset && forall j :: 0 <= j < |dataset| ==> dataset[j] <= res.max
  {
    var sum: U32 := 0;
    var squareSum: U32 := 0;
    var i := 0;
    while i < |dataset|
      invariant i <= |dataset|
      invariant sum == Wrap(Total(dataset[..i]))
      invariant squareSum == Wrap(SquareTotal(dataset[..i]))
    {
      var x := dataset[i];
      assert dataset[..i + 1] == dataset[..i] + [x];
      AccumulateStep(dataset[..i], x, sum, squareSum);
      sum := Wrap(sum as int + x as int);
      squareSum := Wrap(squareSum as int + Wrap(x as int * x as int) as int);
      i := i + 1;
    }
    assert dataset[..i] == dataset;
    var mean := sum / Count(dataset);
    var lo := MinElement(dataset);
    var hi := MaxElement(dataset);
    var radicand := Radicand(squareSum, mean, Count(dataset));
    res := Summary(mean, sum, squareSum, radicand, dataset[lo], dataset[hi]);
  }

  /** n copies of c. */
  function Repeat(c: U32, n: nat): (s: seq<U32>)
    ensures |s| == n && forall i :: 0 <= i < n ==> s[i] == c
  {
    seq(n, _ => c)
  }

  /** The sum of n copies of c is n * c. */
  lemma {:induction false} TotalConstant(c: U32, n: nat)
    ensures Total(Repeat(c, n)) == n * c as int
  {
    if n > 0 {
      assert Repeat(c, n)[..n - 1] == Repeat(c, n - 1);
      TotalConstant(c, n - 1);
    }
  }

  /** The sum of the squares of n copies of c is n * c * c. */
  lemma {:induction false} SquareTotalConstant(c: U32, n: nat)
    ensures SquareTotal(Repeat(c, n)) == n * (c as int * c as int)
  {
    if n > 0 {
      assert Repeat(c, n)[..n - 1] == Repeat(c, n - 1);
      SquareTotalConstant(c, n - 1);
    }
  }

  /** Dividing an exact multiple of n by n gives the factor back. */
  lemma DivExact(n: int, q: int)
    requires 0 < n && 0 <= q
    ensures (n * q) / n == q
  {
    var r := (n * q) / n;
    var m := (n * q) % n;
    assert n * q == n * r + m && 0 <= m < n;
    assert n * (q - r) == m;
    if q - r >= 1 {
      MulAtLeast(n, q - r);
      assert false;
    } else if q - r <= -1 {
      MulAtLeast(n, r - q);
      assert false;
    }
  }

  lemma MulAtLeast(n: int, k: int)
    requires 0 < n && 1 <= k
    ensures n <= n * k
  {
  }

  /** A value already in `u32` range is not changed by narrowing. */
  lemma WrapSmall(x: int)
    requires 0 <= x < 0x1_0000_0000
    ensures Wrap(x) as int == x
  {
  }

  /** n copies of c with n * c in range: the narrowed sum is n * c, the mean c. */
  lemma SameElementsMean(c: U32, n: nat)
    requires 0 < n && n * c as int < 0x1_0000_0000
    ensures Wrap(Total(Repeat(c, n))) as int == n * c as int
    ensures Wrap(Total(Repeat(c, n))) as int / n == c as int
  {
    TotalConstant(c, n);
    WrapSmall(n * c as int);
    DivExact(n, c as int);
  }

  /** n copies of c with n * c * c in range: the narrowed sum of squares is n * c * c. */
  lemma SameElementsSquares(c: U32, n: nat)
    requires 0 < n && n * (c as int * c as int) < 0x1_0000_0000
    ensures Wrap(SquareTotal(Repeat(c, n))) as int == n * (c as int * c as int)
  {
    SquareTotalConstant(c, n);
    WrapSmall(n * (c as int * c as int));
  }

  /** Whatever the count, a sum of squares n * c * c and mean c leave a radicand of 0. */
  lemma ZeroRadicand(c: U32, n: nat, q: U32)
    requires 0 < n < 0x1_0000_0000
    requires q as int == n * (c as int * c as int)
    ensures Radicand(q, c, n as U32) == 0
  {
    DivExact(n, c as int * c as int);
  }

  /**
   * For n copies of c whose sums do not wrap, the mean is c and the
   * argument of the square root is 0, so the deviation is 0.
   */
  lemma SameElements(c: U32, n: nat)
    requires 0 < n < 0x1_0000_0000
    requires n * (c as int * c as int) < 0x1_0000_0000
    ensures var s := Repeat(c, n);
      var sum := Wrap(Total(s));
      var mean := sum / Count(s);
      sum as int == n * c as int && mean == c &&
      Radicand(Wrap(SquareTotal(s)), mean, Count(s)) == 0
  {
    var s := Repeat(c, n);
    WrapSmall(n);
    assert n * c as int <= n * (c as int * c as int) by {
      if c > 0 {
        MulAtLeast(c as int, c as int);
        MulLe(n, c as int, c as int * c as int);
      }
    }
    SameElementsMean(c, n);
    SameElementsSquares(c, n);
    ZeroRadicand(c, n, Wrap(SquareTotal(s)));
  }

  lemma MulLe(n: nat, a: int, b: int)
    requires a <= b
    ensures n * a <= n * b
  {
  }

  /** Eight 23s: sum 184, sum of squares 4232, mean 23, deviation 0. */
  lemma EightTwentyThrees()
    ensures var s := Repeat(23, 8);
      Wrap(Total(s)) == 184 && Wrap(SquareTotal(s)) == 4232 &&
      Wrap(Total(s)) / Count(s) == 23 &&
      Radicand(Wrap(SquareTotal(s)), 23, Count(s)) == 0
  {
    SameElements(23, 8);
    SameElementsSquares(23, 8);
  }
}
