/**
 * Why the exact quotients of the model give the bytes that doubles give: under the standard model of
 * rounding, in which each operation has a relative error of at most 2^-53, no error reaches a half.
 */
module DoubleRounding {
  import opened Arithmetic
  import opened Pixels
  import opened Kernels
  import opened Convolution

  // ---- rounding real numbers ------------------------------------------------------------------

  /** C's `round`. */
  function Round(v: real): int {
    if 0.0 <= v then (v + 0.5).Floor else -((0.5 - v).Floor)
  }

  /** Less than a half away from an integer there is no other to round to, and halves go away from zero. */
  lemma RoundsTo(v: real, r: int)
    requires -0.5 <= v - (r as real) <= 0.5
    requires v - (r as real) == 0.5 ==> r < 0
    requires v - (r as real) == -0.5 ==> 0 < r
    ensures Round(v) == r
  {
  }

  lemma {:induction false} RealProduct(a: int, b: nat)
    ensures (a * b) as real == (a as real) * (b as real)
  {
    if b > 0 {
      RealProduct(a, b - 1);
      RealDistribute(a as real, (b - 1) as real, 1.0);
      Distribute(a, b - 1, 1);
    }
  }

  lemma RealDistribute(a: real, b: real, c: real)
    ensures a * (b + c) == a * b + a * c
  {
  }

  lemma PositiveProduct(a: real, b: real)
    requires 0.0 < a && 0.0 < b
    ensures 0.0 < a * b
  {
  }

  lemma RealOrder(a: real, b: real, d: real)
    requires 0.0 < d
    ensures a * d < b * d <==> a < b
    ensures a * d == b * d <==> a == b
  {
    RealDistribute(d, b, -a);
    if a < b {
      PositiveProduct(d, b - a);
    } else if b < a {
      PositiveProduct(d, a - b);
    }
  }

  /** A product with a factor between -bound and bound. */
  lemma ProductBound(a: real, x: real, bound: real) returns (product: real, total: real)
    requires 0.0 <= a && -bound <= x <= bound
    ensures product == a * x && total == a * bound && -total <= product <= total
  {
    product, total := a * x, a * bound;
    if 0.0 < a {
      RealOrder(x, bound, a);
      RealOrder(-bound, x, a);
      RealDistribute(a, bound, -bound);
    }
  }

  /** The same with an upper bound on the other factor. */
  lemma ProductBelow(a: real, x: real, bound: real, largest: real) returns (product: real, total: real)
    requires 0.0 <= a <= largest && 0.0 < bound && -bound <= x <= bound
    ensures product == a * x && total == largest * bound && -total <= product <= total
  {
    var t;
    product, t := ProductBound(a, x, bound);
    total := largest * bound;
    if a < largest {
      RealOrder(a, largest, bound);
    }
  }

  /** The distance between v and r, scaled by d. */
  lemma ScaledDistance(v: real, r: int, d: nat)
    ensures (v - (r as real)) * (d as real) == v * (d as real) - ((r * d) as real)
  {
    RealProduct(r, d);
    RealDistribute(d as real, v, -(r as real));
  }

  lemma HalfOf(a: real, d: real, z: real)
    requires 0.0 < d && a * d == z && -d <= 2.0 * z <= d
    ensures -0.5 <= a <= 0.5 && (a == 0.5 ==> 2.0 * z == d) && (a == -0.5 ==> 2.0 * z == -d)
  {
    RealOrder(a, 0.5, d);
    RealOrder(-0.5, a, d);
  }

  /** What rounding leaves over, and on which side of zero the halves lie. */
  lemma Remainder(n: int, d: nat, v: real) returns (r: int, e: int)
    requires 0 < d && v * (d as real) == n as real
    ensures r == RoundQuotient(n, d) && (v - (r as real)) * (d as real) == e as real
    ensures -(d as int) <= 2 * e <= d && (2 * e == d ==> r < 0) && (2 * e == -(d as int) ==> 0 < r)
  {
    r := RoundQuotient(n, d);
    e := n - r * d;
    ScaledDistance(v, r, d);
  }

  /** The exact quotient rounds as the model says, halves included. */
  lemma QuotientRounds(n: int, d: nat, v: real)
    requires 0 < d && v * (d as real) == n as real
    ensures Round(v) == RoundQuotient(n, d)
  {
    var r, e := Remainder(n, d, v);
    HalfOf(v - (r as real), d as real, e as real);
    RoundsTo(v, r);
  }

  lemma OddRemainder(n: int, d: nat)
    requires d % 2 == 1
    ensures -(d as int) + 1 <= 2 * (n - RoundQuotient(n, d) * d) <= d - 1
  {
  }

  /** Less than d / 2 after scaling by d is less than a half before. */
  lemma HalfScaled(v: real, r: int, d: nat, z: real)
    requires 0 < d && (v - (r as real)) * (d as real) == z && -(d as real) < 2.0 * z < d as real
    ensures Round(v) == r
  {
    RealOrder(v - (r as real), 0.5, d as real);
    RealOrder(-0.5, v - (r as real), d as real);
    RoundsTo(v, r);
  }

  /** With an odd divisor d, a value less than 1 / (2 * d) away from n / d rounds as n / d does. */
  lemma NearbyRounds(n: int, d: nat, v: real)
    requires d % 2 == 1 && -0.5 < v * (d as real) - (n as real) < 0.5
    ensures Round(v) == RoundQuotient(n, d)
  {
    var r := RoundQuotient(n, d);
    var m := r * d;
    OddRemainder(n, d);
    ScaledDistance(v, r, d);
    HalfScaled(v, r, d, v * (d as real) - (m as real));
  }

  // ---- the errors of doubles ------------------------------------------------------------------

  /** 255 times the largest weight sum of a shipped kernel. */
  const LARGEST_SUM: int := 343995

  /** A bound on the relative error of one operation, far above the 2^-53 of doubles. */
  const LARGEST_ERROR: real := 0.0000001

  predicate SmallError(e: real) {
    -LARGEST_ERROR <= e <= LARGEST_ERROR
  }

  /** The factor 1 / d and the product with it are each rounded once; by a power of two both are exact. */
  predicate Errors(k: Kernel, factorError: real, productError: real) {
    && SmallError(factorError) && SmallError(productError)
    && (k.divisor == 1 || k.divisor == 256 ==> factorError == 0.0 && productError == 0.0)
  }

  /** What the code rounds to a byte: the sum times the factor, plus the bias. */
  function Scaled(k: Kernel, acc: int, factorError: real, productError: real): real {
    var factor := 1.0 / (k.divisor as real) * (1.0 + factorError);
    (acc as real) * factor * (1.0 + productError) + (k.bias as real)
  }

  lemma UnitProduct(a: real, one: real)
    requires one == 1.0
    ensures a * one == a
  {
  }

  lemma NegatedProduct(a: real, b: real)
    ensures (-a) * b == -(a * b)
  {
  }

  /** The product of two errors is smaller than the first. */
  lemma ErrorProduct(e: real, f: real, u: real) returns (product: real)
    requires -u <= e <= u && -u <= f <= u && u <= 1.0
    ensures product == e * f && -u <= product <= u
  {
    var a := if 0.0 <= e then e else -e;
    var one := 1.0;
    var p, total := ProductBound(a, f, one);
    UnitProduct(a, one);
    NegatedProduct(e, f);
    product := if 0.0 <= e then p else -p;
  }

  /** The two relative errors together. */
  lemma TotalError(e: real, f: real, u: real) returns (t: real)
    requires -u <= e <= u && -u <= f <= u && u <= 1.0
    ensures t == e + f + e * f && -(u + u + u) <= t <= u + u + u
  {
    var product := ErrorProduct(e, f, u);
    t := e + f + product;
  }

  lemma Expand(a: real, e: real, f: real)
    ensures a * ((1.0 + e) * (1.0 + f)) == a + a * (e + f + e * f)
  {
    RealDistribute(1.0 + e, 1.0, f);
    RealDistribute(f, 1.0, e);
    RealDistribute(a, 1.0, e + f + e * f);
  }

  lemma Reciprocal(a: real, d: real, s: real, t: real)
    requires 0.0 < d
    ensures a * (1.0 / d * s) * t * d == a * (s * t)
  {
    assert 1.0 / d * d == 1.0;
    assert a * (1.0 / d * s) * t * d == a * (s * t) * (1.0 / d * d);
  }

  /** Without a bias the scaled value times d is the sum with both errors. */
  lemma ScaledBack(k: Kernel, acc: int, e: real, f: real, t: real)
    requires k.bias == 0 && t == e + f + e * f
    ensures Scaled(k, acc, e, f) * (k.divisor as real) == (acc as real) + (acc as real) * t
  {
    Reciprocal(acc as real, k.divisor as real, 1.0 + e, 1.0 + f);
    Expand(acc as real, e, f);
  }

  lemma LargestDrift(u: real, largest: real)
    requires u == LARGEST_ERROR && largest == LARGEST_SUM as real
    ensures 0.0 < u <= 1.0 && largest * (u + u + u) < 0.5
  {
  }

  /** An odd divisor, no bias, and sums that are not too large. */
  lemma OddBytes(k: Kernel, acc: int, e: real, f: real)
    requires k.bias == 0 && k.divisor % 2 == 1 && 0 <= acc <= LARGEST_SUM && SmallError(e) && SmallError(f)
    ensures Round(Scaled(k, acc, e, f)) == RoundQuotient(acc + k.bias * k.divisor, k.divisor)
  {
    var u, largest := LARGEST_ERROR, LARGEST_SUM as real;
    LargestDrift(u, largest);
    var t := TotalError(e, f, u);
    var drift, most := ProductBelow(acc as real, t, u + u + u, largest);
    ScaledBack(k, acc, e, f, t);
    NearbyRounds(acc, k.divisor, Scaled(k, acc, e, f));
  }

  /** A power of two, or no division at all. */
  lemma ExactBytes(k: Kernel, acc: int)
    requires k.bias == 0 || k.divisor == 1
    ensures Round(Scaled(k, acc, 0.0, 0.0)) == RoundQuotient(acc + k.bias * k.divisor, k.divisor)
  {
    if k.bias == 0 {
      ScaledBack(k, acc, 0.0, 0.0, 0.0);
    }
    QuotientRounds(acc + k.bias * k.divisor, k.divisor, Scaled(k, acc, 0.0, 0.0));
  }

  // ---- the bytes of the shipped kernels -------------------------------------------------------

  /** The sums of the kernels that divide by an odd number are not negative and not too large. */
  lemma OddSums(p: Picture, k: Kernel, y: int, x: int, c: Channel)
    requires NonNegative(k.table) && WeightSum(k, k.size) <= 1349
    ensures 0 <= WindowSum(p, k, y, x, k.size, k.size, c) <= LARGEST_SUM
  {
    WindowSumBetween(p, k, y, x, k.size, c, 0, 255);
  }

  /** Kernels of the first kind scale exactly. */
  predicate ScalesExactly(k: Kernel) {
    (k.divisor == 1 || k.divisor == 256) && (k.bias == 0 || k.divisor == 1)
  }

  /** Those of the second kind divide by an odd number. */
  predicate ScalesOddly(k: Kernel) {
    k.divisor % 2 == 1 && k.divisor != 1 && k.bias == 0 && NonNegative(k.table) && WeightSum(k, k.size) <= 1349
  }

  lemma ShippedExact(name: string)
    requires name in {"gb", "co", "sh", "em"}
    ensures FilterByName(name).Some? && FilterByName(name).value.Valid() && ScalesExactly(FilterByName(name).value)
  {
    ShippedKernels(name);
  }

  lemma OddDivisors(name: string)
    requires name in {"mb", "bb", "gg", "mg", "bo"}
    ensures FilterByName(name).Some? && FilterByName(name).value.Valid()
    ensures var k := FilterByName(name).value; k.divisor % 2 == 1 && k.divisor != 1 && k.bias == 0
  {
    ShippedKernels(name);
  }

  lemma OddWeights(name: string)
    requires name in {"mb", "bb", "gg", "mg", "bo"}
    requires FilterByName(name).Some? && FilterByName(name).value.Valid()
    ensures WeightSum(FilterByName(name).value, FilterByName(name).value.size) <= 1349
  {
    ShippedWeightSums(name);
  }

  lemma ShippedOdd(name: string)
    requires name in {"mb", "bb", "gg", "mg", "bo"}
    ensures FilterByName(name).Some? && FilterByName(name).value.Valid() && ScalesOddly(FilterByName(name).value)
  {
    OddDivisors(name);
    OddWeights(name);
    NonNegativeWeights(name);
  }

  /** A kernel of either kind writes the byte of the exact quotient, whatever the errors are. */
  lemma BytesAreExact(p: Picture, k: Kernel, y: int, x: int, c: Channel, factorError: real, productError: real)
    requires (ScalesExactly(k) || ScalesOddly(k)) && Errors(k, factorError, productError)
    ensures Saturate(Round(Scaled(k, WindowSum(p, k, y, x, k.size, k.size, c), factorError, productError))) == ConvChannel(p, k, y, x, c)
  {
    var acc := WindowSum(p, k, y, x, k.size, k.size, c);
    if ScalesExactly(k) {
      ExactBytes(k, acc);
    } else {
      OddSums(p, k, y, x, c);
      OddBytes(k, acc, factorError, productError);
    }
  }

  /**
   * For every shipped kernel, picture, pixel and channel, and whatever the rounding errors of the factor
   * and of the product are, the byte that is written is that of the exact quotient.
   */
  lemma ShippedBytes(p: Picture, name: string, y: int, x: int, c: Channel, factorError: real, productError: real)
    requires FilterByName(name).Some? && FilterByName(name).value.Valid()
    requires Errors(FilterByName(name).value, factorError, productError)
    ensures var k: Kernel := FilterByName(name).value;
            Saturate(Round(Scaled(k, WindowSum(p, k, y, x, k.size, k.size, c), factorError, productError)))
            == ConvChannel(p, k, y, x, c)
  {
    if name in {"gb", "co", "sh", "em"} {
      ShippedExact(name);
    } else {
      ShippedOdd(name);
    }
    BytesAreExact(p, FilterByName(name).value, y, x, c, factorError, productError);
  }

  /** Doubles have relative errors of at most 2^-53, and even those of single precision, 2^-24, are small enough. */
  lemma DoublesHaveSmallErrors(e: real)
    requires -(1.0 / 16777216.0) <= e <= 1.0 / 16777216.0
    ensures SmallError(e)
  {
  }
}
