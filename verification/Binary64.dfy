// What the Lua scripts need of IEEE 754 binary64: division rounded to nearest,
// then floored, is exact integer division on the integers they admit.
module Binary64 {
  import opened Arithmetic

  /** 2^53: integers up to here are binary64 values. */
  const EXACT: int := 9_007_199_254_740_992

  /** Integers that are binary64 values: all up to 2^53, the even ones up to 2^54. */
  predicate Representable(z: int)
  {
    -EXACT <= z <= EXACT || (z % 2 == 0 && -2 * EXACT <= z <= 2 * EXACT)
  }

  /** Round-to-nearest with an unbounded exponent: monotone, exact on representable integers, elsewhere within
      half a unit in the last place. Exponent limits do not matter here, no value formed leaves 2^-53 .. 2^55. */
  ghost predicate Rounding(fl: real -> real)
  {
    && (forall z: int :: Representable(z) ==> Image(fl, z) == z as real)
    && (forall x: real :: Close(fl(x), x))
    && (forall x: real, y: real :: x <= y ==> fl(x) <= fl(y))
  }

  lemma RoundingExists()
    ensures Rounding((x: real) => x)
  {
  }

  function Image(fl: real -> real, z: int): real { fl(z as real) }

  ghost predicate Close(y: real, x: real)
  {
    && (y - x) * 9_007_199_254_740_992.0 <= Abs(x)
    && (x - y) * 9_007_199_254_740_992.0 <= Abs(x)
  }

  function Abs(x: real): real { if x < 0.0 then -x else x }

  /** math.floor(n / d). */
  function FloorDiv(fl: real -> real, n: int, d: int): int
    requires 0 < d
  {
    fl(n as real / d as real).Floor
  }

  /** A rounded quotient scaled back misses its numerator by less than one. */
  lemma {:induction false} ScaledError(y: real, x: real, n: real, d: real)
    requires 0.0 < d && x * d == n && Close(y, x) && -9_007_199_254_740_992.0 < n < 9_007_199_254_740_992.0
    ensures n - 1.0 < y * d < n + 1.0
  {
    var e := y - x;
    assert y * d == n + e * d by { assert y * d == (x + e) * d; }
    assert Abs(x) * d == Abs(n) by { if x < 0.0 { assert x * d < 0.0; } else { assert x * d >= 0.0; } }
    Scale(e * 9_007_199_254_740_992.0, Abs(x), d);
    Scale(-e * 9_007_199_254_740_992.0, Abs(x), d);
    assert e * 9_007_199_254_740_992.0 * d == e * d * 9_007_199_254_740_992.0;
    assert -e * 9_007_199_254_740_992.0 * d == -(e * d) * 9_007_199_254_740_992.0;
  }

  lemma Scale(a: real, b: real, k: real)
    requires a <= b && 0.0 < k
    ensures a * k <= b * k
  {
    assert (b - a) * k >= 0.0;
  }

  lemma ScaleStrict(a: real, b: real, k: real)
    requires a < b && 0.0 < k
    ensures a * k < b * k
  {
    assert (b - a) * k > 0.0;
  }

  lemma Distribute(a: real, k: real)
    ensures (a + 1.0) * k == a * k + k
  {
  }

  lemma {:induction false} Between(y: real, q: real, n: real, d: real)
    requires 0.0 < d && n - 1.0 < y * d < n + 1.0 && q * d + 1.0 <= n <= q * d + d - 1.0
    ensures q <= y < q + 1.0
  {
    Distribute(q, d);
    if y < q { ScaleStrict(y, q, d); }
    if y >= q + 1.0 { Scale(q + 1.0, y, d); }
  }

  /** Floor division exactness, for numerators below 2^53 in magnitude, negative ones too. */
  lemma {:induction false} FloorDivExact(fl: real -> real, n: int, d: int)
    requires Rounding(fl) && 0 < d && -EXACT < n < EXACT
    ensures FloorDiv(fl, n, d) == n / d
  {
    var q, r := n / d, n % d;
    DivBounds(n, d);
    QuotientBound(n, d);
    var x, rd := n as real / d as real, d as real;
    var y := fl(x);
    assert x * rd == n as real;
    if r == 0 {
      WholeQuotient(x, q, n, d);
      assert y == Image(fl, q) == q as real;
    } else {
      ScaledError(y, x, n as real, rd);
      AwayFromMultiples(q, n, d);
      Between(y, q as real, n as real, rd);
    }
  }

  lemma {:induction false} AwayFromMultiples(q: int, n: int, d: int)
    requires q * d + 1 <= n <= q * d + d - 1
    ensures q as real * d as real + 1.0 <= n as real <= q as real * d as real + d as real - 1.0
  {
    IntProduct(q, d);
    var low := q * d;
    assert (low + 1) as real == low as real + 1.0 && (low + d - 1) as real == low as real + d as real - 1.0;
  }

  lemma {:induction false} QuotientBound(n: int, d: int)
    requires 0 < d && -EXACT < n < EXACT
    ensures -EXACT <= n / d <= EXACT
  {
    DivBounds(n, d);
    if n >= 0 { DivMonotone(0, n, d); MulMonotone(1, d, n / d); }
    else if n / d < n { MulMonotone(n / d, n - 1, d); MulMonotone(1, d, -n); }
    else { DivMonotone(n, 0, d); }
  }

  lemma IntProduct(a: int, b: int)
    ensures (a * b) as real == a as real * b as real
  {
  }

  lemma {:induction false} WholeQuotient(x: real, q: int, n: int, d: int)
    requires 0 < d && x * d as real == n as real && n == q * d
    ensures x == q as real
  {
    IntProduct(q, d);
    var e := x - q as real;
    assert e * d as real == 0.0 by { assert e * d as real == x * d as real - q as real * d as real; }
    if e > 0.0 { ScaleStrict(0.0, e, d as real); }
    if e < 0.0 { ScaleStrict(e, 0.0, d as real); }
  }

  /** The integer a sum, difference or product of integers rounds to. */
  function Num(fl: real -> real, z: int): int { Image(fl, z).Floor }

  lemma NumExact(fl: real -> real, z: int)
    requires Rounding(fl) && -EXACT <= z <= EXACT
    ensures Num(fl, z) == z
  {
    assert Representable(z);
    assert Image(fl, z) == z as real;
  }

  /** Rounding keeps an integer on its side of a bound below 2^53, wherever the integer itself is. */
  lemma {:induction false} NumInside(fl: real -> real, z: int, bound: int)
    requires Rounding(fl) && 0 <= bound < EXACT
    ensures Num(fl, z) <= bound <==> z <= bound
    ensures -bound <= Num(fl, z) <==> -bound <= z
  {
    if -EXACT <= z <= EXACT { NumExact(fl, z); }
    else if z > EXACT { assert Image(fl, EXACT) <= Image(fl, z); }
    else { assert Image(fl, z) <= Image(fl, -EXACT); }
  }

  lemma {:induction false} NumWithin(fl: real -> real, z: int, low: int, high: int)
    requires Rounding(fl) && low <= z <= high && Representable(low) && Representable(high)
    ensures low <= Num(fl, z) <= high
  {
    assert Image(fl, low) <= Image(fl, z) <= Image(fl, high);
    assert Image(fl, low) == low as real && Image(fl, high) == high as real;
  }

  /** A positive numerator of at least the divisor has a positive rounded quotient. */
  lemma {:induction false} FloorDivPositive(fl: real -> real, n: int)
    requires Rounding(fl) && 16 <= n
    ensures FloorDiv(fl, n, 16) >= 1
  {
    var x := n as real / 16.0;
    if n < EXACT { FloorDivExact(fl, n, 16); }
    else { assert Close(fl(x), x); }
  }
}
