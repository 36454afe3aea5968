// Machine arithmetic the backends rely on: unsigned 64-bit words, the
// double-word operations of math/bits, and Go's truncating division.
module Arithmetic {

  const WORD: int := 0x1_0000_0000_0000_0000

  type u64 = x: int | 0 <= x < 0x1_0000_0000_0000_0000
  type i64 = x: int | -0x8000_0000_0000_0000 <= x < 0x8000_0000_0000_0000

  // ---------------------------------------------------------------- math/bits

  /** bits.Mul64: the full 128-bit product as two words. */
  function Mul64(x: u64, y: u64): (r: (u64, u64))
    ensures r.0 * WORD + r.1 == x * y
  {
    MulWords(x, y);
    (x * y / WORD, x * y % WORD)
  }

  /** bits.Add64 with a carry-in of zero. */
  function Add64(x: u64, y: u64): (r: (u64, u64))
    ensures r.0 + r.1 * WORD == x + y
    ensures r.1 <= 1
  {
    if x + y < WORD then (x + y, 0) else (x + y - WORD, 1)
  }

  /** bits.Sub64 with a borrow-in of zero. */
  function Sub64(x: u64, y: u64): (r: (u64, u64))
    ensures r.0 == x - y + r.1 * WORD
    ensures r.1 <= 1
  {
    if x >= y then (x - y, 0) else (x - y + WORD, 1)
  }

  /** bits.Div64 panics unless the high word is below the divisor. */
  function Div64(high: u64, low: u64, divisor: u64): (r: (u64, u64))
    requires high < divisor
    ensures high * WORD + low == r.0 * divisor + r.1
    ensures r.1 < divisor
  {
    DivWords(high, low, divisor);
    ((high * WORD + low) / divisor, (high * WORD + low) % divisor)
  }

  /** Wrapping uint64 addition, written as plain + in the source. */
  function WrapAdd(x: u64, y: u64): (r: u64)
    ensures r == x + y || r == x + y - WORD
  {
    if x + y < WORD then x + y else x + y - WORD
  }

  const MIN_INT64: int := -0x8000_0000_0000_0000

  /** int64 arithmetic: the value modulo 2^64 that an int64 holds. */
  function Wrap64(x: int): (r: int)
    ensures MIN_INT64 <= r < -MIN_INT64
    ensures MIN_INT64 <= x < -MIN_INT64 ==> r == x
    ensures MIN_INT64 - WORD <= x < MIN_INT64 ==> r == x + WORD
    ensures -MIN_INT64 <= x < -MIN_INT64 + WORD ==> r == x - WORD
  {
    (x - MIN_INT64) % WORD + MIN_INT64
  }

  lemma MulWords(x: u64, y: u64)
    ensures 0 <= x * y < WORD * WORD
  {
    assert 0 <= x * y by { MulMonotone(0, x, y); }
    MulMonotone(x, WORD - 1, y);
    MulMonotone(y, WORD - 1, WORD - 1);
  }

  lemma DivWords(high: u64, low: u64, divisor: u64)
    requires high < divisor
    ensures (high * WORD + low) / divisor < WORD
  {
    var n, q := high * WORD + low, (high * WORD + low) / divisor;
    assert n < (high + 1) * WORD;
    MulMonotone(high + 1, divisor, WORD);
    DivBounds(n, divisor);
    if q >= WORD {
      MulMonotone(WORD, q, divisor);
      assert false;
    }
  }

  // ------------------------------------------------------ nonlinear basics

  lemma MulMonotone(a: int, b: int, k: int)
    requires a <= b && 0 <= k
    ensures a * k <= b * k
  {
  }

  lemma DivBounds(n: int, d: int)
    requires 0 < d
    ensures (n / d) * d <= n < (n / d) * d + d
    ensures n == (n / d) * d + n % d
  {
  }

  /** A quotient is determined by the interval it names. */
  lemma {:induction false} DivUnique(n: int, d: int, q: int)
    requires 0 < d
    requires q * d <= n < q * d + d
    ensures n / d == q && n % d == n - q * d
  {
    DivBounds(n, d);
    var e := n / d - q;
    assert -d < e * d < d by { assert e * d == (n / d) * d - q * d; }
    if e >= 1 { MulMonotone(1, e, d); assert false; }
    if e <= -1 { MulMonotone(e, -1, d); assert false; }
  }

  lemma {:induction false} DivMonotone(a: int, b: int, d: int)
    requires 0 < d && a <= b
    ensures a / d <= b / d
  {
    DivBounds(a, d);
    DivBounds(b, d);
    if a / d > b / d {
      MulMonotone(b / d + 1, a / d, d);
      assert false;
    }
  }

  lemma {:induction false} DivShift(a: int, k: int, d: int)
    requires 0 < d
    ensures (a + k * d) / d == a / d + k
    ensures (a + k * d) % d == a % d
  {
    DivBounds(a, d);
    assert (a / d + k) * d == (a / d) * d + k * d;
    DivUnique(a + k * d, d, a / d + k);
  }

  // ------------------------------------------------------ rounding division

  /** Least integer q with q * d >= n. */
  function CeilDiv(n: int, d: int): int
    requires 0 < d
  {
    if n % d == 0 then n / d else n / d + 1
  }

  lemma {:induction false} CeilDivBounds(n: int, d: int)
    requires 0 < d
    ensures (CeilDiv(n, d) - 1) * d < n <= CeilDiv(n, d) * d
  {
    DivBounds(n, d);
    assert (n / d + 1) * d == (n / d) * d + d && (n / d - 1) * d == (n / d) * d - d;
  }

  lemma {:induction false} CeilDivUnique(n: int, d: int, q: int)
    requires 0 < d
    requires (q - 1) * d < n <= q * d
    ensures CeilDiv(n, d) == q
  {
    hide CeilDiv;
    var c := CeilDiv(n, d);
    CeilDivBounds(n, d);
    assert (c - 1) * d == c * d - d && (q - 1) * d == q * d - d;
    if c < q { MulMonotone(c, q - 1, d); assert false; }
    if q < c { MulMonotone(q, c - 1, d); assert false; }
  }

  /** Waiting q units of time yields n units of work exactly from CeilDiv(n, d) on. */
  lemma {:induction false} CeilDivLeast(n: int, d: int, q: int)
    requires 0 < d
    ensures n <= q * d <==> CeilDiv(n, d) <= q
  {
    hide CeilDiv;
    var c := CeilDiv(n, d);
    CeilDivBounds(n, d);
    assert (c - 1) * d == c * d - d;
    if c <= q { MulMonotone(c, q, d); }
    if q < c { MulMonotone(q, c - 1, d); }
  }

  // ------------------------------------------------------ Go integer division

  /** Go's / truncates toward zero. */
  function GoDiv(value: int, size: int): int
    requires 0 < size
  {
    if value >= 0 then value / size else -((-value) / size)
  }

  function GoMod(value: int, size: int): int
    requires 0 < size
  {
    value - GoDiv(value, size) * size
  }

  /** The floor helper: the greatest multiple of size not above value, for negative values too. */
  function Floor(value: int, size: int): (r: int)
    requires 0 < size
    ensures r == (value / size) * size
    ensures r <= value < r + size
  {
    GoDivFloor(value, size);
    var quotient := GoDiv(value, size);
    if GoMod(value, size) == 0 then quotient * size
    else if value < 0 then (quotient - 1) * size
    else quotient * size
  }

  lemma {:induction false} FloorMonotone(a: int, b: int, size: int)
    requires 0 < size && a <= b
    ensures Floor(a, size) <= Floor(b, size)
  {
    DivMonotone(a, b, size);
    MulMonotone(a / size, b / size, size);
  }

  lemma {:induction false} GoDivFloor(value: int, size: int)
    requires 0 < size
    ensures GoMod(value, size) == 0 ==> GoDiv(value, size) == value / size
    ensures GoMod(value, size) != 0 && value < 0 ==> GoDiv(value, size) - 1 == value / size
    ensures value >= 0 ==> GoDiv(value, size) == value / size
    ensures (value / size) * size <= value < (value / size) * size + size
  {
    DivBounds(value, size);
    if value < 0 {
      DivBounds(-value, size);
      var q := (-value) / size;
      assert (-q) * size == -(q * size) && (-q - 1) * size == -(q * size) - size;
      if GoMod(value, size) == 0 {
        DivUnique(value, size, -q);
      } else {
        DivUnique(value, size, -q - 1);
      }
    }
  }

  /** The segment index of an instant: floor(value, width) / width under Go division. */
  lemma {:induction false} FloorIndex(value: int, width: int)
    requires 0 < width
    ensures GoDiv(Floor(value, width), width) == value / width
  {
    var q := value / width;
    if q >= 0 {
      MulMonotone(0, q, width);
      DivUnique(q * width, width, q);
    } else {
      MulMonotone(q, -1, width);
      assert -(q * width) == (-q) * width;
      DivUnique((-q) * width, width, -q);
    }
  }

  /** positiveRemainder: the Euclidean remainder computed with Go's %. */
  function PositiveRemainder(value: int, modulus: int): (r: int)
    requires 0 < modulus
    ensures r == value % modulus
    ensures 0 <= r < modulus
  {
    PositiveRemainderEuclid(value, modulus);
    var result := GoMod(value, modulus);
    if result < 0 then result + modulus else result
  }

  lemma {:induction false} PositiveRemainderEuclid(value: int, modulus: int)
    requires 0 < modulus
    ensures value % modulus == if GoMod(value, modulus) < 0 then GoMod(value, modulus) + modulus
            else GoMod(value, modulus)
  {
    GoDivFloor(value, modulus);
    DivBounds(value, modulus);
    if value < 0 && GoMod(value, modulus) != 0 {
      assert (value / modulus + 1) * modulus == (value / modulus) * modulus + modulus;
    }
  }

  function Min(a: int, b: int): int { if a <= b then a else b }
  function Max(a: int, b: int): int { if a >= b then a else b }
}
