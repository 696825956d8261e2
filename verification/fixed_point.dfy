/*******************************************************************************
 *  17.14 fixed-point arithmetic over 32-bit C `int` values, with F = 2^14.
 *  Every operation requires that its C expression neither overflows `int`
 *  nor divides by zero; mult_fp and div_fp widen to a 64-bit intermediate,
 *  which cannot overflow for 32-bit operands.  C integer division
 *  truncates toward zero, so it is modelled by TruncDiv rather than by
 *  Dafny's Euclidean `/`.
 *******************************************************************************/

module FixedPoint {

  /** The scale factor F = 1 << 14. */
  const F: int := 16384

  const INT_MAX: int := 0x7FFF_FFFF
  const INT_MIN: int := -0x8000_0000

  /** The value is representable as a 32-bit C `int`. */
  predicate IsInt(x: int) {
    INT_MIN <= x <= INT_MAX
  }

  /** The value is representable as a 64-bit `int64_t`. */
  predicate IsInt64(x: int) {
    -0x8000_0000_0000_0000 <= x <= 0x7FFF_FFFF_FFFF_FFFF
  }

  function Abs(x: int): (r: int)
    ensures r >= 0
    ensures r == x || r == -x
  {
    if x < 0 then -x else x
  }

  /** Division of a non-negative dividend by a positive divisor. */
  function NatDiv(a: int, b: int): (m: int)
    requires a >= 0 && b > 0
    ensures m >= 0
    ensures 0 <= a - m * b < b
  {
    a / b
  }

  /**
   * C's `a / b`: the quotient truncated toward zero.  The remainder
   * a - q*b is smaller than |b| in magnitude and carries the sign of `a`.
   */
  function TruncDiv(a: int, b: int): (q: int)
    requires b != 0
    ensures a >= 0 ==> 0 <= a - q * b < Abs(b)
    ensures a < 0 ==> -Abs(b) < a - q * b <= 0
  {
    var m := NatDiv(Abs(a), Abs(b));
    if (a < 0) == (b < 0) then
      assert m * b == m * Abs(b) || m * b == -(m * Abs(b));
      m
    else
      assert -m * b == m * Abs(b) || -m * b == -(m * Abs(b));
      -m
  }

  /** The truncating quotient is the unique one with those remainder properties. */
  lemma TruncDivUnique(a: int, b: int, q: int)
    requires b != 0
    requires a >= 0 ==> 0 <= a - q * b < Abs(b)
    requires a < 0 ==> -Abs(b) < a - q * b <= 0
    ensures TruncDiv(a, b) == q
  {
    var t := TruncDiv(a, b);
    if t != q {
      var d := t - q;
      SubMul(t, q, b);
      assert (a - q * b) - (a - t * b) == d * b;
      if d > 0 {
        MulAtLeast(d, b);
      } else {
        SubMul(q, t, b);
        MulAtLeast(-d, b);
      }
      assert false;
    }
  }

  /** Multiplication distributes over a difference. */
  lemma SubMul(t: int, q: int, b: int)
    ensures (t - q) * b == t * b - q * b
  {
  }

  /** A nonzero multiple of `b` is at least |b| in magnitude. */
  lemma MulAtLeast(d: int, b: int)
    requires d >= 1 && b != 0
    ensures Abs(d * b) >= Abs(b)
  {
    if b > 0 {
      assert d * b == (d - 1) * b + b;
      assert (d - 1) * b >= 0;
    } else {
      assert d * b == (d - 1) * b + b;
      assert (d - 1) * b <= 0;
    }
  }

  /** An exact multiple divides back to its factor. */
  lemma TruncDivExact(k: int, b: int)
    requires b != 0
    ensures TruncDiv(k * b, b) == k
  {
    TruncDivUnique(k * b, b, k);
  }

  /** Truncation is symmetric around zero, unlike Euclidean or floor division. */
  lemma TruncDivNegate(a: int, b: int)
    requires b != 0
    ensures TruncDiv(-a, b) == -TruncDiv(a, b)
  {
    var q := TruncDiv(a, b);
    assert -a - (-q) * b == -(a - q * b);
    TruncDivUnique(-a, b, -q);
  }

  /** int_to_fp: n * F. */
  function IntToFp(n: int): (x: int)
    requires IsInt(n * F)
    ensures IsInt(x)
    ensures x % F == 0 && x / F == n
  {
    n * F
  }

  /** fp_to_int: truncation toward zero. */
  function FpToInt(x: int): (n: int)
    requires IsInt(x)
    ensures IsInt(n)
    ensures x >= 0 ==> n * F <= x < n * F + F
    ensures x < 0 ==> n * F - F < x <= n * F
  {
    TruncDiv(x, F)
  }

  /** fp_to_int_round needs x + F/2 (or x - F/2) to stay within `int`. */
  predicate RoundFits(x: int) {
    IsInt(x) && (if 0 <= x then IsInt(x + F / 2) else IsInt(x - F / 2))
  }

  /** fp_to_int_round: the nearest integer, halves rounded away from zero. */
  function FpToIntRound(x: int): (n: int)
    requires RoundFits(x)
    ensures IsInt(n)
    ensures x >= 0 ==> -F / 2 < n * F - x <= F / 2
    ensures x < 0 ==> -F / 2 <= n * F - x < F / 2
  {
    if 0 <= x then TruncDiv(x + F / 2, F) else TruncDiv(x - F / 2, F)
  }

  /** add_fp: the sum of two fixed-point values. */
  function AddFp(x: int, y: int): (z: int)
    requires IsInt(x) && IsInt(y) && IsInt(x + y)
    ensures IsInt(z)
    ensures z - y == x
  {
    x + y
  }

  /** add_mixed: a fixed-point value plus an integer. */
  function AddMixed(x: int, n: int): (z: int)
    requires IsInt(x) && IsInt(n * F) && IsInt(x + n * F)
    ensures IsInt(z)
    ensures z - x == n * F
  {
    x + n * F
  }

  /** sub_fp: x - y. */
  function SubFp(x: int, y: int): (z: int)
    requires IsInt(x) && IsInt(y) && IsInt(x - y)
    ensures IsInt(z)
    ensures z + y == x
  {
    x - y
  }

  /** sub_mixed: x - n * F. */
  function SubMixed(x: int, n: int): (z: int)
    requires IsInt(x) && IsInt(n * F) && IsInt(x - n * F)
    ensures IsInt(z)
    ensures z + n * F == x
  {
    x - n * F
  }

  /** mult_fp's result fits once the 64-bit product is scaled back. */
  predicate MultFpFits(x: int, y: int) {
    IsInt(x) && IsInt(y) && IsInt(TruncDiv(x * y, F))
  }

  /** mult_fp: ((int64_t) x) * y / F. */
  function MultFp(x: int, y: int): (z: int)
    requires MultFpFits(x, y)
    ensures IsInt(z)
    ensures x * y >= 0 ==> z * F <= x * y < z * F + F
    ensures x * y < 0 ==> z * F - F < x * y <= z * F
  {
    Int64Product(x, y);
    TruncDiv(x * y, F)
  }

  /** mult_mixed: x * n. */
  function MultMixed(x: int, n: int): (z: int)
    requires IsInt(x) && IsInt(n) && IsInt(x * n)
    ensures IsInt(z)
    ensures n != 0 ==> z % n == 0 && TruncDiv(z, n) == x
    ensures n == 0 ==> z == 0
  {
    if n != 0 then TruncDivExact(x, n); MulIsMultiple(x, n); x * n else x * n
  }

  /** A product is a multiple of either factor: its remainder is zero. */
  lemma MulIsMultiple(x: int, n: int)
    requires n != 0
    ensures (x * n) % n == 0
  {
    var q, r := (x * n) / n, (x * n) % n;
    assert x * n == q * n + r && 0 <= r < Abs(n);
    SubMul(x, q, n);
    assert r == (x - q) * n;
    if x - q > 0 {
      MulAtLeast(x - q, n);
    } else if x - q < 0 {
      SubMul(q, x, n);
      MulAtLeast(q - x, n);
    }
  }

  /** div_fp's result fits once the 64-bit dividend is divided. */
  predicate DivFpFits(x: int, y: int) {
    IsInt(x) && IsInt(y) && y != 0 && IsInt(TruncDiv(x * F, y))
  }

  /** div_fp: ((int64_t) x) * F / y. */
  function DivFp(x: int, y: int): (z: int)
    requires DivFpFits(x, y)
    ensures IsInt(z)
    ensures x >= 0 ==> 0 <= x * F - z * y < Abs(y)
    ensures x < 0 ==> -Abs(y) < x * F - z * y <= 0
  {
    Int64Product(x, F);
    TruncDiv(x * F, y)
  }

  /** div_mixed: x / n, which overflows only for INT_MIN / -1. */
  function DivMixed(x: int, n: int): (z: int)
    requires IsInt(x) && IsInt(n) && n != 0 && IsInt(TruncDiv(x, n))
    ensures IsInt(z)
    ensures x >= 0 ==> 0 <= x - z * n < Abs(n)
    ensures x < 0 ==> -Abs(n) < x - z * n <= 0
  {
    TruncDiv(x, n)
  }

  /** The 64-bit intermediate of mult_fp and div_fp never overflows. */
  lemma Int64Product(x: int, y: int)
    requires IsInt(x) && IsInt(y)
    ensures IsInt64(x * y)
  {
    var ax, ay := Abs(x), Abs(y);
    MulBound(ax, ay);
    if (x < 0) == (y < 0) {
      assert x * y == ax * ay;
    } else {
      assert x * y == -(ax * ay);
    }
  }

  /** Two magnitudes of at most 2^31 multiply to at most 2^62. */
  lemma MulBound(a: int, b: int)
    requires 0 <= a <= 0x8000_0000 && 0 <= b <= 0x8000_0000
    ensures 0 <= a * b <= 0x4000_0000_0000_0000
  {
    MulMono(a, 0x8000_0000, b);
    MulMono(b, 0x8000_0000, 0x8000_0000);
  }

  /** Multiplying by a non-negative factor preserves order. */
  lemma MulMono(a: int, b: int, c: int)
    requires 0 <= a <= b && 0 <= c
    ensures 0 <= a * c <= b * c
  {
    assert b * c - a * c == (b - a) * c;
  }

  /** Converting an integer to fixed point and back truncates nothing. */
  lemma {:induction false} FpToIntOfIntToFp(n: int)
    requires IsInt(n * F)
    ensures FpToInt(IntToFp(n)) == n
  {
    TruncDivExact(n, F);
  }

  /** Rounding an exact fixed-point integer returns that integer. */
  lemma {:induction false} FpToIntRoundOfIntToFp(n: int)
    requires IsInt(n * F) && RoundFits(n * F)
    ensures FpToIntRound(IntToFp(n)) == n
  {
    var x := n * F;
    if 0 <= x {
      TruncDivUnique(x + F / 2, F, n);
    } else {
      TruncDivUnique(x - F / 2, F, n);
    }
  }

  /** Truncation toward zero: negating the argument negates the result. */
  lemma FpToIntNegate(x: int)
    requires IsInt(x) && IsInt(-x)
    ensures FpToInt(-x) == -FpToInt(x)
  {
    TruncDivNegate(x, F);
  }

  /** add_mixed is add_fp with the integer converted first. */
  lemma AddMixedIsAddFp(x: int, n: int)
    requires IsInt(x) && IsInt(n * F) && IsInt(x + n * F)
    ensures AddMixed(x, n) == AddFp(x, IntToFp(n))
  {
  }

  /** sub_mixed is sub_fp with the integer converted first. */
  lemma SubMixedIsSubFp(x: int, n: int)
    requires IsInt(x) && IsInt(n * F) && IsInt(x - n * F)
    ensures SubMixed(x, n) == SubFp(x, IntToFp(n))
  {
  }

  /** Multiplying by fixed-point one is the identity. */
  lemma {:induction false} MultFpOne(x: int)
    requires IsInt(x)
    ensures MultFpFits(x, IntToFp(1))
    ensures MultFp(x, IntToFp(1)) == x
  {
    TruncDivExact(x, F);
  }

  /** Dividing by fixed-point one is the identity. */
  lemma {:induction false} DivFpOne(x: int)
    requires IsInt(x)
    ensures DivFpFits(x, IntToFp(1))
    ensures DivFp(x, IntToFp(1)) == x
  {
    TruncDivExact(x, F);
  }

  /** Scaling a converted integer by an integer converts the product. */
  lemma {:induction false} MultMixedOfIntToFp(a: int, b: int)
    requires IsInt(a * F) && IsInt(b) && IsInt((a * b) * F)
    ensures IsInt(IntToFp(a) * b)
    ensures MultMixed(IntToFp(a), b) == IntToFp(a * b)
  {
    assert (a * F) * b == (a * b) * F;
  }
}
