/** The fixed-width signed integers of the synthesizer's C++ code and the shift
    operators it applies to them, stated on Dafny's unbounded integers.

    A shift whose count is negative or not less than the operand's width, and an
    arithmetic result that does not fit the operand's type, are undefined in C++;
    the members that model such operations require their absence instead of
    giving them a meaning. */
module CppInt {

  /** C++ `int`. */
  newtype int32 = x: int | -0x8000_0000 <= x < 0x8000_0000

  /** C++ `long`, 64 bits wide on the LP64 targets the synthesizer is built for. */
  newtype int64 = x: int | -0x8000_0000_0000_0000 <= x < 0x8000_0000_0000_0000

  predicate InInt32(x: int) {
    -0x8000_0000 <= x < 0x8000_0000
  }

  predicate InInt64(x: int) {
    -0x8000_0000_0000_0000 <= x < 0x8000_0000_0000_0000
  }

  function Pow2(k: nat): (r: nat)
    ensures r > 0
  {
    if k == 0 then 1 else 2 * Pow2(k - 1)
  }

  /** `x >> k` on a signed operand: k one-bit arithmetic shifts, each of which
      halves and rounds toward negative infinity. The sign is kept and the
      magnitude never grows. */
  function Shr(x: int, k: nat): (r: int)
    ensures 0 <= x ==> 0 <= r <= x
    ensures x < 0 ==> x <= r < 0
  {
    if k == 0 then x else Shr(x, k - 1) / 2
  }

  /** `x << k` where the exact result fits its type: k doublings. The sign is
      kept, zero stays zero and the magnitude never shrinks. */
  function Shl(x: int, k: nat): (r: int)
    ensures (r < 0) == (x < 0)
    ensures (r == 0) == (x == 0)
    ensures 0 <= x ==> x <= r
    ensures x < 0 ==> r <= x
  {
    if k == 0 then x else 2 * Shl(x, k - 1)
  }

  lemma DivUnique(x: int, d: int, q: int, r: int)
    requires 0 < d && 0 <= r < d && x == d * q + r
    ensures x / d == q && x % d == r
  {
    var q', r' := x / d, x % d;
    assert d * q + r == d * q' + r';
    if q > q' {
      assert d * q == d * q' + d * (q - q');
      MulAtLeast(d, q - q');
    } else if q < q' {
      assert d * q' == d * q + d * (q' - q);
      MulAtLeast(d, q' - q);
    }
  }

  lemma MulAtLeast(d: int, a: int)
    requires 0 < d && 1 <= a
    ensures d <= d * a
  {
    assert d * a == d + d * (a - 1);
  }

  /** Dividing by m and then halving is dividing by 2 * m (floor division). */
  lemma DivHalf(x: int, m: int)
    requires 0 < m
    ensures x / m / 2 == x / (2 * m)
  {
    var q, r := x / m, x % m;
    var q2 := q / 2;
    assert x == m * q + r;
    if q % 2 == 0 {
      assert q == 2 * q2;
      assert m * q == (2 * m) * q2;
      DivUnique(x, 2 * m, q2, r);
    } else {
      assert q == 2 * q2 + 1;
      assert m * q == (2 * m) * q2 + m;
      DivUnique(x, 2 * m, q2, m + r);
    }
  }

  /** The arithmetic right shift is floor division by a power of two. */
  lemma {:induction false} ShrIsFloorDivision(x: int, k: nat)
    ensures Shr(x, k) == x / Pow2(k)
  {
    if k > 0 {
      ShrIsFloorDivision(x, k - 1);
      DivHalf(x, Pow2(k - 1));
    }
  }

  /** The left shift is multiplication by a power of two. */
  lemma {:induction false} ShlIsMultiplication(x: int, k: nat)
    ensures Shl(x, k) == x * Pow2(k)
  {
    if k > 0 {
      ShlIsMultiplication(x, k - 1);
      assert 2 * (x * Pow2(k - 1)) == x * (2 * Pow2(k - 1));
    }
  }

  /** Two right shifts in a row are one shift by the sum of their counts. */
  lemma {:induction false} ShrShr(x: int, a: nat, b: nat)
    ensures Shr(Shr(x, a), b) == Shr(x, a + b)
  {
    if b > 0 {
      ShrShr(x, a, b - 1);
    }
  }

  /** Two left shifts in a row are one shift by the sum of their counts. */
  lemma {:induction false} ShlShl(x: int, a: nat, b: nat)
    ensures Shl(Shl(x, a), b) == Shl(x, a + b)
  {
    if b > 0 {
      ShlShl(x, a, b - 1);
    }
  }

  /** A right shift by a fixed count preserves order. */
  lemma {:induction false} ShrMonotone(x: int, y: int, k: nat)
    requires x <= y
    ensures Shr(x, k) <= Shr(y, k)
  {
    if k > 0 {
      ShrMonotone(x, y, k - 1);
    }
  }

  /** Shifting a non-negative value further right never makes it larger. */
  lemma ShrAntitone(x: int, j: nat, k: nat)
    requires 0 <= x && j <= k
    ensures Shr(x, k) <= Shr(x, j)
  {
    ShrShr(x, j, k - j);
  }
}
