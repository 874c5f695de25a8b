/**
 * C++ integer arithmetic on unbounded integers.
 *
 * The accelerated operations compute in `int` (32 bits) and the encryption
 * engine in `int64_t`. Overflow in either is undefined behaviour, so the
 * operations that could overflow require their operands to stay in range.
 * C++ `%` truncates toward zero: the remainder takes the sign of the
 * dividend. Dafny's `%` is Euclidean (never negative for a positive
 * divisor), so the C++ operator is written out as `CRem`.
 */
module CInts {

  const Int32Max: int := 0x7fff_ffff
  const Int32Min: int := -0x8000_0000
  const Int64Max: int := 0x7fff_ffff_ffff_ffff
  const Int64Min: int := -0x8000_0000_0000_0000

  predicate InInt32(x: int)
  {
    Int32Min <= x <= Int32Max
  }

  predicate InInt64(x: int)
  {
    Int64Min <= x <= Int64Max
  }

  function Abs(x: int): nat
  {
    if x < 0 then -x else x
  }

  /** The C++ remainder `x % m`: its magnitude is below |m|, it has the sign
    * of x, and x minus it is a multiple of m. */
  function CRem(x: int, m: int): (r: int)
    requires m != 0
    ensures Abs(r) < Abs(m)
    ensures x >= 0 ==> r >= 0
    ensures x <= 0 ==> r <= 0
    ensures (x - r) % Abs(m) == 0
  {
    var ax, am := Abs(x), Abs(m);
    var k, q := ax / am, ax % am;
    assert ax == k * am + q;
    if x >= 0 then
      ModOfMultiple(k, am);
      q
    else
      ModOfMultiple(-k, am);
      assert x + q == (-k) * am;
      -q
  }

  /** Euclidean division is unique: a decomposition x == k*m + r with r in
    * [0, m) is the one `/` and `%` compute. */
  lemma ModUnique(x: int, k: int, m: int, r: int)
    requires m > 0 && x == k * m + r && 0 <= r < m
    ensures x % m == r && x / m == k
  {
    var k', r' := x / m, x % m;
    assert x == k' * m + r';
    if k' < k {
      assert (k - k') * m >= m by { MulAtLeast(k - k', m); }
      assert false;
    } else if k < k' {
      assert (k' - k) * m >= m by { MulAtLeast(k' - k, m); }
      assert false;
    }
  }

  lemma MulAtLeast(d: int, m: int)
    requires d >= 1 && m > 0
    ensures d * m >= m
  {
  }

  lemma ModOfMultiple(k: int, m: int)
    requires m > 0
    ensures (k * m) % m == 0
  {
    ModUnique(k * m, k, m, 0);
  }

  /** Adding a multiple of m does not change the Euclidean remainder. */
  lemma ModShift(z: int, q: int, m: int)
    requires m > 0
    ensures (z + q * m) % m == z % m
  {
    var k := z / m;
    assert z + q * m == (k + q) * m + z % m;
    ModUnique(z + q * m, k + q, m, z % m);
  }

  /** Reducing one summand first does not change the remainder of a sum. */
  lemma ModAddLeft(a: int, b: int, m: int)
    requires m > 0
    ensures (a % m + b) % m == (a + b) % m
  {
    assert a + b == (a % m + b) + (a / m) * m;
    ModShift(a % m + b, a / m, m);
  }

  /** On a non-negative dividend and positive divisor the C++ remainder is
    * the Euclidean one. */
  lemma CRemNonNegative(x: int, m: int)
    requires x >= 0 && m > 0
    ensures CRem(x, m) == x % m
  {
    var r := CRem(x, m);
    var k := (x - r) / m;
    ModUnique(x - r, k, m, 0);
    assert x == k * m + r;
    ModUnique(x, k, m, r);
  }
}
