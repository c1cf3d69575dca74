/** Fixed-width machine integers and the powers-of-two arithmetic the bit-level models rely on. */
module Ints {

  /** C `int` on the targets the demos are built for: 32-bit two's complement. */
  newtype int32 = x: int | -0x8000_0000 <= x < 0x8000_0000

  /** Go `int` on 64-bit targets: 64-bit two's complement. */
  newtype int64 = x: int | -0x8000_0000_0000_0000 <= x < 0x8000_0000_0000_0000

  const INT32_MAX: int32 := 0x7fff_ffff
  const INT64_MIN: int64 := -0x8000_0000_0000_0000
  const INT64_MAX: int64 := 0x7fff_ffff_ffff_ffff

  function Pow2(n: nat): (r: nat)
    ensures r >= 1
    ensures n >= 1 ==> r % 2 == 0
  {
    if n == 0 then 1 else 2 * Pow2(n - 1)
  }

  lemma {:induction false} Pow2Add(m: nat, n: nat)
    ensures Pow2(m + n) == Pow2(m) * Pow2(n)
  {
    if m > 0 {
      Pow2Add(m - 1, n);
      assert Pow2(m + n) == 2 * Pow2(m - 1 + n);
    }
  }

  const TWO_TO_32: nat := 0x1_0000_0000

  lemma Pow2Of32()
    ensures Pow2(32) == TWO_TO_32
  {
    assert Pow2(8) == 256;
    Pow2Add(8, 8);
    Pow2Add(16, 16);
  }

  lemma {:induction false} MulAtLeast(d: int, k: int)
    requires d > 0 && k >= 1
    ensures d * k >= d
  {
    if k > 1 {
      MulAtLeast(d, k - 1);
      assert d * k == d * (k - 1) + d;
    }
  }

  /** Euclidean division is determined by any quotient/remainder pair that fits. */
  lemma DivModUnique(x: int, d: int, q: int, r: int)
    requires d > 0 && 0 <= r < d && x == d * q + r
    ensures x / d == q && x % d == r
  {
    var q0, r0 := x / d, x % d;
    assert x == d * q0 + r0;
    if q0 > q {
      MulAtLeast(d, q0 - q);
      assert false;
    } else if q0 < q {
      MulAtLeast(d, q - q0);
      assert false;
    }
  }

  lemma DivAddMultiple(x: int, p: int, m: int)
    requires p > 0
    ensures (x + p * m) / p == x / p + m
  {
    var q, r := x / p, x % p;
    assert x == p * q + r;
    assert p * (q + m) == p * q + p * m;
    DivModUnique(x + p * m, p, q + m, r);
  }

  /** Halving and then reducing mod m is reducing mod 2m one bit at a time. */
  lemma ModDouble(y: int, m: int)
    requires m > 0
    ensures y % (2 * m) == 2 * ((y / 2) % m) + y % 2
  {
    var q, r := y / 2, y % 2;
    var t, u := q / m, q % m;
    assert y == (2 * m) * t + (2 * u + r);
    DivModUnique(y, 2 * m, t, 2 * u + r);
  }

  /** Dividing by a and then by b is dividing by a * b. */
  lemma DivDiv(x: int, a: int, b: int)
    requires a > 0 && b > 0
    ensures (x / a) / b == x / (a * b)
  {
    var q1, r1 := x / a, x % a;
    var q2, r2 := q1 / b, q1 % b;
    assert x == a * q1 + r1;
    assert q1 == b * q2 + r2;
    assert a * q1 == (a * b) * q2 + a * r2;
    assert x == (a * b) * q2 + (a * r2 + r1);
    if r2 < b - 1 {
      MulAtLeast(a, b - 1 - r2);
      assert a * (b - 1) == a * r2 + a * (b - 1 - r2);
    }
    assert a * r2 <= a * (b - 1);
    assert a * (b - 1) == a * b - a;
    DivModUnique(x, a * b, q2, a * r2 + r1);
  }
}
