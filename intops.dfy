/** The bigint operators whose meaning differs from Dafny's.
    Division and remainder on bigints truncate toward zero, while Dafny's
    `/` and `%` are Euclidean. A shift by k is a multiplication by 2^k
    (`<<`) or a floor division by 2^k (`>>`), and floor division by a
    positive divisor is Dafny's `/`. Masking with 2^n - 1 is `% 2^n`. */
module IntOps {

  /** 2^n, the value of `1n << n`. */
  function Pow2(n: nat): (r: nat)
    ensures r >= 1
  {
    if n == 0 then 1 else 2 * Pow2(n - 1)
  }

  lemma {:induction false} Pow2Add(a: nat, b: nat)
    ensures Pow2(a + b) == Pow2(a) * Pow2(b)
  {
    if a > 0 {
      Pow2Add(a - 1, b);
      assert Pow2(a + b) == 2 * Pow2(a - 1 + b);
    }
  }

  lemma {:induction false} Pow2Monotone(a: nat, b: nat)
    requires a <= b
    ensures Pow2(a) <= Pow2(b)
  {
    if a < b {
      Pow2Monotone(a, b - 1);
    }
  }

  function Abs(x: int): nat {
    if x < 0 then -x else x
  }

  /** Bigint `a / b`: the quotient rounded toward zero. What it leaves over
      is smaller than the divisor and has the sign of the dividend. */
  function Quot(a: int, b: int): (q: int)
    requires b != 0
    ensures Abs(a - q * b) < Abs(b)
    ensures a - q * b == 0 || (a - q * b < 0 <==> a < 0)
    ensures a >= 0 && b > 0 ==> q == a / b
  {
    var m := Abs(a) / Abs(b);
    QuotCharacterized(a, b, m);
    if (a < 0) == (b < 0) then m else -m
  }

  lemma QuotCharacterized(a: int, b: int, m: int)
    requires b != 0 && m == Abs(a) / Abs(b)
    ensures var q := if (a < 0) == (b < 0) then m else -m;
      Abs(a - q * b) < Abs(b) && (a - q * b == 0 || (a - q * b < 0 <==> a < 0))
  {
    var s := Abs(a) - m * Abs(b);
    assert 0 <= s < Abs(b);
    var q := if (a < 0) == (b < 0) then m else -m;
    if a < 0 {
      assert a - q * b == -s;
    } else {
      assert a - q * b == s;
    }
  }

  /** Bigint `a % b`: the remainder that goes with Quot. */
  function Rem(a: int, b: int): (s: int)
    requires b != 0
    ensures a == Quot(a, b) * b + s
    ensures Abs(s) < Abs(b)
    ensures s == 0 <==> a % b == 0
  {
    var q := Quot(a, b);
    RemZeroIffDivides(a, b, q);
    a - q * b
  }

  lemma RemZeroIffDivides(a: int, b: int, q: int)
    requires b != 0 && Abs(a - q * b) < Abs(b)
    ensures a - q * b == 0 <==> a % b == 0
  {
    var k, s := a / b, a % b;
    assert a == k * b + s && 0 <= s < Abs(b);
    assert a - q * b == (k - q) * b + s by {
      assert q * b + (k - q) * b == k * b;
    }
    if k != q {
      AbsProduct(k - q, b);
      assert a - q * b != 0 && s != 0;
    }
  }

  lemma AbsProduct(c: int, b: int)
    requires c != 0
    ensures Abs(c * b) >= Abs(b)
  {
    if c > 0 {
      if b >= 0 { assert c * b >= b; } else { assert c * b <= b; }
    } else {
      if b >= 0 { assert c * b <= -b; } else { assert c * b >= -b; }
    }
  }

  /** Powers of two that the engine uses as shift amounts and bounds. */
  lemma Pow2Values()
    ensures Pow2(1) == 2 && Pow2(8) == 0x100
    ensures Pow2(16) == 0x10000
    ensures Pow2(32) == 0x100000000
    ensures Pow2(63) == 0x8000000000000000
    ensures Pow2(64) == 0x10000000000000000
    ensures Pow2(65) == 0x20000000000000000
    ensures Pow2(96) == 0x1000000000000000000000000
    ensures Pow2(127) == 0x80000000000000000000000000000000
    ensures Pow2(128) == 0x100000000000000000000000000000000
    ensures Pow2(129) == 0x200000000000000000000000000000000
    ensures Pow2(160) == 0x10000000000000000000000000000000000000000
    ensures Pow2(255) == 0x8000000000000000000000000000000000000000000000000000000000000000
    ensures Pow2(256) == 0x10000000000000000000000000000000000000000000000000000000000000000
  {
    assert Pow2(1) == 2;
    assert Pow2(8) == 0x100;
    Pow2Add(8, 8);
    Pow2Add(16, 16);
    Pow2Add(32, 32);
    Pow2Add(64, 1);
    Pow2Add(64, 32);
    Pow2Add(64, 64);
    Pow2Add(128, 1);
    Pow2Add(128, 32);
    Pow2Add(128, 128);
    assert Pow2(64) == 2 * Pow2(63);
    assert Pow2(128) == 2 * Pow2(127);
    assert Pow2(256) == 2 * Pow2(255);
  }

  lemma MulAtLeast(a: int, m: int)
    requires a >= 1 && m > 0
    ensures a * m >= m
  {
  }

  /** A multiple of m leaves no remainder. */
  lemma MultipleMod(k: int, m: int)
    requires m > 0
    ensures (k * m) % m == 0
  {
    var q, s := (k * m) / m, (k * m) % m;
    assert k * m == q * m + s && 0 <= s < m;
    assert (k - q) * m == s;
    if k - q > 0 {
      MulAtLeast(k - q, m);
    } else if k - q < 0 {
      MulAtLeast(q - k, m);
    }
  }

  lemma ModSum(x: int, y: int, m: int)
    requires m > 0 && x % m == 0 && y % m == 0
    ensures (x + y) % m == 0
  {
    var i, j := x / m, y / m;
    assert x + y == (i + j) * m;
    MultipleMod(i + j, m);
  }

  /** v - v % m is a multiple of m. */
  lemma ModCongruent(v: int, m: int)
    requires m > 0
    ensures (v - v % m) % m == 0
  {
    var k := v / m;
    assert v - v % m == k * m;
    MultipleMod(k, m);
  }

  /** v % m is the only value in [0, m) that differs from v by a multiple of m. */
  lemma ModUnique(v: int, r: int, m: int)
    requires m > 0 && 0 <= r < m && (v - r) % m == 0
    ensures r == v % m
  {
    var k := (v - r) / m;
    assert v - r == k * m;
    var q, s := v / m, v % m;
    assert v == q * m + s && 0 <= s < m;
    assert (k - q) * m == s - r;
    if k - q > 0 {
      MulAtLeast(k - q, m);
    } else if k - q < 0 {
      MulAtLeast(q - k, m);
    }
  }

  /** Multiplying by a positive factor preserves order, in both directions. */
  lemma MulOrder(x: int, y: int, m: int)
    requires m > 0
    ensures x <= y <==> x * m <= y * m
  {
    assert y * m - x * m == (y - x) * m;
    if x <= y {
      assert (y - x) * m >= 0;
    } else {
      MulAtLeast(x - y, m);
    }
  }

  lemma ProductNonNegative(a: int, b: int)
    ensures a >= 0 && b >= 0 ==> a * b >= 0
  {
    if a >= 0 && b >= 0 {
      MulMonotone(0, a, b);
    }
  }

  lemma MulMonotone(a: int, b: int, c: int)
    requires a <= b && c >= 0
    ensures a * c <= b * c
  {
    assert b * c - a * c == (b - a) * c;
  }

  /** The quotient q of x by m is characterised by q * m <= x < (q + 1) * m. */
  lemma DivUnique(x: int, m: int, q: int)
    requires m > 0 && q * m <= x < (q + 1) * m
    ensures x / m == q
  {
    var d := x / m;
    assert d * m + x % m == x && 0 <= x % m < m;
    assert (d + 1) * m == d * m + m && (q + 1) * m == q * m + m;
    MulOrder(d + 1, q, m);
    MulOrder(q + 1, d, m);
  }

  /** A quotient of at least q0 means a dividend above c * m for any c below q0. */
  lemma QuotientAbove(x: int, m: int, q0: int, c: int)
    requires m > 0 && x / m >= q0 && c < q0
    ensures x > c * m
  {
    var q := x / m;
    assert x == q * m + x % m;
    MulOrder(q0, q, m);
    MulOrder(q0, c, m);
  }

  /** Floor division is monotone in the dividend. */
  lemma DivMonotone(a: int, b: int, m: int)
    requires a <= b && m > 0
    ensures a / m <= b / m
  {
    var qa, qb := a / m, b / m;
    assert qa * m + a % m == a && qb * m + b % m == b;
    assert (qb + 1) * m == qb * m + m;
    MulOrder(qb + 1, qa, m);
  }

  lemma MultipleDiv(k: int, m: int)
    requires m > 0
    ensures (k * m) / m == k
  {
    assert (k + 1) * m == k * m + m;
    DivUnique(k * m, m, k);
  }

  /** x * c / m never exceeds x when 0 <= c < m: a factor below one does not grow x. */
  lemma ScaleDown(x: int, c: int, m: int)
    requires x >= 0 && 0 <= c < m
    ensures 0 <= x * c / m <= x
  {
    MulMonotone(c, m, x);
    assert x * c <= x * m;
    DivMonotone(x * c, x * m, m);
    MultipleDiv(x, m);
    DivMonotone(0, x * c, m);
  }

  /** Dividing twice is dividing once by the product of the divisors. */
  lemma DivDiv(x: int, a: int, b: int)
    requires x >= 0 && a > 0 && b > 0
    ensures x / a / b == x / (a * b)
  {
    var q1, r1 := x / a, x % a;
    var q2, r2 := q1 / b, q1 % b;
    assert x == q1 * a + r1 && 0 <= r1 < a;
    assert q1 == q2 * b + r2 && 0 <= r2 < b;
    assert x == q2 * (a * b) + (r2 * a + r1) by {
      assert q1 * a == q2 * b * a + r2 * a;
    }
    MulMonotone(r2, b - 1, a);
    assert 0 <= r2 * a + r1 < a * b;
    assert (q2 + 1) * (a * b) == q2 * (a * b) + a * b;
    DivUnique(x, a * b, q2);
  }
}
