/** Bitwise AND on naturals and the facts about powers of two that the ring
    buffer's index masking relies on. */
module PowerOfTwo {
  import opened Uint

  /** `x & y` on non-negative integers, bit by bit from the least significant. */
  function BitAnd(x: nat, y: nat): nat
  {
    if x == 0 || y == 0 then 0
    else 2 * BitAnd(x / 2, y / 2) + (if x % 2 == 1 && y % 2 == 1 then 1 else 0)
  }

  predicate IsPow2(n: nat)
  {
    n == 1 || (n > 1 && n % 2 == 0 && IsPow2(n / 2))
  }

  lemma MulAtLeast(d: int, k: int)
    requires d > 0 && k >= 1
    ensures d * k >= d
  {
  }

  lemma NonPositiveProduct(d: int, k: int)
    requires d > 0 && k <= 0
    ensures d * k <= 0
  {
  }

  lemma ModUnique(x: int, d: int, t: int, r: int)
    requires d > 0 && x == d * t + r && 0 <= r < d
    ensures x % d == r && x / d == t
  {
    var q := x / d;
    assert x == d * q + x % d;
    assert d * (t - q) == x % d - r;
    if t > q {
      MulAtLeast(d, t - q);
      assert false;
    } else if q > t {
      MulAtLeast(d, q - t);
      assert false;
    }
  }

  lemma {:induction false} ModHalf(x: nat, q: nat)
    requires q > 0
    ensures x % (2 * q) == 2 * ((x / 2) % q) + x % 2
  {
    var h := x / 2;
    var r := h % q;
    var t := h / q;
    assert h == q * t + r;
    assert x == 2 * q * t + (2 * r + x % 2);
    ModUnique(x, 2 * q, t, 2 * r + x % 2);
  }

  /** Masking with `n - 1` is reduction modulo `n` when `n` is a power of two. */
  lemma {:induction false} AndLowMask(x: nat, n: nat)
    requires IsPow2(n)
    ensures BitAnd(x, n - 1) == x % n
    decreases n
  {
    if n == 1 {
      assert BitAnd(x, 0) == 0;
    } else if x == 0 {
      assert BitAnd(0, n - 1) == 0;
    } else {
      var h := n / 2;
      assert n == 2 * h;
      AndLowMask(x / 2, h);
      assert (n - 1) / 2 == h - 1 && (n - 1) % 2 == 1;
      assert BitAnd(x, n - 1) == 2 * BitAnd(x / 2, h - 1) + x % 2;
      ModHalf(x, h);
    }
  }

  lemma {:induction false} AndSelf(x: nat)
    ensures BitAnd(x, x) == x
  {
    if x != 0 { AndSelf(x / 2); }
  }

  /** The test `((n - 1) & n) == 0` of a positive `n` holds exactly for powers of two. */
  lemma {:induction false} PowerOfTwoTest(n: nat)
    requires n > 0
    ensures BitAnd(n - 1, n) == 0 <==> IsPow2(n)
    decreases n
  {
    if n == 1 {
    } else if n % 2 == 0 {
      PowerOfTwoTest(n / 2);
      assert (n - 1) / 2 == n / 2 - 1;
    } else {
      AndSelf((n - 1) / 2);
      assert (n - 1) / 2 == n / 2;
    }
  }

  /** The product of two powers of two is one. */
  lemma {:induction false} Pow2Mul(a: nat, b: nat)
    requires IsPow2(a) && IsPow2(b)
    ensures IsPow2(a * b)
    decreases a
  {
    if a > 1 {
      Pow2Mul(a / 2, b);
      assert a * b == 2 * ((a / 2) * b);
      assert (a * b) / 2 == (a / 2) * b;
    }
  }

  lemma U32IsPow2()
    ensures IsPow2(U32)
  {
    assert IsPow2(2);
    Pow2Mul(2, 2);
    Pow2Mul(4, 4);
    Pow2Mul(16, 16);
    Pow2Mul(256, 256);
    Pow2Mul(65536, 65536);
  }

  /** A smaller power of two is at most half a larger one. */
  lemma {:induction false} Pow2Below(n: nat, m: nat)
    requires IsPow2(n) && IsPow2(m) && n < m
    ensures 2 * n <= m
    decreases n
  {
    if n > 1 {
      Pow2Below(n / 2, m / 2);
    }
  }

  /** A smaller power of two divides a larger one. */
  lemma {:induction false} Pow2Divides(n: nat, m: nat)
    requires IsPow2(n) && IsPow2(m) && n <= m
    ensures m % n == 0
    decreases n
  {
    if n != 1 {
      Pow2Divides(n / 2, m / 2);
      var t := (m / 2) / (n / 2);
      assert m / 2 == (n / 2) * t;
      assert m == n * t;
      ModUnique(m, n, t, 0);
    }
  }

  lemma ModOfMultiple(x: nat, n: nat, c: nat)
    requires n > 0 && c > 0
    ensures (x % (n * c)) % n == x % n
  {
    var m := n * c;
    var q := x / m;
    var y := x % m;
    assert x == m * q + y;
    var s := y / n;
    var r := y % n;
    assert y == n * s + r;
    assert m * q == n * (c * q);
    assert x == n * (c * q + s) + r;
    ModUnique(x, n, c * q + s, r);
  }

  lemma ModOfDivisible(x: nat, n: nat, m: nat)
    requires n > 0 && m > 0 && m % n == 0
    ensures (x % m) % n == x % n
  {
    var c := m / n;
    assert m == n * c;
    assert c > 0;
    ModOfMultiple(x, n, c);
  }

  /** Reducing modulo 2^32 first does not change the residue modulo a power of two below 2^32. */
  lemma ModModU32(x: nat, n: nat)
    requires IsPow2(n) && n <= U32
    ensures (x % U32) % n == x % n
  {
    U32IsPow2();
    Pow2Divides(n, U32);
    ModOfDivisible(x, n, U32);
  }

  /** Two numbers less than `n` apart have different residues modulo `n`. */
  lemma ModDistinct(a: nat, b: nat, n: nat)
    requires a < b < a + n
    ensures a % n != b % n
  {
    var qa, qb := a / n, b / n;
    assert a == n * qa + a % n;
    assert b == n * qb + b % n;
    if a % n == b % n {
      assert b - a == n * (qb - qa);
      if qb > qa {
        MulAtLeast(n, qb - qa);
        assert false;
      } else {
        NonPositiveProduct(n, qb - qa);
        assert false;
      }
    }
  }
}
