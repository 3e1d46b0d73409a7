/**
 * Integer facts shared by the stream and the code generator: rounded-up
 * division and the uniqueness of Euclidean quotients and remainders.
 */
module Arithmetic {

  /** n / d rounded up, the runtime's `ceiling(n, d)`. */
  function Ceiling(n: nat, d: nat): nat
    requires d > 0
  {
    (n + d - 1) / d
  }

  /** Multiplying by the same positive number keeps a strict order. */
  lemma MulLessCancel(a: int, b: int, d: nat)
    requires d > 0 && a * d < b * d
    ensures a < b
  {
  }

  /** The Euclidean quotient and remainder are the only pair that fits. */
  lemma {:induction false} DivModUnique(m: int, d: nat, k: int, r: int)
    requires d > 0 && m == k * d + r && 0 <= r < d
    ensures m / d == k && m % d == r
  {
    var q := m / d;
    assert q * d <= m < q * d + d;
    assert q * d + d == (q + 1) * d;
    assert k * d + d == (k + 1) * d;
    MulLessCancel(q, k + 1, d);
    MulLessCancel(k, q + 1, d);
  }

  /** k is n / d exactly when k * d <= n < (k + 1) * d. */
  lemma {:induction false} QuotientUnique(m: nat, d: nat, k: nat)
    requires d > 0 && k * d <= m < (k + 1) * d
    ensures m / d == k
  {
    assert (k + 1) * d == k * d + d;
    DivModUnique(m, d, k, m - k * d);
  }

  /** k is the rounded-up quotient exactly when k multiples of d cover n and k - 1 do not. */
  lemma {:induction false} CeilingLeast(n: nat, d: nat, k: nat)
    requires d > 0 && n <= k * d && (k == 0 || (k - 1) * d < n)
    ensures k == Ceiling(n, d)
  {
    if k == 0 {
      assert n == 0;
    } else {
      assert (k - 1) * d == k * d - d;
    }
    assert (k + 1) * d == k * d + d;
    QuotientUnique(n + d - 1, d, k);
  }

  /** The remainder modulo m * p in two steps: modulo m, then the quotient modulo p. */
  lemma {:induction false} ModSplit(v: int, m: nat, p: nat)
    requires m > 0 && p > 0
    ensures v % (m * p) == v % m + m * ((v / m) % p)
    ensures v / (m * p) == (v / m) / p
  {
    var q, r := v / m, v % m;
    var q2, r2 := q / p, q % p;
    var mp := m * p;
    assert v == q * m + r;
    assert q == q2 * p + r2;
    assert q * m == q2 * mp + r2 * m by {
      assert q * m == (q2 * p + r2) * m;
      assert (q2 * p + r2) * m == q2 * p * m + r2 * m;
      assert q2 * p * m == q2 * mp;
    }
    assert r2 * m + r < mp by {
      assert r2 + 1 <= p;
      assert (r2 + 1) * m <= p * m;
      assert (r2 + 1) * m == r2 * m + m;
    }
    DivModUnique(v, mp, q2, r2 * m + r);
  }

  /** Numbers whose difference is a multiple of d leave the same remainder. */
  lemma {:induction false} CongruentMod(x: int, y: int, d: nat)
    requires d > 0 && (x - y) % d == 0
    ensures x % d == y % d
  {
    var k := (x - y) / d;
    assert x - y == k * d;
    assert y == (y / d) * d + y % d;
    assert x == (k + y / d) * d + y % d;
    DivModUnique(x, d, k + y / d, y % d);
  }

  /** Adding the same number to two congruent numbers keeps them congruent. */
  lemma {:induction false} CongruentAdd(x: int, y: int, a: int, d: nat)
    requires d > 0 && x % d == y % d
    ensures (a + x) % d == (a + y) % d
  {
    var k := x / d - y / d;
    assert x - y == k * d by {
      assert x == (x / d) * d + x % d;
      assert y == (y / d) * d + y % d;
      assert (x / d) * d - (y / d) * d == k * d;
    }
    DivModUnique(k * d, d, k, 0);
    CongruentMod(a + x, a + y, d);
  }

  /** Two numbers in one window of d consecutive integers that leave the same remainder are equal. */
  lemma {:induction false} ModWindow(x: int, y: int, d: nat, low: int)
    requires d > 0 && low <= x < low + d && low <= y < low + d && x % d == y % d
    ensures x == y
  {
    var k := x / d - y / d;
    assert x - y == k * d by {
      assert x == (x / d) * d + x % d;
      assert y == (y / d) * d + y % d;
      assert (x / d) * d - (y / d) * d == k * d;
    }
    MulLessCancel(k, 1, d);
    assert (-k) * d == -(k * d);
    MulLessCancel(-k, 1, d);
  }
}
