/** Facts about division with a variable divisor, shared by the modules that index a ring. */
module DivMod {

  /** A remainder is known once the dividend is written as quotient times divisor plus a small rest. */
  lemma Unique(x: int, n: nat, q: int, r: int)
    requires n > 0 && x == q * n + r && 0 <= r < n
    ensures x / n == q && x % n == r
  {
    var q', r' := x / n, x % n;
    assert q' * n + r' == x;
    assert (q - q') * n == r' - r;
    if q > q' {
      assert (q - q') * n >= n by { Grow(1, q - q', n); }
    } else if q < q' {
      assert (q' - q) * n >= n by { Grow(1, q' - q, n); }
    }
  }

  lemma Grow(a: int, b: int, n: nat)
    requires a <= b
    ensures a * n <= b * n
  {
    assert (b - a) * n >= 0;
  }

  lemma Plus(a: int, b: int, n: int)
    ensures (a + b) * n == a * n + b * n
  {
  }

  lemma Parts(x: nat, n: nat)
    requires n > 0
    ensures x == x / n * n + x % n
  {
  }

  lemma AddRounds(r: nat, x: nat, n: nat)
    requires n > 0
    ensures (r + x * n) % n == r % n && x * n >= 0
  {
    Grow(0, x, n);
    assert r == r / n * n + r % n;
    assert (r / n + x) * n == r / n * n + x * n;
    Unique(r + x * n, n, r / n + x, r % n);
  }

  lemma Rounds(x: nat, n: nat) returns (q: nat)
    requires n > 0
    ensures x == q * n + x % n && (q * n == 0 <==> x < n)
  {
    q := x / n;
    FirstRound(x, n);
    if q > 0 {
      Grow(1, q, n);
    }
  }

  lemma FirstRound(x: nat, n: nat)
    requires n > 0
    ensures x < n <==> x / n == 0
  {
    assert x == x / n * n + x % n;
    if x < n {
      Unique(x, n, 0, x);
    }
  }

  /** Stepping a counter by one either advances the remainder or starts the next round. */
  lemma Succ(k: nat, n: nat)
    requires n > 0
    ensures k % n + 1 < n ==> (k + 1) / n == k / n && (k + 1) % n == k % n + 1
    ensures k % n + 1 == n ==> (k + 1) / n == k / n + 1 && (k + 1) % n == 0
  {
    assert k == (k / n) * n + k % n;
    if k % n + 1 < n {
      Unique(k + 1, n, k / n, k % n + 1);
    } else {
      assert (k / n + 1) * n == (k / n) * n + n;
      Unique(k + 1, n, k / n + 1, 0);
    }
  }

  /** Two numbers less than n apart have different remainders. */
  lemma Distinct(a: nat, b: nat, n: nat)
    requires n > 0 && a < b < a + n
    ensures a % n != b % n
  {
    if a % n == b % n {
      assert a == (a / n) * n + a % n && b == (b / n) * n + b % n;
      assert b - a == (b / n - a / n) * n;
      if b / n - a / n >= 1 {
        Grow(1, b / n - a / n, n);
      } else {
        Grow(b / n - a / n, 0, n);
      }
    }
  }

  /** Equally sized cells with different numbers do not overlap. */
  lemma Disjoint(a: nat, b: nat, size: nat)
    requires a != b
    ensures a * size + size <= b * size || b * size + size <= a * size
  {
    if a < b {
      Grow(a + 1, b, size);
      assert (a + 1) * size == a * size + size;
    } else {
      Grow(b + 1, a, size);
      assert (b + 1) * size == b * size + size;
    }
  }
}
