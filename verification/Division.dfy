/** Facts about quotient, remainder and congruence of unbounded integers. */
module Division {

  lemma MulIncreases(x: int, y: int, n: int)
    requires x <= y && 0 <= n
    ensures x * n <= y * n
  {
  }

  /** Quotient and remainder are the only pair of numbers that fits. */
  lemma DivUnique(x: int, n: int, q: int, r: int)
    requires n > 0 && 0 <= r < n && x == q * n + r
    ensures x / n == q && x % n == r
  {
    var q', r' := x / n, x % n;
    assert q' * n + r' == q * n + r;
    assert (q + 1) * n == q * n + n && (q' + 1) * n == q' * n + n;
    if q' > q {
      MulIncreases(q + 1, q', n);
    } else if q' < q {
      MulIncreases(q' + 1, q, n);
    }
  }

  lemma DivMod(x: int, n: int)
    requires n > 0
    ensures x == (x / n) * n + x % n && 0 <= x % n < n
  {
  }

  /** A multiple added to x moves the quotient and keeps the remainder. */
  lemma AddMultiple(x: int, n: int, k: int)
    requires n > 0
    ensures (x + k * n) / n == x / n + k && (x + k * n) % n == x % n
  {
    DivMod(x, n);
    assert (x / n + k) * n == (x / n) * n + k * n;
    DivUnique(x + k * n, n, x / n + k, x % n);
  }

  /** Division in two steps. */
  lemma DivTwice(x: nat, m: int, n: int)
    requires m > 0 && n > 0
    ensures m * n > 0 && x / m / n == x / (m * n)
  {
    DivMod(x, m);
    DivMod(x / m, n);
    var q, s, r := x / m / n, x / m % n, x % m;
    assert m * n > 0;
    assert x == q * (m * n) + (s * m + r) by {
      assert (q * n + s) * m == q * (m * n) + s * m;
    }
    MulIncreases(s, n - 1, m);
    assert (n - 1) * m == m * n - m;
    assert 0 <= s * m;
    DivUnique(x, m * n, q, s * m + r);
  }

  // ---------------------------------------------------------------- congruence

  /** a and b have the same remainder modulo m. */
  ghost predicate Cong(a: int, b: int, m: int)
    requires m > 0
  {
    a % m == b % m
  }

  lemma CongIntro(a: int, b: int, k: int, m: int)
    requires m > 0 && a == b + k * m
    ensures Cong(a, b, m)
  {
    AddMultiple(b, m, k);
  }

  lemma CongTrans(a: int, b: int, c: int, m: int)
    requires m > 0 && Cong(a, b, m) && Cong(b, c, m)
    ensures Cong(a, c, m)
  {
  }

  lemma CongSymmetric(a: int, b: int, m: int)
    requires m > 0 && Cong(a, b, m)
    ensures Cong(b, a, m)
  {
  }

  lemma CongQuotient(a: int, b: int, m: int) returns (k: int)
    requires m > 0 && Cong(a, b, m)
    ensures a == b + k * m
  {
    DivMod(a, m);
    DivMod(b, m);
    k := a / m - b / m;
    assert k * m == (a / m) * m - (b / m) * m;
  }

  lemma CongScale(a: int, b: int, c: int, m: int)
    requires m > 0 && Cong(a, b, m)
    ensures Cong(a * c, b * c, m)
  {
    var k := CongQuotient(a, b, m);
    assert (b + k * m) * c == b * c + (k * c) * m;
    CongIntro(a * c, b * c, k * c, m);
  }

  lemma CongMul(a: int, b: int, c: int, d: int, m: int)
    requires m > 0 && Cong(a, b, m) && Cong(c, d, m)
    ensures Cong(a * c, b * d, m)
  {
    CongScale(a, b, c, m);
    CongScale(c, d, b, m);
    assert b * c == c * b && b * d == d * b;
  }

  lemma CongSmall(a: int, b: int, m: int)
    requires m > 0 && Cong(a, b, m) && 0 <= a < m
    ensures a == b % m
  {
    DivUnique(a, m, 0, a);
  }

  lemma CongMod(a: int, m: int)
    requires m > 0
    ensures Cong(a % m, a, m) && 0 <= a % m < m
  {
    DivUnique(a % m, m, 0, a % m);
  }

  /** An odd modulus that divides 2 z divides z. */
  lemma CancelTwo(a: int, b: int, m: int)
    requires m > 0 && m % 2 == 1 && Cong(2 * a, 2 * b, m)
    ensures Cong(a, b, m)
  {
    var k := CongQuotient(2 * a, 2 * b, m);
    assert (k * m) % 2 == 0;
    var h := m / 2;
    assert k * m == 2 * (k * h) + k by {
      assert k * (2 * h + 1) == 2 * (k * h) + k;
    }
    var k' := a - b - k * h;
    assert k == 2 * k';
    assert k * m == 2 * (k' * m);
    hide Cong;
    CongIntro(a, b, k', m);
  }
}
