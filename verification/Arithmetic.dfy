/** Facts about quotients and remainders that several components need. */
module Arithmetic {

  lemma DivModUnique(a: int, m: int, q: int, r: int)
    requires 0 <= r < m
    requires a == q * m + r
    ensures a / m == q && a % m == r
  {
    var q', r' := a / m, a % m;
    assert (q - q') * m == r' - r;
    if q > q' { MulAtLeast(q - q', m); }
    assert (q' - q) * m == -((q - q') * m);
    if q < q' { MulAtLeast(q' - q, m); }
  }

  lemma MulAtLeast(k: int, m: int)
    requires k >= 1 && m >= 0
    ensures k * m >= m
  {
    assert (k - 1) * m >= 0;
  }

  lemma ModOfShift(a: int, m: int, k: int)
    requires m > 0
    ensures (a + k * m) % m == a % m
  {
    DivModUnique(a + k * m, m, a / m + k, a % m);
  }

  /** Adding and then subtracting the same amount modulo `m` gives back a number below `m`. */
  lemma ModInverse(a: int, s: int, m: int)
    requires 0 <= a < m
    ensures ((a - s) % m + s) % m == a
    ensures ((a + s) % m - s) % m == a
  {
    var q := (a - s) / m;
    assert (a - s) % m + s == a + (-q) * m;
    ModOfShift(a, m, -q);
    DivModUnique(a, m, 0, a);
    var p := (a + s) / m;
    assert (a + s) % m - s == a + (-p) * m;
    ModOfShift(a, m, -p);
  }

  /** A two-digit number in mixed radix is below the product of the radices. */
  lemma DigitsBelow(q: int, n: int, r: int, m: int)
    requires 0 <= q < n && 0 <= r < m
    ensures 0 <= q * m + r < n * m
  {
    assert q * m >= 0;
    MulAtLeast(n - q, m);
    assert (n - q) * m == n * m - q * m;
  }

  /** The digits of a number below the product of two radices. */
  lemma Digits(a: int, n: int, m: int)
    requires m > 0 && 0 <= a < n * m
    ensures a == a / m * m + a % m
    ensures 0 <= a / m < n && 0 <= a % m < m
  {
    var q := a / m;
    assert q * m <= a < q * m + m;
    assert q * m - n * m == (q - n) * m;
    assert (-q) * m == -(q * m);
    if q >= n {
      MulNonnegative(q - n, m);
    }
    if q < 0 {
      MulAtLeast(-q, m);
    }
  }

  lemma MulNonnegative(k: int, m: int)
    requires k >= 0 && m >= 0
    ensures k * m >= 0
  {
  }

  /** Three digits in mixed radix, read back by division. */
  lemma ThreeDigits(i: int, n: int, u: int, m: int, y: int, k: int)
    requires 0 <= i < n && 0 <= u < m && 0 <= y < k
    ensures var b := i * (m * k) + u * k + y;
            b / k / m == i && b / k % m == u && b % k == y && 0 <= b < n * m * k
  {
    var b := i * (m * k) + u * k + y;
    assert i * (m * k) == i * m * k;
    assert (i * m + u) * k == i * m * k + u * k;
    DivModUnique(b, k, i * m + u, y);
    DivModUnique(i * m + u, m, i, u);
    DigitsBelow(i, n, u, m);
    DigitsBelow(i * m + u, n * m, y, k);
  }

  /** The three digits of a number below the product of the radices. */
  lemma ThreeDigitsOf(b: int, n: int, m: int, k: int)
    requires m > 0 && k > 0 && 0 <= b < n * m * k
    ensures 0 <= b / k / m < n && 0 <= b / k % m < m && 0 <= b % k < k
    ensures b == b / k / m * (m * k) + b / k % m * k + b % k
  {
    Digits(b, n * m, k);
    Digits(b / k, n, m);
    var i, u := b / k / m, b / k % m;
    assert i * (m * k) == i * m * k;
    assert (i * m + u) * k == i * m * k + u * k;
  }

  /** Adding to the upper of two digits, modulo the product of the radices. */
  lemma UpperDigit(r: int, d: int, n: int, m: int)
    requires n > 0 && m > 0
    ensures n * m > 0
    ensures (r + d * m) % (n * m) == (r / m + d) % n * m + r % m
  {
    MulAtLeast(n, m);
    var q, i, j := (r / m + d) / n, (r / m + d) % n, r % m;
    DigitsBelow(i, n, j, m);
    assert r / m + d == q * n + i;
    assert (r / m + d) * m == (q * n + i) * m == q * (n * m) + i * m;
    assert r + d * m == (r / m + d) * m + j;
    DivModUnique(r + d * m, n * m, q, i * m + j);
  }

  lemma ModOfMultiple(x: int, k: int, n: int)
    requires k > 0 && n > 0
    ensures k * n > 0 && x % (k * n) % n == x % n
  {
    MulAtLeast(k, n);
    var q, p := x / (k * n), x % (k * n);
    assert x == p + q * (k * n);
    assert q * (k * n) == q * k * n;
    ModOfShift(p, n, q * k);
  }
}
