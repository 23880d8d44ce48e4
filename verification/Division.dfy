/** Division with remainder. */
module Division {
  /** A remainder below the divisor is the remainder. */
  lemma Unique(a: int, q: int, r: int, n: int)
    requires 0 <= r < n && a == q * n + r
    ensures a % n == r
  {
    var d := a / n - q;
    assert d * n == r - a % n;
    assert d > 0 ==> d * n >= n;
    assert d < 0 ==> d * n <= -n;
  }

  lemma UniqueQuotient(a: int, q: int, r: int, n: int)
    requires 0 <= r < n && a == q * n + r
    ensures a / n == q
  {
    Unique(a, q, r, n);
    ZeroProduct(a / n - q, n);
  }

  lemma ZeroProduct(d: int, n: int)
    requires n > 0
    ensures d * n == 0 ==> d == 0
  {
    assert d > 0 ==> d * n >= n;
    assert d < 0 ==> d * n <= -n;
  }

  lemma OneMore(k: nat, n: nat)
    requires n > 0
    ensures (k + n) / n == k / n + 1
  {
    UniqueQuotient(k + n, k / n + 1, k % n, n);
  }

  lemma Times(a: nat, b: nat, c: nat)
    ensures a <= b ==> a * c <= b * c
  {}

  lemma Monotone(j: nat, k: nat, n: nat)
    requires n > 0 && j <= k
    ensures j / n <= k / n
  {
    Times(k / n + 1, j / n, n);
    Distribute(k / n, 1, n);
  }

  lemma Distribute(a: nat, b: nat, c: nat)
    ensures (a + b) * c == a * c + b * c
  {}

  /** Numbers with the same remainder are a whole multiple of the divisor apart. */
  lemma Apart(j: nat, k: nat, n: nat)
    requires n > 0 && j < k && j % n == k % n
    ensures k - j >= n
  {
    Times(k / n, j / n, n);
    Times(j / n + 1, k / n, n);
    Distribute(j / n, 1, n);
  }
}
