/** Division with remainder, for divisors that are not constants. */
module Remainders {

  lemma {:induction false} NextMultiple(q: int, q': int, n: int)
    requires n > 0 && q < q'
    ensures q * n + n <= q' * n
    decreases q' - q
  {
    if q + 1 < q' {
      NextMultiple(q, q' - 1, n);
    }
  }

  lemma QuotientIsUnique(q: int, r: int, q': int, r': int, n: int)
    requires n > 0 && 0 <= r < n && 0 <= r' < n && q * n + r == q' * n + r'
    ensures q == q' && r == r'
  {
    if q < q' {
      NextMultiple(q, q', n);
    } else if q' < q {
      NextMultiple(q', q, n);
    }
  }

  lemma ModIs(x: int, q: int, r: int, n: int)
    requires n > 0 && 0 <= r < n && x == q * n + r
    ensures x % n == r
  {
    QuotientIsUnique(q, r, x / n, x % n, n);
  }

  /** How the remainder moves when the position moves by at most one turn. */
  lemma ModAdvance(x: int, k: int, n: int)
    requires n > 0 && 0 <= k <= n
    ensures x % n + k < n ==> (x + k) % n == x % n + k
    ensures x % n + k >= n ==> (x + k) % n == x % n + k - n
  {
    var q, r := x / n, x % n;
    assert x == q * n + r;
    if r + k < n {
      ModIs(x + k, q, r + k, n);
    } else if r + k < 2 * n {
      assert x + k == (q + 1) * n + (r + k - n);
      ModIs(x + k, q + 1, r + k - n, n);
    }
  }

  /** How many times `n` covers `x`. */
  lemma Ceiling(x: nat, n: nat)
    requires n > 0 && x > 0
    ensures var q := (x + n - 1) / n; q > 0 && x <= q * n < x + n
  {
    var y := x + n - 1;
    var q, r := y / n, y % n;
    assert y == n * q + r;
    if q <= 0 {
      NextMultiple(q, 1, n);
    }
  }

  lemma QuotientAndRemainder(x: nat, n: nat)
    requires n > 0
    ensures x / n >= 0 && 0 <= x % n < n
    ensures (x / n + 1) * n - n + x % n == x
  {
    assert x == n * (x / n) + x % n;
  }
}
