/** Facts about quotients and remainders. */
module Arithmetic {
  lemma WholeStep(u: int, q: int, d: nat)
    requires u > q
    ensures u * d >= q * d + d
  {
    assert u * d == q * d + (u - q) * d;
    assert (u - q) * d == d + (u - q - 1) * d;
  }

  lemma SameQuotient(u: int, v: nat, q: int, r: nat, d: nat)
    requires v < d && r < d && u * d + v == q * d + r
    ensures v == r
  {
    if u > q { WholeStep(u, q, d); }
    if u < q { WholeStep(q, u, d); }
  }

  lemma RemainderIs(x: int, d: nat, q: int, r: nat)
    requires r < d && x == q * d + r
    ensures x % d == r
  {
    SameQuotient(x / d, x % d, q, r, d);
  }

  lemma QuotientIs(x: int, d: nat, q: int, r: nat)
    requires r < d && x == q * d + r
    ensures x / d == q
  {
    var u := x / d;
    SameQuotient(u, x % d, q, r, d);
    if u > q { WholeStep(u, q, d); }
    if u < q { WholeStep(q, u, d); }
  }

  lemma TurnOnce(x: int, n: int)
    requires n > 0
    ensures (x + n) % n == x % n
  {
    RemainderIs(x + n, n, x / n + 1, x % n);
  }

  lemma OnlyZero(x: int, n: int)
    requires n > 0 && x % n == 0 && -n < x < n
    ensures x == 0
  {
    if x > 0 { RemainderIs(x, n, 0, x); }
    if x < 0 { RemainderIs(x, n, -1, x + n); }
  }

  lemma NearZero(x: int, n: int)
    requires n > 0 && x % n == 0 && -n <= x <= n
    ensures x == 0 || x == n || x == -n
  {
    if -n < x < n { OnlyZero(x, n); }
  }

  lemma NextRemainder(x: nat, n: nat)
    requires n > 0
    ensures (x % n + 1) % n == (x + 1) % n
  {
    var q, r := x / n, x % n;
    if r + 1 < n {
      RemainderIs(x + 1, n, q, r + 1);
      RemainderIs(r + 1, n, 0, r + 1);
    } else {
      RemainderIs(x + 1, n, q + 1, 0);
      RemainderIs(n, n, 1, 0);
    }
  }
}
