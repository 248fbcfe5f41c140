/** Remainders of things that go round: page cursors and ring buffers. */
module Turns {
  lemma ModOf(q: nat, n: nat, m: nat)
    requires m < n
    ensures (q * n + m) % n == m
  {
    var k := q * n + m;
    SameQuotient(k / n, k % n, q, m, n);
  }

  lemma SameQuotient(a: nat, b: nat, q: nat, m: nat, n: nat)
    requires a * n + b == q * n + m && b < n && m < n
    ensures a == q && b == m
  {
    if a > q {
      Apart(a, q, n);
    } else if a < q {
      Apart(q, a, n);
    }
  }

  lemma Apart(a: nat, q: nat, n: nat)
    requires a > q
    ensures a * n >= q * n + n
  {
    assert a * n == q * n + (a - q) * n;
    assert (a - q) * n == (a - q - 1) * n + n;
  }

  /** One more step of a round of `n`. */
  lemma NextTurn(r: nat, n: nat)
    requires n > 0
    ensures (r + 1) % n == if r % n + 1 < n then r % n + 1 else 0
  {
    var q, m := r / n, r % n;
    assert r == q * n + m;
    if m + 1 < n {
      ModOf(q, n, m + 1);
    } else {
      assert r + 1 == (q + 1) * n;
      ModOf(q + 1, n, 0);
    }
  }
}
