/** Remainders: what cyclic searches and wrapping counters need. */
module Modular {

  lemma Distribute(x: int, y: int, n: int)
    ensures (x + y) * n == x * n + y * n
  {
  }

  lemma ProductNonNegative(x: nat, n: nat)
    ensures x * n >= 0
  {
  }

  lemma ScaledGap(a: int, b: int, n: int)
    requires a < b && n > 0
    ensures a * n + n <= b * n
  {
    Distribute(a, 1, n);
    Distribute(a + 1, b - a - 1, n);
    ProductNonNegative(b - a - 1, n);
  }

  lemma ModOfMultiplePlus(x: int, q: int, n: int, j: int)
    requires n > 0 && 0 <= j < n && x == q * n + j
    ensures x % n == j
  {
    var q' := x / n;
    assert x == q' * n + x % n;
    if q' < q {
      ScaledGap(q', q, n);
    } else if q' > q {
      ScaledGap(q, q', n);
    }
  }

  lemma QuotientIs(x: int, q: int, n: int, j: int)
    requires n > 0 && 0 <= j < n && x == q * n + j
    ensures x / n == q
  {
    var q' := x / n;
    assert x == q' * n + x % n;
    if q' < q {
      ScaledGap(q', q, n);
    } else if q' > q {
      ScaledGap(q, q', n);
    }
  }

  /** Steps to take from `start` to land on `j`. */
  function CyclicDistance(start: nat, j: nat, n: nat): (d: nat)
    requires j < n
    ensures d < n
  {
    var s := start % n;
    if j >= s then j - s else j + n - s
  }

  lemma CyclicDistanceHits(start: nat, j: nat, n: nat)
    requires j < n
    ensures (start + CyclicDistance(start, j, n)) % n == j
  {
    var q, s, d := start / n, start % n, CyclicDistance(start, j, n);
    assert start == q * n + s;
    if j >= s {
      ModOfMultiplePlus(start + d, q, n, j);
    } else {
      assert start + d == (q + 1) * n + j;
      ModOfMultiplePlus(start + d, q + 1, n, j);
    }
  }

  lemma ModSuccessor(x: nat, n: nat)
    requires n > 0
    ensures (x + 1) % n == if x % n == n - 1 then 0 else x % n + 1
  {
    var q, r := x / n, x % n;
    assert x == q * n + r;
    if r == n - 1 {
      assert x + 1 == (q + 1) * n + 0;
      ModOfMultiplePlus(x + 1, q + 1, n, 0);
    } else {
      ModOfMultiplePlus(x + 1, q, n, r + 1);
    }
  }

  lemma ModSmall(x: nat, n: nat)
    requires x < n
    ensures x % n == x
  {
  }

  lemma PeriodicMod(a: nat, n: nat)
    requires n > 0
    ensures (a + n) % n == a % n
  {
    assert a == (a / n) * n + a % n;
    ModOfMultiplePlus(a + n, a / n + 1, n, a % n);
  }
}
