/** The few facts about natural numbers that index arithmetic needs. */
module Modular {

  lemma DivModUnique(x: nat, n: nat, q: nat, r: nat)
    requires 0 < n && r < n && x == n * q + r
    ensures x / n == q && x % n == r
  {
    var d := x / n - q;
    assert x == n * (x / n) + x % n;
    assert n * d == r - x % n;
    assert d >= 1 ==> n * d >= n;
    assert d <= -1 ==> n * d <= 0 - n;
  }

  function Pow2(n: nat): (p: nat)
    ensures p >= 1
  {
    if n == 0 then 1 else 2 * Pow2(n - 1)
  }

  lemma ModPeriod(x: nat, n: nat, k: nat)
    requires 0 < n
    ensures (x + n * k) % n == x % n
  {
    assert x + n * k == n * (x / n + k) + x % n;
    DivModUnique(x + n * k, n, x / n + k, x % n);
  }

  lemma ModAdd(a: nat, b: nat, n: nat)
    requires 0 < n
    ensures (a % n + b % n) % n == (a + b) % n
  {
    assert a + b == (a % n + b % n) + n * (a / n + b / n);
    ModPeriod(a % n + b % n, n, a / n + b / n);
  }

  lemma ModNext(x: nat, n: nat)
    requires 0 < n
    ensures (x + 1) % n == if x % n + 1 == n then 0 else x % n + 1
  {
    var q, r := x / n, x % n;
    assert x == n * q + r;
    if r + 1 == n {
      assert n * (q + 1) == n * q + n;
      DivModUnique(x + 1, n, q + 1, 0);
    } else {
      DivModUnique(x + 1, n, q, r + 1);
    }
  }

  /** A number has one quotient and one remainder, stated for two decompositions. */
  lemma SameSplit(n: nat, q: nat, r: nat, q': nat, r': nat)
    requires r < n && r' < n && n * q + r == n * q' + r'
    ensures q == q' && r == r'
  {
    DivModUnique(n * q + r, n, q, r);
    DivModUnique(n * q + r, n, q', r');
  }

  lemma MulMono(a: nat, b: nat, n: nat)
    requires a <= b
    ensures n * a <= n * b
  {}

  /** The last block of a row of blocks lies inside the row. */
  lemma BlockBound(n: nat, q: nat, r: nat, p: nat)
    requires r < n && q < p
    ensures n * q + r < n * p
  {
    MulMono(q + 1, p, n);
  }

  /** There are n numbers below n. */
  lemma {:induction false} RangeBound(values: set<nat>, n: nat)
    requires forall v | v in values :: v < n
    ensures |values| <= n
  {
    if n == 0 {
      assert values == {};
    } else {
      RangeBound(values - {n - 1}, n - 1);
    }
  }
}
