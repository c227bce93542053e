/** The arithmetic of round-robin distribution: `n` kept rows go to `a`
    agents; agent `i` gets `n / a` rows, plus one more when `i < n % a`,
    and the agents' blocks of rows follow each other in agent order. */
module Quotas {

  function Min(x: nat, y: nat): nat { if x <= y then x else y }

  /** The number of rows agent `i` receives. */
  function Quota(n: nat, a: nat, i: nat): nat
    requires a > 0
  {
    if i < n % a then n / a + 1 else n / a
  }

  /** The index of the first row of agent `i`'s block: `i * (n / a) + min(i, n % a)`. */
  function Start(n: nat, a: nat, i: nat): nat
    requires a > 0
  {
    i * (n / a) + Min(i, n % a)
  }

  /** The sum of the quotas of agents `0 .. k-1`. */
  function SumQuotas(n: nat, a: nat, k: nat): nat
    requires a > 0
  {
    if k == 0 then 0 else SumQuotas(n, a, k - 1) + Quota(n, a, k - 1)
  }

  /** The agent that owns row `k`, in closed form: rows below
      `r * (q + 1)` go in blocks of `q + 1`, the rest in blocks of `q`. */
  function Owner(n: nat, a: nat, k: nat): nat
    requires a > 0 && k < n
  {
    var q, r := n / a, n % a;
    if k < r * (q + 1) then k / (q + 1) else r + (k - r * (q + 1)) / q
  }

  // ---------------------------------------------------------------------
  // Arithmetic helpers

  lemma MulMono(x: nat, y: nat, c: nat)
    requires x <= y
    ensures x * c <= y * c
  {
  }

  lemma DivBounds(x: nat, d: nat)
    requires d > 0
    ensures (x / d) * d <= x < (x / d) * d + d
  {
  }

  lemma DivUnique(x: nat, d: nat, m: nat)
    requires d > 0 && m * d <= x < m * d + d
    ensures x / d == m
  {
    DivBounds(x, d);
    var t := x / d;
    if t != m {
      MulMono(if t < m then t + 1 else m + 1, if t < m then m else t, d);
    }
  }

  lemma DivMod(n: nat, a: nat)
    requires a > 0
    ensures n == a * (n / a) + n % a && n % a < a
  {
  }

  // ---------------------------------------------------------------------
  // Quotas

  /** Every quota is `n / a` or `n / a + 1`; quotas never grow along the
      agent order, so any two differ by at most one. */
  lemma QuotasBalanced(n: nat, a: nat, i: nat, j: nat)
    requires a > 0 && i <= j
    ensures Quota(n, a, i) == n / a || Quota(n, a, i) == n / a + 1
    ensures Quota(n, a, j) <= Quota(n, a, i) <= Quota(n, a, j) + 1
  {
  }

  /** Consecutive blocks follow each other: agent `i + 1`'s block starts
      where agent `i`'s block ends. */
  lemma {:induction false} StartStep(n: nat, a: nat, i: nat)
    requires a > 0
    ensures Start(n, a, i + 1) == Start(n, a, i) + Quota(n, a, i)
  {
    assert (i + 1) * (n / a) == i * (n / a) + n / a;
  }

  /** The blocks of all agents end exactly at `n`. */
  lemma StartEnd(n: nat, a: nat)
    requires a > 0
    ensures Start(n, a, a) == n
  {
    DivMod(n, a);
    assert a * (n / a) == (n / a) * a;
  }

  /** Block starts never decrease along the agent order. */
  lemma {:induction false} StartMono(n: nat, a: nat, i: nat, j: nat)
    requires a > 0 && i <= j
    ensures Start(n, a, i) <= Start(n, a, j)
  {
    MulMono(i, j, n / a);
  }

  /** The first `k` quotas add up to the start of agent `k`'s block. */
  lemma {:induction false} SumQuotasIsStart(n: nat, a: nat, k: nat)
    requires a > 0
    ensures SumQuotas(n, a, k) == Start(n, a, k)
  {
    if k > 0 {
      SumQuotasIsStart(n, a, k - 1);
      StartStep(n, a, k - 1);
    }
  }

  /** All quotas add up to the number of rows. */
  lemma QuotasSumToTotal(n: nat, a: nat)
    requires a > 0
    ensures SumQuotas(n, a, a) == n
  {
    SumQuotasIsStart(n, a, a);
    StartEnd(n, a);
  }

  /** Every block lies inside the rows: `Start(i) + Quota(i) <= n`. */
  lemma BlockInRange(n: nat, a: nat, i: nat)
    requires a > 0 && i < a
    ensures Start(n, a, i) + Quota(n, a, i) <= n
  {
    StartStep(n, a, i);
    StartMono(n, a, i + 1, a);
    StartEnd(n, a);
  }

  /** The number of agents among `0 .. m-1` that receive the larger share. */
  function LargerShares(n: nat, a: nat, m: nat): nat
    requires a > 0
  {
    if m == 0 then 0
    else LargerShares(n, a, m - 1) + (if Quota(n, a, m - 1) == n / a + 1 then 1 else 0)
  }

  lemma {:induction false} LargerSharesPrefix(n: nat, a: nat, m: nat)
    requires a > 0
    ensures LargerShares(n, a, m) == Min(m, n % a)
  {
    if m > 0 {
      LargerSharesPrefix(n, a, m - 1);
    }
  }

  /** Exactly `n % a` agents receive the larger share `n / a + 1`. */
  lemma LargerShareCount(n: nat, a: nat)
    requires a > 0
    ensures LargerShares(n, a, a) == n % a
  {
    LargerSharesPrefix(n, a, a);
  }

  // ---------------------------------------------------------------------
  // Owners

  lemma LowRegion(q: nat, r: nat, k: nat)
    requires k < r * (q + 1)
    ensures k / (q + 1) < r
    ensures (k / (q + 1)) * (q + 1) <= k < (k / (q + 1)) * (q + 1) + (q + 1)
  {
    DivBounds(k, q + 1);
    if k / (q + 1) >= r {
      MulMono(r, k / (q + 1), q + 1);
    }
  }

  lemma HighRegion(q: nat, r: nat, a: nat, k: nat)
    requires q > 0 && r < a && r * (q + 1) <= k < a * q + r
    ensures r + (k - r * (q + 1)) / q < a
    ensures (r + (k - r * (q + 1)) / q) * q + r <= k < (r + (k - r * (q + 1)) / q) * q + r + q
  {
    var x := k - r * (q + 1);
    DivBounds(x, q);
    var m := x / q;
    assert r * (q + 1) == r * q + r;
    assert (a - r) * q == a * q - r * q;
    if m >= a - r {
      MulMono(a - r, m, q);
    }
    assert (r + m) * q == r * q + m * q;
  }

  lemma OwnerBlockLow(n: nat, a: nat, k: nat)
    requires a > 0 && k < n && k < (n % a) * (n / a + 1)
    ensures Owner(n, a, k) == k / (n / a + 1) < n % a
    ensures Start(n, a, Owner(n, a, k)) <= k < Start(n, a, Owner(n, a, k)) + Quota(n, a, Owner(n, a, k))
  {
    var q, r := n / a, n % a;
    LowRegion(q, r, k);
    var i := k / (q + 1);
    assert i * (q + 1) == i * q + i;
    assert Start(n, a, i) == i * q + i;
  }

  /** Rows past the larger blocks exist only when `n / a > 0`, and lie
      below `a * q + r`. */
  lemma HighRegionBounds(n: nat, a: nat, k: nat)
    requires a > 0 && (n % a) * (n / a + 1) <= k < n
    ensures n / a > 0 && n % a < a && k < a * (n / a) + n % a
  {
    var q, r := n / a, n % a;
    DivMod(n, a);
    assert r * (q + 1) == r * q + r;
    assert q == 0 ==> r * q == 0;
  }

  lemma OwnerBlockHigh(n: nat, a: nat, k: nat)
    requires a > 0 && (n % a) * (n / a + 1) <= k < n
    ensures Owner(n, a, k) < a
    ensures Start(n, a, Owner(n, a, k)) <= k < Start(n, a, Owner(n, a, k)) + Quota(n, a, Owner(n, a, k))
  {
    var q, r := n / a, n % a;
    HighRegionBounds(n, a, k);
    HighRegion(q, r, a, k);
    var i := r + (k - r * (q + 1)) / q;
    assert Owner(n, a, k) == i;
    assert Start(n, a, i) == i * q + r;
  }

  /** Every row belongs to some agent's block, and `Owner` names it. */
  lemma OwnerBlock(n: nat, a: nat, k: nat)
    requires a > 0 && k < n
    ensures Owner(n, a, k) < a
    ensures Start(n, a, Owner(n, a, k)) <= k < Start(n, a, Owner(n, a, k)) + Quota(n, a, Owner(n, a, k))
  {
    if k < (n % a) * (n / a + 1) {
      OwnerBlockLow(n, a, k);
    } else {
      OwnerBlockHigh(n, a, k);
    }
  }

  lemma OwnerInBlockLow(n: nat, a: nat, i: nat, k: nat)
    requires a > 0 && i < n % a
    requires Start(n, a, i) <= k < Start(n, a, i) + Quota(n, a, i)
    ensures k < (n % a) * (n / a + 1) && k / (n / a + 1) == i
  {
    var q, r := n / a, n % a;
    assert Start(n, a, i) == i * (q + 1) by {
      assert i * (q + 1) == i * q + i;
    }
    assert (i + 1) * (q + 1) == i * (q + 1) + (q + 1);
    MulMono(i + 1, r, q + 1);
    DivUnique(k, q + 1, i);
  }

  lemma OwnerInBlockHigh(n: nat, a: nat, i: nat, k: nat)
    requires a > 0 && n % a <= i < a
    requires Start(n, a, i) <= k < Start(n, a, i) + Quota(n, a, i)
    ensures (n % a) * (n / a + 1) <= k && n / a > 0
    ensures (k - (n % a) * (n / a + 1)) / (n / a) == i - n % a
  {
    var q, r := n / a, n % a;
    assert Start(n, a, i) == i * q + r;
    assert Quota(n, a, i) == q;
    assert r * (q + 1) == r * q + r;
    MulMono(r, i, q);
    assert (i - r) * q == i * q - r * q;
    DivUnique(k - r * (q + 1), q, i - r);
  }

  /** Conversely, a row inside agent `i`'s block is owned by agent `i`. */
  lemma OwnerInBlock(n: nat, a: nat, i: nat, k: nat)
    requires a > 0 && i < a
    requires Start(n, a, i) <= k < Start(n, a, i) + Quota(n, a, i)
    ensures k < n && Owner(n, a, k) == i
  {
    BlockInRange(n, a, i);
    if i < n % a {
      OwnerInBlockLow(n, a, i, k);
    } else {
      OwnerInBlockHigh(n, a, i, k);
    }
  }

  /** Ownership never decreases along the rows: the blocks are contiguous
      and in agent order. */
  lemma OwnerMono(n: nat, a: nat, k1: nat, k2: nat)
    requires a > 0 && k1 <= k2 < n
    ensures Owner(n, a, k1) <= Owner(n, a, k2)
  {
    var i1, i2 := Owner(n, a, k1), Owner(n, a, k2);
    OwnerBlock(n, a, k1);
    OwnerBlock(n, a, k2);
    if i2 < i1 {
      StartStep(n, a, i2);
      StartMono(n, a, i2 + 1, i1);
    }
  }

  /** The number of rows among `0 .. m-1` that agent `i` owns. */
  function OwnedBelow(n: nat, a: nat, i: nat, m: nat): nat
    requires a > 0 && m <= n
  {
    if m == 0 then 0
    else OwnedBelow(n, a, i, m - 1) + (if Owner(n, a, m - 1) == i then 1 else 0)
  }

  lemma {:induction false} OwnedBelowPrefix(n: nat, a: nat, i: nat, m: nat)
    requires a > 0 && i < a && m <= n
    ensures var lo, hi := Start(n, a, i), Start(n, a, i) + Quota(n, a, i);
            OwnedBelow(n, a, i, m) == if m <= lo then 0 else if m <= hi then m - lo else hi - lo
  {
    if m > 0 {
      OwnedBelowPrefix(n, a, i, m - 1);
      OwnerBlock(n, a, m - 1);
      var lo, hi := Start(n, a, i), Start(n, a, i) + Quota(n, a, i);
      if lo <= m - 1 < hi {
        OwnerInBlock(n, a, i, m - 1);
      }
    }
  }

  /** Agent `i` owns exactly `Quota(n, a, i)` of the `n` rows. */
  lemma OwnedCount(n: nat, a: nat, i: nat)
    requires a > 0 && i < a
    ensures OwnedBelow(n, a, i, n) == Quota(n, a, i)
  {
    OwnedBelowPrefix(n, a, i, n);
    BlockInRange(n, a, i);
  }
}
