/** The mercy scheduler of getNewPattern: a counter that picks the hardest
    family until it reaches the tier's limit, then grants one easier pick. */
module Scheduler {
  import opened Ranking

  /** hardestMax: the counter value at which a mercy pick happens, or Never
      for the hard tier, whose counter never matches. */
  datatype Limit = Never | After(max: nat)

  /** The counter has reached the limit: this guess is a mercy pick. */
  predicate IsMercy(limit: Limit, count: nat)
  {
    limit.After? && count == limit.max
  }

  /** The counter after one guess: reset on a mercy pick, else one more. */
  function NextCount(limit: Limit, count: nat): (next: nat)
  {
    if IsMercy(limit, count) then 0 else count + 1
  }

  /** p is the family the scheduler picks from freq with counter count:
      the second-hardest on a mercy pick when there are at least two
      families, and the hardest otherwise. */
  ghost predicate Chosen(limit: Limit, count: nat, freq: map<string, int>, p: string)
  {
    if IsMercy(limit, count) && |freq| >= 2 then IsSecondHardest(freq, p) else IsHardest(freq, p)
  }

  /** The counter after n guesses of a fresh round. */
  function Counter(limit: Limit, n: nat): (c: nat)
  {
    if n == 0 then 0 else NextCount(limit, Counter(limit, n - 1))
  }

  /** The mercy picks granted during the first n guesses of a fresh round. */
  function Mercies(limit: Limit, n: nat): (q: nat)
  {
    if n == 0 then 0
    else Mercies(limit, n - 1) + (if IsMercy(limit, Counter(limit, n - 1)) then 1 else 0)
  }

  lemma DivModUnique(n: nat, d: nat, q: nat, r: nat)
    requires 0 <= r < d && n == q * d + r
    ensures n / d == q && n % d == r
  {
    var q', r' := n / d, n % d;
    assert n == q' * d + r';
    if q > q' {
      assert q * d == q' * d + (q - q') * d;
      MulAtLeast(q - q', d);
    } else if q < q' {
      assert q' * d == q * d + (q' - q) * d;
      MulAtLeast(q' - q, d);
    }
  }

  lemma MulAtLeast(a: nat, d: nat)
    requires a >= 1
    ensures a * d >= d
  {
    assert a * d == (a - 1) * d + d;
  }

  /** With limit M the counter cycles through 0..M: after n guesses the
      counter is at most M and n splits into M + 1 guesses per mercy pick
      granted so far plus the current counter. */
  lemma {:induction false} Cadence(m: nat, n: nat)
    ensures Counter(After(m), n) <= m
    ensures n == Mercies(After(m), n) * (m + 1) + Counter(After(m), n)
  {
    if n > 0 {
      Cadence(m, n - 1);
      var q := Mercies(After(m), n - 1);
      if Counter(After(m), n - 1) == m {
        assert (q + 1) * (m + 1) == q * (m + 1) + (m + 1);
      }
    }
  }

  /** The same in terms of division: the counter is n % (M + 1) and
      n / (M + 1) mercy picks have been granted. */
  lemma CadenceDivMod(m: nat, n: nat)
    ensures Counter(After(m), n) == n % (m + 1)
    ensures Mercies(After(m), n) == n / (m + 1)
  {
    Cadence(m, n);
    DivModUnique(n, m + 1, Mercies(After(m), n), Counter(After(m), n));
  }

  /** With limit M the k-th guess (counting from 1) is a mercy pick exactly
      when k is a multiple of M + 1. */
  lemma MercyOnMultiples(m: nat, k: nat)
    requires k >= 1
    ensures IsMercy(After(m), Counter(After(m), k - 1)) <==> k % (m + 1) == 0
  {
    Cadence(m, k - 1);
    var q, c := Mercies(After(m), k - 1), Counter(After(m), k - 1);
    if c == m {
      assert (q + 1) * (m + 1) == q * (m + 1) + (m + 1);
      DivModUnique(k, m + 1, q + 1, 0);
    } else {
      DivModUnique(k, m + 1, q, c + 1);
    }
  }

  /** The hard tier never grants mercy: its counter just counts the guesses. */
  lemma {:induction false} NeverMerciful(n: nat)
    ensures Counter(Never, n) == n && Mercies(Never, n) == 0
  {
    if n > 0 {
      NeverMerciful(n - 1);
    }
  }
}
