/** Powers of two and multiples of natural numbers, by recursion. */
module Naturals {

  function Pow2(k: nat): (r: nat)
    ensures r > 0
  {
    if k == 0 then 1 else 2 * Pow2(k - 1)
  }

  lemma {:induction false} Pow2Monotone(a: nat, b: nat)
    requires a <= b
    ensures Pow2(a) <= Pow2(b)
    decreases b
  {
    if a < b {
      Pow2Monotone(a, b - 1);
    }
  }

  /** x is a multiple of m. */
  predicate Multiple(x: nat, m: nat)
    requires m > 0
  {
    x == 0 || (x >= m && Multiple(x - m, m))
  }

  lemma {:induction false} AddMultiple(x: nat, k: nat, m: nat)
    requires m > 0 && Multiple(k, m)
    ensures Multiple(x + k, m) <==> Multiple(x, m)
    decreases k
  {
    if k > 0 {
      AddMultiple(x, k - m, m);
      assert Multiple(x + k, m) <==> Multiple(x + k - m, m);
    }
  }

  lemma {:induction false} NoMultipleBetween(low: nat, d: nat, m: nat)
    requires 0 < d < m && Multiple(low, m)
    ensures !Multiple(low + d, m)
    decreases low
  {
    if low > 0 {
      NoMultipleBetween(low - m, d, m);
    }
  }

  /** Different multiples of m are at least m apart. */
  lemma {:induction false} MultiplesApart(x: nat, y: nat, m: nat)
    requires m > 0 && Multiple(x, m) && Multiple(y, m) && x < y
    ensures x + m <= y
    decreases x
  {
    if x > 0 {
      MultiplesApart(x - m, y - m, m);
    }
  }
}
