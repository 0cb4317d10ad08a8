/** Durations in nanoseconds and the random part of a waiting time. */
module Durations {
  import opened Bytes

  const SECOND := 1_000_000_000

  type u128 = n: int | 0 <= n < U64_LIMIT * U64_LIMIT

  function Max(a: nat, b: nat): (m: nat)
    ensures m >= a && m >= b && (m == a || m == b)
  {
    if a < b then b else a
  }

  /** `(random % max_jitter) as u64` nanoseconds: the cast drops the upper half of the remainder. */
  function Jitter(maxJitter: nat, random: u128): (j: nat)
    ensures j < U64_LIMIT
    ensures maxJitter > 0 ==> j < maxJitter
    ensures maxJitter == 0 ==> j == 0
    ensures maxJitter > 0 ==> (random % maxJitter - j) % U64_LIMIT == 0
    ensures 0 < maxJitter <= U64_LIMIT ==> j == random % maxJitter
  {
    if maxJitter > 0 then (random % maxJitter) % U64_LIMIT else 0
  }

  function Sum(times: seq<nat>): nat {
    if times == [] then 0 else Sum(times[..|times| - 1]) + times[|times| - 1]
  }

  lemma MulStep(n: nat, k: nat)
    ensures (n + 1) * k == n * k + k
  {
  }

  lemma MulMonotone(a: nat, b: nat, k: nat)
    requires a <= b
    ensures a * k <= b * k
  {
    assert b * k == a * k + (b - a) * k;
  }

  lemma AtMostQuotient(n: nat, total: nat, k: nat)
    requires k > 0 && n * k <= total
    ensures n <= total / k
  {
    if n > total / k {
      MulMonotone(total / k + 1, n, k);
      MulStep(total / k, k);
      assert false;
    }
  }

  /** Times between two limits have a sum between the limits times their number. */
  lemma {:induction false} SumBounds(times: seq<nat>, least: nat, most: nat)
    requires forall i | 0 <= i < |times| :: least <= times[i] <= most
    ensures |times| * least <= Sum(times) <= |times| * most
  {
    if times != [] {
      var n := |times| - 1;
      SumBounds(times[..n], least, most);
      MulStep(n, least);
      MulStep(n, most);
    }
  }
}
