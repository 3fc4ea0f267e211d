/** Bounded retry with exponential backoff (bee_infra/src/retry.rs). */
module Retry {
  import opened Prelude

  datatype Policy = Policy(maxAttempts: u32, maxTotalMs: Option<u64>, baseMs: u64, capMs: u64, jitter: bool)

  /** `1u64.checked_shl(k).unwrap_or(u64::MAX)` */
  function CheckedShift(k: nat): u64 {
    if k < 64 then Pow2Fits(k); Pow2(k) else U64_MAX
  }

  lemma {:induction false} Pow2Fits(k: nat)
    requires k < 64
    ensures Pow2(k) < U64_LIMIT
  {
    Pow2At64();
    Pow2Grows(k, 63);
  }

  lemma {:induction false} Pow2Grows(j: nat, k: nat)
    requires j <= k
    ensures Pow2(j) <= Pow2(k)
  {
    if j == k {
    } else {
      Pow2Grows(j, k - 1);
    }
  }

  lemma {:induction false} Pow2At64()
    ensures Pow2(63) < U64_LIMIT && Pow2(64) == U64_LIMIT
  {
    assert Pow2(8) == 0x100;
    assert Pow2(16) == 0x1_0000;
    assert Pow2(24) == 0x100_0000;
    assert Pow2(32) == 0x1_0000_0000;
    assert Pow2(40) == 0x100_0000_0000;
    assert Pow2(48) == 0x1_0000_0000_0000;
    assert Pow2(56) == 0x100_0000_0000_0000;
    assert Pow2(64) == 0x1_0000_0000_0000_0000;
  }

  function SatMul(a: u64, b: u64): u64 {
    if a * b < U64_LIMIT then a * b else U64_MAX
  }

  /** `jitterMs` is what the pseudo-random generator gave; it counts only if the policy asks for it. */
  function BackoffDelay(p: Policy, attempt: u32, jitterMs: u64): nat {
    var shift := if attempt == 0 then 0 else attempt - 1;
    var grown := SatMul(p.baseMs, CheckedShift(shift));
    var capped := Min(grown, p.capMs);
    Min(SatAdd(capped, if p.jitter then jitterMs else 0), p.capMs)
  }

  /** The documented delay over unbounded integers. */
  function IdealDelay(base: nat, cap: nat, attempt: nat): nat
    requires attempt >= 1
  {
    Min(base * Pow2(attempt - 1), cap)
  }

  /** Checked shift and saturating product lose nothing under the cap. */
  lemma {:induction false} CappedGrowth(base: u64, cap: u64, k: nat)
    ensures Min(SatMul(base, CheckedShift(k)), cap) == Min(base * Pow2(k), cap)
  {
    if k < 64 {
    } else {
      Pow2At64();
      Pow2Grows(64, k);
      if base > 0 {
        Product(base, Pow2(k));
        Product(base, U64_MAX);
      }
    }
  }

  lemma {:induction false} Product(a: nat, b: nat)
    requires a > 0
    ensures a * b >= b
  {
  }

  /**
    For every attempt from 1 on, the 64-bit delay without jitter is the ideal min(base * 2^(attempt-1), cap)
    and never decreases with the attempt; with jitter it lies between that and the cap.
   */
  lemma {:induction false} BackoffIsIdeal(p: Policy, attempt: u32, later: u32, jitterMs: u64)
    requires 1 <= attempt <= later
    ensures var ideal := IdealDelay(p.baseMs, p.capMs, attempt);
            && (!p.jitter ==> BackoffDelay(p, attempt, jitterMs) == ideal)
            && (p.jitter ==> BackoffDelay(p, attempt, jitterMs) == Min(ideal + jitterMs, p.capMs))
            && ideal <= BackoffDelay(p, attempt, jitterMs) <= p.capMs
    ensures IdealDelay(p.baseMs, p.capMs, attempt) <= IdealDelay(p.baseMs, p.capMs, later)
  {
    CappedGrowth(p.baseMs, p.capMs, attempt - 1);
    Pow2Grows(attempt - 1, later - 1);
    Monotone(p.baseMs, Pow2(attempt - 1), Pow2(later - 1));
  }

  lemma {:induction false} Monotone(a: nat, b: nat, c: nat)
    requires b <= c
    ensures a * b <= a * c
  {
  }

  // --- The loop ---

  /** The budget is spent: elapsed time, saturating at 0 for a clock that ran backwards, has reached the cap. */
  predicate BudgetSpent(p: Policy, startMs: u64, nowMs: u64) {
    p.maxTotalMs.Some? && (if nowMs >= startMs then nowMs - startMs else 0) >= p.maxTotalMs.value
  }

  /** Attempt `a` failed in a way that calls for another. */
  predicate GoesOn<T, E>(p: Policy, shouldRetry: E -> bool, r: Result<T, E>, startMs: u64, nowMs: u64, a: nat) {
    r.Err? && a < p.maxAttempts && shouldRetry(r.error) && !BudgetSpent(p, startMs, nowMs)
  }

  /** `op` and `clock` give the result and the reading of each attempt, counted from 1. */
  method WithRetryPolicy<T, E>(
    p: Policy, shouldRetry: E -> bool, op: nat -> Result<T, E>, startMs: u64, clock: nat -> u64)
    returns (r: Result<T, E>, calls: nat)
    requires p.maxAttempts >= 1
    ensures 1 <= calls <= p.maxAttempts
    ensures r == op(calls)
    ensures forall a | 1 <= a < calls :: GoesOn(p, shouldRetry, op(a), startMs, clock(a), a)
    ensures !GoesOn(p, shouldRetry, op(calls), startMs, clock(calls), calls)
  {
    var attempt := 1;
    // Every round returns or goes on to an attempt within the limit: the fallback after the loop is never reached.
    while true
      invariant 1 <= attempt <= p.maxAttempts
      invariant forall a | 1 <= a < attempt :: GoesOn(p, shouldRetry, op(a), startMs, clock(a), a)
      decreases p.maxAttempts - attempt
    {
      calls := attempt;
      r := op(attempt);
      if r.Ok? {
        return;
      }
      if attempt == p.maxAttempts || !shouldRetry(r.error) {
        return;
      }
      if BudgetSpent(p, startMs, clock(attempt)) {
        return;
      }
      attempt := attempt + 1;
    }
  }
}
