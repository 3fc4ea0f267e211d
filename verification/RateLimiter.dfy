/**
  The shared rate limiter (bee_infra/src/rate_limiter.rs). Clones share one locked bucket, so the
  calls of all clones form one sequence of clock readings in lock order; readings may go backwards.
 */
module RateLimiter {
  import opened Prelude

  /** The bucket after a call at `now`, and the slot the caller gets: now plus its wait. */
  function Slot(next: nat, now: nat): nat {
    if now >= next then now else next
  }

  /** The slots of a sequence of calls, the bucket starting at `next`. */
  function Slots(interval: nat, next: nat, arrivals: seq<nat>): seq<nat>
    decreases |arrivals|
  {
    if arrivals == [] then []
    else [Slot(next, arrivals[0])] + Slots(interval, Slot(next, arrivals[0]) + interval, arrivals[1..])
  }

  class Limiter {
    const intervalMs: nat
    var nextAllowedMs: nat

    constructor (maxRps: u32)
      requires maxRps > 0
      ensures intervalMs == 1000 / maxRps && nextAllowedMs == 0
    {
      intervalMs := 1000 / maxRps;
      nextAllowedMs := 0;
    }

    /** The caller waits exactly until its slot; the next slot is an interval later. */
    method Acquire(now: nat) returns (waitMs: nat)
      modifies this
      ensures now + waitMs == Slot(old(nextAllowedMs), now)
      ensures nextAllowedMs == Slot(old(nextAllowedMs), now) + intervalMs
    {
      if now >= nextAllowedMs {
        nextAllowedMs := now + intervalMs;
        waitMs := 0;
      } else {
        waitMs := nextAllowedMs - now;
        nextAllowedMs := nextAllowedMs + intervalMs;
      }
    }
  }

  /** A schedule that honours every arrival and keeps `interval` between consecutive slots. */
  ghost predicate Admissible(interval: nat, next: nat, arrivals: seq<nat>, slots: seq<nat>) {
    && |slots| == |arrivals|
    && (forall i | 0 <= i < |slots| :: slots[i] >= arrivals[i] && slots[i] >= next)
    && (forall i, j | 0 <= i < j < |slots| :: slots[j] >= slots[i] + (j - i) * interval)
  }

  lemma {:induction false} SlotsAdmissible(interval: nat, next: nat, arrivals: seq<nat>)
    ensures Admissible(interval, next, arrivals, Slots(interval, next, arrivals))
    decreases |arrivals|
  {
    if arrivals == [] {
    } else {
      var s := Slots(interval, next, arrivals);
      var first := Slot(next, arrivals[0]);
      SlotsAdmissible(interval, first + interval, arrivals[1..]);
      var rest := Slots(interval, first + interval, arrivals[1..]);
      assert s[1..] == rest;
      forall i, j | 0 <= i < j < |s| ensures s[j] >= s[i] + (j - i) * interval {
        if i == 0 {
          assert s[j] == rest[j - 1] && s[1] == rest[0] >= first + interval;
          if j > 1 {
            assert rest[j - 1] >= rest[0] + (j - 1) * interval;
          }
          Distribute(j, interval);
        } else {
          assert rest[j - 1] >= rest[i - 1] + ((j - 1) - (i - 1)) * interval;
        }
      }
      forall i | 0 <= i < |s| ensures s[i] >= arrivals[i] && s[i] >= next {
        if i > 0 {
          assert rest[i - 1] >= arrivals[1..][i - 1];
        }
      }
    }
  }

  lemma {:induction false} Distribute(j: nat, interval: nat)
    requires j > 0
    ensures interval + (j - 1) * interval == j * interval
  {
  }

  /** The limiter's schedule is pointwise the earliest of all admissible ones. */
  lemma {:induction false} SlotsEarliest(interval: nat, next: nat, arrivals: seq<nat>, other: seq<nat>)
    requires Admissible(interval, next, arrivals, other)
    ensures |Slots(interval, next, arrivals)| == |other|
    ensures forall i | 0 <= i < |other| :: Slots(interval, next, arrivals)[i] <= other[i]
    decreases |arrivals|
  {
    if arrivals == [] {
    } else {
      var first := Slot(next, arrivals[0]);
      assert first <= other[0];
      var rest := other[1..];
      forall i | 0 <= i < |rest| ensures rest[i] >= first + interval {
        assert other[i + 1] >= other[0] + (i + 1) * interval;
        assert (i + 1) * interval >= interval by { Distribute(i + 1, interval); }
      }
      forall i, j | 0 <= i < j < |rest| ensures rest[j] >= rest[i] + (j - i) * interval {
        assert other[j + 1] >= other[i + 1] + ((j + 1) - (i + 1)) * interval;
      }
      SlotsEarliest(interval, first + interval, arrivals[1..], rest);
    }
  }

  // --- How many slots a window holds ---

  /** Slots i to j - 1 all lie in the half-open window [from, from + width). */
  ghost predicate InWindow(slots: seq<nat>, i: nat, j: nat, from: nat, width: nat) {
    i <= j <= |slots| && forall k | i <= k < j :: from <= slots[k] < from + width
  }

  /** Any window of `width` ms holds at most width/interval slots, rounded up; slots in a window are consecutive. */
  lemma {:induction false} WindowHolds(
    interval: nat, next: nat, arrivals: seq<nat>, i: nat, j: nat, from: nat, width: nat)
    requires interval > 0 && InWindow(Slots(interval, next, arrivals), i, j, from, width)
    ensures j - i <= (width + interval - 1) / interval
  {
    if i < j {
      var s := Slots(interval, next, arrivals);
      SlotsAdmissible(interval, next, arrivals);
      var k := j - 1 - i;
      assert s[j - 1] >= s[i] + k * interval by {
        if k > 0 {
          assert s[j - 1] >= s[i] + ((j - 1) - i) * interval;
        }
      }
      assert k * interval < width;
      DivideLess(k, interval, width);
    }
  }

  lemma {:induction false} DivideLess(k: nat, interval: nat, width: nat)
    requires interval > 0 && k * interval < width
    ensures k + 1 <= (width + interval - 1) / interval
  {
    var q := (width + interval - 1) / interval;
    assert width + interval - 1 < interval * (q + 1);
    if q <= k {
      MulOrder(interval, q + 1, k + 1);
    }
  }

  lemma {:induction false} MulOrder(a: nat, b: nat, c: nat)
    requires b <= c
    ensures a * b <= a * c
  {
  }

  // --- The documented rate ---

  /** "At most `max_rps` calls per second": no window of 1000 ms holds more slots. */
  ghost predicate KeepsRate(maxRps: u32)
    requires maxRps > 0
  {
    forall arrivals: seq<nat>, i: nat, j: nat, from: nat ::
      InWindow(Slots(1000 / maxRps, 0, arrivals), i, j, from, 1000) ==> j - i <= maxRps
  }

  /** n calls at time t. */
  function Burst(n: nat, t: nat): seq<nat> {
    seq(n, _ => t)
  }

  lemma {:induction false} SlotsOfBurst(interval: nat, next: nat, n: nat, t: nat)
    ensures |Slots(interval, next, Burst(n, t))| == n
    ensures forall k | 0 <= k < n :: Slots(interval, next, Burst(n, t))[k] == Slot(next, t) + k * interval
    decreases n
  {
    if n == 0 {
    } else {
      var burst, first := Burst(n, t), Slot(next, t);
      assert burst[1..] == Burst(n - 1, t);
      SlotsOfBurst(interval, first + interval, n - 1, t);
      forall k | 0 < k < n ensures Slots(interval, next, burst)[k] == first + k * interval {
        Distribute(k, interval);
      }
    }
  }

  /** The failing input, at any time t and from any state of the bucket: max_rps + 1 calls get slots within a second. */
  lemma {:induction false} BurstBreaksRate(maxRps: u32, next: nat, t: nat)
    requires maxRps > 0 && 1000 % maxRps != 0
    ensures InWindow(Slots(1000 / maxRps, next, Burst(maxRps + 1, t)), 0, maxRps + 1, Slot(next, t), 1000)
  {
    var interval := 1000 / maxRps;
    SlotsOfBurst(interval, next, maxRps + 1, t);
    forall k | 0 <= k < maxRps + 1 ensures 0 <= k * interval < 1000 {
      MulOrder(interval, k, maxRps);
      assert maxRps * interval < 1000;
    }
  }

  /**
    The documented rate is kept exactly when `max_rps` divides 1000: otherwise the interval is rounded
    down, and max_rps + 1 calls at one time get slots within one second.
   */
  lemma {:induction false} RateKeptExactly(maxRps: u32)
    requires maxRps > 0
    ensures KeepsRate(maxRps) <==> 1000 % maxRps == 0
  {
    var interval := 1000 / maxRps;
    if 1000 % maxRps == 0 {
      assert maxRps * interval == 1000;
      CeilingIsExact(maxRps, interval);
      forall arrivals: seq<nat>, i: nat, j: nat, from: nat | InWindow(Slots(interval, 0, arrivals), i, j, from, 1000)
        ensures j - i <= maxRps
      {
        WindowHolds(interval, 0, arrivals, i, j, from, 1000);
      }
    } else {
      BurstBreaksRate(maxRps, 0, 0);
    }
  }

  lemma {:induction false} CeilingIsExact(n: nat, interval: nat)
    requires n > 0 && n * interval == 1000
    ensures interval > 0 && (1000 + interval - 1) / interval <= n
  {
    assert interval > 0;
    Distribute(n + 1, interval);
    DivideUpper(1000 + interval - 1, interval, n);
  }

  lemma {:induction false} DivideUpper(num: nat, d: nat, n: nat)
    requires d > 0 && num < (n + 1) * d
    ensures num / d <= n
  {
    var q := num / d;
    assert d * q <= num;
    MulOrder(d, n + 1, if q > n then q else n + 1);
  }
}
