/**
  Which complexity to mine a seed with (bee_miner/src/core/session_complexity.rs), against the miner
  contract as that file documents it: the current seed is checked with the old pair, which takes the
  new pair only when a session is accepted; a cancel rotates the seeds and leaves the old pair.
 */
module SessionComplexity {
  import opened Prelude

  datatype Complexity = Complexity(easy: u32, hard: u32)

  datatype MinerData = MinerData(seed: string, nextSeed: string, complexity: Complexity, checkedWith: Complexity)

  function SelectSessionComplexity(seed: string, data: MinerData, sessionInFlight: bool): Option<Complexity> {
    if seed == data.seed then Some(data.checkedWith)
    else if seed == data.nextSeed then Some(if sessionInFlight then data.complexity else data.checkedWith)
    else None
  }

  datatype Event = Change(to: Complexity) | Accept(newNext: string) | Cancel(newNext: string)

  function Apply(data: MinerData, e: Event): MinerData {
    match e
    case Change(to) => data.(complexity := to)
    case Accept(next) => MinerData(data.nextSeed, next, data.complexity, data.complexity)
    case Cancel(next) => MinerData(data.nextSeed, next, data.complexity, data.checkedWith)
  }

  function ApplyAll(data: MinerData, events: seq<Event>): MinerData
    decreases |events|
  {
    if events == [] then data else ApplyAll(Apply(data, events[0]), events[1..])
  }

  predicate OnlyChanges(events: seq<Event>) {
    forall i | 0 <= i < |events| :: events[i].Change?
  }

  /** Changes of complexity touch neither the seeds nor the old pair. */
  lemma {:induction false} ChangesKeep(data: MinerData, events: seq<Event>)
    requires OnlyChanges(events)
    ensures var d := ApplyAll(data, events);
            && d == data.(complexity := d.complexity)
            && d.complexity == if events == [] then data.complexity else events[|events| - 1].to
    decreases |events|
  {
    if events == [] {
    } else {
      ChangesKeep(Apply(data, events[0]), events[1..]);
    }
  }

  lemma {:induction false} ApplyAllAppend(data: MinerData, a: seq<Event>, b: seq<Event>)
    ensures ApplyAll(data, a + b) == ApplyAll(ApplyAll(data, a), b)
    decreases |a|
  {
    if a == [] {
      assert a + b == b;
    } else {
      assert (a + b)[1..] == a[1..] + b;
      ApplyAllAppend(Apply(data, a[0]), a[1..], b);
    }
  }

  /** A pair is given exactly for the two seeds the contract knows. */
  lemma {:induction false} KnownSeedsExactly(seed: string, data: MinerData, sessionInFlight: bool)
    ensures SelectSessionComplexity(seed, data, sessionInFlight).None? <==> seed != data.seed && seed != data.nextSeed
  {
  }

  /** The current seed is mined with what it will be checked with, under any number of changes. */
  lemma {:induction false} CurrentSeedMatches(data: MinerData, changes: seq<Event>, sessionInFlight: bool)
    requires OnlyChanges(changes)
    ensures var d := ApplyAll(data, changes);
            d.seed == data.seed && SelectSessionComplexity(data.seed, data, sessionInFlight) == Some(d.checkedWith)
  {
    ChangesKeep(data, changes);
  }

  /** How the next seed becomes current. */
  function Rotation(accepted: bool, newNext: string): Event {
    if accepted then Accept(newNext) else Cancel(newNext)
  }

  /** The pair in force after `before`. */
  function InForce(data: MinerData, before: seq<Event>): Complexity
    requires OnlyChanges(before)
  {
    if before == [] then data.complexity else before[|before| - 1].to
  }

  /**
    The next seed is mined with what it will be checked with exactly when the pair the flag picks is the
    pair the rotation leaves. The flag is read when mining starts; how the other session ends, and what
    changes before that, is open then.
   */
  lemma {:induction false} NextSeedMatchesExactly(
    data: MinerData, inFlight: bool, before: seq<Event>, accepted: bool, newNext: string, after: seq<Event>)
    requires data.seed != data.nextSeed && OnlyChanges(before) && OnlyChanges(after)
    ensures var d := ApplyAll(data, before + [Rotation(accepted, newNext)] + after);
            && d.seed == data.nextSeed
            && (SelectSessionComplexity(data.nextSeed, data, inFlight) == Some(d.checkedWith)
                <==> (if inFlight then data.complexity else data.checkedWith)
                     == (if accepted then InForce(data, before) else data.checkedWith))
  {
    var turn := Rotation(accepted, newNext);
    ApplyAllAppend(data, before + [turn], after);
    ApplyAllAppend(data, before, [turn]);
    var mid := ApplyAll(data, before);
    assert ApplyAll(mid, [turn]) == Apply(mid, turn) by { assert [turn][1..] == []; }
    ChangesKeep(data, before);
    ChangesKeep(Apply(mid, turn), after);
  }

  /**
    Where the flag says how the rotation will come, the next seed matches after a cancel always, and after
    an accept exactly when the last change before it left the pair as it was read.
   */
  lemma {:induction false} RightFlagMatches(
    data: MinerData, before: seq<Event>, accepted: bool, newNext: string, after: seq<Event>)
    requires data.seed != data.nextSeed && OnlyChanges(before) && OnlyChanges(after)
    ensures var d := ApplyAll(data, before + [Rotation(accepted, newNext)] + after);
            SelectSessionComplexity(data.nextSeed, data, accepted) == Some(d.checkedWith)
            <==> !accepted || InForce(data, before) == data.complexity
  {
    NextSeedMatchesExactly(data, accepted, before, accepted, newNext, after);
  }

  /**
    A flag that does not: nothing changes after the reading, and still the next seed is mined with one pair
    and checked with the other exactly when the two pairs differ.
   */
  lemma {:induction false} WrongFlagMatches(data: MinerData, accepted: bool, newNext: string)
    requires data.seed != data.nextSeed
    ensures SelectSessionComplexity(data.nextSeed, data, !accepted)
              == Some(Apply(data, Rotation(accepted, newNext)).checkedWith)
            <==> data.complexity == data.checkedWith
  {
    var turn := Rotation(accepted, newNext);
    assert [] + [turn] + [] == [turn] && [turn][1..] == [];
    NextSeedMatchesExactly(data, !accepted, [], accepted, newNext, []);
  }

  /** The failing input: the complexity was raised, and the session in flight is cancelled in the end. */
  lemma {:induction false} InFlightThenCancelled(newNext: string)
    ensures var data := MinerData("a", "b", Complexity(1, 12), Complexity(1, 11));
            && SelectSessionComplexity("b", data, true) == Some(Complexity(1, 12))
            && Apply(data, Cancel(newNext)).seed == "b"
            && Apply(data, Cancel(newNext)).checkedWith == Complexity(1, 11)
  {
  }
}
