/**
  The mining session (bee_miner/src/core): `MiningCore` with its Merkle processor.
  The session is first a value with one function per call; the classes below it are the code's own
  shape, each method proved equal to its function.
 */
module Mining {
  import opened Prelude
  import opened Bytes
  import opened Leaf
  import Merkle

  /** How rs_merkle joins two children. */
  function PairHash(blake: Hasher): (Digest, Digest) -> Digest {
    (l: Digest, r: Digest) => blake(l + r)
  }

  datatype Core = Core(
    seed: Str,
    targetBits: u32,
    durationMs: u64,
    committed: bool,
    completed: seq<ComputedLeaf>,
    endsAtMs: Option<u64>,
    lastNowMs: Option<u64>,
    leaves: seq<Digest>,
    uncommitted: seq<Digest>)

  function NewCore(seed: Str, durationMs: u64, targetBits: u32): Core {
    Core(seed, targetBits, durationMs, false, [], None, None, [], [])
  }

  // --- compute ---

  function Candidate(c: Core, x: u32, y: u32, now: u64, nonce: u64): Leaf {
    Leaf(AsU128(|c.completed|), nonce, c.seed, x, y, now, c.targetBits)
  }

  predicate Hits(blake: Hasher, l: Leaf) {
    HashNum(Compute(blake, l)) < Threshold(l.complexity)
  }

  /** The least nonce from `from` on that satisfies `hit`. */
  function FirstFrom(hit: u64 -> bool, from: nat): Option<u64>
    decreases U64_LIMIT - from
  {
    if from >= U64_LIMIT then None
    else if hit(from) then Some(from)
    else FirstFrom(hit, from + 1)
  }

  function FirstNonce(blake: Hasher, l: Leaf): Option<u64> {
    FirstFrom((n: u64) => Hits(blake, l.(nonce := n)), 0)
  }

  /** `Spins`: no nonce of the 64-bit range meets the threshold, so the code searches for ever. */
  datatype Outcome = Refused | Spins | Mined(leaf: ComputedLeaf)

  /** The deadline is set by the first call, whatever comes of it. */
  function WithDeadline(c: Core, now: u64): Core {
    if c.endsAtMs.None? then c.(endsAtMs := Some(SatAdd(now, c.durationMs))) else c
  }

  predicate Admits(c: Core, now: u64)
    requires c.endsAtMs.Some?
  {
    now < c.endsAtMs.value && !c.committed && (c.lastNowMs.Some? ==> c.lastNowMs.value <= now)
  }

  function Push(blake: Hasher, c: Core, leaf: ComputedLeaf): Core {
    c.(completed := c.completed + [leaf], uncommitted := c.uncommitted + [MerkleHash(blake, leaf)])
  }

  function ComputeStep(blake: Hasher, c: Core, x: u32, y: u32, now: u64): (Core, Outcome) {
    var c1 := WithDeadline(c, now);
    if !Admits(c1, now) then (c1, Refused)
    else
      var c2 := c1.(lastNowMs := Some(now));
      var l := Candidate(c2, x, y, now, 0);
      match FirstNonce(blake, l)
      case None => (c2, Spins)
      case Some(nonce) =>
        var leaf := Compute(blake, l.(nonce := nonce));
        (Push(blake, c2, leaf), Mined(leaf))
  }

  // --- get_merkle, get_proof, reset ---

  function CommitStep(c: Core): Core {
    if c.committed then c else c.(committed := true, leaves := c.leaves + c.uncommitted, uncommitted := [])
  }

  /** Empty for a tree without committed leaves. */
  function RootBytes(blake: Hasher, leaves: seq<Digest>): seq<byte> {
    if leaves == [] then [] else Merkle.Root(PairHash(blake), leaves)
  }

  function Flatten(hashes: seq<Digest>): seq<byte> {
    if hashes == [] then [] else hashes[0] + Flatten(hashes[1..])
  }

  /** `Panics`: slicing `completed` out of range. */
  datatype ProofReply =
    | BadWindow
    | Panics
    | Proof(proof: seq<byte>, selected: seq<Digest>, data: seq<ComputedLeaf>)

  function GetProof(blake: Hasher, c: Core, start: nat, end: nat): ProofReply {
    if start >= end || end > |c.leaves| then BadWindow
    else if end > |c.completed| then Panics
    else
      var proof := Merkle.WindowProof(PairHash(blake), c.leaves, start, end);
      Proof(Flatten(proof), c.leaves[start..end], c.completed[start..end])
  }

  function ResetStep(c: Core): Core {
    NewCore(c.seed, c.durationMs, c.targetBits)
  }

  // --- Runs ---

  datatype Call = DoCompute(x: u32, y: u32, now: u64) | DoGetMerkle | DoGetProof(start: nat, end: nat) | DoReset

  function Step(blake: Hasher, c: Core, call: Call): Core {
    match call
    case DoCompute(x, y, now) => ComputeStep(blake, c, x, y, now).0
    case DoGetMerkle => CommitStep(c)
    case DoGetProof(_, _) => c
    case DoReset => ResetStep(c)
  }

  function Run(blake: Hasher, c: Core, calls: seq<Call>): Core {
    if calls == [] then c else Step(blake, Run(blake, c, calls[..|calls| - 1]), calls[|calls| - 1])
  }

  function Hashes(blake: Hasher, s: seq<ComputedLeaf>): seq<Digest> {
    seq(|s|, i requires 0 <= i < |s| => MerkleHash(blake, s[i]))
  }

  /** A leaf of this session: its seed and complexity, its own hash, and that hash meets the threshold. */
  ghost predicate MinedFor(blake: Hasher, seed: Str, bits: u32, l: ComputedLeaf) {
    && l.leaf.seed == seed && l.leaf.complexity == bits
    && l.hash == blake(Preimage(l.leaf)) && HashNum(l) < Threshold(bits)
  }

  /** Every leaf is of this session, and leaf i has index i. */
  ghost predicate LeavesGood(blake: Hasher, seed: Str, bits: u32, s: seq<ComputedLeaf>) {
    IndexesGood(s) && forall l | l in s :: MinedFor(blake, seed, bits, l)
  }

  ghost predicate IndexesGood(s: seq<ComputedLeaf>) {
    forall i | 0 <= i < |s| :: s[i].leaf.index == AsU128(i)
  }

  /** The tree holds the Merkle hashes of the completed leaves, all committed or all uncommitted. */
  ghost predicate TreeGood(blake: Hasher, c: Core) {
    if c.committed then c.leaves == Hashes(blake, c.completed) && c.uncommitted == []
    else c.leaves == [] && c.uncommitted == Hashes(blake, c.completed)
  }

  /** Timestamps never decrease, stay at or below the watermark and below the deadline. */
  ghost predicate TimesGood(c: Core) {
    && (c.endsAtMs.None? ==> c.lastNowMs.None?)
    && (c.completed != [] ==> c.lastNowMs.Some?)
    && (forall i | 0 <= i < |c.completed| ::
          c.completed[i].leaf.timestamp <= c.lastNowMs.value && c.completed[i].leaf.timestamp < c.endsAtMs.value)
    && (forall i, j | 0 <= i < j < |c.completed| :: c.completed[i].leaf.timestamp <= c.completed[j].leaf.timestamp)
  }

  /**
    `start` is the first reading since the session began or was reset; it sets the deadline. With a positive
    duration it also is the first watermark, unless it is the last reading a clock can give.
   */
  ghost predicate StartedAt(c: Core, start: Option<u64>) {
    && (start.None? ==> c.endsAtMs.None?)
    && (start.Some? ==> c.endsAtMs == Some(SatAdd(start.value, c.durationMs)))
    && (start.Some? && c.durationMs > 0 && start.value < U64_MAX ==>
          && (forall i | 0 <= i < |c.completed| :: c.completed[i].leaf.timestamp >= start.value)
          && (c.committed || (c.lastNowMs.Some? && c.lastNowMs.value >= start.value)))
  }

  ghost predicate StartGood(c: Core) {
    exists start :: StartedAt(c, start)
  }

  ghost predicate Inv(blake: Hasher, c: Core) {
    LeavesGood(blake, c.seed, c.targetBits, c.completed) && TreeGood(blake, c) && TimesGood(c) && StartGood(c)
  }

  lemma {:induction false} FirstFromIsFirst(hit: u64 -> bool, from: nat)
    ensures match FirstFrom(hit, from)
            case None => forall n: u64 | from <= n :: !hit(n)
            case Some(k) => from <= k && hit(k) && forall n: u64 | from <= n < k :: !hit(n)
    decreases U64_LIMIT - from
  {
    if from < U64_LIMIT && !hit(from) {
      FirstFromIsFirst(hit, from + 1);
    }
  }

  /** The watermark after a reading: moved if the reading is admitted. */
  function Marked(c: Core, now: u64): Core {
    var c1 := WithDeadline(c, now);
    if Admits(c1, now) then c1.(lastNowMs := Some(now)) else c1
  }

  lemma {:induction false} MarkKeepsTimes(c: Core, now: u64)
    requires TimesGood(c)
    ensures TimesGood(Marked(c, now))
  {
  }

  /** The first reading after one more. */
  function StartWith(start: Option<u64>, now: u64): Option<u64> {
    if start.Some? then start else Some(now)
  }

  lemma {:induction false} MarkKeepsStart(c: Core, now: u64, start: Option<u64>)
    requires TimesGood(c) && StartedAt(c, start)
    ensures StartedAt(Marked(c, now), StartWith(start, now))
  {
  }

  lemma {:induction false} MarkKeepsInv(blake: Hasher, c: Core, now: u64)
    requires Inv(blake, c)
    ensures Inv(blake, Marked(c, now))
  {
    var c' := Marked(c, now);
    assert c' == c.(endsAtMs := c'.endsAtMs, lastNowMs := c'.lastNowMs);
    MarkKeepsTimes(c, now);
    var start :| StartedAt(c, start);
    MarkKeepsStart(c, now, start);
  }

  lemma {:induction false} PushKeepsTimes(blake: Hasher, c: Core, leaf: ComputedLeaf)
    requires TimesGood(c) && !c.committed
    requires c.lastNowMs == Some(leaf.leaf.timestamp)
    requires c.endsAtMs.Some? && leaf.leaf.timestamp < c.endsAtMs.value
    ensures TimesGood(Push(blake, c, leaf))
  {
  }

  lemma {:induction false} PushKeepsStart(blake: Hasher, c: Core, leaf: ComputedLeaf, start: Option<u64>)
    requires StartedAt(c, start) && !c.committed && c.lastNowMs == Some(leaf.leaf.timestamp)
    ensures StartedAt(Push(blake, c, leaf), start)
  {
  }

  lemma {:induction false} PushKeepsTree(blake: Hasher, c: Core, leaf: ComputedLeaf)
    requires TreeGood(blake, c) && !c.committed
    ensures TreeGood(blake, Push(blake, c, leaf))
  {
    assert Hashes(blake, c.completed + [leaf]) == Hashes(blake, c.completed) + [MerkleHash(blake, leaf)];
  }

  lemma {:induction false} PushKeepsLeaves(
    blake: Hasher, seed: Str, bits: u32, s: seq<ComputedLeaf>, leaf: ComputedLeaf)
    requires LeavesGood(blake, seed, bits, s) && MinedFor(blake, seed, bits, leaf) && leaf.leaf.index == AsU128(|s|)
    ensures LeavesGood(blake, seed, bits, s + [leaf])
  {
    forall l | l in s + [leaf] ensures MinedFor(blake, seed, bits, l) {
      if l != leaf {
        assert l in s;
      }
    }
    PushKeepsIndexes(s, leaf);
  }

  lemma {:induction false} PushKeepsIndexes(s: seq<ComputedLeaf>, leaf: ComputedLeaf)
    requires IndexesGood(s) && leaf.leaf.index == AsU128(|s|)
    ensures IndexesGood(s + [leaf])
  {
  }

  lemma {:induction false} NonceGivesGoodLeaf(blake: Hasher, c: Core, x: u32, y: u32, now: u64)
    requires FirstNonce(blake, Candidate(c, x, y, now, 0)).Some?
    ensures var l := Candidate(c, x, y, now, 0);
            var leaf := Compute(blake, l.(nonce := FirstNonce(blake, l).value));
            && MinedFor(blake, c.seed, c.targetBits, leaf)
            && leaf.leaf.index == AsU128(|c.completed|) && leaf.leaf.timestamp == now
  {
    var l := Candidate(c, x, y, now, 0);
    FirstFromIsFirst((n: u64) => Hits(blake, l.(nonce := n)), 0);
  }

  /** A mined leaf carries the tap's place and time and the least nonce that fits, and goes to the end of both lists. */
  lemma {:induction false} MinedLeafIsTheTap(blake: Hasher, c: Core, x: u32, y: u32, now: u64)
    requires ComputeStep(blake, c, x, y, now).1.Mined?
    ensures var (c', outcome) := ComputeStep(blake, c, x, y, now);
            var l := outcome.leaf.leaf;
            && c'.completed == c.completed + [outcome.leaf]
            && c'.uncommitted == c.uncommitted + [MerkleHash(blake, outcome.leaf)]
            && l.x == x && l.y == y && l.timestamp == now
            && Some(l.nonce) == FirstNonce(blake, Candidate(Marked(c, now), x, y, now, 0))
  {
  }

  lemma {:induction false} ComputeKeepsInv(blake: Hasher, c: Core, x: u32, y: u32, now: u64)
    requires Inv(blake, c)
    ensures Inv(blake, ComputeStep(blake, c, x, y, now).0)
  {
    MarkKeepsInv(blake, c, now);
    var c2 := Marked(c, now);
    var l := Candidate(c2, x, y, now, 0);
    if Admits(WithDeadline(c, now), now) && FirstNonce(blake, l).Some? {
      var leaf := Compute(blake, l.(nonce := FirstNonce(blake, l).value));
      NonceGivesGoodLeaf(blake, c2, x, y, now);
      PushKeepsLeaves(blake, c2.seed, c2.targetBits, c2.completed, leaf);
      PushKeepsTree(blake, c2, leaf);
      PushKeepsTimes(blake, c2, leaf);
      var start :| StartedAt(c2, start);
      PushKeepsStart(blake, c2, leaf, start);
    }
  }

  lemma {:induction false} CommitKeepsInv(blake: Hasher, c: Core)
    requires Inv(blake, c)
    ensures Inv(blake, CommitStep(c))
  {
    assert [] + c.uncommitted == c.uncommitted;
    var start :| StartedAt(c, start);
    assert StartedAt(CommitStep(c), start);
  }

  lemma {:induction false} StepKeepsInv(blake: Hasher, c: Core, call: Call)
    requires Inv(blake, c)
    ensures Inv(blake, Step(blake, c, call))
  {
    match call
    case DoCompute(x, y, now) => ComputeKeepsInv(blake, c, x, y, now);
    case DoGetMerkle => CommitKeepsInv(blake, c);
    case DoGetProof(_, _) =>
    case DoReset => assert StartedAt(ResetStep(c), None);
  }

  lemma {:induction false} StepKeepsParameters(blake: Hasher, c: Core, call: Call)
    ensures var c' := Step(blake, c, call);
            c'.seed == c.seed && c'.durationMs == c.durationMs && c'.targetBits == c.targetBits
  {
  }

  lemma {:induction false} RunKeepsInv(blake: Hasher, seed: Str, durationMs: u64, bits: u32, calls: seq<Call>)
    ensures Inv(blake, Run(blake, NewCore(seed, durationMs, bits), calls))
    ensures var c := Run(blake, NewCore(seed, durationMs, bits), calls);
            c.seed == seed && c.durationMs == durationMs && c.targetBits == bits
  {
    if calls == [] {
      assert StartedAt(NewCore(seed, durationMs, bits), None);
    } else {
      var n := |calls| - 1;
      RunKeepsInv(blake, seed, durationMs, bits, calls[..n]);
      var c := Run(blake, NewCore(seed, durationMs, bits), calls[..n]);
      StepKeepsInv(blake, c, calls[n]);
      StepKeepsParameters(blake, c, calls[n]);
    }
  }

  /**
    After every sequence of calls: every leaf verifies against the session's seed and complexity exactly
    when that complexity is below 128, and `get_proof` never slices out of range.
   */
  lemma {:induction false} EveryRunIsSound(
    blake: Hasher, seed: Str, durationMs: u64, bits: u32, calls: seq<Call>, start: nat, end: nat)
    ensures var c := Run(blake, NewCore(seed, durationMs, bits), calls);
            && (forall i | 0 <= i < |c.completed| :: Verify(blake, c.completed[i], seed, bits) <==> bits < 128)
            && GetProof(blake, c, start, end) != Panics
            && (GetProof(blake, c, start, end).Proof? <==> c.committed && start < end <= |c.completed|)
  {
    RunKeepsInv(blake, seed, durationMs, bits, calls);
    var c := Run(blake, NewCore(seed, durationMs, bits), calls);
    forall i | 0 <= i < |c.completed| ensures Verify(blake, c.completed[i], seed, bits) <==> bits < 128 {
      assert c.completed[i] in c.completed;
    }
  }

  /** A proof carries the leaves of its window, and the hashes it proves are theirs. */
  lemma {:induction false} ProofMatchesData(blake: Hasher, c: Core, start: nat, end: nat)
    requires Inv(blake, c) && GetProof(blake, c, start, end).Proof?
    ensures var r := GetProof(blake, c, start, end);
            && start < end <= |c.completed|
            && r.data == c.completed[start..end] && r.selected == Hashes(blake, r.data)
  {
    HashesOfWindow(blake, c.completed, start, end);
  }

  lemma {:induction false} HashesOfWindow(blake: Hasher, s: seq<ComputedLeaf>, start: nat, end: nat)
    ensures start <= end <= |s| ==> Hashes(blake, s)[start..end] == Hashes(blake, s[start..end])
  {
  }

  /** The first reading of a session is admitted exactly when it lies before its own deadline. */
  lemma {:induction false} FirstRefusedExactly(blake: Hasher, c: Core, x: u32, y: u32, now: u64)
    requires c == NewCore(c.seed, c.durationMs, c.targetBits)
    ensures ComputeStep(blake, c, x, y, now).1 == Refused <==> c.durationMs == 0 || now == U64_MAX
  {
  }

  /**
    After a leaf mined at `now`, a reading is refused exactly when it is earlier than that leaf or at or past
    the deadline: leaves of one millisecond are all admitted.
   */
  lemma {:induction false} NextRefusedExactly(
    blake: Hasher, c: Core, x: u32, y: u32, now: u64, x': u32, y': u32, next: u64)
    requires ComputeStep(blake, c, x, y, now).1.Mined?
    ensures var c' := ComputeStep(blake, c, x, y, now).0;
            && c'.endsAtMs.Some?
            && (ComputeStep(blake, c', x', y', next).1 == Refused <==> next < now || next >= c'.endsAtMs.value)
  {
  }

  lemma {:induction false} CommittedStep(blake: Hasher, c: Core, call: Call)
    requires c.committed && call != DoReset
    ensures var c' := Step(blake, c, call);
            c'.committed && c'.leaves == c.leaves && c'.completed == c.completed
  {
  }

  /** Once committed, no call but reset changes the tree, its root or the leaves. */
  lemma {:induction false} RootFrozenUntilReset(blake: Hasher, c: Core, calls: seq<Call>)
    requires c.committed && DoReset !in calls
    ensures var c' := Run(blake, c, calls);
            c'.committed && c'.leaves == c.leaves && c'.completed == c.completed
            && RootBytes(blake, c'.leaves) == RootBytes(blake, c.leaves)
  {
    if calls == [] {
    } else {
      RootFrozenUntilReset(blake, c, calls[..|calls| - 1]);
      CommittedStep(blake, Run(blake, c, calls[..|calls| - 1]), calls[|calls| - 1]);
    }
  }

  // --- The span of a session ---

  /** The first reading since the last reset, if any. */
  function StartOf(calls: seq<Call>): Option<u64> {
    if calls == [] then None
    else
      var before := StartOf(calls[..|calls| - 1]);
      match calls[|calls| - 1]
      case DoCompute(_, _, now) => StartWith(before, now)
      case DoReset => None
      case _ => before
  }

  lemma {:induction false} ComputeKeepsStart(blake: Hasher, c: Core, x: u32, y: u32, now: u64, start: Option<u64>)
    requires TimesGood(c) && StartedAt(c, start)
    ensures StartedAt(ComputeStep(blake, c, x, y, now).0, StartWith(start, now))
  {
    MarkKeepsStart(c, now, start);
    var c2 := Marked(c, now);
    var l := Candidate(c2, x, y, now, 0);
    if Admits(WithDeadline(c, now), now) && FirstNonce(blake, l).Some? {
      PushKeepsStart(blake, c2, Compute(blake, l.(nonce := FirstNonce(blake, l).value)), StartWith(start, now));
    }
  }

  lemma {:induction false} RunStartedAt(blake: Hasher, seed: Str, durationMs: u64, bits: u32, calls: seq<Call>)
    ensures StartedAt(Run(blake, NewCore(seed, durationMs, bits), calls), StartOf(calls))
  {
    if calls == [] {
    } else {
      var n := |calls| - 1;
      RunStartedAt(blake, seed, durationMs, bits, calls[..n]);
      RunKeepsInv(blake, seed, durationMs, bits, calls[..n]);
      var c := Run(blake, NewCore(seed, durationMs, bits), calls[..n]);
      match calls[n]
      case DoCompute(x, y, now) => ComputeKeepsStart(blake, c, x, y, now, StartOf(calls[..n]));
      case _ =>
    }
  }

  lemma {:induction false} TimesOrdered(c: Core)
    requires TimesGood(c) && c.completed != []
    ensures c.completed[0].leaf.timestamp <= c.completed[|c.completed| - 1].leaf.timestamp
  {
  }

  /** No two leaves are as far apart as the session lasts. */
  predicate SpanBelow(c: Core) {
    forall i, j | 0 <= i < |c.completed| && 0 <= j < |c.completed| ::
      c.completed[j].leaf.timestamp - c.completed[i].leaf.timestamp < c.durationMs
  }

  /** Duration and first reading under which the first watermark is the first reading, or no leaf can break the span. */
  predicate StartBounds(durationMs: u64, start: u64) {
    if durationMs == 0 then start == 0 else start < U64_MAX || durationMs == U64_MAX
  }

  /** The span of a session stays below its duration, on a clock that may go back. */
  lemma {:induction false} SpanBelowDuration(
    blake: Hasher, seed: Str, durationMs: u64, bits: u32, calls: seq<Call>, start: u64)
    requires StartOf(calls) == Some(start) && StartBounds(durationMs, start)
    ensures SpanBelow(Run(blake, NewCore(seed, durationMs, bits), calls))
  {
    var c := Run(blake, NewCore(seed, durationMs, bits), calls);
    RunKeepsInv(blake, seed, durationMs, bits, calls);
    RunStartedAt(blake, seed, durationMs, bits, calls);
    forall i, j | 0 <= i < |c.completed| && 0 <= j < |c.completed|
      ensures c.completed[j].leaf.timestamp - c.completed[i].leaf.timestamp < durationMs
    {
      assert c.completed[j].leaf.timestamp < SatAdd(start, durationMs);
    }
  }

  /** The calls that show it: the first reading is refused but sets the deadline, and the clock goes back. */
  function GoingBack(durationMs: u64, start: u64): seq<Call> {
    [DoCompute(0, 0, start), DoCompute(0, 0, 0)]
    + (if durationMs == 0 then [] else [DoCompute(0, 0, U64_MAX - 1)])
  }

  /** The nonce searches of its two leaves end. */
  predicate BothSearchesEnd(blake: Hasher, seed: Str, bits: u32) {
    && FirstNonce(blake, Leaf(0, 0, seed, 0, 0, 0, bits)).Some?
    && FirstNonce(blake, Leaf(1, 0, seed, 0, 0, U64_MAX - 1, bits)).Some?
  }

  /**
    The condition is exact where the searches of two leaves end: at any other duration and first reading the
    run `GoingBack`, whose clock goes back after the first reading, has a span of at least the duration.
   */
  lemma {:induction false} SpanBelowExactly(blake: Hasher, seed: Str, durationMs: u64, bits: u32, start: u64)
    requires BothSearchesEnd(blake, seed, bits)
    ensures StartBounds(durationMs, start) <==>
            forall calls | StartOf(calls) == Some(start) ::
              SpanBelow(Run(blake, NewCore(seed, durationMs, bits), calls))
  {
    if StartBounds(durationMs, start) {
      forall calls | StartOf(calls) == Some(start)
        ensures SpanBelow(Run(blake, NewCore(seed, durationMs, bits), calls))
      {
        SpanBelowDuration(blake, seed, durationMs, bits, calls, start);
      }
    } else {
      GoingBackBreaksSpan(blake, seed, durationMs, bits, start);
    }
  }

  /** One more call. */
  lemma {:induction false} RunMore(blake: Hasher, c: Core, calls: seq<Call>, call: Call)
    ensures Run(blake, c, calls + [call]) == Step(blake, Run(blake, c, calls), call)
    ensures StartOf(calls + [call]) == match call
                                       case DoCompute(_, _, now) => StartWith(StartOf(calls), now)
                                       case DoReset => None
                                       case _ => StartOf(calls)
  {
    assert (calls + [call])[..|calls|] == calls;
  }

  /** One admitted reading whose search ends adds a leaf with that time. */
  lemma {:induction false} AdmittedIsMined(blake: Hasher, c: Core, now: u64)
    requires c.endsAtMs.Some? && Admits(c, now) && FirstNonce(blake, Candidate(c, 0, 0, now, 0)).Some?
    ensures var c' := Step(blake, c, DoCompute(0, 0, now));
            && |c'.completed| == |c.completed| + 1 && c'.completed[..|c.completed|] == c.completed
            && c'.completed[|c.completed|].leaf.timestamp == now
            && c' == c.(completed := c'.completed, uncommitted := c'.uncommitted, lastNowMs := Some(now))
  {
  }

  /** A first reading at or past its own deadline is refused, and sets the deadline. */
  lemma {:induction false} RefusedFirst(blake: Hasher, c: Core, start: u64)
    requires c.endsAtMs.None? && SatAdd(start, c.durationMs) <= start
    ensures Step(blake, c, DoCompute(0, 0, start)) == c.(endsAtMs := Some(SatAdd(start, c.durationMs)))
  {
  }

  /** The state after the reading that goes back to 0: one leaf, with time 0. */
  lemma {:induction false} AfterGoingBack(blake: Hasher, c: Core, start: u64)
    requires c == NewCore(c.seed, c.durationMs, c.targetBits)
    requires BothSearchesEnd(blake, c.seed, c.targetBits)
    requires !StartBounds(c.durationMs, start)
    ensures var calls := [DoCompute(0, 0, start), DoCompute(0, 0, 0)];
            var c2 := Run(blake, c, calls);
            && StartOf(calls) == Some(start)
            && |c2.completed| == 1 && c2.completed[0].leaf.timestamp == 0
            && c2.endsAtMs == Some(SatAdd(start, c.durationMs)) && c2.lastNowMs == Some(0)
            && !c2.committed && c2.seed == c.seed && c2.durationMs == c.durationMs && c2.targetBits == c.targetBits
  {
    var first, second := DoCompute(0, 0, start), DoCompute(0, 0, 0);
    var c1 := c.(endsAtMs := Some(SatAdd(start, c.durationMs)));
    assert Step(blake, c, first) == c1 by {
      RefusedFirst(blake, c, start);
    }
    assert Run(blake, c, [first, second]) == Step(blake, c1, second) && StartOf([first, second]) == Some(start) by {
      RunMore(blake, c, [], first);
      RunMore(blake, c, [first], second);
      assert [] + [first] == [first] && [first] + [second] == [first, second];
    }
    assert Candidate(c1, 0, 0, 0, 0) == Leaf(0, 0, c.seed, 0, 0, 0, c.targetBits);
    AdmittedIsMined(blake, c1, 0);
  }

  lemma {:induction false} GoingBackBreaksSpan(blake: Hasher, seed: Str, durationMs: u64, bits: u32, start: u64)
    requires BothSearchesEnd(blake, seed, bits)
    requires !StartBounds(durationMs, start)
    ensures StartOf(GoingBack(durationMs, start)) == Some(start)
    ensures !SpanBelow(Run(blake, NewCore(seed, durationMs, bits), GoingBack(durationMs, start)))
  {
    var c0 := NewCore(seed, durationMs, bits);
    var two, third := [DoCompute(0, 0, start), DoCompute(0, 0, 0)], DoCompute(0, 0, U64_MAX - 1);
    var c2 := Run(blake, c0, two);
    AfterGoingBack(blake, c0, start);
    if durationMs == 0 {
      assert GoingBack(durationMs, start) == two;
      assert c2.completed[0].leaf.timestamp - c2.completed[0].leaf.timestamp >= c2.durationMs;
    } else {
      RunMore(blake, c0, two, third);
      AdmittedIsMined(blake, c2, U64_MAX - 1);
      var c3 := Step(blake, c2, third);
      assert c3.completed[0] == c3.completed[..1][0];
      assert c3.completed[1].leaf.timestamp - c3.completed[0].leaf.timestamp >= c3.durationMs;
    }
  }

  // --- The code's own shape ---

  /** rs_merkle's tree as the miner uses it: inserted leaves count only after `commit`. */
  class MerkleProcessor {
    var leaves: seq<Digest>
    var uncommitted: seq<Digest>

    constructor ()
      ensures leaves == [] && uncommitted == []
    {
      leaves := [];
      uncommitted := [];
    }

    method AddLeaf(blake: Hasher, leaf: ComputedLeaf)
      modifies this`uncommitted
      ensures uncommitted == old(uncommitted) + [MerkleHash(blake, leaf)]
    {
      uncommitted := uncommitted + [MerkleHash(blake, leaf)];
    }

    method Commit()
      modifies this
      ensures leaves == old(leaves) + old(uncommitted) && uncommitted == []
    {
      leaves := leaves + uncommitted;
      uncommitted := [];
    }

    method Clear()
      modifies this
      ensures leaves == [] && uncommitted == []
    {
      leaves := [];
      uncommitted := [];
    }

    /** The root recomputed from the window and the returned proof is the committed root. */
    method GetProofInWindow(blake: Hasher, start: nat, end: nat) returns (r: Option<(seq<Digest>, seq<Digest>)>)
      ensures r.None? <==> start >= end || end > |leaves|
      ensures r.Some? ==> r.value == (Merkle.WindowProof(PairHash(blake), leaves, start, end), leaves[start..end])
      ensures r.Some? ==>
                Merkle.Recompute(PairHash(blake), |leaves|, start, end, r.value.1, r.value.0)
                == Some(Merkle.Root(PairHash(blake), leaves))
    {
      if start >= end || end > |leaves| {
        return None;
      }
      var proof := Merkle.WindowProof(PairHash(blake), leaves, start, end);
      Merkle.ProofRecomputesRoot(PairHash(blake), leaves, start, end, []);
      assert proof + [] == proof;
      r := Some((proof, leaves[start..end]));
    }
  }

  /** Counts nonces up from 0 until one meets the test; the source wraps around and goes on for ever instead. */
  method SearchNonce(hit: u64 -> bool) returns (found: Option<u64>)
    ensures found == FirstFrom(hit, 0)
  {
    var nonce := 0;
    while nonce < U64_LIMIT
      invariant 0 <= nonce <= U64_LIMIT
      invariant FirstFrom(hit, nonce) == FirstFrom(hit, 0)
    {
      if hit(nonce) {
        return Some(nonce);
      }
      nonce := nonce + 1;
    }
    found := None;
  }

  class MiningCore {
    const blake: Hasher
    const seed: Str
    const targetBits: u32
    const durationMs: u64
    const tree: MerkleProcessor
    var committed: bool
    var completed: seq<ComputedLeaf>
    var endsAtMs: Option<u64>
    var lastNowMs: Option<u64>

    ghost function View(): Core
      reads this, tree
    {
      Core(seed, targetBits, durationMs, committed, completed, endsAtMs, lastNowMs, tree.leaves, tree.uncommitted)
    }

    constructor (blake: Hasher, seed: Str, durationMs: u64, targetBits: u32)
      ensures View() == NewCore(seed, durationMs, targetBits) && this.blake == blake
      ensures fresh(tree)
    {
      this.blake := blake;
      this.seed := seed;
      this.targetBits := targetBits;
      this.durationMs := durationMs;
      committed := false;
      completed := [];
      endsAtMs := None;
      lastNowMs := None;
      tree := new MerkleProcessor();
    }

    /** The nonce search, whose leaf goes into the tree; `None` stands for a search that never ends. */
    method CalcHashBlake(l: Leaf) returns (r: Option<ComputedLeaf>)
      modifies tree`uncommitted
      ensures r == match FirstNonce(blake, l)
                   case None => None
                   case Some(n) => Some(Compute(blake, l.(nonce := n)))
      ensures tree.uncommitted
              == if r.None? then old(tree.uncommitted) else old(tree.uncommitted) + [MerkleHash(blake, r.value)]
    {
      var found := SearchNonce((n: u64) => Hits(blake, l.(nonce := n)));
      if found.None? {
        return None;
      }
      var leaf := Compute(blake, l.(nonce := found.value));
      tree.AddLeaf(blake, leaf);
      r := Some(leaf);
    }

    /** The checks before any hashing: deadline, commit flag, watermark. */
    method Admit(now: u64) returns (ok: bool)
      modifies this`endsAtMs, this`lastNowMs
      ensures View() == Marked(old(View()), now)
      ensures ok <==> Admits(WithDeadline(old(View()), now), now)
    {
      if endsAtMs.None? {
        endsAtMs := Some(SatAdd(now, durationMs));
      }
      if now >= endsAtMs.value {
        return false;
      }
      if committed {
        return false;
      }
      if lastNowMs.Some? && now < lastNowMs.value {
        return false;
      }
      lastNowMs := Some(now);
      ok := true;
    }

    /** The call itself; `DoCompute` adds that it keeps the invariant. */
    method MineOne(x: u32, y: u32, now: u64) returns (outcome: Outcome)
      modifies this, tree`uncommitted
      ensures (View(), outcome) == ComputeStep(blake, old(View()), x, y, now)
    {
      var ok := Admit(now);
      if !ok {
        return Refused;
      }
      var leaf := CalcHashBlake(Leaf(AsU128(|completed|), 0, seed, x, y, now, targetBits));
      if leaf.None? {
        return Spins;
      }
      completed := completed + [leaf.value];
      outcome := Mined(leaf.value);
    }

    method DoCompute(x: u32, y: u32, now: u64) returns (outcome: Outcome)
      requires Inv(blake, View())
      modifies this, tree`uncommitted
      ensures (View(), outcome) == ComputeStep(blake, old(View()), x, y, now)
      ensures Inv(blake, View())
    {
      ComputeKeepsInv(blake, View(), x, y, now);
      outcome := MineOne(x, y, now);
    }

    method DoGetMerkle() returns (root: seq<byte>, leaves: seq<Digest>)
      requires Inv(blake, View())
      modifies this, tree
      ensures View() == CommitStep(old(View())) && Inv(blake, View())
      ensures leaves == Hashes(blake, completed) && root == RootBytes(blake, leaves)
    {
      CommitKeepsInv(blake, View());
      if !committed {
        tree.Commit();
        committed := true;
        assert [] + old(tree.uncommitted) == old(tree.uncommitted);
      }
      leaves := tree.leaves;
      root := RootBytes(blake, leaves);
    }

    method DoGetProof(start: nat, end: nat) returns (r: ProofReply)
      requires Inv(blake, View())
      ensures r == GetProof(blake, View(), start, end)
      ensures r.Proof? <==> committed && start < end <= |completed|
      ensures r != Panics
    {
      var window := tree.GetProofInWindow(blake, start, end);
      if window.None? {
        return BadWindow;
      }
      r := Proof(Flatten(window.value.0), window.value.1, completed[start..end]);
    }

    method DoReset()
      modifies this, tree
      ensures View() == ResetStep(old(View())) && Inv(blake, View())
    {
      assert StartedAt(ResetStep(View()), None);
      tree.Clear();
      completed := [];
      committed := false;
      endsAtMs := None;
      lastNowMs := None;
    }
  }
}
