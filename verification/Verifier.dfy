/**
  The on-chain verifier (bee_verifier/src) and what an honest miner sends it
  (bee_miner/src/wasm/worker.rs:347-465). Built for wasm32: `usize` has 32 bits, release
  arithmetic wraps.
 */
module Verifier {
  import opened Prelude
  import opened Bytes
  import opened Borsh
  import opened Leaf
  import opened Wire
  import opened Mining
  import Merkle

  datatype LibError = DeserializeRequest | CheckRoot | BuildMerkleProof | CheckLeaf | GetFirstHardLeaf | GetLastHardLeaf

  function Code(e: LibError): u32 {
    match e
    case DeserializeRequest => 100
    case CheckRoot => 200
    case BuildMerkleProof => 301
    case CheckLeaf => 302
    case GetFirstHardLeaf => 303
    case GetLastHardLeaf => 304
  }

  function ErrorBytes(e: LibError): seq<byte> {
    [0, 0] + LittleEndian(Code(e), 4)
  }

  /** `u64 as usize` on wasm32. */
  function AsUsize(n: u64): nat {
    AsU32(n)
  }

  // --- Proofs ---

  /** `MerkleProof::from_bytes`: whole 32-byte hashes only. */
  function SplitHashes(b: seq<byte>): Option<seq<Digest>> {
    if b == [] then Some([])
    else if |b| < 32 then None
    else
      match SplitHashes(b[32..])
      case None => None
      case Some(rest) => Some([b[..32]] + rest)
  }

  predicate AllDigests(s: seq<seq<byte>>) {
    forall i | 0 <= i < |s| :: |s[i]| == 32
  }

  function AsDigests(s: seq<seq<byte>>): seq<Digest>
    requires AllDigests(s)
  {
    seq(|s|, i requires 0 <= i < |s| => s[i])
  }

  /** `MerkleProof::verify` on the indices [lo, hi). */
  predicate ProofVerifies(
    blake: Hasher, root: Digest, proof: seq<Digest>, lo: nat, hi: nat, chunk: seq<Digest>, count: nat)
  {
    && lo < hi <= count && |chunk| == hi - lo
    && Merkle.Recompute(PairHash(blake), count, lo, hi, chunk, proof) == Some(root)
  }

  /** An empty proof is answered from the chunk and the root alone; count and window play no part in it. */
  function ValidateProof(
    blake: Hasher, root: seq<byte>, proof: seq<byte>, count: nat, chunk: seq<seq<byte>>, lo: nat, hi: nat)
    : Result<bool, LibError>
  {
    if proof == [] then Ok(|chunk| == 1 && chunk[0] == root)
    else
      match SplitHashes(proof)
      case None => Err(BuildMerkleProof)
      case Some(hashes) =>
        if |root| != 32 then Err(CheckRoot)
        else if !AllDigests(chunk) then Err(CheckLeaf)
        else Ok(ProofVerifies(blake, root, hashes, lo, hi, AsDigests(chunk), count))
  }

  predicate ValidateLeaves(blake: Hasher, seed: seq<byte>, complexity: u32, leaves: seq<ComputedLeaf>) {
    leaves != [] && forall i | 0 <= i < |leaves| :: Verify(blake, leaves[i], seed, complexity)
  }

  function VerifyProofAndLeaves(
    blake: Hasher, seed: seq<byte>, complexity: u32, lo: u64, hi: u64, submit: SessionSubmit, p: SessionProof)
    : Result<bool, LibError>
  {
    var count := AsUsize(submit.leavesCount);
    match ValidateProof(blake, submit.root, p.proof, count, p.leavesTree, AsUsize(lo), AsUsize(hi))
    case Err(e) => Err(e)
    case Ok(valid) => Ok(valid && ValidateLeaves(blake, seed, complexity, p.leavesData))
  }

  // --- verify ---

  function WrappingSub(a: u64, b: u64): u64 {
    if a >= b then a - b else a + U64_LIMIT - b
  }

  /** Blocks of 330 ms between the first and the last hard leaf. */
  function HardBlocks(first: u64, last: u64): u32 {
    AsU32(WrappingSub(last, first) / 330)
  }

  /** One of the four checks of a request: complexity, window, submit and proof. */
  type Check = (u32, u64, u64, SessionSubmit, SessionProof) -> Result<bool, LibError>

  function CheckFor(blake: Hasher, seed: seq<byte>): Check {
    (complexity: u32, lo: u64, hi: u64, submit: SessionSubmit, p: SessionProof) =>
      VerifyProofAndLeaves(blake, seed, complexity, lo, hi, submit, p)
  }

  /** The reply, from the checks in the order they are made; the first error ends it. */
  function Reply(check: Check, h: Header, t: Tail): seq<byte> {
    match check(h.easyComplexity, h.easyStart, h.easyEnd, t.easySubmit, t.easyProof)
    case Err(e) => ErrorBytes(e)
    case Ok(easy) =>
      match check(h.hardComplexity, 0, 1, t.hardSubmit, t.hardFirst)
      case Err(e) => ErrorBytes(e)
      case Ok(first) =>
        match check(h.hardComplexity, h.hardStart, h.hardEnd, t.hardSubmit, t.hardRange)
        case Err(e) => ErrorBytes(e)
        case Ok(range) =>
          var count := t.hardSubmit.leavesCount;
          match check(h.hardComplexity, WrappingSub(count, 1), count, t.hardSubmit, t.hardLast)
          case Err(e) => ErrorBytes(e)
          case Ok(last) =>
            if t.hardFirst.leavesData == [] then ErrorBytes(GetFirstHardLeaf)
            else if t.hardLast.leavesData == [] then ErrorBytes(GetLastHardLeaf)
            else
              var lastLeaf := t.hardLast.leavesData[|t.hardLast.leavesData| - 1];
              var blocks := HardBlocks(t.hardFirst.leavesData[0].leaf.timestamp, lastLeaf.leaf.timestamp);
              [1, if easy && first && range && last then 1 else 0] + LittleEndian(blocks, 4)
  }

  function VerifyRequest(blake: Hasher, req: seq<byte>): seq<byte> {
    match ParseMessage(req)
    case None => ErrorBytes(DeserializeRequest)
    case Some(p) => Reply(CheckFor(blake, p.seedText), p.header, p.tail)
  }

  // --- What an honest miner sends ---

  function SubmitOf(blake: Hasher, c: Core): SessionSubmit {
    SessionSubmit(RootBytes(blake, c.leaves), AsU64(|c.leaves|))
  }

  function ProofOf(blake: Hasher, c: Core, start: nat, end: nat): SessionProof
    requires c.committed && start < end <= |c.leaves| <= |c.completed|
  {
    var r := GetProof(blake, c, start, end);
    SessionProof(r.proof, r.selected, r.data)
  }

  /** A committed session of a miner: at least one leaf, and no more than a 32-bit vector holds. */
  ghost predicate Honest(blake: Hasher, c: Core, seed: seq<byte>, complexity: u32) {
    && Inv(blake, c) && c.committed && c.seed == seed && c.targetBits == complexity && complexity < 128
    && 0 < |c.completed| < U32_LIMIT
  }

  predicate Sized(c: Core) {
    c.committed && |c.leaves| == |c.completed| && 0 < |c.leaves| < U32_LIMIT
  }

  /** What the verifier needs of an honest session. */
  ghost predicate Ready(blake: Hasher, c: Core, seed: seq<byte>, complexity: u32) {
    && Sized(c)
    && ValidateLeaves(blake, seed, complexity, c.completed)
    && c.completed[0].leaf.timestamp <= c.completed[|c.completed| - 1].leaf.timestamp
  }

  lemma {:induction false} HonestIsReady(blake: Hasher, c: Core, seed: seq<byte>, complexity: u32)
    requires Honest(blake, c, seed, complexity)
    ensures Ready(blake, c, seed, complexity)
  {
    forall i | 0 <= i < |c.completed| ensures Verify(blake, c.completed[i], seed, complexity) {
      assert MinedFor(blake, c.seed, c.targetBits, c.completed[i]);
    }
    TimesOrdered(c);
  }

  /** A committed run is ready, and the span of its leaves below the duration. */
  lemma {:induction false} RunIsReady(
    blake: Hasher, seed: Str, durationMs: u64, complexity: u32, calls: seq<Call>, c: Core)
    requires c == Run(blake, NewCore(seed, durationMs, complexity), calls)
    requires complexity < 128 && c.committed && 0 < |c.leaves| < U32_LIMIT
    ensures Ready(blake, c, seed, complexity)
    ensures StartOf(calls).Some? && StartBounds(durationMs, StartOf(calls).value) ==>
              c.completed[|c.completed| - 1].leaf.timestamp - c.completed[0].leaf.timestamp < durationMs
  {
    assert Honest(blake, c, seed, complexity) && c.durationMs == durationMs by {
      RunKeepsInv(blake, seed, durationMs, complexity, calls);
    }
    HonestIsReady(blake, c, seed, complexity);
    if StartOf(calls).Some? && StartBounds(durationMs, StartOf(calls).value) {
      SpanBelowDuration(blake, seed, durationMs, complexity, calls, StartOf(calls).value);
    }
  }

  /** Both trees and the four proofs of `submit_session_root` and `submit_session_proof`. */
  function HonestTail(blake: Hasher, easy: Core, hard: Core, h: Header): Tail
    requires easy.committed && hard.committed && |easy.leaves| == |easy.completed| && |hard.leaves| == |hard.completed|
    requires h.easyStart < h.easyEnd <= |easy.leaves| && h.hardStart < h.hardEnd <= |hard.leaves|
  {
    var n := |hard.leaves|;
    Tail(SubmitOf(blake, easy), SubmitOf(blake, hard),
         ProofOf(blake, easy, h.easyStart, h.easyEnd),
         ProofOf(blake, hard, 0, 1), ProofOf(blake, hard, h.hardStart, h.hardEnd), ProofOf(blake, hard, n - 1, n))
  }

  /** A window that is all of a tree with more than one leaf. */
  predicate CoversAll(n: nat, start: nat, end: nat) {
    n > 1 && start == 0 && end == n
  }

  // --- Proof bytes ---

  lemma {:induction false} FlattenSplits(hs: seq<Digest>)
    ensures |Flatten(hs)| == 32 * |hs| && SplitHashes(Flatten(hs)) == Some(hs)
  {
    if hs == [] {
    } else {
      FlattenSplits(hs[1..]);
      assert Flatten(hs)[..32] == hs[0] && Flatten(hs)[32..] == Flatten(hs[1..]);
      assert [hs[0]] + hs[1..] == hs;
    }
  }

  lemma {:induction false} HeightBelow32(n: nat)
    requires n < U32_LIMIT
    ensures Merkle.Height(n) <= 32
  {
    assert Pow2(32) == U32_LIMIT by {
      assert Pow2(8) == 256;
      assert Pow2(16) == 0x1_0000;
      assert Pow2(24) == 0x100_0000;
    }
    Merkle.HeightIsLogarithmic(n, 32);
  }

  /** A window proof of an honest tree: its size, and that it is empty only for the whole tree. */
  lemma {:induction false} HonestProofBytes(blake: Hasher, leaves: seq<Digest>, lo: nat, hi: nat)
    requires lo < hi <= |leaves| < U32_LIMIT
    ensures var p := Flatten(Merkle.WindowProof(PairHash(blake), leaves, lo, hi));
            |p| <= 2048 && (p == [] <==> lo == 0 && hi == |leaves|)
  {
    var hs := Merkle.WindowProof(PairHash(blake), leaves, lo, hi);
    FlattenSplits(hs);
    Merkle.ProofHasSize(PairHash(blake), leaves, lo, hi);
    Merkle.ProofSizeBounds(|leaves|, lo, hi);
    HeightBelow32(|leaves|);
  }

  /** Hashes that recompute the root are accepted, unless there are none. */
  lemma {:induction false} RecomputedIsValid(
    blake: Hasher, root: Digest, hs: seq<Digest>, count: nat, chunk: seq<Digest>, lo: nat, hi: nat)
    requires lo < hi <= count && |chunk| == hi - lo && hs != []
    requires Merkle.Recompute(PairHash(blake), count, lo, hi, chunk, hs) == Some(root)
    ensures ValidateProof(blake, root, Flatten(hs), count, chunk, lo, hi) == Ok(true)
  {
    FlattenSplits(hs);
    assert AsDigests(chunk) == chunk;
  }

  /** The verifier accepts an honest window's proof exactly when the window is not a whole tree of several leaves. */
  lemma {:induction false} HonestProofValidates(blake: Hasher, leaves: seq<Digest>, lo: nat, hi: nat)
    requires lo < hi <= |leaves| < U32_LIMIT
    ensures ValidateProof(
              blake, Merkle.Root(PairHash(blake), leaves), Flatten(Merkle.WindowProof(PairHash(blake), leaves, lo, hi)),
              |leaves|, leaves[lo..hi], lo, hi)
            == Ok(!CoversAll(|leaves|, lo, hi))
  {
    var hs := Merkle.WindowProof(PairHash(blake), leaves, lo, hi);
    assert hs == [] <==> lo == 0 && hi == |leaves| by {
      Merkle.ProofHasSize(PairHash(blake), leaves, lo, hi);
      Merkle.ProofSizeBounds(|leaves|, lo, hi);
    }
    if hs != [] {
      assert Merkle.Recompute(PairHash(blake), |leaves|, lo, hi, leaves[lo..hi], hs)
             == Some(Merkle.Root(PairHash(blake), leaves)) by {
        Merkle.ProofRecomputesRoot(PairHash(blake), leaves, lo, hi, []);
        assert hs + [] == hs;
      }
      RecomputedIsValid(blake, Merkle.Root(PairHash(blake), leaves), hs, |leaves|, leaves[lo..hi], lo, hi);
    } else {
      WholeTree(blake, leaves);
    }
  }

  /** For a whole tree the verifier's test is whether a single leaf is its own root. */
  lemma {:induction false} WholeTree(blake: Hasher, leaves: seq<Digest>)
    requires leaves != []
    ensures |leaves[0..|leaves|]| == 1 && leaves[0..|leaves|][0] == Merkle.Root(PairHash(blake), leaves)
            <==> |leaves| == 1
  {
  }

  lemma {:induction false} SmallUsize(n: nat)
    requires n < U32_LIMIT
    ensures AsU64(n) == n && AsUsize(n) == n
  {
  }

  lemma {:induction false} HonestWindow(blake: Hasher, c: Core, seed: seq<byte>, complexity: u32, lo: nat, hi: nat)
    requires Ready(blake, c, seed, complexity) && lo < hi <= |c.leaves|
    ensures VerifyProofAndLeaves(blake, seed, complexity, lo, hi, SubmitOf(blake, c), ProofOf(blake, c, lo, hi))
            == Ok(!CoversAll(|c.leaves|, lo, hi))
  {
    var p, submit := ProofOf(blake, c, lo, hi), SubmitOf(blake, c);
    SmallUsize(lo);
    SmallUsize(hi);
    SmallUsize(|c.leaves|);
    assert ValidateProof(blake, submit.root, p.proof, |c.leaves|, p.leavesTree, lo, hi)
           == Ok(!CoversAll(|c.leaves|, lo, hi)) by {
      HonestProofValidates(blake, c.leaves, lo, hi);
    }
    assert ValidateLeaves(blake, seed, complexity, p.leavesData) by {
      WindowVerifies(blake, c.completed, seed, complexity, lo, hi);
    }
  }

  lemma {:induction false} WindowVerifies(
    blake: Hasher, s: seq<ComputedLeaf>, seed: seq<byte>, complexity: u32, lo: nat, hi: nat)
    requires ValidateLeaves(blake, seed, complexity, s) && lo < hi <= |s|
    ensures ValidateLeaves(blake, seed, complexity, s[lo..hi])
  {
  }

  // --- Writability ---

  predicate LeavesFit(s: seq<ComputedLeaf>) {
    forall i | 0 <= i < |s| :: LeafFits(s[i])
  }

  lemma {:induction false} VerifiedLeavesFit(blake: Hasher, s: seq<ComputedLeaf>, seed: seq<byte>, complexity: u32)
    requires ValidateLeaves(blake, seed, complexity, s) && |seed| < U32_LIMIT
    ensures LeavesFit(s)
  {
    forall i | 0 <= i < |s| ensures LeafFits(s[i]) {
      assert Verify(blake, s[i], seed, complexity);
    }
  }

  lemma {:induction false} WindowProofFits(blake: Hasher, c: Core, lo: nat, hi: nat)
    requires Sized(c) && LeavesFit(c.completed) && lo < hi <= |c.leaves|
    ensures ProofFits(ProofOf(blake, c, lo, hi))
  {
    var p := ProofOf(blake, c, lo, hi);
    assert |p.proof| <= 2048 by {
      HonestProofBytes(blake, c.leaves, lo, hi);
    }
    assert AllDigests(c.leaves[lo..hi]);
    assert LeavesFit(c.completed[lo..hi]);
  }

  lemma {:induction false} HonestTailWritable(blake: Hasher, easy: Core, hard: Core, h: Header)
    requires |h.seed| == 32 && Sized(easy) && Sized(hard) && LeavesFit(easy.completed) && LeavesFit(hard.completed)
    requires h.easyStart < h.easyEnd <= |easy.leaves| && h.hardStart < h.hardEnd <= |hard.leaves|
    ensures Writable(h, HonestTail(blake, easy, hard, h))
  {
    WindowProofFits(blake, easy, h.easyStart, h.easyEnd);
    WindowProofFits(blake, hard, 0, 1);
    WindowProofFits(blake, hard, h.hardStart, h.hardEnd);
    WindowProofFits(blake, hard, |hard.leaves| - 1, |hard.leaves|);
  }

  // --- End to end ---

  /** One of the two windows covers a whole tree of several leaves. */
  predicate WholeWindow(easy: Core, hard: Core, h: Header) {
    CoversAll(|easy.leaves|, h.easyStart, h.easyEnd) || CoversAll(|hard.leaves|, h.hardStart, h.hardEnd)
  }

  /** The verdict bytes an honest session gets: the span between its first and last hard leaf, in blocks. */
  function Verdict(easy: Core, hard: Core, h: Header): seq<byte>
    requires hard.completed != []
    requires hard.completed[0].leaf.timestamp <= hard.completed[|hard.completed| - 1].leaf.timestamp
  {
    var span := hard.completed[|hard.completed| - 1].leaf.timestamp - hard.completed[0].leaf.timestamp;
    [1, if WholeWindow(easy, hard, h) then 0 else 1] + LittleEndian(AsU32(span / 330), 4)
  }

  /** Hash i of a proof is its bytes from 32 i on. */
  lemma {:induction false} FlattenAt(hs: seq<Digest>, i: nat)
    requires i < |hs|
    ensures 32 * i + 32 <= |Flatten(hs)| && Flatten(hs)[32 * i..32 * i + 32] == hs[i]
  {
    FlattenSplits(hs);
    if i == 0 {
    } else {
      FlattenAt(hs[1..], i - 1);
      assert Flatten(hs)[32..] == Flatten(hs[1..]);
      assert Flatten(hs)[32 * i..32 * i + 32] == Flatten(hs)[32..][32 * (i - 1)..32 * (i - 1) + 32];
    }
  }

  /** Without underflow the block count is the span over 330; a last leaf before the first wraps around. */
  lemma {:induction false} BlocksOfSpan(first: u64, last: u64)
    requires first <= last
    ensures HardBlocks(first, last) == AsU32((last - first) / 330)
    ensures first < last ==> HardBlocks(last, first) == AsU32((first + 0x1_0000_0000_0000_0000 - last) / 330)
  {
  }

  lemma {:induction false} OneLeafProof(blake: Hasher, c: Core, i: nat)
    requires c.committed && i < |c.leaves| <= |c.completed|
    ensures ProofOf(blake, c, i, i + 1).leavesData == [c.completed[i]]
  {
    assert c.completed[i..i + 1] == [c.completed[i]];
  }

  /** With all four checks answered and one leaf at either end, the reply is the verdict and the block count. */
  lemma {:induction false} ReplyBytes(
    check: Check, h: Header, t: Tail, easy: bool, first: bool, range: bool, last: bool)
    requires check(h.easyComplexity, h.easyStart, h.easyEnd, t.easySubmit, t.easyProof) == Ok(easy)
    requires check(h.hardComplexity, 0, 1, t.hardSubmit, t.hardFirst) == Ok(first)
    requires check(h.hardComplexity, h.hardStart, h.hardEnd, t.hardSubmit, t.hardRange) == Ok(range)
    requires var count := t.hardSubmit.leavesCount;
             check(h.hardComplexity, WrappingSub(count, 1), count, t.hardSubmit, t.hardLast) == Ok(last)
    requires |t.hardFirst.leavesData| == 1 && |t.hardLast.leavesData| == 1
    ensures Reply(check, h, t)
            == [1, if easy && first && range && last then 1 else 0]
               + LittleEndian(HardBlocks(t.hardFirst.leavesData[0].leaf.timestamp,
                                         t.hardLast.leavesData[0].leaf.timestamp), 4)
  {
  }

  /** The verdict in the verifier's own terms. */
  lemma {:induction false} VerdictInBlocks(easy: Core, hard: Core, h: Header, first: u64, last: u64)
    requires hard.completed != [] && first <= last
    requires first == hard.completed[0].leaf.timestamp
    requires last == hard.completed[|hard.completed| - 1].leaf.timestamp
    ensures Verdict(easy, hard, h)
            == [1, if WholeWindow(easy, hard, h) then 0 else 1] + LittleEndian(HardBlocks(first, last), 4)
  {
    BlocksOfSpan(first, last);
  }

  /** The four answers put together. */
  lemma {:induction false} AnswersGiveVerdict(blake: Hasher, check: Check, easy: Core, hard: Core, h: Header)
    requires Sized(easy) && Sized(hard)
    requires hard.completed[0].leaf.timestamp <= hard.completed[|hard.completed| - 1].leaf.timestamp
    requires h.easyStart < h.easyEnd <= |easy.leaves| && h.hardStart < h.hardEnd <= |hard.leaves|
    requires check(h.easyComplexity, h.easyStart, h.easyEnd,
                   SubmitOf(blake, easy), ProofOf(blake, easy, h.easyStart, h.easyEnd))
             == Ok(!CoversAll(|easy.leaves|, h.easyStart, h.easyEnd))
    requires check(h.hardComplexity, 0, 1, SubmitOf(blake, hard), ProofOf(blake, hard, 0, 1)) == Ok(true)
    requires check(h.hardComplexity, h.hardStart, h.hardEnd,
                   SubmitOf(blake, hard), ProofOf(blake, hard, h.hardStart, h.hardEnd))
             == Ok(!CoversAll(|hard.leaves|, h.hardStart, h.hardEnd))
    requires var n := |hard.leaves|;
             check(h.hardComplexity, n - 1, n, SubmitOf(blake, hard), ProofOf(blake, hard, n - 1, n)) == Ok(true)
    ensures Reply(check, h, HonestTail(blake, easy, hard, h)) == Verdict(easy, hard, h)
  {
    var n := |hard.leaves|;
    var first, last := hard.completed[0], hard.completed[n - 1];
    assert ProofOf(blake, hard, n - 1, n).(leavesData := [last]) == ProofOf(blake, hard, n - 1, n) by {
      OneLeafProof(blake, hard, n - 1);
    }
    var t := HonestTail(blake, easy, hard, h);
    assert WithLastLeaf(t, last) == t;
    AnswersWithLeaf(blake, check, easy, hard, h, last, true);
    VerdictInBlocks(easy, hard, h, first.leaf.timestamp, last.leaf.timestamp);
  }

  lemma {:induction false} HonestReply(blake: Hasher, easy: Core, hard: Core, h: Header, seed: seq<byte>)
    requires Ready(blake, easy, seed, h.easyComplexity) && Ready(blake, hard, seed, h.hardComplexity)
    requires h.easyStart < h.easyEnd <= |easy.leaves| && h.hardStart < h.hardEnd <= |hard.leaves|
    ensures Reply(CheckFor(blake, seed), h, HonestTail(blake, easy, hard, h)) == Verdict(easy, hard, h)
  {
    var n := |hard.leaves|;
    HonestWindow(blake, easy, seed, h.easyComplexity, h.easyStart, h.easyEnd);
    HonestWindow(blake, hard, seed, h.hardComplexity, 0, 1);
    HonestWindow(blake, hard, seed, h.hardComplexity, h.hardStart, h.hardEnd);
    HonestWindow(blake, hard, seed, h.hardComplexity, n - 1, n);
    AnswersGiveVerdict(blake, CheckFor(blake, seed), easy, hard, h);
  }

  /** A request that can be written is answered from the structures it was written from. */
  lemma {:induction false} WrittenRequest(blake: Hasher, h: Header, t: Tail)
    requires Writable(h, t)
    ensures VerifyRequest(blake, MessageBytes(h, t)) == Reply(CheckFor(blake, SeedText(h.seed)), h, t)
  {
    MessageRoundTrip(MessageBytes(h, t), h, t);
  }

  /** The request of two ready sessions gets the verdict. */
  lemma {:induction false} HonestRequest(blake: Hasher, easy: Core, hard: Core, h: Header)
    requires |h.seed| == 32
    requires Ready(blake, easy, SeedText(h.seed), h.easyComplexity)
    requires Ready(blake, hard, SeedText(h.seed), h.hardComplexity)
    requires h.easyStart < h.easyEnd <= |easy.leaves| && h.hardStart < h.hardEnd <= |hard.leaves|
    ensures VerifyRequest(blake, MessageBytes(h, HonestTail(blake, easy, hard, h))) == Verdict(easy, hard, h)
  {
    VerifiedLeavesFit(blake, easy.completed, SeedText(h.seed), h.easyComplexity);
    VerifiedLeavesFit(blake, hard.completed, SeedText(h.seed), h.hardComplexity);
    HonestTailWritable(blake, easy, hard, h);
    HonestReply(blake, easy, hard, h, SeedText(h.seed));
    WrittenRequest(blake, h, HonestTail(blake, easy, hard, h));
  }

  /** Size, order and span of a committed run's leaves. */
  lemma {:induction false} RunIsSized(
    blake: Hasher, seed: Str, durationMs: u64, complexity: u32, calls: seq<Call>, c: Core)
    requires c == Run(blake, NewCore(seed, durationMs, complexity), calls)
    requires complexity < 128 && c.committed && 0 < |c.leaves| < U32_LIMIT
    ensures Sized(c) && c.completed[0].leaf.timestamp <= c.completed[|c.completed| - 1].leaf.timestamp
    ensures StartOf(calls).Some? && StartBounds(durationMs, StartOf(calls).value) ==>
              c.completed[|c.completed| - 1].leaf.timestamp - c.completed[0].leaf.timestamp < durationMs
  {
    RunIsReady(blake, seed, durationMs, complexity, calls, c);
  }

  /** The request of two committed runs gets the verdict. */
  lemma {:induction false} RunsGetVerdict(
    blake: Hasher, h: Header, easyMs: u64, hardMs: u64, easyCalls: seq<Call>, hardCalls: seq<Call>, easy: Core,
    hard: Core)
    requires |h.seed| == 32 && h.easyComplexity < 128 && h.hardComplexity < 128
    requires easy == Run(blake, NewCore(SeedText(h.seed), easyMs, h.easyComplexity), easyCalls) && Sized(easy)
    requires hard == Run(blake, NewCore(SeedText(h.seed), hardMs, h.hardComplexity), hardCalls) && Sized(hard)
    requires hard.completed[0].leaf.timestamp <= hard.completed[|hard.completed| - 1].leaf.timestamp
    requires h.easyStart < h.easyEnd <= |easy.leaves| && h.hardStart < h.hardEnd <= |hard.leaves|
    ensures VerifyRequest(blake, MessageBytes(h, HonestTail(blake, easy, hard, h))) == Verdict(easy, hard, h)
  {
    RunIsReady(blake, SeedText(h.seed), easyMs, h.easyComplexity, easyCalls, easy);
    RunIsReady(blake, SeedText(h.seed), hardMs, h.hardComplexity, hardCalls, hard);
    HonestRequest(blake, easy, hard, h);
  }

  /**
    End-to-end verdict on every honest pair of sessions: the request decodes, no arithmetic underflows,
    and the verifier answers success with the whole number of 330 ms blocks in the time between the first and
    the last hard leaf. It calls the proofs valid exactly when neither window covers a whole tree of several leaves.
    That span is below the duration under the exact condition `StartBounds` on the first reading.
   */
  lemma {:induction false} HonestSessionVerdict(
    blake: Hasher, h: Header, easyMs: u64, hardMs: u64, easyCalls: seq<Call>, hardCalls: seq<Call>, easy: Core,
    hard: Core)
    requires |h.seed| == 32 && h.easyComplexity < 128 && h.hardComplexity < 128
    requires easy == Run(blake, NewCore(SeedText(h.seed), easyMs, h.easyComplexity), easyCalls)
    requires hard == Run(blake, NewCore(SeedText(h.seed), hardMs, h.hardComplexity), hardCalls)
    requires easy.committed && h.easyStart < h.easyEnd <= |easy.leaves| < U32_LIMIT
    requires hard.committed && h.hardStart < h.hardEnd <= |hard.leaves| < U32_LIMIT
    ensures |easy.leaves| == |easy.completed| && |hard.leaves| == |hard.completed|
    ensures hard.completed[0].leaf.timestamp <= hard.completed[|hard.completed| - 1].leaf.timestamp
    ensures VerifyRequest(blake, MessageBytes(h, HonestTail(blake, easy, hard, h))) == Verdict(easy, hard, h)
    ensures StartOf(hardCalls).Some? && StartBounds(hardMs, StartOf(hardCalls).value) ==>
              hard.completed[|hard.completed| - 1].leaf.timestamp - hard.completed[0].leaf.timestamp < hardMs
  {
    RunIsSized(blake, SeedText(h.seed), easyMs, h.easyComplexity, easyCalls, easy);
    RunIsSized(blake, SeedText(h.seed), hardMs, h.hardComplexity, hardCalls, hard);
    RunsGetVerdict(blake, h, easyMs, hardMs, easyCalls, hardCalls, easy, hard);
  }

  function Join(a: seq<byte>, b: seq<byte>): seq<byte> {
    a + b
  }

  /** Two inputs of one hash. */
  predicate Collision(blake: Hasher, x: (seq<byte>, seq<byte>)) {
    x.0 != x.1 && blake(x.0) == blake(x.1)
  }

  /** The chunk is the window [lo, hi) of the leaves. */
  predicate IsWindow(leaves: seq<Digest>, lo: nat, hi: nat, chunk: seq<seq<byte>>) {
    lo < hi <= |leaves| && chunk == leaves[lo..hi]
  }

  /** The window is one leaf, and that leaf is the root. */
  predicate RootLeaf(leaves: seq<Digest>, root: Digest, lo: nat, hi: nat) {
    hi == lo + 1 && lo < |leaves| && leaves[lo] == root
  }

  /** An empty proof is accepted exactly for the chunk that is the root, whatever the count and the window. */
  lemma {:induction false} EmptyProofExactly(
    blake: Hasher, root: seq<byte>, count: nat, chunk: seq<seq<byte>>, lo: nat, hi: nat)
    ensures ValidateProof(blake, root, [], count, chunk, lo, hi) == Ok(true) <==> chunk == [root]
  {
    assert |chunk| == 1 ==> chunk == [chunk[0]];
  }

  /** Where that fails to bind: the root is accepted as every window, and is one only where it is the leaf itself. */
  lemma {:induction false} RootAcceptedAnywhere(blake: Hasher, leaves: seq<Digest>, lo: nat, hi: nat)
    requires leaves != []
    ensures var root := Merkle.Root(PairHash(blake), leaves);
            && ValidateProof(blake, root, [], |leaves|, [root], lo, hi) == Ok(true)
            && (IsWindow(leaves, lo, hi, [root]) <==> RootLeaf(leaves, root, lo, hi))
  {
    var root := Merkle.Root(PairHash(blake), leaves);
    EmptyProofExactly(blake, root, |leaves|, [root], lo, hi);
    if lo < hi <= |leaves| {
      assert |leaves[lo..hi]| == hi - lo && leaves[lo..hi][0] == leaves[lo];
    }
  }

  /** A recomputed root fixes the chunk, or exhibits two inputs with one BLAKE3 hash. */
  lemma {:induction false} RecomputedChunkIsCommitted(
    blake: Hasher, leaves: seq<Digest>, hashes: seq<Digest>, chunk: seq<Digest>, lo: nat, hi: nat)
    returns (x: Option<(seq<byte>, seq<byte>)>)
    requires lo < hi <= |leaves| && |chunk| == hi - lo
    requires Merkle.Recompute(PairHash(blake), |leaves|, lo, hi, chunk, hashes)
             == Some(Merkle.Root(PairHash(blake), leaves))
    ensures if x.Some? then Collision(blake, x.value) else chunk == leaves[lo..hi]
  {
    var c := Merkle.RootBindsWindow(PairHash(blake), leaves, lo, hi, chunk, hashes);
    if c.None? {
      x := None;
    } else {
      var l, r := Join(c.value.a, c.value.b), Join(c.value.c, c.value.d);
      assert l[..32] == c.value.a && l[32..] == c.value.b && r[..32] == c.value.c && r[32..] == c.value.d;
      x := Some((l, r));
    }
  }

  /**
    What acceptance of a proof against the committed root and leaf count means. The chunk is that window of
    the committed leaves exactly when the proof is not empty or the window is a leaf that is the root, as
    in a tree of one leaf; or two inputs with one BLAKE3 hash are exhibited.
   */
  lemma {:induction false} AcceptedChunkIsCommitted(
    blake: Hasher, leaves: seq<Digest>, proof: seq<byte>, chunk: seq<seq<byte>>, lo: nat, hi: nat)
    returns (x: Option<(seq<byte>, seq<byte>)>)
    requires leaves != []
    requires ValidateProof(blake, Merkle.Root(PairHash(blake), leaves), proof, |leaves|, chunk, lo, hi) == Ok(true)
    ensures if x.Some? then Collision(blake, x.value)
            else IsWindow(leaves, lo, hi, chunk) <==>
                 proof != [] || RootLeaf(leaves, Merkle.Root(PairHash(blake), leaves), lo, hi)
    ensures proof != [] || (|leaves| == 1 && lo == 0 && hi == 1) ==>
              x.Some? || IsWindow(leaves, lo, hi, chunk)
  {
    if proof == [] {
      EmptyProofExactly(blake, Merkle.Root(PairHash(blake), leaves), |leaves|, chunk, lo, hi);
      RootAcceptedAnywhere(blake, leaves, lo, hi);
      x := None;
    } else {
      x := RecomputedChunkIsCommitted(blake, leaves, SplitHashes(proof).value, AsDigests(chunk), lo, hi);
      assert chunk == AsDigests(chunk);
    }
  }

  /** Leaves with the same Merkle hashes are the same leaves, or two of their texts collide. */
  lemma {:induction false} MerkleHashesBind(blake: Hasher, a: seq<ComputedLeaf>, b: seq<ComputedLeaf>)
    returns (x: Option<(seq<byte>, seq<byte>)>)
    requires Hashes(blake, a) == Hashes(blake, b)
    ensures if x.Some? then Collision(blake, x.value) else a == b
  {
    assert |Hashes(blake, a)| == |a| && |Hashes(blake, b)| == |b|;
    if i :| 0 <= i < |a| && a[i] != b[i] {
      assert Hashes(blake, a)[i] == MerkleHash(blake, a[i]) && Hashes(blake, b)[i] == MerkleHash(blake, b[i]);
      if MerkleText(a[i]) == MerkleText(b[i]) {
        MerkleTextInjective(a[i], b[i]);
      }
      return Some((MerkleText(a[i]), MerkleText(b[i])));
    }
    x := None;
  }

  lemma {:induction false} WindowHashesBind(
    blake: Hasher, all: seq<ComputedLeaf>, data: seq<ComputedLeaf>, tree: seq<seq<byte>>, lo: nat, hi: nat)
    returns (x: Option<(seq<byte>, seq<byte>)>)
    requires lo < hi <= |all| && tree == Hashes(blake, all)[lo..hi]
    ensures if x.Some? then Collision(blake, x.value) else data == all[lo..hi] <==> tree == Hashes(blake, data)
  {
    assert Hashes(blake, all)[lo..hi] == Hashes(blake, all[lo..hi]);
    if tree == Hashes(blake, data) {
      x := MerkleHashesBind(blake, data, all[lo..hi]);
    } else {
      x := None;
    }
  }

  /**
    When the leaves of an accepted proof are the committed ones. Where its chunk is the committed window,
    exactly when their Merkle hashes are the hashes that the proof was checked with; or two inputs with one
    hash are exhibited.
   */
  lemma {:induction false} LeavesCommittedExactly(
    blake: Hasher, completed: seq<ComputedLeaf>, p: SessionProof, lo: nat, hi: nat)
    returns (x: Option<(seq<byte>, seq<byte>)>)
    requires completed != []
    requires ValidateProof(blake, Merkle.Root(PairHash(blake), Hashes(blake, completed)), p.proof, |completed|,
                           p.leavesTree, lo, hi) == Ok(true)
    ensures var leaves := Hashes(blake, completed);
            if x.Some? then Collision(blake, x.value)
            else p.proof != [] || RootLeaf(leaves, Merkle.Root(PairHash(blake), leaves), lo, hi) ==>
                   && lo < hi <= |completed|
                   && (p.leavesData == completed[lo..hi] <==> p.leavesTree == Hashes(blake, p.leavesData))
  {
    x := AcceptedChunkIsCommitted(blake, Hashes(blake, completed), p.proof, p.leavesTree, lo, hi);
    if x.None? && IsWindow(Hashes(blake, completed), lo, hi, p.leavesTree) {
      x := WindowHashesBind(blake, completed, p.leavesData, p.leavesTree, lo, hi);
    }
  }

  // --- When a request is answered valid ---

  predicate AnswersValid(reply: seq<byte>) {
    |reply| == 6 && reply[0] == 1 && reply[1] == 1
  }

  /** One part of a request is accepted: its chunk against the root, and its leaves, each by itself. */
  predicate PartAccepted(
    blake: Hasher, seed: seq<byte>, complexity: u32, lo: u64, hi: u64, submit: SessionSubmit, p: SessionProof)
  {
    && ValidateProof(blake, submit.root, p.proof, AsUsize(submit.leavesCount), p.leavesTree, AsUsize(lo), AsUsize(hi))
       == Ok(true)
    && ValidateLeaves(blake, seed, complexity, p.leavesData)
  }

  lemma {:induction false} PartAcceptedExactly(
    blake: Hasher, seed: seq<byte>, complexity: u32, lo: u64, hi: u64, submit: SessionSubmit, p: SessionProof)
    ensures CheckFor(blake, seed)(complexity, lo, hi, submit, p) == Ok(true) <==>
            PartAccepted(blake, seed, complexity, lo, hi, submit, p)
    ensures PartAccepted(blake, seed, complexity, lo, hi, submit, p) ==> p.leavesData != []
  {
  }

  /** The blocks between the first leaf sent with the first hard proof and the last one sent with the last. */
  function SentBlocks(t: Tail): u32
    requires t.hardFirst.leavesData != [] && t.hardLast.leavesData != []
  {
    HardBlocks(t.hardFirst.leavesData[0].leaf.timestamp,
               t.hardLast.leavesData[|t.hardLast.leavesData| - 1].leaf.timestamp)
  }

  /** The reply to a request of which all four checks succeed, and to no other, says success and valid. */
  lemma {:induction false} ReplyValidExactly(check: Check, h: Header, t: Tail)
    requires check(h.hardComplexity, 0, 1, t.hardSubmit, t.hardFirst) == Ok(true) ==> t.hardFirst.leavesData != []
    requires var count := t.hardSubmit.leavesCount;
             check(h.hardComplexity, WrappingSub(count, 1), count, t.hardSubmit, t.hardLast) == Ok(true) ==>
               t.hardLast.leavesData != []
    ensures var count := t.hardSubmit.leavesCount;
            AnswersValid(Reply(check, h, t)) <==>
              && check(h.easyComplexity, h.easyStart, h.easyEnd, t.easySubmit, t.easyProof) == Ok(true)
              && check(h.hardComplexity, 0, 1, t.hardSubmit, t.hardFirst) == Ok(true)
              && check(h.hardComplexity, h.hardStart, h.hardEnd, t.hardSubmit, t.hardRange) == Ok(true)
              && check(h.hardComplexity, WrappingSub(count, 1), count, t.hardSubmit, t.hardLast) == Ok(true)
    ensures AnswersValid(Reply(check, h, t)) ==>
              && t.hardFirst.leavesData != [] && t.hardLast.leavesData != []
              && Reply(check, h, t) == [1, 1] + LittleEndian(SentBlocks(t), 4)
  {
  }

  /** All four parts of a request are accepted. */
  predicate AllAccepted(blake: Hasher, seed: seq<byte>, h: Header, t: Tail) {
    var count := t.hardSubmit.leavesCount;
    && PartAccepted(blake, seed, h.easyComplexity, h.easyStart, h.easyEnd, t.easySubmit, t.easyProof)
    && PartAccepted(blake, seed, h.hardComplexity, 0, 1, t.hardSubmit, t.hardFirst)
    && PartAccepted(blake, seed, h.hardComplexity, h.hardStart, h.hardEnd, t.hardSubmit, t.hardRange)
    && PartAccepted(blake, seed, h.hardComplexity, WrappingSub(count, 1), count, t.hardSubmit, t.hardLast)
  }

  /**
    Every request that can be written is answered valid exactly when all four of its parts are accepted, with
    the count between the first and the last leaf sent.
   */
  lemma {:induction false} RequestValidExactly(blake: Hasher, h: Header, t: Tail)
    requires Writable(h, t)
    ensures AnswersValid(VerifyRequest(blake, MessageBytes(h, t))) <==> AllAccepted(blake, SeedText(h.seed), h, t)
    ensures AllAccepted(blake, SeedText(h.seed), h, t) ==>
              VerifyRequest(blake, MessageBytes(h, t)) == [1, 1] + LittleEndian(SentBlocks(t), 4)
  {
    var seed, count := SeedText(h.seed), t.hardSubmit.leavesCount;
    PartAcceptedExactly(blake, seed, h.easyComplexity, h.easyStart, h.easyEnd, t.easySubmit, t.easyProof);
    PartAcceptedExactly(blake, seed, h.hardComplexity, 0, 1, t.hardSubmit, t.hardFirst);
    PartAcceptedExactly(blake, seed, h.hardComplexity, h.hardStart, h.hardEnd, t.hardSubmit, t.hardRange);
    PartAcceptedExactly(blake, seed, h.hardComplexity, WrappingSub(count, 1), count, t.hardSubmit, t.hardLast);
    ReplyValidExactly(CheckFor(blake, seed), h, t);
    WrittenRequest(blake, h, t);
  }

  /** Every leaf of a list shows its work. */
  ghost predicate AllShowWork(blake: Hasher, seed: seq<byte>, complexity: u32, leaves: seq<ComputedLeaf>) {
    leaves != [] && forall i | 0 <= i < |leaves| :: ShowsWork(blake, leaves[i], seed, complexity)
  }

  lemma {:induction false} ListMeansWork(blake: Hasher, seed: seq<byte>, complexity: u32, leaves: seq<ComputedLeaf>)
    ensures ValidateLeaves(blake, seed, complexity, leaves) <==> AllShowWork(blake, seed, complexity, leaves)
  {
    forall i | 0 <= i < |leaves|
      ensures Verify(blake, leaves[i], seed, complexity) <==> ShowsWork(blake, leaves[i], seed, complexity)
    {
      VerifyMeansWork(blake, leaves[i], seed, complexity);
    }
  }

  /** A byte string answered valid is a request, and every leaf in its four lists shows the work the header asks for. */
  lemma {:induction false} ValidRequestShowsWork(blake: Hasher, req: seq<byte>)
    requires AnswersValid(VerifyRequest(blake, req))
    ensures ParseMessage(req).Some?
    ensures var p := ParseMessage(req).value;
            var seed, h, t := SeedText(p.header.seed), p.header, p.tail;
            && AllShowWork(blake, seed, h.easyComplexity, t.easyProof.leavesData)
            && AllShowWork(blake, seed, h.hardComplexity, t.hardFirst.leavesData)
            && AllShowWork(blake, seed, h.hardComplexity, t.hardRange.leavesData)
            && AllShowWork(blake, seed, h.hardComplexity, t.hardLast.leavesData)
  {
    var m := ParseMessage(req);
    if m.Some? {
      var h, t := m.value.header, m.value.tail;
      var seed := SeedText(h.seed);
      ParsedSeedText(req);
      MessageRoundTrip(req, h, t);
      assert AllAccepted(blake, seed, h, t) by {
        RequestValidExactly(blake, h, t);
      }
      ListMeansWork(blake, seed, h.easyComplexity, t.easyProof.leavesData);
      ListMeansWork(blake, seed, h.hardComplexity, t.hardFirst.leavesData);
      ListMeansWork(blake, seed, h.hardComplexity, t.hardRange.leavesData);
      ListMeansWork(blake, seed, h.hardComplexity, t.hardLast.leavesData);
    }
  }

  predicate NoProofs(t: Tail) {
    t.easyProof.proof == [] && t.hardFirst.proof == [] && t.hardRange.proof == [] && t.hardLast.proof == []
  }

  /**
    A request with empty proofs only: it is answered valid exactly when every chunk is its root and every leaf
    verifies by itself. The committed counts and the windows asked for play no part in the answer.
   */
  lemma {:induction false} NoProofsValidExactly(blake: Hasher, h: Header, t: Tail)
    requires Writable(h, t) && NoProofs(t)
    ensures AnswersValid(VerifyRequest(blake, MessageBytes(h, t))) <==>
            && t.easyProof.leavesTree == [t.easySubmit.root]
            && t.hardFirst.leavesTree == [t.hardSubmit.root]
            && t.hardRange.leavesTree == [t.hardSubmit.root]
            && t.hardLast.leavesTree == [t.hardSubmit.root]
            && ValidateLeaves(blake, SeedText(h.seed), h.easyComplexity, t.easyProof.leavesData)
            && ValidateLeaves(blake, SeedText(h.seed), h.hardComplexity, t.hardFirst.leavesData)
            && ValidateLeaves(blake, SeedText(h.seed), h.hardComplexity, t.hardRange.leavesData)
            && ValidateLeaves(blake, SeedText(h.seed), h.hardComplexity, t.hardLast.leavesData)
  {
    var seed, count := SeedText(h.seed), t.hardSubmit.leavesCount;
    RequestValidExactly(blake, h, t);
    NoProofPart(blake, seed, h.easyComplexity, h.easyStart, h.easyEnd, t.easySubmit, t.easyProof);
    NoProofPart(blake, seed, h.hardComplexity, 0, 1, t.hardSubmit, t.hardFirst);
    NoProofPart(blake, seed, h.hardComplexity, h.hardStart, h.hardEnd, t.hardSubmit, t.hardRange);
    NoProofPart(blake, seed, h.hardComplexity, WrappingSub(count, 1), count, t.hardSubmit, t.hardLast);
  }

  lemma {:induction false} NoProofPart(
    blake: Hasher, seed: seq<byte>, complexity: u32, lo: u64, hi: u64, submit: SessionSubmit, p: SessionProof)
    requires p.proof == []
    ensures PartAccepted(blake, seed, complexity, lo, hi, submit, p) <==>
            p.leavesTree == [submit.root] && ValidateLeaves(blake, seed, complexity, p.leavesData)
  {
    EmptyProofExactly(blake, submit.root, AsUsize(submit.leavesCount), p.leavesTree, AsUsize(lo), AsUsize(hi));
  }

  /** An honest request, but for the leaf sent with the last proof. */
  function WithLastLeaf(t: Tail, l: ComputedLeaf): Tail {
    t.(hardLast := t.hardLast.(leavesData := [l]))
  }

  /**
    The leaves sent are not compared with the committed ones: whatever one leaf an otherwise honest request
    sends with its last proof, that leaf's own verification decides the verdict with the two windows, and its
    time the block count.
   */
  lemma {:induction false} CountFollowsSentLeaf(
    blake: Hasher, easy: Core, hard: Core, h: Header, seed: seq<byte>, l: ComputedLeaf)
    requires Ready(blake, easy, seed, h.easyComplexity) && Ready(blake, hard, seed, h.hardComplexity)
    requires h.easyStart < h.easyEnd <= |easy.leaves| && h.hardStart < h.hardEnd <= |hard.leaves|
    ensures var whole := WholeWindow(easy, hard, h);
            Reply(CheckFor(blake, seed), h, WithLastLeaf(HonestTail(blake, easy, hard, h), l))
            == [1, if !whole && Verify(blake, l, seed, h.hardComplexity) then 1 else 0]
               + LittleEndian(HardBlocks(hard.completed[0].leaf.timestamp, l.leaf.timestamp), 4)
  {
    HonestWindow(blake, easy, seed, h.easyComplexity, h.easyStart, h.easyEnd);
    HonestWindow(blake, hard, seed, h.hardComplexity, 0, 1);
    HonestWindow(blake, hard, seed, h.hardComplexity, h.hardStart, h.hardEnd);
    LastPartWithLeaf(blake, hard, seed, h.hardComplexity, l);
    AnswersWithLeaf(blake, CheckFor(blake, seed), easy, hard, h, l, Verify(blake, l, seed, h.hardComplexity));
  }

  /** The four answers put together. */
  lemma {:induction false} AnswersWithLeaf(
    blake: Hasher, check: Check, easy: Core, hard: Core, h: Header, l: ComputedLeaf, lastOk: bool)
    requires Sized(easy) && Sized(hard)
    requires h.easyStart < h.easyEnd <= |easy.leaves| && h.hardStart < h.hardEnd <= |hard.leaves|
    requires check(h.easyComplexity, h.easyStart, h.easyEnd,
                   SubmitOf(blake, easy), ProofOf(blake, easy, h.easyStart, h.easyEnd))
             == Ok(!CoversAll(|easy.leaves|, h.easyStart, h.easyEnd))
    requires check(h.hardComplexity, 0, 1, SubmitOf(blake, hard), ProofOf(blake, hard, 0, 1)) == Ok(true)
    requires check(h.hardComplexity, h.hardStart, h.hardEnd,
                   SubmitOf(blake, hard), ProofOf(blake, hard, h.hardStart, h.hardEnd))
             == Ok(!CoversAll(|hard.leaves|, h.hardStart, h.hardEnd))
    requires var n := |hard.leaves|;
             check(h.hardComplexity, n - 1, n,
                   SubmitOf(blake, hard), ProofOf(blake, hard, n - 1, n).(leavesData := [l]))
             == Ok(lastOk)
    ensures Reply(check, h, WithLastLeaf(HonestTail(blake, easy, hard, h), l))
            == [1, if !WholeWindow(easy, hard, h) && lastOk then 1 else 0]
               + LittleEndian(HardBlocks(hard.completed[0].leaf.timestamp, l.leaf.timestamp), 4)
  {
    var n, t := |hard.leaves|, WithLastLeaf(HonestTail(blake, easy, hard, h), l);
    assert t.hardSubmit.leavesCount == n && WrappingSub(n, 1) == n - 1 by {
      SmallUsize(n);
    }
    assert t.hardFirst.leavesData == [hard.completed[0]] by {
      OneLeafProof(blake, hard, 0);
    }
    var easyOk, rangeOk := !CoversAll(|easy.leaves|, h.easyStart, h.easyEnd), !CoversAll(n, h.hardStart, h.hardEnd);
    ReplyBytes(check, h, t, easyOk, true, rangeOk, lastOk);
  }

  lemma {:induction false} OneLeafValidates(blake: Hasher, seed: seq<byte>, complexity: u32, l: ComputedLeaf)
    ensures ValidateLeaves(blake, seed, complexity, [l]) <==> Verify(blake, l, seed, complexity)
  {
    assert [l][0] == l;
  }

  lemma {:induction false} LastPartWithLeaf(
    blake: Hasher, c: Core, seed: seq<byte>, complexity: u32, l: ComputedLeaf)
    requires Ready(blake, c, seed, complexity)
    ensures var n := |c.leaves|;
            var p := ProofOf(blake, c, n - 1, n).(leavesData := [l]);
            VerifyProofAndLeaves(blake, seed, complexity, n - 1, n, SubmitOf(blake, c), p)
            == Ok(Verify(blake, l, seed, complexity))
  {
    var n := |c.leaves|;
    var p := ProofOf(blake, c, n - 1, n);
    assert ValidateProof(blake, SubmitOf(blake, c).root, p.proof, AsUsize(SubmitOf(blake, c).leavesCount),
                         p.leavesTree, AsUsize(n - 1), AsUsize(n)) == Ok(true) by {
      HonestWindow(blake, c, seed, complexity, n - 1, n);
    }
    OneLeafValidates(blake, seed, complexity, l);
  }

  // --- Errors ---

  /** Error replies: two zeros and the code, low byte first. */
  lemma {:induction false} ErrorReplies()
    ensures ErrorBytes(DeserializeRequest) == [0, 0, 100, 0, 0, 0]
    ensures ErrorBytes(CheckRoot) == [0, 0, 200, 0, 0, 0]
    ensures ErrorBytes(BuildMerkleProof) == [0, 0, 45, 1, 0, 0]
    ensures ErrorBytes(CheckLeaf) == [0, 0, 46, 1, 0, 0]
    ensures ErrorBytes(GetFirstHardLeaf) == [0, 0, 47, 1, 0, 0]
    ensures ErrorBytes(GetLastHardLeaf) == [0, 0, 48, 1, 0, 0]
  {
    CodeReply(DeserializeRequest);
    CodeReply(CheckRoot);
    CodeReply(BuildMerkleProof);
    CodeReply(CheckLeaf);
    CodeReply(GetFirstHardLeaf);
    CodeReply(GetLastHardLeaf);
  }

  lemma {:induction false} CodeReply(e: LibError)
    ensures ErrorBytes(e) == [0, 0, Code(e) % 256, Code(e) / 256, 0, 0]
  {
    SmallCode(Code(e));
  }

  lemma {:induction false} SmallCode(n: nat)
    requires n < 0x1_0000
    ensures LittleEndian(n, 4) == [n % 256, n / 256, 0, 0]
  {
    assert LittleEndian(0, 1) == [0];
    assert LittleEndian(0, 2) == [0] + LittleEndian(0, 1);
    assert LittleEndian(n / 256, 3) == [n / 256] + LittleEndian(0, 2);
    assert LittleEndian(n, 4) == [n % 256] + LittleEndian(n / 256, 3);
  }

  /** Proof bytes split into hashes exactly when they are a multiple of 32. */
  lemma {:induction false} SplitExactly(b: seq<byte>)
    ensures SplitHashes(b).Some? <==> |b| % 32 == 0
  {
    if |b| < 32 {
    } else {
      SplitExactly(b[32..]);
    }
  }

  /** Which proofs err, and how: odd proof bytes before a bad root before a bad leaf; an empty proof never does. */
  lemma {:induction false} ProofErrorsExactly(
    blake: Hasher, root: seq<byte>, proof: seq<byte>, count: nat, chunk: seq<seq<byte>>, lo: nat, hi: nat)
    ensures var r := ValidateProof(blake, root, proof, count, chunk, lo, hi);
            && (r.Err? <==> proof != [] && (|proof| % 32 != 0 || |root| != 32 || exists c :: c in chunk && |c| != 32))
            && (r.Err? ==> r.error == if |proof| % 32 != 0 then BuildMerkleProof
                                      else if |root| != 32 then CheckRoot
                                      else CheckLeaf)
  {
    SplitExactly(proof);
    assert AllDigests(chunk) <==> forall c | c in chunk :: |c| == 32;
  }

  /** The four checks in the order they are made. */
  function Checks(check: Check, h: Header, t: Tail): seq<Result<bool, LibError>> {
    var count := t.hardSubmit.leavesCount;
    [check(h.easyComplexity, h.easyStart, h.easyEnd, t.easySubmit, t.easyProof),
     check(h.hardComplexity, 0, 1, t.hardSubmit, t.hardFirst),
     check(h.hardComplexity, h.hardStart, h.hardEnd, t.hardSubmit, t.hardRange),
     check(h.hardComplexity, WrappingSub(count, 1), count, t.hardSubmit, t.hardLast)]
  }

  /** Of the four checks, the first that errs decides the reply; a leaf list is only missed when none errs. */
  lemma {:induction false} FirstErrorDecides(check: Check, h: Header, t: Tail, k: nat)
    requires k <= 4 && forall i | 0 <= i < k :: Checks(check, h, t)[i].Ok?
    ensures k < 4 && Checks(check, h, t)[k].Err? ==> Reply(check, h, t) == ErrorBytes(Checks(check, h, t)[k].error)
    ensures k == 4 && t.hardFirst.leavesData == [] ==> Reply(check, h, t) == ErrorBytes(GetFirstHardLeaf)
    ensures k == 4 && t.hardFirst.leavesData != [] && t.hardLast.leavesData == [] ==>
              Reply(check, h, t) == ErrorBytes(GetLastHardLeaf)
  {
    var rs := Checks(check, h, t);
    assert k > 0 ==> rs[0].Ok?;
    assert k > 1 ==> rs[1].Ok?;
    assert k > 2 ==> rs[2].Ok?;
    assert k > 3 ==> rs[3].Ok?;
  }

  /** What is not the encoding of a request does not decode, and gets error 100. */
  lemma {:induction false} UndecodableRequest(blake: Hasher, req: seq<byte>)
    requires forall h: Header, t: Tail | Writable(h, t) :: req != MessageBytes(h, t)
    ensures ParseMessage(req).None? && VerifyRequest(blake, req) == [0, 0, 100, 0, 0, 0]
  {
    ErrorReplies();
    var parsed := ParseMessage(req);
    if parsed.Some? {
      ParsedSeedText(req);
      MessageRoundTrip(req, parsed.value.header, parsed.value.tail);
    }
  }

  lemma {:induction false} ParsedSeedText(req: seq<byte>)
    requires ParseMessage(req).Some?
    ensures ParseMessage(req).value.seedText == SeedText(ParseMessage(req).value.header.seed)
  {
  }
}
