# bee-engine: verified models

This project models three parts of bee-engine and proves what they promise:

* **The connect session** between a dApp and a wallet over a shared, append-only log: the handshake, the
  Diffie-Hellman re-key made for every message, the wallet's and the client's scans of the log, and the payload
  that opens a session.
* **The mining session**: leaves and their hash inputs, the Merkle tree, `MiningCore`, the bytes a miner submits,
  the verifier that checks them, and the pool of workers that shares seeds and the submission slot.
* **Delivery infrastructure**: the shared rate limiter, the resend loop for full queues and the retry policy.

Cryptography is symbolic or a parameter. In the connect session a secret is its identity, X25519 (section 6.1 of
RFC 7748) gives the unordered pair of both secrets, a root is the free term of the HKDF calls (section 2 of RFC 5869)
that made it, and an AEAD body opens only under its own root and associated data (section 2.8 of RFC 8439). On the
mining side BLAKE3 is an arbitrary function from byte strings to 32 bytes: nothing is assumed of it, and where the
tree binds its leaves the proof hands back a collision instead of assuming there is none. Clocks, random keys, network
replies and the order of events are parameters, so every statement holds for all of them.

Automatic induction is off in every lemma: each induction is written out, with its base case.

Main results:

* Every half-duplex run of the connect protocol, of any length, keeps the two ends in agreement and never uses a root
  twice. If a side sends while messages are pending for it, neither side's next message opens. The key chains fork
  exactly when the two re-keys differ, and then nothing either side sends is ever taken in again, in any later run,
  however envelopes are copied, reordered or changed.
* n pending client messages, listed in any order among old, foreign or tampered events, are accepted by n wallet
  scans, once each and in the order they were sent. The client's scan finds a challenge response exactly when it is the
  earliest pending wallet message; pending behind another one it is reported as `session_desync`.
* What the results on scans and forks ask of the log holds, after every half-duplex run, of the log the run has
  written itself.
* For every pair of honest mining sessions and every pair of windows the verifier answers success with the right block
  count, and calls the proofs valid exactly when neither window covers a whole tree of several leaves.
* A tree chunk accepted with a non-empty proof is the committed window, and the leaves sent with it are the committed
  ones exactly when their Merkle hashes are that chunk, a comparison the verifier does not make; else a collision is
  exhibited. With an empty proof the accepted chunk is the root, which is the committed window exactly where a leaf is
  the root. For every request, the exact condition under which it is answered valid; every leaf of such a request
  shows its proof of work.
* A byte string decodes to a verification request exactly when it is the encoding of one, and that encoding is given
  byte by byte.
* The root of every tree is given from the leaves down, apart from the rows it is computed by.
* At most one worker submits at a time in every interleaving, a worker dropped while queued never submits, and seeds
  are conserved; in every run a seed is used up exactly by a finished worker with leaves in both trees.
* A mining session's span stays below its duration on any clock, under an exact condition on the first reading.
* The limiter's schedule is the earliest admissible one, and keeps the documented rate exactly when `max_rps` divides
  1000.

Where code and documentation disagree, the model follows the code:

* `find_challenge_response_event` is documented as keeping the re-key chain for every wallet message it meets
  (bee_connect/src/client.rs:1533-1534); it never advances before a full success, so any
  other wallet message before a challenge response ends in `session_desync` (`ClientScanOfSent`,
  `ResponseBehindAnotherIsDesync`).
* `select_session_complexity` is documented as giving what the contract will verify a session against
  (bee_miner/src/core/session_complexity.rs:21-33). The flag it takes is read when mining starts
  (bee_miner/src/wasm/worker.rs:112-115), before the other session ends: if that session is cancelled after all, or one
  not in flight is accepted, the next seed is mined with one pair and checked with the other
  (`NextSeedMatchesExactly`, `WrongFlagMatches`, `InFlightThenCancelled`).
* `RateLimiter` is documented as allowing at most `max_rps` calls a second (bee_infra/src/rate_limiter.rs:7-9); it
  rounds the interval down (`RateKeptExactly`, `BurstBreaksRate`).
* `get_proof` serves a window that is the whole tree, and the verifier refuses the empty proof it gets
  (bee_verifier/src/verifier.rs:30-36), except for a tree of one leaf (`HonestProofValidates`).
* The verifier takes a leaf count and a window with every proof (bee_verifier/src/lib.rs:99-125), but answers an empty
  proof without either (bee_verifier/src/verifier.rs:30-36): the root is accepted as any window of a tree of several
  leaves (`EmptyProofExactly`, `RootAcceptedAnywhere`, `NoProofsValidExactly`).

## Files

| file | part of the system |
|---|---|
| `Prelude.dfy`, `Bytes.dfy`, `Borsh.dfy` | fixed-width integers, byte layouts, codecs |
| `ConnectSession.dfy`, `ConnectMessages.dfy` | session state, re-keying, envelopes |
| `HalfDuplex.dfy`, `Desync.dfy` | runs of the two-party protocol |
| `WalletScan.dfy`, `PendingMessages.dfy`, `ClientScan.dfy` | scans of the log, handshake |
| `RunLog.dfy` | the log a run writes, scans and forks after every run |
| `ConnectPayload.dfy` | hex normalisation, session payload and description |
| `Leaf.dfy`, `Merkle.dfy`, `Mining.dfy` | leaves, tree, mining session |
| `Wire.dfy`, `Verifier.dfy` | request bytes, verifier, end-to-end verdict |
| `WorkerPool.dfy`, `SessionComplexity.dfy` | worker pool, choice of complexity |
| `RateLimiter.dfy`, `Resend.dfy`, `Retry.dfy` | delivery infrastructure |

## Model

| member | source | states |
|---|---|---|
| ConnectSession.SharedSecretLaws | bee_connect/src/dh.rs:110-136 | both ends compute one shared secret, and a secret with the result determines the other key |
| ConnectSession.RekeyAgreement | bee_connect/src/dh.rs:348-447 | the receiver's re-key of a sent message succeeds unless its session expired, gives the sender's root, and leaves both ends matched, for any clocks and any fresh key |
| ConnectSession.NextSeqStrictlyIncreases | bee_connect/src/dh.rs:258-263 | for any clock the next seq exceeds all sent ones exactly below u64::MAX; at the top the re-key refuses rather than reuse a seq |
| ConnectSession.NextSeqIsLeast | bee_connect/src/dh.rs:258-263 | the next seq is the least that is not below the clock and above all sent ones |
| ConnectSession.ExpiryExactly | bee_connect/src/dh.rs:236-256 | a new session is expired exactly from 86400 seconds after it was made; one stored without an expiry never is |
| ConnectMessages.SendThenTakeIn | bee_connect/src/client.rs:1699-1745 | a sent message is taken in by the matched peer with the same body, changes only root, peer key and seen seq there, and ends matched; signing keys and expiry stay |
| ConnectMessages.TakeInNeedsDerivedRoot | bee_connect/src/client.rs:1593-1631 | what is taken in was sealed under a root derived from the receiver's own by the key in the envelope, for exactly the envelope's clear fields, with a seq above all seen |
| HalfDuplex.AgreementInEveryRun | bee_connect/src/dh.rs:336-447 | after every half-duplex run, draining the receiver succeeds before expiry and gives the sender's root and matching keys; all roots of the run are pairwise distinct |
| HalfDuplex.DeliveryNeverStalls | bee_connect/src/dh.rs:404-447 | in every reachable world an unexpired delivery takes in the oldest pending message |
| HalfDuplex.SigningAndExpiryFixed | bee_connect/src/dh.rs:375-439 | no action of any run changes the signing keys, creation time or expiry of either end |
| HalfDuplex.RunKeepsInv | bee_connect/src/dh.rs:336-447 | every send and delivery keeps agreement and the one-re-key-deeper order of roots |
| Desync.ForkedTakesNothing | bee_connect/src/client.rs:1593-1612 | once the chains have forked, no sealed body either party ever made is taken in by the other, whatever envelope carries it |
| Desync.ForkIsPermanent | bee_connect/src/client.rs:1642-1646 | over every later run of sends and arrivals nothing is taken in and the chains stay forked |
| Desync.CrossingNeverOpens | bee_connect/src/dh.rs:348-447 | a side that sends while messages are pending for it, some of them perhaps taken in: neither its message nor the oldest pending one opens afterwards, whatever keys were drawn |
| Desync.CrossingForksExactly | bee_connect/src/dh.rs:454-480 | the chains then fork exactly when the two re-keys from the common root differ, as they do for a newly drawn key |
| Desync.LogStaysSound | bee_connect/src/dh.rs:336-447 | in every run, half-duplex or not, each body stays sealed under a root its sender has passed through |
| Desync.CrossingSendsDesync | bee_connect/src/client.rs:1634-1650 | after any half-duplex run, such a crossing send leaves both next messages unopened, and if the re-keys differ no later run takes anything in or makes the roots equal again |
| WalletScan.LookAt | bee_wallet/src/modules/connect.rs:176-255 | one round, branch by branch: every event of the session is reported, as taken in with its new state exactly when its body opens under the re-keyed root, else with its body exactly when that opens under the current root; the state moves in the first case only |
| WalletScan.QuerySessionMessages | bee_wallet/src/modules/connect.rs:170-259 | the loop hands out one such message for each of the session's events, in page order, each judged from the state reached before it |
| WalletScan.ScanReportsEvery | bee_wallet/src/modules/connect.rs:234-255 | for every page: as many messages as events of the session, message by message with the event's id, time and envelope, and a body without a new state exactly when it opens under the root reached before |
| WalletScan.PlacesExactly | bee_wallet/src/services/connect.rs:402-424 | the events reported are exactly the envelopes of the known version, the session's id and a non-blank direction, in order |
| WalletScan.ScanEndsAfter | bee_wallet/src/modules/connect.rs:257-259 | the returned state is the start state moved by the accepted events only; without a state nothing is accepted |
| WalletScan.ScanReportsAccepted | bee_wallet/src/modules/connect.rs:211-225 | the messages handed out with a new state are exactly the accepted events in order, each with its body and the state it leads to |
| WalletScan.AcceptedAloneSuffice | bee_wallet/src/modules/connect.rs:188-232 | a scan of the accepted events alone accepts all of them and ends in the same state |
| WalletScan.PageSeqsClimb | bee_connect/src/dh.rs:412-420 | seqs accepted from a page exceed all seen before and strictly increase; own key, sent seq, signing keys and expiry stay |
| WalletScan.AcceptedAtMostOnce | bee_connect/src/dh.rs:223-227 | over any series of scans of any pages and sends of its own, with any clock, no envelope is accepted twice |
| PendingMessages.SentMessagesArePending | bee_connect/src/dh.rs:336-447 | whatever a sender sends in a row can be taken in by its matched peer in that order, ending matched |
| PendingMessages.OnlyNextIsTakenIn | bee_wallet/src/modules/connect.rs:194-226 | a receiver takes in the next pending message and nothing else; a copy with any clear field changed is refused |
| PendingMessages.ScanAcceptsInSenderOrder | bee_wallet/src/modules/connect.rs:172-255 | a scan of any page accepts exactly the next messages in sender order, each at its first sighting in turn |
| PendingMessages.ProgressIsMade | bee_wallet/src/modules/connect.rs:176-226 | a page that shows the earliest pending message lets the scan get past it |
| PendingMessages.EnoughScansAcceptAll | bee_wallet/src/modules/connect.rs:129-267 | n scans of pages that list n pending messages in any order among anything else accept all of them, once, in sender order |
| PendingMessages.NoStrangerIsOnlySender | bee_connect/src/message.rs:80-107 | if no body on the log but the sender's own is derived from one of the session's current roots, only the sender's next message fits each state; bodies of other sessions may be of any depth |
| PendingMessages.ScansCatchUp | bee_wallet/src/modules/connect.rs:129-267 | from matched ends, whatever the client sends in a row, that many scans of pages that list it among old, foreign or copied events end matched with the client |
| ClientScan.FirstSuccess | bee_connect/src/client.rs:1558-1653 | the scan returns the first full success; without one it errs with the exact failure counts if any candidate failed, else finds nothing |
| ClientScan.FindChallengeResponse | bee_connect/src/client.rs:1535-1654 | expired sessions err; otherwise that outcome, every event judged from the caller's unmodified state |
| ClientScan.FindSetMiningKeys | bee_connect/src/client.rs:1420-1531 | the same for mining keys, whose body must also normalise |
| ClientScan.FindWalletHello | bee_connect/src/client.rs:1314-1418 | the same for the wallet's hello, with separate counts for a missing and a refused key |
| ClientScan.TallyCounts | bee_connect/src/client.rs:1634-1650 | each count is the number of events that failed in that way |
| ClientScan.ResponseCases | bee_connect/src/client.rs:1558-1631 | which events are passed over, and which fail at re-key, decryption or parsing |
| ClientScan.KeysCases | bee_connect/src/client.rs:1440-1516 | the same for mining keys |
| ClientScan.HelloCases | bee_connect/src/client.rs:1338-1403 | the same for the hello, which succeeds exactly on a body sealed under the root of its own key |
| ClientScan.FoundIsTakenIn | bee_connect/src/client.rs:1593-1631 | a challenge response is found exactly when it is taken in from the start state and its body parses |
| ClientScan.KeysFoundAreTakenIn | bee_connect/src/client.rs:1466-1516 | mining keys are found exactly when taken in with values that normalise, and come out normalised |
| ClientScan.LaterResponseFailsToDecrypt | bee_connect/src/client.rs:1605-1612 | a challenge response pending behind another message passes the seq check and counts as a decrypt failure |
| ClientScan.ClientFindsOnlyTheEarliest | bee_connect/src/client.rs:1533-1654 | a challenge response is found exactly when it is the earliest pending message and parses; one pending later ends in session_desync |
| ClientScan.ClientScanOfSent | bee_connect/src/client.rs:1533-1654 | from matched ends, whatever the wallet sends in a row: found exactly when its first message is a parsing challenge response, with its body and a state matched to the wallet's after that send; otherwise one sent later ends in session_desync |
| ClientScan.ResponseBehindAnotherIsDesync | bee_connect/src/client.rs:1533-1534 | the documented upkeep of the chain fails on two sends in a row: any other message, then a challenge response |
| ClientScan.BothCanBeSent | bee_connect/src/client.rs:1699-1745 | exactly when a wallet can make two such sends |
| ClientScan.HandshakeMatches | bee_wallet/src/modules/connect.rs:283-391 | the client opens the wallet's hello wherever it meets it, and its state is matched with the wallet's, so both first messages pass the seq check |
| ClientScan.HandshakeThenAgreement | bee_connect/src/client.rs:1389-1403 | from the handshake on, every half-duplex run leaves both sides on one root once the lagging side has drained |
| ClientScan.HandshakeExpires | bee_connect/src/dh.rs:317-334 | each end of a handshake expires exactly 24 hours after it made its state |
| ClientScan.HelloForAnotherKeyFails | bee_connect/src/client.rs:1361-1379 | a hello made for another client key fails to decrypt |
| RunLog.RunKeepsLog | bee_connect/src/dh.rs:336-447 | after every half-duplex run each body on its log is no deeper than the receiver or pending, and sealed under a root its sender passed through |
| RunLog.RunHasNoStrangers | bee_connect/src/dh.rs:336-447 | so what the scans ask of a log holds of the log every run writes |
| RunLog.WalletCatchesUp | bee_wallet/src/modules/connect.rs:129-267 | after every run, as many scans of pages of its log as messages are pending accept them all, once and in order, and end matched |
| RunLog.ClientFindsAfterRun | bee_connect/src/client.rs:1533-1654 | after every run a challenge response is found exactly when it is the oldest pending message and parses; a later one ends in session_desync |
| RunLog.CrossingAfterRun | bee_connect/src/client.rs:1634-1650 | a crossing send after any run, against that run's own log, ends all arrivals if the re-keys differ |
| RunLog.HandshakeBegins | bee_connect/src/client.rs:1389-1403 | the handshake is such a beginning, its hello on the log |
| ConnectPayload.NormalForm | bee_connect/src/message.rs:160-178 | the normal form is 0x and 64 lower-case digits of the same number |
| ConnectPayload.NormalFormIsCanonical | bee_connect/src/message.rs:166-178 | normalising is idempotent, and two accepted inputs agree exactly when they denote one number |
| ConnectPayload.OwnerNormalForm | bee_connect/src/message.rs:180-197 | an owner key normalises to 64 lower-case digits of the same number, idempotently |
| ConnectPayload.NormalizesExactly | bee_connect/src/message.rs:166-197 | an app id normalises exactly if it is 1 to 64 hex digits with or without a prefix, an owner key exactly if it is 64 |
| ConnectPayload.DescriptionParses | bee_connect/src/client.rs:1849-1878 | a description splits back into the app id and session id it was made from |
| ConnectPayload.CreatedPayloadDecodes | bee_connect/src/client.rs:1194-1276 | a payload is made exactly when the app id normalises, and every payload made passes decoding unchanged |
| ConnectPayload.CreatedPayloadIs | bee_connect/src/client.rs:1236-1276 | its description names its own ids, the nonce is kept, and it expires 300 seconds ahead or as asked, at least one |
| ConnectPayload.DecodedNamesItself | bee_connect/src/client.rs:1193-1224 | every payload that decodes has the version, an expiry, and a description that names its own app id and session id |
| ConnectPayload.NamesBegins | bee_connect/src/client.rs:1247-1250 | such a description is bee_connect:v1: followed by app id, session id and the rest, between colons |
| ConnectPayload.NamedPayloadDecodes | bee_connect/src/client.rs:1193-1224 | and every such payload decodes |
| Leaf.VerifyMeansWork | bee_shared/src/miner/leaf.rs:95-130 | a leaf passes exactly when seed and complexity fit, the complexity is below 128, its hash is its own, and the hash's first 16 bytes plus one, times 2^complexity, stay below 2^128 |
| Leaf.PreimageLayout | bee_shared/src/miner/leaf.rs:30-43 | where each field lies in the hashed bytes |
| Leaf.PreimageInjective | bee_shared/src/miner/leaf.rs:30-43 | the bytes hashed for a leaf determine the leaf, for every seed string |
| Leaf.MerkleTextInjective | bee_shared/src/miner/leaf.rs:71-88 | the text hashed into the tree determines the computed leaf, even if the seed holds commas or labels |
| Leaf.SeedAndRestInjective | bee_shared/src/miner/leaf.rs:72-82 | read from the right, everything from the seed on is determined |
| Leaf.MerkleTextFields | bee_shared/src/miner/leaf.rs:71-82 | split at commas, the text is the eight labelled fields in order |
| Bytes.LittleEndianAt | bee_shared/src/miner/mod.rs:8-12 | byte i of a Borsh integer has weight 256^i |
| Bytes.BigEndianAt | bee_shared/src/verifier.rs:41-101 | byte i of w in a header integer has weight 256^(w-1-i) |
| Bytes.DecimalReads | bee_shared/src/miner/leaf.rs:72-82 | a number prints as the digits that denote it, without leading zeros |
| Bytes.HexAt | bee_shared/src/miner/leaf.rs:72-82 | byte i prints as hex digits 2i and 2i + 1, high half first |
| Bytes.ReadIsEncoded | bee_shared/src/miner/leaf.rs:58-68 | what a string field accepts as a character is the UTF-8 encoding of a scalar value |
| Bytes.EncodedIsRead | bee_shared/src/miner/leaf.rs:58-68 | and the encoding of every scalar value is accepted |
| Borsh.CombineBytes | bee_shared/src/verifier.rs:126-135 | the combined bytes are the encodings in order, and the call fails exactly when one value cannot be encoded |
| Borsh.FromSliceExact | bee_shared/src/verifier.rs:103-106 | reading a whole slice gives x exactly on the bytes that write x; nothing may be left over |
| Borsh.ListLawful | bee_shared/src/miner/mod.rs:14-19 | vectors of any lawful element, nested to any depth, read back and write back |
| Wire.LeafLawful | bee_shared/src/miner/leaf.rs:58-68 | the leaf encoding is a bijection onto the byte strings that decode |
| Wire.SubmitAndProofLawful | bee_shared/src/miner/mod.rs:8-19 | so are the encodings of submits and proofs |
| Wire.HeaderLawful | bee_shared/src/verifier.rs:41-101 | so is the big-endian header |
| Wire.HeaderLayout | bee_shared/src/verifier.rs:41-101 | the header is 72 bytes with each field at its offset |
| Wire.SubmitLayout | bee_shared/src/miner/mod.rs:8-12 | a submit is the root with its length and the count, all little-endian |
| Wire.LeafLayout | bee_shared/src/miner/leaf.rs:58-68 | a leaf is its eight fields in order, little-endian, strings and vectors with a four-byte length |
| Wire.ProofLayout | bee_shared/src/miner/mod.rs:14-19 | a proof is its bytes and two vectors, each behind its length |
| Wire.SeedTextReads | bee_shared/src/verifier.rs:50-109 | the seed is hashed as 0x and its lower-case hex digits |
| Wire.MessageLayout | bee_shared/src/verifier.rs:37-135 | the whole message in terms of integers and byte strings |
| Wire.TailIsConcatenation | bee_miner/src/wasm/worker.rs:352-358 | the combined submits followed by the combined proofs are one Borsh structure |
| Wire.MessageRoundTrip | bee_shared/src/verifier.rs:37-124 | a byte string decodes to a header and structures exactly when it is their message and they fit the wire |
| Merkle.RootSplits | bee_miner/src/core/merkle.rs:36-42 | the root of more than one leaf is the hash of the root of the first 2^j and the root of the rest, for the greatest power of two below the count |
| Merkle.HasSplit | bee_miner/src/core/merkle.rs:36-42 | every count above one has that power |
| Merkle.OneLeafFolds | bee_verifier/src/verifier.rs:38-60 | the proof of one leaf passes the textbook fold by the parity of its place |
| Merkle.ProofBegins | bee_miner/src/core/merkle.rs:52-69 | a proof lists the missing siblings row by row, the left one first |
| Merkle.ProofRecomputesRoot | bee_miner/src/core/merkle.rs:52-69 | for every leaf count and window, the window and its proof recompute the committed root |
| Merkle.ProofHasSize | bee_miner/src/core/merkle.rs:64-65 | the number of hashes depends only on the leaf count and the window |
| Merkle.ProofSizeBounds | bee_miner/src/core/merkle.rs:64-65 | at most two hashes a row, and none exactly when the window is the whole tree |
| Merkle.HeightIsLogarithmic | bee_miner/src/core/merkle.rs:64-65 | a tree of at most 2^k leaves has at most k rows above them |
| Merkle.RootBindsWindow | bee_verifier/src/verifier.rs:38-60 | any chunk and hashes that recompute the root at a window are that window and its proof, or exhibit a collision |
| Mining.MerkleProcessor.AddLeaf | bee_miner/src/core/merkle.rs:32-34 | appends the leaf's Merkle hash to the uncommitted ones only |
| Mining.MerkleProcessor.Commit | bee_miner/src/core/merkle.rs:75-77 | moves all uncommitted hashes behind the committed ones |
| Mining.MerkleProcessor.Clear | bee_miner/src/core/merkle.rs:71-73 | empties the tree |
| Mining.MerkleProcessor.GetProofInWindow | bee_miner/src/core/merkle.rs:52-69 | refuses exactly invalid windows; otherwise the returned window and proof recompute the committed root |
| Mining.FirstFromIsFirst | bee_miner/src/core/processor.rs:33-56 | the nonce found is the least that meets the threshold; none is found only if none exists |
| Mining.SearchNonce | bee_miner/src/core/processor.rs:34-55 | counting up from 0 finds that nonce |
| Mining.MiningCore.CalcHashBlake | bee_miner/src/core/processor.rs:33-56 | the leaf returned is the candidate with that nonce, and its Merkle hash goes into the tree |
| Mining.MiningCore.Admit | bee_miner/src/core/context.rs:56-73 | sets the deadline on the first call, then admits a reading exactly before the deadline, before commit and at or after the watermark |
| Mining.MiningCore.DoCompute | bee_miner/src/core/context.rs:56-86 | the state and outcome of one compute call; keeps the session invariant |
| Mining.MiningCore.DoGetMerkle | bee_miner/src/core/context.rs:88-97 | commits once and returns the hashes of all completed leaves and their root; keeps the invariant |
| Mining.MiningCore.DoGetProof | bee_miner/src/core/context.rs:99-114 | serves exactly the valid windows of a committed session and never slices out of range |
| Mining.MiningCore.DoReset | bee_miner/src/core/context.rs:116-122 | back to a new session with the same parameters |
| Mining.RunKeepsInv | bee_miner/src/core/context.rs:40-127 | after every sequence of calls: leaf i has index i and the session's seed, complexity and a hash meeting the threshold, Merkle leaf i is its Merkle hash, timestamps never decrease and stay below the deadline |
| Mining.MinedLeafIsTheTap | bee_miner/src/core/context.rs:73-85 | a mined leaf carries the tap's coordinates and time and the least fitting nonce, and goes to the end of both lists |
| Mining.EveryRunIsSound | bee_miner/src/core/context.rs:99-114 | every leaf verifies exactly when the complexity is below 128; proofs exist exactly for valid windows of a committed session |
| Mining.ProofMatchesData | bee_miner/src/core/context.rs:99-114 | a proof carries the leaves of its window, and the hashes it proves are theirs |
| Mining.FirstRefusedExactly | bee_miner/src/core/context.rs:56-64 | the first reading is refused exactly with no duration or at the top of the clock |
| Mining.NextRefusedExactly | bee_miner/src/core/context.rs:60-73 | after a leaf, a reading is refused exactly when it is earlier than that leaf or past the deadline |
| Mining.RootFrozenUntilReset | bee_miner/src/core/context.rs:64-97 | once committed, no call but reset changes the leaves or the root |
| Mining.SpanBelowDuration | bee_miner/src/core/context.rs:57-73 | in every run, on a clock that may go back, no two leaves are as far apart as the duration, if duration and first reading meet `StartBounds` |
| Mining.SpanBelowExactly | bee_miner/src/core/context.rs:57-73 | that condition is exact wherever the nonce searches of two leaves of the session end: else a run given by name has a span of the duration or more |
| Verifier.HonestProofValidates | bee_verifier/src/verifier.rs:29-63 | an honest window's proof is accepted exactly when the window is not a whole tree of several leaves |
| Verifier.FlattenAt | bee_miner/src/core/merkle.rs:64-65 | hash i of a proof is its bytes from 32 i on |
| Verifier.HonestWindow | bee_verifier/src/lib.rs:99-125 | so is its proof together with its leaves |
| Verifier.HonestSessionVerdict | bee_verifier/src/lib.rs:22-96 | for every run of both cores and all valid windows the request decodes, nothing underflows, and the reply is success, the verdict, and the block count; the span stays below the duration under the condition on the first reading |
| Verifier.WrittenRequest | bee_verifier/src/lib.rs:22-27 | a request is answered from exactly the structures it was written from |
| Verifier.UndecodableRequest | bee_verifier/src/lib.rs:23-27 | what is not the encoding of a request is answered with the bytes of error 100 |
| Verifier.ErrorReplies | bee_verifier/src/error.rs:1-26 | the six error replies byte by byte |
| Verifier.ProofErrorsExactly | bee_verifier/src/verifier.rs:38-60 | which proofs err and with which code; an empty proof never does |
| Verifier.FirstErrorDecides | bee_verifier/src/lib.rs:28-84 | of the four checks the first that errs decides the reply; missing leaves are noticed last |
| Verifier.EmptyProofExactly | bee_verifier/src/verifier.rs:30-36 | an empty proof is accepted exactly for the chunk that is the root, whatever count and window |
| Verifier.RootAcceptedAnywhere | bee_verifier/src/verifier.rs:30-36 | so the root is accepted as every window, and is that window exactly where it is a leaf that is the root |
| Verifier.AcceptedChunkIsCommitted | bee_verifier/src/verifier.rs:29-63 | a chunk accepted against the committed root and count is the committed window exactly when the proof is not empty or the window is a leaf that is the root; or two inputs with one hash are exhibited |
| Verifier.LeavesCommittedExactly | bee_verifier/src/lib.rs:99-125 | in those cases the leaves sent are the committed ones exactly when their Merkle hashes are the hashes the proof was checked with, or two inputs with one hash are exhibited |
| Verifier.RequestValidExactly | bee_verifier/src/lib.rs:22-96 | a request is answered valid exactly when each of its four chunks and each of its four leaf lists is accepted by itself; the count then is that between the first and the last leaf sent |
| Verifier.ValidRequestShowsWork | bee_shared/src/miner/leaf.rs:95-130 | any bytes answered valid are a request whose every leaf, in all four lists, has the header's seed and complexity, its own hash, and a hash that shows the work |
| Verifier.NoProofsValidExactly | bee_verifier/src/verifier.rs:30-36 | with empty proofs only, exactly when every chunk is its root and every leaf verifies; counts and windows play no part |
| Verifier.CountFollowsSentLeaf | bee_verifier/src/lib.rs:67-95 | the leaf sent with the last proof of an otherwise honest request is not compared with the tree: its own check decides the verdict and its time the block count |
| WorkerPool.SegmentMoves | bee_miner/src/wasm/worker.rs:95-278 | status moves with the phase, the submission phase is entered only from the slot wait with no submitter, and no segment taps its own worker |
| WorkerPool.AtMostOneSubmitter | bee_miner/src/wasm/worker.rs:182-192 | in every interleaving at most one worker is between sending its root and finishing |
| WorkerPool.DroppedNeverSubmits | bee_miner/src/wasm/miner.rs:239-260 | a worker dropped while queued stays unregistered, untapped while it runs, and never submits |
| WorkerPool.SeedsConserved | bee_miner/src/wasm/miner.rs:204-265 | in every run each seed is queued, held, used or removed as often as it was initial or announced |
| WorkerPool.NoSeedMinedTwice | bee_miner/src/wasm/worker.rs:175-180 | a seed that came in once is never held by two unfinished workers |
| WorkerPool.NotQueuedWhileHeld | bee_miner/src/wasm/worker.rs:175-180 | such a seed is neither queued, used nor removed while an unfinished worker holds it |
| WorkerPool.UsedExactly | bee_miner/src/wasm/worker.rs:175-278 | in every run a seed was used up as often as a worker with leaves in both trees has finished with it |
| WorkerPool.PollQueueExactly | bee_miner/src/wasm/worker.rs:175-180 | a poll puts a seed in front exactly when its worker sealed an empty tree, and else leaves the queue alone |
| WorkerPool.PollUsesExactly | bee_miner/src/wasm/worker.rs:194-278 | a seed is used up exactly when its worker closes its submission |
| WorkerPool.SubmissionMoves | bee_miner/src/wasm/worker.rs:194-278 | which sends and commands close a submission, send the proof or wait on |
| WorkerPool.HashingMoves | bee_miner/src/wasm/worker.rs:131-160 | what one round of the computation loop counts and reads, and when it ends |
| WorkerPool.SegmentProgress | bee_miner/src/wasm/worker.rs:95-278 | every segment brings a worker nearer to its end unless it hashes, waits for the slot or waits for the command |
| WorkerPool.StopReachesAll | bee_miner/src/wasm/miner.rs:239-248 | every registered computing worker gets Stop and no other; exactly the queued ones are dropped |
| WorkerPool.RemovedIsGone | bee_miner/src/wasm/miner.rs:262-265 | a removed seed is gone and all others stay as often as they were |
| WorkerPool.RemovalKeepsOrder | bee_miner/src/wasm/miner.rs:262-265 | in the order they were |
| WorkerPool.StartTakesFront | bee_miner/src/wasm/miner.rs:204-232 | start takes the front seed, and an announced seed goes behind all others |
| WorkerPool.Miner.Start | bee_miner/src/wasm/miner.rs:197-237 | refused exactly while a worker computes or without seeds; otherwise takes the front seed; keeps the pool invariant |
| WorkerPool.Miner.StopAll | bee_miner/src/wasm/miner.rs:239-248 | drops queued workers and sends Stop to every computing one; keeps the invariant |
| WorkerPool.Miner.AddTap | bee_miner/src/wasm/miner.rs:250-260 | reaches the computing worker that was started first, and fails exactly when none computes; keeps the invariant |
| WorkerPool.Miner.RemoveSeed | bee_miner/src/wasm/miner.rs:262-265 | removes every queued copy of the seed; keeps the invariant |
| WorkerPool.Miner.Poll | bee_miner/src/wasm/worker.rs:95-278 | one segment of a worker on the shared queue and registry; keeps the invariant |
| SessionComplexity.KnownSeedsExactly | bee_miner/src/core/session_complexity.rs:34-50 | a pair is given exactly for the two seeds the contract knows |
| SessionComplexity.CurrentSeedMatches | bee_miner/src/core/session_complexity.rs:21-40 | the current seed gets what it will be checked with, under any number of changes |
| SessionComplexity.NextSeedMatchesExactly | bee_miner/src/core/session_complexity.rs:29-50 | for any flag, changes and way of rotating: the next seed matches exactly when the pair the flag picks is the pair the rotation leaves |
| SessionComplexity.RightFlagMatches | bee_miner/src/core/session_complexity.rs:29-33 | if the flag foretells the rotation: always after a cancel, and after an accept exactly when the last change before it left the pair as read |
| SessionComplexity.WrongFlagMatches | bee_miner/src/wasm/worker.rs:112-115 | if it does not, and nothing changes in between: exactly when old and new pair are equal |
| SessionComplexity.InFlightThenCancelled | bee_miner/src/core/session_complexity.rs:29-50 | the failing input: new pair (1, 12), old pair (1, 11), a session in flight that is cancelled; mined with the first, checked with the second |
| RateLimiter.Limiter.Acquire | bee_infra/src/rate_limiter.rs:61-79 | the caller waits exactly until its slot, and the next slot is an interval later |
| RateLimiter.SlotsAdmissible | bee_infra/src/rate_limiter.rs:61-79 | for every sequence of readings, slots are not before their arrivals and j - i intervals apart |
| RateLimiter.SlotsEarliest | bee_infra/src/rate_limiter.rs:61-79 | no admissible schedule has any slot earlier |
| RateLimiter.WindowHolds | bee_infra/src/rate_limiter.rs:61-79 | a window of W ms holds at most W/interval slots, rounded up |
| RateLimiter.BurstBreaksRate | bee_infra/src/rate_limiter.rs:42-79 | if max_rps does not divide 1000, max_rps + 1 calls at any time, from any state of the bucket, get slots within one second |
| RateLimiter.RateKeptExactly | bee_infra/src/rate_limiter.rs:42-54 | at most max_rps slots in every 1000 ms for all call sequences, if and only if max_rps divides 1000 |
| Resend.WithQueueOverflowRetry | bee_infra/src/message_delivery.rs:44-82 | returns the reply of its last send verbatim, and which send is the last |
| Resend.LastSendIsLast | bee_infra/src/message_delivery.rs:63-81 | every send before the last asked for a retry, and the last did not |
| Resend.BoundedAndBeforeExpiry | bee_infra/src/message_delivery.rs:57-81 | at most 31 sends for any peer and clock; each retry follows an overflow and is scheduled strictly before the expiry |
| Resend.Proxy.RecordAttempt | tools/queue_overflow_proxy/src/lib.rs:175-195 | counts the sends of each message by itself and records id, body hash, count, time and whether it is forwarded |
| Resend.Proxy.Receive | tools/queue_overflow_proxy/src/lib.rs:149-158 | overflows exactly the first fail_first sends of a message |
| Resend.DeliveredExactly | bee_infra/src/message_delivery.rs:44-82 | against that peer, delivered exactly if k = 0, or an expiry is set, k is at most 30 and t0 + 1000 k is before it; then by send k + 1 |
| Retry.BackoffIsIdeal | bee_infra/src/retry.rs:125-133 | the 64-bit delay is min(base * 2^(attempt-1), cap) over unbounded integers, never decreases, and with jitter stays between that and the cap |
| Retry.CappedGrowth | bee_infra/src/retry.rs:128-130 | checked shift and saturating product lose nothing under the cap |
| Retry.WithRetryPolicy | bee_infra/src/retry.rs:82-123 | at most max_attempts calls, the last result returned verbatim, every earlier one a retryable error within the budget, and the fallback never reached |

## Left out

- X25519, HKDF, XChaCha20-Poly1305, Ed25519 and BLAKE3 are symbolic or parameters; malformed stored roots and secrets are not values of the model.
- JSON text and base64url are taken as inverse pairs; an envelope is the record they carry, and session ids carry no surrounding white space.
- Typed bodies of wallet-side messages (bee_wallet/src/services/connect.rs:450-499): only whether the body decrypted matters to the session.
- AcceptConnect leaves out the on-chain profile checks between key exchange and hello.
- rs_merkle is modelled by its tree rule; a proof with too few hashes or a window outside the tree is taken as refused, surplus hashes as ignored.
- Mining.SearchNonce: a search without any fitting nonce ends with `None`, where the source searches for ever; whether a nonce exists depends on the hash.
- Mining.MiningCore.CalcHashBlake: hashes and compares inside the test it hands to the search.
- Mining.RunKeepsInv: leaf indices are stated modulo 2^128, beyond the length of any vector.
- WorkerPool ids are distinct by construction, where the source draws them at random; at most one computing worker is not claimed.
- RateLimiter.Limiter.Acquire: times are unbounded naturals, so the overflow of a 64-bit millisecond clock is not modelled; sleeping itself is not modelled.
- Retry: the rate limiter acquired before each attempt and the pseudo-random jitter generator are parameters.
- The miner contract, known here only through the comments of session_complexity.rs, is modelled as those comments describe it.
- Active-session paging, bee_crypto, and the wallet's deploy, token, multifactor, zkp, multisig and balance modules are mostly sequences of network calls.
- wasm, native and dto adapters, bindings, error texts, command-line tools and the example page.
