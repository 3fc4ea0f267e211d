/**
  Session state and per-message re-keying (bee_connect/src/dh.rs).

  Cryptography is symbolic. A secret is its identity, a public key is the point of a secret
  (or a string the code refuses), a shared secret is the unordered pair of both secrets, and
  a root is the free term of the HKDF calls that made it, so distinct derivations are distinct.
 */
module ConnectSession {
  import opened Prelude

  type Secret = nat

  datatype DhPublic = Point(secret: Secret) | LowOrder | Malformed

  datatype SharedSecret = Shared(lo: Secret, hi: Secret)

  datatype Root =
    | InitialRoot(shared: SharedSecret, sessionId: string)
    | RekeyRoot(parent: Root, shared: SharedSecret, sessionId: string)

  datatype SigningKey = SigningKey(shared: SharedSecret, sessionId: string)

  const SESSION_TTL_SECS: u64 := 24 * 60 * 60

  datatype SessionState = SessionState(
    encryptionRoot: Root,
    myDhSecret: Secret,
    peerDhPublic: DhPublic,
    signing: SigningKey,
    createdAt: u64,
    expiresAt: u64,
    lastSeenSeq: u64,
    lastSentSeq: u64)
  {
    /** `expires_at == 0` marks a session that never expires. */
    predicate IsExpired(now: u64) {
      expiresAt != 0 && now >= expiresAt
    }

    /** Release arithmetic: `last_sent_seq + 1` wraps at the top of u64. */
    function NextOutboundSeq(nowMs: u64): u64 {
      var next := (lastSentSeq + 1) % U64_LIMIT;
      if nowMs >= next then nowMs else next
    }
  }

  datatype RekeyError = Expired | ZeroSeq | NotIncreasing | Replay | BadPeerKey

  datatype Rekeyed = Rekeyed(messageRoot: Root, newDhPublic: Option<DhPublic>, updated: SessionState, outboundSeq: u64)

  /** X25519: refuses keys that do not decode and points that give the all-zero secret. */
  function ComputeSharedSecret(mine: Secret, theirs: DhPublic): Result<SharedSecret, RekeyError> {
    match theirs
    case Point(s) => Ok(if mine <= s then Shared(mine, s) else Shared(s, mine))
    case LowOrder => Err(BadPeerKey)
    case Malformed => Err(BadPeerKey)
  }

  function CreateInitialState(shared: SharedSecret, sessionId: string, mine: Secret, peer: DhPublic, now: u64)
    : SessionState
  {
    SessionState(
      InitialRoot(shared, sessionId), mine, peer, SigningKey(shared, sessionId),
      now, (now + SESSION_TTL_SECS) % U64_LIMIT, 0, 0)
  }

  /** `ephemeral` is the secret of the key pair that the call generates. */
  function RekeyOutbound(st: SessionState, sessionId: string, seqNo: u64, ephemeral: Secret, now: u64)
    : Result<Rekeyed, RekeyError>
  {
    if st.IsExpired(now) then Err(Expired)
    else if seqNo == 0 then Err(ZeroSeq)
    else if seqNo <= st.lastSentSeq then Err(NotIncreasing)
    else
      match ComputeSharedSecret(ephemeral, st.peerDhPublic)
      case Err(e) => Err(e)
      case Ok(shared) =>
        var root := RekeyRoot(st.encryptionRoot, shared, sessionId);
        Ok(Rekeyed(root, Some(Point(ephemeral)),
                   st.(encryptionRoot := root, myDhSecret := ephemeral, lastSentSeq := seqNo), seqNo))
  }

  function RekeyInbound(st: SessionState, peer: DhPublic, sessionId: string, seqNo: u64, now: u64)
    : Result<Rekeyed, RekeyError>
  {
    if st.IsExpired(now) then Err(Expired)
    else if seqNo == 0 then Err(ZeroSeq)
    else if seqNo <= st.lastSeenSeq then Err(Replay)
    else
      match ComputeSharedSecret(st.myDhSecret, peer)
      case Err(e) => Err(e)
      case Ok(shared) =>
        var root := RekeyRoot(st.encryptionRoot, shared, sessionId);
        Ok(Rekeyed(root, None, st.(encryptionRoot := root, peerDhPublic := peer, lastSeenSeq := seqNo), 0))
  }

  /** Two ends of one session: same root, each holds the other's public key, no seq is ahead of its sender. */
  ghost predicate Matched(a: SessionState, b: SessionState) {
    && a.encryptionRoot == b.encryptionRoot
    && a.signing == b.signing
    && a.peerDhPublic == Point(b.myDhSecret)
    && b.peerDhPublic == Point(a.myDhSecret)
    && a.lastSeenSeq <= b.lastSentSeq
    && b.lastSeenSeq <= a.lastSentSeq
  }

  /** What no re-key may touch (signing keys and lifetime). */
  ghost predicate SameSession(a: SessionState, b: SessionState) {
    a.signing == b.signing && a.createdAt == b.createdAt && a.expiresAt == b.expiresAt
  }

  function Depth(r: Root): nat {
    match r
    case InitialRoot(_, _) => 0
    case RekeyRoot(p, _, _) => Depth(p) + 1
  }

  /** Both ends compute one shared secret; a secret and the result determine the other key. */
  lemma {:induction false} SharedSecretLaws(a: Secret, b: Secret, p: DhPublic, q: DhPublic)
    ensures ComputeSharedSecret(a, Point(b)) == ComputeSharedSecret(b, Point(a))
    ensures ComputeSharedSecret(a, p).Ok? && ComputeSharedSecret(a, p) == ComputeSharedSecret(a, q) ==> p == q
  {
  }

  /**
    One message keeps both ends matched: whatever the sender's clock and ephemeral key, the receiver's
    re-key of that message succeeds unless its session expired, gives the sender's root, and ends matched.
   */
  lemma {:induction false} RekeyAgreement(
    tx: SessionState, rx: SessionState, sessionId: string, seqNo: u64, ephemeral: Secret, txNow: u64, rxNow: u64)
    requires Matched(tx, rx)
    requires RekeyOutbound(tx, sessionId, seqNo, ephemeral, txNow).Ok?
    ensures RekeyInbound(rx, Point(ephemeral), sessionId, seqNo, rxNow).Ok? <==> !rx.IsExpired(rxNow)
    ensures !rx.IsExpired(rxNow) ==>
              var sent := RekeyOutbound(tx, sessionId, seqNo, ephemeral, txNow).value;
              var got := RekeyInbound(rx, Point(ephemeral), sessionId, seqNo, rxNow).value;
              && got.messageRoot == sent.messageRoot
              && Matched(sent.updated, got.updated)
              && SameSession(sent.updated, tx) && SameSession(got.updated, rx)
  {
    SharedSecretLaws(ephemeral, rx.myDhSecret, LowOrder, LowOrder);
  }

  /**
    The next seq is above every seq sent before exactly when the counter is not at the top of u64,
    for any clock; at the top the re-key refuses instead of reusing a seq.
   */
  lemma {:induction false} NextSeqStrictlyIncreases(
    st: SessionState, nowMs: u64, sessionId: string, ephemeral: Secret, now: u64)
    ensures st.NextOutboundSeq(nowMs) > st.lastSentSeq <==> st.lastSentSeq != U64_MAX
    ensures var r := RekeyOutbound(st, sessionId, st.NextOutboundSeq(nowMs), ephemeral, now);
            r.Ok? <==> !st.IsExpired(now) && st.lastSentSeq != U64_MAX && st.peerDhPublic.Point?
  {
  }

  /**
    A new session lives from when it is made for exactly 24 hours, wherever that time is below the top of the
    clock; a stored session without an expiry never ends.
   */
  lemma {:induction false} ExpiryExactly(
    shared: SharedSecret, sessionId: string, mine: Secret, peer: DhPublic, now: u64, t: u64, st: SessionState)
    ensures now + 86400 < U64_LIMIT ==>
              (CreateInitialState(shared, sessionId, mine, peer, now).IsExpired(t) <==> t >= now + 86400)
    ensures st.expiresAt == 0 ==> !st.IsExpired(t)
  {
  }

  /** The next seq is the least that is not below the clock and above all sent ones. */
  lemma {:induction false} NextSeqIsLeast(st: SessionState, nowMs: u64, other: u64)
    requires st.lastSentSeq != U64_MAX
    ensures var next := st.NextOutboundSeq(nowMs);
            && nowMs <= next && st.lastSentSeq < next
            && (nowMs <= other && st.lastSentSeq < other ==> next <= other)
  {
  }
}
