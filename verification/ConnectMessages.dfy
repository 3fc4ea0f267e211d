/**
  Envelopes on the shared log, sealing and opening their bodies, and the one step in which a
  party takes a message in: re-key, then open with the new root.
 */
module ConnectMessages {
  import opened Prelude
  import opened ConnectSession

  const MESSAGE_VERSION := "bee_connect.msg/1"
  const C2W := "c2w"
  const W2C := "w2c"
  const WALLET_HELLO := "wallet_hello"
  const SET_MINING_KEYS := "set_mining_keys"
  const CHALLENGE_RESPONSE := "challenge_response"

  /** What the AEAD authenticates besides the body; the version is a constant. */
  datatype Aad = Aad(sessionId: string, dir: string, seqNo: u64, msgType: string, ts: u64)

  datatype HelloBody = HelloBody(
    walletName: string,
    walletAddress: string,
    nonce: Option<string>,
    signature: Option<string>,
    epkPublic: Option<string>)

  datatype KeysBody = KeysBody(appId: string, ownerPublic: string)

  datatype ResponseBody = ResponseBody(
    nonce: string,
    signature: string,
    walletAddress: string,
    epkPublic: Option<string>)

  /** A decrypted JSON value, by what each typed deserialisation of it gives. */
  datatype Json = Json(
    text: string,
    asHello: Option<HelloBody>,
    asKeys: Option<KeysBody>,
    asResponse: Option<ResponseBody>)

  /**
    A message body: without encryption, under an unknown algorithm, unreadable before the AEAD runs
    (missing nonce or salt, bad base64url), or an AEAD ciphertext that opens only under its own root and AAD.
   */
  datatype Body =
    | Unencrypted
    | OtherAlgorithm
    | Unreadable
    | Sealed(root: Root, aad: Aad, plain: Option<Json>)

  datatype Envelope = Envelope(
    v: string,
    sessionId: string,
    dir: string,
    seqNo: u64,
    msgType: string,
    ts: Option<u64>,
    dhPublic: Option<DhPublic>,
    body: Body)

  /** `decode_connect_message_body`: the JSON value, if the body opens under `root` and is JSON. */
  function DecodeBody(env: Envelope, root: Root): Option<Json> {
    if env.body.Sealed? && env.ts.Some? && env.body.root == root
       && env.body.aad == Aad(env.sessionId, env.dir, env.seqNo, env.msgType, env.ts.value)
    then env.body.plain
    else None
  }

  /** A message taken in: the state after its re-key and its body. */
  datatype Taken = Taken(state: SessionState, body: Json)

  /** Version, session and direction fit, and the envelope carries a key to re-key with. */
  predicate Addressed(env: Envelope, sessionId: string, dir: string) {
    env.v == MESSAGE_VERSION && env.sessionId == sessionId && env.dir == dir && env.dhPublic.Some?
  }

  /** Re-key and open: the state moves only if the body really opened under the re-keyed root. */
  function TakeIn(st: SessionState, sessionId: string, dir: string, env: Envelope, now: u64): Option<Taken> {
    if !Addressed(env, sessionId, dir) then None
    else
      match RekeyInbound(st, env.dhPublic.value, sessionId, env.seqNo, now)
      case Err(_) => None
      case Ok(rekey) =>
        match DecodeBody(env, rekey.messageRoot)
        case None => None
        case Some(body) => Some(Taken(rekey.updated, body))
  }

  /** What a caller chooses and the environment supplies for one outbound message. */
  datatype Draft = Draft(msgType: string, body: Json, ephemeral: Secret, nowMs: u64, nowSecs: u64)

  datatype Outgoing = Outgoing(env: Envelope, updated: SessionState)

  /** Next seq, outbound re-key and `encode_connect_message`, as every sending call strings them together. */
  function Send(st: SessionState, sessionId: string, dir: string, d: Draft): Option<Outgoing> {
    match RekeyOutbound(st, sessionId, st.NextOutboundSeq(d.nowMs), d.ephemeral, d.nowSecs)
    case Err(_) => None
    case Ok(r) =>
      if IsBlank(sessionId) || IsBlank(dir) || IsBlank(d.msgType) then None
      else
        var aad := Aad(sessionId, dir, r.outboundSeq, d.msgType, d.nowSecs);
        Some(Outgoing(
               Envelope(MESSAGE_VERSION, sessionId, dir, r.outboundSeq, d.msgType, Some(d.nowSecs),
                        r.newDhPublic, Sealed(r.messageRoot, aad, Some(d.body))),
               r.updated))
  }

  /** A sent message is taken in by the matched peer, unchanged, and leaves the two ends matched. */
  lemma {:induction false} SendThenTakeIn(
    tx: SessionState, rx: SessionState, sessionId: string, dir: string, d: Draft, now: u64)
    requires Matched(tx, rx) && Send(tx, sessionId, dir, d).Some? && !rx.IsExpired(now)
    ensures var out := Send(tx, sessionId, dir, d).value;
            var got := TakeIn(rx, sessionId, dir, out.env, now);
            && got.Some? && got.value.body == d.body
            && got.value.state == rx.(encryptionRoot := out.updated.encryptionRoot,
                                      peerDhPublic := Point(d.ephemeral), lastSeenSeq := out.env.seqNo)
            && Matched(out.updated, got.value.state)
            && SameSession(out.updated, tx) && SameSession(got.value.state, rx)
  {
    RekeyAgreement(tx, rx, sessionId, tx.NextOutboundSeq(d.nowMs), d.ephemeral, d.nowSecs, now);
  }

  /** Taking a message in needs a seal under a root derived from the receiver's root by the envelope's key. */
  lemma {:induction false} TakeInNeedsDerivedRoot(
    st: SessionState, sessionId: string, dir: string, env: Envelope, now: u64)
    requires TakeIn(st, sessionId, dir, env, now).Some?
    ensures var t := TakeIn(st, sessionId, dir, env, now).value;
            && Addressed(env, sessionId, dir) && !st.IsExpired(now) && st.lastSeenSeq < env.seqNo
            && env.body.Sealed? && env.ts.Some?
            && ComputeSharedSecret(st.myDhSecret, env.dhPublic.value).Ok?
            && env.body.root == RekeyRoot(st.encryptionRoot,
                                          ComputeSharedSecret(st.myDhSecret, env.dhPublic.value).value, sessionId)
            && env.body.aad == Aad(sessionId, dir, env.seqNo, env.msgType, env.ts.value)
            && env.body.plain == Some(t.body)
            && t.state == st.(encryptionRoot := env.body.root,
                              peerDhPublic := env.dhPublic.value, lastSeenSeq := env.seqNo)
  {
  }
}
