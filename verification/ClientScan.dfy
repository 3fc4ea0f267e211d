/**
  The client's scans of the log (bee_connect/src/client.rs:1314-1654) and the handshake.
  A scan looks at every event from the same starting state and stops at the first full success.
 */
module ClientScan {
  import opened Prelude
  import opened ConnectSession
  import opened ConnectMessages
  import opened ConnectPayload
  import HalfDuplex
  import opened PendingMessages
  import opened WalletScan

  /** What a scan makes of one event; `Skipped` candidates are counted nowhere. */
  datatype Verdict<F> =
    | NoParse
    | Filtered
    | Skipped
    | NoDhKey
    | RekeyFailed
    | DecryptFailed
    | BodyFailed
    | Found(value: F)

  datatype Hit<B> = Hit(eventId: string, createdAt: u64, env: Envelope, body: B, state: SessionState)

  datatype Failure =
    | SessionExpired
    | NoneSucceeded(parse: nat, noDh: nat, rekey: nat, decrypt: nat, body: nat)
  {
    /** The error text carries the `session_desync` prefix. */
    predicate IsDesync() {
      NoneSucceeded? && decrypt > 0
    }
  }

  // --- What each scan makes of one event ---

  predicate IsFor(env: Envelope, sessionId: string, dir: string, msgType: string) {
    env.v == MESSAGE_VERSION && env.sessionId == sessionId && env.dir == dir && env.msgType == msgType
  }

  function ResponseVerdict(st: Option<SessionState>, sessionId: string, s: Sighting): Verdict<Hit<ResponseBody>> {
    if !s.text.IsEnvelope? then NoParse
    else
      var env := s.text.env;
      if !IsFor(env, sessionId, W2C, CHALLENGE_RESPONSE) then Filtered
      else if st.None? || env.dhPublic.None? then Skipped
      else
        match RekeyInbound(st.value, env.dhPublic.value, sessionId, env.seqNo, s.now)
        case Err(_) => RekeyFailed
        case Ok(rekey) =>
          match DecodeBody(env, rekey.messageRoot)
          case None => DecryptFailed
          case Some(json) =>
            match json.asResponse
            case None => BodyFailed
            case Some(body) => Found(Hit(s.eventId, s.createdAt, env, body, rekey.updated))
  }

  function KeysVerdict(st: Option<SessionState>, sessionId: string, s: Sighting): Verdict<Hit<KeysBody>> {
    if !s.text.IsEnvelope? then Filtered
    else
      var env := s.text.env;
      if !IsFor(env, sessionId, C2W, SET_MINING_KEYS) then Filtered
      else if st.None? || env.dhPublic.None? then Skipped
      else
        match RekeyInbound(st.value, env.dhPublic.value, sessionId, env.seqNo, s.now)
        case Err(_) => RekeyFailed
        case Ok(rekey) =>
          match DecodeBody(env, rekey.messageRoot)
          case None => DecryptFailed
          case Some(json) =>
            match json.asKeys
            case None => BodyFailed
            case Some(raw) =>
              match (NormalizeUint256Hex(raw.appId), NormalizeOwnerPublicHex(raw.ownerPublic))
              case (Some(appId), Some(owner)) =>
                Found(Hit(s.eventId, s.createdAt, env, KeysBody(appId, owner), rekey.updated))
              case _ => BodyFailed
  }

  /** A hello's missing DH key has a count of its own; a refused one counts as `RekeyFailed`. */
  function HelloVerdict(clientSecret: Secret, sessionId: string, s: Sighting): Verdict<Hit<HelloBody>> {
    if !s.text.IsEnvelope? then Filtered
    else
      var env := s.text.env;
      if !IsFor(env, sessionId, W2C, WALLET_HELLO) || env.seqNo == 0 then Filtered
      else if env.dhPublic.None? then NoDhKey
      else
        match ComputeSharedSecret(clientSecret, env.dhPublic.value)
        case Err(_) => RekeyFailed
        case Ok(shared) =>
          match DecodeBody(env, InitialRoot(shared, sessionId))
          case None => DecryptFailed
          case Some(json) =>
            match json.asHello
            case None => BodyFailed
            case Some(body) =>
              var st := CreateInitialState(shared, sessionId, clientSecret, env.dhPublic.value, s.now);
              Found(Hit(s.eventId, s.createdAt, env, body, st.(lastSeenSeq := env.seqNo)))
  }

  // --- The scans ---

  function Tally<F(==)>(vs: seq<Verdict<F>>): Failure {
    var all := multiset(vs);
    NoneSucceeded(all[NoParse], all[NoDhKey], all[RekeyFailed], all[DecryptFailed], all[BodyFailed])
  }

  /** The first full success if there is one; else an error with the exact tally if any candidate failed. */
  ghost predicate IsOutcome<F>(vs: seq<Verdict<F>>, r: Result<Option<F>, Failure>) {
    if exists k :: 0 <= k < |vs| && vs[k].Found?
    then exists k :: && 0 <= k < |vs| && vs[k].Found? && (forall i | 0 <= i < k :: !vs[i].Found?)
                     && r == Ok(Some(vs[k].value))
    else if Tally(vs) == NoneSucceeded(0, 0, 0, 0, 0) then r == Ok(None)
    else r == Err(Tally(vs))
  }

  function ResponseVerdicts(st: Option<SessionState>, sessionId: string, page: seq<Sighting>)
    : seq<Verdict<Hit<ResponseBody>>>
  {
    seq(|page|, i requires 0 <= i < |page| => ResponseVerdict(st, sessionId, page[i]))
  }

  function KeysVerdicts(st: Option<SessionState>, sessionId: string, page: seq<Sighting>): seq<Verdict<Hit<KeysBody>>> {
    seq(|page|, i requires 0 <= i < |page| => KeysVerdict(st, sessionId, page[i]))
  }

  function HelloVerdicts(clientSecret: Secret, sessionId: string, page: seq<Sighting>): seq<Verdict<Hit<HelloBody>>> {
    seq(|page|, i requires 0 <= i < |page| => HelloVerdict(clientSecret, sessionId, page[i]))
  }

  function Bump<F>(t: Failure, v: Verdict<F>): Failure
    requires t.NoneSucceeded?
  {
    match v
    case NoParse => t.(parse := t.parse + 1)
    case NoDhKey => t.(noDh := t.noDh + 1)
    case RekeyFailed => t.(rekey := t.rekey + 1)
    case DecryptFailed => t.(decrypt := t.decrypt + 1)
    case BodyFailed => t.(body := t.body + 1)
    case _ => t
  }

  lemma {:induction false} TallySnoc<F>(vs: seq<Verdict<F>>, i: nat)
    requires i < |vs|
    ensures Tally(vs[..i + 1]) == Bump(Tally(vs[..i]), vs[i])
  {
    assert vs[..i + 1] == vs[..i] + [vs[i]];
  }

  /** The places at which a verdict stands. */
  function PlacesOf<F(==)>(vs: seq<Verdict<F>>, v: Verdict<F>): set<nat> {
    set i: nat | 0 <= i < |vs| && vs[i] == v
  }

  lemma {:induction false} CountIsPlaces<F>(vs: seq<Verdict<F>>, v: Verdict<F>)
    ensures multiset(vs)[v] == |PlacesOf(vs, v)|
  {
    if vs == [] {
      assert PlacesOf(vs, v) == {};
    } else {
      var n := |vs| - 1;
      CountIsPlaces(vs[..n], v);
      CountSnoc(vs[..n], vs[n], v);
      PlacesSnoc(vs[..n], vs[n], v);
      assert vs == vs[..n] + [vs[n]];
    }
  }

  lemma {:induction false} CountSnoc<F>(vs: seq<Verdict<F>>, w: Verdict<F>, v: Verdict<F>)
    ensures multiset(vs + [w])[v] == multiset(vs)[v] + (if w == v then 1 else 0)
  {
  }

  lemma {:induction false} PlacesSnoc<F>(vs: seq<Verdict<F>>, w: Verdict<F>, v: Verdict<F>)
    ensures |PlacesOf(vs + [w], v)| == |PlacesOf(vs, v)| + (if w == v then 1 else 0)
  {
    var more := if w == v then {|vs|} else {};
    assert PlacesOf(vs + [w], v) == PlacesOf(vs, v) + more;
    assert PlacesOf(vs, v) !! more;
  }

  /** Each count is the number of events with that verdict. */
  lemma {:induction false} TallyCounts<F>(vs: seq<Verdict<F>>)
    ensures var t := Tally(vs);
            && t.NoneSucceeded?
            && t.parse == |PlacesOf(vs, NoParse)| && t.noDh == |PlacesOf(vs, NoDhKey)|
            && t.rekey == |PlacesOf(vs, RekeyFailed)| && t.decrypt == |PlacesOf(vs, DecryptFailed)|
            && t.body == |PlacesOf(vs, BodyFailed)|
  {
    CountIsPlaces(vs, NoParse);
    CountIsPlaces(vs, NoDhKey);
    CountIsPlaces(vs, RekeyFailed);
    CountIsPlaces(vs, DecryptFailed);
    CountIsPlaces(vs, BodyFailed);
  }

  lemma {:induction false} FirstIsOutcome<F>(vs: seq<Verdict<F>>, k: nat)
    requires k < |vs| && vs[k].Found? && forall i | 0 <= i < k :: !vs[i].Found?
    ensures IsOutcome(vs, Ok(Some(vs[k].value)))
  {
  }

  lemma {:induction false} TallyIsOutcome<F>(vs: seq<Verdict<F>>)
    requires forall i | 0 <= i < |vs| :: !vs[i].Found?
    ensures IsOutcome(vs, if Tally(vs) == NoneSucceeded(0, 0, 0, 0, 0) then Ok(None) else Err(Tally(vs)))
  {
  }

  /** The loop the three scans share: count failures, return at the first full success. */
  method FirstSuccess<F>(vs: seq<Verdict<F>>) returns (r: Result<Option<F>, Failure>)
    ensures IsOutcome(vs, r)
  {
    var parse, noDh, rekey, decrypt, body := 0, 0, 0, 0, 0;
    for i := 0 to |vs|
      invariant forall k | 0 <= k < i :: !vs[k].Found?
      invariant NoneSucceeded(parse, noDh, rekey, decrypt, body) == Tally(vs[..i])
    {
      TallySnoc(vs, i);
      match vs[i] {
        case NoParse => parse := parse + 1;
        case NoDhKey => noDh := noDh + 1;
        case RekeyFailed => rekey := rekey + 1;
        case DecryptFailed => decrypt := decrypt + 1;
        case BodyFailed => body := body + 1;
        case Found(hit) =>
          FirstIsOutcome(vs, i);
          return Ok(Some(hit));
        case _ =>
      }
    }
    assert vs[..|vs|] == vs;
    TallyIsOutcome(vs);
    r := if parse + noDh + rekey + decrypt + body > 0
    then Err(NoneSucceeded(parse, noDh, rekey, decrypt, body))
    else Ok(None);
  }

  /** Every event is judged from the caller's state, which no failed candidate moves. */
  method FindChallengeResponse(st: Option<SessionState>, sessionId: string, page: seq<Sighting>, now: u64)
    returns (r: Result<Option<Hit<ResponseBody>>, Failure>)
    ensures if st.Some? && st.value.IsExpired(now) then r == Err(SessionExpired)
            else IsOutcome(ResponseVerdicts(st, sessionId, page), r)
  {
    if st.Some? && st.value.IsExpired(now) {
      r := Err(SessionExpired);
    } else {
      r := FirstSuccess(ResponseVerdicts(st, sessionId, page));
    }
  }

  method FindSetMiningKeys(st: Option<SessionState>, sessionId: string, page: seq<Sighting>, now: u64)
    returns (r: Result<Option<Hit<KeysBody>>, Failure>)
    ensures if st.Some? && st.value.IsExpired(now) then r == Err(SessionExpired)
            else IsOutcome(KeysVerdicts(st, sessionId, page), r)
  {
    if st.Some? && st.value.IsExpired(now) {
      r := Err(SessionExpired);
    } else {
      r := FirstSuccess(KeysVerdicts(st, sessionId, page));
    }
  }

  method FindWalletHello(clientSecret: Secret, sessionId: string, page: seq<Sighting>)
    returns (r: Result<Option<Hit<HelloBody>>, Failure>)
    ensures IsOutcome(HelloVerdicts(clientSecret, sessionId, page), r)
  {
    r := FirstSuccess(HelloVerdicts(clientSecret, sessionId, page));
  }

  // --- Which pending message a client finds ---

  /** A success is a message taken in from the starting state. */
  lemma {:induction false} FoundIsTakenIn(st: SessionState, sessionId: string, s: Sighting)
    ensures ResponseVerdict(Some(st), sessionId, s).Found? <==>
            && s.text.IsEnvelope? && s.text.env.msgType == CHALLENGE_RESPONSE
            && TakeIn(st, sessionId, W2C, s.text.env, s.now).Some?
            && TakeIn(st, sessionId, W2C, s.text.env, s.now).value.body.asResponse.Some?
    ensures ResponseVerdict(Some(st), sessionId, s).Found? ==>
              var hit := ResponseVerdict(Some(st), sessionId, s).value;
              var taken := TakeIn(st, sessionId, W2C, s.text.env, s.now).value;
              hit.state == taken.state && Some(hit.body) == taken.body.asResponse
  {
  }

  /** Mining keys are found exactly when taken in with a body whose two values normalise, and come out normalised. */
  lemma {:induction false} KeysFoundAreTakenIn(st: SessionState, sessionId: string, s: Sighting)
    ensures var v := KeysVerdict(Some(st), sessionId, s);
            var t := if s.text.IsEnvelope? then TakeIn(st, sessionId, C2W, s.text.env, s.now) else None;
            && (v.Found? <==>
                  && s.text.IsEnvelope? && s.text.env.msgType == SET_MINING_KEYS && t.Some? && t.value.body.asKeys.Some?
                  && NormalizeUint256Hex(t.value.body.asKeys.value.appId).Some?
                  && NormalizeOwnerPublicHex(t.value.body.asKeys.value.ownerPublic).Some?)
            && (v.Found? ==>
                  && v.value.state == t.value.state
                  && Some(v.value.body.appId) == NormalizeUint256Hex(t.value.body.asKeys.value.appId)
                  && Some(v.value.body.ownerPublic) == NormalizeOwnerPublicHex(t.value.body.asKeys.value.ownerPublic))
  {
  }

  lemma {:induction false} SeenClimbs(
    rx: seq<SessionState>, m: seq<Envelope>, sessionId: string, dir: string, i: nat, j: nat)
    requires Pending(rx, m, sessionId, dir) && i <= j <= |m|
    ensures rx[i].lastSeenSeq <= rx[j].lastSeenSeq && rx[i].myDhSecret == rx[j].myDhSecret
  {
    if i == j {
    } else {
      SeenClimbs(rx, m, sessionId, dir, i, j - 1);
      assert !rx[0].IsExpired(0);
      TakeInNeedsDerivedRoot(rx[j - 1], sessionId, dir, m[j - 1], 0);
    }
  }

  /** A later pending challenge response passes the seq check and then does not decrypt. */
  lemma {:induction false} LaterResponseFailsToDecrypt(
    rx: seq<SessionState>, m: seq<Envelope>, sessionId: string, bodies: set<Body>, j: nat, s: Sighting)
    requires Pending(rx, m, sessionId, W2C) && OnlySenderSeals(rx, m, bodies)
    requires 0 < j < |m| && s.text == IsEnvelope(m[j]) && m[j].body in bodies
    requires m[j].msgType == CHALLENGE_RESPONSE && !rx[0].IsExpired(s.now)
    ensures ResponseVerdict(Some(rx[0]), sessionId, s) == DecryptFailed
  {
    TakeInNeedsDerivedRoot(rx[0], sessionId, W2C, m[0], s.now);
    TakeInNeedsDerivedRoot(rx[j], sessionId, W2C, m[j], s.now);
    SeenClimbs(rx, m, sessionId, W2C, 0, j);
    SeenClimbs(rx, m, sessionId, W2C, 1, j);
    OnlyNextIsTakenIn(rx, m, sessionId, W2C, bodies, 0, m[j], s.now);
  }

  /**
    On a page that lists the wallet's pending messages among anything else, the client finds a challenge
    response exactly when it is the earliest pending message and its body parses. A challenge response
    that is pending behind another message is never found: the scan ends in `session_desync`.
   */
  lemma {:induction false} ClientFindsOnlyTheEarliest(
    rx: seq<SessionState>, m: seq<Envelope>, sessionId: string, bodies: set<Body>, page: seq<Sighting>,
    r: Result<Option<Hit<ResponseBody>>, Failure>)
    requires Pending(rx, m, sessionId, W2C) && OnlySenderSeals(rx, m, bodies) && m != []
    requires BodiesOf(page) <= bodies && Unexpired(rx[0], page) && Lists(page, m)
    requires IsOutcome(ResponseVerdicts(Some(rx[0]), sessionId, page), r)
    ensures m[0].body.Sealed? && m[0].body.plain.Some?
    ensures r.Ok? && r.value.Some? <==> m[0].msgType == CHALLENGE_RESPONSE && m[0].body.plain.value.asResponse.Some?
    ensures r.Ok? && r.value.Some? ==>
              var hit := r.value.value;
              hit.env == m[0] && hit.state == rx[1] && Some(hit.body) == m[0].body.plain.value.asResponse
    ensures (exists j :: 0 < j < |m| && m[j].msgType == CHALLENGE_RESPONSE) && !(r.Ok? && r.value.Some?) ==>
              r.Err? && r.error.IsDesync()
  {
    var vs := ResponseVerdicts(Some(rx[0]), sessionId, page);
    assert !rx[0].IsExpired(0);
    TakeInNeedsDerivedRoot(rx[0], sessionId, W2C, m[0], 0);
    forall i | 0 <= i < |page|
      ensures vs[i].Found? <==> && page[i].text == IsEnvelope(m[0]) && m[0].msgType == CHALLENGE_RESPONSE
                                && m[0].body.plain.value.asResponse.Some?
      ensures vs[i].Found? ==> vs[i].value.env == m[0] && vs[i].value.state == rx[1]
      ensures vs[i].Found? ==> Some(vs[i].value.body) == m[0].body.plain.value.asResponse
    {
      FoundIsTakenIn(rx[0], sessionId, page[i]);
      if page[i].text.IsEnvelope? {
        assert page[i].text.env.body in BodiesOf(page);
        OnlyNextIsTakenIn(rx, m, sessionId, W2C, bodies, 0, page[i].text.env, page[i].now);
        if page[i].text.env == m[0] {
          TakeInNeedsDerivedRoot(rx[0], sessionId, W2C, m[0], page[i].now);
        }
      }
    }
    assert Shows(page, m[0]);
    var first :| 0 <= first < |page| && page[first].text == IsEnvelope(m[0]);
    assert vs[first].Found? <==> m[0].msgType == CHALLENGE_RESPONSE && m[0].body.plain.value.asResponse.Some?;
    if j :| 0 < j < |m| && m[j].msgType == CHALLENGE_RESPONSE {
      assert Shows(page, m[j]);
      var at :| 0 <= at < |page| && page[at].text == IsEnvelope(m[j]);
      assert page[at].text.env.body in BodiesOf(page);
      LaterResponseFailsToDecrypt(rx, m, sessionId, bodies, j, page[at]);
      assert vs[at] in multiset(vs);
    }
  }

  /**
    End to end, on what the wallet sends in a row to its matched client, listed in any order among any events:
    the client finds a challenge response exactly when the wallet's first message is one that parses. It
    then holds that response and is matched with the wallet as it was after sending it. Otherwise a
    challenge response sent later ends the scan in `session_desync`.
   */
  lemma {:induction false} ClientScanOfSent(
    wallet: SessionState, client: SessionState, sessionId: string, ds: seq<Draft>, bodies: set<Body>,
    page: seq<Sighting>, r: Result<Option<Hit<ResponseBody>>, Failure>)
    requires Matched(wallet, client) && !IsBlank(sessionId)
    requires ds != [] && SendAll(wallet, sessionId, W2C, ds).Some?
    requires var m := SendAll(wallet, sessionId, W2C, ds).value.0;
             && NoStrangerSeals(client.encryptionRoot, m, bodies)
             && BodiesOf(page) <= bodies && Unexpired(client, page) && Lists(page, m)
    ensures IsOutcome(ResponseVerdicts(Some(client), sessionId, page), r) ==>
              var found := r.Ok? && r.value.Some?;
              && (found <==> ds[0].msgType == CHALLENGE_RESPONSE && ds[0].body.asResponse.Some?)
              && (found ==>
                    && Some(r.value.value.body) == ds[0].body.asResponse
                    && Matched(Send(wallet, sessionId, W2C, ds[0]).value.updated, r.value.value.state))
              && (!found && (exists j :: 0 < j < |ds| && ds[j].msgType == CHALLENGE_RESPONSE) ==>
                    r.Err? && r.error.IsDesync())
  {
    if IsOutcome(ResponseVerdicts(Some(client), sessionId, page), r) {
      var m := SendAll(wallet, sessionId, W2C, ds).value.0;
      var states := SentMessagesArePending(wallet, client, sessionId, W2C, ds);
      NoStrangerIsOnlySender(states, m, sessionId, W2C, bodies);
      SentCarriesDraft(wallet, sessionId, W2C, ds, 0);
      ClientFindsOnlyTheEarliest(states, m, sessionId, bodies, page, r);
      if j :| 0 < j < |ds| && ds[j].msgType == CHALLENGE_RESPONSE {
        SentCarriesDraft(wallet, sessionId, W2C, ds, j);
      }
    }
  }

  /**
    Where the documented upkeep of the chain fails: the wallet sends anything else and then a challenge
    response. Both are on the page, and the client reports a desync.
   */
  lemma {:induction false} ResponseBehindAnotherIsDesync(
    wallet: SessionState, client: SessionState, sessionId: string, ds: seq<Draft>, bodies: set<Body>,
    page: seq<Sighting>, r: Result<Option<Hit<ResponseBody>>, Failure>)
    requires Matched(wallet, client) && !IsBlank(sessionId)
    requires |ds| >= 2 && ds[0].msgType != CHALLENGE_RESPONSE && ds[1].msgType == CHALLENGE_RESPONSE
    requires SendAll(wallet, sessionId, W2C, ds).Some?
    requires var m := SendAll(wallet, sessionId, W2C, ds).value.0;
             && NoStrangerSeals(client.encryptionRoot, m, bodies)
             && BodiesOf(page) <= bodies && Unexpired(client, page) && Lists(page, m)
    ensures IsOutcome(ResponseVerdicts(Some(client), sessionId, page), r) ==> r.Err? && r.error.IsDesync()
  {
    ClientScanOfSent(wallet, client, sessionId, ds, bodies, page, r);
  }

  /** Such a pair of sends exists: a wallet that can send both and a client matched with it. */
  lemma {:induction false} BothCanBeSent(wallet: SessionState, sessionId: string, other: Draft, response: Draft)
    requires !IsBlank(sessionId) && !IsBlank(other.msgType) && !IsBlank(response.msgType)
    ensures SendAll(wallet, sessionId, W2C, [other, response]).Some? <==>
            && !wallet.IsExpired(other.nowSecs) && !wallet.IsExpired(response.nowSecs)
            && wallet.peerDhPublic.Point? && wallet.lastSentSeq < U64_MAX
            && wallet.NextOutboundSeq(other.nowMs) < U64_MAX
  {
    var ds := [other, response];
    assert ds[1..] == [response] && [response][1..] == [];
    NextSeqStrictlyIncreases(wallet, other.nowMs, sessionId, other.ephemeral, other.nowSecs);
    assert !IsBlank(W2C) by { assert W2C[0] == 'w'; }
    if Send(wallet, sessionId, W2C, other).Some? {
      var next := Send(wallet, sessionId, W2C, other).value.updated;
      NextSeqStrictlyIncreases(next, response.nowMs, sessionId, response.ephemeral, response.nowSecs);
      assert SendAll(next, sessionId, W2C, [response]).Some? <==> Send(next, sessionId, W2C, response).Some?;
    }
  }

  // --- The handshake ---

  /** What the wallet chooses and its environment supplies when it accepts a connection. */
  datatype HelloDraft = HelloDraft(secret: Secret, sessionId: string, body: Json, seqNo: u64, now: u64, ts: u64)

  /** `encode_wallet_hello_message` and the state the wallet keeps (`accept_connect_common`). */
  function AcceptConnect(h: HelloDraft, clientPublic: DhPublic): Option<Outgoing> {
    match ComputeSharedSecret(h.secret, clientPublic)
    case Err(_) => None
    case Ok(shared) =>
      if h.sessionId == "" || h.seqNo == 0 then None
      else
        var aad := Aad(h.sessionId, W2C, h.seqNo, WALLET_HELLO, h.ts);
        var env := Envelope(MESSAGE_VERSION, h.sessionId, W2C, h.seqNo, WALLET_HELLO, Some(h.ts), Some(Point(h.secret)),
                            Sealed(InitialRoot(shared, h.sessionId), aad, Some(h.body)));
        var st := CreateInitialState(shared, h.sessionId, h.secret, clientPublic, h.now);
        Some(Outgoing(env, st.(lastSentSeq := h.seqNo)))
  }

  /**
    The handshake ends matched: wherever the client meets the wallet's hello it succeeds on it, with a
    state matched to the wallet's, so the first message of either side passes the seq check.
   */
  lemma {:induction false} HandshakeMatches(clientSecret: Secret, h: HelloDraft, s: Sighting)
    requires AcceptConnect(h, Point(clientSecret)).Some? && h.body.asHello.Some?
    requires s.text == IsEnvelope(AcceptConnect(h, Point(clientSecret)).value.env)
    ensures var v := HelloVerdict(clientSecret, h.sessionId, s);
            && v.Found? && Some(v.value.body) == h.body.asHello
            && Matched(v.value.state, AcceptConnect(h, Point(clientSecret)).value.updated)
  {
    SharedSecretLaws(clientSecret, h.secret, LowOrder, LowOrder);
  }

  /** Both ends after the handshake: nothing pending, the hello on the log. */
  function AfterHandshake(sessionId: string, client: SessionState, wallet: SessionState, hello: Body)
    : HalfDuplex.World
  {
    HalfDuplex.World(sessionId, HalfDuplex.Wallet, wallet, client, [], [wallet.encryptionRoot], {hello})
  }

  /**
    From the handshake on: whatever half-duplex run follows, draining the side that has not caught up ends
    with both sides on one root.
   */
  lemma {:induction false} HandshakeThenAgreement(
    clientSecret: Secret, h: HelloDraft, s: Sighting, actions: seq<HalfDuplex.Action>, now: u64)
    requires AcceptConnect(h, Point(clientSecret)).Some? && h.body.asHello.Some?
    requires s.text == IsEnvelope(AcceptConnect(h, Point(clientSecret)).value.env)
    ensures HelloVerdict(clientSecret, h.sessionId, s).Found?
    ensures var client := HelloVerdict(clientSecret, h.sessionId, s).value.state;
            var wallet := AcceptConnect(h, Point(clientSecret)).value;
            var w := HalfDuplex.Run(AfterHandshake(h.sessionId, client, wallet.updated, wallet.env.body), actions);
            !w.rx.IsExpired(now) ==>
              var drained := HalfDuplex.Drain(w.rx, h.sessionId, HalfDuplex.Direction(w.sender), w.pending, now);
              drained.Some? && drained.value.encryptionRoot == w.tx.encryptionRoot
  {
    HandshakeMatches(clientSecret, h, s);
    var client := HelloVerdict(clientSecret, h.sessionId, s).value.state;
    var wallet := AcceptConnect(h, Point(clientSecret)).value;
    var start := AfterHandshake(h.sessionId, client, wallet.updated, wallet.env.body);
    HalfDuplex.AgreementInEveryRun(start, actions, now);
    SessionIdFixed(start, actions);
  }

  lemma {:induction false} SessionIdFixed(w: HalfDuplex.World, actions: seq<HalfDuplex.Action>)
    ensures HalfDuplex.Run(w, actions).sessionId == w.sessionId
    decreases |actions|
  {
    if actions == [] {
    } else {
      SessionIdFixed(HalfDuplex.Step(w, actions[0]), actions[1..]);
    }
  }

  /** Both ends of a handshake expire 24 hours after each made its state. */
  lemma {:induction false} HandshakeExpires(clientSecret: Secret, h: HelloDraft, s: Sighting, t: u64)
    requires AcceptConnect(h, Point(clientSecret)).Some? && h.body.asHello.Some?
    requires s.text == IsEnvelope(AcceptConnect(h, Point(clientSecret)).value.env)
    requires h.now + 86400 < U64_LIMIT && s.now + 86400 < U64_LIMIT
    ensures HelloVerdict(clientSecret, h.sessionId, s).Found?
    ensures AcceptConnect(h, Point(clientSecret)).value.updated.IsExpired(t) <==> t >= h.now + 86400
    ensures HelloVerdict(clientSecret, h.sessionId, s).value.state.IsExpired(t) <==> t >= s.now + 86400
  {
    HandshakeMatches(clientSecret, h, s);
  }

  /**
    What a client makes of an event as a hello. It succeeds exactly on an envelope of the session with a seq, a
    good key and a body sealed under the root of that key; everything else is passed over or counted.
   */
  lemma {:induction false} HelloCases(clientSecret: Secret, sessionId: string, s: Sighting)
    ensures var v := HelloVerdict(clientSecret, sessionId, s);
            var hello := && s.text.IsEnvelope? && s.text.env.v == "bee_connect.msg/1" && s.text.env.dir == "w2c"
                         && s.text.env.sessionId == sessionId && s.text.env.msgType == "wallet_hello"
                         && s.text.env.seqNo > 0;
            && (v == Filtered <==> !hello)
            && (hello ==>
                  var env := s.text.env;
                  var key := env.dhPublic;
                  && (v == NoDhKey <==> key.None?)
                  && (v == RekeyFailed <==> key.Some? && !key.value.Point?)
                  && (key.Some? && key.value.Point? ==>
                        var root := InitialRoot(ComputeSharedSecret(clientSecret, key.value).value, sessionId);
                        && (v == DecryptFailed <==> !exists json :: OpensTo(env, root, json))
                        && (v == BodyFailed <==> exists json :: OpensTo(env, root, json) && json.asHello.None?)
                        && (v.Found? ==>
                              && (exists json :: OpensTo(env, root, json) && json.asHello == Some(v.value.body))
                              && v.value.state.encryptionRoot == root && v.value.state.lastSeenSeq == env.seqNo)))
  {
    if s.text.IsEnvelope? && s.text.env.body.Sealed? && s.text.env.body.plain.Some? {
      var env, json := s.text.env, s.text.env.body.plain.value;
      assert forall root :: OpensTo(env, root, json) <==> DecodeBody(env, root) == Some(json);
    }
  }

  /**
    What a client with a state makes of an event as a challenge response: passed over, or a re-key failure, or
    a decryption failure, or a body that does not parse, or found. Only a body that does not open is a desync.
   */
  lemma {:induction false} ResponseCases(st: SessionState, sessionId: string, s: Sighting)
    ensures var v := ResponseVerdict(Some(st), sessionId, s);
            && (v == NoParse <==> !s.text.IsEnvelope?)
            && (s.text.IsEnvelope? ==>
                  var env := s.text.env;
                  var meant := && env.v == "bee_connect.msg/1" && env.dir == "w2c" && env.sessionId == sessionId
                               && env.msgType == "challenge_response";
                  var t := TakeIn(st, sessionId, W2C, env, s.now);
                  && (v == Filtered <==> !meant)
                  && (v == Skipped <==> meant && env.dhPublic.None?)
                  && (meant && env.dhPublic.Some? ==>
                        var refused := st.IsExpired(s.now) || env.seqNo <= st.lastSeenSeq || !env.dhPublic.value.Point?;
                        && (v == RekeyFailed <==> refused)
                        && (v == DecryptFailed <==> !refused && t.None?)
                        && (v == BodyFailed <==> t.Some? && t.value.body.asResponse.None?)
                        && (v.Found? <==> t.Some? && t.value.body.asResponse.Some?)))
  {
  }

  /** The same for mining keys, which no text that is not an envelope is counted against. */
  lemma {:induction false} KeysCases(st: SessionState, sessionId: string, s: Sighting)
    ensures var v := KeysVerdict(Some(st), sessionId, s);
            var meant := && s.text.IsEnvelope? && s.text.env.v == "bee_connect.msg/1" && s.text.env.dir == "c2w"
                         && s.text.env.sessionId == sessionId && s.text.env.msgType == "set_mining_keys";
            && (v == Filtered <==> !meant)
            && (v == Skipped <==> meant && s.text.env.dhPublic.None?)
            && (meant && s.text.env.dhPublic.Some? ==>
                  var env := s.text.env;
                  var refused := st.IsExpired(s.now) || env.seqNo <= st.lastSeenSeq || !env.dhPublic.value.Point?;
                  var t := TakeIn(st, sessionId, C2W, env, s.now);
                  && (v == RekeyFailed <==> refused)
                  && (v == DecryptFailed <==> !refused && t.None?)
                  && (v == BodyFailed || v.Found? <==> t.Some?))
  {
  }

  /** A hello made for another client's key never opens: substituting the key ends the handshake. */
  lemma {:induction false} HelloForAnotherKeyFails(clientSecret: Secret, other: Secret, h: HelloDraft, s: Sighting)
    requires other != clientSecret
    requires AcceptConnect(h, Point(other)).Some?
    requires s.text == IsEnvelope(AcceptConnect(h, Point(other)).value.env)
    ensures HelloVerdict(clientSecret, h.sessionId, s) == DecryptFailed
  {
    SharedSecretLaws(h.secret, clientSecret, Point(other), Point(clientSecret));
  }
}
