/**
  The wallet's scan of a page of log events (bee_wallet/src/modules/connect.rs:170-259):
  a mutable session state advances only on messages whose body really opened.
 */
module WalletScan {
  import opened Prelude
  import opened ConnectSession
  import opened ConnectMessages

  /** The text of an event: no JSON, JSON that is no envelope, or an envelope. */
  datatype Text = NotJson | NotEnvelope | IsEnvelope(env: Envelope)

  /** An event as the scan meets it: `now` is the clock when it is looked at. */
  datatype Sighting = Sighting(eventId: string, createdAt: u64, text: Text, now: u64)

  datatype SessionMessage = SessionMessage(
    eventId: string,
    createdAt: u64,
    env: Envelope,
    body: Option<Json>,
    stateAfter: Option<SessionState>)
  {
    predicate BodyDecrypted() {
      body.Some?
    }
  }

  /** `parse_connect_session_message_with_secret`: any valid envelope of the session parses, opened or not. */
  function ParseMessage(s: Sighting, sessionId: string, secret: Option<Root>): Option<SessionMessage> {
    if IsBlank(sessionId) || !s.text.IsEnvelope? then None
    else
      var env := s.text.env;
      if env.v != MESSAGE_VERSION || env.sessionId != sessionId || IsBlank(env.dir) then None
      else
        var body := if secret.Some? then DecodeBody(env, secret.value) else None;
        Some(SessionMessage(s.eventId, s.createdAt, env, body, None))
  }

  /** The pre-parsed envelope asks for a re-key. */
  predicate NeedsRekey(s: Sighting, sessionId: string) {
    s.text.IsEnvelope? && s.text.env.dir == C2W && s.text.env.dhPublic.Some? && s.text.env.sessionId == sessionId
  }

  datatype Scan = Scan(current: Option<SessionState>, rekeyed: bool, messages: seq<SessionMessage>)

  /** What one event does to a scan, in terms of taking messages in. */
  function Accepts(st: Option<SessionState>, sessionId: string, s: Sighting): Option<Taken> {
    if st.Some? && s.text.IsEnvelope? && !IsBlank(sessionId)
    then TakeIn(st.value, sessionId, C2W, s.text.env, s.now)
    else None
  }

  function ScanOne(acc: Scan, sessionId: string, s: Sighting): Scan {
    match Accepts(acc.current, sessionId, s)
    case Some(t) =>
      Scan(Some(t.state), true,
           acc.messages + [SessionMessage(s.eventId, s.createdAt, s.text.env, Some(t.body), Some(t.state))])
    case None =>
      var root := if acc.current.Some? then Some(acc.current.value.encryptionRoot) else None;
      match ParseMessage(s, sessionId, root)
      case None => acc
      case Some(m) => acc.(messages := acc.messages + [m])
  }

  function ScanAll(acc: Scan, sessionId: string, page: seq<Sighting>): Scan {
    if page == [] then acc
    else ScanOne(ScanAll(acc, sessionId, page[..|page| - 1]), sessionId, page[|page| - 1])
  }

  function Start(st: Option<SessionState>): Scan {
    Scan(st, false, [])
  }

  /** The state a scan of `page` from `st` ends in. */
  function After(st: SessionState, sessionId: string, page: seq<Sighting>): SessionState
    decreases |page|
  {
    if page == [] then st
    else
      match Accepts(Some(st), sessionId, page[0])
      case None => After(st, sessionId, page[1..])
      case Some(t) => After(t.state, sessionId, page[1..])
  }

  /** The events a scan accepts, in the order it accepts them. */
  function Accepted(st: SessionState, sessionId: string, page: seq<Sighting>): seq<Sighting>
    decreases |page|
  {
    if page == [] then []
    else
      match Accepts(Some(st), sessionId, page[0])
      case None => Accepted(st, sessionId, page[1..])
      case Some(t) => [page[0]] + Accepted(t.state, sessionId, page[1..])
  }

  /** One round of the loop, branch by branch: pre-parse, re-key, parse with the new root, else best-effort parse. */
  method LookAt(acc: Scan, sessionId: string, s: Sighting) returns (next: Scan)
    ensures next == ScanOne(acc, sessionId, s)
    ensures if Belongs(s, sessionId)
            then && |next.messages| == |acc.messages| + 1 && next.messages[..|acc.messages|] == acc.messages
                 && Reports(next.messages[|acc.messages|], s, sessionId, acc.current)
            else next.messages == acc.messages
  {
    OneReports(acc, sessionId, s);
    assert !IsWhitespace(C2W[0]);
    if NeedsRekey(s, sessionId) && acc.current.Some? {
      var env := s.text.env;
      var rekey := RekeyInbound(acc.current.value, env.dhPublic.value, sessionId, env.seqNo, s.now);
      if rekey.Ok? {
        var parsed := ParseMessage(s, sessionId, Some(rekey.value.messageRoot));
        if parsed.Some? && parsed.value.BodyDecrypted() {
          var msg := parsed.value.(stateAfter := Some(rekey.value.updated));
          return Scan(Some(rekey.value.updated), true, acc.messages + [msg]);
        }
      }
    }
    var secret := if acc.current.Some? then Some(acc.current.value.encryptionRoot) else None;
    var parsed := ParseMessage(s, sessionId, secret);
    next := if parsed.Some? then acc.(messages := acc.messages + [parsed.value]) else acc;
  }

  lemma {:induction false} ScanOneKeeps(acc: Scan, sessionId: string, s: Sighting)
    ensures var next := ScanOne(acc, sessionId, s);
            (next.rekeyed || next.current == acc.current) && (acc.rekeyed ==> next.rekeyed)
  {
  }

  method QuerySessionMessages(sessionState: Option<SessionState>, sessionId: string, page: seq<Sighting>)
    returns (messages: seq<SessionMessage>, updated: Option<SessionState>)
    ensures messages == ScanAll(Start(sessionState), sessionId, page).messages
    ensures updated == ScanAll(Start(sessionState), sessionId, page).current
    ensures var ks := Places(page, sessionId);
            && |messages| == |ks|
            && forall i | 0 <= i < |messages| ::
                 Reports(messages[i], page[ks[i]], sessionId, Before(sessionState, sessionId, page, ks[i]))
  {
    ScanReportsEvery(sessionState, sessionId, page);
    var scan := Start(sessionState);
    for i := 0 to |page|
      invariant scan == ScanAll(Start(sessionState), sessionId, page[..i])
      invariant !scan.rekeyed ==> scan.current == sessionState
    {
      assert page[..i + 1][..i] == page[..i];
      ScanOneKeeps(scan, sessionId, page[i]);
      scan := LookAt(scan, sessionId, page[i]);
    }
    assert page[..|page|] == page;
    messages := scan.messages;
    updated := if scan.rekeyed then scan.current else sessionState;
  }

  lemma {:induction false} AfterSnoc(st: SessionState, sessionId: string, page: seq<Sighting>, s: Sighting)
    ensures After(st, sessionId, page + [s]) ==
            var mid := After(st, sessionId, page);
            match Accepts(Some(mid), sessionId, s)
            case None => mid
            case Some(t) => t.state
    decreases |page|
  {
    if page == [] {
      assert (page + [s])[1..] == [];
    } else {
      assert (page + [s])[1..] == page[1..] + [s];
      match Accepts(Some(st), sessionId, page[0])
      case None => AfterSnoc(st, sessionId, page[1..], s);
      case Some(t) => AfterSnoc(t.state, sessionId, page[1..], s);
    }
  }

  /** The loop's end state is `After`; without a starting state nothing is ever accepted. */
  lemma {:induction false} ScanEndsAfter(st: Option<SessionState>, sessionId: string, page: seq<Sighting>)
    ensures ScanAll(Start(st), sessionId, page).current ==
            match st
            case None => None
            case Some(v) => Some(After(v, sessionId, page))
  {
    if page == [] {
    } else {
      ScanEndsAfter(st, sessionId, page[..|page| - 1]);
      if st.Some? {
        AfterSnoc(st.value, sessionId, page[..|page| - 1], page[|page| - 1]);
        assert page[..|page| - 1] + [page[|page| - 1]] == page;
      }
    }
  }

  // --- What a scan hands out ---

  /** An event of the session: an envelope of the known version, with the session's id and some direction. */
  predicate Belongs(s: Sighting, sessionId: string) {
    && !IsBlank(sessionId) && s.text.IsEnvelope?
    && s.text.env.v == MESSAGE_VERSION && s.text.env.sessionId == sessionId && !IsBlank(s.text.env.dir)
  }

  /** The places of the session's events on a page, in order. */
  function Places(page: seq<Sighting>, sessionId: string): (ks: seq<nat>)
    ensures forall i | 0 <= i < |ks| :: ks[i] < |page|
  {
    if page == [] then []
    else
      var n := |page| - 1;
      Places(page[..n], sessionId) + (if Belongs(page[n], sessionId) then [n] else [])
  }

  ghost predicate Ascends(ks: seq<nat>) {
    forall i, j | 0 <= i < j < |ks| :: ks[i] < ks[j]
  }

  lemma {:induction false} AscendsSnoc(ks: seq<nat>, n: nat)
    requires Ascends(ks) && forall i | 0 <= i < |ks| :: ks[i] < n
    ensures Ascends(ks + [n])
  {
  }

  /** The places are exactly those of the session's events, and ascend. */
  lemma {:induction false} PlacesExactly(page: seq<Sighting>, sessionId: string)
    ensures forall k | 0 <= k < |page| :: k in Places(page, sessionId) <==> Belongs(page[k], sessionId)
    ensures Ascends(Places(page, sessionId))
  {
    if page == [] {
    } else {
      var n := |page| - 1;
      PlacesExactly(page[..n], sessionId);
      AscendsSnoc(Places(page[..n], sessionId), n);
      assert Places(page[..n], sessionId) + [] == Places(page[..n], sessionId);
    }
  }

  /** The body opens under the root to `json`. */
  predicate OpensTo(env: Envelope, root: Root, json: Json) {
    && env.body.Sealed? && env.body.root == root && env.body.plain == Some(json)
    && env.ts.Some? && env.body.aad == Aad(env.sessionId, env.dir, env.seqNo, env.msgType, env.ts.value)
  }

  /** The state a scan has reached before an event. */
  function Before(st: Option<SessionState>, sessionId: string, page: seq<Sighting>, k: nat): Option<SessionState>
    requires k <= |page|
  {
    if st.None? then None else Some(After(st.value, sessionId, page[..k]))
  }

  /**
    The message handed out for an event met in state `at`: the event's own id, time and envelope. It carries a
    new state exactly when it was taken in; else its body is there exactly when it opens under the root of `at`.
   */
  ghost predicate Reports(m: SessionMessage, s: Sighting, sessionId: string, at: Option<SessionState>) {
    && s.text.IsEnvelope? && m.eventId == s.eventId && m.createdAt == s.createdAt && m.env == s.text.env
    && (m.stateAfter.Some? <==> at.Some? && TakeIn(at.value, sessionId, C2W, m.env, s.now).Some?)
    && (m.stateAfter.Some? ==>
          var t := TakeIn(at.value, sessionId, C2W, m.env, s.now).value;
          m.stateAfter == Some(t.state) && m.body == Some(t.body))
    && (m.stateAfter.None? ==>
          forall json :: m.body == Some(json) <==> at.Some? && OpensTo(m.env, at.value.encryptionRoot, json))
  }

  lemma {:induction false} OneReports(acc: Scan, sessionId: string, s: Sighting)
    ensures var next := ScanOne(acc, sessionId, s);
            if Belongs(s, sessionId)
            then && |next.messages| == |acc.messages| + 1 && next.messages[..|acc.messages|] == acc.messages
                 && Reports(next.messages[|acc.messages|], s, sessionId, acc.current)
            else next.messages == acc.messages
  {
    assert !IsWhitespace(C2W[0]);
  }

  /** A scan of any page hands out one message for each of the session's events, in order, and nothing else. */
  lemma {:induction false} ScanReportsEvery(st: Option<SessionState>, sessionId: string, page: seq<Sighting>)
    ensures var ms, ks := ScanAll(Start(st), sessionId, page).messages, Places(page, sessionId);
            && |ms| == |ks|
            && forall i | 0 <= i < |ms| :: Reports(ms[i], page[ks[i]], sessionId, Before(st, sessionId, page, ks[i]))
  {
    if page == [] {
    } else {
      var n := |page| - 1;
      var before, s := page[..n], page[n];
      ScanReportsEvery(st, sessionId, before);
      ScanEndsAfter(st, sessionId, before);
      var acc := ScanAll(Start(st), sessionId, before);
      OneReports(acc, sessionId, s);
      var ms, ks := ScanAll(Start(st), sessionId, page).messages, Places(page, sessionId);
      forall i | 0 <= i < |ms|
        ensures Reports(ms[i], page[ks[i]], sessionId, Before(st, sessionId, page, ks[i]))
      {
        if i < |acc.messages| {
          var k := Places(before, sessionId)[i];
          assert ms[i] == ms[..|acc.messages|][i] == acc.messages[i];
          assert page[..k] == before[..k] && page[k] == before[k];
        }
      }
    }
  }

  /** The messages a scan hands out with a new session state. */
  function Advancing(ms: seq<SessionMessage>): seq<SessionMessage> {
    if ms == [] then []
    else
      var last := ms[|ms| - 1];
      Advancing(ms[..|ms| - 1]) + (if last.stateAfter.Some? then [last] else [])
  }

  /** What taking in event after event gives: one message each, with its body and the state it leads to. */
  function Trail(st: SessionState, sessionId: string, page: seq<Sighting>): seq<SessionMessage> {
    if page == [] then []
    else
      var before, s := page[..|page| - 1], page[|page| - 1];
      Trail(st, sessionId, before) +
      match Accepts(Some(After(st, sessionId, before)), sessionId, s)
      case None => []
      case Some(t) => [SessionMessage(s.eventId, s.createdAt, s.text.env, Some(t.body), Some(t.state))]
  }

  /** The scan's messages with a new state are exactly the accepted events in order, each with its body and state. */
  lemma {:induction false} ScanReportsAccepted(st: SessionState, sessionId: string, page: seq<Sighting>)
    ensures Advancing(ScanAll(Start(Some(st)), sessionId, page).messages) == Trail(st, sessionId, page)
  {
    if page == [] {
    } else {
      var before, s := page[..|page| - 1], page[|page| - 1];
      ScanReportsAccepted(st, sessionId, before);
      ScanEndsAfter(Some(st), sessionId, before);
      var acc := ScanAll(Start(Some(st)), sessionId, before);
      var ms := ScanOne(acc, sessionId, s).messages;
      assert ms == acc.messages || (|ms| == |acc.messages| + 1 && ms[..|ms| - 1] == acc.messages);
    }
  }

  /**
    Events that fail re-key, decryption or parsing leave no trace in the state: a scan of the accepted
    events alone accepts all of them and ends in the same state.
   */
  lemma {:induction false} AcceptedAloneSuffice(st: SessionState, sessionId: string, page: seq<Sighting>)
    ensures var kept := Accepted(st, sessionId, page);
            After(st, sessionId, kept) == After(st, sessionId, page) && Accepted(st, sessionId, kept) == kept
    decreases |page|
  {
    if page == [] {
    } else {
      match Accepts(Some(st), sessionId, page[0])
      case None => AcceptedAloneSuffice(st, sessionId, page[1..]);
      case Some(t) =>
        AcceptedAloneSuffice(t.state, sessionId, page[1..]);
        var rest := Accepted(t.state, sessionId, page[1..]);
        assert ([page[0]] + rest)[1..] == rest;
    }
  }

  /** The states and accepted events of a series of scans, each from the state the one before returned. */
  function AfterPages(st: SessionState, sessionId: string, pages: seq<seq<Sighting>>): SessionState
    decreases |pages|
  {
    if pages == [] then st else AfterPages(After(st, sessionId, pages[0]), sessionId, pages[1..])
  }

  function AcceptedInPages(st: SessionState, sessionId: string, pages: seq<seq<Sighting>>): seq<Sighting>
    decreases |pages|
  {
    if pages == [] then []
    else Accepted(st, sessionId, pages[0]) + AcceptedInPages(After(st, sessionId, pages[0]), sessionId, pages[1..])
  }

  /** Seqs of `s` are above `floor` and strictly increase. */
  ghost predicate SeqsClimb(s: seq<Sighting>, floor: u64) {
    && (forall i | 0 <= i < |s| :: s[i].text.IsEnvelope? && floor < s[i].text.env.seqNo)
    && (forall i, j | 0 <= i < j < |s| :: s[i].text.env.seqNo < s[j].text.env.seqNo)
  }

  lemma {:induction false} PageSeqsClimb(st: SessionState, sessionId: string, page: seq<Sighting>)
    ensures SeqsClimb(Accepted(st, sessionId, page), st.lastSeenSeq)
    ensures var after := After(st, sessionId, page);
            && st.lastSeenSeq <= after.lastSeenSeq
            && (forall s | s in Accepted(st, sessionId, page) :: s.text.env.seqNo <= after.lastSeenSeq)
            && SameSession(st, after) && after.lastSentSeq == st.lastSentSeq && after.myDhSecret == st.myDhSecret
    decreases |page|
  {
    if page == [] {
    } else {
      match Accepts(Some(st), sessionId, page[0])
      case None => PageSeqsClimb(st, sessionId, page[1..]);
      case Some(t) =>
        TakeInNeedsDerivedRoot(st, sessionId, C2W, page[0].text.env, page[0].now);
        PageSeqsClimb(t.state, sessionId, page[1..]);
    }
  }

  /** What moves the wallet's stored state: a scan of a page, or a message of its own. */
  datatype Turn = Read(page: seq<Sighting>) | Say(draft: Draft)

  function AfterTurn(st: SessionState, sessionId: string, t: Turn): SessionState {
    match t
    case Read(page) => After(st, sessionId, page)
    case Say(draft) =>
      match Send(st, sessionId, W2C, draft)
      case None => st
      case Some(out) => out.updated
  }

  function AcceptedInTurn(st: SessionState, sessionId: string, t: Turn): seq<Sighting> {
    if t.Read? then Accepted(st, sessionId, t.page) else []
  }

  function AfterTurns(st: SessionState, sessionId: string, turns: seq<Turn>): SessionState
    decreases |turns|
  {
    if turns == [] then st else AfterTurns(AfterTurn(st, sessionId, turns[0]), sessionId, turns[1..])
  }

  function AcceptedInTurns(st: SessionState, sessionId: string, turns: seq<Turn>): seq<Sighting>
    decreases |turns|
  {
    if turns == [] then []
    else
      AcceptedInTurn(st, sessionId, turns[0])
      + AcceptedInTurns(AfterTurn(st, sessionId, turns[0]), sessionId, turns[1..])
  }

  /**
    Over every series of scans of any pages and sends of any messages, with any clock, accepted seqs strictly
    increase: no envelope is accepted twice. Signing keys and expiry stay as they were.
   */
  lemma {:induction false} AcceptedAtMostOnce(st: SessionState, sessionId: string, turns: seq<Turn>)
    ensures SeqsClimb(AcceptedInTurns(st, sessionId, turns), st.lastSeenSeq)
    ensures var all := AcceptedInTurns(st, sessionId, turns);
            forall i, j | 0 <= i < j < |all| :: all[i].text != all[j].text
    ensures SameSession(st, AfterTurns(st, sessionId, turns))
    decreases |turns|
  {
    if turns == [] {
    } else {
      if turns[0].Read? {
        PageSeqsClimb(st, sessionId, turns[0].page);
      }
      AcceptedAtMostOnce(AfterTurn(st, sessionId, turns[0]), sessionId, turns[1..]);
    }
  }
}
