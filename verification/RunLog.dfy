/**
  The log that a half-duplex run writes itself. What the results about scans and about forks ask of a log
  holds of it after every run, so for such runs they hold without assumption.
 */
module RunLog {
  import opened Prelude
  import opened ConnectSession
  import opened ConnectMessages
  import opened HalfDuplex
  import opened WalletScan
  import Desync
  import PendingMessages
  import ClientScan

  /** The two ends and the log of a world, without its discipline. */
  function NetOf(w: World): Desync.Net {
    if w.sender.Client? then Desync.Net(w.sessionId, w.tx, w.rx, w.log)
    else Desync.Net(w.sessionId, w.rx, w.tx, w.log)
  }

  /** The start of a session on a log that holds only what the two ends sealed before. */
  ghost predicate Begins(w: World) {
    Opening(w) && Desync.LogSound(NetOf(w))
  }

  /** A body is no deeper than the receiver's root, or belongs to a pending message. */
  ghost predicate OldOrPending(w: World, b: Body) {
    b.Sealed? ==> Depth(b.root) <= Depth(w.rx.encryptionRoot) || PendingMessages.IsBodyOf(w.pending, b)
  }

  ghost predicate LogGood(w: World) {
    && Desync.LogSound(NetOf(w))
    && (forall b | b in w.log :: OldOrPending(w, b))
    && (forall e | e in w.pending :: e.body in w.log)
  }

  lemma {:induction false} BeginsGood(w: World)
    requires Begins(w)
    ensures Inv(w) && LogGood(w)
  {
    forall b | b in w.log ensures OldOrPending(w, b) {
      Desync.DescendsIsDeeper(w.rx.encryptionRoot, b.root);
    }
  }

  lemma {:induction false} StillBodyOf(m: seq<Envelope>, e: Envelope, b: Body)
    requires PendingMessages.IsBodyOf(m, b) || b == e.body
    ensures PendingMessages.IsBodyOf(m + [e], b)
  {
    if b == e.body {
      assert (m + [e])[|m|] == e;
    } else {
      var i :| 0 <= i < |m| && b == m[i].body;
      assert (m + [e])[i] == m[i];
    }
  }

  lemma {:induction false} SendKeepsLog(w: World, role: Role, d: Draft)
    requires Inv(w) && LogGood(w)
    ensures LogGood(Step(w, SendBy(role, d)))
  {
    var w' := Step(w, SendBy(role, d));
    if w' == w { return; }
    assert NetOf(w') == Desync.Apply(NetOf(w), Desync.Emit(role, d));
    Desync.EmitKeeps(NetOf(w), role, d);
    var e := w'.pending[|w.pending|];
    assert w'.pending == w.pending + [e] && w'.log == w.log + {e.body};
    forall b | b in w'.log ensures OldOrPending(w', b) {
      if b == e.body || PendingMessages.IsBodyOf(w.pending, b) {
        StillBodyOf(w.pending, e, b);
      }
    }
  }

  lemma {:induction false} DeliverKeepsLog(w: World, now: u64)
    requires Inv(w) && LogGood(w)
    ensures LogGood(Step(w, Deliver(now)))
  {
    var w' := Step(w, Deliver(now));
    if w' == w { return; }
    var e, role := w.pending[0], Desync.Peer(w.sender);
    assert e in w.pending;
    assert NetOf(w') == Desync.Apply(NetOf(w), Desync.Arrive(role, e, now));
    Desync.ArriveKeeps(NetOf(w), role, e, now);
    TakeInNeedsDerivedRoot(w.rx, w.sessionId, Direction(w.sender), e, now);
    forall b | b in w'.log ensures OldOrPending(w', b) {
      assert OldOrPending(w, b);
      if b.Sealed? && Depth(b.root) > Depth(w'.rx.encryptionRoot) {
        var i :| 0 <= i < |w.pending| && b == w.pending[i].body;
        assert w'.pending[i - 1] == w.pending[i];
      }
    }
  }

  /** Every half-duplex run keeps its log good. */
  lemma {:induction false} RunKeepsLog(w: World, actions: seq<Action>)
    requires Inv(w) && LogGood(w)
    ensures Inv(Run(w, actions)) && LogGood(Run(w, actions))
    decreases |actions|
  {
    if actions == [] {
    } else {
      match actions[0] {
        case SendBy(role, draft) =>
          SendKeepsInv(w, role, draft);
          SendKeepsLog(w, role, draft);
        case Deliver(now) =>
          DeliverKeepsInv(w, now);
          DeliverKeepsLog(w, now);
      }
      RunKeepsLog(Step(w, actions[0]), actions[1..]);
    }
  }

  /** Messages that drain at every unexpired time are pending, and lead to the drained state. */
  lemma {:induction false} DrainIsPending(st: SessionState, sessionId: string, dir: string, envs: seq<Envelope>)
    returns (states: seq<SessionState>)
    requires !IsBlank(sessionId)
    requires forall now: u64 | !st.IsExpired(now) :: Drain(st, sessionId, dir, envs, now).Some?
    ensures PendingMessages.Pending(states, envs, sessionId, dir) && states[0] == st
    ensures Drain(st, sessionId, dir, envs, 0) == Some(states[|states| - 1])
    decreases |envs|
  {
    assert !st.IsExpired(0);
    if envs == [] {
      states := [st];
    } else {
      TakeInNeedsDerivedRoot(st, sessionId, dir, envs[0], 0);
      var next := TakeIn(st, sessionId, dir, envs[0], 0).value.state;
      forall now: u64 | !st.IsExpired(now)
        ensures TakeIn(st, sessionId, dir, envs[0], now).Some?
        ensures TakeIn(st, sessionId, dir, envs[0], now).value.state == next
      {
        assert Drain(st, sessionId, dir, envs, now).Some?;
        TakeInNeedsDerivedRoot(st, sessionId, dir, envs[0], now);
      }
      forall now: u64 | !next.IsExpired(now) ensures Drain(next, sessionId, dir, envs[1..], now).Some? {
        assert Drain(st, sessionId, dir, envs, now).Some?;
      }
      var rest := DrainIsPending(next, sessionId, dir, envs[1..]);
      PendingMessages.PendingCons(st, envs[0], rest, envs[1..], sessionId, dir);
      assert [envs[0]] + envs[1..] == envs;
      states := [st] + rest;
    }
  }

  /** After every run no one but the sender has sealed under a root of the session: the scans may rely on it. */
  lemma {:induction false} RunHasNoStrangers(start: World, actions: seq<Action>) returns (states: seq<SessionState>)
    requires Begins(start) && !IsBlank(start.sessionId)
    ensures var w := Run(start, actions);
            && PendingMessages.Pending(states, w.pending, w.sessionId, Direction(w.sender))
            && states[0] == w.rx && Matched(w.tx, states[|states| - 1])
            && PendingMessages.NoStrangerSeals(w.rx.encryptionRoot, w.pending, w.log)
            && w.sessionId == start.sessionId
  {
    BeginsGood(start);
    RunKeepsLog(start, actions);
    ClientScan.SessionIdFixed(start, actions);
    var w := Run(start, actions);
    states := DrainIsPending(w.rx, w.sessionId, Direction(w.sender), w.pending);
    assert !w.rx.IsExpired(0);
    assert forall b | b in w.log :: OldOrPending(w, b);
    PendingMessages.OldAndOwnAreNoStrangers(states, w.pending, w.sessionId, Direction(w.sender), w.log);
  }

  /**
    The wallet catches up after every run: as many scans as messages are pending, of pages of this log that
    list them in any order, accept them all, once and in the order sent, and end matched with the client.
   */
  lemma {:induction false} WalletCatchesUp(start: World, actions: seq<Action>, pages: seq<seq<Sighting>>)
    requires Begins(start) && !IsBlank(start.sessionId)
    requires var w := Run(start, actions);
             && w.sender.Client? && |pages| >= |w.pending|
             && forall p | p in pages :: PendingMessages.BodiesOf(p) <= w.log && PendingMessages.Unexpired(w.rx, p)
                                         && PendingMessages.Lists(p, w.pending)
    ensures var w := Run(start, actions);
            var got := AcceptedInPages(w.rx, w.sessionId, pages);
            && Matched(w.tx, AfterPages(w.rx, w.sessionId, pages))
            && PendingMessages.AllEnvelopes(got) && PendingMessages.Envelopes(got) == w.pending
  {
    var w := Run(start, actions);
    var states := RunHasNoStrangers(start, actions);
    PendingMessages.NoStrangerIsOnlySender(states, w.pending, w.sessionId, C2W, w.log);
    PendingMessages.EnoughScansAcceptAll(states, w.pending, w.sessionId, w.log, 0, pages);
  }

  /**
    What a client finds after every run, on a page of this log that lists the wallet's pending messages: a
    challenge response exactly when it is the oldest of them and parses, and else a later one is a desync.
   */
  lemma {:induction false} ClientFindsAfterRun(
    start: World, actions: seq<Action>, page: seq<Sighting>,
    r: Result<Option<ClientScan.Hit<ResponseBody>>, ClientScan.Failure>)
    requires Begins(start) && !IsBlank(start.sessionId)
    requires var w := Run(start, actions);
             && w.sender.Wallet? && w.pending != []
             && PendingMessages.BodiesOf(page) <= w.log && PendingMessages.Unexpired(w.rx, page)
             && PendingMessages.Lists(page, w.pending)
    ensures var w := Run(start, actions);
            && w.pending[0].body.Sealed? && w.pending[0].body.plain.Some?
            && (ClientScan.IsOutcome(ClientScan.ResponseVerdicts(Some(w.rx), w.sessionId, page), r) ==>
                  var found := r.Ok? && r.value.Some?;
                  && (found <==> && w.pending[0].msgType == CHALLENGE_RESPONSE
                                 && w.pending[0].body.plain.value.asResponse.Some?)
                  && (!found && (exists j :: 0 < j < |w.pending| && w.pending[j].msgType == CHALLENGE_RESPONSE) ==>
                        r.Err? && r.error.IsDesync()))
  {
    var w := Run(start, actions);
    var states := RunHasNoStrangers(start, actions);
    PendingMessages.NoStrangerIsOnlySender(states, w.pending, w.sessionId, W2C, w.log);
    assert !states[0].IsExpired(0);
    TakeInNeedsDerivedRoot(states[0], w.sessionId, W2C, w.pending[0], 0);
    if ClientScan.IsOutcome(ClientScan.ResponseVerdicts(Some(w.rx), w.sessionId, page), r) {
      ClientScan.ClientFindsOnlyTheEarliest(states, w.pending, w.sessionId, w.log, page, r);
    }
  }

  /** A receiver that sends after any run, against the log of that run and whatever is sent or shown later. */
  lemma {:induction false} CrossingAfterRun(
    start: World, actions: seq<Action>, d: Draft, moves: seq<Desync.Move>)
    requires Begins(start)
    requires Run(start, actions).pending != [] && Desync.CrossingSend(Run(start, actions), d).Some?
    ensures var w := Run(start, actions);
            var out := Desync.CrossingSend(w, d).value;
            var n := Desync.Apply(NetOf(w), Desync.Emit(Desync.Peer(w.sender), d));
            && w.pending[0].body.Sealed? && out.env.body.Sealed?
            && (w.pending[0].body.root != out.env.body.root ==> Desync.NothingArrives(n, moves))
  {
    BeginsGood(start);
    RunKeepsLog(start, actions);
    Desync.CrossingSendsDesync(start, actions, d, NetOf(Run(start, actions)), moves);
  }

  /** The handshake begins such a session. */
  lemma {:induction false} HandshakeBegins(clientSecret: Secret, h: ClientScan.HelloDraft, s: Sighting)
    requires ClientScan.AcceptConnect(h, Point(clientSecret)).Some? && h.body.asHello.Some?
    requires s.text == IsEnvelope(ClientScan.AcceptConnect(h, Point(clientSecret)).value.env)
    ensures ClientScan.HelloVerdict(clientSecret, h.sessionId, s).Found?
    ensures var client := ClientScan.HelloVerdict(clientSecret, h.sessionId, s).value.state;
            var wallet := ClientScan.AcceptConnect(h, Point(clientSecret)).value;
            Begins(ClientScan.AfterHandshake(h.sessionId, client, wallet.updated, wallet.env.body))
  {
    ClientScan.HandshakeMatches(clientSecret, h, s);
  }
}
