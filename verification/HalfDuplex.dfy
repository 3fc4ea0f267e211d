/**
  Runs of the two-party protocol over the shared log.

  `Half-duplex` runs: a side sends only when it has taken in all the peer sent. Every such run
  keeps the two ends in agreement. The complement is in module `Desync`.
 */
module HalfDuplex {
  import opened Prelude
  import opened ConnectSession
  import opened ConnectMessages

  datatype Role = Client | Wallet

  function Direction(r: Role): string {
    if r.Client? then C2W else W2C
  }

  /**
    `sender` is the side that sent last, `pending` what its peer has not taken in yet (oldest first),
    `roots` every root the run has used, `log` every body on the log.
   */
  datatype World = World(
    sessionId: string,
    sender: Role,
    tx: SessionState,
    rx: SessionState,
    pending: seq<Envelope>,
    roots: seq<Root>,
    log: set<Body>)

  datatype Action =
    | SendBy(role: Role, draft: Draft)
    | Deliver(now: u64)

  /** Takes in every message of `envs` in order. */
  function Drain(st: SessionState, sessionId: string, dir: string, envs: seq<Envelope>, now: u64): Option<SessionState>
    decreases |envs|
  {
    if envs == [] then Some(st)
    else
      match TakeIn(st, sessionId, dir, envs[0], now)
      case None => None
      case Some(t) => Drain(t.state, sessionId, dir, envs[1..], now)
  }

  /** An action that the discipline or the code refuses leaves the world as it is. */
  function Step(w: World, a: Action): World {
    match a
    case SendBy(role, draft) =>
      if role != w.sender && w.pending != [] then w
      else
        var turned := if role == w.sender then w else w.(sender := role, tx := w.rx, rx := w.tx);
        (match Send(turned.tx, w.sessionId, Direction(role), draft)
         case None => w
         case Some(out) =>
           turned.(tx := out.updated, pending := w.pending + [out.env],
                   roots := w.roots + [out.updated.encryptionRoot], log := w.log + {out.env.body}))
    case Deliver(now) =>
      if w.pending == [] then w
      else
        match TakeIn(w.rx, w.sessionId, Direction(w.sender), w.pending[0], now)
        case None => w
        case Some(t) => w.(rx := t.state, pending := w.pending[1..])
  }

  function Run(w: World, actions: seq<Action>): World
    decreases |actions|
  {
    if actions == [] then w else Run(Step(w, actions[0]), actions[1..])
  }

  /** Draining the receiver at any unexpired time succeeds and ends matched with the sender. */
  ghost predicate Agrees(w: World) {
    forall now: u64 | !w.rx.IsExpired(now) ::
      && Drain(w.rx, w.sessionId, Direction(w.sender), w.pending, now).Some?
      && Matched(w.tx, Drain(w.rx, w.sessionId, Direction(w.sender), w.pending, now).value)
  }

  /** Every root used so far is one re-key deeper than the one before; the sender holds the last. */
  ghost predicate RootsDeepen(w: World) {
    && w.roots != []
    && w.roots[|w.roots| - 1] == w.tx.encryptionRoot
    && (w.pending == [] ==> w.rx.encryptionRoot == w.tx.encryptionRoot)
    && forall i | 0 <= i < |w.roots| :: Depth(w.roots[i]) == Depth(w.roots[0]) + i
  }

  ghost predicate Inv(w: World) {
    Agrees(w) && RootsDeepen(w)
  }

  lemma {:induction false} DrainSnoc(
    st: SessionState, sessionId: string, dir: string, envs: seq<Envelope>, e: Envelope, now: u64)
    ensures Drain(st, sessionId, dir, envs + [e], now) ==
            match Drain(st, sessionId, dir, envs, now)
            case None => None
            case Some(mid) =>
              match TakeIn(mid, sessionId, dir, e, now)
              case None => None
              case Some(t) => Some(t.state)
    decreases |envs|
  {
    if envs == [] {
      assert (envs + [e])[1..] == [];
    } else {
      assert (envs + [e])[1..] == envs[1..] + [e];
      if TakeIn(st, sessionId, dir, envs[0], now).Some? {
        DrainSnoc(TakeIn(st, sessionId, dir, envs[0], now).value.state, sessionId, dir, envs[1..], e, now);
      }
    }
  }

  /** Draining changes only the root, the peer's key and the highest seen seq. */
  lemma {:induction false} DrainKeeps(st: SessionState, sessionId: string, dir: string, envs: seq<Envelope>, now: u64)
    requires Drain(st, sessionId, dir, envs, now).Some?
    ensures var r := Drain(st, sessionId, dir, envs, now).value;
            && SameSession(r, st) && r.myDhSecret == st.myDhSecret && r.lastSentSeq == st.lastSentSeq
            && r.lastSeenSeq >= st.lastSeenSeq
    decreases |envs|
  {
    if envs == [] {
    } else {
      TakeInNeedsDerivedRoot(st, sessionId, dir, envs[0], now);
      DrainKeeps(TakeIn(st, sessionId, dir, envs[0], now).value.state, sessionId, dir, envs[1..], now);
    }
  }

  lemma {:induction false} SendKeepsInv(w: World, role: Role, draft: Draft)
    requires Inv(w)
    ensures Inv(Step(w, SendBy(role, draft)))
  {
    var w' := Step(w, SendBy(role, draft));
    if w' == w { return; }
    var turned := if role == w.sender then w else w.(sender := role, tx := w.rx, rx := w.tx);
    assert Agrees(turned) by {
      if role != w.sender {
        assert Matched(w.tx, w.rx) by {
          assert !w.rx.IsExpired(0);
          assert Drain(w.rx, w.sessionId, Direction(w.sender), w.pending, 0) == Some(w.rx);
        }
      }
    }
    var out := Send(turned.tx, w.sessionId, Direction(role), draft).value;
    forall now: u64 | !w'.rx.IsExpired(now)
      ensures Drain(w'.rx, w'.sessionId, Direction(w'.sender), w'.pending, now).Some?
      ensures Matched(w'.tx, Drain(w'.rx, w'.sessionId, Direction(w'.sender), w'.pending, now).value)
    {
      var dir := Direction(role);
      var mid := Drain(turned.rx, w.sessionId, dir, w.pending, now).value;
      DrainKeeps(turned.rx, w.sessionId, dir, w.pending, now);
      DrainSnoc(turned.rx, w.sessionId, dir, w.pending, out.env, now);
      SendThenTakeIn(turned.tx, mid, w.sessionId, dir, draft, now);
    }
  }

  lemma {:induction false} DeliverKeepsInv(w: World, now: u64)
    requires Inv(w)
    ensures Inv(Step(w, Deliver(now)))
  {
    var w' := Step(w, Deliver(now));
    if w' == w { return; }
    TakeInNeedsDerivedRoot(w.rx, w.sessionId, Direction(w.sender), w.pending[0], now);
    forall t: u64 | !w'.rx.IsExpired(t)
      ensures Drain(w'.rx, w'.sessionId, Direction(w'.sender), w'.pending, t).Some?
      ensures Matched(w'.tx, Drain(w'.rx, w'.sessionId, Direction(w'.sender), w'.pending, t).value)
    {
      assert Drain(w.rx, w.sessionId, Direction(w.sender), w.pending, t).Some?;
      TakeInNeedsDerivedRoot(w.rx, w.sessionId, Direction(w.sender), w.pending[0], t);
    }
    if w'.pending == [] {
      assert !w'.rx.IsExpired(0);
      assert Drain(w'.rx, w'.sessionId, Direction(w'.sender), w'.pending, 0) == Some(w'.rx);
    }
  }

  /** The start of a session: matched ends, nothing pending. */
  ghost predicate Opening(w: World) {
    Matched(w.tx, w.rx) && w.pending == [] && w.roots == [w.tx.encryptionRoot]
  }

  lemma {:induction false} RunKeepsInv(w: World, actions: seq<Action>)
    requires Inv(w)
    ensures Inv(Run(w, actions))
    decreases |actions|
  {
    if actions == [] {
    } else {
      match actions[0] {
        case SendBy(role, draft) => SendKeepsInv(w, role, draft);
        case Deliver(now) => DeliverKeepsInv(w, now);
      }
      RunKeepsInv(Step(w, actions[0]), actions[1..]);
    }
  }

  /**
    Agreement in every half-duplex run: draining the receiver never fails before expiry and gives the
    sender's root and matching keys; no root is used twice in the run.
   */
  lemma {:induction false} AgreementInEveryRun(w: World, actions: seq<Action>, now: u64)
    requires Opening(w)
    ensures var r := Run(w, actions);
            !r.rx.IsExpired(now) ==>
              var drained := Drain(r.rx, r.sessionId, Direction(r.sender), r.pending, now);
              && drained.Some?
              && drained.value.encryptionRoot == r.tx.encryptionRoot
              && drained.value.peerDhPublic == Point(r.tx.myDhSecret)
              && r.tx.peerDhPublic == Point(drained.value.myDhSecret)
    ensures var roots := Run(w, actions).roots;
            forall i, j | 0 <= i < j < |roots| :: roots[i] != roots[j]
  {
    RunKeepsInv(w, actions);
  }

  /** No action of any run changes the signing keys or the lifetime of either end. */
  lemma {:induction false} SigningAndExpiryFixed(w: World, actions: seq<Action>)
    ensures var r := Run(w, actions);
            var same := r.sender == w.sender;
            && SameSession(r.tx, if same then w.tx else w.rx)
            && SameSession(r.rx, if same then w.rx else w.tx)
    decreases |actions|
  {
    if actions == [] {
    } else {
      SigningAndExpiryFixed(Step(w, actions[0]), actions[1..]);
    }
  }

  /** With the clock before expiry, delivery takes in the oldest pending message of any reachable world. */
  lemma {:induction false} DeliveryNeverStalls(w: World, actions: seq<Action>, now: u64)
    requires Opening(w)
    ensures var r := Run(w, actions);
            r.pending != [] && !r.rx.IsExpired(now) ==>
              Step(r, Deliver(now)).pending == r.pending[1..]
  {
    RunKeepsInv(w, actions);
    var r := Run(w, actions);
    if r.pending != [] && !r.rx.IsExpired(now) {
      assert Drain(r.rx, r.sessionId, Direction(r.sender), r.pending, now).Some?;
    }
  }
}
