/**
  Runs without the half-duplex discipline: any side sends at any time and any envelope may reach
  any side, in any order, any number of times, with its clear fields tampered with. The one limit is
  AEAD unforgeability: a sealed body on the log was sealed by one of the two parties.

  A side that sends while messages are pending for it leaves both next messages unopened. If the two
  re-keys differ the key chains have forked, and no message is ever taken in again. This is what the
  client reports as `session_desync`.
 */
module Desync {
  import opened Prelude
  import opened ConnectSession
  import opened ConnectMessages
  import opened HalfDuplex

  datatype Net = Net(sessionId: string, client: SessionState, wallet: SessionState, bodies: set<Body>)

  datatype Move =
    | Emit(role: Role, draft: Draft)
    | Arrive(role: Role, env: Envelope, now: u64)

  function End(n: Net, role: Role): SessionState {
    if role.Client? then n.client else n.wallet
  }

  function WithEnd(n: Net, role: Role, st: SessionState): Net {
    if role.Client? then n.(client := st) else n.(wallet := st)
  }

  function Peer(role: Role): Role {
    if role.Client? then Wallet else Client
  }

  predicate OnLog(n: Net, env: Envelope) {
    env.body.Sealed? ==> env.body in n.bodies
  }

  function Apply(n: Net, m: Move): Net {
    match m
    case Emit(role, draft) =>
      (match Send(End(n, role), n.sessionId, Direction(role), draft)
       case None => n
       case Some(out) => WithEnd(n, role, out.updated).(bodies := n.bodies + {out.env.body}))
    case Arrive(role, env, now) =>
      if !OnLog(n, env) then n
      else
        match TakeIn(End(n, role), n.sessionId, Direction(Peer(role)), env, now)
        case None => n
        case Some(t) => WithEnd(n, role, t.state)
  }

  function ApplyAll(n: Net, moves: seq<Move>): Net
    decreases |moves|
  {
    if moves == [] then n else ApplyAll(Apply(n, moves[0]), moves[1..])
  }

  /** `b` was derived from `a` by zero or more re-keys. */
  predicate Descends(b: Root, a: Root)
    decreases b
  {
    b == a || (b.RekeyRoot? && Descends(b.parent, a))
  }

  predicate Forked(a: Root, b: Root) {
    !Descends(a, b) && !Descends(b, a)
  }

  /** A body sealed by a side was sealed under a root that side has passed through. */
  ghost predicate LogSound(n: Net) {
    forall b | b in n.bodies ::
      b.Sealed? && (b.aad.dir == C2W || b.aad.dir == W2C)
      && Descends(if b.aad.dir == C2W then n.client.encryptionRoot else n.wallet.encryptionRoot, b.root)
  }

  lemma {:induction false} DescendsTransitive(c: Root, b: Root, a: Root)
    requires Descends(c, b) && Descends(b, a)
    ensures Descends(c, a)
    decreases c
  {
    if c == b {
    } else {
      DescendsTransitive(c.parent, b, a);
    }
  }

  lemma {:induction false} DescendsIsDeeper(b: Root, a: Root)
    requires Descends(b, a)
    ensures Depth(b) >= Depth(a) && (Depth(b) == Depth(a) ==> a == b)
    decreases b
  {
    if b == a {
    } else {
      DescendsIsDeeper(b.parent, a);
    }
  }

  /** A re-key of one side keeps a fork and keeps the bodies that side sealed before. */
  lemma {:induction false} RekeyKeepsFork(a: Root, b: Root, shared: SharedSecret, sessionId: string)
    requires Forked(a, b)
    ensures Forked(RekeyRoot(a, shared, sessionId), b)
  {
    var a' := RekeyRoot(a, shared, sessionId);
    if Descends(b, a') {
      assert Descends(a', a);
      DescendsTransitive(b, a', a);
    }
  }

  /** After a fork no envelope is taken in by either side, whatever its clear fields say. */
  lemma {:induction false} ForkedTakesNothing(n: Net, role: Role, env: Envelope, now: u64)
    requires LogSound(n) && Forked(n.client.encryptionRoot, n.wallet.encryptionRoot)
    requires OnLog(n, env)
    ensures TakeIn(End(n, role), n.sessionId, Direction(Peer(role)), env, now).None?
  {
    var dir := Direction(Peer(role));
    if TakeIn(End(n, role), n.sessionId, dir, env, now).Some? {
      TakeInNeedsDerivedRoot(End(n, role), n.sessionId, dir, env, now);
      assert Descends(env.body.root, End(n, role).encryptionRoot);
      DescendsTransitive(End(n, Peer(role)).encryptionRoot, env.body.root, End(n, role).encryptionRoot);
    }
  }

  /** A send keeps the log sound; on a forked net it keeps the fork. */
  lemma {:induction false} EmitKeeps(n: Net, role: Role, draft: Draft)
    requires LogSound(n)
    ensures LogSound(Apply(n, Emit(role, draft)))
    ensures Forked(n.client.encryptionRoot, n.wallet.encryptionRoot) ==>
              var n' := Apply(n, Emit(role, draft));
              Forked(n'.client.encryptionRoot, n'.wallet.encryptionRoot)
  {
    var n' := Apply(n, Emit(role, draft));
    if n' == n { return; }
    var st := End(n, role);
    var out := Send(st, n.sessionId, Direction(role), draft).value;
    assert Descends(out.updated.encryptionRoot, st.encryptionRoot);
    forall b | b in n.bodies && b.aad.dir == Direction(role)
      ensures Descends(out.updated.encryptionRoot, b.root)
    {
      DescendsTransitive(out.updated.encryptionRoot, st.encryptionRoot, b.root);
    }
    if Forked(n.client.encryptionRoot, n.wallet.encryptionRoot) {
      RekeyKeepsFork(
        st.encryptionRoot, End(n, Peer(role)).encryptionRoot, out.updated.encryptionRoot.shared, n.sessionId);
    }
  }

  /** No arrival changes the net. */
  ghost predicate NothingArrives(n: Net, moves: seq<Move>)
    decreases |moves|
  {
    moves == [] || ((moves[0].Arrive? ==> Apply(n, moves[0]) == n) && NothingArrives(Apply(n, moves[0]), moves[1..]))
  }

  /** A fork is permanent: over every later run nothing is taken in and the chains stay apart. */
  lemma {:induction false} ForkIsPermanent(n: Net, moves: seq<Move>)
    requires LogSound(n) && Forked(n.client.encryptionRoot, n.wallet.encryptionRoot)
    ensures NothingArrives(n, moves)
    ensures var n' := ApplyAll(n, moves);
            LogSound(n') && Forked(n'.client.encryptionRoot, n'.wallet.encryptionRoot)
    decreases |moves|
  {
    if moves == [] {
    } else {
      match moves[0] {
        case Emit(role, draft) => EmitKeeps(n, role, draft);
        case Arrive(role, env, now) =>
          if OnLog(n, env) {
            ForkedTakesNothing(n, role, env, now);
          }
      }
      ForkIsPermanent(Apply(n, moves[0]), moves[1..]);
    }
  }

  /** Two roots re-keyed from one root by different shared secrets are a fork. */
  lemma {:induction false} SiblingsFork(r: Root, s: SharedSecret, t: SharedSecret, sessionId: string)
    requires s != t
    ensures Forked(RekeyRoot(r, s, sessionId), RekeyRoot(r, t, sessionId))
  {
    if Descends(r, RekeyRoot(r, s, sessionId)) { DescendsIsDeeper(r, RekeyRoot(r, s, sessionId)); }
    if Descends(r, RekeyRoot(r, t, sessionId)) { DescendsIsDeeper(r, RekeyRoot(r, t, sessionId)); }
  }

  // --- How a fork comes about ---

  /** Draining re-keys once per message, starting with the first. */
  lemma {:induction false} DrainDescends(
    st: SessionState, sessionId: string, dir: string, envs: seq<Envelope>, now: u64)
    requires Drain(st, sessionId, dir, envs, now).Some?
    ensures var r := Drain(st, sessionId, dir, envs, now).value;
            && Depth(r.encryptionRoot) == Depth(st.encryptionRoot) + |envs|
            && (if envs == [] then r == st else envs[0].body.Sealed? && Descends(r.encryptionRoot, envs[0].body.root))
    decreases |envs|
  {
    if envs == [] {
    } else {
      TakeInNeedsDerivedRoot(st, sessionId, dir, envs[0], now);
      var next := TakeIn(st, sessionId, dir, envs[0], now).value.state;
      DrainDescends(next, sessionId, dir, envs[1..], now);
      if envs[1..] != [] {
        TakeInNeedsDerivedRoot(next, sessionId, dir, envs[1], now);
        assert Descends(envs[1].body.root, envs[0].body.root);
        var last := Drain(st, sessionId, dir, envs, now).value;
        DescendsTransitive(last.encryptionRoot, envs[1].body.root, envs[0].body.root);
      }
    }
  }

  /** The sender's root comes from the oldest pending message's, which comes from the receiver's. */
  lemma {:induction false} PendingShape(w: World)
    requires Agrees(w) && w.pending != []
    ensures Depth(w.tx.encryptionRoot) == Depth(w.rx.encryptionRoot) + |w.pending|
    ensures var first := w.pending[0];
            && first.body.Sealed? && Descends(w.tx.encryptionRoot, first.body.root)
            && first.dhPublic.Some? && ComputeSharedSecret(w.rx.myDhSecret, first.dhPublic.value).Ok?
            && first.body.root
               == RekeyRoot(w.rx.encryptionRoot,
                            ComputeSharedSecret(w.rx.myDhSecret, first.dhPublic.value).value, w.sessionId)
  {
    var dir := Direction(w.sender);
    assert !w.rx.IsExpired(0);
    assert Drain(w.rx, w.sessionId, dir, w.pending, 0).Some?;
    DrainDescends(w.rx, w.sessionId, dir, w.pending, 0);
    TakeInNeedsDerivedRoot(w.rx, w.sessionId, dir, w.pending[0], 0);
  }

  /** The receiver sends although messages are pending for it. */
  function CrossingSend(w: World, d: Draft): Option<Outgoing> {
    Send(w.rx, w.sessionId, Direction(Peer(w.sender)), d)
  }

  /**
    Neither the crossing message nor the oldest pending one opens afterwards, whatever keys were drawn: each
    was sealed under a root that its receiver has already left behind.
   */
  lemma {:induction false} CrossingNeverOpens(w: World, d: Draft, now: u64)
    requires Agrees(w) && w.pending != [] && CrossingSend(w, d).Some?
    ensures var out := CrossingSend(w, d).value;
            && TakeIn(w.tx, w.sessionId, Direction(Peer(w.sender)), out.env, now).None?
            && TakeIn(out.updated, w.sessionId, Direction(w.sender), w.pending[0], now).None?
  {
    var out := CrossingSend(w, d).value;
    PendingShape(w);
    if TakeIn(w.tx, w.sessionId, Direction(Peer(w.sender)), out.env, now).Some? {
      TakeInNeedsDerivedRoot(w.tx, w.sessionId, Direction(Peer(w.sender)), out.env, now);
    }
    if TakeIn(out.updated, w.sessionId, Direction(w.sender), w.pending[0], now).Some? {
      TakeInNeedsDerivedRoot(out.updated, w.sessionId, Direction(w.sender), w.pending[0], now);
    }
  }

  /** The chains fork exactly when the crossing re-key and that of the oldest pending message differ. */
  lemma {:induction false} CrossingForksExactly(w: World, d: Draft)
    requires Agrees(w) && w.pending != [] && CrossingSend(w, d).Some?
    ensures var out := CrossingSend(w, d).value;
            && w.pending[0].body.Sealed? && out.env.body.Sealed?
            && (Forked(w.tx.encryptionRoot, out.updated.encryptionRoot) <==>
                  w.pending[0].body.root != out.env.body.root)
            && (w.pending[0].dhPublic != Some(Point(d.ephemeral)) && d.ephemeral != w.rx.myDhSecret ==>
                  Forked(w.tx.encryptionRoot, out.updated.encryptionRoot))
  {
    PendingShape(w);
    var mine, theirs := CrossingSend(w, d).value.updated.encryptionRoot, w.pending[0].body.root;
    if mine != theirs {
      SiblingsFork(w.rx.encryptionRoot, mine.shared, theirs.shared, w.sessionId);
      if Descends(w.tx.encryptionRoot, mine) {
        CommonDescendant(w.tx.encryptionRoot, mine, theirs);
      }
      if Descends(mine, w.tx.encryptionRoot) {
        DescendsTransitive(mine, w.tx.encryptionRoot, theirs);
      }
    }
  }

  /** Two ancestors of one root are not a fork. */
  lemma {:induction false} CommonDescendant(c: Root, a: Root, b: Root)
    requires Descends(c, a) && Descends(c, b)
    ensures !Forked(a, b)
    decreases c
  {
    if c == a || c == b {
    } else {
      CommonDescendant(c.parent, a, b);
    }
  }

  /** In every run of the net, bodies stay sealed under roots their sender has passed through. */
  lemma {:induction false} LogStaysSound(n: Net, moves: seq<Move>)
    requires LogSound(n)
    ensures LogSound(ApplyAll(n, moves))
    decreases |moves|
  {
    if moves == [] {
    } else {
      match moves[0] {
        case Emit(role, draft) => EmitKeeps(n, role, draft);
        case Arrive(role, env, now) => ArriveKeeps(n, role, env, now);
      }
      LogStaysSound(Apply(n, moves[0]), moves[1..]);
    }
  }

  lemma {:induction false} ArriveKeeps(n: Net, role: Role, env: Envelope, now: u64)
    requires LogSound(n)
    ensures LogSound(Apply(n, Arrive(role, env, now)))
  {
    var n' := Apply(n, Arrive(role, env, now));
    if n' != n {
      var st := End(n, role);
      TakeInNeedsDerivedRoot(st, n.sessionId, Direction(Peer(role)), env, now);
      assert Descends(End(n', role).encryptionRoot, st.encryptionRoot);
      forall b | b in n.bodies && b.aad.dir == Direction(role)
        ensures Descends(End(n', role).encryptionRoot, b.root)
      {
        DescendsTransitive(End(n', role).encryptionRoot, st.encryptionRoot, b.root);
      }
    }
  }

  /**
    From any half-duplex run, with any number of messages pending of which some may have been taken in: if
    the receiver sends before it has taken in the rest, neither side opens the other's next message. If the
    two re-keys differ, as they do for a newly drawn key, nothing is taken in over any later run.
   */
  lemma {:induction false} CrossingSendsDesync(start: World, actions: seq<Action>, d: Draft, n: Net, moves: seq<Move>)
    requires Opening(start)
    requires var w := Run(start, actions);
             && w.pending != [] && CrossingSend(w, d).Some?
             && LogSound(n) && n.sessionId == w.sessionId && End(n, w.sender) == w.tx && End(n, Peer(w.sender)) == w.rx
    ensures var w := Run(start, actions);
            var out := CrossingSend(w, d).value;
            var n' := Apply(n, Emit(Peer(w.sender), d));
            && (forall now: u64 :: TakeIn(w.tx, w.sessionId, Direction(Peer(w.sender)), out.env, now).None?)
            && (forall now: u64 :: TakeIn(out.updated, w.sessionId, Direction(w.sender), w.pending[0], now).None?)
            && w.pending[0].body.Sealed? && out.env.body.Sealed?
            && (w.pending[0].body.root != out.env.body.root ==>
                  && NothingArrives(n', moves)
                  && ApplyAll(n', moves).client.encryptionRoot != ApplyAll(n', moves).wallet.encryptionRoot)
  {
    RunKeepsInv(start, actions);
    var w := Run(start, actions);
    forall now: u64
      ensures TakeIn(w.tx, w.sessionId, Direction(Peer(w.sender)), CrossingSend(w, d).value.env, now).None?
      ensures TakeIn(CrossingSend(w, d).value.updated, w.sessionId, Direction(w.sender), w.pending[0], now).None?
    {
      CrossingNeverOpens(w, d, now);
    }
    CrossingForksExactly(w, d);
    if w.pending[0].body.root != CrossingSend(w, d).value.env.body.root {
      EmitKeeps(n, Peer(w.sender), d);
      ForkIsPermanent(Apply(n, Emit(Peer(w.sender), d)), moves);
    }
  }
}
