/**
  Pages that list pending messages in any order, mixed with anything else. Which events a receiver
  takes in, and how many scans it takes until all pending messages are in.
 */
module PendingMessages {
  import opened Prelude
  import opened ConnectSession
  import opened ConnectMessages
  import opened WalletScan

  /**
    `rx[j]` is the receiver after taking in the first j messages of `m`, the sender's messages in
    the order it sent them.
   */
  ghost predicate Pending(rx: seq<SessionState>, m: seq<Envelope>, sessionId: string, dir: string) {
    && |rx| == |m| + 1
    && !IsBlank(sessionId)
    && forall j, now: u64 {:trigger TakeIn(rx[j], sessionId, dir, m[j], now)} | 0 <= j < |m| && !rx[0].IsExpired(now) ::
         && TakeIn(rx[j], sessionId, dir, m[j], now).Some?
         && TakeIn(rx[j], sessionId, dir, m[j], now).value.state == rx[j + 1]
  }

  /** A body sealed under a root one re-key away from `r`. */
  predicate DerivedFrom(b: Body, r: Root) {
    b.Sealed? && b.root.RekeyRoot? && b.root.parent == r
  }

  /**
    AEAD unforgeability: on this log, the only bodies sealed under a root derived from one of the
    session's current roots are the sender's own. Their ciphertexts may be copied into any envelope.
   */
  ghost predicate OnlySenderSeals(rx: seq<SessionState>, m: seq<Envelope>, bodies: set<Body>)
    requires |rx| == |m| + 1
  {
    forall b, j | b in bodies && 0 <= j <= |m| && DerivedFrom(b, rx[j].encryptionRoot) :: j < |m| && b == m[j].body
  }

  function BodiesOf(page: seq<Sighting>): set<Body> {
    set i | 0 <= i < |page| && page[i].text.IsEnvelope? :: page[i].text.env.body
  }

  /** The states a matched receiver goes through, and what the sender emits, for a list of drafts. */
  function SendAll(tx: SessionState, sessionId: string, dir: string, ds: seq<Draft>)
    : Option<(seq<Envelope>, SessionState)>
    decreases |ds|
  {
    if ds == [] then Some(([], tx))
    else
      match Send(tx, sessionId, dir, ds[0])
      case None => None
      case Some(out) =>
        match SendAll(out.updated, sessionId, dir, ds[1..])
        case None => None
        case Some(rest) => Some(([out.env] + rest.0, rest.1))
  }

  /** What a caller put into the i-th draft is in the i-th message. */
  lemma {:induction false} SentCarriesDraft(tx: SessionState, sessionId: string, dir: string, ds: seq<Draft>, i: nat)
    requires SendAll(tx, sessionId, dir, ds).Some? && i < |ds|
    ensures var m := SendAll(tx, sessionId, dir, ds).value.0;
            && |m| == |ds|
            && m[i].msgType == ds[i].msgType && m[i].body.Sealed? && m[i].body.plain == Some(ds[i].body)
    decreases |ds|
  {
    var next := Send(tx, sessionId, dir, ds[0]).value.updated;
    if |ds| == 1 {
      assert ds[1..] == [];
    } else {
      SentCarriesDraft(next, sessionId, dir, ds[1..], if i == 0 then 0 else i - 1);
    }
  }

  /** One message in front of pending ones. */
  lemma {:induction false} PendingCons(
    first: SessionState, e: Envelope, rx: seq<SessionState>, m: seq<Envelope>, sessionId: string, dir: string)
    requires Pending(rx, m, sessionId, dir) && SameSession(first, rx[0])
    requires forall now: u64 | !first.IsExpired(now) ::
               TakeIn(first, sessionId, dir, e, now).Some? && TakeIn(first, sessionId, dir, e, now).value.state == rx[0]
    ensures Pending([first] + rx, [e] + m, sessionId, dir)
  {
    var states, all := [first] + rx, [e] + m;
    forall j, now: u64 | 0 <= j < |all| && !first.IsExpired(now)
      ensures TakeIn(states[j], sessionId, dir, all[j], now).Some?
      ensures TakeIn(states[j], sessionId, dir, all[j], now).value.state == states[j + 1]
    {
      if j > 0 {
        assert !rx[0].IsExpired(now);
        assert TakeIn(rx[j - 1], sessionId, dir, m[j - 1], now).Some?;
      }
    }
  }

  /** Whatever a sender sends in a row is pending at its matched peer, and draining it ends matched. */
  lemma {:induction false} SentMessagesArePending(
    tx: SessionState, rx: SessionState, sessionId: string, dir: string, ds: seq<Draft>)
    returns (states: seq<SessionState>)
    requires Matched(tx, rx) && !IsBlank(sessionId) && SendAll(tx, sessionId, dir, ds).Some?
    ensures Pending(states, SendAll(tx, sessionId, dir, ds).value.0, sessionId, dir)
    ensures states[0] == rx && Matched(SendAll(tx, sessionId, dir, ds).value.1, states[|states| - 1])
    ensures ds != [] ==> Matched(Send(tx, sessionId, dir, ds[0]).value.updated, states[1])
    decreases |ds|
  {
    if ds == [] {
      return [rx];
    }
    var out := Send(tx, sessionId, dir, ds[0]).value;
    SendThenTakeIn(tx, rx, sessionId, dir, ds[0], 0);
    var next := TakeIn(rx, sessionId, dir, out.env, 0).value.state;
    var rest := SentMessagesArePending(out.updated, next, sessionId, dir, ds[1..]);
    forall now: u64 | !rx.IsExpired(now)
      ensures TakeIn(rx, sessionId, dir, out.env, now).Some?
      ensures TakeIn(rx, sessionId, dir, out.env, now).value.state == next
    {
      SendThenTakeIn(tx, rx, sessionId, dir, ds[0], now);
    }
    PendingCons(rx, out.env, rest, SendAll(out.updated, sessionId, dir, ds[1..]).value.0, sessionId, dir);
    states := [rx] + rest;
  }

  /** Every pending message was sealed under the root its receiver reaches by taking it in. */
  lemma {:induction false} PendingShape(rx: seq<SessionState>, m: seq<Envelope>, sessionId: string, dir: string, j: nat)
    requires Pending(rx, m, sessionId, dir) && j <= |m|
    ensures SameSession(rx[0], rx[j])
    ensures Depth(rx[j].encryptionRoot) == Depth(rx[0].encryptionRoot) + j
  {
    if j == 0 {
    } else {
      PendingShape(rx, m, sessionId, dir, j - 1);
      assert !rx[0].IsExpired(0);
      TakeInNeedsDerivedRoot(rx[j - 1], sessionId, dir, m[j - 1], 0);
    }
  }

  /**
    From the j-th state a receiver takes in the j-th pending message and nothing else: a copy with
    any clear field changed, a later or earlier message, or a foreign body is refused.
   */
  lemma {:induction false} OnlyNextIsTakenIn(
    rx: seq<SessionState>, m: seq<Envelope>, sessionId: string, dir: string, bodies: set<Body>, j: nat,
    env: Envelope, now: u64)
    requires Pending(rx, m, sessionId, dir) && OnlySenderSeals(rx, m, bodies)
    requires j <= |m| && env.body in bodies && !rx[0].IsExpired(now)
    ensures TakeIn(rx[j], sessionId, dir, env, now).Some? <==> j < |m| && env == m[j]
  {
    if TakeIn(rx[j], sessionId, dir, env, now).Some? {
      TakeInNeedsDerivedRoot(rx[j], sessionId, dir, env, now);
      assert env.body.root.parent == rx[j].encryptionRoot;
      TakeInNeedsDerivedRoot(rx[j], sessionId, dir, m[j], now);
      SharedSecretLaws(rx[j].myDhSecret, 0, env.dhPublic.value, m[j].dhPublic.value);
    }
  }

  /** How far a scan from the j-th state gets: it steps on at each sighting of the next message. */
  function Progress(j: nat, m: seq<Envelope>, page: seq<Sighting>): (k: nat)
    requires j <= |m|
    ensures j <= k <= |m|
    decreases |page|
  {
    if page == [] then j
    else if j < |m| && page[0].text == IsEnvelope(m[j]) then Progress(j + 1, m, page[1..])
    else Progress(j, m, page[1..])
  }

  function Envelopes(s: seq<Sighting>): seq<Envelope>
    requires AllEnvelopes(s)
  {
    seq(|s|, i requires 0 <= i < |s| => s[i].text.env)
  }

  predicate AllEnvelopes(s: seq<Sighting>) {
    forall i | 0 <= i < |s| :: s[i].text.IsEnvelope?
  }

  lemma {:induction false} EnvelopesAppend(s: seq<Sighting>, t: seq<Sighting>)
    requires AllEnvelopes(s) && AllEnvelopes(t)
    ensures AllEnvelopes(s + t) && Envelopes(s + t) == Envelopes(s) + Envelopes(t)
  {
  }

  ghost predicate Unexpired(st: SessionState, page: seq<Sighting>) {
    forall i | 0 <= i < |page| :: !st.IsExpired(page[i].now)
  }

  /** A scan accepts exactly the next messages in sender order, each at its first sighting in turn. */
  lemma {:induction false} ScanAcceptsInSenderOrder(
    rx: seq<SessionState>, m: seq<Envelope>, sessionId: string, bodies: set<Body>, j: nat, page: seq<Sighting>)
    requires Pending(rx, m, sessionId, C2W) && OnlySenderSeals(rx, m, bodies)
    requires j <= |m| && BodiesOf(page) <= bodies && Unexpired(rx[0], page)
    ensures var k := Progress(j, m, page);
            var got := Accepted(rx[j], sessionId, page);
            && After(rx[j], sessionId, page) == rx[k]
            && AllEnvelopes(got)
            && Envelopes(got) == m[j..k]
    decreases |page|
  {
    if page == [] {
      assert m[j..j] == [];
    } else {
      assert BodiesOf(page[1..]) <= bodies by {
        forall i | 0 <= i < |page[1..]| && page[1..][i].text.IsEnvelope? ensures page[1..][i].text.env.body in bodies {
          assert page[i + 1].text.env.body in BodiesOf(page);
        }
      }
      if page[0].text.IsEnvelope? {
        assert page[0].text.env.body in BodiesOf(page);
        OnlyNextIsTakenIn(rx, m, sessionId, C2W, bodies, j, page[0].text.env, page[0].now);
      }
      var next := if j < |m| && page[0].text == IsEnvelope(m[j]) then j + 1 else j;
      ScanAcceptsInSenderOrder(rx, m, sessionId, bodies, next, page[1..]);
      if next > j {
        EnvelopesAppend([page[0]], Accepted(rx[next], sessionId, page[1..]));
        assert m[j..Progress(j, m, page)] == [m[j]] + m[next..Progress(j, m, page)];
        assert Envelopes([page[0]]) == [m[j]];
      }
    }
  }

  /** A page that lists the next message lets the scan get past it. */
  lemma {:induction false} ProgressIsMade(j: nat, m: seq<Envelope>, page: seq<Sighting>, at: nat)
    requires j < |m| && at < |page| && page[at].text == IsEnvelope(m[j])
    ensures Progress(j, m, page) > j
    decreases |page|
  {
    if page[0].text != IsEnvelope(m[j]) {
      ProgressIsMade(j, m, page[1..], at - 1);
    }
  }

  ghost predicate Shows(page: seq<Sighting>, e: Envelope) {
    exists i :: 0 <= i < |page| && page[i].text == IsEnvelope(e)
  }

  /** A page that lists all of `m`, in whatever order and company. */
  ghost predicate Lists(page: seq<Sighting>, m: seq<Envelope>) {
    forall j | 0 <= j < |m| :: Shows(page, m[j])
  }

  lemma {:induction false} ListedIsPassed(j: nat, m: seq<Envelope>, page: seq<Sighting>)
    requires j < |m| && Lists(page, m)
    ensures Progress(j, m, page) > j
  {
    assert Shows(page, m[j]);
    var at :| 0 <= at < |page| && page[at].text == IsEnvelope(m[j]);
    ProgressIsMade(j, m, page, at);
  }

  /**
    n pending messages need at most n scans: as many scans as messages are left, each of a page that
    lists all of them in any order among any other events, accept all of them once and in sender order.
   */
  lemma {:induction false} EnoughScansAcceptAll(
    rx: seq<SessionState>, m: seq<Envelope>, sessionId: string, bodies: set<Body>, j: nat,
    pages: seq<seq<Sighting>>)
    requires Pending(rx, m, sessionId, C2W) && OnlySenderSeals(rx, m, bodies) && j <= |m|
    requires forall p | p in pages :: BodiesOf(p) <= bodies && Unexpired(rx[0], p) && Lists(p, m)
    requires |pages| >= |m| - j
    ensures var got := AcceptedInPages(rx[j], sessionId, pages);
            && AfterPages(rx[j], sessionId, pages) == rx[|m|]
            && AllEnvelopes(got)
            && Envelopes(got) == m[j..]
    decreases |pages|
  {
    if pages == [] {
      assert m[j..] == [];
    } else {
      var k := Progress(j, m, pages[0]);
      var first := Accepted(rx[j], sessionId, pages[0]);
      assert After(rx[j], sessionId, pages[0]) == rx[k] && AllEnvelopes(first) && Envelopes(first) == m[j..k] by {
        ScanAcceptsInSenderOrder(rx, m, sessionId, bodies, j, pages[0]);
      }
      assert j < |m| ==> k > j by {
        if j < |m| {
          ListedIsPassed(j, m, pages[0]);
        }
      }
      var rest := pages[1..];
      assert forall p | p in rest :: p in pages;
      EnoughScansAcceptAll(rx, m, sessionId, bodies, k, rest);
      EnvelopesAppend(first, AcceptedInPages(rx[k], sessionId, rest));
      assert m[j..] == m[j..k] + m[k..];
    }
  }

  /** `r` is the root of the receiver or of one of the messages sent to it. */
  ghost predicate SessionRoot(root: Root, m: seq<Envelope>, r: Root) {
    r == root || exists i :: 0 <= i < |m| && m[i].body.Sealed? && r == m[i].body.root
  }

  ghost predicate IsBodyOf(m: seq<Envelope>, b: Body) {
    exists i :: 0 <= i < |m| && b == m[i].body
  }

  /**
    The log, as a caller may know it: only the sender seals under a root derived from one of the session's
    current roots. Older bodies, and those of other sessions at any depth, are all allowed.
   */
  ghost predicate NoStrangerSeals(root: Root, m: seq<Envelope>, bodies: set<Body>) {
    forall b | b in bodies && b.Sealed? && b.root.RekeyRoot? && SessionRoot(root, m, b.root.parent) :: IsBodyOf(m, b)
  }

  /** The roots a receiver goes through are its own and those of the messages. */
  lemma {:induction false} RootOfState(rx: seq<SessionState>, m: seq<Envelope>, sessionId: string, dir: string, j: nat)
    requires Pending(rx, m, sessionId, dir) && j <= |m|
    ensures SessionRoot(rx[0].encryptionRoot, m, rx[j].encryptionRoot)
    ensures j < |m| ==> && m[j].body.Sealed?
                        && Depth(m[j].body.root) == Depth(rx[0].encryptionRoot) + j + 1
  {
    PendingShape(rx, m, sessionId, dir, j);
    assert !rx[0].IsExpired(0);
    if j < |m| {
      TakeInNeedsDerivedRoot(rx[j], sessionId, dir, m[j], 0);
    }
    if j > 0 {
      TakeInNeedsDerivedRoot(rx[j - 1], sessionId, dir, m[j - 1], 0);
    }
  }

  /** On such a log only the sender's j-th message can be derived from the j-th state's root. */
  lemma {:induction false} NoStrangerIsOnlySender(
    rx: seq<SessionState>, m: seq<Envelope>, sessionId: string, dir: string, bodies: set<Body>)
    requires Pending(rx, m, sessionId, dir) && NoStrangerSeals(rx[0].encryptionRoot, m, bodies)
    ensures OnlySenderSeals(rx, m, bodies)
  {
    forall b, j | b in bodies && 0 <= j <= |m| && DerivedFrom(b, rx[j].encryptionRoot)
      ensures j < |m| && b == m[j].body
    {
      RootOfState(rx, m, sessionId, dir, j);
      PendingShape(rx, m, sessionId, dir, j);
      assert IsBodyOf(m, b);
      var i :| 0 <= i < |m| && b == m[i].body;
      RootOfState(rx, m, sessionId, dir, i);
    }
  }

  /** A log of the sender's new bodies and of bodies no deeper than the receiver is such a log. */
  lemma {:induction false} OldAndOwnAreNoStrangers(
    rx: seq<SessionState>, m: seq<Envelope>, sessionId: string, dir: string, bodies: set<Body>)
    requires Pending(rx, m, sessionId, dir)
    requires forall b | b in bodies && b.Sealed? :: Depth(b.root) <= Depth(rx[0].encryptionRoot) || IsBodyOf(m, b)
    ensures NoStrangerSeals(rx[0].encryptionRoot, m, bodies)
  {
    forall i | 0 <= i < |m| ensures m[i].body.Sealed? && Depth(m[i].body.root) > Depth(rx[0].encryptionRoot) {
      RootOfState(rx, m, sessionId, dir, i);
    }
  }

  /**
    End to end: whatever a client sends in a row to its matched wallet, as many scans of pages that list
    it all among any events, in any order, bring the wallet back to a state matched with the client.
   */
  lemma {:induction false} ScansCatchUp(
    tx: SessionState, rx: SessionState, sessionId: string, ds: seq<Draft>, bodies: set<Body>,
    pages: seq<seq<Sighting>>)
    requires Matched(tx, rx) && !IsBlank(sessionId) && SendAll(tx, sessionId, C2W, ds).Some?
    requires var m := SendAll(tx, sessionId, C2W, ds).value.0;
             && NoStrangerSeals(rx.encryptionRoot, m, bodies)
             && (forall p | p in pages :: BodiesOf(p) <= bodies && Unexpired(rx, p) && Lists(p, m))
             && |pages| >= |m|
    ensures Matched(SendAll(tx, sessionId, C2W, ds).value.1, AfterPages(rx, sessionId, pages))
    ensures var got := AcceptedInPages(rx, sessionId, pages);
            AllEnvelopes(got) && Envelopes(got) == SendAll(tx, sessionId, C2W, ds).value.0
  {
    var m := SendAll(tx, sessionId, C2W, ds).value.0;
    var states := SentMessagesArePending(tx, rx, sessionId, C2W, ds);
    NoStrangerIsOnlySender(states, m, sessionId, C2W, bodies);
    EnoughScansAcceptAll(states, m, sessionId, bodies, 0, pages);
  }
}
