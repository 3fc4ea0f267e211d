/**
  The miner's worker pool (bee_miner/src/wasm/worker.rs and miner.rs) as a cooperative scheduler.
  A worker's run is cut into atomic segments at its awaits and at its callbacks, from which the page
  may call back into the miner; every interleaving of segments, page calls and chain events is a run.

  Worker ids are distinct, so an id here is the position of the worker in the order of starting.
 */
module WorkerPool {
  import opened Prelude

  type Seed = string

  datatype Status = Queued | Computing | Submitting | Finished

  datatype Command = Stop | QueueTap | SendSessionInterval | SessionAccepted | SessionRejected

  /** Where a worker's run stands: the segment it will execute next. */
  datatype Phase =
    | Spawned        // not polled yet
    | Resolving      // awaiting the session complexity
    | Hashing        // in the computation loop
    | Sealed         // both trees committed
    | AwaitSlot      // waiting until no worker is submitting
    | SendingRoot    // awaiting submit_session_root
    | AwaitInterval  // waiting for a command
    | SendingProof   // awaiting submit_session_proof
    | Closing        // status finished, still registered
    | Done

  datatype Task = Task(seed: Seed, phase: Phase, mailbox: seq<Command>, timeLeaves: nat, tapLeaves: nat)

  /** `registry` is the shared `workers` list: the registered ids with their status. */
  datatype Pool = Pool(
    seeds: seq<Seed>,
    registry: map<nat, Status>,
    tasks: seq<Task>,
    used: multiset<Seed>,
    announced: multiset<Seed>,
    removed: multiset<Seed>)

  datatype Action =
    | Start
    | StopAll
    | AddTap
    | RemoveSeed(seed: Seed)
    | SeedUpdated(seed: Seed)
    | Event(to: nat, command: Command)
    | Poll(worker: nat, flag: bool, deadline: bool)

  predicate AnyWith(registry: map<nat, Status>, s: Status) {
    exists id :: id in registry && registry[id] == s
  }

  /** `update_worker_status`: an unregistered worker's status is nowhere. */
  function SetStatus(registry: map<nat, Status>, id: nat, s: Status): map<nat, Status> {
    if id in registry then registry[id := s] else registry
  }

  function Send(tasks: seq<Task>, id: nat, c: Command): seq<Task> {
    if id < |tasks| then tasks[id := tasks[id].(mailbox := tasks[id].mailbox + [c])] else tasks
  }

  function Without(s: seq<Seed>, seed: Seed): seq<Seed> {
    if s == [] then [] else (if s[0] == seed then [] else [s[0]]) + Without(s[1..], seed)
  }

  /** The first computing worker from `k` on: workers are registered in the order of starting. */
  function FirstComputing(registry: map<nat, Status>, k: nat, n: nat): Option<nat>
    decreases n - k
  {
    if k >= n then None
    else if k in registry && registry[k] == Computing then Some(k)
    else FirstComputing(registry, k + 1, n)
  }

  lemma {:induction false} FirstComputingIsFirst(registry: map<nat, Status>, k: nat, n: nat)
    ensures match FirstComputing(registry, k, n)
            case None => forall id | k <= id < n && id in registry :: registry[id] != Computing
            case Some(id) =>
              && k <= id < n && id in registry && registry[id] == Computing
              && forall j | k <= j < id && j in registry :: registry[j] != Computing
    decreases n - k
  {
    if k >= n || (k in registry && registry[k] == Computing) {
    } else {
      FirstComputingIsFirst(registry, k + 1, n);
    }
  }

  /** The first n workers with status computing have been sent `Stop`. */
  function StopFirst(registry: map<nat, Status>, tasks: seq<Task>, n: nat): seq<Task> {
    if n == 0 then tasks
    else
      var sent := StopFirst(registry, tasks, n - 1);
      if n - 1 in registry && registry[n - 1] == Computing then Send(sent, n - 1, Stop) else sent
  }

  function Registered(registry: map<nat, Status>): map<nat, Status> {
    map id | id in registry && registry[id] != Queued :: registry[id]
  }

  /** What a segment does to the worker's registration, and where its seed goes. */
  datatype Mark = Keep | Set(status: Status) | Remove

  datatype SeedFate = Held | Returned | Used

  datatype Turn = Turn(task: Task, mark: Mark, fate: SeedFate)

  /** `shutdown_worker` up to its first callback. */
  function Finish(t: Task, fate: SeedFate): Turn {
    Turn(t.(phase := Closing), Set(Finished), fate)
  }

  /**
    One atomic segment of a worker. `busy`: some registered worker is submitting; `flag` and `deadline`
    are what its hashing, sending or clock gave.
   */
  function Segment(t: Task, busy: bool, flag: bool, deadline: bool): Turn {
    match t.phase
    case Spawned => Turn(t.(phase := Resolving), Set(Computing), Held)
    case Resolving => Turn(t.(phase := Hashing), Keep, Held)
    case Hashing => Turn(HashOnce(t, flag, deadline), Keep, Held)
    case Sealed =>
      if t.timeLeaves == 0 || t.tapLeaves == 0 then Finish(t, Returned) else Turn(t.(phase := AwaitSlot), Keep, Held)
    case AwaitSlot => if busy then Turn(t, Keep, Held) else Turn(t.(phase := SendingRoot), Set(Submitting), Held)
    case SendingRoot => if flag then Turn(t.(phase := AwaitInterval), Keep, Held) else Finish(t, Used)
    case AwaitInterval =>
      if t.mailbox == [] then Turn(t, Keep, Held)
      else
        var rest := t.(mailbox := t.mailbox[1..]);
        (match t.mailbox[0]
         case SendSessionInterval => Turn(rest.(phase := SendingProof), Keep, Held)
         case SessionAccepted => Finish(rest, Used)
         case SessionRejected => Finish(rest, Used)
         case _ => Turn(rest, Keep, Held))
    case SendingProof => if flag then Turn(t.(phase := AwaitInterval), Keep, Held) else Finish(t, Used)
    case Closing => Turn(t.(phase := Done), Remove, Held)
    case Done => Turn(t, Keep, Held)
  }

  function Apply(p: Pool, id: nat, turn: Turn): Pool
    requires id < |p.tasks|
  {
    Pool(
      if turn.fate == Returned then [turn.task.seed] + p.seeds else p.seeds,
      match turn.mark
      case Keep => p.registry
      case Set(s) => SetStatus(p.registry, id, s)
      case Remove => p.registry - {id},
      p.tasks[id := turn.task],
      if turn.fate == Used then p.used + multiset{turn.task.seed} else p.used,
      p.announced,
      p.removed)
  }

  function PollStep(p: Pool, id: nat, flag: bool, deadline: bool): Pool
    requires id < |p.tasks|
  {
    Apply(p, id, Segment(p.tasks[id], AnyWith(p.registry, Submitting), flag, deadline))
  }

  /** One round of the computation loop: a command, or a time leaf if there is none; then the deadline. */
  function HashOnce(t: Task, mined: bool, deadline: bool): Task {
    var one := if mined then 1 else 0;
    var (after, stop) :=
      if t.mailbox == [] then (t.(timeLeaves := t.timeLeaves + one), false)
      else
        var rest := t.(mailbox := t.mailbox[1..]);
        if t.mailbox[0] == QueueTap then (rest.(tapLeaves := t.tapLeaves + one), false)
        else (rest, t.mailbox[0] == Stop);
    if stop || deadline then after.(phase := Sealed) else after
  }

  function Step(p: Pool, a: Action): Pool {
    match a
    case Start =>
      if AnyWith(p.registry, Computing) || p.seeds == [] then p
      else
        p.(seeds := p.seeds[1..],
           registry := p.registry[|p.tasks| := Queued],
           tasks := p.tasks + [Task(p.seeds[0], Spawned, [], 0, 0)])
    case StopAll =>
      var kept := Registered(p.registry);
      p.(registry := kept, tasks := StopFirst(kept, p.tasks, |p.tasks|))
    case AddTap =>
      (match FirstComputing(p.registry, 0, |p.tasks|)
       case None => p
       case Some(id) => p.(tasks := Send(p.tasks, id, QueueTap)))
    case RemoveSeed(s) =>
      var kept := Without(p.seeds, s);
      p.(seeds := kept, removed := p.removed + (multiset(p.seeds) - multiset(kept)))
    case SeedUpdated(s) => p.(seeds := p.seeds + [s], announced := p.announced + multiset{s})
    case Event(id, c) => if id in p.registry && c != QueueTap && c != Stop then p.(tasks := Send(p.tasks, id, c)) else p
    case Poll(id, flag, deadline) => if id < |p.tasks| then PollStep(p, id, flag, deadline) else p
  }

  function Run(p: Pool, actions: seq<Action>): Pool {
    if actions == [] then p else Step(Run(p, actions[..|actions| - 1]), actions[|actions| - 1])
  }

  function NewPool(seeds: seq<Seed>): Pool {
    Pool(seeds, map[], [], multiset{}, multiset{}, multiset{})
  }

  // --- One submitter ---

  predicate InSubmission(ph: Phase) {
    ph == SendingRoot || ph == AwaitInterval || ph == SendingProof
  }

  function StatusOf(ph: Phase): Status {
    match ph
    case Spawned => Queued
    case Resolving => Computing
    case Hashing => Computing
    case Sealed => Computing
    case AwaitSlot => Computing
    case SendingRoot => Submitting
    case AwaitInterval => Submitting
    case SendingProof => Submitting
    case Closing => Finished
    case Done => Finished
  }

  /** No tap has reached the worker and none is on its way. */
  predicate Untapped(t: Task) {
    t.tapLeaves == 0 && QueueTap !in t.mailbox
  }

  /** A registered worker's status is that of its phase; a worker outside the registry is untapped until it ends. */
  ghost predicate TaskGood(p: Pool, id: nat)
    requires id < |p.tasks|
  {
    var t := p.tasks[id];
    && (t.phase == Spawned ==> Untapped(t))
    && (id in p.registry ==> t.phase != Done && p.registry[id] == StatusOf(t.phase))
    && (id !in p.registry && t.phase != Done && t.phase != Closing ==>
          Untapped(t) && t.phase != AwaitSlot && !InSubmission(t.phase))
  }

  ghost predicate Inv(p: Pool) {
    && (forall id | id in p.registry :: id < |p.tasks|)
    && (forall id | 0 <= id < |p.tasks| :: TaskGood(p, id))
    && (forall a, b | a in p.registry && b in p.registry ::
          p.registry[a] == Submitting && p.registry[b] == Submitting ==> a == b)
  }

  /** A step that touches one task and at most its own registration. */
  ghost predicate Local(p: Pool, q: Pool, id: nat) {
    && |q.tasks| == |p.tasks| && id < |p.tasks|
    && (forall k | 0 <= k < |p.tasks| && k != id :: q.tasks[k] == p.tasks[k] && (k in q.registry <==> k in p.registry))
    && (forall k | k in q.registry && k != id :: k in p.registry && q.registry[k] == p.registry[k])
    && (id in q.registry ==> id in p.registry)
  }

  lemma {:induction false} LocalKeepsInv(p: Pool, q: Pool, id: nat)
    requires Inv(p) && Local(p, q, id) && TaskGood(q, id)
    requires id in q.registry && q.registry[id] == Submitting ==>
               p.registry[id] == Submitting || !AnyWith(p.registry, Submitting)
    ensures Inv(q)
  {
    forall k | 0 <= k < |q.tasks| ensures TaskGood(q, k) {
      if k != id {
        assert TaskGood(p, k);
      }
    }
  }

  lemma {:induction false} ApplyIsLocal(p: Pool, id: nat, turn: Turn)
    requires id < |p.tasks|
    ensures Local(p, Apply(p, id, turn), id)
  {
  }

  /** Segments move a worker's status with its phase, and tap nothing by themselves. */
  lemma {:induction false} SegmentMoves(t: Task, busy: bool, flag: bool, deadline: bool)
    ensures var turn := Segment(t, busy, flag, deadline);
            && turn.task.seed == t.seed
            && (Untapped(t) ==> Untapped(turn.task) && (turn.task.phase == AwaitSlot ==> t.phase == AwaitSlot))
            && turn.task.phase != Spawned
            && (turn.mark.Keep? ==>
                  StatusOf(turn.task.phase) == StatusOf(t.phase) && (turn.task.phase == Done ==> t.phase == Done))
            && (turn.mark.Set? ==> turn.mark.status == StatusOf(turn.task.phase) && turn.task.phase != Done)
            && (turn.mark.Remove? ==> turn.task.phase == Done)
            && (InSubmission(turn.task.phase) ==> InSubmission(t.phase) || (t.phase == AwaitSlot && !busy))
  {
  }

  lemma {:induction false} PollKeepsTask(p: Pool, id: nat, flag: bool, deadline: bool)
    requires id < |p.tasks| && TaskGood(p, id)
    ensures TaskGood(PollStep(p, id, flag, deadline), id)
  {
    SegmentMoves(p.tasks[id], AnyWith(p.registry, Submitting), flag, deadline);
  }

  lemma {:induction false} PollKeepsInv(p: Pool, id: nat, flag: bool, deadline: bool)
    requires Inv(p) && id < |p.tasks|
    ensures Inv(PollStep(p, id, flag, deadline))
  {
    var turn := Segment(p.tasks[id], AnyWith(p.registry, Submitting), flag, deadline);
    SegmentMoves(p.tasks[id], AnyWith(p.registry, Submitting), flag, deadline);
    ApplyIsLocal(p, id, turn);
    PollKeepsTask(p, id, flag, deadline);
    assert TaskGood(p, id);
    LocalKeepsInv(p, Apply(p, id, turn), id);
  }

  lemma {:induction false} SendKeepsInv(p: Pool, id: nat, c: Command)
    requires Inv(p) && id in p.registry && (c == QueueTap ==> p.registry[id] == Computing)
    ensures Inv(p.(tasks := Send(p.tasks, id, c)))
  {
    var q := p.(tasks := Send(p.tasks, id, c));
    assert TaskGood(p, id);
    LocalKeepsInv(p, q, id);
  }

  lemma {:induction false} StopFirstOnlySends(registry: map<nat, Status>, tasks: seq<Task>, n: nat)
    requires n <= |tasks|
    ensures var s := StopFirst(registry, tasks, n);
            |s| == |tasks| && forall k | 0 <= k < |tasks| ::
              s[k] == tasks[k] || s[k] == tasks[k].(mailbox := tasks[k].mailbox + [Stop])
    ensures forall k | n <= k < |tasks| :: StopFirst(registry, tasks, n)[k] == tasks[k]
  {
    if n == 0 {
    } else {
      StopFirstOnlySends(registry, tasks, n - 1);
    }
  }

  lemma {:induction false} StopKeepsInv(p: Pool)
    requires Inv(p)
    ensures Inv(Step(p, StopAll))
  {
    var q := Step(p, StopAll);
    StopFirstOnlySends(Registered(p.registry), p.tasks, |p.tasks|);
    forall k | 0 <= k < |q.tasks| ensures TaskGood(q, k) {
      assert TaskGood(p, k);
    }
  }

  lemma {:induction false} StartKeepsInv(p: Pool)
    requires Inv(p)
    ensures Inv(Step(p, Start))
  {
    var q := Step(p, Start);
    forall k | 0 <= k < |q.tasks| ensures TaskGood(q, k) {
      if k < |p.tasks| {
        assert TaskGood(p, k);
      }
    }
  }

  lemma {:induction false} StepKeepsInv(p: Pool, a: Action)
    requires Inv(p)
    ensures Inv(Step(p, a))
  {
    match a
    case Start => StartKeepsInv(p);
    case StopAll => StopKeepsInv(p);
    case AddTap =>
      FirstComputingIsFirst(p.registry, 0, |p.tasks|);
      if FirstComputing(p.registry, 0, |p.tasks|).Some? {
        SendKeepsInv(p, FirstComputing(p.registry, 0, |p.tasks|).value, QueueTap);
      }
    case Event(id, c) =>
      if id in p.registry && c != QueueTap && c != Stop {
        SendKeepsInv(p, id, c);
      }
    case Poll(id, flag, deadline) =>
      if id < |p.tasks| {
        PollKeepsInv(p, id, flag, deadline);
      }
    case _ =>
      forall k | 0 <= k < |p.tasks| ensures TaskGood(Step(p, a), k) {
        assert TaskGood(p, k);
      }
  }

  lemma {:induction false} RunKeepsInv(p: Pool, actions: seq<Action>)
    requires Inv(p)
    ensures Inv(Run(p, actions))
  {
    if actions == [] {
    } else {
      RunKeepsInv(p, actions[..|actions| - 1]);
      StepKeepsInv(Run(p, actions[..|actions| - 1]), actions[|actions| - 1]);
    }
  }

  /** In every run at most one worker is between sending its root and finishing. */
  lemma {:induction false} AtMostOneSubmitter(seeds: seq<Seed>, actions: seq<Action>, a: nat, b: nat)
    ensures var p := Run(NewPool(seeds), actions);
            a < |p.tasks| && b < |p.tasks| && InSubmission(p.tasks[a].phase) && InSubmission(p.tasks[b].phase) ==>
              a == b
  {
    RunKeepsInv(NewPool(seeds), actions);
    var p := Run(NewPool(seeds), actions);
    if a < |p.tasks| && b < |p.tasks| {
      assert TaskGood(p, a) && TaskGood(p, b);
    }
  }

  // --- Dropped workers ---

  /** Dropped by `stop` while queued: running, but not registered. */
  predicate Dropped(p: Pool, id: nat) {
    id < |p.tasks| && id !in p.registry && p.tasks[id].phase != Closing && p.tasks[id].phase != Done
  }

  lemma {:induction false} DroppedStep(p: Pool, a: Action, id: nat)
    requires id < |p.tasks| && id !in p.registry
    ensures var q := Step(p, a); id < |q.tasks| && id !in q.registry
  {
    if a.StopAll? {
      StopFirstOnlySends(Registered(p.registry), p.tasks, |p.tasks|);
    }
  }

  /**
    A dropped worker stays unregistered in every continuation: it never holds a tap leaf while it runs and
    never submits.
   */
  lemma {:induction false} DroppedNeverSubmits(p: Pool, actions: seq<Action>, id: nat)
    requires Inv(p) && Dropped(p, id)
    ensures var q := Run(p, actions);
            && id < |q.tasks| && id !in q.registry && !InSubmission(q.tasks[id].phase)
            && (Dropped(q, id) ==> Untapped(q.tasks[id]))
  {
    if actions == [] {
    } else {
      var m := Run(p, actions[..|actions| - 1]);
      DroppedNeverSubmits(p, actions[..|actions| - 1], id);
      RunKeepsInv(p, actions[..|actions| - 1]);
      DroppedStep(m, actions[|actions| - 1], id);
      StepKeepsInv(m, actions[|actions| - 1]);
    }
    RunKeepsInv(p, actions);
    assert TaskGood(Run(p, actions), id);
  }

  // --- Conservation of seeds ---

  /** A worker holds its seed until it finishes. */
  predicate Holds(t: Task) {
    t.phase != Closing && t.phase != Done
  }

  function One(t: Task, s: Seed): nat {
    if Holds(t) && t.seed == s then 1 else 0
  }

  /** The sum of `f` over the tasks. */
  function Sum(tasks: seq<Task>, f: Task -> nat): nat {
    if tasks == [] then 0 else Sum(tasks[..|tasks| - 1], f) + f(tasks[|tasks| - 1])
  }

  function OneOf(s: Seed): Task -> nat {
    (t: Task) => One(t, s)
  }

  /** How many unfinished workers hold `s`. */
  function HeldCount(tasks: seq<Task>, s: Seed): nat {
    Sum(tasks, OneOf(s))
  }

  /** How often `s` is queued, held, used or removed. */
  function Total(p: Pool, s: Seed): nat {
    multiset(p.seeds)[s] + HeldCount(p.tasks, s) + p.used[s] + p.removed[s]
  }

  lemma {:induction false} SumSame(a: seq<Task>, b: seq<Task>, f: Task -> nat)
    requires |a| == |b| && forall k | 0 <= k < |a| :: f(a[k]) == f(b[k])
    ensures Sum(a, f) == Sum(b, f)
  {
    if a == [] {
    } else {
      SumSame(a[..|a| - 1], b[..|b| - 1], f);
    }
  }

  lemma {:induction false} SumUpdate(tasks: seq<Task>, id: nat, t: Task, f: Task -> nat)
    requires id < |tasks|
    ensures Sum(tasks[id := t], f) + f(tasks[id]) == Sum(tasks, f) + f(t)
  {
    var n := |tasks| - 1;
    if id == n {
      assert tasks[id := t][..n] == tasks[..n];
    } else {
      SumUpdate(tasks[..n], id, t, f);
      assert tasks[id := t][..n] == tasks[..n][id := t];
    }
  }

  lemma {:induction false} HeldSame(a: seq<Task>, b: seq<Task>, s: Seed)
    requires |a| == |b| && forall k | 0 <= k < |a| :: One(a[k], s) == One(b[k], s)
    ensures HeldCount(a, s) == HeldCount(b, s)
  {
    SumSame(a, b, OneOf(s));
  }

  lemma {:induction false} HeldUpdate(tasks: seq<Task>, id: nat, t: Task, s: Seed)
    requires id < |tasks|
    ensures HeldCount(tasks[id := t], s) + One(tasks[id], s) == HeldCount(tasks, s) + One(t, s)
  {
    SumUpdate(tasks, id, t, OneOf(s));
  }

  lemma {:induction false} SegmentFate(t: Task, busy: bool, flag: bool, deadline: bool)
    ensures var turn := Segment(t, busy, flag, deadline);
            && turn.task.seed == t.seed
            && (turn.fate == Held ==> (Holds(turn.task) <==> Holds(t)))
            && (turn.fate != Held ==> Holds(t) && !Holds(turn.task))
  {
  }

  lemma {:induction false} PollConserves(p: Pool, id: nat, flag: bool, deadline: bool, s: Seed)
    requires id < |p.tasks|
    ensures Total(PollStep(p, id, flag, deadline), s) == Total(p, s)
  {
    var t := p.tasks[id];
    var turn := Segment(t, AnyWith(p.registry, Submitting), flag, deadline);
    SegmentFate(t, AnyWith(p.registry, Submitting), flag, deadline);
    HeldUpdate(p.tasks, id, turn.task, s);
    FrontCount(t.seed, p.seeds, s);
  }

  lemma {:induction false} FrontCount(x: Seed, rest: seq<Seed>, s: Seed)
    ensures multiset([x] + rest)[s] == multiset(rest)[s] + (if x == s then 1 else 0)
    ensures multiset(rest + [x])[s] == multiset(rest)[s] + (if x == s then 1 else 0)
  {
  }

  lemma {:induction false} WithoutIsPart(seeds: seq<Seed>, x: Seed, s: Seed)
    ensures multiset(Without(seeds, x))[s] <= multiset(seeds)[s]
  {
    if seeds == [] {
    } else {
      var head, tail := seeds[0], seeds[1..];
      WithoutIsPart(tail, x, s);
      assert multiset(seeds)[s] >= multiset(tail)[s] + (if head == s then 1 else 0) by {
        assert seeds == [head] + tail;
        FrontCount(head, tail, s);
      }
      if head == x {
        assert Without(seeds, x) == Without(tail, x);
      } else {
        FrontCount(head, Without(tail, x), s);
      }
    }
  }

  lemma {:induction false} StartConserves(p: Pool, s: Seed)
    ensures Total(Step(p, Start), s) == Total(p, s)
  {
    var q := Step(p, Start);
    if q != p {
      assert p.seeds == [p.seeds[0]] + p.seeds[1..];
      FrontCount(p.seeds[0], p.seeds[1..], s);
      assert q.tasks[..|p.tasks|] == p.tasks;
    }
  }

  /** Messages move no seed. */
  lemma {:induction false} MailConserves(p: Pool, q: Pool, s: Seed)
    requires q == p.(registry := q.registry, tasks := q.tasks) && |q.tasks| == |p.tasks|
    requires forall k | 0 <= k < |p.tasks| :: q.tasks[k].seed == p.tasks[k].seed && q.tasks[k].phase == p.tasks[k].phase
    ensures Total(q, s) == Total(p, s)
  {
    HeldSame(p.tasks, q.tasks, s);
  }

  lemma {:induction false} StopConserves(p: Pool, s: Seed)
    ensures Total(Step(p, StopAll), s) == Total(p, s)
  {
    StopFirstOnlySends(Registered(p.registry), p.tasks, |p.tasks|);
    MailConserves(p, Step(p, StopAll), s);
  }

  lemma {:induction false} SendConserves(p: Pool, id: nat, c: Command, s: Seed)
    ensures Total(p.(tasks := Send(p.tasks, id, c)), s) == Total(p, s)
  {
    MailConserves(p, p.(tasks := Send(p.tasks, id, c)), s);
  }

  lemma {:induction false} RemoveConserves(p: Pool, x: Seed, s: Seed)
    ensures Total(Step(p, RemoveSeed(x)), s) == Total(p, s)
  {
    WithoutIsPart(p.seeds, x, s);
  }

  lemma {:induction false} TapConserves(p: Pool, s: Seed)
    ensures Total(Step(p, AddTap), s) == Total(p, s)
  {
    if FirstComputing(p.registry, 0, |p.tasks|).Some? {
      SendConserves(p, FirstComputing(p.registry, 0, |p.tasks|).value, QueueTap, s);
    }
  }

  lemma {:induction false} AnnounceConserves(p: Pool, x: Seed, s: Seed)
    ensures var q := Step(p, SeedUpdated(x));
            Total(q, s) + p.announced[s] == Total(p, s) + q.announced[s]
  {
    FrontCount(x, p.seeds, s);
  }

  /** No step but an announcement touches what was announced. */
  lemma {:induction false} OnlyUpdatesAnnounce(p: Pool, a: Action)
    requires !a.SeedUpdated?
    ensures Step(p, a).announced == p.announced
  {
  }

  lemma {:induction false} StepConserves(p: Pool, a: Action, s: Seed)
    ensures var q := Step(p, a);
            Total(q, s) + p.announced[s] == Total(p, s) + q.announced[s]
  {
    if a.SeedUpdated? {
      AnnounceConserves(p, a.seed, s);
    } else {
      OnlyUpdatesAnnounce(p, a);
      OtherStepConserves(p, a, s);
    }
  }

  lemma {:induction false} OtherStepConserves(p: Pool, a: Action, s: Seed)
    requires !a.SeedUpdated?
    ensures Total(Step(p, a), s) == Total(p, s)
  {
    match a
    case Start => StartConserves(p, s);
    case StopAll => StopConserves(p, s);
    case AddTap => TapConserves(p, s);
    case RemoveSeed(x) => RemoveConserves(p, x, s);
    case Event(id, c) => SendConserves(p, id, c, s);
    case Poll(id, flag, deadline) =>
      if id < |p.tasks| {
        PollConserves(p, id, flag, deadline, s);
      }
  }

  /** In every run, every seed is queued, held, used or removed exactly as often as it was initial or announced. */
  lemma {:induction false} SeedsConserved(seeds: seq<Seed>, actions: seq<Action>, s: Seed)
    ensures var p := Run(NewPool(seeds), actions);
            Total(p, s) == multiset(seeds)[s] + p.announced[s]
  {
    if actions == [] {
    } else {
      SeedsConserved(seeds, actions[..|actions| - 1], s);
      StepConserves(Run(NewPool(seeds), actions[..|actions| - 1]), actions[|actions| - 1], s);
    }
  }

  lemma {:induction false} HeldCounts(tasks: seq<Task>, a: nat, b: nat)
    requires a < b < |tasks| && Holds(tasks[a]) && Holds(tasks[b])
    ensures tasks[a].seed == tasks[b].seed ==> HeldCount(tasks, tasks[a].seed) >= 2
  {
    var s := tasks[a].seed;
    var fewer := tasks[b := tasks[b].(phase := Done)];
    HeldUpdate(tasks, b, tasks[b].(phase := Done), s);
    HeldUpdate(fewer, a, tasks[a].(phase := Done), s);
  }

  /** A seed that came in once is never mined by two unfinished workers. */
  lemma {:induction false} NoSeedMinedTwice(seeds: seq<Seed>, actions: seq<Action>, a: nat, b: nat, p: Pool)
    requires p == Run(NewPool(seeds), actions)
    requires a < b < |p.tasks| && Holds(p.tasks[a]) && Holds(p.tasks[b])
    requires multiset(seeds)[p.tasks[a].seed] + p.announced[p.tasks[a].seed] <= 1
    ensures p.tasks[a].seed != p.tasks[b].seed
  {
    SeedsConserved(seeds, actions, p.tasks[a].seed);
    HeldCounts(p.tasks, a, b);
  }

  /** A seed that came in once is neither queued nor used nor removed while an unfinished worker holds it. */
  lemma {:induction false} NotQueuedWhileHeld(seeds: seq<Seed>, actions: seq<Action>, a: nat, p: Pool)
    requires p == Run(NewPool(seeds), actions) && a < |p.tasks| && Holds(p.tasks[a])
    requires multiset(seeds)[p.tasks[a].seed] + p.announced[p.tasks[a].seed] <= 1
    ensures p.tasks[a].seed !in p.seeds && p.tasks[a].seed !in p.used && p.tasks[a].seed !in p.removed
  {
    var s := p.tasks[a].seed;
    SeedsConserved(seeds, actions, s);
    HeldUpdate(p.tasks, a, p.tasks[a].(phase := Done), s);
    assert multiset(p.seeds)[s] == 0;
  }

  // --- Where seeds go ---

  /** Both trees have a leaf. */
  predicate Mined(t: Task) {
    t.timeLeaves > 0 && t.tapLeaves > 0
  }

  /**
    A poll puts a seed in front of the queue exactly when its worker has just sealed an empty tree, and
    touches the queue in no other case; a worker in submission never does.
   */
  lemma {:induction false} PollQueueExactly(p: Pool, id: nat, flag: bool, deadline: bool)
    requires id < |p.tasks|
    ensures var t, q := p.tasks[id], PollStep(p, id, flag, deadline);
            && q.seeds == (if t.phase == Sealed && !Mined(t) then [t.seed] else []) + p.seeds
            && (InSubmission(t.phase) ==> q.seeds == p.seeds)
  {
    assert [] + p.seeds == p.seeds;
  }

  /** A seed is used up exactly when its worker closes its submission. */
  lemma {:induction false} PollUsesExactly(p: Pool, id: nat, flag: bool, deadline: bool)
    requires id < |p.tasks|
    ensures var t, q := p.tasks[id], PollStep(p, id, flag, deadline);
            q.used == p.used + (if InSubmission(t.phase) && q.tasks[id].phase == Closing then multiset{t.seed}
                                else multiset{})
  {
  }

  /**
    Moves of a worker in submission: a send that fails closes it; one that succeeds waits for a command; the
    commands to accept and to reject close it, the command for the interval sends the proof, others pass.
   */
  lemma {:induction false} SubmissionMoves(t: Task, busy: bool, flag: bool, deadline: bool)
    requires InSubmission(t.phase)
    ensures var next := Segment(t, busy, flag, deadline).task;
            var front := if t.mailbox == [] then None else Some(t.mailbox[0]);
            var waits := t.phase == AwaitInterval;
            && (next.phase == Closing <==>
                  if waits then front == Some(SessionAccepted) || front == Some(SessionRejected) else !flag)
            && (next.phase == SendingProof <==> waits && front == Some(SendSessionInterval))
            && (next.phase == AwaitInterval || next.phase == SendingProof || next.phase == Closing)
            && next.mailbox == (if waits && front.Some? then t.mailbox[1..] else t.mailbox)
            && next.timeLeaves == t.timeLeaves && next.tapLeaves == t.tapLeaves
  {
  }

  /** One round of the computation loop: what it counts, what it reads and when it ends. */
  lemma {:induction false} HashingMoves(t: Task, busy: bool, mined: bool, deadline: bool)
    requires t.phase == Hashing
    ensures var next := Segment(t, busy, mined, deadline).task;
            var front := if t.mailbox == [] then None else Some(t.mailbox[0]);
            && next.timeLeaves == t.timeLeaves + (if mined && front.None? then 1 else 0)
            && next.tapLeaves == t.tapLeaves + (if mined && front == Some(QueueTap) then 1 else 0)
            && next.mailbox == (if front.Some? then t.mailbox[1..] else [])
            && next.phase == if deadline || front == Some(Stop) then Sealed else Hashing
  {
  }

  /** How many segments lie before a worker at most, if nothing keeps it waiting. */
  function Remaining(ph: Phase): nat {
    match ph
    case Spawned => 8
    case Resolving => 7
    case Hashing => 6
    case Sealed => 5
    case AwaitSlot => 4
    case SendingRoot => 3
    case SendingProof => 3
    case AwaitInterval => 2
    case Closing => 1
    case Done => 0
  }

  /**
    Every segment brings a worker nearer to its end, unless it hashes before the deadline, another worker is
    submitting, or it waits for the command that ends its session.
   */
  lemma {:induction false} SegmentProgress(t: Task, busy: bool, flag: bool, deadline: bool)
    requires t.phase != Done
    requires t.phase == Hashing ==> deadline
    requires t.phase == AwaitSlot ==> !busy
    requires t.phase == AwaitInterval ==>
               t.mailbox != [] && (t.mailbox[0] == SessionAccepted || t.mailbox[0] == SessionRejected)
    ensures Remaining(Segment(t, busy, flag, deadline).task.phase) < Remaining(t.phase)
  {
  }

  /** A finished worker whose session was sent. */
  function Spent(t: Task, s: Seed): nat {
    if !Holds(t) && Mined(t) && t.seed == s then 1 else 0
  }

  function SpentOf(s: Seed): Task -> nat {
    (t: Task) => Spent(t, s)
  }

  /** A worker that waits to submit or submits has leaves in both trees. */
  ghost predicate SubmitsMined(tasks: seq<Task>) {
    forall k | 0 <= k < |tasks| :: tasks[k].phase == AwaitSlot || InSubmission(tasks[k].phase) ==> Mined(tasks[k])
  }

  ghost predicate UsedGood(p: Pool) {
    SubmitsMined(p.tasks) && forall s :: p.used[s] == Sum(p.tasks, SpentOf(s))
  }

  lemma {:induction false} SegmentSpends(t: Task, busy: bool, flag: bool, deadline: bool)
    requires t.phase == AwaitSlot || InSubmission(t.phase) ==> Mined(t)
    ensures var turn := Segment(t, busy, flag, deadline);
            && turn.task.seed == t.seed
            && (turn.task.phase == AwaitSlot || InSubmission(turn.task.phase) ==> Mined(turn.task))
            && forall s :: Spent(turn.task, s) == Spent(t, s) + if turn.fate == Used && s == t.seed then 1 else 0
  {
  }

  lemma {:induction false} PollKeepsUsed(p: Pool, id: nat, flag: bool, deadline: bool)
    requires UsedGood(p) && id < |p.tasks|
    ensures UsedGood(PollStep(p, id, flag, deadline))
  {
    var q := PollStep(p, id, flag, deadline);
    var busy := AnyWith(p.registry, Submitting);
    SegmentSpends(p.tasks[id], busy, flag, deadline);
    var next := Segment(p.tasks[id], busy, flag, deadline).task;
    forall s ensures q.used[s] == Sum(q.tasks, SpentOf(s)) {
      SumUpdate(p.tasks, id, next, SpentOf(s));
    }
  }

  /** Steps that leave every worker's phase, seed and leaves alone use nothing. */
  lemma {:induction false} MailKeepsUsed(p: Pool, q: Pool)
    requires UsedGood(p) && q.used == p.used && |q.tasks| == |p.tasks|
    requires forall k | 0 <= k < |p.tasks| :: q.tasks[k] == p.tasks[k].(mailbox := q.tasks[k].mailbox)
    ensures UsedGood(q)
  {
    forall s ensures q.used[s] == Sum(q.tasks, SpentOf(s)) {
      SumSame(p.tasks, q.tasks, SpentOf(s));
    }
  }

  lemma {:induction false} StartKeepsUsed(p: Pool)
    requires UsedGood(p)
    ensures UsedGood(Step(p, Start))
  {
    var q := Step(p, Start);
    if q != p {
      assert q.tasks[..|p.tasks|] == p.tasks;
    }
  }

  lemma {:induction false} StepKeepsUsed(p: Pool, a: Action)
    requires UsedGood(p)
    ensures UsedGood(Step(p, a))
  {
    if a.Start? {
      StartKeepsUsed(p);
    } else if a.Poll? {
      if a.worker < |p.tasks| {
        PollKeepsUsed(p, a.worker, a.flag, a.deadline);
      }
    } else {
      if a.StopAll? {
        StopFirstOnlySends(Registered(p.registry), p.tasks, |p.tasks|);
      }
      MailKeepsUsed(p, Step(p, a));
    }
  }

  /** In every run a seed was used up as often as a worker with leaves in both trees has finished with it. */
  lemma {:induction false} UsedExactly(seeds: seq<Seed>, actions: seq<Action>)
    ensures UsedGood(Run(NewPool(seeds), actions))
  {
    if actions == [] {
    } else {
      UsedExactly(seeds, actions[..|actions| - 1]);
      StepKeepsUsed(Run(NewPool(seeds), actions[..|actions| - 1]), actions[|actions| - 1]);
    }
  }

  /** `stop` reaches every registered computing worker, and no other. */
  lemma {:induction false} StopReachesAll(p: Pool, id: nat)
    requires id < |p.tasks|
    ensures var q := Step(p, StopAll);
            && |q.tasks| == |p.tasks|
            && q.tasks[id] == (if id in p.registry && p.registry[id] == Computing
                               then p.tasks[id].(mailbox := p.tasks[id].mailbox + [Stop]) else p.tasks[id])
            && (id in q.registry <==> id in p.registry && p.registry[id] != Queued)
  {
    StopFirstReaches(Registered(p.registry), p.tasks, |p.tasks|, id);
  }

  lemma {:induction false} StopFirstReaches(registry: map<nat, Status>, tasks: seq<Task>, n: nat, id: nat)
    requires n <= |tasks| && id < |tasks|
    ensures var s := StopFirst(registry, tasks, n);
            && |s| == |tasks|
            && s[id] == if id < n && id in registry && registry[id] == Computing
                        then tasks[id].(mailbox := tasks[id].mailbox + [Stop]) else tasks[id]
  {
    if n == 0 {
    } else {
      StopFirstReaches(registry, tasks, n - 1, id);
    }
  }

  /** A removed seed is gone from the queue; all others stay, as often and in the order they were. */
  lemma {:induction false} RemovedIsGone(seeds: seq<Seed>, x: Seed)
    ensures x !in Without(seeds, x)
    ensures forall s | s != x :: multiset(Without(seeds, x))[s] == multiset(seeds)[s]
    ensures x !in seeds ==> Without(seeds, x) == seeds
  {
    if seeds == [] {
    } else {
      var head, tail := seeds[0], seeds[1..];
      var rest := Without(tail, x);
      RemovedIsGone(tail, x);
      assert seeds == [head] + tail;
      if head == x {
        assert Without(seeds, x) == rest;
        forall s | s != x ensures multiset(rest)[s] == multiset(seeds)[s] {
          FrontCount(head, tail, s);
        }
      } else {
        assert Without(seeds, x) == [head] + rest;
        forall s | s != x ensures multiset([head] + rest)[s] == multiset(seeds)[s] {
          FrontCount(head, tail, s);
          FrontCount(head, rest, s);
        }
      }
    }
  }

  /** Removal keeps the order: it distributes over any cut of the queue. */
  lemma {:induction false} RemovalKeepsOrder(a: seq<Seed>, b: seq<Seed>, x: Seed)
    ensures Without(a + b, x) == Without(a, x) + Without(b, x)
  {
    if a == [] {
      assert a + b == b;
    } else {
      assert (a + b)[1..] == a[1..] + b;
      RemovalKeepsOrder(a[1..], b, x);
    }
  }

  /** The queue is first in, first out: with seeds before it, an announced seed is started after all of them. */
  lemma {:induction false} StartTakesFront(p: Pool, x: Seed)
    ensures var q := Step(Step(p, SeedUpdated(x)), Start);
            if AnyWith(p.registry, Computing) then q.tasks == p.tasks && q.seeds == p.seeds + [x]
            else && |q.tasks| == |p.tasks| + 1
                 && [q.tasks[|p.tasks|].seed] + q.seeds == p.seeds + [x]
                 && q.tasks[|p.tasks|] == Task(q.tasks[|p.tasks|].seed, Spawned, [], 0, 0)
                 && |p.tasks| in q.registry && q.registry[|p.tasks|] == Queued
  {
    var r := Step(p, SeedUpdated(x));
    assert r.seeds == [r.seeds[0]] + r.seeds[1..];
  }

  // --- The code's own shape ---

  /** The page's handle: shared queue and registry, changed in place by its methods and by the workers' segments. */
  class Miner {
    var seeds: seq<Seed>
    var workers: map<nat, Status>
    var tasks: seq<Task>
    ghost var used: multiset<Seed>
    ghost var announced: multiset<Seed>
    ghost var removed: multiset<Seed>

    ghost function View(): Pool
      reads this
    {
      Pool(seeds, workers, tasks, used, announced, removed)
    }

    constructor (initial: seq<Seed>)
      ensures View() == NewPool(initial) && Inv(View())
    {
      seeds := initial;
      workers := map[];
      tasks := [];
      used, announced, removed := multiset{}, multiset{}, multiset{};
    }

    /** `start`: refused while a worker computes or without a seed. */
    method Start() returns (started: bool)
      requires Inv(View())
      modifies this
      ensures View() == Step(old(View()), Action.Start) && Inv(View())
      ensures started <==> !AnyWith(old(workers), Computing) && old(seeds) != []
    {
      StartKeepsInv(View());
      if AnyWith(workers, Computing) || seeds == [] {
        return false;
      }
      var seed := seeds[0];
      seeds := seeds[1..];
      workers := workers[|tasks| := Queued];
      tasks := tasks + [Task(seed, Spawned, [], 0, 0)];
      started := true;
    }

    /** `stop`: drop queued workers, then tell every computing one. */
    method StopAll()
      requires Inv(View())
      modifies this`workers, this`tasks
      ensures View() == Step(old(View()), Action.StopAll) && Inv(View())
    {
      StopKeepsInv(View());
      ghost var all := tasks;
      workers := map id | id in workers && workers[id] != Queued :: workers[id];
      for i := 0 to |tasks|
        invariant |tasks| == |all|
        invariant tasks == StopFirst(workers, all, i)
        invariant workers == Registered(old(workers))
      {
        StopFirstOnlySends(workers, all, i);
        if i in workers && workers[i] == Computing {
          tasks := Send(tasks, i, Stop);
        }
      }
    }

    /** `add_tap`: to the first computing worker. */
    method AddTap() returns (to: Option<nat>)
      requires Inv(View())
      modifies this`tasks
      ensures View() == Step(old(View()), Action.AddTap) && Inv(View())
      ensures to.None? <==> !AnyWith(workers, Computing)
      ensures to.Some? ==> && to.value in workers && workers[to.value] == Computing
                           && tasks == Send(old(tasks), to.value, QueueTap)
                           && forall id | id in workers && workers[id] == Computing :: to.value <= id
    {
      StepKeepsInv(View(), Action.AddTap);
      FirstComputingIsFirst(workers, 0, |tasks|);
      for i := 0 to |tasks|
        invariant tasks == old(tasks)
        invariant FirstComputing(workers, i, |tasks|) == FirstComputing(workers, 0, |tasks|)
      {
        if i in workers && workers[i] == Computing {
          tasks := Send(tasks, i, QueueTap);
          return Some(i);
        }
      }
      to := None;
    }

    method RemoveSeed(seed: Seed)
      requires Inv(View())
      modifies this`seeds, this`removed
      ensures View() == Step(old(View()), Action.RemoveSeed(seed)) && Inv(View())
    {
      StepKeepsInv(View(), Action.RemoveSeed(seed));
      ghost var kept := Without(seeds, seed);
      removed := removed + (multiset(seeds) - multiset(kept));
      seeds := Without(seeds, seed);
    }

    /** The writes of one segment. */
    method Write(id: nat, turn: Turn)
      requires id < |tasks|
      modifies this
      ensures View() == Apply(old(View()), id, turn)
    {
      if turn.fate == Returned {
        seeds := [turn.task.seed] + seeds;
      }
      if turn.fate == Used {
        used := used + multiset{turn.task.seed};
      }
      match turn.mark {
        case Keep =>
        case Set(status) => workers := SetStatus(workers, id, status);
        case Remove => workers := workers - {id};
      }
      tasks := tasks[id := turn.task];
    }

    /** One segment of a spawned worker. */
    method Poll(id: nat, flag: bool, deadline: bool)
      requires Inv(View()) && id < |tasks|
      modifies this
      ensures View() == Step(old(View()), Action.Poll(id, flag, deadline)) && Inv(View())
    {
      PollKeepsInv(View(), id, flag, deadline);
      Write(id, Segment(tasks[id], AnyWith(workers, Submitting), flag, deadline));
    }
  }
}
