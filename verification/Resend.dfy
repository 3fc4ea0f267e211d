/**
  Resending a message whose queue is full (bee_infra/src/message_delivery.rs), against the proxy that
  overflows the first sends of every message (tools/queue_overflow_proxy/src/lib.rs).
 */
module Resend {
  import opened Prelude

  const RETRY_INTERVAL_MS: u64 := 1000
  const MAX_RETRIES: nat := 30

  datatype ClientError = QueueOverflow(detail: string) | OtherError(detail: string)

  datatype Reply<T> = Delivered(value: T) | Failed(error: ClientError)

  /** The k-th reply and the k-th clock reading ask for one more send. */
  predicate Retries<T>(reply: Reply<T>, now: u64, deadline: u64, k: nat) {
    reply.Failed? && reply.error.QueueOverflow? && k < MAX_RETRIES && SatAdd(now, RETRY_INTERVAL_MS) < deadline
  }

  /** The index of the last send, counting from k. `sends` and `clock` give the replies and readings in order. */
  function LastSend<T>(sends: nat -> Reply<T>, clock: nat -> u64, deadline: u64, k: nat): nat
    requires k <= MAX_RETRIES
    decreases MAX_RETRIES - k
  {
    if Retries(sends(k), clock(k), deadline, k) then LastSend(sends, clock, deadline, k + 1) else k
  }

  function Deadline(expiresAt: u32): u64 {
    expiresAt * 1000
  }

  /** The whole call: without an expiry there is one send. */
  function Last<T>(sends: nat -> Reply<T>, clock: nat -> u64, expiresAt: Option<u32>): nat {
    if expiresAt.None? then 0 else LastSend(sends, clock, Deadline(expiresAt.value), 0)
  }

  method WithQueueOverflowRetry<T>(sends: nat -> Reply<T>, clock: nat -> u64, expiresAt: Option<u32>)
    returns (reply: Reply<T>, count: nat)
    ensures count == Last(sends, clock, expiresAt) + 1
    ensures reply == sends(count - 1)
  {
    if expiresAt.None? {
      return sends(0), 1;
    }
    var deadline := Deadline(expiresAt.value);
    var retries := 0;
    while true
      invariant retries <= MAX_RETRIES
      invariant LastSend(sends, clock, deadline, retries) == LastSend(sends, clock, deadline, 0)
      decreases MAX_RETRIES - retries
    {
      reply := sends(retries);
      count := retries + 1;
      if reply.Delivered? {
        return;
      }
      if !reply.error.QueueOverflow? || retries >= MAX_RETRIES {
        return;
      }
      if SatAdd(clock(retries), RETRY_INTERVAL_MS) >= deadline {
        return;
      }
      retries := retries + 1;
    }
  }

  /** The loop goes on through j, for every j before its last send, and stops there. */
  lemma {:induction false} LastSendIsLast<T>(sends: nat -> Reply<T>, clock: nat -> u64, deadline: u64, k: nat)
    requires k <= MAX_RETRIES
    ensures var n := LastSend(sends, clock, deadline, k);
            && k <= n <= MAX_RETRIES
            && (forall j | k <= j < n :: Retries(sends(j), clock(j), deadline, j))
            && !Retries(sends(n), clock(n), deadline, n)
    decreases MAX_RETRIES - k
  {
    if Retries(sends(k), clock(k), deadline, k) {
      LastSendIsLast(sends, clock, deadline, k + 1);
    }
  }

  /** For any peer and any clock: at most 31 sends, and every retry is scheduled strictly before the expiry. */
  lemma {:induction false} BoundedAndBeforeExpiry<T>(sends: nat -> Reply<T>, clock: nat -> u64, expiresAt: Option<u32>)
    ensures Last(sends, clock, expiresAt) + 1 <= 31
    ensures forall j | 0 <= j < Last(sends, clock, expiresAt) ::
              && expiresAt.Some? && clock(j) + 1000 < expiresAt.value * 1000
              && sends(j).Failed? && sends(j).error.QueueOverflow?
  {
    if expiresAt.Some? {
      LastSendIsLast(sends, clock, Deadline(expiresAt.value), 0);
    }
  }

  // --- The proxy as the peer ---

  datatype MessageRequest = MessageRequest(id: string, bodyHash: string)

  datatype Attempt = Attempt(messageId: string, bodyHash: string, attempt: nat, observedAt: nat, forwarded: bool)

  class Proxy {
    const failFirst: nat
    var attemptsByMessage: map<string, nat>
    var attempts: seq<Attempt>

    constructor (failFirst: nat)
      ensures this.failFirst == failFirst && attemptsByMessage == map[] && attempts == []
    {
      this.failFirst := failFirst;
      attemptsByMessage := map[];
      attempts := [];
    }

    /** How often a message was sent so far. */
    function Sent(id: string): nat
      reads this
    {
      if id in attemptsByMessage then attemptsByMessage[id] else 0
    }

    /** Counts the sends of each message by itself, whatever its body. */
    method RecordAttempt(message: MessageRequest, now: nat) returns (attempt: nat)
      modifies this
      ensures attempt == old(Sent(message.id)) + 1
      ensures attemptsByMessage == old(attemptsByMessage)[message.id := attempt]
      ensures attempts == old(attempts) + [Attempt(message.id, message.bodyHash, attempt, now, attempt > failFirst)]
    {
      attempt := Sent(message.id) + 1;
      attemptsByMessage := attemptsByMessage[message.id := attempt];
      attempts := attempts + [Attempt(message.id, message.bodyHash, attempt, now, attempt > failFirst)];
    }

    /** One send: overflow while the message's count is within `failFirst`. */
    method Receive(message: MessageRequest, now: nat) returns (reply: Reply<nat>)
      modifies this
      ensures reply == PeerReply(failFirst, old(Sent(message.id)))
      ensures attemptsByMessage == old(attemptsByMessage)[message.id := old(Sent(message.id)) + 1]
    {
      var attempt := RecordAttempt(message, now);
      reply := if attempt <= failFirst then Failed(QueueOverflow("queue is full")) else Delivered(attempt);
    }
  }

  /** The reply to a message that was sent `before` times. */
  function PeerReply(failFirst: nat, before: nat): Reply<nat> {
    if before + 1 <= failFirst then Failed(QueueOverflow("queue is full")) else Delivered(before + 1)
  }

  /** A clock that only the sleeps advance. */
  function SleepClock(t0: u64, k: nat): u64 {
    if t0 + 1000 * k < U64_LIMIT then t0 + 1000 * k else U64_MAX
  }

  /**
    Against a peer that overflows the first k sends, with time passing only in the sleeps, the message is
    delivered exactly when k = 0, or an expiry is set, k is at most 30 and t0 + 1000 k lies before it; then by
    send k + 1.
   */
  lemma {:induction false} DeliveredExactly(k: nat, t0: u64, expiresAt: Option<u32>)
    ensures var sends := (n: nat) => PeerReply(k, n);
            var clock := (n: nat) => SleepClock(t0, n);
            var last := Last(sends, clock, expiresAt);
            && (sends(last).Delivered? <==>
                  k == 0 || (expiresAt.Some? && k <= 30 && t0 + 1000 * k < expiresAt.value * 1000))
            && (sends(last).Delivered? ==> last == k)
  {
    var sends := (n: nat) => PeerReply(k, n);
    var clock := (n: nat) => SleepClock(t0, n);
    if expiresAt.Some? {
      var deadline := Deadline(expiresAt.value);
      LastSendIsLast(sends, clock, deadline, 0);
      var last := LastSend(sends, clock, deadline, 0);
      assert sends(last) == PeerReply(k, last);
      if last < k {
        assert !Retries(sends(last), clock(last), deadline, last);
      } else if last > 0 {
        assert Retries(sends(last - 1), clock(last - 1), deadline, last - 1);
        assert sends(last - 1) == PeerReply(k, last - 1);
      }
    }
  }
}
