/** Retries, backoff and the circuit breaker (`backend/src/stripe.rs`). Times are milliseconds. */
module StripeRetry {
  import opened Bits
  import opened Decimal
  import opened Lists
  import opened Outcomes

  const MAX_RETRIES: nat := 4
  const BASE_BACKOFF_MS: nat := 1_000
  const MAX_RETRY_AFTER_SECS: nat := 60
  const FAILURE_THRESHOLD: nat := 3
  const COOLDOWN_MS: int := 30_000
  const U32_MAX: nat := 0xFFFF_FFFF

  // ---- The breaker ----

  datatype Breaker = Breaker(failures: nat, openUntil: Option<int>)

  function OpenAt(c: Breaker, now: int): bool {
    c.openUntil.Some? && now < c.openUntil.value
  }

  function Succeeded(c: Breaker): Breaker {
    Breaker(0, None)
  }

  function Failed(c: Breaker, now: int): Breaker {
    var n := Min(c.failures + 1, U32_MAX);
    Breaker(n, if n >= FAILURE_THRESHOLD then Some(now + COOLDOWN_MS) else c.openUntil)
  }

  class CircuitState {
    var consecutiveFailures: nat
    var openUntil: Option<int>

    ghost function Abs(): Breaker
      reads this
    {
      Breaker(consecutiveFailures, openUntil)
    }

    constructor ()
      ensures Abs() == Breaker(0, None)
    {
      consecutiveFailures := 0;
      openUntil := None;
    }

    method IsOpen(now: int) returns (open: bool)
      ensures open == OpenAt(Abs(), now)
    {
      match openUntil {
        case None => open := false;
        case Some(until) => open := now < until;
      }
    }

    method RecordSuccess()
      modifies this
      ensures Abs() == Succeeded(old(Abs()))
    {
      consecutiveFailures := 0;
      openUntil := None;
    }

    /** The count saturates at 32 bits. */
    method RecordFailure(now: int)
      modifies this
      ensures Abs() == Failed(old(Abs()), now)
    {
      if consecutiveFailures < U32_MAX {
        consecutiveFailures := consecutiveFailures + 1;
      } else {
        consecutiveFailures := U32_MAX;
      }
      if consecutiveFailures >= FAILURE_THRESHOLD {
        openUntil := Some(now + COOLDOWN_MS);
      }
    }
  }

  /** What was recorded, oldest first. */
  datatype Record = Success | Failure(at: int)

  function Replay(h: seq<Record>): Breaker {
    if h == [] then Breaker(0, None)
    else
      match h[|h| - 1]
      case Success => Succeeded(Replay(h[..|h| - 1]))
      case Failure(at) => Failed(Replay(h[..|h| - 1]), at)
  }

  /** Failures recorded since the last success. */
  function Trailing(h: seq<Record>): nat {
    if h == [] || h[|h| - 1].Success? then 0 else 1 + Trailing(h[..|h| - 1])
  }

  /** The breaker is open exactly within the cooldown of the latest failure of a run of at least three. */
  lemma {:induction false} OpenIff(h: seq<Record>, now: int)
    ensures OpenAt(Replay(h), now) <==>
      Trailing(h) >= 3 && now < h[|h| - 1].at + 30_000
    ensures Replay(h).failures == Min(Trailing(h), U32_MAX)
    ensures Trailing(h) < FAILURE_THRESHOLD ==> Replay(h).openUntil == None
  {
    if h != [] {
      OpenIff(h[..|h| - 1], now);
    }
  }

  // ---- One operation ----

  /** `v.trim().parse::<u64>()`, given what is left after trimming. */
  function ParseU64(t: string): Option<nat> {
    ParseUnsigned(t, TWO_64)
  }

  /** `retry_after_ms`, given the header's trimmed value. */
  function RetryAfterMs(header: Option<string>): (ms: Option<nat>)
    ensures ms.Some? ==> ms.value <= 1_000 * MAX_RETRY_AFTER_SECS
  {
    match header
    case None => None
    case Some(t) =>
      match ParseU64(t)
      case None => None
      case Some(secs) => Some(1_000 * Min(secs, MAX_RETRY_AFTER_SECS))
  }

  datatype Reply = Response(status: nat, retryAfter: Option<string>) | NoResponse

  /** `is_retryable_status`, or no response at all. */
  predicate Retryable(r: Reply) {
    match r
    case Response(status, _) => status == 429 || 500 <= status < 600
    case NoResponse => true
  }

  /** A reply worth another attempt: none, too many requests, or a fault of the server's. */
  predicate IsPassing(r: Reply) {
    r.Response? ==> r.status == 429 || r.status / 100 == 5
  }

  function Backoff(attempt: nat): nat {
    BASE_BACKOFF_MS * Pow2(attempt)
  }

  /** How long the loop sleeps after a retryable reply. */
  function Wait(r: Reply, attempt: nat): nat {
    match r
    case NoResponse => Backoff(attempt)
    case Response(_, header) => match RetryAfterMs(header) case None => Backoff(attempt) case Some(ms) => ms
  }

  /** Without a response or a header that is a number the delay doubles; a number is seconds, sixty at most. */
  lemma WaitIs(r: Reply, attempt: nat)
    ensures r.NoResponse? || r.retryAfter.None? ==> Wait(r, attempt) == 1_000 * Pow2(attempt)
    ensures r.Response? && r.retryAfter.Some? ==>
              var t := r.retryAfter.value;
              || (exists n: nat :: n < TWO_64 && IsNumber(t, n) && Wait(r, attempt) == 1_000 * Min(n, 60))
              || ((forall n: nat :: IsNumber(t, n) ==> n >= TWO_64) && Wait(r, attempt) == 1_000 * Pow2(attempt))
  {
    hide IsNumber, ParseUnsigned, Pow2;
    if r.Response? && r.retryAfter.Some? {
      var t := r.retryAfter.value;
      if ParseU64(t).Some? {
        UnsignedIff(t, TWO_64, ParseU64(t).value);
      }
      forall n: nat | IsNumber(t, n) && n < TWO_64
        ensures ParseU64(t) == Some(n)
      {
        UnsignedIff(t, TWO_64, n);
      }
    }
  }

  /** The attempt that ends the operation: the first that needs no retry, or the last allowed. */
  function LastAttempt(replies: seq<Reply>, attempt: nat): (k: nat)
    requires attempt <= MAX_RETRIES < |replies|
    ensures attempt <= k <= MAX_RETRIES
    ensures k < MAX_RETRIES ==> !Retryable(replies[k])
    ensures forall j | attempt <= j < k :: Retryable(replies[j])
    decreases MAX_RETRIES - attempt
  {
    if attempt == MAX_RETRIES || !Retryable(replies[attempt]) then attempt else LastAttempt(replies, attempt + 1)
  }

  /** The sleep before attempt `k`, all told. */
  function Slept(replies: seq<Reply>, k: nat): nat
    requires k <= |replies|
  {
    if k == 0 then 0 else Slept(replies, k - 1) + Wait(replies[k - 1], k - 1)
  }

  datatype Sent = Sent(reply: Option<Reply>, requests: nat, slept: nat)

  /**
   `send_with_retry`: `replies` are what the attempts would meet, `failedAt` the clock when the
   last of them has failed. A `None` reply means the breaker was open.
   */
  method SendWithRetry(circuit: CircuitState, now: int, replies: seq<Reply>, failedAt: int) returns (r: Sent)
    requires |replies| > MAX_RETRIES
    modifies circuit
    ensures OpenAt(old(circuit.Abs()), now) ==> r == Sent(None, 0, 0) && circuit.Abs() == old(circuit.Abs())
    ensures !OpenAt(old(circuit.Abs()), now) ==>
      var k := LastAttempt(replies, 0);
      && r == Sent(Some(replies[k]), k + 1, Slept(replies, k))
      && circuit.Abs() == if Retryable(replies[k]) then Failed(old(circuit.Abs()), failedAt)
                          else Succeeded(old(circuit.Abs()))
    ensures r.reply.Some? ==> 1 <= r.requests <= 5 && r.reply.value == replies[r.requests - 1]
    ensures r.reply.Some? ==> forall j | 0 <= j < r.requests - 1 :: IsPassing(replies[j])
    ensures r.reply.Some? && r.requests < 5 ==> !IsPassing(r.reply.value)
    ensures r.reply.Some? ==> (circuit.Abs() == Breaker(0, None) <==> !IsPassing(r.reply.value))
  {
    var open := circuit.IsOpen(now);
    if open {
      return Sent(None, 0, 0);
    }
    var attempt, slept := 0, 0;
    while true
      invariant attempt <= MAX_RETRIES && slept == Slept(replies, attempt)
      invariant LastAttempt(replies, attempt) == LastAttempt(replies, 0)
      invariant circuit.Abs() == old(circuit.Abs())
      decreases MAX_RETRIES - attempt
    {
      if !Retryable(replies[attempt]) {
        circuit.RecordSuccess();
        return Sent(Some(replies[attempt]), attempt + 1, slept);
      }
      if attempt == MAX_RETRIES {
        break;
      }
      slept := slept + Wait(replies[attempt], attempt);
      attempt := attempt + 1;
    }
    circuit.RecordFailure(failedAt);
    return Sent(Some(replies[attempt]), attempt + 1, slept);
  }

  /** No operation sends more than five requests or sleeps longer than four minutes. */
  lemma {:induction false} SleepIsBounded(replies: seq<Reply>, k: nat)
    requires k <= MAX_RETRIES && k <= |replies|
    ensures Slept(replies, k) <= 60_000 * k <= 240_000
  {
    if k > 0 {
      SleepIsBounded(replies, k - 1);
      BackoffIsSmall(k - 1);
    }
  }

  lemma BackoffIsSmall(attempt: nat)
    requires attempt < MAX_RETRIES
    ensures Backoff(attempt) <= 8_000
  {
    assert Pow2(0) == 1 && Pow2(1) == 2;
    assert Pow2(2) == 4 && Pow2(3) == 2 * Pow2(2);
  }

  /** Without a usable `Retry-After` the delays double from one second: fifteen seconds at most. */
  lemma {:induction false} SleepWithoutHeader(replies: seq<Reply>, k: nat)
    requires k <= MAX_RETRIES && k <= |replies|
    requires forall j | 0 <= j < k :: replies[j].Response? ==> RetryAfterMs(replies[j].retryAfter).None?
    ensures Slept(replies, k) == 1_000 * (Pow2(k) - 1) <= 15_000
  {
    if k > 0 {
      SleepWithoutHeader(replies, k - 1);
    } else {
      assert Pow2(0) == 1;
    }
    PowUpTo(k);
  }

  lemma PowUpTo(k: nat)
    requires k <= MAX_RETRIES
    ensures Pow2(k) <= 16
  {
    assert Pow2(2) == 4;
    assert Pow2(4) == 16;
  }

  // ---- Operations side by side, on one breaker ----

  type Op = nat

  /** How far an operation has come: requests answered, sleep so far, and when the sleep will be over. */
  datatype Progress = Progress(requests: nat, slept: nat, wakesAt: int)

  /** The shared breaker, the operations under way, those refused, those that ended, and what was recorded, by whom. */
  datatype Shared = Shared(
    circuit: Breaker,
    under: map<Op, Progress>,
    refused: set<Op>,
    ended: map<Op, Progress>,
    log: seq<Record>,
    authors: seq<Op>)

  /** An operation looks at the breaker; later each of its requests is answered, or fails. */
  datatype Event =
    | Enters(op: Op, at: int)
    | Attempt(op: Op, reply: Reply, at: int)

  predicate Enabled(s: Shared, e: Event) {
    match e
    case Enters(op, _) => op !in s.under && op !in s.refused && op !in s.ended
    case Attempt(op, _, at) => op in s.under && at >= s.under[op].wakesAt
  }

  function Recorded(s: Shared, r: Record, op: Op): Shared {
    var circuit := match r case Success => Succeeded(s.circuit) case Failure(at) => Failed(s.circuit, at);
    s.(circuit := circuit, log := s.log + [r], authors := s.authors + [op])
  }

  /** The loop of `send_with_retry`, one request of one operation at a time. */
  function Apply(s: Shared, e: Event): Shared
    requires Enabled(s, e)
  {
    match e
    case Enters(op, at) =>
      if OpenAt(s.circuit, at) then s.(refused := s.refused + {op})
      else s.(under := s.under[op := Progress(0, 0, at)])
    case Attempt(op, reply, at) =>
      var p := s.under[op];
      var over := s.(under := s.under - {op}, ended := s.ended[op := p.(requests := p.requests + 1)]);
      if !Retryable(reply) then Recorded(over, Success, op)
      else if p.requests == MAX_RETRIES then Recorded(over, Failure(at), op)
      else
        var pause := Wait(reply, p.requests);
        s.(under := s.under[op := Progress(p.requests + 1, p.slept + pause, at + pause)])
  }

  function Idle(): Shared {
    Shared(Breaker(0, None), map[], {}, map[], [], [])
  }

  ghost predicate CanRun(s: Shared, events: seq<Event>)
    decreases |events|
  {
    events != [] ==> Enabled(s, events[0]) && CanRun(Apply(s, events[0]), events[1..])
  }

  function Run(s: Shared, events: seq<Event>): Shared
    requires CanRun(s, events)
    decreases |events|
  {
    if events == [] then s else Run(Apply(s, events[0]), events[1..])
  }

  /** The breaker is what the records make it, and the records are one of each operation that has ended. */
  ghost predicate Consistent(circuit: Breaker, ended: set<Op>, log: seq<Record>, authors: seq<Op>) {
    && circuit == Replay(log) && |authors| == |log|
    && Distinct(authors) && forall op :: op in authors <==> op in ended
  }

  /** Each operation is in one place and within its bounds. */
  predicate Bounded(under: map<Op, Progress>, refused: set<Op>, ended: map<Op, Progress>) {
    && under.Keys !! refused !! ended.Keys
    && (forall op | op in under :: under[op].requests <= MAX_RETRIES && under[op].slept <= 60_000 * under[op].requests)
    && (forall op | op in ended :: 1 <= ended[op].requests <= MAX_RETRIES + 1)
    && (forall op | op in ended :: ended[op].slept <= 60_000 * (ended[op].requests - 1))
  }

  ghost predicate Sound(s: Shared) {
    Consistent(s.circuit, s.ended.Keys, s.log, s.authors) && Bounded(s.under, s.refused, s.ended)
  }

  lemma PauseIsBounded(reply: Reply, attempt: nat)
    requires attempt < MAX_RETRIES
    ensures Wait(reply, attempt) <= 60_000
  {
    BackoffIsSmall(attempt);
    hide Backoff, RetryAfterMs;
  }

  lemma RecordConsistent(circuit: Breaker, ended: set<Op>, log: seq<Record>, authors: seq<Op>, r: Record, op: Op)
    requires Consistent(circuit, ended, log, authors) && op !in ended
    ensures var next := match r case Success => Succeeded(circuit) case Failure(at) => Failed(circuit, at);
            Consistent(next, ended + {op}, log + [r], authors + [op])
  {
    assert (log + [r])[..|log|] == log;
    DistinctMore(authors, op);
    hide Distinct;
  }

  lemma UnderIsElsewhere(s: Shared, op: Op)
    requires Sound(s) && op in s.under
    ensures op !in s.ended && op !in s.refused
    ensures s.under[op].requests <= MAX_RETRIES && s.under[op].slept <= 60_000 * s.under[op].requests
  {
    hide Consistent;
  }

  lemma AttemptConsistent(s: Shared, op: Op, reply: Reply, at: int)
    requires Sound(s) && Enabled(s, Attempt(op, reply, at))
    ensures var t := Apply(s, Attempt(op, reply, at));
            Consistent(t.circuit, t.ended.Keys, t.log, t.authors)
  {
    UnderIsElsewhere(s, op);
    hide Consistent, Bounded, Wait, Succeeded, Failed, Retryable;
    var r := if Retryable(reply) then Failure(at) else Success;
    RecordConsistent(s.circuit, s.ended.Keys, s.log, s.authors, r, op);
    var p := s.under[op];
    assert s.ended[op := p.(requests := p.requests + 1)].Keys == s.ended.Keys + {op};
  }

  lemma EntryConsistent(s: Shared, op: Op, at: int)
    requires Sound(s) && Enabled(s, Enters(op, at))
    ensures Sound(Apply(s, Enters(op, at)))
  {
    hide Consistent, OpenAt;
  }

  lemma AttemptBounded(s: Shared, op: Op, reply: Reply, at: int)
    requires Sound(s) && Enabled(s, Attempt(op, reply, at))
    ensures var t := Apply(s, Attempt(op, reply, at));
            Bounded(t.under, t.refused, t.ended)
  {
    hide Consistent, Wait, Succeeded, Failed, Retryable;
    UnderIsElsewhere(s, op);
    var p := s.under[op];
    if p.requests < MAX_RETRIES {
      PauseIsBounded(reply, p.requests);
      var pause := Wait(reply, p.requests);
      GoesOn(s.under, s.refused, s.ended, op, Progress(p.requests + 1, p.slept + pause, at + pause));
    }
    Ends(s.under, s.refused, s.ended, op, p.(requests := p.requests + 1));
    hide Bounded;
  }

  lemma GoesOn(under: map<Op, Progress>, refused: set<Op>, ended: map<Op, Progress>, op: Op, p: Progress)
    requires Bounded(under, refused, ended) && op in under
    requires p.requests <= MAX_RETRIES && p.slept <= 60_000 * p.requests
    ensures Bounded(under[op := p], refused, ended)
  {
  }

  lemma Ends(under: map<Op, Progress>, refused: set<Op>, ended: map<Op, Progress>, op: Op, p: Progress)
    requires Bounded(under, refused, ended) && op in under
    requires 1 <= p.requests <= MAX_RETRIES + 1 && p.slept <= 60_000 * (p.requests - 1)
    ensures Bounded(under - {op}, refused, ended[op := p])
  {
  }

  lemma StepIsSound(s: Shared, e: Event)
    requires Sound(s) && Enabled(s, e)
    ensures Sound(Apply(s, e))
  {
    match e
    case Enters(op, at) => EntryConsistent(s, op, at);
    case Attempt(op, reply, at) =>
      AttemptConsistent(s, op, reply, at);
      AttemptBounded(s, op, reply, at);
      hide Consistent, Bounded, Apply;
  }

  lemma {:induction false} RunIsSound(s: Shared, events: seq<Event>)
    requires Sound(s) && CanRun(s, events)
    ensures Sound(Run(s, events))
    decreases |events|
  {
    hide Sound, Enabled, Apply;
    if events != [] {
      StepIsSound(s, events[0]);
      RunIsSound(Apply(s, events[0]), events[1..]);
    }
  }

  /**
   However the requests of operations interleave, each operation that has ended sent at most five,
   slept at most four minutes and recorded exactly one success or failure; none that is under way or
   was refused has recorded anything. The next to enter is refused if and only if at least three
   failures have been recorded since the last success and the latest is under thirty seconds old.
   */
  lemma OperationsOverlap(events: seq<Event>, op: Op, at: int)
    requires CanRun(Idle(), events)
    ensures var s := Run(Idle(), events);
            && |s.authors| == |s.log| && Distinct(s.authors) && (op in s.authors <==> op in s.ended)
            && (op in s.ended ==> 1 <= s.ended[op].requests <= 5 && s.ended[op].slept <= 240_000)
            && (op in s.under ==> s.under[op].requests <= 4 && s.under[op].slept <= 240_000)
            && s.under.Keys !! s.refused !! s.ended.Keys
            && (Enabled(s, Enters(op, at)) ==>
                  (op in Apply(s, Enters(op, at)).refused <==>
                     Trailing(s.log) >= FAILURE_THRESHOLD && at < s.log[|s.log| - 1].at + COOLDOWN_MS))
  {
    assert Sound(Idle());
    RunIsSound(Idle(), events);
    OpenIff(Run(Idle(), events).log, at);
    hide Run, Replay, Trailing;
  }

  /** What an operation recorded: a success if its last reply was final, a failure if five were not. */
  lemma RecordIsTheOutcome(s: Shared, op: Op, reply: Reply, at: int)
    requires Sound(s) && Enabled(s, Attempt(op, reply, at))
    ensures var t := Apply(s, Attempt(op, reply, at));
            && (op in t.ended <==> !Retryable(reply) || s.under[op].requests == MAX_RETRIES)
            && t.log == if op !in t.ended then s.log else s.log + [if Retryable(reply) then Failure(at) else Success]
  {
    hide Consistent, Retryable, Wait;
  }
}
