/**
 The lockout of one (email, address) pair, with any number of sign-ins under way at once. `signin`
 looks at the store when a request comes in and writes to it when the password has been verified
 (`backend/src/routes.rs`); no lock is held in between, so every interleaving of the two happens.
 */
module LockoutHistory {
  import opened Outcomes
  import opened Lockout

  type RequestId = nat

  /**
   A recorded failure: whose and when; whether a check or a sweep had seen a lock expire since the
   one before; the sign-ins still under way just after it; and how many failures had been recorded
   when the record was last evicted.
   */
  datatype Failure = Failure(q: RequestId, at: int, served: bool, others: set<RequestId>, forgot: nat)

  /** The latest lock: which step tripped it, and until when it was last extended. */
  datatype Lock = Lock(trip: nat, until: int)

  /** `rec` is what the program stores; the rest is what happened, which it does not. */
  datatype State = State(
    rec: Option<LoginAttempt>,
    flight: map<RequestId, nat>,  // sign-ins let through and still under way: the step of their check
    failures: seq<Failure>,       // since the last success
    forgot: nat,                  // how many of them were recorded before the latest eviction
    lock: Option<Lock>,
    looked: int,                  // the latest check or sweep
    steps: nat,
    clock: int)

  datatype Event =
    | Enters(q: RequestId, at: int)    // `is_locked`
    | Fails(q: RequestId, at: int)     // `record_failure`
    | Succeeds(q: RequestId, at: int)  // `clear`
    | Leaves(q: RequestId, at: int)    // a database error: the store is not told
    | Sweeps(at: int)                  // `cleanup`
    | Evicted(at: int)                 // dropped at the cap to make room for another key

  /** The clock never runs backwards, and a sign-in ends once. */
  predicate Enabled(s: State, e: Event) {
    s.clock <= e.at &&
    match e
    case Enters(q, _) => q !in s.flight
    case Fails(q, _) => q in s.flight
    case Succeeds(q, _) => q in s.flight
    case Leaves(q, _) => q in s.flight
    case _ => true
  }

  function Extended(lock: Option<Lock>, r: LoginAttempt, step: nat): Option<Lock> {
    if r.attempts < THRESHOLD then lock
    else Some(Lock(if r.attempts == THRESHOLD || lock.None? then step else lock.value.trip, r.lastAttempt + LOCK_MS))
  }

  // ---- What failures say ----

  /**
   How many of the latest failures count together. One that comes more than the window after the
   one before starts anew, and so does the first after a lock that was seen to expire.
   */
  function Streak(h: seq<Failure>): nat {
    if h == [] then 0
    else
      var before, f := h[..|h| - 1], h[|h| - 1];
      if before == [] || f.at - before[|before| - 1].at > WINDOW_MS || f.served then 1 else Streak(before) + 1
  }

  /** Five failures that count together lock for fifteen minutes from the last of them. */
  predicate LockedAt(h: seq<Failure>, now: int) {
    Streak(h) >= THRESHOLD && now < h[|h| - 1].at + LOCK_MS
  }

  /** A lock, and a check or sweep after its end. */
  predicate SeenToExpire(h: seq<Failure>, looked: int) {
    Streak(h) >= THRESHOLD && looked >= h[|h| - 1].at + LOCK_MS
  }

  /** The failures since the latest eviction, or all. */
  function Recent(s: State): seq<Failure> {
    if s.forgot <= |s.failures| then s.failures[s.forgot..] else []
  }

  function NewFailure(s: State, q: RequestId, at: int): Failure {
    Failure(q, at, SeenToExpire(Recent(s), s.looked), s.flight.Keys - {q}, s.forgot)
  }

  // ---- One step ----

  function Apply(s: State, e: Event): State {
    var t := s.(steps := s.steps + 1, clock := e.at);
    match e
    case Enters(q, at) =>
      var (status, left) := Check(s.rec, at);
      t.(rec := left, looked := at, flight := if status.locked then s.flight else s.flight[q := s.steps])
    case Fails(q, at) =>
      var r := AfterFailure(s.rec, at);
      var others := s.flight - {q};
      t.(rec := Some(r), flight := others, failures := s.failures + [NewFailure(s, q, at)],
         lock := Extended(s.lock, r, s.steps))
    case Succeeds(q, _) => t.(rec := None, flight := s.flight - {q}, failures := [], forgot := 0, lock := None)
    case Leaves(q, _) => t.(flight := s.flight - {q})
    case Sweeps(at) => t.(rec := if s.rec.Some? && Retained(s.rec.value, at) then s.rec else None, looked := at)
    case Evicted(_) => t.(rec := None, forgot := |s.failures|, lock := None)
  }

  function Start(now: int): State {
    State(None, map[], [], 0, None, now, 0, now)
  }

  ghost predicate CanRun(s: State, events: seq<Event>)
    decreases |events|
  {
    events != [] ==> Enabled(s, events[0]) && CanRun(Apply(s, events[0]), events[1..])
  }

  function Run(s: State, events: seq<Event>): State
    decreases |events|
  {
    if events == [] then s else Run(Apply(s, events[0]), events[1..])
  }

  // ---- Store and history ----

  /** A history that can no longer count towards a lock. */
  predicate Spent(h: seq<Failure>, looked: int, now: int) {
    h == [] || now - h[|h| - 1].at > WINDOW_MS || SeenToExpire(h, looked)
  }

  /** The record says of the failures all that still matters. */
  predicate Mirrors(rec: Option<LoginAttempt>, h: seq<Failure>, looked: int, now: int) {
    match rec
    case None => Spent(h, looked, now)
    case Some(r) =>
      && h != [] && r.lastAttempt == h[|h| - 1].at <= now && r.attempts == Streak(h) && WellFormed(r)
      && !SeenToExpire(h, looked)
  }

  predicate Reflects(s: State) {
    s.forgot <= |s.failures| && s.looked <= s.clock && Mirrors(s.rec, Recent(s), s.looked, s.clock)
  }

  lemma RecentGrows(s: State, e: Event)
    requires s.forgot <= |s.failures|
    ensures var t := Apply(s, e);
            match e
            case Fails(q, at) =>
              Recent(t) == Recent(s) + [NewFailure(s, q, at)] && Recent(t)[..|Recent(t)| - 1] == Recent(s)
            case Succeeds(_, _) => Recent(t) == []
            case Evicted(_) => Recent(t) == []
            case _ => Recent(t) == Recent(s)
  {
    hide SeenToExpire;
  }

  lemma StreakGrows(h: seq<Failure>, f: Failure)
    ensures Streak(h + [f]) == if h == [] || f.at - h[|h| - 1].at > WINDOW_MS || f.served then 1 else Streak(h) + 1
    ensures Streak(h + [f]) >= 1
  {
    assert (h + [f])[..|h|] == h;
  }

  lemma FailureMirrors(rec: Option<LoginAttempt>, h: seq<Failure>, looked: int, now: int, f: Failure)
    requires Mirrors(rec, h, looked, now) && looked <= now <= f.at && f.served == SeenToExpire(h, looked)
    ensures Mirrors(Some(AfterFailure(rec, f.at)), h + [f], looked, f.at)
  {
    StreakGrows(h, f);
    hide Streak;
  }

  lemma LookMirrors(rec: Option<LoginAttempt>, h: seq<Failure>, looked: int, now: int, at: int)
    requires Mirrors(rec, h, looked, now) && looked <= now <= at
    ensures Mirrors(rec, h, looked, at) && Mirrors(None, [], looked, at)
    ensures Mirrors(Check(rec, at).1, h, at, at)
    ensures Mirrors(if rec.Some? && Retained(rec.value, at) then rec else None, h, at, at)
    ensures Check(rec, at).0.locked <==> LockedAt(h, at)
  {
    NoStreak();
    hide Streak;
  }

  lemma NoStreak()
    ensures Streak([]) == 0
  {
  }

  lemma StepReflects(s: State, e: Event)
    requires Reflects(s) && Enabled(s, e)
    ensures Reflects(Apply(s, e))
  {
    RecentGrows(s, e);
    LookMirrors(s.rec, Recent(s), s.looked, s.clock, e.at);
    if e.Fails? {
      FailureMirrors(s.rec, Recent(s), s.looked, s.clock, NewFailure(s, e.q, e.at));
    }
    hide Recent, Mirrors, AfterFailure, Check, Retained, Extended, SeenToExpire, LockedAt;
  }

  /** The record and the recent failures lock at the same moments. */
  lemma SameVerdict(s: State, now: int)
    requires Reflects(s) && s.clock <= now
    ensures Check(s.rec, now).0.locked <==> LockedAt(Recent(s), now)
  {
    LookMirrors(s.rec, Recent(s), s.looked, s.clock, now);
    hide Recent, Mirrors, Check, LockedAt;
  }

  /** Of the failures that count together, those since an eviction still do. */
  lemma {:induction false} StreakOfSuffix(h: seq<Failure>, k: nat)
    requires k <= |h|
    ensures Streak(h[k..]) == if Streak(h) <= |h| - k then Streak(h) else |h| - k
    decreases |h|
  {
    if k < |h| {
      var n := |h| - 1;
      assert h[k..][..n - k] == h[..n][k..];
      StreakOfSuffix(h[..n], k);
    }
  }

  lemma {:induction false} RunReflects(s: State, events: seq<Event>)
    requires Reflects(s) && CanRun(s, events)
    ensures Reflects(Run(s, events))
    decreases |events|
  {
    hide Reflects, Enabled, Apply;
    if events != [] {
      StepReflects(s, events[0]);
      RunReflects(Apply(s, events[0]), events[1..]);
    }
  }

  lemma AgreeAt(s: State, now: int)
    requires Reflects(s) && s.clock <= now
    ensures Check(s.rec, now).0.locked <==> LockedAt(s.failures, now) && |s.failures| - s.forgot >= THRESHOLD
  {
    SameVerdict(s, now);
    StreakOfSuffix(s.failures, s.forgot);
    hide Streak, Reflects, Check;
  }

  /**
   In every run of overlapping sign-ins, with sweeps and evictions at any moment, the store refuses
   at any later time exactly when all the failures since the last success lock the account and at
   least five of them came after the latest eviction.
   */
  lemma RunsAgree(s: State, events: seq<Event>, now: int)
    requires Reflects(s) && CanRun(s, events) && Run(s, events).clock <= now
    ensures var t := Run(s, events);
            Check(t.rec, now).0.locked <==> LockedAt(t.failures, now) && |t.failures| - t.forgot >= THRESHOLD
  {
    RunReflects(s, events);
    AgreeAt(Run(s, events), now);
    hide Streak, Run, Reflects, Check;
  }

  // ---- A failure recorded while the account is locked ----

  /**
   A sign-in checked after the latest lock tripped was let through because that lock was over, and
   a count of five or more is that lock's.
   */
  predicate Followed(s: State) {
    Follows(s.rec, Recent(s), s.flight, s.lock, s.steps, s.clock)
  }

  predicate Follows(rec: Option<LoginAttempt>, h: seq<Failure>, flight: map<RequestId, nat>, lock: Option<Lock>,
                    steps: nat, clock: int)
  {
    && (forall q | q in flight :: flight[q] < steps)
    && (lock.Some? ==> lock.value.trip < steps)
    && (lock.Some? && clock < lock.value.until ==> Tripped(rec))
    && (Streak(h) >= THRESHOLD ==> h != [] && lock.Some? && lock.value.until == h[|h| - 1].at + LOCK_MS)
    && (Tripped(rec) ==> lock.Some? && forall q | q in flight :: flight[q] < lock.value.trip)
  }

  predicate Tripped(rec: Option<LoginAttempt>) {
    rec.Some? && rec.value.attempts >= THRESHOLD
  }

  lemma FailureFollows(rec: Option<LoginAttempt>, h: seq<Failure>, flight: map<RequestId, nat>, lock: Option<Lock>,
                       steps: nat, clock: int, q: RequestId, f: Failure)
    requires Follows(rec, h, flight, lock, steps, clock) && clock <= f.at
    requires Tripped(rec) ==> h != [] && rec.value.lastAttempt == h[|h| - 1].at && Streak(h) >= THRESHOLD
    requires var r := AfterFailure(rec, f.at);
             r.attempts == Streak(h + [f]) && r.lastAttempt == f.at
    ensures var r := AfterFailure(rec, f.at);
            Follows(Some(r), h + [f], flight - {q}, Extended(lock, r, steps), steps + 1, f.at)
  {
    hide Streak;
  }

  lemma EntryFollows(rec: Option<LoginAttempt>, h: seq<Failure>, flight: map<RequestId, nat>, lock: Option<Lock>,
                     steps: nat, clock: int, q: RequestId, at: int)
    requires Follows(rec, h, flight, lock, steps, clock) && clock <= at && (rec.Some? ==> WellFormed(rec.value))
    requires Tripped(rec) ==> h != [] && rec.value.lastAttempt == h[|h| - 1].at && Streak(h) >= THRESHOLD
    ensures var (status, left) := Check(rec, at);
            Follows(left, h, if status.locked then flight else flight[q := steps], lock, steps + 1, at)
    ensures Follows(if rec.Some? && Retained(rec.value, at) then rec else None, h, flight, lock, steps + 1, at)
  {
    hide Streak;
  }

  lemma QuietFollows(rec: Option<LoginAttempt>, h: seq<Failure>, flight: map<RequestId, nat>, lock: Option<Lock>,
                     steps: nat, clock: int, q: RequestId, at: int)
    requires Follows(rec, h, flight, lock, steps, clock) && clock <= at
    ensures Follows(rec, h, flight - {q}, lock, steps + 1, at)
    ensures Follows(None, [], flight, None, steps + 1, at) && Follows(None, [], flight - {q}, None, steps + 1, at)
  {
    NoStreak();
    hide Streak;
  }

  lemma FailureFollowed(s: State, q: RequestId, at: int)
    requires Reflects(s) && Followed(s) && Enabled(s, Fails(q, at))
    ensures Followed(Apply(s, Fails(q, at)))
  {
    hide Follows, Recent, Mirrors, AfterFailure, Extended, SeenToExpire, Streak;
    RecentGrows(s, Fails(q, at));
    CountIsStreak(s);
    StepReflects(s, Fails(q, at));
    CountIsStreak(Apply(s, Fails(q, at)));
    FailureFollows(s.rec, Recent(s), s.flight, s.lock, s.steps, s.clock, q, NewFailure(s, q, at));
  }

  lemma LookFollowed(s: State, e: Event)
    requires Reflects(s) && Followed(s) && Enabled(s, e) && (e.Enters? || e.Sweeps?)
    ensures Followed(Apply(s, e))
  {
    hide Follows, Recent, Mirrors, Check, Retained, SeenToExpire, Streak;
    RecentGrows(s, e);
    CountIsStreak(s);
    EntryFollows(s.rec, Recent(s), s.flight, s.lock, s.steps, s.clock, if e.Enters? then e.q else 0, e.at);
  }

  lemma QuietFollowed(s: State, e: Event)
    requires Reflects(s) && Followed(s) && Enabled(s, e) && !e.Enters? && !e.Sweeps? && !e.Fails?
    ensures Followed(Apply(s, e))
  {
    hide Follows, Recent, Mirrors, SeenToExpire, Streak;
    RecentGrows(s, e);
    QuietFollows(s.rec, Recent(s), s.flight, s.lock, s.steps, s.clock, if e.Evicted? then 0 else e.q, e.at);
  }

  lemma StepFollowed(s: State, e: Event)
    requires Reflects(s) && Followed(s) && Enabled(s, e)
    ensures Followed(Apply(s, e))
  {
    hide *;
    if e.Fails? {
      FailureFollowed(s, e.q, e.at);
    } else if e.Enters? || e.Sweeps? {
      LookFollowed(s, e);
    } else {
      QuietFollowed(s, e);
    }
  }

  lemma CountIsStreak(s: State)
    requires Reflects(s)
    ensures s.rec.Some? ==> s.rec.value.attempts == Streak(Recent(s)) && WellFormed(s.rec.value)
    ensures s.rec.Some? ==> Recent(s) != [] && s.rec.value.lastAttempt == Recent(s)[|Recent(s)| - 1].at
  {
    hide Streak, Recent;
  }

  /** The states that runs reach. */
  predicate Sound(s: State) {
    Reflects(s) && Followed(s)
  }

  lemma StartIsSound(now: int)
    ensures Sound(Start(now))
  {
  }

  lemma {:induction false} RunIsSound(s: State, events: seq<Event>)
    requires Sound(s) && CanRun(s, events)
    ensures Sound(Run(s, events))
    decreases |events|
  {
    hide Reflects, Followed, Enabled, Apply;
    if events != [] {
      StepReflects(s, events[0]);
      StepFollowed(s, events[0]);
      RunIsSound(Apply(s, events[0]), events[1..]);
    }
  }

  /**
   A sign-in under way finds the account locked when it comes to record its failure if and only if
   it was checked before the step that tripped the latest lock, and that lock is not over.
   */
  lemma RecordedWhileLockedIff(s: State, q: RequestId, now: int)
    requires Sound(s) && q in s.flight && s.clock <= now
    ensures Check(s.rec, now).0.locked <==>
      s.lock.Some? && s.flight[q] < s.lock.value.trip && now < s.lock.value.until
  {
    SameVerdict(s, now);
    hide Streak, Recent, SeenToExpire;
  }

  // ---- What a lock keeps out, and what lifts it ----

  /** A sign-in that succeeds clears the record, lock and all, and so does an eviction. */
  predicate Lifts(e: Event) {
    e.Succeeds? || e.Evicted?
  }

  predicate Locks(s: State, now: int) {
    LockedAt(Recent(s), now)
  }

  /** While the account is locked, a step unlocks it if and only if it clears or evicts the record. */
  lemma UnlocksIff(s: State, e: Event)
    requires Sound(s) && Enabled(s, e) && Locks(s, e.at)
    ensures !Locks(Apply(s, e), e.at) <==> Lifts(e)
    ensures !Lifts(e) ==> Apply(s, e).flight.Keys <= s.flight.Keys
  {
    SameVerdict(s, e.at);
    RecentGrows(s, e);
    NoStreak();
    if e.Fails? {
      StreakGrows(Recent(s), NewFailure(s, e.q, e.at));
      NotYetServed(s, e.at);
    }
    hide Recent, Streak, Followed, Mirrors, SeenToExpire, Retained, AfterFailure, Extended;
  }

  lemma NotYetServed(s: State, at: int)
    requires Reflects(s) && s.clock <= at && Locks(s, at)
    ensures !SeenToExpire(Recent(s), s.looked)
  {
    hide Recent, Streak, Mirrors;
  }

  /** Nothing happens after the lock that is on in `s` would be over. */
  predicate WhileLocked(s: State, events: seq<Event>) {
    && Streak(Recent(s)) >= THRESHOLD
    && forall i | 0 <= i < |events| :: events[i].at < Recent(s)[|Recent(s)| - 1].at + LOCK_MS
  }

  predicate Lifted(events: seq<Event>) {
    exists i | 0 <= i < |events| :: Lifts(events[i])
  }

  /** Either the account is locked until `until` at least, or five failures have not counted since it was cleared. */
  predicate Settled(s: State, until: int) {
    && (s.lock.None? <==> Streak(Recent(s)) < THRESHOLD)
    && (Recent(s) != [] ==> Recent(s)[|Recent(s)| - 1].at + LOCK_MS >= until || s.lock.None?)
    && s.clock + LOCK_MS >= until
  }

  lemma StepSettled(s: State, e: Event, until: int)
    requires Sound(s) && Enabled(s, e) && Settled(s, until) && e.at < until
    ensures Settled(Apply(s, e), until)
    ensures !Lifts(e) && s.lock.Some? ==> Apply(s, e).lock.Some? && Apply(s, e).lock.value.trip == s.lock.value.trip
    ensures !Lifts(e) && s.lock.Some? ==> Apply(s, e).flight.Keys <= s.flight.Keys
    ensures Lifts(e) ==> Apply(s, e).lock.None?
  {
    StepReflects(s, e);
    RecentGrows(s, e);
    SameVerdict(s, e.at);
    CountIsStreak(s);
    CountIsStreak(Apply(s, e));
    NoStreak();
    hide Recent, Streak, Mirrors, SeenToExpire, Retained, NewFailure;
  }

  lemma {:induction false} RunSettled(s: State, events: seq<Event>, until: int)
    requires Sound(s) && CanRun(s, events) && Settled(s, until) && forall i | 0 <= i < |events| :: events[i].at < until
    ensures var t := Run(s, events);
            && Sound(t) && Settled(t, until)
            && (s.lock.Some? && !Lifted(events) ==>
                  t.lock.Some? && t.lock.value.trip == s.lock.value.trip && t.flight.Keys <= s.flight.Keys)
    decreases |events|
  {
    if events != [] {
      StepSettled(s, events[0], until);
      StepReflects(s, events[0]);
      StepFollowed(s, events[0]);
      hide Sound, Reflects, Followed, Settled, Enabled, Apply;
      assert !Lifted(events) ==> !Lifts(events[0]) && !Lifted(events[1..]);
      RunSettled(Apply(s, events[0]), events[1..], until);
    }
  }

  lemma SettledWhileLocked(s: State)
    requires Sound(s) && Streak(Recent(s)) >= THRESHOLD
    ensures Settled(s, Recent(s)[|Recent(s)| - 1].at + LOCK_MS) && s.lock.Some?
  {
  }

  /**
   Until a sign-in under way succeeds or the record is evicted, nobody who is not under way already
   gets in for fifteen minutes from the failure that set a lock, and the lock stays the same one.
   */
  lemma LockHolds(s: State, events: seq<Event>)
    requires Sound(s) && CanRun(s, events) && WhileLocked(s, events) && !Lifted(events)
    ensures var t := Run(s, events);
            t.flight.Keys <= s.flight.Keys && t.lock.Some? && s.lock.Some? && t.lock.value.trip == s.lock.value.trip
  {
    SettledWhileLocked(s);
    hide Run, Settled, Recent, Streak, Lifted, Sound;
    RunSettled(s, events, Recent(s)[|Recent(s)| - 1].at + LOCK_MS);
  }

  /**
   In those fifteen minutes somebody new is let in if and only if a sign-in has succeeded or the
   record was evicted, and five failures have not counted since.
   */
  lemma LetInIff(s: State, events: seq<Event>, p: RequestId, at: int)
    requires Sound(s) && CanRun(s, events) && WhileLocked(s, events + [Enters(p, at)])
    requires Enabled(Run(s, events), Enters(p, at))
    ensures var t := Run(s, events);
            p in Apply(t, Enters(p, at)).flight <==> Lifted(events) && Streak(Recent(t)) < THRESHOLD
  {
    var until := Recent(s)[|Recent(s)| - 1].at + LOCK_MS;
    var t := Run(s, events);
    assert forall i | 0 <= i < |events| :: events[i] == (events + [Enters(p, at)])[i];
    assert (events + [Enters(p, at)])[|events|].at < until;
    SettledWhileLocked(s);
    RunSettled(s, events, until);
    SameVerdict(t, at);
    hide Run, Lifted, Followed, Streak, Recent, SeenToExpire;
  }

  predicate NobodyRecords(events: seq<Event>) {
    forall i | 0 <= i < |events| :: events[i].Enters? || events[i].Leaves? || events[i].Sweeps?
  }

  lemma {:induction false} LookingKeepsHistory(s: State, events: seq<Event>)
    requires Sound(s) && CanRun(s, events) && NobodyRecords(events)
    ensures Sound(Run(s, events)) && Recent(Run(s, events)) == Recent(s) && Run(s, events).looked >= s.looked
    decreases |events|
  {
    if events != [] {
      StepReflects(s, events[0]);
      StepFollowed(s, events[0]);
      RecentGrows(s, events[0]);
      assert events[0].Enters? || events[0].Leaves? || events[0].Sweeps?;
      LookingKeepsHistory(Apply(s, events[0]), events[1..]);
    }
    hide Followed, Streak, Recent;
  }

  /** Once the fifteen minutes are over the first sign-in is let in, and the next failure counts as the first. */
  lemma LockIsServed(s: State, q: RequestId, at: int, events: seq<Event>, recorded: int)
    requires Sound(s) && Streak(Recent(s)) >= THRESHOLD && at >= Recent(s)[|Recent(s)| - 1].at + LOCK_MS
    requires Enabled(s, Enters(q, at)) && CanRun(Apply(s, Enters(q, at)), events) && NobodyRecords(events)
    requires Run(Apply(s, Enters(q, at)), events).clock <= recorded
    ensures q in Apply(s, Enters(q, at)).flight
    ensures AfterFailure(Run(Apply(s, Enters(q, at)), events).rec, recorded) == LoginAttempt(1, None, recorded)
  {
    SameVerdict(s, at);
    StepReflects(s, Enters(q, at));
    StepFollowed(s, Enters(q, at));
    RecentGrows(s, Enters(q, at));
    LookingKeepsHistory(Apply(s, Enters(q, at)), events);
    hide Streak, Run, Followed, Recent;
  }

  // ---- How many guesses fit into a window ----

  /** Failures come in order, a lock is seen to expire no sooner than it ends, and the past is what was forgotten. */
  predicate Dated(h: seq<Failure>, clock: int) {
    && (forall i, j | 0 <= i < j < |h| :: h[i].at <= h[j].at && h[i].forgot <= h[j].forgot)
    && (forall i | 0 <= i < |h| :: h[i].at <= clock && h[i].forgot <= i)
    && (forall i | 0 <= i < |h| && h[i].served :: i > 0 && h[i].at >= h[i - 1].at + LOCK_MS)
  }

  /** Failures that all fall within the window count together. */
  lemma {:induction false} StreakWithin(h: seq<Failure>, i: nat, clock: int)
    requires Dated(h, clock) && i < |h| && h[|h| - 1].at - h[i].at < WINDOW_MS
    ensures Streak(h) >= |h| - i
    decreases |h|
  {
    if i < |h| - 1 {
      StreakWithin(h[..|h| - 1], i, clock);
    }
  }

  /** Four before `i + 4` are within the window of it: from there on only `others` can add more. */
  predicate Crowd(h: seq<Failure>, i: nat, upTo: nat, flight: set<RequestId>)
    requires i + 4 < |h| && upTo <= |h|
  {
    && flight <= h[i + 4].others
    && (forall j | i + 5 <= j < upTo :: h[j].q in h[i + 4].others && h[j].q !in flight)
    && (forall j, k | i + 5 <= j < k < upTo :: h[j].q != h[k].q)
  }

  /** While the window of failure `i` lasts, whoever failed after the fifth from it was under way at the fifth. */
  ghost predicate Crowded(s: State) {
    && Dated(s.failures, s.clock) && s.looked <= s.clock && s.forgot <= |s.failures|
    && (forall i | 0 <= i < |s.failures| :: s.failures[i].forgot <= s.forgot)
    && (forall i: nat | s.forgot <= i && i + 4 < |s.failures| && s.clock - s.failures[i].at < WINDOW_MS ::
          Crowd(s.failures, i, |s.failures|, s.flight.Keys))
    && EarlierCrowds(s.failures)
  }

  /** The same of every earlier failure that the store still remembered `i` at. */
  ghost predicate EarlierCrowds(h: seq<Failure>) {
    forall i: nat, n: nat | i + 5 < n <= |h| && h[n - 1].forgot <= i && h[n - 1].at - h[i].at < WINDOW_MS ::
      Crowd(h, i, n, {})
  }

  lemma CrowdGrows(h: seq<Failure>, i: nat, f: Failure, flight: set<RequestId>)
    requires i + 4 < |h| && Crowd(h, i, |h|, flight) && f.q in flight
    ensures Crowd(h + [f], i, |h| + 1, flight - {f.q}) && Crowd(h + [f], i, |h| + 1, {})
  {
  }

  lemma CrowdStays(h: seq<Failure>, i: nat, n: nat, f: Failure, flight: set<RequestId>)
    requires i + 4 < |h| && n <= |h| && Crowd(h, i, n, flight)
    ensures Crowd(h + [f], i, n, flight)
  {
  }

  lemma DatedSnoc(h: seq<Failure>, clock: int, f: Failure)
    requires Dated(h, clock) && clock <= f.at && f.forgot <= |h|
    requires forall i | 0 <= i < |h| :: h[i].forgot <= f.forgot
    requires f.served ==> h != [] && f.at >= h[|h| - 1].at + LOCK_MS
    ensures Dated(h + [f], f.at)
  {
  }

  lemma ServedIsLate(h: seq<Failure>, k: nat, looked: int)
    requires k <= |h| && SeenToExpire(h[k..], looked)
    ensures h != [] && looked >= h[|h| - 1].at + LOCK_MS
  {
    NoStreak();
    assert h[k..] != [] ==> h[k..][|h[k..]| - 1] == h[|h| - 1];
    hide Streak;
  }

  lemma DatedMore(s: State, q: RequestId, at: int)
    requires Dated(s.failures, s.clock) && s.looked <= s.clock <= at && s.forgot <= |s.failures|
    requires forall i | 0 <= i < |s.failures| :: s.failures[i].forgot <= s.forgot
    ensures Dated(s.failures + [NewFailure(s, q, at)], at)
  {
    if SeenToExpire(Recent(s), s.looked) {
      ServedIsLate(s.failures, s.forgot, s.looked);
    }
    DatedSnoc(s.failures, s.clock, NewFailure(s, q, at));
    hide Dated, SeenToExpire;
  }

  lemma FailureCrowded(s: State, q: RequestId, at: int)
    requires Crowded(s) && Enabled(s, Fails(q, at))
    ensures Crowded(Apply(s, Fails(q, at)))
  {
    DatedMore(s, q, at);
    var t := Apply(s, Fails(q, at));
    var h, h' := s.failures, t.failures;
    var f := h'[|h|];
    assert h' == h + [f] && f.q == q && f.others == t.flight.Keys == s.flight.Keys - {q}
      && f.forgot == s.forgot == t.forgot;
    hide Crowd, AfterFailure, Extended, NewFailure, Dated;
    forall i: nat | s.forgot <= i && i + 4 < |h'| && at - h'[i].at < WINDOW_MS
      ensures Crowd(h', i, |h'|, t.flight.Keys) && (i + 5 < |h'| ==> Crowd(h', i, |h'|, {}))
    {
      if i + 4 < |h| {
        assert h'[i] == h[i];
        CrowdGrows(h, i, f, s.flight.Keys);
      } else {
        CrowdOfFive(h', i, t.flight.Keys);
      }
    }
    OneMoreCrowd(h, f);
    hide Apply, Enabled;
  }

  lemma OneMoreCrowd(h: seq<Failure>, f: Failure)
    requires EarlierCrowds(h)
    requires var n := |h| + 1;
             forall i: nat | i + 5 < n && f.forgot <= i && f.at - (h + [f])[i].at < WINDOW_MS ::
               Crowd(h + [f], i, n, {})
    ensures EarlierCrowds(h + [f])
  {
    hide Crowd;
    var h' := h + [f];
    forall i: nat, n: nat | i + 5 < n <= |h'| && h'[n - 1].forgot <= i && h'[n - 1].at - h'[i].at < WINDOW_MS
      ensures Crowd(h', i, n, {})
    {
      if n <= |h| {
        assert h'[n - 1] == h[n - 1] && h'[i] == h[i];
        CrowdStays(h, i, n, f, {});
      }
    }
  }

  lemma CrowdOfFive(h: seq<Failure>, i: nat, flight: set<RequestId>)
    requires i + 5 == |h| && h[i + 4].others == flight
    ensures Crowd(h, i, |h|, flight)
  {
  }

  lemma DatedLater(h: seq<Failure>, clock: int, later: int)
    requires Dated(h, clock) && clock <= later
    ensures Dated(h, later)
  {
  }

  lemma LockedWhenCrowded(s: State, i: nat, at: int)
    requires Dated(s.failures, s.clock) && Reflects(s) && s.clock <= at && s.forgot <= i
    requires i + 4 < |s.failures| && at - s.failures[i].at < WINDOW_MS
    ensures Check(s.rec, at).0.locked
  {
    StreakWithin(s.failures, i, s.clock);
    AgreeAt(s, at);
    hide Streak, Reflects, Check;
  }

  lemma EntryCrowded(s: State, q: RequestId, at: int)
    requires Crowded(s) && Reflects(s) && Enabled(s, Enters(q, at))
    ensures Crowded(Apply(s, Enters(q, at)))
  {
    hide Crowd, EarlierCrowds, Streak, Spent, Recent, Reflects, Dated;
    DatedLater(s.failures, s.clock, at);
    forall i: nat | s.forgot <= i && i + 4 < |s.failures| && at - s.failures[i].at < WINDOW_MS
      ensures Check(s.rec, at).0.locked
    {
      LockedWhenCrowded(s, i, at);
    }
  }

  lemma QuietCrowded(s: State, e: Event)
    requires Crowded(s) && Enabled(s, e) && !e.Enters? && !e.Fails?
    ensures Crowded(Apply(s, e))
  {
    DatedLater(s.failures, s.clock, e.at);
    forall i: nat | i + 4 < |s.failures| && Crowd(s.failures, i, |s.failures|, s.flight.Keys)
      ensures Crowd(s.failures, i, |s.failures|, s.flight.Keys)
        && Crowd(s.failures, i, |s.failures|, Apply(s, e).flight.Keys)
    {
    }
    hide Retained, Crowd, EarlierCrowds, Dated, Recent;
  }

  lemma StepCrowded(s: State, e: Event)
    requires Crowded(s) && Reflects(s) && Enabled(s, e)
    ensures Crowded(Apply(s, e))
  {
    if e.Enters? {
      EntryCrowded(s, e.q, e.at);
    } else if e.Fails? {
      FailureCrowded(s, e.q, e.at);
    } else {
      QuietCrowded(s, e);
    }
    hide *;
  }

  lemma {:induction false} RunCrowded(s: State, events: seq<Event>)
    requires Crowded(s) && Reflects(s) && CanRun(s, events)
    ensures Crowded(Run(s, events))
    decreases |events|
  {
    hide Crowded, Reflects, Enabled, Apply;
    if events != [] {
      StepReflects(s, events[0]);
      StepCrowded(s, events[0]);
      RunCrowded(Apply(s, events[0]), events[1..]);
    }
  }

  lemma {:induction false} DistinctAreFew(h: seq<Failure>, from: nat, upTo: nat, others: set<RequestId>)
    requires from <= upTo <= |h|
    requires forall j | from <= j < upTo :: h[j].q in others
    requires forall j, k | from <= j < k < upTo :: h[j].q != h[k].q
    ensures upTo - from <= |others|
    decreases upTo - from
  {
    if from < upTo {
      DistinctAreFew(h, from, upTo - 1, others - {h[upTo - 1].q});
    }
  }

  /**
   Guessing is bounded: however sign-ins overlap, the failures recorded in less than fifteen minutes,
   with no success and no eviction in between, are at most five and the sign-ins that were under way
   when the fifth was recorded.
   */
  lemma GuessesInAWindow(now: int, events: seq<Event>, i: nat, j: nat)
    requires CanRun(Start(now), events) && i <= j < |Run(Start(now), events).failures|
    requires var h := Run(Start(now), events).failures; h[j].at - h[i].at < WINDOW_MS && h[j].forgot <= i
    ensures var h := Run(Start(now), events).failures;
            j - i + 1 <= 5 + (if i + 4 < |h| then |h[i + 4].others| else 0)
  {
    StartIsSound(now);
    RunCrowded(Start(now), events);
    var h := Run(Start(now), events).failures;
    if j >= i + 5 {
      assert Crowd(h, i, j + 1, {});
      DistinctAreFew(h, i + 5, j + 1, h[i + 4].others);
    }
  }

  // ---- The bound is met ----

  /** `n` sign-ins are checked, and only then do they fail. */
  function Entering(n: nat, at: int): seq<Event> {
    seq(n, q requires 0 <= q < n => Enters(q, at))
  }

  function Failing(n: nat, at: int): seq<Event> {
    seq(n, q requires 0 <= q < n => Fails(q, at))
  }

  lemma {:induction false} RunParts(s: State, a: seq<Event>, b: seq<Event>)
    ensures Run(s, a + b) == Run(Run(s, a), b)
    ensures CanRun(s, a) && CanRun(Run(s, a), b) ==> CanRun(s, a + b)
    decreases |a|
  {
    if a == [] {
      assert a + b == b;
    } else {
      assert (a + b)[1..] == a[1..] + b;
      RunParts(Apply(s, a[0]), a[1..], b);
    }
  }


  /** After `n` of the sign-ins that were checked together have failed. */
  predicate Burst(s: State, n: nat, total: nat, at: int) {
    && s.clock == at && |s.failures| == n
    && (forall i | 0 <= i < n :: s.failures[i].at == at)
    && (forall q | q in s.flight :: q < total) && (forall q: nat | n <= q < total :: q in s.flight)
    && (n == 0 ==> s.rec == None)
    && (n > 0 ==> s.rec.Some? && s.rec.value.attempts == n && s.rec.value.lastAttempt == at)
  }

  lemma {:induction false} AllEnter(s: State, n: nat, m: nat, at: int)
    requires m <= n && s.rec == None && s.failures == [] && s.clock == at
    requires (forall q | q in s.flight :: q < m) && (forall q: nat | q < m :: q in s.flight)
    ensures CanRun(s, Entering(n, at)[m..]) && Burst(Run(s, Entering(n, at)[m..]), 0, n, at)
    decreases n - m
  {
    var events := Entering(n, at)[m..];
    if m < n {
      assert events[0] == Enters(m, at) && events[1..] == Entering(n, at)[m + 1..];
      AllEnter(Apply(s, events[0]), n, m + 1, at);
    }
  }

  lemma OneFails(s: State, n: nat, m: nat, at: int)
    requires m < n && Burst(s, m, n, at)
    ensures Enabled(s, Fails(m, at)) && Burst(Apply(s, Fails(m, at)), m + 1, n, at)
  {
    hide SeenToExpire, Recent, Extended;
  }

  lemma {:induction false} AllFail(s: State, n: nat, m: nat, k: nat, at: int)
    requires m <= k <= n && Burst(s, m, n, at)
    ensures CanRun(s, Failing(k, at)[m..]) && Burst(Run(s, Failing(k, at)[m..]), k, n, at)
    decreases k - m
  {
    var events := Failing(k, at)[m..];
    if m < k {
      OneFails(s, n, m, at);
      hide Apply, Enabled, Burst;
      assert events[0] == Fails(m, at) && events[1..] == Failing(k, at)[m + 1..];
      AllFail(Apply(s, events[0]), n, m + 1, k, at);
    }
  }

  /** `n` sign-ins are checked together, and `k` of them fail. */
  lemma SomeFail(n: nat, k: nat, at: int)
    requires k <= n
    ensures CanRun(Start(at), Entering(n, at) + Failing(k, at))
    ensures Burst(Run(Start(at), Entering(n, at) + Failing(k, at)), k, n, at)
  {
    assert Entering(n, at)[0..] == Entering(n, at) && Failing(k, at)[0..] == Failing(k, at);
    AllEnter(Start(at), n, 0, at);
    AllFail(Run(Start(at), Entering(n, at)), n, 0, k, at);
    RunParts(Start(at), Entering(n, at), Failing(k, at));
    hide Apply, Run, CanRun, Burst;
  }

  /** Any number of sign-ins checked at one moment may all fail at that moment, and each counts. */
  lemma BoundIsMet(n: nat, at: int)
    requires n > 0
    ensures var events := Entering(n, at) + Failing(n, at);
            && CanRun(Start(at), events) && |Run(Start(at), events).failures| == n
            && (forall i | 0 <= i < n :: Run(Start(at), events).failures[i].at == at)
            && Run(Start(at), events).rec.Some? && Run(Start(at), events).rec.value.attempts == n
  {
    SomeFail(n, n, at);
    hide Apply, Run, CanRun;
  }

  /** Six sign-ins are checked together and five fail: when the sixth succeeds, a seventh is let in at once. */
  lemma SuccessLetsIn(at: int)
    ensures var events := Entering(6, at) + Failing(5, at);
            var s := Run(Start(at), events);
            && CanRun(Start(at), events) && Locks(s, at) && 6 !in s.flight && Enabled(s, Succeeds(5, at))
            && 6 in Apply(Apply(s, Succeeds(5, at)), Enters(6, at)).flight
  {
    var events := Entering(6, at) + Failing(5, at);
    SomeFail(6, 5, at);
    StartIsSound(at);
    RunIsSound(Start(at), events);
    var s := Run(Start(at), events);
    CountIsStreak(s);
    LastFailure(s);
    assert 5 in s.flight;
    hide Run, CanRun, Entering, Failing, Streak, Recent, Followed, Mirrors;
  }

  lemma LastFailure(s: State)
    requires Reflects(s) && Recent(s) != []
    ensures Recent(s)[|Recent(s)| - 1] == s.failures[|s.failures| - 1]
  {
  }

  /** `n` times over, a sign-in comes and fails, and then the record is evicted. */
  function Grinding(n: nat, at: int): seq<Event> {
    if n == 0 then [] else Grinding(n - 1, at) + [Enters(n, at)] + [Fails(n, at)] + [Evicted(at)]
  }

  /** Evictions forgive: any number of failures, one after the other at one moment, never lock the account. */
  lemma {:induction false} EvictionsForgive(n: nat, at: int)
    ensures CanRun(Start(at), Grinding(n, at))
    ensures var s := Run(Start(at), Grinding(n, at));
            && s.rec == None && s.flight == map[] && s.clock == at && s.forgot == |s.failures| == n
            && forall i | 0 <= i < n :: s.failures[i].at == at && s.failures[i].others == {}
  {
    if n > 0 {
      EvictionsForgive(n - 1, at);
      var s := Run(Start(at), Grinding(n - 1, at));
      ForgivenOnce(s, n, at);
      hide Apply, Enabled;
      var events := Grinding(n - 1, at);
      RunOneMore(Start(at), events, Enters(n, at));
      RunOneMore(Start(at), events + [Enters(n, at)], Fails(n, at));
      RunOneMore(Start(at), events + [Enters(n, at)] + [Fails(n, at)], Evicted(at));
    }
  }

  lemma ForgivenOnce(s: State, q: RequestId, at: int)
    requires s.rec == None && s.flight == map[] && s.clock == at
    ensures var s1 := Apply(s, Enters(q, at));
            var s2 := Apply(s1, Fails(q, at));
            var t := Apply(s2, Evicted(at));
            && Enabled(s, Enters(q, at)) && Enabled(s1, Fails(q, at)) && Enabled(s2, Evicted(at))
            && t.rec == None && t.flight == map[] && t.clock == at && t.forgot == |t.failures| == |s.failures| + 1
            && t.failures[..|s.failures|] == s.failures
            && t.failures[|s.failures|].at == at && t.failures[|s.failures|].others == {}
  {
    hide AfterFailure, SeenToExpire, Recent, Extended;
    assert map[q := s.steps] - {q} == map[];
  }

  lemma RunOneMore(s: State, events: seq<Event>, e: Event)
    requires CanRun(s, events) && Enabled(Run(s, events), e)
    ensures CanRun(s, events + [e]) && Run(s, events + [e]) == Apply(Run(s, events), e)
  {
    assert [e][1..] == [];
    assert CanRun(Run(s, events), [e]);
    RunParts(s, events, [e]);
  }

  /**
   The check must come first: recording alone restarts the count after a served
   lock at every moment but the very instant the lock ends, when it extends it.
   */
  lemma CheckFirstMattersOnlyAtTheEnd(r: LoginAttempt, now: int)
    requires WellFormed(r) && r.lockedUntil.Some? && r.lockedUntil.value <= now
    ensures AfterFailure(Check(Some(r), now).1, now) == LoginAttempt(1, None, now)
    ensures AfterFailure(Some(r), now) == LoginAttempt(1, None, now) <==> now != r.lockedUntil.value
  {
  }
}
