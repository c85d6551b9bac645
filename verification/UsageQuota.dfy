/** The free-tier usage quota (`backend/src/routes.rs`, `backend/src/db.rs`). Times are seconds. */
module UsageQuota {
  import opened Outcomes

  const WINDOW_SECS: int := 30 * 24 * 60 * 60

  // ---- The stored row ----

  class UserRow {
    var usageCount: Option<int>
    var usageResetAt: Option<int>

    /** `COALESCE(usage_count, 0)`. */
    function Count(): int
      reads this
    {
      if usageCount.Some? then usageCount.value else 0
    }

    /** `usage.reset_at`: a stored 0 reads back as nothing. */
    function ResetAt(): Option<int>
      reads this
    {
      if usageResetAt == Some(0) then None else usageResetAt
    }

    ghost function Abs(): Row
      reads this
    {
      Row(Count(), ResetAt())
    }

    /** `consume_usage`: one statement that checks and increments. */
    method ConsumeUsage(limit: int, fate: Fate) returns (r: Result<Option<int>, ()>)
      modifies this
      ensures Abs() == if fate != RolledBack && old(Count()) < limit then Row(old(Count()) + 1, old(ResetAt()))
                       else old(Abs())
      ensures r == if fate != Committed then Err(())
                   else if old(Count()) < limit then Ok(Some(Abs().count))
                   else Ok(None)
    {
      if fate == RolledBack {
        return Err(());
      }
      r := Ok(None);
      if Count() < limit {
        usageCount := Some(Count() + 1);
        r := Ok(usageCount);
      }
      if fate == Unseen {
        r := Err(());
      }
    }

    /** `reset_usage_window`. */
    method ResetUsageWindow(resetAt: int, consume: bool, fate: Fate) returns (r: Result<int, ()>)
      modifies this
      ensures Abs() == if fate != RolledBack then Opened(resetAt, consume) else old(Abs())
      ensures r == if fate != Committed then Err(()) else Ok(Opened(resetAt, consume).count)
    {
      if fate == RolledBack {
        return Err(());
      }
      var count := if consume then 1 else 0;
      usageCount, usageResetAt := Some(count), Some(resetAt);
      r := if fate == Unseen then Err(()) else Ok(count);
    }

    /** The part of `usage` that touches the row, on a reset time read some time before. */
    method Usage(readResetAt: Option<int>, limit: int, now: nat, track: bool, fate: Fate) returns (a: Answer)
      modifies this
      ensures (Abs(), a) == Act(old(Abs()), readResetAt, limit, now, track, fate)
      ensures track && limit < 1 ==> a == LimitReached && Abs() == old(Abs())
      ensures !(track && limit < 1) && (readResetAt.None? || now > readResetAt.value) ==>
        && a == (if fate == Committed then Used(if track then 1 else 0) else DbFailed)
        && (fate == RolledBack ==> Abs() == old(Abs()))
        && (fate != RolledBack ==> Abs() == Row(if track then 1 else 0, Some(now + 2_592_000)))
      ensures readResetAt.Some? && now <= readResetAt.value && !track ==> a == Unchanged && Abs() == old(Abs())
      ensures readResetAt.Some? && now <= readResetAt.value && track && limit >= 1 ==>
        && (a.Used? <==> fate == Committed && old(Count()) < limit)
        && (a.LimitReached? <==> fate == Committed && old(Count()) >= limit)
        && Abs() == Row(old(Count()) + (if fate != RolledBack && old(Count()) < limit then 1 else 0), old(ResetAt()))
        && (a.Used? ==> a.count == Count())
    {
      if track && limit < 1 {
        return LimitReached;
      }
      if readResetAt.None? || now > readResetAt.value {
        var r := ResetUsageWindow(now + WINDOW_SECS, track, fate);
        if r.Err? {
          return DbFailed;
        }
        return Used(r.value);
      } else if track {
        var r := ConsumeUsage(limit, fate);
        if r.Err? {
          return DbFailed;
        }
        if r.value.None? {
          return LimitReached;
        }
        return Used(r.value.value);
      }
      return Unchanged;
    }
  }

  /** How a transaction ends: its answer may be lost after it has committed. */
  datatype Fate = Committed | RolledBack | Unseen

  datatype Row = Row(count: int, resetAt: Option<int>)

  function Opened(resetAt: int, consume: bool): Row {
    Row(if consume then 1 else 0, if resetAt == 0 then None else Some(resetAt))
  }

  /** The answer: what the count is now, a refusal, a driver error, or the count as read. */
  datatype Answer = Used(count: int) | LimitReached | DbFailed | Unchanged

  datatype Path = Refuse | Reset | Consume | Look

  /** Which branch `usage` takes: decided on what was read, not on what is stored. */
  function Chosen(readResetAt: Option<int>, limit: int, now: nat, track: bool): Path {
    if track && limit < 1 then Refuse
    else if readResetAt.None? || now > readResetAt.value then Reset
    else if track then Consume
    else Look
  }

  /** The stored window is not over. */
  predicate Open(row: Row, now: int) {
    row.resetAt.Some? && now <= row.resetAt.value
  }

  function Act(row: Row, readResetAt: Option<int>, limit: int, now: nat, track: bool, fate: Fate): (Row, Answer) {
    match Chosen(readResetAt, limit, now, track)
    case Refuse => (row, LimitReached)
    case Look => (row, Unchanged)
    case Reset =>
      var anew := Opened(now + WINDOW_SECS, track);
      (if fate == RolledBack then row else anew, if fate == Committed then Used(anew.count) else DbFailed)
    case Consume =>
      var next := if row.count < limit then Row(row.count + 1, row.resetAt) else row;
      (if fate == RolledBack then row else next,
       if fate != Committed then DbFailed else if row.count < limit then Used(next.count) else LimitReached)
  }

  // ---- Requests side by side ----

  type RequestId = nat

  /** What a request read, and how many resets had been committed by then. */
  datatype Seen = Seen(resetAt: Option<int>, resets: nat)

  /** The row, what each request has read, and what happened. */
  datatype State = State(
    row: Row,
    read: map<RequestId, Seen>,
    base: int,           // the count before the latest committed reset, or at first
    granted: nat,        // since the latest committed reset
    total: nat,          // in all
    openings: seq<int>,  // when each committed reset opened its window
    held: int,           // grants charged to the window that is open now
    lost: int,           // those of them that a reset has struck from the row
    stale: nat)          // committed resets of a window that was not over

  /** A request reads the user; some time later it acts on what it read. */
  datatype Event =
    | Read(q: RequestId)
    | Acts(q: RequestId, now: nat, track: bool, fate: Fate)

  predicate Enabled(s: State, e: Event) {
    e.Acts? ==> e.q in s.read
  }

  function Apply(s: State, limit: int, e: Event): State
    requires Enabled(s, e)
  {
    match e
    case Read(q) => s.(read := s.read[q := Seen(s.row.resetAt, |s.openings|)])
    case Acts(q, now, track, fate) =>
      var t := s.(row := Act(s.row, s.read[q].resetAt, limit, now, track, fate).0, read := s.read - {q});
      if fate == RolledBack then t
      else
        match Chosen(s.read[q].resetAt, limit, now, track)
        case Reset =>
          var g := if track then 1 else 0;
          var u := t.(base := 0, granted := g, total := s.total + g, openings := s.openings + [now]);
          if Open(s.row, now) then u.(held := s.held + g, lost := s.lost + s.row.count, stale := s.stale + 1)
          else u.(held := g, lost := 0)
        case Consume =>
          if s.row.count < limit then t.(granted := s.granted + 1, total := s.total + 1, held := s.held + 1) else t
        case _ => t
  }

  function Start(row: Row): State {
    State(row, map[], row.count, 0, 0, [], row.count, 0, 0)
  }

  /** The count is what was granted since the last committed reset, on top of what was stored before any. */
  predicate Accounted(s: State, limit: int) {
    && s.row.count == s.base + s.granted && s.base >= 0
    && s.row.count <= limit
    && s.total <= limit * |s.openings| + s.granted
    && s.held == s.row.count + s.lost
  }

  lemma StepAccounted(s: State, limit: int, e: Event)
    requires limit >= 1 && Accounted(s, limit) && Enabled(s, e)
    ensures Accounted(Apply(s, limit, e), limit)
  {
    var t := Apply(s, limit, e);
    if |t.openings| == |s.openings| + 1 {
      assert limit * |t.openings| == limit * |s.openings| + limit;
      assert s.granted <= limit;
    }
  }

  ghost predicate CanRun(s: State, limit: int, events: seq<Event>)
    decreases |events|
  {
    events != [] ==> Enabled(s, events[0]) && CanRun(Apply(s, limit, events[0]), limit, events[1..])
  }

  function Run(s: State, limit: int, events: seq<Event>): State
    requires CanRun(s, limit, events)
    decreases |events|
  {
    if events == [] then s else Run(Apply(s, limit, events[0]), limit, events[1..])
  }

  lemma {:induction false} RunAccounted(s: State, limit: int, events: seq<Event>)
    requires limit >= 1 && Accounted(s, limit) && CanRun(s, limit, events)
    ensures Accounted(Run(s, limit, events), limit)
    decreases |events|
  {
    hide Accounted, Apply;
    if events != [] {
      StepAccounted(s, limit, events[0]);
      RunAccounted(Apply(s, limit, events[0]), limit, events[1..]);
    }
  }

  /**
   However requests interleave and however old their reads, the stored count is the number of
   grants since the last committed reset, it never passes the limit, and in all there are at most
   `limit` grants for each reset and the window before it.
   */
  lemma QuotaHolds(row: Row, limit: int, events: seq<Event>)
    requires limit >= 1 && 0 <= row.count <= limit && CanRun(Start(row), limit, events)
    ensures var s := Run(Start(row), limit, events);
            && s.row.count <= limit && s.granted <= limit
            && s.row.count == s.granted + (if s.openings == [] then row.count else 0)
            && s.total <= limit * (|s.openings| + 1)
  {
    RunAccounted(Start(row), limit, events);
    RunBase(Start(row), limit, events);
    var s := Run(Start(row), limit, events);
    assert limit * (|s.openings| + 1) == limit * |s.openings| + limit;
  }

  lemma {:induction false} RunBase(s: State, limit: int, events: seq<Event>)
    requires CanRun(s, limit, events)
    ensures var t := Run(s, limit, events);
            |t.openings| >= |s.openings| && t.base == if |t.openings| == |s.openings| then s.base else 0
    decreases |events|
  {
    if events != [] {
      RunBase(Apply(s, limit, events[0]), limit, events[1..]);
    }
  }

  /** A limit below one grants nothing, whatever is stored. */
  lemma {:induction false} NoGrantBelowOne(s: State, limit: int, events: seq<Event>)
    requires limit < 1 && CanRun(s, limit, events)
    ensures Run(s, limit, events).total == s.total
    decreases |events|
  {
    if events != [] {
      NoGrantBelowOne(Apply(s, limit, events[0]), limit, events[1..]);
    }
  }

  /** The answer tells the caller its place among the grants of the window. */
  lemma AnswerIsItsPlace(s: State, limit: int, q: RequestId, now: nat, fate: Fate)
    requires limit >= 1 && Accounted(s, limit) && q in s.read
    ensures var a := Act(s.row, s.read[q].resetAt, limit, now, true, fate).1;
            var t := Apply(s, limit, Acts(q, now, true, fate));
            && (a.Used? ==> a.count == t.base + t.granted && t.total == s.total + 1)
            && (a.LimitReached? ==> s.row.count == limit && t.total == s.total)
  {
  }

  // ---- Resets on stale reads ----

  /** A read as old as the latest reset shows the stored window, which ends thirty days after that reset opened it. */
  predicate Known(s: State) {
    && (forall q | q in s.read :: s.read[q].resets <= |s.openings|)
    && (forall q | q in s.read && s.read[q].resets == |s.openings| :: s.read[q].resetAt == s.row.resetAt)
    && (s.openings != [] ==> s.row.resetAt == Some(s.openings[|s.openings| - 1] + WINDOW_SECS))
  }

  lemma StepKnown(s: State, limit: int, e: Event)
    requires Known(s) && Enabled(s, e)
    ensures Known(Apply(s, limit, e))
  {
  }

  /**
   A reset strikes out a window that is not over if and only if it acts on a read from before the
   latest reset, and within thirty days of that reset.
   */
  lemma StaleIff(s: State, limit: int, q: RequestId, now: nat, track: bool)
    requires Known(s) && q in s.read && Chosen(s.read[q].resetAt, limit, now, track) == Reset
    ensures Open(s.row, now) <==>
      s.read[q].resets < |s.openings| && now <= s.openings[|s.openings| - 1] + WINDOW_SECS
    ensures Open(s.row, now) ==> s.read[q].resetAt != s.row.resetAt
  {
  }

  /** Windows that do not overlap. */
  predicate Apart(openings: seq<int>) {
    forall i | 0 < i < |openings| :: openings[i] > openings[i - 1] + WINDOW_SECS
  }

  lemma ApartMore(openings: seq<int>, now: int)
    ensures Apart(openings + [now]) <==>
      Apart(openings) && (openings != [] ==> now > openings[|openings| - 1] + WINDOW_SECS)
  {
    var more := openings + [now];
    if Apart(more) {
      forall i | 0 < i < |openings|
        ensures openings[i] > openings[i - 1] + WINDOW_SECS
      {
        assert more[i] == openings[i] && more[i - 1] == openings[i - 1];
      }
      assert more[|openings|] == now && (openings != [] ==> more[|openings| - 1] == openings[|openings| - 1]);
    }
  }

  /** So far no reset was stale if and only if no two windows overlapped; then nothing was struck out. */
  predicate Tidy(s: State) {
    && (s.stale == 0 <==> Apart(s.openings))
    && (s.stale == 0 ==> s.lost == 0)
  }

  lemma StepTidy(s: State, limit: int, e: Event)
    requires Known(s) && Tidy(s) && Enabled(s, e)
    ensures Tidy(Apply(s, limit, e))
  {
    if e.Acts? {
      ApartMore(s.openings, e.now);
      if Chosen(s.read[e.q].resetAt, limit, e.now, e.track) == Reset {
        StaleIff(s, limit, e.q, e.now, e.track);
      }
    }
    hide Apart;
  }

  lemma {:induction false} RunTidy(s: State, limit: int, events: seq<Event>)
    requires Known(s) && Tidy(s) && CanRun(s, limit, events)
    ensures Known(Run(s, limit, events)) && Tidy(Run(s, limit, events))
    decreases |events|
  {
    hide Known, Tidy, Apply;
    if events != [] {
      StepKnown(s, limit, events[0]);
      StepTidy(s, limit, events[0]);
      RunTidy(Apply(s, limit, events[0]), limit, events[1..]);
    }
  }

  /** Each committed reset found the row as it was read, or its window over. */
  ghost predicate Fresh(s: State, limit: int, events: seq<Event>)
    requires CanRun(s, limit, events)
    decreases |events|
  {
    events != [] ==>
      && Fresh(Apply(s, limit, events[0]), limit, events[1..])
      && match events[0]
         case Read(_) => true
         case Acts(q, now, track, fate) =>
           Chosen(s.read[q].resetAt, limit, now, track) == Reset && fate != RolledBack ==>
             s.row.resetAt == s.read[q].resetAt || !Open(s.row, now)
  }

  lemma {:induction false} FreshIff(s: State, limit: int, events: seq<Event>)
    requires Known(s) && CanRun(s, limit, events)
    ensures Run(s, limit, events).stale >= s.stale
    ensures Run(s, limit, events).stale == s.stale <==> Fresh(s, limit, events)
    decreases |events|
  {
    if events != [] {
      var e := events[0];
      StepKnown(s, limit, e);
      FreshIff(Apply(s, limit, e), limit, events[1..]);
      if e.Acts? && Chosen(s.read[e.q].resetAt, limit, e.now, e.track) == Reset {
        StaleIff(s, limit, e.q, e.now, e.track);
      }
    }
    hide Known, Open;
  }

  /**
   In every run, what was granted in the open window is the stored count and what stale resets have
   struck from it. Windows never overlap exactly if each reset found the row as it was read or its
   window over, and then no window ever holds more than `limit` grants.
   */
  lemma GrantsInAWindow(row: Row, limit: int, events: seq<Event>)
    requires limit >= 1 && 0 <= row.count <= limit && CanRun(Start(row), limit, events)
    ensures var s := Run(Start(row), limit, events);
            && s.held == s.row.count + s.lost && s.held <= limit + s.lost
            && (Apart(s.openings) <==> Fresh(Start(row), limit, events))
            && (Fresh(Start(row), limit, events) ==> s.lost == 0 && s.held <= limit)
  {
    RunAccounted(Start(row), limit, events);
    RunTidy(Start(row), limit, events);
    FreshIff(Start(row), limit, events);
    hide Fresh, Apart;
  }

  // ---- How much stale resets forget ----

  function Readers(k: nat): seq<Event> {
    seq(k, q requires 0 <= q < k => Read(q))
  }

  function Resetters(k: nat, now: nat): seq<Event> {
    seq(k, q requires 0 <= q < k => Acts(q, now, true, Committed))
  }

  lemma {:induction false} RunParts(s: State, limit: int, a: seq<Event>, b: seq<Event>)
    requires CanRun(s, limit, a) && CanRun(Run(s, limit, a), limit, b)
    ensures CanRun(s, limit, a + b) && Run(s, limit, a + b) == Run(Run(s, limit, a), limit, b)
    decreases |a|
  {
    if a == [] {
      assert a + b == b;
    } else {
      assert (a + b)[1..] == a[1..] + b;
      RunParts(Apply(s, limit, a[0]), limit, a[1..], b);
    }
  }

  lemma {:induction false} AllRead(s: State, limit: int, k: nat, m: nat)
    requires m <= k && s.openings == [] && forall q: nat | q < m :: q in s.read && s.read[q].resetAt == s.row.resetAt
    ensures CanRun(s, limit, Readers(k)[m..])
    ensures var t := Run(s, limit, Readers(k)[m..]);
            && t == s.(read := t.read)
            && forall q: nat | q < k :: q in t.read && t.read[q].resetAt == s.row.resetAt
    decreases k - m
  {
    var events := Readers(k)[m..];
    if m < k {
      assert events[0] == Read(m) && events[1..] == Readers(k)[m + 1..];
      AllRead(Apply(s, limit, events[0]), limit, k, m + 1);
    }
  }

  lemma {:induction false} AllReset(s: State, limit: int, k: nat, m: nat, now: nat, seen: Option<int>)
    requires limit >= 1 && 0 < m <= k && (seen.None? || now > seen.value)
    requires forall q: nat | m <= q < k :: q in s.read && s.read[q].resetAt == seen
    requires s.row == Row(1, Some(now + WINDOW_SECS)) && s.total == m && s.held == m
    ensures CanRun(s, limit, Resetters(k, now)[m..])
    ensures var t := Run(s, limit, Resetters(k, now)[m..]);
            t.row.count == 1 && t.total == k && t.held == k
    decreases k - m
  {
    var events := Resetters(k, now)[m..];
    if m < k {
      assert events[0] == Acts(m, now, true, Committed) && events[1..] == Resetters(k, now)[m + 1..];
      AllReset(Apply(s, limit, events[0]), limit, k, m + 1, now, seen);
    }
  }

  /** Any number of requests that read the same expired window all reset it: that many grants, and a count of one. */
  lemma StaleResetsForget(row: Row, limit: int, now: nat, k: nat)
    requires limit >= 1 && k >= 1 && (row.resetAt.None? || now > row.resetAt.value)
    ensures var events := Readers(k) + Resetters(k, now);
            && CanRun(Start(row), limit, events)
            && var s := Run(Start(row), limit, events);
            s.row.count == 1 && s.total == k && s.held == k
  {
    assert Readers(k)[0..] == Readers(k);
    AllRead(Start(row), limit, k, 0);
    var s := Run(Start(row), limit, Readers(k));
    var events := Resetters(k, now);
    assert events[0] == Acts(0, now, true, Committed);
    AllReset(Apply(s, limit, events[0]), limit, k, 1, now, row.resetAt);
    RunParts(Start(row), limit, Readers(k), events);
  }
}
