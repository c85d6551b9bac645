/** The per-address sliding window (`backend/src/stores.rs`). Times are epoch milliseconds. */
module RateLimit {
  import opened Eviction

  const WINDOW_MS: int := 900_000
  const LIMIT: nat := 20
  const MAX_ENTRIES: nat := 50_000

  datatype RateLimitStatus = RateLimitStatus(limited: bool, retryAfterSecs: int)

  // ---- One address ----

  /** `times.retain(|&t| t > now - WINDOW)`. */
  function InWindow(times: seq<int>, now: int): (kept: seq<int>)
    ensures |kept| <= |times|
  {
    if times == [] then []
    else
      var rest := InWindow(times[..|times| - 1], now);
      if times[|times| - 1] > now - WINDOW_MS then rest + [times[|times| - 1]] else rest
  }

  function RetryAfter(oldest: int, now: int): int {
    var secs := (oldest + WINDOW_MS - now + 999) / 1000;
    if secs < 1 then 1 else secs
  }

  /** `check_and_record` on one address: the answer and the times left behind. */
  function Request(times: seq<int>, now: int): (RateLimitStatus, seq<int>) {
    var kept := InWindow(times, now);
    if |kept| >= LIMIT then (RateLimitStatus(true, RetryAfter(kept[0], now)), kept)
    else (RateLimitStatus(false, 0), kept + [now])
  }

  // ---- The store ----

  function Oldest(times: seq<int>): int {
    if times == [] then 0 else times[0]
  }

  function TimesOf(m: map<string, seq<int>>, ip: string): seq<int> {
    if ip in m then m[ip] else []
  }

  lemma OldestGo(m: map<string, seq<int>>, maxEntries: nat, kept: map<string, seq<int>>)
    requires IsEviction(m, maxEntries, Oldest, kept) && forall ip | ip in m :: m[ip] != []
    ensures forall ip | ip in kept :: ip in m && kept[ip] == m[ip] != []
    ensures forall r, k | r in m && r !in kept && k in kept :: m[r][0] <= m[k][0]
  {
    forall r, k | r in m && r !in kept && k in kept
      ensures m[r][0] <= m[k][0]
    {
      assert Oldest(m[r]) <= Oldest(m[k]);
    }
  }

  class RateLimitStore {
    var inner: map<string, seq<int>>

    /** The map stays within its cap, and keeps no address without times. */
    predicate Valid()
      reads this
    {
      |inner| <= 50_000 && forall ip | ip in inner :: inner[ip] != []
    }

    constructor ()
      ensures Valid() && inner == map[]
    {
      inner := map[];
    }

    /** `check_and_record`. */
    method CheckAndRecord(ip: string, now: int) returns (status: RateLimitStatus)
      requires Valid()
      modifies this
      ensures Valid()
      ensures ip in inner
      ensures (status, inner[ip]) == Request(TimesOf(old(inner), ip), now)
      ensures ip in old(inner) || |old(inner)| < MAX_ENTRIES ==> inner - {ip} == old(inner) - {ip}
      ensures ip !in old(inner) && |old(inner)| >= MAX_ENTRIES ==>
        IsEviction(old(inner), MAX_ENTRIES - 1, Oldest, inner - {ip})
      ensures forall gone, kept | gone in old(inner) && gone !in inner && kept in inner && kept != ip ::
                kept in old(inner) && old(inner)[gone][0] <= old(inner)[kept][0]
    {
      hide InWindow, RetryAfter;
      if ip !in inner && |inner| >= MAX_ENTRIES {
        inner := EvictOldestEntries(inner, MAX_ENTRIES - 1, Oldest);
        OldestGo(old(inner), MAX_ENTRIES - 1, inner);
      }
      var times := TimesOf(inner, ip);
      times := InWindow(times, now);
      OneMoreEntry(inner, ip, times);
      if |times| >= LIMIT {
        inner := inner[ip := times];
        return RateLimitStatus(true, RetryAfter(times[0], now));
      }
      OneMoreEntry(inner, ip, times + [now]);
      inner := inner[ip := times + [now]];
      return RateLimitStatus(false, 0);
    }

    /** `cleanup`. */
    method Cleanup(now: int) returns (cleaned: nat)
      requires Valid()
      modifies this
      ensures Valid()
      ensures inner == map ip | ip in old(inner) && InWindow(old(inner)[ip], now) != [] :: InWindow(old(inner)[ip], now)
      ensures forall ip :: TimesOf(inner, ip) == InWindow(TimesOf(old(inner), ip), now)
      ensures cleaned == |old(inner)| - |inner|
    {
      var kept := map ip | ip in inner && InWindow(inner[ip], now) != [] :: InWindow(inner[ip], now);
      assert kept.Keys <= inner.Keys;
      FewerKeys(kept.Keys, inner.Keys);
      cleaned := |inner| - |kept|;
      inner := kept;
    }
  }

  lemma FewerKeys<T>(a: set<T>, b: set<T>)
    requires a <= b
    ensures |a| <= |b|
  {
    assert b == a + (b - a);
  }

  // ---- One address, over its whole history ----

  /** An admission: when, and how many there had been when the entry was last evicted. */
  datatype Admission = Admission(at: int, forgot: nat)

  /** `times` is what the store keeps; `admitted` is every admission there ever was. */
  datatype State = State(times: seq<int>, admitted: seq<Admission>, forgot: nat, clock: int)

  datatype Event = Arrives(at: int) | Sweeps(at: int) | Evicted(at: int)

  predicate Enabled(s: State, e: Event) {
    s.clock <= e.at
  }

  function Apply(s: State, e: Event): State {
    var t := s.(clock := e.at);
    match e
    case Arrives(at) =>
      var (status, times) := Request(s.times, at);
      if status.limited then t.(times := times)
      else t.(times := times, admitted := s.admitted + [Admission(at, s.forgot)])
    case Sweeps(at) => t.(times := InWindow(s.times, at))
    case Evicted(_) => t.(times := [], forgot := |s.admitted|)
  }

  function Start(now: int): State {
    State([], [], 0, now)
  }

  ghost predicate CanRun(s: State, events: seq<Event>)
    decreases |events|
  {
    events != [] ==> Enabled(s, events[0]) && CanRun(Apply(s, events[0]), events[1..])
  }

  function Run(s: State, events: seq<Event>): State
    decreases |events|
  {
    if events == [] then s else Run(Apply(s, events[0]), events[1..])
  }

  function Times(admitted: seq<Admission>): (h: seq<int>)
    ensures |h| == |admitted|
  {
    seq(|admitted|, i requires 0 <= i < |admitted| => admitted[i].at)
  }

  /** The admissions since the latest eviction, or all. */
  function Recent(s: State): seq<int> {
    if s.forgot <= |s.admitted| then Times(s.admitted)[s.forgot..] else []
  }

  // ---- Windows ----

  /** Dropping what is out of one window loses nothing for a later window. */
  lemma {:induction false} WindowOfWindow(h: seq<int>, t: int, now: int)
    requires t <= now
    ensures InWindow(InWindow(h, t), now) == InWindow(h, now)
  {
    if h != [] {
      var front, last := h[..|h| - 1], h[|h| - 1];
      WindowOfWindow(front, t, now);
      if last > t - WINDOW_MS {
        var s := InWindow(front, t) + [last];
        assert s[..|s| - 1] == InWindow(front, t);
      }
    }
  }

  lemma WindowAppend(h: seq<int>, x: int, now: int)
    ensures InWindow(h + [x], now) == if x > now - WINDOW_MS then InWindow(h, now) + [x] else InWindow(h, now)
  {
    assert (h + [x])[..|h|] == h;
  }

  predicate Sorted(h: seq<int>) {
    forall i, j | 0 <= i < j < |h| :: h[i] <= h[j]
  }

  /** In a sorted history the window is a suffix. */
  lemma {:induction false} WindowIsSuffix(h: seq<int>, now: int, i: nat)
    requires Sorted(h) && i < |h| && h[i] > now - WINDOW_MS
    ensures |InWindow(h, now)| >= |h| - i
  {
    var front := h[..|h| - 1];
    if i < |front| {
      WindowIsSuffix(front, now, i);
    }
  }

  lemma {:induction false} WindowBelow(h: seq<int>, now: int, i: nat)
    requires Sorted(h) && i < |h| && h[i] <= now - WINDOW_MS
    ensures |InWindow(h, now)| <= |h| - 1 - i
  {
    var n := |h| - 1;
    if i < n {
      WindowBelow(h[..n], now, i);
    } else {
      WindowIsEmpty(h, now);
    }
  }

  lemma {:induction false} WindowIsEmpty(h: seq<int>, now: int)
    requires forall i | 0 <= i < |h| :: h[i] <= now - WINDOW_MS
    ensures InWindow(h, now) == []
  {
    if h != [] {
      WindowIsEmpty(h[..|h| - 1], now);
    }
  }

  /** Of a sorted history cut short, the window holds as many as before, or all that is left. */
  lemma {:induction false} WindowOfSuffix(h: seq<int>, k: nat, now: int)
    requires Sorted(h) && k <= |h|
    ensures |InWindow(h[k..], now)| == if |InWindow(h, now)| <= |h| - k then |InWindow(h, now)| else |h| - k
    decreases |h|
  {
    if k < |h| {
      var n := |h| - 1;
      assert h[k..][..n - k] == h[..n][k..];
      if h[n] > now - WINDOW_MS {
        WindowOfSuffix(h[..n], k, now);
      } else {
        WindowIsEmpty(h, now);
        WindowIsEmpty(h[k..], now);
      }
    }
  }

  lemma {:induction false} DropsFirst(w: seq<int>, later: int)
    requires |w| > 0 && w[0] <= later - WINDOW_MS
    ensures |InWindow(w, later)| <= |w| - 1
  {
    if |w| > 1 {
      DropsFirst(w[..|w| - 1], later);
    } else {
      assert w[..0] == [];
    }
  }

  /** Once its oldest time has aged out, a window of at most the limit has room. */
  lemma RoomAfterOldest(w: seq<int>, later: int)
    requires 0 < |w| <= LIMIT && w[0] <= later - WINDOW_MS
    ensures |InWindow(w, later)| < LIMIT
  {
    DropsFirst(w, later);
  }

  // ---- Store and history ----

  /** The times the store keeps are those since the eviction that can still matter. */
  ghost predicate Mirrors(times: seq<int>, h: seq<int>, now: int) {
    forall later {:trigger InWindow(times, later)} | now <= later :: InWindow(times, later) == InWindow(h, later)
  }

  lemma SweepMirrors(times: seq<int>, h: seq<int>, now: int, at: int)
    requires Mirrors(times, h, now) && now <= at
    ensures Mirrors(times, h, at) && Mirrors(InWindow(times, at), h, at)
  {
    var kept := InWindow(times, at);
    forall later {:trigger InWindow(kept, later)} | at <= later
      ensures InWindow(kept, later) == InWindow(h, later)
    {
      WindowOfWindow(times, at, later);
      assert InWindow(times, later) == InWindow(h, later);
    }
  }

  lemma OneMoreMirrors(times: seq<int>, h: seq<int>, at: int)
    requires Mirrors(times, h, at)
    ensures Mirrors(times + [at], h + [at], at)
  {
    var more := times + [at];
    forall later {:trigger InWindow(more, later)} | at <= later
      ensures InWindow(more, later) == InWindow(h + [at], later)
    {
      WindowAppend(times, at, later);
      WindowAppend(h, at, later);
      assert InWindow(times, later) == InWindow(h, later);
    }
  }

  /** Admissions come in order, and each was let in while fewer than the limit were remembered in its window. */
  predicate Admissible(admitted: seq<Admission>, clock: int) {
    && Sorted(Times(admitted))
    && forall i | 0 <= i < |admitted| ::
         && admitted[i].at <= clock && admitted[i].forgot <= i
         && |InWindow(Times(admitted[..i])[admitted[i].forgot..], admitted[i].at)| < LIMIT
  }

  ghost predicate Sound(s: State) {
    && s.forgot <= |s.admitted| && Mirrors(s.times, Recent(s), s.clock) && Admissible(s.admitted, s.clock)
    && forall i | 0 <= i < |s.admitted| :: s.admitted[i].forgot <= s.forgot
  }

  lemma StartIsSound(now: int)
    ensures Sound(Start(now))
  {
  }

  lemma TimesOfMore(admitted: seq<Admission>, a: Admission, k: nat)
    requires k <= |admitted|
    ensures Times(admitted + [a]) == Times(admitted) + [a.at]
    ensures Times(admitted + [a])[k..] == Times(admitted)[k..] + [a.at]
  {
  }

  lemma SortedSnoc(h: seq<int>, t: int)
    requires Sorted(h) && forall i | 0 <= i < |h| :: h[i] <= t
    ensures Sorted(h + [t])
  {
  }

  lemma AdmissibleMore(admitted: seq<Admission>, clock: int, a: Admission)
    requires Admissible(admitted, clock) && clock <= a.at && a.forgot <= |admitted|
    requires |InWindow(Times(admitted)[a.forgot..], a.at)| < LIMIT
    ensures Admissible(admitted + [a], a.at)
  {
    var more := admitted + [a];
    assert forall i | 0 <= i < |admitted| :: Times(admitted)[i] == admitted[i].at;
    SortedSnoc(Times(admitted), a.at);
    TimesOfMore(admitted, a, 0);
    hide Sorted, Times;
    forall i | 0 <= i < |more|
      ensures more[i].at <= a.at && more[i].forgot <= i
      ensures |InWindow(Times(more[..i])[more[i].forgot..], more[i].at)| < LIMIT
    {
      assert more[..i] == if i < |admitted| then admitted[..i] else admitted;
    }
  }

  lemma ArrivalIsSound(s: State, at: int)
    requires Sound(s) && s.clock <= at
    ensures Sound(Apply(s, Arrives(at)))
  {
    SweepMirrors(s.times, Recent(s), s.clock, at);
    assert InWindow(s.times, at) == InWindow(Recent(s), at);
    if |InWindow(s.times, at)| < LIMIT {
      AdmissibleMore(s.admitted, s.clock, Admission(at, s.forgot));
      TimesOfMore(s.admitted, Admission(at, s.forgot), s.forgot);
      OneMoreMirrors(InWindow(s.times, at), Recent(s), at);
    }
    hide InWindow, Times, Mirrors;
  }

  lemma StepIsSound(s: State, e: Event)
    requires Sound(s) && Enabled(s, e)
    ensures Sound(Apply(s, e))
  {
    if e.Arrives? {
      ArrivalIsSound(s, e.at);
    } else {
      SweepMirrors(s.times, Recent(s), s.clock, e.at);
      assert Times(s.admitted)[|s.admitted|..] == [];
      hide InWindow, Times;
    }
  }

  lemma {:induction false} RunIsSound(s: State, events: seq<Event>)
    requires Sound(s) && CanRun(s, events)
    ensures Sound(Run(s, events))
    decreases |events|
  {
    hide Sound, Enabled, Apply;
    if events != [] {
      StepIsSound(s, events[0]);
      RunIsSound(Apply(s, events[0]), events[1..]);
    }
  }

  lemma AgreesAt(s: State, now: int)
    requires Sound(s) && s.clock <= now
    ensures Request(s.times, now).0.limited <==>
      |InWindow(Times(s.admitted), now)| >= LIMIT && |s.admitted| - s.forgot >= LIMIT
    ensures var w := InWindow(Recent(s), now);
            Request(s.times, now).0.limited ==>
              w != [] && Request(s.times, now).0.retryAfterSecs == RetryAfter(w[0], now)
  {
    assert InWindow(s.times, now) == InWindow(Recent(s), now);
    WindowOfSuffix(Times(s.admitted), s.forgot, now);
    hide InWindow, Times, Mirrors, Sorted;
  }

  /** In a sorted history the window is what came after a certain place: later than the window's length ago. */
  lemma {:induction false} WindowIs(h: seq<int>, now: int) returns (k: nat)
    requires Sorted(h)
    ensures k <= |h| && InWindow(h, now) == h[k..]
    ensures forall i | 0 <= i < k :: h[i] + 900_000 <= now
    ensures forall i | k <= i < |h| :: h[i] + 900_000 > now
  {
    if h == [] {
      k := 0;
    } else {
      var n := |h| - 1;
      if h[n] > now - WINDOW_MS {
        k := WindowIs(h[..n], now);
        LastOfSuffix(h, n, k);
      } else {
        WindowIsEmpty(h, now);
        k := |h|;
      }
    }
    hide Sorted;
  }

  lemma LastOfSuffix(h: seq<int>, n: nat, k: nat)
    requires |h| == n + 1 && k <= n
    ensures h[k..] == h[..n][k..] + [h[n]]
    ensures forall i | 0 <= i < n :: h[i] == h[..n][i]
  {
  }

  /** The answer's wait, in whole seconds, ends as soon as a time is out of the window. */
  predicate EndsAt(secs: int, at: int, now: int) {
    now + 1000 * (secs - 1) < at + 900_000 <= now + 1000 * secs
  }

  lemma WaitEnds(oldest: int, now: int)
    requires oldest + 900_000 > now
    ensures EndsAt(RetryAfter(oldest, now), oldest, now)
  {
  }

  /** The admission `i` is the first in the window of those since the latest eviction. */
  predicate FirstInWindow(s: State, i: nat, now: int) {
    && s.forgot <= i < |s.admitted| && s.admitted[i].at + 900_000 > now
    && forall j | s.forgot <= j < i :: s.admitted[j].at + 900_000 <= now
  }

  lemma HistoryIs(s: State)
    requires Sound(s)
    ensures s.forgot <= |s.admitted| == |Times(s.admitted)| && Sorted(Times(s.admitted))
    ensures forall j | 0 <= j < |s.admitted| :: Times(s.admitted)[j] == s.admitted[j].at
  {
    hide Mirrors, InWindow, Sorted;
  }

  lemma RecentIs(s: State)
    requires Sound(s)
    ensures s.forgot + |Recent(s)| == |s.admitted| && Sorted(Recent(s))
    ensures forall j | 0 <= j < |Recent(s)| :: Recent(s)[j] == s.admitted[s.forgot + j].at
  {
    HistoryIs(s);
    SuffixSorted(Times(s.admitted), s.forgot);
    hide Sound, Times, Sorted;
  }

  lemma LimitedIff(s: State, now: int)
    requires Sound(s) && s.clock <= now
    ensures var a, answer := s.admitted, Request(s.times, now).0;
            answer.limited <==> |a| - s.forgot >= 20 && |a| >= 20 && a[|a| - 20].at + 900_000 > now
  {
    hide Sound, Request, Times, InWindow, Sorted;
    AgreesAt(s, now);
    HistoryIs(s);
    var h := Times(s.admitted);
    var k := WindowIs(h, now);
    assert |h| >= 20 ==> h[|h| - 20] == s.admitted[|h| - 20].at;
  }

  lemma WaitIs(s: State, now: int) returns (i: nat)
    requires Sound(s) && s.clock <= now && Request(s.times, now).0.limited
    ensures FirstInWindow(s, i, now) && EndsAt(Request(s.times, now).0.retryAfterSecs, s.admitted[i].at, now)
  {
    hide Sound, Request, InWindow, RetryAfter, Recent, Sorted, EndsAt;
    AgreesAt(s, now);
    RecentIs(s);
    var h := Recent(s);
    var k := WindowIs(h, now);
    i := s.forgot + k;
    assert h[k..][0] == h[k] == s.admitted[i].at;
    WaitEnds(h[k], now);
    forall j | s.forgot <= j < i
      ensures s.admitted[j].at + 900_000 <= now
    {
      assert h[j - s.forgot] == s.admitted[j].at;
    }
  }

  /**
   In every run, with sweeps and evictions at any moment, a request is refused if and only if the
   twentieth last of all the admissions ever made is in its window and came after the latest eviction;
   and the wait answered is the shortest in whole seconds that takes the oldest such admission out.
   */
  lemma RunsAgree(start: int, events: seq<Event>, now: int)
    requires CanRun(Start(start), events) && Run(Start(start), events).clock <= now
    ensures var s := Run(Start(start), events);
            var a, answer := s.admitted, Request(s.times, now).0;
            && (answer.limited <==> |a| - s.forgot >= 20 && |a| >= 20 && a[|a| - 20].at + 900_000 > now)
            && (answer.limited ==>
                  exists i: nat :: FirstInWindow(s, i, now) && EndsAt(answer.retryAfterSecs, a[i].at, now))
            && (!answer.limited ==> answer.retryAfterSecs == 0)
  {
    hide Run, InWindow, FirstInWindow, EndsAt, Sound;
    StartIsSound(start);
    RunIsSound(Start(start), events);
    var s := Run(Start(start), events);
    LimitedIff(s, now);
    if Request(s.times, now).0.limited {
      var i := WaitIs(s, now);
    }
  }

  /** A refused caller that comes a second too soon, with nothing from that address in between, is refused again. */
  lemma NoSooner(start: int, events: seq<Event>, now: int, later: int)
    requires CanRun(Start(start), events) && Run(Start(start), events).clock <= now <= later
    requires var s := Run(Start(start), events);
             Request(s.times, now).0.limited && later <= now + 1000 * (Request(s.times, now).0.retryAfterSecs - 1)
    ensures Request(Run(Start(start), events).times, later).0.limited
  {
    hide Run, Request, Sound;
    StartIsSound(start);
    RunIsSound(Start(start), events);
    var s := Run(Start(start), events);
    LimitedIff(s, now);
    LimitedIff(s, later);
    var i := WaitIs(s, now);
    InOrder(s, i, |s.admitted| - 20);
  }

  lemma InOrder(s: State, i: nat, j: int)
    requires Sound(s) && i < |s.admitted| && 0 <= j < |s.admitted|
    ensures i <= j ==> s.admitted[i].at <= s.admitted[j].at
    ensures j <= i ==> s.admitted[j].at <= s.admitted[i].at
  {
    HistoryIs(s);
    hide Sound, Times;
    assert Times(s.admitted)[i] == s.admitted[i].at && Times(s.admitted)[j] == s.admitted[j].at;
  }

  /**
   In every run, twenty-one admissions take fifteen minutes at least, unless the entry was evicted
   between the first and the last of them.
   */
  lemma TwentyOneTakeTheWindow(start: int, events: seq<Event>, i: nat)
    requires CanRun(Start(start), events) && i + 20 < |Run(Start(start), events).admitted|
    ensures var a := Run(Start(start), events).admitted;
            a[i + 20].forgot <= i ==> a[i + 20].at - a[i].at >= 900_000
  {
    StartIsSound(start);
    RunIsSound(Start(start), events);
    var s := Run(Start(start), events);
    if s.admitted[i + LIMIT].forgot <= i {
      FullWindow(s.admitted, s.clock, i);
    }
    hide Run, Admissible, Mirrors;
  }

  lemma FullWindow(a: seq<Admission>, clock: int, i: nat)
    requires Admissible(a, clock) && i + LIMIT < |a| && a[i + LIMIT].forgot <= i
    ensures a[i + LIMIT].at - a[i].at >= WINDOW_MS
  {
    var j, k := i + LIMIT, a[i + LIMIT].forgot;
    if a[j].at - a[i].at < WINDOW_MS {
      PrefixSorted(a, j, k);
      hide Sorted, Times;
      WindowIsSuffix(Times(a[..j])[k..], a[j].at, i - k);
      assert false;
    }
  }

  lemma PrefixSorted(a: seq<Admission>, j: nat, k: nat)
    requires Sorted(Times(a)) && k <= j <= |a|
    ensures Sorted(Times(a[..j])[k..]) && forall i | k <= i < j :: Times(a[..j])[k..][i - k] == a[i].at
  {
    assert Times(a[..j])[k..] == Times(a)[..j][k..];
  }

  predicate NobodyArrives(events: seq<Event>) {
    forall i | 0 <= i < |events| :: !events[i].Arrives?
  }

  lemma {:induction false} WaitingKeepsHistory(s: State, events: seq<Event>)
    requires Sound(s) && CanRun(s, events) && NobodyArrives(events)
    ensures var t := Run(s, events);
            Sound(t) && t.admitted == s.admitted && t.forgot >= s.forgot
    decreases |events|
  {
    hide Sound;
    if events != [] {
      StepIsSound(s, events[0]);
      SoundForgets(s);
      WaitingKeepsHistory(Apply(s, events[0]), events[1..]);
    }
  }

  lemma SoundForgets(s: State)
    requires Sound(s)
    ensures s.forgot <= |s.admitted|
  {
  }

  /**
   In every run, a refused caller that comes again when it was told to, with nobody else from that
   address in between, is let in.
   */
  lemma RetryIsAdmitted(start: int, before: seq<Event>, now: int, wait: seq<Event>, later: int)
    requires CanRun(Start(start), before) && Enabled(Run(Start(start), before), Arrives(now))
    requires var s := Run(Start(start), before);
             && Request(s.times, now).0.limited && later >= now + 1000 * Request(s.times, now).0.retryAfterSecs
             && CanRun(Apply(s, Arrives(now)), wait) && NobodyArrives(wait)
             && Run(Apply(s, Arrives(now)), wait).clock <= later
    ensures var s := Run(Start(start), before);
            !Request(Run(Apply(s, Arrives(now)), wait).times, later).0.limited
  {
    StartIsSound(start);
    RunIsSound(Start(start), before);
    var s := Run(Start(start), before);
    ArrivalIsSound(s, now);
    WaitingKeepsHistory(Apply(s, Arrives(now)), wait);
    RetryFinds(s, now, Run(Apply(s, Arrives(now)), wait), later);
    hide Run, Request, Sound, Recent;
  }

  lemma RetryFinds(s: State, now: int, t: State, later: int)
    requires Sound(s) && s.clock <= now && Request(s.times, now).0.limited
    requires Sound(t) && t.admitted == s.admitted && t.forgot >= s.forgot && t.clock <= later
    requires later >= now + 1000 * Request(s.times, now).0.retryAfterSecs
    ensures !Request(t.times, later).0.limited
  {
    AgreesAt(s, now);
    AgreesAt(t, later);
    var w := InWindow(Recent(s), now);
    WindowAtMostLimit(s, now);
    RoomAfterOldest(w, later);
    WindowOfWindow(Recent(s), now, later);
    WindowOfSuffix(Times(s.admitted), s.forgot, later);
    hide InWindow, Times, Mirrors, Admissible, Sorted;
  }

  /** No more than the limit are ever remembered in a window. */
  lemma WindowAtMostLimit(s: State, now: int)
    requires Sound(s) && s.clock <= now
    ensures |InWindow(Recent(s), now)| <= LIMIT
  {
    var h, a := Recent(s), s.admitted;
    if |InWindow(h, now)| > LIMIT {
      var i := |a| - 1 - LIMIT;
      assert h == Times(a)[s.forgot..] && |InWindow(h, now)| <= |h|;
      assert h[i - s.forgot] == a[i].at;
      FullWindow(a, s.clock, i);
      SuffixSorted(Times(a), s.forgot);
      WindowBelow(h, now, i - s.forgot);
      assert false;
    }
  }

  lemma SuffixSorted(h: seq<int>, k: nat)
    requires Sorted(h) && k <= |h|
    ensures Sorted(h[k..])
  {
  }
}
