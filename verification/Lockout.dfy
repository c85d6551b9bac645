/** The account-lockout store (`backend/src/stores.rs`). Times are epoch milliseconds. */
module Lockout {
  import opened Outcomes
  import opened Eviction

  const THRESHOLD: nat := 5
  const LOCK_MS: int := 900_000
  const WINDOW_MS: int := 900_000
  const MAX_ENTRIES: nat := 50_000

  datatype LoginAttempt = LoginAttempt(attempts: nat, lockedUntil: Option<int>, lastAttempt: int)

  datatype LockStatus = LockStatus(locked: bool, remainingTime: int)

  type Key = (string, string)

  // ---- One record, step by step ----

  /** Whole seconds until `until`, rounded up. */
  function SecondsLeft(until: int, now: int): (r: int)
    requires now < until
    ensures 1000 * (r - 1) < until - now <= 1000 * r
  {
    (until - now + 999) / 1000
  }

  /** What `is_locked` answers for a record and what it leaves of it. */
  function Check(rec: Option<LoginAttempt>, now: int): (LockStatus, Option<LoginAttempt>) {
    match rec
    case None => (LockStatus(false, 0), None)
    case Some(r) =>
      match r.lockedUntil
      case None => (LockStatus(false, 0), rec)
      case Some(until) =>
        if now < until then (LockStatus(true, SecondsLeft(until, now)), rec) else (LockStatus(false, 0), None)
  }

  /** The record after `record_failure`. */
  function AfterFailure(rec: Option<LoginAttempt>, now: int): LoginAttempt {
    var r := match rec case Some(r) => r case None => LoginAttempt(0, None, now);
    var base := if now - r.lastAttempt > WINDOW_MS then LoginAttempt(0, None, now) else r;
    var n := base.attempts + 1;
    LoginAttempt(n, if n >= THRESHOLD then Some(now + LOCK_MS) else base.lockedUntil, now)
  }

  /** Whether `cleanup` keeps a record. */
  predicate Retained(r: LoginAttempt, now: int) {
    match r.lockedUntil
    case Some(until) => now < until
    case None => now - r.lastAttempt <= WINDOW_MS
  }

  /** A record is locked exactly from the threshold on, until a fixed time after its last failure. */
  predicate WellFormed(r: LoginAttempt) {
    && r.attempts >= 1
    && r.lockedUntil == if r.attempts >= THRESHOLD then Some(r.lastAttempt + LOCK_MS) else None
  }

  lemma FailureKeepsWellFormed(rec: Option<LoginAttempt>, now: int)
    requires rec.Some? ==> WellFormed(rec.value)
    ensures WellFormed(AfterFailure(rec, now))
  {
  }

  /** The wait answered is the shortest in whole seconds: after it the lock is over, and a second sooner it is not. */
  lemma WaitIsLeast(r: LoginAttempt, now: int, later: int)
    requires WellFormed(r) && Check(Some(r), now).0.locked && now <= later
    ensures var secs := Check(Some(r), now).0.remainingTime;
            && (later >= now + 1000 * secs ==> !Check(Some(r), later).0.locked)
            && (later <= now + 1000 * (secs - 1) ==> Check(Some(r), later).0.locked)
  {
  }

  /** A sign-in that is checked and then fails: whether it is let in, and the record it leaves. */
  function Attempt(rec: Option<LoginAttempt>, now: int): (LockStatus, Option<LoginAttempt>) {
    var (status, left) := Check(rec, now);
    (status, if status.locked then left else Some(AfterFailure(left, now)))
  }

  /** `cleanup` keeps a record exactly if some later sign-in would come out differently without it. */
  lemma RetainedIffItMatters(r: LoginAttempt, now: int)
    requires WellFormed(r)
    ensures Retained(r, now) <==> exists later :: later >= now && Attempt(Some(r), later) != Attempt(None, later)
  {
    assert now >= now;
    if Retained(r, now) {
      assert Attempt(Some(r), now) != Attempt(None, now);
    }
  }

  // ---- The store ----

  predicate Live(r: LoginAttempt, now: int) {
    r.lockedUntil.Some? && now < r.lockedUntil.value
  }

  /** The ranking `evict` uses. */
  function Rank(r: LoginAttempt): int {
    match r.lockedUntil
    case Some(until) => until
    case None => r.lastAttempt
  }

  function Lookup<K, V>(m: map<K, V>, k: K): Option<V> {
    if k in m then Some(m[k]) else None
  }

  /** If a live lock goes, only live locks stay. */
  lemma LiveLocksGoLast(m: map<Key, LoginAttempt>, maxEntries: nat, kept: map<Key, LoginAttempt>, now: int)
    requires IsEviction(m, maxEntries, Rank, kept)
    requires forall k | k in m :: m[k].lastAttempt <= now
    ensures forall r, k | r in m && r !in kept && Live(m[r], now) && k in kept :: Live(kept[k], now)
    ensures (forall k | k in m :: WellFormed(m[k])) ==>
              forall r, k | r in m && r !in kept && k in kept ::
                m[r].lastAttempt + (if m[r].attempts >= 5 then 900_000 else 0)
                <= kept[k].lastAttempt + (if kept[k].attempts >= 5 then 900_000 else 0)
  {
    if forall k | k in m :: WellFormed(m[k]) {
      forall r, k | r in m && r !in kept && k in kept
        ensures m[r].lastAttempt + (if m[r].attempts >= 5 then 900_000 else 0)
             <= kept[k].lastAttempt + (if kept[k].attempts >= 5 then 900_000 else 0)
      {
        assert Rank(m[r]) <= Rank(m[k]);
      }
    }
    forall r, k | r in m && r !in kept && Live(m[r], now) && k in kept
      ensures Live(kept[k], now)
    {
      assert Rank(m[r]) <= Rank(m[k]);
    }
  }

  class LockoutStore {
    var inner: map<Key, LoginAttempt>

    predicate Valid()
      reads this
    {
      && |inner| <= 50_000
      && forall k | k in inner :: WellFormed(inner[k])
    }

    constructor ()
      ensures Valid() && inner == map[]
    {
      inner := map[];
    }

    /** `is_locked`: clears an expired lock as a side effect. */
    method IsLocked(key: Key, now: int) returns (status: LockStatus)
      requires Valid()
      modifies this
      ensures Valid()
      ensures status == Check(Lookup(old(inner), key), now).0
      ensures Lookup(inner, key) == Check(Lookup(old(inner), key), now).1
      ensures inner - {key} == old(inner) - {key}
      ensures status.locked <==>
        key in old(inner) && old(inner)[key].attempts >= 5 && now < old(inner)[key].lastAttempt + 900_000
      ensures status.locked ==>
        var left := old(inner)[key].lastAttempt + 900_000 - now;
        inner == old(inner) && 1000 * (status.remainingTime - 1) < left <= 1000 * status.remainingTime
      ensures !status.locked ==> status.remainingTime == 0
    {
      if key !in inner {
        return LockStatus(false, 0);
      }
      var r := inner[key];
      match r.lockedUntil {
        case None =>
          status := LockStatus(false, 0);
        case Some(until) =>
          if now < until {
            status := LockStatus(true, (until - now + 999) / 1000);
          } else {
            SmallerMap(inner, {key});
            inner := inner - {key};
            status := LockStatus(false, 0);
          }
      }
    }

    /** `make_room`: a full store gives up its oldest entry. */
    method MakeRoom()
      requires Valid()
      modifies this
      ensures Valid() && |inner| < MAX_ENTRIES
      ensures |old(inner)| < MAX_ENTRIES ==> inner == old(inner)
      ensures |old(inner)| >= MAX_ENTRIES ==> IsEviction(old(inner), MAX_ENTRIES - 1, Rank, inner)
    {
      if |inner| >= MAX_ENTRIES {
        inner := EvictOldestEntries(inner, MAX_ENTRIES - 1, Rank);
      }
    }

    /** `record_failure`; answers whether the lock was tripped or extended. */
    method RecordFailure(key: Key, now: int) returns (locked: bool)
      requires Valid()
      modifies this
      ensures Valid()
      ensures key in inner && inner[key] == AfterFailure(Lookup(old(inner), key), now)
      ensures locked <==> inner[key].attempts >= THRESHOLD
      ensures key in old(inner) || |old(inner)| < MAX_ENTRIES ==> inner - {key} == old(inner) - {key}
      ensures key !in old(inner) && |old(inner)| >= MAX_ENTRIES ==>
        IsEviction(old(inner), MAX_ENTRIES - 1, Rank, inner - {key})
    {
      if key !in inner {
        MakeRoom();
      }
      locked := CountFailure(key, now);
    }

    /** The second half of `record_failure`, once there is room. */
    method CountFailure(key: Key, now: int) returns (locked: bool)
      requires Valid() && (key in inner || |inner| < MAX_ENTRIES)
      modifies this
      ensures Valid()
      ensures key in inner && inner[key] == AfterFailure(Lookup(old(inner), key), now)
      ensures locked <==> inner[key].attempts >= THRESHOLD
      ensures inner - {key} == old(inner) - {key}
    {
      var r := if key in inner then inner[key] else LoginAttempt(0, None, now);
      if now - r.lastAttempt > WINDOW_MS {
        r := r.(attempts := 0, lockedUntil := None);
      }
      r := r.(attempts := r.attempts + 1, lastAttempt := now);
      if r.attempts >= THRESHOLD {
        r := r.(lockedUntil := Some(now + LOCK_MS));
      }
      FailureKeepsWellFormed(Lookup(inner, key), now);
      OneMoreEntry(inner, key, r);
      inner := inner[key := r];
      locked := r.attempts >= THRESHOLD;
    }

    /** `clear`: a successful sign-in forgets the record. */
    method Clear(key: Key)
      requires Valid()
      modifies this
      ensures Valid() && inner == old(inner) - {key}
    {
      SmallerMap(inner, {key});
      inner := inner - {key};
    }

    /** `cleanup`. */
    method Cleanup(now: int) returns (cleaned: nat)
      requires Valid()
      modifies this
      ensures Valid()
      ensures inner == map k | k in old(inner) && Retained(old(inner)[k], now) :: old(inner)[k]
      ensures forall k | k in old(inner) ::
                k !in inner <==> now > old(inner)[k].lastAttempt + 900_000
                                 || (now == old(inner)[k].lastAttempt + 900_000 && old(inner)[k].attempts >= 5)
      ensures cleaned == |old(inner)| - |inner|
    {
      ghost var before := inner;
      var retained := map k | k in inner && Retained(inner[k], now) :: inner[k];
      assert retained == before - (before.Keys - retained.Keys);
      SmallerMap(before, before.Keys - retained.Keys);
      cleaned := |inner| - |retained|;
      inner := EvictOldestEntries(retained, MAX_ENTRIES, Rank);
      NothingEvicted(retained, MAX_ENTRIES, Rank, inner);
    }
  }

  lemma NothingEvicted<K, V>(m: map<K, V>, maxEntries: nat, ts: V -> int, kept: map<K, V>)
    requires |m| <= maxEntries && IsEviction(m, maxEntries, ts, kept)
    ensures kept == m
  {
    assert kept.Keys == m.Keys by {
      assert |m.Keys - kept.Keys| == |m.Keys| - |kept.Keys|;
    }
  }
}
