/** The CSRF token store (`backend/src/stores.rs`). Times are epoch milliseconds. */
module Csrf {
  import opened Eviction

  const EXPIRY_MS: int := 86_400_000
  const MAX_TOKENS: nat := 50_000

  datatype CsrfEntry = CsrfEntry(token: string, timestamp: int)

  predicate Fresh(e: CsrfEntry, now: int) {
    now - e.timestamp <= EXPIRY_MS
  }

  function Issued(e: CsrfEntry): int {
    e.timestamp
  }

  function Unexpired(m: map<string, CsrfEntry>, now: int): map<string, CsrfEntry> {
    map user | user in m && Fresh(m[user], now) :: m[user]
  }

  class CsrfStore {
    var inner: map<string, CsrfEntry>

    constructor ()
      ensures inner == map[]
    {
      inner := map[];
    }

    method Set(user: string, token: string, now: int)
      modifies this
      ensures inner == old(inner)[user := CsrfEntry(token, now)]
    {
      inner := inner[user := CsrfEntry(token, now)];
    }

    /** `cleanup`: expired tokens go, then the oldest until the cap is met. */
    method Cleanup(now: int) returns (cleaned: nat)
      modifies this
      ensures |inner| <= MAX_TOKENS
      ensures IsEviction(Unexpired(old(inner), now), MAX_TOKENS, Issued, inner)
      ensures cleaned == |set user | user in old(inner) && now - old(inner)[user].timestamp > 86_400_000|
      ensures Leaves(old(inner), now, inner)
    {
      hide IsEviction, Leaves;
      var retained := Unexpired(inner, now);
      ExpiredCount(inner, now);
      cleaned := |inner| - |retained|;
      ghost var before := inner;
      inner := EvictOldestEntries(retained, MAX_TOKENS, Issued);
      CleanupLeaves(before, now, inner);
    }
  }

  /**
   What a sweep may leave: tokens as they were, none over a day old; and whatever else went is no newer
   than any that stays, and went because 50,000 stay.
   */
  ghost predicate Leaves(before: map<string, CsrfEntry>, now: int, after: map<string, CsrfEntry>) {
    && (forall user | user in after ::
          user in before && after[user] == before[user] && now - before[user].timestamp <= 86_400_000)
    && (forall user, kept | user in before && now - before[user].timestamp <= 86_400_000 && user !in after
                            && kept in after :: before[user].timestamp <= before[kept].timestamp)
    && (forall user | user in before && now - before[user].timestamp <= 86_400_000 && user !in after ::
          |after| == 50_000)
  }

  lemma ExpiredCount(m: map<string, CsrfEntry>, now: int)
    ensures |m| - |Unexpired(m, now)| == |set user | user in m && now - m[user].timestamp > 86_400_000|
  {
    var expired := set user | user in m && now - m[user].timestamp > 86_400_000;
    assert Unexpired(m, now) == m - expired;
    SmallerMap(m, expired);
  }

  lemma CleanupLeaves(m: map<string, CsrfEntry>, now: int, kept: map<string, CsrfEntry>)
    requires IsEviction(Unexpired(m, now), MAX_TOKENS, Issued, kept)
    ensures Leaves(m, now, kept)
  {
    var young := Unexpired(m, now);
    forall user, k | user in m && now - m[user].timestamp <= 86_400_000 && user !in kept && k in kept
      ensures m[user].timestamp <= m[k].timestamp
    {
      assert user in young && Issued(young[user]) <= Issued(young[k]);
    }
    forall user | user in m && now - m[user].timestamp <= 86_400_000 && user !in kept
      ensures |kept| == 50_000
    {
      assert user in young;
      ProperPart(kept.Keys, young.Keys, user);
    }
  }

  lemma ProperPart<T>(a: set<T>, b: set<T>, x: T)
    requires a <= b && x in b && x !in a
    ensures |a| < |b|
  {
    assert |b| == |a| + |b - a| && x in b - a;
  }
}
