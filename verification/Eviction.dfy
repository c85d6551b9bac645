/** Eviction of the oldest entries through a bounded max-heap (`backend/src/stores.rs`). */
module Eviction {

  /** A key and its timestamp. */
  datatype Entry<K> = Entry(key: K, ts: int)

  // ---- The heap ----

  function Up(j: nat): nat {
    if j == 0 then 0 else (j - 1) / 2
  }

  /** Every entry but the root, and but those excepted, is at most its parent. */
  ghost predicate HeapExcept<K>(s: seq<Entry<K>>, hole: int) {
    forall j: nat {:trigger Up(j)} | 1 <= j < |s| && j != hole :: s[j].ts <= s[Up(j)].ts
  }

  ghost predicate IsHeap<K>(s: seq<Entry<K>>) {
    HeapExcept(s, 0)
  }

  /** The children of `i` are at most the parent of `i`. */
  ghost predicate Bridged<K>(s: seq<Entry<K>>, i: nat) {
    forall j: nat {:trigger Up(j)} | 1 <= j < |s| && Up(j) == i && 1 <= i < |s| :: s[j].ts <= s[Up(i)].ts
  }

  /** Every entry is at most its parent, except the children of `i`. */
  ghost predicate HeapBelow<K>(s: seq<Entry<K>>, i: nat) {
    forall j: nat {:trigger Up(j)} | 1 <= j < |s| && Up(j) != i :: s[j].ts <= s[Up(j)].ts
  }

  function Swapped<T>(s: seq<T>, i: nat, j: nat): (r: seq<T>)
    requires i < |s| && j < |s|
    ensures |r| == |s|
  {
    s[i := s[j]][j := s[i]]
  }

  lemma SwapKeepsEntries<T>(s: seq<T>, i: nat, j: nat)
    requires i < |s| && j < |s|
    ensures multiset(Swapped(s, i, j)) == multiset(s)
  {
  }

  /** The root of a heap is its maximum. */
  lemma {:induction false} RootIsMax<K>(s: seq<Entry<K>>, j: nat)
    requires IsHeap(s) && j < |s|
    ensures s[j].ts <= s[0].ts
  {
    if j > 0 {
      RootIsMax(s, Up(j));
    }
  }

  method SwapAt<K>(a: array<Entry<K>>, n: nat, i: nat, j: nat)
    requires i < n <= a.Length && j < n
    modifies a
    ensures a[..n] == Swapped(old(a[..n]), i, j)
    ensures multiset(a[..n]) == multiset(old(a[..n]))
  {
    ghost var before := a[..n];
    a[i], a[j] := a[j], a[i];
    assert a[..n] == Swapped(before, i, j);
    SwapKeepsEntries(before, i, j);
  }

  /** `sift_up` from the last entry. */
  method SiftUp<K>(a: array<Entry<K>>, n: nat)
    requires 0 < n <= a.Length && HeapExcept(a[..n], n - 1)
    modifies a
    ensures IsHeap(a[..n]) && multiset(a[..n]) == multiset(old(a[..n]))
  {
    var i := n - 1;
    ghost var entries := multiset(a[..n]);
    while i > 0
      invariant i < n && HeapExcept(a[..n], i) && Bridged(a[..n], i)
      invariant multiset(a[..n]) == entries
    {
      var parent := (i - 1) / 2;
      ghost var s := a[..n];
      assert parent == Up(i) && s[parent] == a[parent] && s[i] == a[i];
      if a[parent].ts >= a[i].ts {
        HoleFilled(s, i);
        return;
      }
      HoleUp(s, i);
      SwapAt(a, n, parent, i);
      i := parent;
    }
  }

  lemma HoleFilled<K>(s: seq<Entry<K>>, i: nat)
    requires 0 < i < |s| && HeapExcept(s, i) && s[i].ts <= s[Up(i)].ts
    ensures IsHeap(s)
  {
  }

  /** Swapping a too large entry with its parent moves the exception up. */
  lemma HoleUp<K>(s: seq<Entry<K>>, i: nat)
    requires 0 < i < |s| && HeapExcept(s, i) && Bridged(s, i) && s[Up(i)].ts < s[i].ts
    ensures var p := Up(i);
            HeapExcept(Swapped(s, p, i), p) && Bridged(Swapped(s, p, i), p)
  {
    var p := Up(i);
    var r := Swapped(s, p, i);
    forall j: nat {:trigger Up(j)} | 1 <= j < |r| && j != p
      ensures r[j].ts <= r[Up(j)].ts
    {
    }
    forall j: nat {:trigger Up(j)} | 1 <= j < |r| && Up(j) == p && 1 <= p < |r|
      ensures r[j].ts <= r[Up(p)].ts
    {
    }
  }

  /** `sift_down` from the root. */
  method SiftDown<K>(a: array<Entry<K>>, n: nat)
    requires 0 < n <= a.Length && HeapBelow(a[..n], 0)
    modifies a
    ensures IsHeap(a[..n]) && multiset(a[..n]) == multiset(old(a[..n]))
  {
    var i := 0;
    ghost var entries := multiset(a[..n]);
    while true
      invariant i < n && HeapBelow(a[..n], i) && Bridged(a[..n], i)
      invariant multiset(a[..n]) == entries
      decreases n - i
    {
      var largest := LargestOfThree(a, n, i);
      if largest == i {
        BelowFilled(a[..n], i);
        return;
      }
      HoleDown(a[..n], i, largest);
      SwapAt(a, n, largest, i);
      i := largest;
    }
  }

  /** The index of the largest among an entry and its children; the entry wins ties. */
  method LargestOfThree<K>(a: array<Entry<K>>, n: nat, i: nat) returns (largest: nat)
    requires i < n <= a.Length
    ensures largest == i || ((largest == 2 * i + 1 || largest == 2 * i + 2) && largest < n && a[i].ts < a[largest].ts)
    ensures 2 * i + 1 < n ==> a[..n][2 * i + 1].ts <= a[..n][largest].ts
    ensures 2 * i + 2 < n ==> a[..n][2 * i + 2].ts <= a[..n][largest].ts
  {
    var left := 2 * i + 1;
    var right := left + 1;
    largest := i;
    if left < n && a[left].ts > a[largest].ts {
      largest := left;
    }
    if right < n && a[right].ts > a[largest].ts {
      largest := right;
    }
  }

  lemma BelowFilled<K>(s: seq<Entry<K>>, i: nat)
    requires i < |s| && HeapBelow(s, i)
    requires 2 * i + 1 < |s| ==> s[2 * i + 1].ts <= s[i].ts
    requires 2 * i + 2 < |s| ==> s[2 * i + 2].ts <= s[i].ts
    ensures IsHeap(s)
  {
    forall j: nat {:trigger Up(j)} | 1 <= j < |s|
      ensures s[j].ts <= s[Up(j)].ts
    {
      if Up(j) == i {
        assert j == 2 * i + 1 || j == 2 * i + 2;
      }
    }
  }

  /** Swapping a too small entry with its largest child moves the exception down. */
  lemma HoleDown<K>(s: seq<Entry<K>>, i: nat, c: nat)
    requires i < |s| && HeapBelow(s, i) && Bridged(s, i)
    requires (c == 2 * i + 1 || c == 2 * i + 2) && c < |s| && s[i].ts < s[c].ts
    requires 2 * i + 1 < |s| ==> s[2 * i + 1].ts <= s[c].ts
    requires 2 * i + 2 < |s| ==> s[2 * i + 2].ts <= s[c].ts
    ensures HeapBelow(Swapped(s, c, i), c) && Bridged(Swapped(s, c, i), c)
  {
    var r := Swapped(s, c, i);
    forall j: nat {:trigger Up(j)} | 1 <= j < |r| && Up(j) != c
      ensures r[j].ts <= r[Up(j)].ts
    {
      assert Up(c) == i;
      if Up(j) == i {
        assert j == 2 * i + 1 || j == 2 * i + 2;
      }
    }
    forall j: nat {:trigger Up(j)} | 1 <= j < |r| && Up(j) == c && 1 <= c < |r|
      ensures r[j].ts <= r[Up(c)].ts
    {
      assert Up(c) == i;
    }
  }

  // ---- Eviction ----

  /**
   What eviction must achieve: exactly the overflow is gone, what stays is
   unchanged, and nothing that went is newer than anything that stays.
   */
  ghost predicate IsEviction<K, V>(store: map<K, V>, maxEntries: nat, ts: V -> int, kept: map<K, V>) {
    && kept.Keys <= store.Keys
    && (forall k | k in kept :: kept[k] == store[k])
    && |kept| == (if |store| <= maxEntries then |store| else maxEntries)
    && forall r, k | r in store && r !in kept && k in kept :: ts(store[r]) <= ts(store[k])
  }

  function Stamp<K, V>(store: map<K, V>, ts: V -> int, k: K): Entry<K>
    requires k in store
  {
    Entry(k, ts(store[k]))
  }

  ghost predicate IsStamp<K, V>(e: Entry<K>, held: set<K>, store: map<K, V>, ts: V -> int)
    requires held <= store.Keys
  {
    e.key in held && e == Stamp(store, ts, e.key)
  }

  ghost predicate Older<K, V>(store: map<K, V>, ts: V -> int, r: K, k: K)
    requires r in store && k in store
  {
    ts(store[r]) <= ts(store[k])
  }

  /** The entries are one for each key in `held`, with that key's timestamp. */
  ghost predicate Holds<K, V>(m: multiset<Entry<K>>, held: set<K>, store: map<K, V>, ts: V -> int) {
    && held <= store.Keys
    && (forall k {:trigger Stamp(store, ts, k)} | k in held :: m[Stamp(store, ts, k)] == 1)
    && (forall e {:trigger IsStamp(e, held, store, ts)} | e in m :: IsStamp(e, held, store, ts))
  }

  /** Of the keys `seen`, those held are the oldest; the rest were skipped or replaced. */
  ghost predicate OldestOf<K, V>(held: set<K>, seen: set<K>, store: map<K, V>, ts: V -> int) {
    && held <= seen <= store.Keys
    && forall r, k {:trigger Older(store, ts, r, k)} | r in held && k in seen && k !in held :: Older(store, ts, r, k)
  }

  /** Every held key is at most the root of the heap. */
  lemma HeldAtMostRoot<K, V>(s: seq<Entry<K>>, held: set<K>, store: map<K, V>, ts: V -> int, k: K)
    requires IsHeap(s) && |s| > 0 && Holds(multiset(s), held, store, ts) && k in held
    ensures ts(store[k]) <= s[0].ts
  {
    var e := Stamp(store, ts, k);
    assert multiset(s)[e] == 1;
    assert e in s;
    var j: nat :| j < |s| && s[j] == e;
    RootIsMax(s, j);
  }

  /** Pushing one more entry. */
  lemma HoldsMore<K, V>(m: multiset<Entry<K>>, held: set<K>, store: map<K, V>, ts: V -> int, k: K)
    requires Holds(m, held, store, ts) && k in store && k !in held
    ensures Holds(m + multiset{Stamp(store, ts, k)}, held + {k}, store, ts)
  {
    var e := Stamp(store, ts, k);
    assert !IsStamp(e, held, store, ts);
    var m' := m + multiset{e};
    forall e' {:trigger IsStamp(e', held + {k}, store, ts)} | e' in m'
      ensures IsStamp(e', held + {k}, store, ts)
    {
      assert e' == e || IsStamp(e', held, store, ts);
    }
  }

  /** Replacing the entry of one key by that of another. */
  lemma HoldsReplaced<K, V>(m: multiset<Entry<K>>, held: set<K>, store: map<K, V>, ts: V -> int, old_: K, k: K)
    requires Holds(m, held, store, ts) && k in store && k !in held && old_ in held
    ensures Holds(m - multiset{Stamp(store, ts, old_)} + multiset{Stamp(store, ts, k)}, held - {old_} + {k}, store, ts)
  {
    var gone := Stamp(store, ts, old_);
    var m' := m - multiset{gone};
    assert m'[gone] == 0;
    forall e {:trigger IsStamp(e, held - {old_}, store, ts)} | e in m'
      ensures IsStamp(e, held - {old_}, store, ts)
    {
      assert IsStamp(e, held, store, ts);
    }
    HoldsMore(m', held - {old_}, store, ts, k);
  }

  lemma OldestReplaced<K, V>(held: set<K>, seen: set<K>, store: map<K, V>, ts: V -> int, root: K, k: K)
    requires OldestOf(held, seen, store, ts) && root in held && k in store && k !in seen
    requires forall r {:trigger Older(store, ts, r, root)} | r in held :: Older(store, ts, r, root)
    requires ts(store[k]) < ts(store[root])
    ensures OldestOf(held - {root} + {k}, seen + {k}, store, ts)
  {
    forall r, x {:trigger Older(store, ts, r, x)}
      | r in held - {root} + {k} && x in seen + {k} && x !in held - {root} + {k}
      ensures Older(store, ts, r, x)
    {
      if x != root {
        assert Older(store, ts, root, x);
        assert r != k ==> Older(store, ts, r, x);
      } else {
        assert r != k ==> Older(store, ts, r, root);
      }
    }
  }

  /** The heap after every key in `seen`: the `want` oldest of them, or all when there are fewer. */
  ghost predicate Collected<K, V>(s: seq<Entry<K>>, held: set<K>, seen: set<K>, store: map<K, V>, ts: V -> int,
                                  want: nat)
  {
    && IsHeap(s) && Holds(multiset(s), held, store, ts) && OldestOf(held, seen, store, ts)
    && |s| == |held| <= want && (|held| < want ==> held == seen)
  }

  /** `heap.push((k, ts)); sift_up(heap, last)`. */
  method Push<K, V>(heap: array<Entry<K>>, n: nat, k: K, stamp: int,
                    ghost held: set<K>, ghost seen: set<K>, ghost store: map<K, V>, ghost ts: V -> int)
    requires n < heap.Length && Collected(heap[..n], held, seen, store, ts, heap.Length)
    requires k in store && k !in seen && Entry(k, stamp) == Stamp(store, ts, k)
    modifies heap
    ensures Collected(heap[..n + 1], held + {k}, seen + {k}, store, ts, heap.Length)
  {
    ghost var s := heap[..n];
    heap[n] := Entry(k, stamp);
    assert heap[..n + 1] == s + [Entry(k, stamp)];
    AppendedHole(s, Entry(k, stamp));
    HoldsMore(multiset(s), held, store, ts, k);
    SiftUp(heap, n + 1);
  }

  /** `heap[0] = (k, ts); sift_down(heap, 0)`. */
  method ReplaceRoot<K, V>(heap: array<Entry<K>>, k: K, stamp: int,
                           ghost held: set<K>, ghost seen: set<K>, ghost store: map<K, V>, ghost ts: V -> int)
    returns (ghost held': set<K>)
    requires 0 < heap.Length && Collected(heap[..], held, seen, store, ts, heap.Length) && |held| == heap.Length
    requires k in store && k !in seen && Entry(k, stamp) == Stamp(store, ts, k) && stamp < heap[0].ts
    modifies heap
    ensures Collected(heap[..], held', seen + {k}, store, ts, heap.Length) && |held'| == heap.Length
  {
    held' := RootReplaced(heap[..], k, held, seen, store, ts);
    hide IsHeap, HeapBelow, Holds, OldestOf, Stamp;
    PutRoot(heap, Entry(k, stamp));
  }

  method PutRoot<K>(heap: array<Entry<K>>, e: Entry<K>)
    requires 0 < heap.Length && HeapBelow(heap[..][0 := e], 0)
    modifies heap
    ensures IsHeap(heap[..]) && multiset(heap[..]) == multiset(old(heap[..])[0 := e])
  {
    hide IsHeap, HeapBelow;
    ghost var s := heap[..];
    heap[0] := e;
    assert heap[..heap.Length] == heap[..] == s[0 := e];
    SiftDown(heap, heap.Length);
    assert heap[..heap.Length] == heap[..];
  }

  /** The collection stands once the root has given way to an older entry, but for the place of the new root. */
  lemma RootReplaced<K, V>(s: seq<Entry<K>>, k: K, held: set<K>, seen: set<K>, store: map<K, V>, ts: V -> int)
    returns (held': set<K>)
    requires |s| > 0 && IsHeap(s) && Holds(multiset(s), held, store, ts) && OldestOf(held, seen, store, ts)
    requires k in store && k !in seen && Stamp(store, ts, k).ts < s[0].ts
    ensures HeapBelow(s[0 := Stamp(store, ts, k)], 0)
    ensures Holds(multiset(s[0 := Stamp(store, ts, k)]), held', store, ts)
    ensures OldestOf(held', seen + {k}, store, ts) && |held'| == |held|
  {
    var root := s[0].key;
    RootKey(s, held, store, ts);
    held' := held - {root} + {k};
    SameSize(held, root, k);
    HoldsReplaced(multiset(s), held, store, ts, root, k);
    OldestReplaced(held, seen, store, ts, root, k);
    ReplacedRoot(s, s[0 := Stamp(store, ts, k)], Stamp(store, ts, k));
  }

  lemma SameSize<K>(held: set<K>, root: K, k: K)
    requires root in held && k !in held
    ensures |held - {root} + {k}| == |held|
  {
    assert |held - {root}| == |held| - 1;
  }

  /** One iteration of the selection loop. */
  method Offer<K, V>(heap: array<Entry<K>>, n: nat, k: K, stamp: int,
                     ghost held: set<K>, ghost seen: set<K>, ghost store: map<K, V>, ghost ts: V -> int)
    returns (n': nat, ghost held': set<K>)
    requires n <= heap.Length && 0 < heap.Length && Collected(heap[..n], held, seen, store, ts, heap.Length)
    requires k in store && k !in seen && Entry(k, stamp) == Stamp(store, ts, k)
    modifies heap
    ensures n' <= heap.Length && Collected(heap[..n'], held', seen + {k}, store, ts, heap.Length)
  {
    n', held' := n, held;
    if n < heap.Length {
      Push(heap, n, k, stamp, held, seen, store, ts);
      n', held' := n + 1, held + {k};
    } else {
      assert heap[..n] == heap[..];
      if stamp < heap[0].ts {
        held' := ReplaceRoot(heap, k, stamp, held, seen, store, ts);
        assert heap[..n] == heap[..];
      } else {
        RootKey(heap[..], held, store, ts);
        Skipped(held, seen, store, ts, heap[..][0].key, k);
      }
    }
  }

  lemma Skipped<K, V>(held: set<K>, seen: set<K>, store: map<K, V>, ts: V -> int, root: K, k: K)
    requires OldestOf(held, seen, store, ts) && root in held && k in store && k !in seen
    requires forall r {:trigger Older(store, ts, r, root)} | r in held :: Older(store, ts, r, root)
    requires ts(store[k]) >= ts(store[root])
    ensures OldestOf(held, seen + {k}, store, ts)
  {
    forall r, x {:trigger Older(store, ts, r, x)} | r in held && x in seen + {k} && x !in held
      ensures Older(store, ts, r, x)
    {
      assert x == k ==> Older(store, ts, r, root);
    }
  }

  lemma AppendedHole<K>(s: seq<Entry<K>>, e: Entry<K>)
    requires IsHeap(s)
    ensures HeapExcept(s + [e], |s|)
    ensures multiset(s + [e]) == multiset(s) + multiset{e}
  {
  }

  lemma ReplacedRoot<K>(s: seq<Entry<K>>, s': seq<Entry<K>>, e: Entry<K>)
    requires IsHeap(s) && |s| > 0 && s' == s[0 := e]
    ensures HeapBelow(s', 0)
    ensures multiset(s') == multiset(s) - multiset{s[0]} + multiset{e}
  {
  }

  lemma RootKey<K, V>(s: seq<Entry<K>>, held: set<K>, store: map<K, V>, ts: V -> int)
    requires IsHeap(s) && |s| > 0 && Holds(multiset(s), held, store, ts)
    ensures s[0].key in held && s[0] == Stamp(store, ts, s[0].key)
    ensures forall r {:trigger Older(store, ts, r, s[0].key)} | r in held :: Older(store, ts, r, s[0].key)
  {
    assert s[0] in multiset(s);
    assert IsStamp(s[0], held, store, ts);
    forall r {:trigger Older(store, ts, r, s[0].key)} | r in held
      ensures Older(store, ts, r, s[0].key)
    {
      HeldAtMostRoot(s, held, store, ts, r);
    }
  }

  /** `evict_oldest_entries`. */
  method EvictOldestEntries<K(==), V>(store: map<K, V>, maxEntries: nat, ts: V -> int) returns (kept: map<K, V>)
    ensures IsEviction(store, maxEntries, ts, kept)
  {
    if |store| <= maxEntries {
      return store;
    }
    var removeCount := |store| - maxEntries;
    var some :| some in store;
    var heap := new Entry<K>[removeCount](_ => Entry(some, 0));
    var n, held := SelectOldest(store, heap, ts);
    kept := RemoveHeld(store, heap, n, held, ts);
    AllButHeld(store, held, maxEntries, ts, kept);
  }

  lemma NothingCollected<K, V>(store: map<K, V>, ts: V -> int, want: nat)
    ensures Collected([], {}, {}, store, ts, want)
  {
  }

  /** The selection loop; the map is walked in any order. */
  method SelectOldest<K(==), V>(store: map<K, V>, heap: array<Entry<K>>, ts: V -> int)
    returns (n: nat, ghost held: set<K>)
    requires heap.Length > 0
    modifies heap
    ensures n <= heap.Length && Collected(heap[..n], held, store.Keys, store, ts, heap.Length)
  {
    n, held := 0, {};
    var todo := store.Keys;
    ghost var seen: set<K> := {};
    assert heap[..0] == [];
    NothingCollected(store, ts, heap.Length);
    hide Collected;
    while todo != {}
      invariant seen + todo == store.Keys && seen !! todo && n <= heap.Length
      invariant Collected(heap[..n], held, seen, store, ts, heap.Length)
      decreases |todo|
    {
      var k :| k in todo;
      n, held := Offer(heap, n, k, ts(store[k]), held, seen, store, ts);
      todo := todo - {k};
      seen := seen + {k};
    }
    assert seen == store.Keys;
  }

  /** `for (k, _) in heap { store.remove(&k) }`. */
  method RemoveHeld<K(==), V>(store: map<K, V>, heap: array<Entry<K>>, n: nat, ghost held: set<K>, ghost ts: V -> int)
    returns (kept: map<K, V>)
    requires n <= heap.Length && Holds(multiset(heap[..n]), held, store, ts)
    ensures kept == store - held
  {
    kept := store;
    ghost var gone: set<K> := {};
    for i := 0 to n
      invariant gone == set e | e in heap[..i] :: e.key
      invariant kept == store - gone
    {
      kept := kept - {heap[i].key};
      gone := gone + {heap[i].key};
      assert heap[..i + 1] == heap[..i] + [heap[i]];
    }
    KeysOfHeap(heap[..n], held, store, ts);
  }

  lemma KeysOfHeap<K, V>(s: seq<Entry<K>>, held: set<K>, store: map<K, V>, ts: V -> int)
    requires Holds(multiset(s), held, store, ts)
    ensures (set e | e in s :: e.key) == held
  {
    forall k | k in held
      ensures k in set e | e in s :: e.key
    {
      assert multiset(s)[Stamp(store, ts, k)] == 1;
      assert Stamp(store, ts, k) in s;
    }
    forall e | e in s
      ensures e.key in held
    {
      assert e in multiset(s);
      assert IsStamp(e, held, store, ts);
    }
  }

  lemma AllButHeld<K, V>(store: map<K, V>, held: set<K>, maxEntries: nat, ts: V -> int, kept: map<K, V>)
    requires OldestOf(held, store.Keys, store, ts) && kept == store - held
    requires |held| <= |store| - maxEntries && (|held| < |store| - maxEntries ==> held == store.Keys)
    requires |store| > maxEntries
    ensures IsEviction(store, maxEntries, ts, kept)
  {
    assert kept.Keys == store.Keys - held;
    assert |store.Keys - held| == |store.Keys| - |held|;
    assert |kept| == |kept.Keys| && |store| == |store.Keys|;
    forall r, k | r in store && r !in kept && k in kept
      ensures ts(store[r]) <= ts(store[k])
    {
      assert Older(store, ts, r, k);
    }
  }

  // ---- Sizes of maps ----

  lemma SmallerMap<K, V>(m: map<K, V>, gone: set<K>)
    ensures |m - gone| <= |m|
    ensures |m| <= |m - gone| + |gone|
  {
    var rest := m - gone;
    assert rest.Keys == m.Keys - gone;
    assert |m.Keys - gone| + |m.Keys * gone| == |m.Keys|;
    assert |m.Keys * gone| <= |gone| by {
      assert gone == (m.Keys * gone) + (gone - m.Keys);
    }
  }

  lemma OneMoreEntry<K, V>(m: map<K, V>, k: K, v: V)
    ensures |m[k := v]| == if k in m then |m| else |m| + 1
    ensures m[k := v] - {k} == m - {k}
  {
    assert m[k := v].Keys == m.Keys + {k};
  }
}
