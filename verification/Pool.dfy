/**
 The connection pool (`backend/src/db.rs`).

 Threads interleave at the granularity of the mutex: each critical section, and each use of
 the condition variable outside one, is a step. A caller is one call of `checkout` and what
 follows it, so a thread that checks out twice is two callers.
 */
module Pool {
  import opened Lists
  import opened Outcomes

  type Db = nat
  type Caller = nat

  datatype State = State(
    idle: seq<Db>,
    closed: bool,
    shut: set<Db>,
    entering: set<Caller>,
    waiting: set<Caller>,
    woken: set<Caller>,
    holding: map<Caller, Db>,
    notifying: set<Caller>,
    closing: set<Caller>)

  datatype Event =
    | Enter(c: Caller)                          // calls `checkout`
    | Turn(c: Caller)                           // one turn of the loop in `checkout`
    | Return(c: Caller)                         // drops the guard, after a result or a panic
    | NotifyOne(c: Caller, chosen: Option<Caller>)
    | Close(c: Caller)                          // `close_all`, or the pool is dropped
    | NotifyAll(c: Caller)
    | Spurious(c: Caller)                       // `wait` returns on its own

  function Callers(s: State): set<Caller> {
    s.entering + s.waiting + s.woken + s.holding.Keys + s.notifying + s.closing
  }

  predicate Enabled(s: State, e: Event) {
    match e
    case Enter(c) => c !in Callers(s)
    case Turn(c) => c in s.entering || c in s.woken
    case Return(c) => c in s.holding
    case NotifyOne(c, None) => c in s.notifying && s.waiting == {}
    case NotifyOne(c, Some(w)) => c in s.notifying && w in s.waiting
    case Close(c) => c !in Callers(s)
    case NotifyAll(c) => c in s.closing
    case Spurious(c) => c in s.waiting
  }

  function Elements(q: seq<Db>): set<Db> {
    set d | d in q
  }

  function Apply(s: State, e: Event): State
    requires Enabled(s, e)
  {
    match e
    case Enter(c) => s.(entering := s.entering + {c})
    case Turn(c) =>
      var t := s.(entering := s.entering - {c}, woken := s.woken - {c});
      if s.closed then t
      else if s.idle != [] then
        t.(idle := s.idle[..|s.idle| - 1], holding := s.holding[c := s.idle[|s.idle| - 1]])
      else t.(waiting := s.waiting + {c})
    case Return(c) =>
      var t := s.(holding := s.holding - {c});
      if s.closed then t.(shut := s.shut + {s.holding[c]})
      else t.(idle := s.idle + [s.holding[c]], notifying := s.notifying + {c})
    case NotifyOne(c, None) => s.(notifying := s.notifying - {c})
    case NotifyOne(c, Some(w)) =>
      s.(notifying := s.notifying - {c}, waiting := s.waiting - {w}, woken := s.woken + {w})
    case Close(c) =>
      s.(closed := true, shut := s.shut + Elements(s.idle), idle := [], closing := s.closing + {c})
    case NotifyAll(c) => s.(closing := s.closing - {c}, waiting := {}, woken := s.woken + s.waiting)
    case Spurious(c) => s.(waiting := s.waiting - {c}, woken := s.woken + {c})
  }

  // ---- The program's own state ----

  datatype Taken = Took(db: Db) | Refused | Blocked

  class ConnectionPool {
    var idle: seq<Db>
    var closed: bool
    /** Where everyone else is: not fields of the program. */
    ghost var around: State

    ghost function Abs(): State
      reads this
    {
      around.(idle := idle, closed := closed)
    }

    /** `open` with `size` connections; 0 is treated as 1. */
    constructor (size: nat)
      ensures Abs() == Opened(if size > 1 then size else 1)
    {
      var count := if size > 1 then size else 1;
      idle := seq(count, i requires 0 <= i < count => i);
      closed := false;
      around := Opened(count);
    }

    /** One turn of the loop in `checkout`, under the lock. */
    method TurnOnce(c: Caller) returns (r: Taken)
      requires Enabled(Abs(), Turn(c))
      modifies this
      ensures Abs() == Apply(old(Abs()), Turn(c))
      ensures r.Took? ==> !old(closed) && r.db in old(idle) && c in Abs().holding && Abs().holding[c] == r.db
      ensures r.Refused? <==> old(closed)
      ensures r.Blocked? <==> !old(closed) && old(idle) == []
      ensures closed == old(closed) && old(idle) == if r.Took? then idle + [r.db] else idle
    {
      around := Apply(Abs(), Turn(c));
      if closed {
        return Refused;
      }
      if idle != [] {
        var db := idle[|idle| - 1];
        idle := idle[..|idle| - 1];
        return Took(db);
      }
      return Blocked;
    }

    /** `Checkout::drop`, up to the notification; answers whether one is due. */
    method GiveBack(c: Caller, db: Db) returns (notify: bool)
      requires Enabled(Abs(), Return(c)) && around.holding[c] == db
      modifies this
      ensures Abs() == Apply(old(Abs()), Return(c))
      ensures notify <==> !old(closed)
      ensures closed == old(closed) && idle == if closed then old(idle) else old(idle) + [db]
    {
      around := Apply(Abs(), Return(c));
      if closed {
        return false;
      }
      idle := idle + [db];
      return true;
    }

    /** `close_all`, up to the notification. */
    method CloseAll(c: Caller)
      requires Enabled(Abs(), Close(c))
      modifies this
      ensures Abs() == Apply(old(Abs()), Close(c))
      ensures closed && idle == []
    {
      around := Apply(Abs(), Close(c));
      closed := true;
      idle := [];
    }
  }

  /** A pool of the connections 0 .. size - 1, nobody using it. */
  function Opened(size: nat): State {
    State(seq(size, i requires 0 <= i < size => i), false, {}, {}, {}, {}, map[], {}, {})
  }

  // ---- What every step keeps ----

  predicate Injective(m: map<Caller, Db>) {
    forall c, d | c in m && d in m && m[c] == m[d] :: c == d
  }

  /** Each connection is in exactly one place: idle, held by one caller, or shut. */
  ghost predicate Conserved(s: State, all: set<Db>) {
    && Distinct(s.idle) && Injective(s.holding)
    && Elements(s.idle) !! s.holding.Values !! s.shut
    && Elements(s.idle) + s.holding.Values + s.shut == all
  }

  /** Nothing is shut while the pool is open, and nothing is idle once it is closed. */
  ghost predicate Gated(s: State) {
    if s.closed then s.idle == [] else s.shut == {}
  }

  /** A caller is in one place. */
  ghost predicate Placed(s: State) {
    s.entering !! s.waiting !! s.woken !! s.holding.Keys !! s.notifying !! s.closing
  }

  /**
   While anyone waits, there are no more idle connections than callers already woken or
   about to wake one; and once the pool is closed, someone is about to wake them all.
   */
  ghost predicate NoLostWakeUp(s: State) {
    s.waiting != {} ==>
      if s.closed then s.closing != {} else |s.idle| <= |s.woken| + |s.notifying|
  }

  ghost predicate Safe(s: State, all: set<Db>) {
    Conserved(s, all) && Gated(s) && Placed(s) && NoLostWakeUp(s)
  }

  lemma OpenedIsSafe(size: nat)
    ensures Safe(Opened(size), Elements(Opened(size).idle))
  {
  }

  lemma LastOut(q: seq<Db>)
    requires q != [] && Distinct(q)
    ensures var r, d := q[..|q| - 1], q[|q| - 1];
            Distinct(r) && Elements(r) == Elements(q) - {d} && d in Elements(q)
  {
    var r, d := q[..|q| - 1], q[|q| - 1];
    assert q == r + [d];
  }

  lemma LastIn(q: seq<Db>, d: Db)
    requires Distinct(q) && d !in q
    ensures Distinct(q + [d]) && Elements(q + [d]) == Elements(q) + {d}
  {
  }

  lemma Held(m: map<Caller, Db>, c: Caller, d: Db)
    requires Injective(m) && c !in m && d !in m.Values
    ensures Injective(m[c := d]) && m[c := d].Values == m.Values + {d}
  {
    var n := m[c := d];
    assert n[c] == d;
    forall x | x in m.Values
      ensures x in n.Values
    {
      var k :| k in m && m[k] == x;
      assert n[k] == x;
    }
  }

  lemma Released(m: map<Caller, Db>, c: Caller)
    requires Injective(m) && c in m
    ensures Injective(m - {c}) && (m - {c}).Values == m.Values - {m[c]}
  {
    var n := m - {c};
    forall x | x in m.Values && x != m[c]
      ensures x in n.Values
    {
      var k :| k in m && m[k] == x;
      assert n[k] == x;
    }
  }

  lemma StepConserves(s: State, e: Event, all: set<Db>)
    requires Conserved(s, all) && Placed(s) && Gated(s) && Enabled(s, e)
    ensures Conserved(Apply(s, e), all)
  {
    match e
    case Turn(c) =>
      if !s.closed && s.idle != [] {
        LastOut(s.idle);
        Held(s.holding, c, s.idle[|s.idle| - 1]);
      }
    case Return(c) =>
      Released(s.holding, c);
      if !s.closed {
        assert s.holding[c] in s.holding.Values;
        LastIn(s.idle, s.holding[c]);
      }
    case _ =>
  }

  lemma StepPlaces(s: State, e: Event)
    requires Placed(s) && Enabled(s, e)
    ensures Placed(Apply(s, e))
  {
  }

  lemma SizeAfter<T>(a: set<T>, x: T)
    ensures |a + {x}| == if x in a then |a| else |a| + 1
    ensures |a - {x}| == if x in a then |a| - 1 else |a|
  {
    if x in a {
      assert a + {x} == a;
    }
  }

  lemma StepLosesNoWakeUp(s: State, e: Event)
    requires Placed(s) && Gated(s) && NoLostWakeUp(s) && Enabled(s, e)
    ensures NoLostWakeUp(Apply(s, e))
  {
    match e
    case Turn(c) => SizeAfter(s.woken, c);
    case Return(c) => SizeAfter(s.notifying, c);
    case NotifyOne(c, None) =>
    case NotifyOne(c, Some(w)) =>
      SizeAfter(s.notifying, c);
      SizeAfter(s.woken, w);
    case Spurious(c) => SizeAfter(s.woken, c);
    case _ =>
  }

  // ---- Over every run ----

  /** Whether `events` can happen one after the other from `s`. */
  ghost predicate CanRun(s: State, events: seq<Event>)
    decreases |events|
  {
    events != [] ==> Enabled(s, events[0]) && CanRun(Apply(s, events[0]), events[1..])
  }

  function Run(s: State, events: seq<Event>): State
    requires CanRun(s, events)
    decreases |events|
  {
    if events == [] then s else Run(Apply(s, events[0]), events[1..])
  }

  lemma {:induction false} RunIsSafe(s: State, events: seq<Event>, all: set<Db>)
    requires Safe(s, all) && CanRun(s, events)
    ensures Safe(Run(s, events), all)
    decreases |events|
  {
    if events != [] {
      var e := events[0];
      StepConserves(s, e, all);
      StepPlaces(s, e);
      StepLosesNoWakeUp(s, e);
      RunIsSafe(Apply(s, e), events[1..], all);
    }
  }

  lemma {:induction false} DistinctSize(q: seq<Db>)
    requires Distinct(q)
    ensures |Elements(q)| == |q|
  {
    if q != [] {
      LastOut(q);
      DistinctSize(q[..|q| - 1]);
      SizeAfter(Elements(q), q[|q| - 1]);
    }
  }

  lemma {:induction false} InjectiveSize(m: map<Caller, Db>)
    requires Injective(m)
    ensures |m.Values| == |m|
    decreases |m|
  {
    if m.Keys != {} {
      var c :| c in m;
      Released(m, c);
      SizeAfter(m.Values, m[c]);
      SizeAfter(m.Keys, c);
      assert (m - {c}).Keys == m.Keys - {c};
      assert m[c] in m.Values;
      InjectiveSize(m - {c});
    } else {
      assert m == map[];
    }
  }

  /** In every run, idle and held connections make up the pool's size until it is closed. */
  lemma SizeIsKept(size: nat, events: seq<Event>)
    requires CanRun(Opened(size), events)
    ensures var s := Run(Opened(size), events);
            !s.closed ==> |s.idle| + |s.holding| == size
  {
    var all := Elements(Opened(size).idle);
    OpenedIsSafe(size);
    RunIsSafe(Opened(size), events, all);
    var s := Run(Opened(size), events);
    DistinctSize(Opened(size).idle);
    DistinctSize(s.idle);
    InjectiveSize(s.holding);
    if !s.closed {
      assert all == Elements(s.idle) + s.holding.Values;
      assert |all| == |Elements(s.idle)| + |s.holding.Values|;
    }
  }

  /** Once the pool is closed no step hands out a connection, and it stays closed. */
  lemma {:induction false} NothingAfterClose(s: State, events: seq<Event>, all: set<Db>)
    requires Safe(s, all) && s.closed && CanRun(s, events)
    ensures Run(s, events).closed && Run(s, events).idle == []
    ensures forall c | c in Run(s, events).holding :: c in s.holding && Run(s, events).holding[c] == s.holding[c]
    decreases |events|
  {
    if events != [] {
      var e := events[0];
      StepConserves(s, e, all);
      StepPlaces(s, e);
      StepLosesNoWakeUp(s, e);
      NothingAfterClose(Apply(s, e), events[1..], all);
    }
  }

  /** No caller is left waiting when everyone else is gone: nobody sleeps through a wake-up. */
  lemma NobodyIsStranded(size: nat, events: seq<Event>)
    requires size > 0 && CanRun(Opened(size), events)
    ensures var s := Run(Opened(size), events);
            s.waiting != {} ==> s.holding.Keys + s.woken + s.notifying + s.closing != {}
  {
    OpenedIsSafe(size);
    RunIsSafe(Opened(size), events, Elements(Opened(size).idle));
    SizeIsKept(size, events);
    var s := Run(Opened(size), events);
    if s.waiting != {} && !s.closed && s.holding.Keys == {} {
      assert |s.holding| == |s.holding.Keys| == 0;
      assert |s.woken| + |s.notifying| > 0;
    }
  }
}
