/** Transactions over a pooled remote session (`backend/src/db.rs`, `backend/src/hrana.rs`). */
module Transaction {
  import opened Outcomes
  import opened Hrana
  import opened Utf8

  datatype Finish = Returns | Fails | Panics

  /**
   A closure: it ends, or issues a statement and goes on by whether the answer is good. Any reaction
   to an error can be written so: giving up with `?`, panicking, trying something else, ignoring it.
   */
  datatype Closure = Stop(finish: Finish) | Issue(st: Statement, good: Closure, bad: Closure)

  datatype TxResult = Done | BeginFailed | BodyFailed | CommitFailed | Panicked

  const BEGIN_TX: Statement := Statement(T("BEGIN IMMEDIATE"), [])
  const COMMIT_TX: Statement := Statement(COMMIT, [])
  const ROLLBACK_TX: Statement := Statement(ROLLBACK, [])

  /** A closure issues plain statements; `BEGIN` and the rest are for `transaction` to issue. */
  predicate Ordinary(c: Closure) {
    c.Issue? ==> KindOf(c.st) == Stmt && Ordinary(c.good) && Ordinary(c.bad)
  }

  /** It gives up at its first error. */
  predicate Propagates(c: Closure) {
    c.Issue? ==> c.bad.Stop? && !c.bad.finish.Returns? && Propagates(c.good)
  }

  /** How many statements it may issue. */
  function Length(c: Closure): nat {
    match c
    case Stop(_) => 0
    case Issue(_, good, bad) => 1 + if Length(good) > Length(bad) then Length(good) else Length(bad)
  }

  /** The closure's run, and how it ends. */
  function Body(w: World, c: Closure, weathers: seq<Weather>): (World, Finish)
    requires |weathers| >= Length(c)
    decreases c
  {
    match c
    case Stop(finish) => (w, finish)
    case Issue(st, good, bad) =>
      var (w', answer) := Execute(w, st, weathers[0]);
      Body(w', if answer.Ok? then good else bad, weathers[1..])
  }

  /** The weather of `BEGIN`, of each statement, of what ends it, and of a rollback after a failed commit. */
  datatype Forecast = Forecast(begin: Weather, body: seq<Weather>, end: Weather, after: Weather)

  predicate Covers(f: Forecast, c: Closure) {
    |f.body| >= Length(c)
  }

  /** `Pool::transaction`, with the guard's drop where it happens. */
  function Transact(w: World, c: Closure, f: Forecast): (World, TxResult)
    requires Covers(f, c)
  {
    var (w1, begun) := Execute(w, BEGIN_TX, f.begin);
    if begun.Err? then (w1, BeginFailed)
    else
      var (w2, finish) := Body(w1, c, f.body);
      match finish
      case Fails => (Execute(w2, ROLLBACK_TX, f.end).0, BodyFailed)
      case Panics => (Execute(w2, ROLLBACK_TX, f.end).0, Panicked)
      case Returns =>
        var (w3, done) := Execute(w2, COMMIT_TX, f.end);
        if done.Ok? then (w3, Done) else (Execute(w3, ROLLBACK_TX, f.after).0, CommitFailed)
  }

  // ---- The code ----

  ghost function Outside(session: Session, server: SingleUseServer): World
    reads session, server
  {
    World(session.baton, server.state, server.sent, server.refused)
  }

  class TxGuard {
    const session: Session
    const server: SingleUseServer
    var committed: bool

    constructor (session: Session, server: SingleUseServer)
      ensures this.session == session && this.server == server && !committed
    {
      this.session := session;
      this.server := server;
      committed := false;
    }

    /** `drop`: rolls back unless committed; a failed rollback is only reported. */
    method Drop(weather: Weather)
      modifies session, server
      ensures Outside(session, server)
           == if committed then old(Outside(session, server))
              else Execute(old(Outside(session, server)), ROLLBACK_TX, weather).0
    {
      if !committed {
        var _ := session.Run(ROLLBACK_TX, server, weather);
      }
    }
  }

  /** The closure, statement by statement. */
  method RunBody(session: Session, server: SingleUseServer, c: Closure, weathers: seq<Weather>) returns (finish: Finish)
    requires |weathers| >= Length(c)
    modifies session, server
    ensures (Outside(session, server), finish) == Body(old(Outside(session, server)), c, weathers)
  {
    hide Execute;
    ghost var whole := Body(Outside(session, server), c, weathers);
    var left, i := c, 0;
    while left.Issue?
      invariant i <= |weathers| && |weathers| - i >= Length(left)
      invariant Body(Outside(session, server), left, weathers[i..]) == whole
      decreases left
    {
      assert weathers[i..][1..] == weathers[i + 1..];
      var answer := session.Run(left.st, server, weathers[i]);
      left := if answer.Ok? then left.good else left.bad;
      i := i + 1;
    }
    return left.finish;
  }

  /** `transaction`. */
  method RunTransaction(session: Session, server: SingleUseServer, c: Closure, f: Forecast) returns (r: TxResult)
    requires Covers(f, c)
    modifies session, server
    ensures (Outside(session, server), r) == Transact(old(Outside(session, server)), c, f)
  {
    hide Execute, Body;
    var begun := session.Run(BEGIN_TX, server, f.begin);
    if begun.Err? {
      return BeginFailed;
    }
    var guard := new TxGuard(session, server);
    var finish := RunBody(session, server, c, f.body);
    match finish {
      case Fails =>
        guard.Drop(f.end);
        return BodyFailed;
      case Panics =>
        guard.Drop(f.end);
        return Panicked;
      case Returns =>
    }
    var done := session.Run(COMMIT_TX, server, f.end);
    if done.Err? {
      guard.Drop(f.after);
      return CommitFailed;
    }
    guard.committed := true;
    guard.Drop(f.after);
    return Done;
  }

  // ---- What a transaction does ----

  lemma FirstWord(sql: Text, word: Text)
    requires word != [] && word <= sql && !IsWhite(sql[0])
    requires forall i | 0 <= i < |word| :: Upper(word[i]) == word[i]
    ensures word <= Uppercase(TrimStart(sql)) && Uppercase(TrimStart(sql))[0] == word[0]
  {
  }

  lemma TxKinds()
    ensures KindOf(BEGIN_TX) == Begin && KindOf(COMMIT_TX) == End && KindOf(ROLLBACK_TX) == End
    ensures RollsBack(ROLLBACK_TX) && !RollsBack(COMMIT_TX)
  {
    FirstWord(BEGIN_TX.sql, BEGIN);
    FirstWord(COMMIT, COMMIT);
    FirstWord(ROLLBACK, ROLLBACK);
    hide IsWhite, TrimStart, Uppercase;
    KindIsByKeyword(BEGIN_TX.sql);
    KindIsByKeyword(COMMIT);
    KindIsByKeyword(ROLLBACK);
    assert COMMIT[0] == 0x43 && ROLLBACK[0] == 0x52;
    hide StatementKind;
  }

  /** A statement that was issued, and what became of it. */
  datatype Sent = Sent(effect: seq<Write>, weather: Weather)

  /** The statement reaches the server and succeeds there. */
  predicate Lands(weather: Weather) {
    !weather.fate.RequestLost? && !weather.verdict.fails
  }

  predicate Good(weather: Weather) {
    weather.fate.Delivered? && !weather.verdict.fails
  }

  function Next(c: Closure, weather: Weather): (next: Closure)
    requires c.Issue?
    ensures next < c && Length(next) < Length(c)
  {
    if Good(weather) then c.good else c.bad
  }

  /** What a closure issues inside a transaction, in order: only the weather decides. */
  function Issued(c: Closure, weathers: seq<Weather>): seq<Sent>
    requires |weathers| >= Length(c)
    decreases c
  {
    match c
    case Stop(_) => []
    case Issue(st, _, _) =>
      [Sent(st.effect, weathers[0])] + Issued(Next(c, weathers[0]), weathers[1..])
  }

  function Ending(c: Closure, weathers: seq<Weather>): Finish
    requires |weathers| >= Length(c)
    decreases c
  {
    match c
    case Stop(finish) => finish
    case Issue(_, _, _) => Ending(Next(c, weathers[0]), weathers[1..])
  }

  /** The writes of those that land. */
  function Landed(tr: seq<Sent>): seq<Write> {
    if tr == [] then [] else (if Lands(tr[0].weather) then tr[0].effect else []) + Landed(tr[1..])
  }

  /** An answer never came: with it the baton is gone. */
  predicate Severed(tr: seq<Sent>) {
    exists k | 0 <= k < |tr| :: !tr[k].weather.fate.Delivered?
  }

  /** The writes that land after the first lost answer, each on its own. */
  function Stray(tr: seq<Sent>): seq<Write> {
    if tr == [] then []
    else if tr[0].weather.fate.Delivered? then Stray(tr[1..])
    else Landed(tr[1..])
  }

  /** The client is inside a transaction the server knows, with these writes so far. */
  ghost predicate Inside(w: World, pending: seq<Write>) {
    w.baton.Some? && w.server.live == Some(Stream(w.baton.value, Some(pending)))
  }

  lemma BeginOpens(w: World, weather: Weather)
    requires InStep(w) && w.baton.None?
    ensures var (w', answer) := Execute(w, BEGIN_TX, weather);
            && InStep(w') && w'.server.committed == w.server.committed
            && (if answer.Ok? then Inside(w', []) else w'.baton.None?)
            && (answer.Ok? <==> Good(weather))
  {
    TxKinds();
    hide Execute, InStep, BatonName, KindOf, RollsBack, T;
    StatementOutcome(w, BEGIN_TX, weather);
    StatementKeepsStep(w, BEGIN_TX, weather);
  }

  /** A statement inside the transaction; a lost answer ends it for the client. */
  lemma StatementInside(w: World, st: Statement, weather: Weather, pending: seq<Write>)
    requires InStep(w) && Inside(w, pending) && KindOf(st) == Stmt
    ensures var (w', answer) := Execute(w, st, weather);
            && InStep(w') && w'.server.committed == w.server.committed
            && (answer.Ok? <==> Good(weather))
            && (if weather.fate.Delivered? then Inside(w', pending + (if Lands(weather) then st.effect else []))
                else w'.baton.None?)
  {
    hide Execute, InStep, BatonName, KindOf;
    StatementOutcome(w, st, weather);
    StatementKeepsStep(w, st, weather);
    assert pending + [] == pending;
  }

  /** A statement outside any transaction is committed at once. */
  lemma StatementOutside(w: World, st: Statement, weather: Weather)
    requires InStep(w) && w.baton.None? && KindOf(st) == Stmt
    ensures var (w', answer) := Execute(w, st, weather);
            && InStep(w') && w'.baton.None?
            && w'.server.committed == w.server.committed + (if Lands(weather) then st.effect else [])
            && (answer.Ok? <==> Good(weather))
  {
    hide Execute, InStep, BatonName, KindOf;
    StatementOutcome(w, st, weather);
    StatementKeepsStep(w, st, weather);
    assert w.server.committed + [] == w.server.committed;
  }

  lemma {:induction false} BodyOutside(w: World, c: Closure, weathers: seq<Weather>)
    requires |weathers| >= Length(c) && InStep(w) && w.baton.None? && Ordinary(c)
    ensures var (w', finish) := Body(w, c, weathers);
            && InStep(w') && w'.baton.None? && finish == Ending(c, weathers)
            && w'.server.committed == w.server.committed + Landed(Issued(c, weathers))
    decreases c
  {
    hide Execute, InStep, KindOf, Lands, Good, Issued, Landed, Ending, Body;
    if c.Issue? {
      StatementOutside(w, c.st, weathers[0]);
      IssuedStep(c, weathers);
      BodyStep(w, c, weathers);
      BodyOutside(Execute(w, c.st, weathers[0]).0, Next(c, weathers[0]), weathers[1..]);
    } else {
      BodyStops(w, c, weathers);
    }
  }

  lemma IssuedStep(c: Closure, weathers: seq<Weather>)
    requires |weathers| >= Length(c) && c.Issue?
    ensures var tr, more := Issued(c, weathers), Issued(Next(c, weathers[0]), weathers[1..]);
            && Landed(tr) == (if Lands(weathers[0]) then c.st.effect else []) + Landed(more)
            && Stray(tr) == (if weathers[0].fate.Delivered? then Stray(more) else Landed(more))
            && (Severed(tr) <==> !weathers[0].fate.Delivered? || Severed(more))
            && Ending(c, weathers) == Ending(Next(c, weathers[0]), weathers[1..])
  {
    hide Good, Lands;
    var tr := Issued(c, weathers);
    assert tr[1..] == Issued(Next(c, weathers[0]), weathers[1..]) && tr[0] == Sent(c.st.effect, weathers[0]);
    SeveredLater(tr);
    hide Severed;
  }

  lemma {:induction false} BodyInside(w: World, c: Closure, weathers: seq<Weather>, pending: seq<Write>)
    requires |weathers| >= Length(c) && InStep(w) && Inside(w, pending) && Ordinary(c)
    ensures var (w', finish) := Body(w, c, weathers);
            var tr := Issued(c, weathers);
            && InStep(w') && finish == Ending(c, weathers)
            && w'.server.committed == w.server.committed + Stray(tr)
            && (if Severed(tr) then w'.baton.None? else Inside(w', pending + Landed(tr)) && Stray(tr) == [])
    decreases c
  {
    hide Execute, InStep, Inside, KindOf, Lands, Good, Issued, Landed, Stray, Severed, Ending, Body;
    if c.Issue? {
      StatementInside(w, c.st, weathers[0], pending);
      IssuedStep(c, weathers);
      BodyStep(w, c, weathers);
      var w1 := Execute(w, c.st, weathers[0]).0;
      var next := Next(c, weathers[0]);
      if weathers[0].fate.Delivered? {
        var now := if Lands(weathers[0]) then c.st.effect else [];
        BodyInside(w1, next, weathers[1..], pending + now);
        assert pending + now + Landed(Issued(next, weathers[1..])) == pending + Landed(Issued(c, weathers));
      } else {
        BodyOutside(w1, next, weathers[1..]);
      }
    } else {
      BodyStops(w, c, weathers);
      assert pending + [] == pending && w.server.committed + [] == w.server.committed;
    }
  }

  lemma BodyStep(w: World, c: Closure, weathers: seq<Weather>)
    requires |weathers| >= Length(c) && c.Issue?
    ensures var (w', answer) := Execute(w, c.st, weathers[0]);
            (answer.Ok? <==> Good(weathers[0])) ==>
              Body(w, c, weathers) == Body(w', Next(c, weathers[0]), weathers[1..])
  {
    hide Execute, Good;
  }

  lemma BodyStops(w: World, c: Closure, weathers: seq<Weather>)
    requires c.Stop?
    ensures Body(w, c, weathers) == (w, c.finish) && Ending(c, weathers) == c.finish
    ensures var tr := Issued(c, weathers);
            Landed(tr) == [] && Stray(tr) == [] && !Severed(tr)
  {
  }

  lemma SeveredLater(tr: seq<Sent>)
    requires tr != []
    ensures Severed(tr) <==> !tr[0].weather.fate.Delivered? || Severed(tr[1..])
  {
    if Severed(tr[1..]) {
      var k :| 0 <= k < |tr[1..]| && !tr[1..][k].weather.fate.Delivered?;
      assert tr[k + 1] == tr[1..][k];
    }
    if k :| 0 < k < |tr| && !tr[k].weather.fate.Delivered? {
      assert tr[1..][k - 1] == tr[k];
    }
  }

  /** A rollback, wherever it lands, leaves no baton and commits nothing. */
  lemma RollbackCommitsNothing(w: World, weather: Weather)
    requires InStep(w)
    ensures var w' := Execute(w, ROLLBACK_TX, weather).0;
            InStep(w') && w'.baton.None? && w'.server.committed == w.server.committed
  {
    TxKinds();
    hide Execute, BatonName, KindOf, RollsBack, T;
    StatementOutcome(w, ROLLBACK_TX, weather);
    StatementKeepsStep(w, ROLLBACK_TX, weather);
  }

  /** A commit inside the transaction lands or it does not; outside it commits nothing and fails. */
  lemma CommitOutcome(w: World, weather: Weather, pending: seq<Write>)
    requires InStep(w) && (Inside(w, pending) || w.baton.None?)
    ensures var (w', answer) := Execute(w, COMMIT_TX, weather);
            && InStep(w') && w'.baton.None?
            && w'.server.committed
               == (if Lands(weather) && w.baton.Some? then w.server.committed + pending else w.server.committed)
            && (answer.Ok? <==> Good(weather) && w.baton.Some?)
  {
    TxKinds();
    hide Execute, InStep, BatonName, KindOf, RollsBack, T;
    StatementOutcome(w, COMMIT_TX, weather);
    StatementKeepsStep(w, COMMIT_TX, weather);
  }

  /** Whether the transaction's own writes are committed. */
  predicate Commits(c: Closure, f: Forecast)
    requires Covers(f, c)
  {
    !Severed(Issued(c, f.body)) && Ending(c, f.body).Returns? && Lands(f.end)
  }

  function Outcome(c: Closure, f: Forecast): TxResult
    requires Covers(f, c)
  {
    if !Good(f.begin) then BeginFailed
    else
      match Ending(c, f.body)
      case Fails => BodyFailed
      case Panics => Panicked
      case Returns => if !Severed(Issued(c, f.body)) && Good(f.end) then Done else CommitFailed
  }

  /**
   For every closure and forecast the session ends without a baton. Committed are the writes that
   landed, all of them, if every answer came and the commit landed; otherwise only those that landed
   after the first lost answer.
   */
  lemma TransactionOutcome(w: World, c: Closure, f: Forecast)
    requires InStep(w) && w.baton.None? && Covers(f, c) && Ordinary(c)
    ensures var (w', r) := Transact(w, c, f);
            var tr := Issued(c, f.body);
            && InStep(w') && w'.baton.None? && r == Outcome(c, f)
            && w'.server.committed
               == w.server.committed
                  + (if r.BeginFailed? then [] else if Commits(c, f) then Landed(tr) else Stray(tr))
  {
    hide Execute, InStep, Inside, Body, Ordinary, Issued, Landed, Stray, Severed, Lands, Good;
    BeginOpens(w, f.begin);
    var (w1, begun) := Execute(w, BEGIN_TX, f.begin);
    if begun.Ok? {
      var tr := Issued(c, f.body);
      BodyInside(w1, c, f.body, []);
      assert [] + Landed(tr) == Landed(tr);
      var (w2, finish) := Body(w1, c, f.body);
      if !finish.Returns? {
        RollbackCommitsNothing(w2, f.end);
      } else {
        InsideHolds(w2, Landed(tr));
        CommitOutcome(w2, f.end, Landed(tr));
        RollbackCommitsNothing(Execute(w2, COMMIT_TX, f.end).0, f.after);
        GoodLands(f.end);
      }
    }
  }

  lemma InsideHolds(w: World, pending: seq<Write>)
    ensures Inside(w, pending) ==> w.baton.Some?
  {
  }

  lemma GoodLands(weather: Weather)
    ensures Good(weather) ==> Lands(weather)
  {
  }

  // ---- Sessions in the pool ----

  /** One use of a pooled session: a transaction, or statements outside one. */
  datatype Use = Tx(c: Closure, f: Forecast) | Plain(stmts: seq<Statement>, weathers: seq<Weather>)

  predicate AllPlain(stmts: seq<Statement>) {
    forall i | 0 <= i < |stmts| :: KindOf(stmts[i]) == Stmt
  }

  predicate Proper(u: Use) {
    match u
    case Tx(c, f) => Covers(f, c) && Ordinary(c)
    case Plain(stmts, weathers) => |weathers| == |stmts| && AllPlain(stmts)
  }

  function AfterUse(w: World, u: Use): World
    requires Proper(u)
  {
    match u
    case Tx(c, f) => Transact(w, c, f).0
    case Plain(stmts, weathers) => RunAll(w, stmts, weathers)
  }

  lemma {:induction false} PlainKeepsIdle(w: World, stmts: seq<Statement>, weathers: seq<Weather>)
    requires |weathers| == |stmts| && AllPlain(stmts) && InStep(w) && w.baton.None?
    ensures InStep(RunAll(w, stmts, weathers)) && RunAll(w, stmts, weathers).baton.None?
    decreases |stmts|
  {
    hide InStep, Execute, KindOf;
    if stmts != [] {
      StatementOutside(w, stmts[0], weathers[0]);
      PlainKeepsIdle(Execute(w, stmts[0], weathers[0]).0, stmts[1..], weathers[1..]);
    }
  }

  ghost predicate AllProper(uses: seq<Use>) {
    forall i | 0 <= i < |uses| :: Proper(uses[i])
  }

  function AfterUses(w: World, uses: seq<Use>): World
    requires AllProper(uses)
    decreases |uses|
  {
    if uses == [] then w else AfterUses(AfterUse(w, uses[0]), uses[1..])
  }

  /** Between uses a pooled session never holds a baton, in every run, and the server refuses it nothing. */
  lemma {:induction false} IdleSessionHoldsNoBaton(w: World, uses: seq<Use>)
    requires AllProper(uses) && InStep(w) && w.baton.None?
    ensures InStep(AfterUses(w, uses)) && AfterUses(w, uses).baton.None?
    decreases |uses|
  {
    hide InStep, Transact, RunAll;
    if uses != [] {
      match uses[0] {
        case Tx(c, f) => TransactionOutcome(w, c, f);
        case Plain(stmts, weathers) => PlainKeepsIdle(w, stmts, weathers);
      }
      IdleSessionHoldsNoBaton(AfterUse(w, uses[0]), uses[1..]);
    }
  }

  // ---- When a transaction that fails leaves nothing behind ----

  lemma {:induction false} LandedIff(tr: seq<Sent>)
    ensures Landed(tr) != [] <==> exists j | 0 <= j < |tr| :: Lands(tr[j].weather) && tr[j].effect != []
  {
    hide Lands;
    if tr != [] {
      LandedIff(tr[1..]);
      if Landed(tr[1..]) != [] {
        var j :| 0 <= j < |tr[1..]| && Lands(tr[1..][j].weather) && tr[1..][j].effect != [];
        assert tr[j + 1] == tr[1..][j];
      }
      if j :| 0 < j < |tr| && Lands(tr[j].weather) && tr[j].effect != [] {
        assert tr[1..][j - 1] == tr[j];
      }
    }
  }

  /** Some answer was lost, and a statement issued after it landed and wrote. */
  predicate Leaks(tr: seq<Sent>) {
    exists i, j | 0 <= i < j < |tr| :: !tr[i].weather.fate.Delivered? && Lands(tr[j].weather) && tr[j].effect != []
  }

  lemma {:induction false} StrayIff(tr: seq<Sent>)
    ensures Stray(tr) != [] <==> Leaks(tr)
  {
    hide Lands, Landed;
    if tr != [] {
      var more := tr[1..];
      LandedIff(more);
      StrayIff(more);
      if tr[0].weather.fate.Delivered? {
        if Leaks(more) {
          var i, j :| 0 <= i < j < |more| && !more[i].weather.fate.Delivered?
                      && Lands(more[j].weather) && more[j].effect != [];
          assert tr[i + 1] == more[i] && tr[j + 1] == more[j];
        }
      } else if Landed(more) != [] {
        var j :| 0 <= j < |more| && Lands(more[j].weather) && more[j].effect != [];
        assert tr[j + 1] == more[j];
      }
      if i, j :| 0 <= i < j < |tr| && !tr[i].weather.fate.Delivered? && Lands(tr[j].weather) && tr[j].effect != [] {
        assert more[j - 1] == tr[j];
        if i > 0 {
          assert more[i - 1] == tr[i];
        }
      }
    }
  }

  lemma NothingAdded(before: seq<Write>, stray: seq<Write>)
    ensures before + stray == before <==> stray == []
  {
    assert |before + stray| == |before| + |stray|;
    assert before + [] == before;
  }

  /**
   For every closure and forecast: a transaction that does not commit leaves the data as it was if
   and only if no lost answer is followed by a statement that lands and writes.
   */
  lemma FailureLeavesNothingIff(w: World, c: Closure, f: Forecast)
    requires InStep(w) && w.baton.None? && Covers(f, c) && Ordinary(c)
    requires Good(f.begin) && !Commits(c, f)
    ensures Transact(w, c, f).0.server.committed == w.server.committed <==> !Leaks(Issued(c, f.body))
    ensures !Transact(w, c, f).1.Done?
  {
    TransactionOutcome(w, c, f);
    StrayIff(Issued(c, f.body));
    NothingAdded(w.server.committed, Stray(Issued(c, f.body)));
    GoodLands(f.end);
    hide InStep, Transact, Issued, Stray, Leaks, Ordinary, Severed;
  }

  /** All the writes along the path where nothing fails. */
  function Effect(c: Closure): seq<Write> {
    match c
    case Stop(_) => []
    case Issue(st, good, _) => st.effect + Effect(good)
  }

  lemma {:induction false} PropagatingPath(c: Closure, weathers: seq<Weather>)
    requires |weathers| >= Length(c) && Propagates(c)
    ensures var tr := Issued(c, weathers);
            && Stray(tr) == []
            && (Ending(c, weathers).Returns? ==> !Severed(tr) && Landed(tr) == Effect(c))
    decreases c
  {
    if c.Issue? {
      var tr := Issued(c, weathers);
      if Good(weathers[0]) {
        PropagatingPath(c.good, weathers[1..]);
        assert tr[1..] == Issued(c.good, weathers[1..]);
        SeveredLater(tr);
      } else {
        assert Issued(c.bad, weathers[1..]) == [] && Ending(c.bad, weathers[1..]) == c.bad.finish;
        assert tr == [Sent(c.st.effect, weathers[0])];
        assert tr[1..] == [];
      }
    }
  }

  /**
   For a closure that gives up at its first error: `Done` means that exactly its writes were
   committed, a failure before the commit that none were, and a failed commit that all were or none,
   as the commit reached the server or did not.
   */
  lemma PropagatingIsAtomic(w: World, c: Closure, f: Forecast)
    requires InStep(w) && w.baton.None? && Covers(f, c) && Ordinary(c) && Propagates(c)
    ensures var (w', r) := Transact(w, c, f);
            w'.server.committed
            == if r.Done? || (r.CommitFailed? && Lands(f.end)) then w.server.committed + Effect(c)
               else w.server.committed
  {
    TransactionOutcome(w, c, f);
    PropagatingPath(c, f.body);
    GoodLands(f.end);
    assert w.server.committed + [] == w.server.committed;
    hide InStep, Transact, Issued, Stray, Landed, Effect, Ordinary, Propagates, Severed, Lands, Good;
  }

  // ---- The program's own closures ----

  /** `consume_usage`: the update, and the read only if a row changed. */
  function ConsumeUsage(update: Statement, read: Statement, changed: bool): (c: Closure)
    ensures Length(c) <= 2
  {
    var next := if changed then Issue(read, Stop(Returns), Stop(Fails)) else Stop(Returns);
    assert Length(next) <= 1;
    Issue(update, next, Stop(Fails))
  }

  /** `reset_usage_window`. */
  function ResetUsageWindow(update: Statement): (c: Closure)
    ensures Length(c) == 1
  {
    Issue(update, Stop(Returns), Stop(Fails))
  }

  /** `create_account`: the user, then the credentials. */
  function CreateAccount(user: Statement, auth: Statement): (c: Closure)
    ensures Length(c) == 2
  {
    var next := Issue(auth, Stop(Returns), Stop(Fails));
    assert Length(next) == 1;
    Issue(user, next, Stop(Fails))
  }

  lemma ReturnsAtOnce()
    ensures var c := Stop(Returns);
            Ordinary(c) && Propagates(c) && Effect(c) == [] && Length(c) == 0
  {
  }

  /** A statement with `?` after it, and then the rest. */
  lemma OrGivesUp(st: Statement, next: Closure)
    requires KindOf(st) == Stmt && Ordinary(next) && Propagates(next)
    ensures var c := Issue(st, next, Stop(Fails));
            Ordinary(c) && Propagates(c) && Effect(c) == st.effect + Effect(next) && Length(c) == 1 + Length(next)
  {
    assert Ordinary(Stop(Fails)) && Length(Stop(Fails)) == 0;
    hide KindOf;
  }

  /** What `transaction` promises of a closure whose writes are `effect`. */
  ghost predicate AllOrNothing(w: World, c: Closure, f: Forecast, effect: seq<Write>)
    requires Covers(f, c)
  {
    var (w', r) := Transact(w, c, f);
    && (r.Done? ==> w'.server.committed == w.server.committed + effect)
    && (w'.server.committed == w.server.committed || w'.server.committed == w.server.committed + effect)
  }

  lemma PropagatingIsWhole(w: World, c: Closure, f: Forecast)
    requires InStep(w) && w.baton.None? && Covers(f, c) && Ordinary(c) && Propagates(c)
    ensures AllOrNothing(w, c, f, Effect(c))
  {
    PropagatingIsAtomic(w, c, f);
    hide InStep, Transact, Effect, Ordinary, Propagates, Lands;
  }

  /** An account is created with its credentials or not at all, whatever is lost. */
  lemma AccountIsWhole(w: World, user: Statement, auth: Statement, f: Forecast)
    requires InStep(w) && w.baton.None? && |f.body| >= 2 && KindOf(user) == Stmt && KindOf(auth) == Stmt
    ensures AllOrNothing(w, CreateAccount(user, auth), f, user.effect + auth.effect)
  {
    ReturnsAtOnce();
    OrGivesUp(auth, Stop(Returns));
    OrGivesUp(user, Issue(auth, Stop(Returns), Stop(Fails)));
    assert auth.effect + [] == auth.effect;
    PropagatingIsWhole(w, CreateAccount(user, auth), f);
    hide InStep, KindOf, AllOrNothing, Ordinary, Propagates, Effect, Length;
  }

  /** A reset of the usage window happens whole or not at all. */
  lemma ResetIsWhole(w: World, update: Statement, f: Forecast)
    requires InStep(w) && w.baton.None? && |f.body| >= 1 && KindOf(update) == Stmt
    ensures AllOrNothing(w, ResetUsageWindow(update), f, update.effect)
  {
    ReturnsAtOnce();
    OrGivesUp(update, Stop(Returns));
    assert update.effect + [] == update.effect;
    PropagatingIsWhole(w, ResetUsageWindow(update), f);
    hide InStep, KindOf, AllOrNothing, Ordinary, Propagates, Effect, Length;
  }

  /** So does the use of one unit, whether or not a row changed. */
  lemma ConsumeIsWhole(w: World, update: Statement, read: Statement, changed: bool, f: Forecast)
    requires InStep(w) && w.baton.None? && |f.body| >= 2
    requires KindOf(update) == Stmt && KindOf(read) == Stmt && read.effect == []
    ensures AllOrNothing(w, ConsumeUsage(update, read, changed), f, update.effect)
  {
    ReturnsAtOnce();
    OrGivesUp(read, Stop(Returns));
    OrGivesUp(update, if changed then Issue(read, Stop(Returns), Stop(Fails)) else Stop(Returns));
    assert update.effect + ([] + []) == update.effect && update.effect + [] == update.effect;
    PropagatingIsWhole(w, ConsumeUsage(update, read, changed), f);
    hide InStep, KindOf, AllOrNothing, Ordinary, Propagates, Effect, Length;
  }
}
