/** The Hrana client and its single-use batons (`backend/src/hrana.rs`). */
module Hrana {
  import opened Bits
  import opened Lists
  import opened Outcomes
  import opened Utf8
  import opened Json

  /** An ASCII string as text. */
  function T(s: string): (t: Text)
    ensures |t| == |s|
  {
    seq(|s|, i requires 0 <= i < |s| => s[i] as int)
  }

  // ---- Kinds of statement ----

  datatype Kind = Begin | End | Stmt

  function Upper(c: Scalar): Scalar {
    if 0x61 <= c <= 0x7A then c - 0x20 else c
  }

  function Uppercase(t: Text): (u: Text)
    ensures |u| == |t|
  {
    seq(|t|, i requires 0 <= i < |t| => Upper(t[i]))
  }

  const BEGIN: Text := T("BEGIN")
  const COMMIT: Text := T("COMMIT")
  const ROLLBACK: Text := T("ROLLBACK")

  /** `statement_kind`: only the first eight characters are looked at. */
  function StatementKind(sql: Text): Kind {
    var trimmed := TrimStart(sql);
    var head := Uppercase(if |trimmed| > 8 then trimmed[..8] else trimmed);
    if BEGIN <= head then Begin
    else if COMMIT <= head || ROLLBACK <= head then End
    else Stmt
  }

  lemma HeadDecides(t: Text, word: Text)
    requires |word| <= 8
    ensures word <= Uppercase(if |t| > 8 then t[..8] else t) <==> word <= Uppercase(t)
  {
    var head := if |t| > 8 then t[..8] else t;
    if word <= Uppercase(t) {
      forall i | 0 <= i < |word|
        ensures Uppercase(head)[i] == word[i]
      {
        assert Uppercase(t)[i] == word[i];
      }
    }
    if word <= Uppercase(head) {
      forall i | 0 <= i < |word|
        ensures Uppercase(t)[i] == word[i]
      {
        assert Uppercase(head)[i] == word[i];
      }
    }
  }

  /** Eight characters are enough: the kind is that of the whole statement, in any case and after any space. */
  lemma KindIsByKeyword(sql: Text)
    ensures StatementKind(sql) == Begin <==> T("BEGIN") <= Uppercase(TrimStart(sql))
    ensures StatementKind(sql) == End <==>
      T("COMMIT") <= Uppercase(TrimStart(sql)) || T("ROLLBACK") <= Uppercase(TrimStart(sql))
  {
    var t := TrimStart(sql);
    HeadDecides(t, BEGIN);
    HeadDecides(t, COMMIT);
    HeadDecides(t, ROLLBACK);
    assert BEGIN[0] == 0x42 && COMMIT[0] == 0x43 && ROLLBACK[0] == 0x52;
    hide T;
  }

  // ---- Documents ----

  function Find(ms: seq<Member>, key: Text): Option<Json> {
    if ms == [] then None
    else if ms[0].key == key then Some(ms[0].value)
    else Find(ms[1..], key)
  }

  /** In an object as a map lists it, a key has exactly one value. */
  lemma {:induction false} FindIs(ms: seq<Member>, key: Text, value: Json)
    requires Increasing(ms)
    ensures Find(ms, key) == Some(value) <==> Member(key, value) in ms
  {
    if ms != [] {
      var rest := ms[1..];
      assert ms == [ms[0]] + rest;
      forall i, j {:trigger Less(rest[i].key, rest[j].key)} | 0 <= i < j < |rest|
        ensures Less(rest[i].key, rest[j].key)
      {
        assert Less(ms[i + 1].key, ms[j + 1].key);
      }
      FindIs(rest, key, value);
      if Member(key, value) in rest {
        var j :| 0 <= j < |rest| && rest[j] == Member(key, value);
        assert Less(ms[0].key, ms[j + 1].key);
        OrderIsStrict(ms[0].key, key);
      }
    }
  }

  /** `Json::get`. */
  function Get(doc: Json, key: Text): Option<Json> {
    match doc case Obj(ms) => Find(ms, key) case _ => None
  }

  function GetText(doc: Json, key: Text): Option<Text> {
    match Get(doc, key) case Some(Str(t)) => Some(t) case _ => None
  }

  function GetArr(doc: Json, key: Text): Option<seq<Json>> {
    match Get(doc, key) case Some(Arr(items)) => Some(items) case _ => None
  }

  function GetObj(doc: Json, key: Text): Option<Json> {
    match Get(doc, key) case Some(Obj(ms)) => Some(Obj(ms)) case _ => None
  }

  const TYPE: Text := T("type")
  const ERROR: Text := T("error")
  const MESSAGE: Text := T("message")
  const RESULTS: Text := T("results")
  const RESULT: Text := T("result")
  const RESPONSE: Text := T("response")
  const EXECUTE: Text := T("execute")
  const OK: Text := T("ok")
  const BATON: Text := T("baton")

  /** An error item's message. */
  function ErrorMessage(item: Json): Text {
    match GetObj(item, ERROR)
    case None => T("hrana error")
    case Some(e) => match GetText(e, MESSAGE) case None => T("hrana error") case Some(m) => m
  }

  function FirstErrorIn(items: seq<Json>): Option<Text> {
    if items == [] || !items[0].Obj? then None
    else if GetText(items[0], TYPE) == Some(ERROR) then Some(ErrorMessage(items[0]))
    else FirstErrorIn(items[1..])
  }

  /** `first_error`: an item that is not an object ends the search. */
  function FirstError(doc: Json): Option<Text> {
    match GetArr(doc, RESULTS) case None => None case Some(items) => FirstErrorIn(items)
  }

  /** The `result` object of the first executed statement, if there is one. */
  function FirstExecuteIn(items: seq<Json>): Result<Option<Json>, Text> {
    if items == [] then Ok(None)
    else
      var response := if GetText(items[0], TYPE) == Some(OK) then GetObj(items[0], RESPONSE) else None;
      if response.None? || GetText(response.value, TYPE) != Some(EXECUTE) then FirstExecuteIn(items[1..])
      else
        match GetObj(response.value, RESULT)
        case None => Err(T("hrana execute missing result"))
        case Some(result) => Ok(Some(result))
  }

  /** `first_execute`, its rows left as they came. */
  function FirstExecute(doc: Json): Result<Option<Json>, Text> {
    match GetArr(doc, RESULTS)
    case None => Err(T("hrana response missing results"))
    case Some(items) => FirstExecuteIn(items)
  }

  /** `next_baton`. */
  function NextBaton(kind: Kind, close: bool, response: Option<Json>, failed: bool): Option<Text> {
    if close || kind == End then None
    else if kind == Begin && failed then None
    else match response case None => None case Some(doc) => GetText(doc, BATON)
  }

  // ---- One statement, seen by the client ----

  datatype Failure = Transport | Remote(message: Text)

  type Answer = Result<Option<Json>, Failure>

  function Closes(kind: Kind, baton: Option<Text>): bool {
    kind == End || (kind == Stmt && baton.None?)
  }

  /** The baton kept and the answer given, once the response is in or is not coming. */
  function Settle(kind: Kind, close: bool, response: Option<Json>): (Option<Text>, Answer) {
    var error := match response case None => None case Some(doc) => FirstError(doc);
    var next := NextBaton(kind, close, response, error.Some?);
    match response
    case None => (next, Err(Transport))
    case Some(doc) =>
      if error.Some? then (next, Err(Remote(error.value)))
      else
        match FirstExecute(doc)
        case Err(m) => (next, Err(Remote(m)))
        case Ok(outcome) =>
          if kind == Begin && next.None? then (next, Err(Remote(T("hrana BEGIN did not return a baton"))))
          else (next, Ok(outcome))
  }

  predicate IsError(item: Json) {
    item.Obj? && GetText(item, TYPE) == Some(ERROR)
  }

  /** An item that reports the outcome of an executed statement. */
  predicate IsExecuted(item: Json) {
    && GetText(item, TYPE) == Some(OK) && GetObj(item, RESPONSE).Some?
    && GetText(GetObj(item, RESPONSE).value, TYPE) == Some(EXECUTE)
  }

  /** What an executed item carries. */
  function Carried(item: Json): Option<Json>
    requires IsExecuted(item)
  {
    GetObj(GetObj(item, RESPONSE).value, RESULT)
  }

  /** Item `k` is the first error, with nothing but objects before it. */
  predicate FirstErrorAt(items: seq<Json>, k: nat) {
    k < |items| && IsError(items[k]) && forall j | 0 <= j < k :: items[j].Obj? && !IsError(items[j])
  }

  /** Item `k` is the first executed one. */
  predicate FirstExecutedAt(items: seq<Json>, k: nat) {
    k < |items| && IsExecuted(items[k]) && forall j | 0 <= j < k :: !IsExecuted(items[j])
  }

  /** Among the results, with nothing but objects before it, is an error. */
  ghost predicate ReportsError(doc: Json) {
    GetArr(doc, RESULTS).Some? && exists k: nat :: FirstErrorAt(GetArr(doc, RESULTS).value, k)
  }

  /** There is no list of results, or the first executed statement in it has no `result` object. */
  ghost predicate Unreadable(doc: Json) {
    || GetArr(doc, RESULTS).None?
    || var items := GetArr(doc, RESULTS).value;
       exists k: nat :: FirstExecutedAt(items, k) && Carried(items[k]).None?
  }

  lemma FirstErrorShifts(items: seq<Json>, k: nat)
    requires items != [] && items[0].Obj? && !IsError(items[0])
    ensures FirstErrorAt(items, k) <==> k > 0 && FirstErrorAt(items[1..], k - 1)
  {
    var rest := items[1..];
    hide IsError;
    if k > 0 && FirstErrorAt(rest, k - 1) {
      forall j | 0 <= j < k
        ensures items[j].Obj? && !IsError(items[j])
      {
        assert j > 0 ==> items[j] == rest[j - 1];
      }
    }
    if k > 0 && FirstErrorAt(items, k) {
      assert forall j | 0 <= j < k - 1 :: rest[j] == items[j + 1];
    }
  }

  /** The message found is that of the first error, and none is found if there is no error to find. */
  lemma {:induction false} FirstErrorIs(items: seq<Json>, message: Text)
    ensures FirstErrorIn(items) == Some(message)
       <==> exists k: nat :: FirstErrorAt(items, k) && ErrorMessage(items[k]) == message
    ensures FirstErrorIn(items).None? <==> !exists k: nat :: FirstErrorAt(items, k)
  {
    if items == [] || !items[0].Obj? {
      assert forall k: nat :: !FirstErrorAt(items, k);
    } else if IsError(items[0]) {
      assert FirstErrorAt(items, 0);
      assert forall k: nat :: FirstErrorAt(items, k) ==> k == 0;
    } else {
      var rest := items[1..];
      FirstErrorIs(rest, message);
      forall k: nat
        ensures FirstErrorAt(items, k) <==> k > 0 && FirstErrorAt(rest, k - 1)
      {
        FirstErrorShifts(items, k);
      }
      hide FirstErrorAt, ErrorMessage;
      if k: nat :| FirstErrorAt(rest, k) {
        assert FirstErrorAt(items, k + 1) && items[k + 1] == rest[k];
      }
    }
    hide GetText, ErrorMessage, IsError;
  }

  lemma FirstExecutedShifts(items: seq<Json>, k: nat)
    requires items != [] && !IsExecuted(items[0])
    ensures FirstExecutedAt(items, k) <==> k > 0 && FirstExecutedAt(items[1..], k - 1)
  {
    var rest := items[1..];
    hide IsExecuted;
    if k > 0 && FirstExecutedAt(rest, k - 1) {
      forall j | 0 <= j < k
        ensures !IsExecuted(items[j])
      {
        assert j > 0 ==> items[j] == rest[j - 1];
      }
    }
    if k > 0 && FirstExecutedAt(items, k) {
      assert forall j | 0 <= j < k - 1 :: rest[j] == items[j + 1];
    }
  }

  /** What is found is what the first executed item carries, and nothing only if no item is executed. */
  lemma {:induction false} FirstExecuteIs(items: seq<Json>, result: Json)
    ensures FirstExecuteIn(items) == Ok(Some(result))
       <==> exists k: nat :: FirstExecutedAt(items, k) && Carried(items[k]) == Some(result)
    ensures FirstExecuteIn(items) == Ok(None) <==> forall item | item in items :: !IsExecuted(item)
    ensures FirstExecuteIn(items).Err? <==> exists k: nat :: FirstExecutedAt(items, k) && Carried(items[k]).None?
  {
    if items == [] {
      assert forall k: nat :: !FirstExecutedAt(items, k);
    } else if IsExecuted(items[0]) {
      assert items[0] in items && FirstExecutedAt(items, 0);
      assert forall k: nat :: FirstExecutedAt(items, k) ==> k == 0;
    } else {
      var rest := items[1..];
      FirstExecuteIs(rest, result);
      assert FirstExecuteIn(items) == FirstExecuteIn(rest);
      hide FirstExecuteIn;
      assert forall item :: item in items <==> item == items[0] || item in rest;
      forall k: nat
        ensures FirstExecutedAt(items, k) <==> k > 0 && FirstExecutedAt(rest, k - 1)
      {
        FirstExecutedShifts(items, k);
      }
      hide FirstExecutedAt, Carried, IsExecuted;
      if k: nat :| FirstExecutedAt(rest, k) {
        assert FirstExecutedAt(items, k + 1) && items[k + 1] == rest[k];
      }
    }
    hide GetText, GetObj, T;
  }

  /**
   A failed `BEGIN` leaves a baton behind exactly when the reply carries one, reports no error, and
   yet cannot be read: it lists no results, or an executed statement without its `result`.
   */
  lemma FailedBeginKeepsBatonIff(response: Option<Json>)
    ensures var (next, answer) := Settle(Begin, false, response);
            answer.Err? && next.Some? <==>
              && response.Some? && GetText(response.value, BATON).Some?
              && !ReportsError(response.value) && Unreadable(response.value)
  {
    if response.Some? && GetArr(response.value, RESULTS).Some? {
      FirstErrorIs(GetArr(response.value, RESULTS).value, []);
      FirstExecuteIs(GetArr(response.value, RESULTS).value, Null);
    }
    hide GetText, GetObj, GetArr, FirstErrorIn, FirstExecuteIn, FirstErrorAt, FirstExecutedAt, Carried, T;
  }

  /** The statement's result is what the first executed item carries; with no such item there is none. */
  ghost predicate IsOutcome(doc: Json, outcome: Option<Json>) {
    && GetArr(doc, RESULTS).Some?
    && var items := GetArr(doc, RESULTS).value;
    match outcome
    case None => forall item | item in items :: !IsExecuted(item)
    case Some(result) => exists k: nat :: FirstExecutedAt(items, k) && Carried(items[k]) == Some(result)
  }

  /**
   Of every reply: an answer is good exactly if a reply came, reports no error, has the outcome answered,
   and carries a baton if one has to be kept; a reported error is answered with its own message; and the
   baton kept is the one the reply carries, unless the stream is over or never began.
   */
  lemma AnswerIs(kind: Kind, close: bool, response: Option<Json>, outcome: Option<Json>)
    ensures var (next, answer) := Settle(kind, close, response);
            && (answer == Ok(outcome) <==>
                  && response.Some? && !ReportsError(response.value) && IsOutcome(response.value, outcome)
                  && (kind == Begin && !close ==> GetText(response.value, BATON).Some?)
                  && !(kind == Begin && close))
            && next == (if response.None? || close || kind == End || (kind == Begin && ReportsError(response.value))
                        then None else GetText(response.value, BATON))
            && (response.None? <==> answer == Err(Transport))
            && (response.Some? && ReportsError(response.value) ==>
                  var items := GetArr(response.value, RESULTS).value;
                  exists k: nat :: FirstErrorAt(items, k) && answer == Err(Remote(ErrorMessage(items[k]))))
  {
    if response.Some? {
      OutcomeIs(response.value, outcome);
      ReportedIs(response.value);
    }
    hide GetText, GetArr, FirstError, FirstExecute, ReportsError, IsOutcome, FirstErrorAt, ErrorMessage, T;
  }

  lemma OutcomeIs(doc: Json, outcome: Option<Json>)
    ensures FirstExecute(doc) == Ok(outcome) <==> IsOutcome(doc, outcome)
  {
    if GetArr(doc, RESULTS).Some? {
      FirstExecuteIs(GetArr(doc, RESULTS).value, if outcome.Some? then outcome.value else Null);
    }
    hide GetArr, FirstExecuteIn, FirstExecutedAt, Carried, IsExecuted, T;
  }

  lemma ReportedIs(doc: Json)
    ensures FirstError(doc).Some? <==> ReportsError(doc)
    ensures ReportsError(doc) ==>
              var items := GetArr(doc, RESULTS).value;
              exists k: nat :: FirstErrorAt(items, k) && FirstError(doc) == Some(ErrorMessage(items[k]))
  {
    if GetArr(doc, RESULTS).Some? {
      var found := FirstErrorIn(GetArr(doc, RESULTS).value);
      FirstErrorIs(GetArr(doc, RESULTS).value, if found.Some? then found.value else []);
    }
    hide GetArr, FirstErrorIn, FirstErrorAt, ErrorMessage, T;
  }

  /** Such a reply: a baton and nothing else. */
  lemma BatonWithoutResults(baton: Text)
    ensures var doc := Obj([Member(BATON, Str(baton))]);
            var (next, answer) := Settle(Begin, false, Some(doc));
            next == Some(baton) && answer.Err?
  {
    var ms := [Member(BATON, Str(baton))];
    assert Find(ms, BATON) == Some(Str(baton));
    assert BATON != RESULTS by {
      assert |BATON| == 5 && |RESULTS| == 7;
    }
    assert Find(ms[1..], RESULTS) == None;
    assert Find(ms, RESULTS) == None;
  }

  // ---- The server ----

  type Write = nat

  /** A live stream: the baton it expects next, and the writes of its open transaction. */
  datatype Stream = Stream(baton: Text, tx: Option<seq<Write>>)

  datatype Server = Server(live: Option<Stream>, issued: nat, committed: seq<Write>)

  datatype Request = Request(baton: Option<Text>, kind: Kind, rollback: bool, effect: seq<Write>, close: bool)

  /** What running one statement does to a stream's transaction and to the data. */
  datatype Effects = Effects(failed: bool, tx: Option<seq<Write>>, committed: seq<Write>)

  /** The statement runs, or fails for reasons of its own (`busy`, a constraint). */
  function Perform(tx: Option<seq<Write>>, committed: seq<Write>, r: Request, fails: bool): Effects {
    if fails then Effects(true, tx, committed)
    else
      match r.kind
      case Begin => if tx.Some? then Effects(true, tx, committed) else Effects(false, Some([]), committed)
      case End =>
        if tx.None? then Effects(true, tx, committed)
        else Effects(false, None, if r.rollback then committed else committed + tx.value)
      case Stmt =>
        match tx
        case Some(pending) => Effects(false, Some(pending + r.effect), committed)
        case None => Effects(false, None, committed + r.effect)
  }

  function Digits(n: nat): Text {
    if n < 10 then [0x30 + n] else Digits(n / 10) + [0x30 + n % 10]
  }

  function BatonName(n: nat): Text {
    [0x62] + Digits(n)
  }

  lemma {:induction false} DigitsDiffer(m: nat, n: nat)
    requires Digits(m) == Digits(n)
    ensures m == n
  {
    assert m < 10 <==> |Digits(m)| == 1;
    assert n < 10 <==> |Digits(n)| == 1;
    if m >= 10 {
      var s := Digits(m);
      assert s[..|s| - 1] == Digits(m / 10) == Digits(n / 10);
      assert s[|s| - 1] == 0x30 + m % 10 == 0x30 + n % 10;
      DigitsDiffer(m / 10, n / 10);
    }
  }

  lemma BatonsDiffer(m: nat, n: nat)
    requires BatonName(m) == BatonName(n)
    ensures m == n
  {
    assert BatonName(m)[1..] == Digits(m) && BatonName(n)[1..] == Digits(n);
    DigitsDiffer(m, n);
  }

  function ErrorItem(message: Text): Json {
    Obj([Member(ERROR, Obj([Member(MESSAGE, Str(message))])), Member(TYPE, Str(ERROR))])
  }

  function OkItem(result: seq<Member>): Json {
    Obj([Member(RESPONSE, Obj([Member(RESULT, Obj(result)), Member(TYPE, Str(EXECUTE))])), Member(TYPE, Str(OK))])
  }

  /** What the database makes of a statement: it may fail, with a message, or have a result. */
  datatype Verdict = Verdict(fails: bool, message: Text, result: seq<Member>)

  /** A 200 reply. */
  function ReplyDoc(baton: Option<Text>, failed: bool, v: Verdict): Json {
    Obj([Member(BATON, match baton case None => Null case Some(b) => Str(b)),
         Member(RESULTS, Arr([if failed then ErrorItem(v.message) else OkItem(v.result)]))])
  }

  /** The server refuses a baton it does not expect. */
  predicate Refuses(s: Server, baton: Option<Text>) {
    baton.Some? && (s.live.None? || s.live.value.baton != baton.value)
  }

  /**
   The single-use-baton server. A request without a baton starts a stream, and the stream it
   displaces loses its transaction, as an idle stream does when it expires.
   */
  function Handle(s: Server, r: Request, v: Verdict): (Server, Option<Json>) {
    if Refuses(s, r.baton) then (s, None)
    else
      var tx := if r.baton.Some? then s.live.value.tx else None;
      var e := Perform(tx, s.committed, r, v.fails);
      if r.close then (Server(None, s.issued, e.committed), Some(ReplyDoc(None, e.failed, v)))
      else
        var b := BatonName(s.issued);
        (Server(Some(Stream(b, e.tx)), s.issued + 1, e.committed), Some(ReplyDoc(Some(b), e.failed, v)))
  }

  lemma FindSecond(a: Member, b: Member)
    requires a.key != b.key
    ensures Find([a, b], b.key) == Some(b.value) && Find([a, b], a.key) == Some(a.value)
  {
    assert [a, b][1..] == [b];
  }

  lemma KeysDiffer()
    ensures BATON != RESULTS && ERROR != TYPE && RESPONSE != TYPE && RESULT != TYPE && OK != ERROR
  {
    assert |BATON| == 5 && |RESULTS| == 7 && |ERROR| == 5 && |TYPE| == 4;
    assert |RESPONSE| == 8 && |RESULT| == 6 && |OK| == 2;
  }

  /** A reply means what it says: its baton, the error and its message, or the result. */
  lemma ReplyReads(baton: Option<Text>, failed: bool, v: Verdict)
    ensures var doc := ReplyDoc(baton, failed, v);
            && GetText(doc, BATON) == baton
            && FirstError(doc) == (if failed then Some(v.message) else None)
            && (!failed ==> FirstExecute(doc) == Ok(Some(Obj(v.result))))
  {
    KeysDiffer();
    FindSecond(ReplyDoc(baton, failed, v).members[0], ReplyDoc(baton, failed, v).members[1]);
    ItemReads(failed, v);
    hide T, FirstErrorIn, FirstExecuteIn, Find, ErrorItem, OkItem;
  }

  lemma ItemReads(failed: bool, v: Verdict)
    ensures var items := [if failed then ErrorItem(v.message) else OkItem(v.result)];
            && FirstErrorIn(items) == (if failed then Some(v.message) else None)
            && (!failed ==> FirstExecuteIn(items) == Ok(Some(Obj(v.result))))
  {
    KeysDiffer();
    var error, ok := ErrorItem(v.message), OkItem(v.result);
    FindSecond(error.members[0], error.members[1]);
    FindSecond(ok.members[0], ok.members[1]);
    var response := ok.members[0].value;
    FindSecond(response.members[0], response.members[1]);
    assert GetText(error.members[0].value, MESSAGE) == Some(v.message);
    hide T, Find;
    var items := [if failed then error else ok];
    assert items[1..] == [];
  }

  // ---- One statement, end to end ----

  /** What the network does to one request. */
  datatype Fate = Delivered | RequestLost | ResponseLost

  /** Everything outside the client's control in one statement. */
  datatype Weather = Weather(fate: Fate, verdict: Verdict)

  /** A statement: its text, and what it writes if it is an ordinary one. */
  datatype Statement = Statement(sql: Text, effect: seq<Write>)

  function KindOf(st: Statement): Kind {
    StatementKind(st.sql)
  }

  predicate RollsBack(st: Statement) {
    ROLLBACK <= Uppercase(TrimStart(st.sql))
  }

  /** The session's baton, the server, and every baton sent so far. */
  datatype World = World(baton: Option<Text>, server: Server, sent: seq<Text>, refused: bool)

  function RequestOf(w: World, st: Statement): Request {
    Request(w.baton, KindOf(st), RollsBack(st), st.effect, Closes(KindOf(st), w.baton))
  }

  /** `Session::execute` against the server; a refusal is an HTTP error, so no document. */
  function Execute(w: World, st: Statement, weather: Weather): (World, Answer) {
    var r := RequestOf(w, st);
    var sent := if w.baton.Some? then w.sent + [w.baton.value] else w.sent;
    var (server, reply) := if weather.fate.RequestLost? then (w.server, None)
                           else Handle(w.server, r, weather.verdict);
    var (next, answer) := Settle(KindOf(st), r.close, if weather.fate.Delivered? then reply else None);
    (World(next, server, sent, w.refused || (!weather.fate.RequestLost? && Refuses(w.server, r.baton))), answer)
  }

  /** `Session::drop` sends a request that only closes the stream, and ignores what comes back. */
  function DropSession(w: World, fate: Fate): World {
    if w.baton.None? then w
    else
      var refused := !fate.RequestLost? && Refuses(w.server, w.baton);
      World(None, if fate.RequestLost? || refused then w.server else w.server.(live := None),
            w.sent + [w.baton.value], w.refused || refused)
  }

  class Session {
    var baton: Option<Text>

    constructor ()
      ensures baton == None
    {
      baton := None;
    }

    /** `execute`; the reply arrives or it does not. */
    method Run(st: Statement, server: SingleUseServer, weather: Weather) returns (answer: Answer)
      modifies this, server
      ensures (World(baton, server.state, server.sent, server.refused), answer)
           == Execute(World(old(baton), old(server.state), old(server.sent), old(server.refused)), st, weather)
    {
      hide Handle, Settle, StatementKind, RollsBack;
      var kind := StatementKind(st.sql);
      var held := baton;
      var close := match kind case Begin => false case End => true case Stmt => held.None?;
      server.Note(held);
      var response: Option<Json> := None;
      if !weather.fate.RequestLost? {
        var reply := server.Serve(Request(held, kind, RollsBack(st), st.effect, close), weather.verdict);
        if weather.fate.Delivered? {
          response := reply;
        }
      }
      answer := Conclude(kind, close, response);
    }

    /** `drop`. */
    method Close(server: SingleUseServer, fate: Fate)
      modifies this, server
      ensures World(baton, server.state, server.sent, server.refused)
           == DropSession(World(old(baton), old(server.state), old(server.sent), old(server.refused)), fate)
      ensures baton == None
      ensures server.sent == if old(baton).Some? then old(server.sent) + [old(baton).value] else old(server.sent)
      ensures server.state == if fate.RequestLost? || old(baton).None? || Refuses(old(server.state), old(baton))
                              then old(server.state) else Server(None, old(server.state).issued,
                                                                 old(server.state).committed)
    {
      var held := baton;
      baton := None;
      if held.Some? {
        server.Note(held);
        if !fate.RequestLost? {
          server.ServeClose(held.value);
        }
      }
    }

    /** The rest of `execute`: the baton to keep, then the answer. */
    method Conclude(kind: Kind, close: bool, response: Option<Json>) returns (answer: Answer)
      modifies this
      ensures (baton, answer) == Settle(kind, close, response)
    {
      hide FirstError, FirstExecute, NextBaton, T;
      var error := if response.Some? then FirstError(response.value) else None;
      baton := NextBaton(kind, close, response, error.Some?);
      if response.None? {
        return Err(Transport);
      }
      if error.Some? {
        return Err(Remote(error.value));
      }
      var outcome := FirstExecute(response.value);
      if outcome.Err? {
        return Err(Remote(outcome.error));
      }
      if kind == Begin && baton.None? {
        return Err(Remote(T("hrana BEGIN did not return a baton")));
      }
      return Ok(outcome.value);
    }
  }

  class SingleUseServer {
    var state: Server
    var refused: bool
    /** The batons that clients put in requests, arrived or not. */
    ghost var sent: seq<Text>

    ghost method Note(baton: Option<Text>)
      modifies this`sent
      ensures sent == if baton.Some? then old(sent) + [baton.value] else old(sent)
    {
      if baton.Some? {
        sent := sent + [baton.value];
      }
    }

    method Serve(r: Request, v: Verdict) returns (reply: Option<Json>)
      modifies this`state, this`refused
      ensures (state, reply) == Handle(old(state), r, v)
      ensures refused == (old(refused) || Refuses(old(state), r.baton))
    {
      refused := refused || Refuses(state, r.baton);
      var (next, doc) := Handle(state, r, v);
      state := next;
      reply := doc;
    }

    method ServeClose(baton: Text)
      modifies this`state, this`refused
      ensures state == if Refuses(old(state), Some(baton)) then old(state) else old(state).(live := None)
      ensures refused == (old(refused) || Refuses(old(state), Some(baton)))
    {
      if Refuses(state, Some(baton)) {
        refused := true;
      } else {
        state := state.(live := None);
      }
    }
  }

  // ---- What every run keeps ----

  /** The baton was issued, and `n` names its place in the order. */
  ghost predicate Issued(s: Server, b: Text, n: nat) {
    n < s.issued && b == BatonName(n)
  }

  /** The client's baton is the one the live stream expects, and it has never been sent. */
  ghost predicate InStep(w: World) {
    && (w.server.live.Some? ==> exists n :: Issued(w.server, w.server.live.value.baton, n))
    && (forall b | b in w.sent :: exists n :: Issued(w.server, b, n))
    && (w.baton.Some? ==>
          && w.server.live.Some? && w.server.live.value.baton == w.baton.value
          && w.baton.value !in w.sent)
    && Distinct(w.sent) && !w.refused
  }

  /** A new session on a server that has issued nothing yet. */
  function Fresh(committed: seq<Write>): World {
    World(None, Server(None, 0, committed), [], false)
  }

  lemma FreshInStep(committed: seq<Write>)
    ensures InStep(Fresh(committed))
  {
  }

  lemma FreshBaton(s: Server, b: Text)
    requires exists n :: Issued(s, b, n)
    ensures b != BatonName(s.issued)
  {
    var n :| Issued(s, b, n);
    if b == BatonName(s.issued) {
      BatonsDiffer(n, s.issued);
    }
  }

  lemma StillIssued(s: Server, t: Server, b: Text)
    requires (exists n :: Issued(s, b, n)) && s.issued <= t.issued
    ensures exists n :: Issued(t, b, n)
  {
    var n :| Issued(s, b, n);
    assert Issued(t, b, n);
  }

  lemma SentKeeps(w: World, t: Server, sent: seq<Text>)
    requires InStep(w) && w.server.issued <= t.issued
    requires sent == if w.baton.Some? then w.sent + [w.baton.value] else w.sent
    ensures Distinct(sent) && forall b | b in sent :: exists n :: Issued(t, b, n)
    ensures forall b | b in sent :: b != BatonName(w.server.issued)
  {
    forall b | b in sent
      ensures (exists n :: Issued(t, b, n)) && b != BatonName(w.server.issued)
    {
      StillIssued(w.server, t, b);
      FreshBaton(w.server, b);
    }
  }

  /** One statement keeps client and server in step, whatever the network does. */
  lemma StatementKeepsStep(w: World, st: Statement, weather: Weather)
    requires InStep(w)
    ensures InStep(Execute(w, st, weather).0)
  {
    var r := RequestOf(w, st);
    var w' := Execute(w, st, weather).0;
    assert !Refuses(w.server, r.baton);
    SentKeeps(w, w'.server, w'.sent);
    if weather.fate.RequestLost? {
      assert w'.baton == None;
    } else {
      HandledInStep(w, r, weather.verdict);
      ReplyReads(if r.close then None else Some(BatonName(w.server.issued)),
                 Performed(w, st, weather.verdict.fails).failed, weather.verdict);
    }
  }

  lemma HandledInStep(w: World, r: Request, v: Verdict)
    requires !Refuses(w.server, r.baton)
    ensures var s := Handle(w.server, r, v).0;
            && s.issued >= w.server.issued
            && (s.live.Some? ==>
                  s.live.value.baton == BatonName(w.server.issued) && Issued(s, s.live.value.baton, w.server.issued))
  {
  }

  /** What the server does with an accepted request. */
  function Performed(w: World, st: Statement, fails: bool): Effects
    requires w.baton.Some? ==> w.server.live.Some?
  {
    Perform(if w.baton.Some? then w.server.live.value.tx else None, w.server.committed, RequestOf(w, st), fails)
  }

  /** One statement in step: what the server has, the baton the client keeps, and when the answer is good. */
  lemma StatementOutcome(w: World, st: Statement, weather: Weather)
    requires InStep(w)
    ensures var (w', answer) := Execute(w, st, weather);
            var e := Performed(w, st, weather.verdict.fails);
            var ends := KindOf(st) == End || (KindOf(st) == Stmt && w.baton.None?);
            var issued := BatonName(w.server.issued);
            && w'.server == (if weather.fate.RequestLost? then w.server
                             else if ends then Server(None, w.server.issued, e.committed)
                             else Server(Some(Stream(issued, e.tx)), w.server.issued + 1, e.committed))
            && answer == (if !weather.fate.Delivered? then Err(Transport)
                          else if e.failed then Err(Remote(weather.verdict.message))
                          else Ok(Some(Obj(weather.verdict.result))))
            && w'.baton == (if !weather.fate.Delivered? || ends || (KindOf(st) == Begin && e.failed) then None
                            else Some(issued))
            && w'.sent == (if w.baton.Some? then w.sent + [w.baton.value] else w.sent)
  {
    hide InStep, ReplyDoc, FirstError, FirstExecute, GetText, BatonName, Perform;
    NotRefused(w, st);
    var e := Performed(w, st, weather.verdict.fails);
    ReplyReads(if Closes(KindOf(st), w.baton) then None else Some(BatonName(w.server.issued)), e.failed,
               weather.verdict);
  }

  lemma NotRefused(w: World, st: Statement)
    requires InStep(w)
    ensures !Refuses(w.server, w.baton) && (w.baton.Some? ==> w.server.live.Some?)
  {
  }

  function RunAll(w: World, sts: seq<Statement>, weathers: seq<Weather>): World
    requires |weathers| == |sts|
    decreases |sts|
  {
    if sts == [] then w else RunAll(Execute(w, sts[0], weathers[0]).0, sts[1..], weathers[1..])
  }

  lemma {:induction false} RunKeepsStep(w: World, sts: seq<Statement>, weathers: seq<Weather>)
    requires |weathers| == |sts| && InStep(w)
    ensures InStep(RunAll(w, sts, weathers))
    decreases |sts|
  {
    hide InStep, Execute;
    if sts != [] {
      StatementKeepsStep(w, sts[0], weathers[0]);
      RunKeepsStep(Execute(w, sts[0], weathers[0]).0, sts[1..], weathers[1..]);
    }
  }

  /** A session that is dropped sends the baton it holds, and that too is for the first time. */
  lemma DropKeepsStep(w: World, fate: Fate)
    requires InStep(w)
    ensures InStep(DropSession(w, fate)) && DropSession(w, fate).baton == None
  {
    if w.baton.Some? {
      SentKeeps(w, DropSession(w, fate).server, w.sent + [w.baton.value]);
    }
    hide BatonName;
  }

  /**
   In every run of a session to its drop, with any requests and responses lost and any statements
   failing, the server never refuses a baton and no baton is sent twice.
   */
  lemma NeverRefused(committed: seq<Write>, sts: seq<Statement>, weathers: seq<Weather>, last: Fate)
    requires |weathers| == |sts|
    ensures var w := RunAll(Fresh(committed), sts, weathers);
            && InStep(w) && !w.refused && Distinct(w.sent)
            && !DropSession(w, last).refused && Distinct(DropSession(w, last).sent)
  {
    FreshInStep(committed);
    RunKeepsStep(Fresh(committed), sts, weathers);
    DropKeepsStep(RunAll(Fresh(committed), sts, weathers), last);
    hide RunAll, DropSession, Issued;
  }
}
