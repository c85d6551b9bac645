/**
 The bounded job queue in front of Stripe (`backend/src/stripe_worker.rs`). Times are
 milliseconds of one clock that never goes back; each step happens at a time.
 */
module StripeQueue {
  import opened Lists
  import opened Outcomes

  const CALL_TIMEOUT_MS: int := 10_000
  const QUEUE_CAP: nat := 32
  const WORKERS: nat := 2

  type JobId = nat
  type Worker = nat

  /** A queued job: whose it is and when it stops being worth running. */
  datatype Job = Job(id: JobId, deadline: int)

  /** A job taken, its deadline not yet looked at; found worth running, Stripe not yet called; being run. */
  datatype Doing = Holding(job: Job) | Poised(job: Job) | Calling(job: Job)

  /** What a worker sends back to the caller: that it came too late, or what Stripe answered. */
  datatype Reply = Expired(id: JobId) | FromStripe(id: JobId)

  // ---- Callers and workers side by side ----

  datatype State = State(
    queue: seq<Job>,
    accepted: seq<JobId>,                 // every job the queue took, in order
    taken: seq<JobId>,                    // every job a worker took, in order
    doing: map<Worker, Doing>,            // what each worker is at, if anything
    waiting: map<JobId, int>,             // callers in `wait`, since when
    gaveUp: map<JobId, int>,              // callers whose wait timed out, when
    looked: map<JobId, int>,              // jobs whose deadline was found not to have come, when
    called: map<JobId, int>,              // jobs for which Stripe was called, when last
    calls: seq<JobId>,                    // every call to Stripe, in order
    replies: seq<Reply>,                  // every reply sent to a caller, in order
    heard: set<JobId>,                    // callers whose wait ended with the reply
    now: int)

  datatype Event =
    | Submit(id: JobId, stamp: int, at: int)  // reads the clock at `stamp`, sends at `at`
    | Await(id: JobId, at: int)               // starts to wait
    | Hear(id: JobId, at: int)                // its wait ends with the reply
    | GiveUp(id: JobId, at: int)              // its wait times out
    | Take(w: Worker, at: int)
    | Look(w: Worker, at: int)                // reads the clock against the deadline
    | Call(w: Worker, at: int)                // calls Stripe
    | Finish(w: Worker, at: int)              // sends the reply

  function Whose(replies: seq<Reply>): (ids: seq<JobId>)
    ensures |ids| == |replies|
  {
    seq(|replies|, i requires 0 <= i < |replies| => replies[i].id)
  }

  predicate Enabled(s: State, e: Event) {
    s.now <= e.at &&
    match e
    case Submit(id, stamp, at) => id !in s.accepted && stamp <= at
    case Await(id, _) => id in s.accepted && id !in s.waiting && id !in s.gaveUp && id !in s.heard
    case Hear(id, _) => id in s.waiting && id in Whose(s.replies)
    case GiveUp(id, at) => id in s.waiting && at >= s.waiting[id] + CALL_TIMEOUT_MS
    case Take(w, _) => w < WORKERS && w !in s.doing && s.queue != []
    case Look(w, _) => w in s.doing && s.doing[w].Holding?
    case Call(w, _) => w in s.doing && s.doing[w].Poised?
    case Finish(w, _) => w in s.doing && s.doing[w].Calling?
  }

  function Apply(s: State, e: Event): State
    requires Enabled(s, e)
  {
    var t := s.(now := e.at);
    match e
    case Submit(id, stamp, _) =>
      if |s.queue| >= QUEUE_CAP then t
      else t.(queue := s.queue + [Job(id, stamp + CALL_TIMEOUT_MS)], accepted := s.accepted + [id])
    case Await(id, at) => t.(waiting := s.waiting[id := at])
    case Hear(id, _) => t.(waiting := s.waiting - {id}, heard := s.heard + {id})
    case GiveUp(id, at) => t.(waiting := s.waiting - {id}, gaveUp := s.gaveUp[id := at])
    case Take(w, _) =>
      t.(queue := s.queue[1..], taken := s.taken + [s.queue[0].id], doing := s.doing[w := Holding(s.queue[0])])
    case Look(w, at) =>
      var job := s.doing[w].job;
      if at >= job.deadline then t.(doing := s.doing - {w}, replies := s.replies + [Expired(job.id)])
      else t.(doing := s.doing[w := Poised(job)], looked := s.looked[job.id := at])
    case Call(w, at) =>
      var job := s.doing[w].job;
      t.(doing := s.doing[w := Calling(job)], called := s.called[job.id := at], calls := s.calls + [job.id])
    case Finish(w, _) => t.(doing := s.doing - {w}, replies := s.replies + [FromStripe(s.doing[w].job.id)])
  }

  // ---- The program's own state ----

  class StripeWorker {
    var queue: seq<Job>
    /** The calls made and the replies sent, by either worker. */
    var calls: seq<JobId>
    var replies: seq<Reply>
    /** Where callers and workers are: not fields of the program. */
    ghost var around: State

    ghost function Abs(): State
      reads this
    {
      around.(queue := queue, calls := calls, replies := replies)
    }

    constructor (now: int)
      ensures Abs() == Start(now)
    {
      queue, calls, replies := [], [], [];
      around := Start(now);
    }

    /** `enqueue` and `send`: a full queue is refused, not waited for. */
    method Enqueue(id: JobId, stamp: int, at: int) returns (busy: bool)
      requires Enabled(Abs(), Submit(id, stamp, at))
      modifies this
      ensures Abs() == Apply(old(Abs()), Submit(id, stamp, at))
      ensures busy <==> |old(queue)| >= 32
      ensures queue == if busy then old(queue) else old(queue) + [Job(id, stamp + 10_000)]
    {
      around := Apply(Abs(), Submit(id, stamp, at));
      var job := Job(id, stamp + CALL_TIMEOUT_MS);
      if |queue| >= QUEUE_CAP {
        return true;
      }
      queue := queue + [job];
      return false;
    }

    /** `recv` in `worker_loop`, when there is something to receive. */
    method Receive(w: Worker, at: int) returns (job: Job)
      requires Enabled(Abs(), Take(w, at))
      modifies this
      ensures Abs() == Apply(old(Abs()), Take(w, at))
      ensures [job] + queue == old(queue) && Abs().doing[w] == Holding(job)
    {
      around := Apply(Abs(), Take(w, at));
      job := queue[0];
      queue := queue[1..];
    }

    /** The start of `run_job`: whether the job is still worth running; if not, the caller is told. */
    method LookAt(w: Worker, job: Job, at: int) returns (worth: bool)
      requires Enabled(Abs(), Look(w, at)) && Abs().doing[w] == Holding(job)
      modifies this
      ensures Abs() == Apply(old(Abs()), Look(w, at))
      ensures worth <==> at < job.deadline
      ensures replies == if worth then old(replies) else old(replies) + [Expired(job.id)]
      ensures calls == old(calls)
    {
      around := Apply(Abs(), Look(w, at));
      if at >= job.deadline {
        replies := replies + [Expired(job.id)];
        return false;
      }
      return true;
    }

    /** The call in `run_job`, however late it comes: Stripe has not been called for the job before. */
    method CallStripe(w: Worker, job: Job, at: int)
      requires Safe(Abs()) && Enabled(Abs(), Call(w, at)) && Abs().doing[w] == Poised(job)
      modifies this
      ensures Abs() == Apply(old(Abs()), Call(w, at)) && Safe(Abs())
      ensures calls == old(calls) + [job.id] && Distinct(calls) && job.id !in old(calls)
      ensures replies == old(replies)
    {
      StepIsSafe(Abs(), Call(w, at));
      NotCalledYet(Abs(), w);
      OnlyTheCall(Abs(), w, at);
      hide Apply, Safe, Distinct;
      around := Apply(Abs(), Call(w, at));
      calls := calls + [job.id];
    }

    /** The end of `run_job`: the caller gets what Stripe answered, and no reply was sent before. */
    method Answer(w: Worker, job: Job, at: int)
      requires Safe(Abs()) && Enabled(Abs(), Finish(w, at)) && Abs().doing[w] == Calling(job)
      modifies this
      ensures Abs() == Apply(old(Abs()), Finish(w, at)) && Safe(Abs())
      ensures replies == old(replies) + [FromStripe(job.id)] && job.id !in Whose(old(replies))
      ensures calls == old(calls) && job.id in calls
    {
      StepIsSafe(Abs(), Finish(w, at));
      NotRepliedYet(Abs(), w);
      OnlyTheReply(Abs(), w, at);
      hide Apply, Safe, Whose;
      around := Apply(Abs(), Finish(w, at));
      replies := replies + [FromStripe(job.id)];
    }
  }

  function Start(now: int): State {
    State([], [], [], map[], map[], map[], map[], map[], [], [], {}, now)
  }

  // ---- What every step keeps ----

  function Ids(q: seq<Job>): (ids: seq<JobId>)
    ensures |ids| == |q|
  {
    seq(|q|, i requires 0 <= i < |q| => q[i].id)
  }

  /** The queue is bounded, and the accepted jobs are taken one at a time in the order they came. */
  ghost predicate Fifo(s: State) {
    && |s.queue| <= QUEUE_CAP
    && s.taken + Ids(s.queue) == s.accepted
    && Distinct(s.accepted)
  }

  /** The moment a job stops being worth running, once its caller has given up, lies in the past. */
  ghost predicate Late(s: State, job: Job) {
    && job.id in s.accepted
    && (job.id in s.waiting ==> job.deadline <= s.waiting[job.id] + CALL_TIMEOUT_MS)
    && (job.id in s.gaveUp ==> job.deadline <= s.gaveUp[job.id])
    && job.deadline <= s.now + CALL_TIMEOUT_MS
  }

  /** Workers are at jobs they took, no two at the same. */
  ghost predicate Occupied(doing: map<Worker, Doing>, taken: seq<JobId>) {
    && (forall w | w in doing :: w < WORKERS && doing[w].job.id in taken)
    && (forall v, w | v in doing && w in doing && doing[v].job.id == doing[w].job.id :: v == w)
  }

  /** A worker has found the job worth running and has not called Stripe yet. */
  ghost predicate Ready(doing: map<Worker, Doing>, id: JobId) {
    exists w :: w in doing && doing[w].Poised? && doing[w].job.id == id
  }

  /** A job is looked at once and then called for at most once; in between a worker is poised to call. */
  ghost predicate Owned(doing: map<Worker, Doing>, taken: seq<JobId>, looked: map<JobId, int>,
                        called: map<JobId, int>)
  {
    && (forall w | w in doing && doing[w].Holding? :: doing[w].job.id !in looked)
    && (forall w | w in doing && doing[w].Poised? :: doing[w].job.id in looked && doing[w].job.id !in called)
    && (forall id | id in looked :: id in taken)
    && (forall id | id in called :: id in looked && looked[id] <= called[id])
    && (forall id | id in looked && id !in called :: Ready(doing, id))
  }

  ghost predicate AtWork(doing: map<Worker, Doing>, id: JobId) {
    exists w :: w in doing && doing[w].job.id == id
  }

  /** Nobody is answered twice, a taken job is answered once no worker is at it, and each answer is the right one. */
  ghost predicate Answered(doing: map<Worker, Doing>, taken: seq<JobId>, looked: map<JobId, int>,
                           called: map<JobId, int>, replies: seq<Reply>)
  {
    && Distinct(Whose(replies))
    && (forall r | r in replies :: r.id in taken && !AtWork(doing, r.id))
    && (forall r | r in replies :: if r.Expired? then r.id !in looked else r.id in called)
    && (forall id | id in taken :: AtWork(doing, id) || id in Whose(replies))
  }

  /** Each job that was called for was called for once; one being run has been. */
  ghost predicate Counted(doing: map<Worker, Doing>, called: map<JobId, int>, calls: seq<JobId>) {
    && Distinct(calls) && (forall id :: id in calls <==> id in called)
    && (forall w | w in doing && doing[w].Calling? :: doing[w].job.id in called)
  }

  ghost predicate AllLate(s: State) {
    && (forall i | 0 <= i < |s.queue| :: Late(s, s.queue[i]))
    && (forall w | w in s.doing && s.doing[w].Holding? :: Late(s, s.doing[w].job))
  }

  /** Only accepted jobs have a past, and the clock has passed it. */
  ghost predicate Past(when: map<JobId, int>, accepted: seq<JobId>, now: int) {
    forall id | id in when :: id in accepted && when[id] <= now
  }

  ghost predicate Dated(s: State) {
    && Past(s.gaveUp, s.accepted, s.now) && Past(s.waiting, s.accepted, s.now) && Past(s.looked, s.accepted, s.now)
    && s.waiting.Keys !! s.gaveUp.Keys
  }

  /** A job is found worth running only before its caller gives up. */
  ghost predicate Timely(looked: map<JobId, int>, waiting: map<JobId, int>, gaveUp: map<JobId, int>) {
    && (forall id | id in gaveUp && id in looked :: looked[id] < gaveUp[id])
    && (forall id | id in looked && id in waiting :: looked[id] < waiting[id] + CALL_TIMEOUT_MS)
  }

  ghost predicate Safe(s: State) {
    && Fifo(s) && Occupied(s.doing, s.taken) && Owned(s.doing, s.taken, s.looked, s.called) && AllLate(s) && Dated(s)
    && Timely(s.looked, s.waiting, s.gaveUp)
    && Answered(s.doing, s.taken, s.looked, s.called, s.replies) && Counted(s.doing, s.called, s.calls)
  }

  lemma InQueue(s: State, i: nat)
    requires Fifo(s) && i < |s.queue|
    ensures s.queue[i].id in s.accepted && s.queue[i].id !in s.taken
    ensures s.accepted[|s.taken| + i] == s.queue[i].id
  {
    assert s.accepted[|s.taken| + i] == Ids(s.queue)[i] == s.queue[i].id;
    forall k | 0 <= k < |s.taken|
      ensures s.taken[k] != s.queue[i].id
    {
      assert s.accepted[k] == s.taken[k];
    }
  }

  lemma IdsOfMore(q: seq<Job>, job: Job)
    ensures Ids(q + [job]) == Ids(q) + [job.id]
    ensures Ids([job] + q) == [job.id] + Ids(q)
  {
  }

  lemma StepFifo(s: State, e: Event)
    requires Fifo(s) && Enabled(s, e)
    ensures Fifo(Apply(s, e))
  {
    hide Ids;
    match e
    case Submit(id, stamp, _) =>
      IdsOfMore(s.queue, Job(id, stamp + CALL_TIMEOUT_MS));
      assert s.taken + (Ids(s.queue) + [id]) == s.accepted + [id];
    case Take(_, _) =>
      IdsOfMore(s.queue[1..], s.queue[0]);
      assert [s.queue[0]] + s.queue[1..] == s.queue;
      assert s.taken + [s.queue[0].id] + Ids(s.queue[1..]) == s.taken + Ids(s.queue);
    case _ =>
  }

  lemma ReadyStays(doing: map<Worker, Doing>, w: Worker, d: Doing, id: JobId)
    requires Ready(doing, id) && (w in doing && doing[w].Poised? ==> doing[w].job.id != id)
    ensures Ready(doing[w := d], id) && Ready(doing - {w}, id)
  {
    var v :| v in doing && doing[v].Poised? && doing[v].job.id == id;
    assert doing[w := d][v] == doing[v] && (doing - {w})[v] == doing[v];
  }

  lemma TakeOwned(doing: map<Worker, Doing>, taken: seq<JobId>, looked: map<JobId, int>, called: map<JobId, int>,
                  w: Worker, job: Job)
    requires Occupied(doing, taken) && Owned(doing, taken, looked, called)
    requires w < WORKERS && w !in doing && job.id !in taken
    ensures Occupied(doing[w := Holding(job)], taken + [job.id])
    ensures Owned(doing[w := Holding(job)], taken + [job.id], looked, called)
  {
    forall id | id in looked && id !in called
      ensures Ready(doing[w := Holding(job)], id)
    {
      ReadyStays(doing, w, Holding(job), id);
    }
    hide Ready;
  }

  lemma LookOwned(doing: map<Worker, Doing>, taken: seq<JobId>, looked: map<JobId, int>, called: map<JobId, int>,
                  w: Worker, at: int)
    requires Occupied(doing, taken) && Owned(doing, taken, looked, called) && w in doing && doing[w].Holding?
    ensures var poised := Poised(doing[w].job);
            && Occupied(doing[w := poised], taken)
            && Owned(doing[w := poised], taken, looked[doing[w].job.id := at], called)
  {
    var poised := Poised(doing[w].job);
    assert doing[w := poised][w] == poised;
    forall id | id in looked && id !in called
      ensures Ready(doing[w := poised], id)
    {
      ReadyStays(doing, w, poised, id);
    }
    assert Ready(doing[w := poised], doing[w].job.id);
    hide Ready;
  }

  lemma CallOwned(doing: map<Worker, Doing>, taken: seq<JobId>, looked: map<JobId, int>, called: map<JobId, int>,
                  w: Worker, at: int)
    requires Occupied(doing, taken) && Owned(doing, taken, looked, called) && w in doing && doing[w].Poised?
    requires forall id | id in looked :: looked[id] <= at
    ensures var calling := Calling(doing[w].job);
            && Occupied(doing[w := calling], taken)
            && Owned(doing[w := calling], taken, looked, called[doing[w].job.id := at])
  {
    var calling := Calling(doing[w].job);
    forall id | id in looked && id !in called && id != doing[w].job.id
      ensures Ready(doing[w := calling], id)
    {
      ReadyStays(doing, w, calling, id);
    }
    hide Ready;
  }

  lemma DropOwned(doing: map<Worker, Doing>, taken: seq<JobId>, looked: map<JobId, int>, called: map<JobId, int>,
                  w: Worker)
    requires Occupied(doing, taken) && Owned(doing, taken, looked, called) && w in doing && !doing[w].Poised?
    ensures Occupied(doing - {w}, taken) && Owned(doing - {w}, taken, looked, called)
  {
    forall id | id in looked && id !in called
      ensures Ready(doing - {w}, id)
    {
      ReadyStays(doing, w, doing[w], id);
    }
    hide Ready;
  }

  lemma StepOwned(s: State, e: Event)
    requires Fifo(s) && Occupied(s.doing, s.taken) && Owned(s.doing, s.taken, s.looked, s.called) && Dated(s)
      && Enabled(s, e)
    ensures var t := Apply(s, e);
            Occupied(t.doing, t.taken) && Owned(t.doing, t.taken, t.looked, t.called)
  {
    if e.Take? {
      InQueue(s, 0);
      TakeOwned(s.doing, s.taken, s.looked, s.called, e.w, s.queue[0]);
    } else if e.Look? {
      LookOwned(s.doing, s.taken, s.looked, s.called, e.w, e.at);
      DropOwned(s.doing, s.taken, s.looked, s.called, e.w);
    } else if e.Call? {
      CallOwned(s.doing, s.taken, s.looked, s.called, e.w, e.at);
    } else if e.Finish? {
      DropOwned(s.doing, s.taken, s.looked, s.called, e.w);
    }
    hide Fifo, Owned, Occupied, Dated;
  }

  lemma WhoseMore(replies: seq<Reply>, r: Reply)
    ensures Whose(replies + [r]) == Whose(replies) + [r.id]
  {
  }

  lemma AtWorkAfter(doing: map<Worker, Doing>, taken: seq<JobId>, w: Worker, d: Doing, id: JobId)
    requires Occupied(doing, taken)
    ensures AtWork(doing[w := d], id) <==> d.job.id == id || AtWork(doing - {w}, id)
    ensures w in doing ==> (AtWork(doing, id) <==> doing[w].job.id == id || AtWork(doing - {w}, id))
    ensures w !in doing ==> doing - {w} == doing
    ensures w in doing && doing[w].job.id == id ==> !AtWork(doing - {w}, id)
  {
    if AtWork(doing - {w}, id) {
      var v :| v in doing - {w} && (doing - {w})[v].job.id == id;
      assert doing[w := d][v] == doing[v];
    }
    assert doing[w := d][w] == d;
    if AtWork(doing[w := d], id) {
      var v :| v in doing[w := d] && doing[w := d][v].job.id == id;
      assert v != w ==> (doing - {w})[v].job.id == id;
    }
    if AtWork(doing, id) {
      var v :| v in doing && doing[v].job.id == id;
      assert v != w ==> (doing - {w})[v].job.id == id;
    }
  }

  lemma TakeAnswered(doing: map<Worker, Doing>, taken: seq<JobId>, looked: map<JobId, int>, called: map<JobId, int>,
                     replies: seq<Reply>, w: Worker, job: Job)
    requires Occupied(doing, taken) && Answered(doing, taken, looked, called, replies) && w !in doing
      && job.id !in taken
    ensures Answered(doing[w := Holding(job)], taken + [job.id], looked, called, replies)
  {
    forall id
      ensures AtWork(doing[w := Holding(job)], id) <==> id == job.id || AtWork(doing, id)
    {
      AtWorkAfter(doing, taken, w, Holding(job), id);
    }
    hide AtWork, Occupied, Whose, Distinct;
    var more := doing[w := Holding(job)];
    forall r | r in replies
      ensures r.id in taken + [job.id] && !AtWork(more, r.id)
    {
      assert AtWork(more, r.id) <==> r.id == job.id || AtWork(doing, r.id);
    }
    forall id | id in taken + [job.id]
      ensures AtWork(more, id) || id in Whose(replies)
    {
      assert AtWork(more, id) <==> id == job.id || AtWork(doing, id);
    }
  }

  /** A worker goes on with its job. */
  lemma SameAnswered(doing: map<Worker, Doing>, taken: seq<JobId>, looked: map<JobId, int>, called: map<JobId, int>,
                     replies: seq<Reply>, w: Worker, d: Doing, at: int)
    requires Occupied(doing, taken) && Answered(doing, taken, looked, called, replies)
    requires w in doing && d.job == doing[w].job
    ensures Answered(doing[w := d], taken, looked[d.job.id := at], called, replies)
    ensures Answered(doing[w := d], taken, looked, called[d.job.id := at], replies)
  {
    forall id
      ensures AtWork(doing[w := d], id) <==> AtWork(doing, id)
    {
      AtWorkAfter(doing, taken, w, d, id);
    }
    assert AtWork(doing, d.job.id);
    hide AtWork, Occupied, Whose, Distinct;
  }

  /** A worker is done with its job, and replies. */
  lemma ReplyAnswered(doing: map<Worker, Doing>, taken: seq<JobId>, looked: map<JobId, int>, called: map<JobId, int>,
                      replies: seq<Reply>, w: Worker, r: Reply)
    requires Occupied(doing, taken) && Answered(doing, taken, looked, called, replies)
    requires w in doing && r.id == doing[w].job.id && if r.Expired? then r.id !in looked else r.id in called
    ensures Answered(doing - {w}, taken, looked, called, replies + [r]) && r.id !in Whose(replies)
  {
    forall id
      ensures AtWork(doing, id) <==> id == r.id || AtWork(doing - {w}, id)
      ensures !AtWork(doing - {w}, r.id)
    {
      AtWorkAfter(doing, taken, w, doing[w], id);
      AtWorkAfter(doing, taken, w, doing[w], r.id);
    }
    WhoseMore(replies, r);
    assert forall id | id in Whose(replies) :: exists q :: q in replies && q.id == id;
    hide AtWork, Occupied, Whose;
    DistinctMore(Whose(replies), r.id);
    hide Distinct;
  }

  lemma StepAnswered(s: State, e: Event)
    requires Fifo(s) && Occupied(s.doing, s.taken) && Owned(s.doing, s.taken, s.looked, s.called) && Enabled(s, e)
    requires Answered(s.doing, s.taken, s.looked, s.called, s.replies) && Counted(s.doing, s.called, s.calls)
    ensures var t := Apply(s, e);
            Answered(t.doing, t.taken, t.looked, t.called, t.replies)
  {
    if e.Take? {
      InQueue(s, 0);
      TakeAnswered(s.doing, s.taken, s.looked, s.called, s.replies, e.w, s.queue[0]);
    } else if e.Look? && e.at >= s.doing[e.w].job.deadline {
      ReplyAnswered(s.doing, s.taken, s.looked, s.called, s.replies, e.w, Expired(s.doing[e.w].job.id));
    } else if e.Look? {
      SameAnswered(s.doing, s.taken, s.looked, s.called, s.replies, e.w, Poised(s.doing[e.w].job), e.at);
    } else if e.Call? {
      SameAnswered(s.doing, s.taken, s.looked, s.called, s.replies, e.w, Calling(s.doing[e.w].job), e.at);
    } else if e.Finish? {
      ReplyAnswered(s.doing, s.taken, s.looked, s.called, s.replies, e.w, FromStripe(s.doing[e.w].job.id));
    }
    hide Fifo, Owned, Occupied, Answered, Counted;
  }

  lemma CallCounted(doing: map<Worker, Doing>, called: map<JobId, int>, calls: seq<JobId>, w: Worker, job: Job, at: int)
    requires Counted(doing, called, calls) && job.id !in called
    ensures Counted(doing[w := Calling(job)], called[job.id := at], calls + [job.id])
  {
    DistinctMore(calls, job.id);
    hide Distinct;
  }

  lemma OtherCounted(doing: map<Worker, Doing>, called: map<JobId, int>, calls: seq<JobId>, w: Worker, d: Doing)
    requires Counted(doing, called, calls) && !d.Calling?
    ensures Counted(doing[w := d], called, calls) && Counted(doing - {w}, called, calls)
  {
    hide Distinct;
  }

  lemma StepCounted(s: State, e: Event)
    requires Owned(s.doing, s.taken, s.looked, s.called) && Counted(s.doing, s.called, s.calls) && Enabled(s, e)
    ensures var t := Apply(s, e);
            Counted(t.doing, t.called, t.calls)
  {
    if e.Call? {
      CallCounted(s.doing, s.called, s.calls, e.w, s.doing[e.w].job, e.at);
    } else if e.Take? {
      OtherCounted(s.doing, s.called, s.calls, e.w, Holding(s.queue[0]));
    } else if e.Look? || e.Finish? {
      OtherCounted(s.doing, s.called, s.calls, e.w, Poised(s.doing[e.w].job));
    }
    hide Counted, Owned;
  }

  lemma StaysLate(s: State, e: Event, job: Job)
    requires Late(s, job) && Enabled(s, e)
    ensures Late(Apply(s, e), job)
  {
  }

  lemma NewIsLate(s: State, id: JobId, stamp: int, at: int)
    requires Dated(s) && Enabled(s, Submit(id, stamp, at)) && |s.queue| < QUEUE_CAP
    ensures Late(Apply(s, Submit(id, stamp, at)), Job(id, stamp + CALL_TIMEOUT_MS))
  {
  }

  lemma StepAllLate(s: State, e: Event)
    requires AllLate(s) && Dated(s) && Enabled(s, e)
    ensures AllLate(Apply(s, e))
  {
    if e.Submit? && |s.queue| < QUEUE_CAP {
      NewIsLate(s, e.id, e.stamp, e.at);
    }
    hide Late, Dated;
    var t := Apply(s, e);
    forall i | 0 <= i < |t.queue|
      ensures Late(t, t.queue[i])
    {
      if t.queue[i] in s.queue {
        StaysLate(s, e, t.queue[i]);
      }
    }
    forall w | w in t.doing && t.doing[w].Holding?
      ensures Late(t, t.doing[w].job)
    {
      StaysLate(s, e, t.doing[w].job);
    }
  }

  lemma PastGrows(when: map<JobId, int>, accepted: seq<JobId>, now: int, id: JobId, at: int)
    requires Past(when, accepted, now) && now <= at
    ensures Past(when, accepted, at) && Past(when, accepted + [id], at) && Past(when - {id}, accepted, at)
    ensures id in accepted ==> Past(when[id := at], accepted, at)
  {
  }

  lemma StepDated(s: State, e: Event)
    requires Dated(s) && AllLate(s) && Enabled(s, e)
    ensures Dated(Apply(s, e))
  {
    var id := if e.Submit? || e.Await? || e.Hear? || e.GiveUp? then e.id
              else if e.Look? then s.doing[e.w].job.id
              else 0;
    if e.Look? {
      assert Late(s, s.doing[e.w].job);
    }
    PastGrows(s.gaveUp, s.accepted, s.now, id, e.at);
    PastGrows(s.waiting, s.accepted, s.now, id, e.at);
    PastGrows(s.looked, s.accepted, s.now, id, e.at);
    hide AllLate, Late, Past;
  }

  lemma StepTimely(s: State, e: Event)
    requires AllLate(s) && Dated(s) && Timely(s.looked, s.waiting, s.gaveUp) && Enabled(s, e)
    ensures var t := Apply(s, e);
            Timely(t.looked, t.waiting, t.gaveUp)
  {
    match e
    case Look(w, at) =>
      assert Late(s, s.doing[w].job);
      if at < s.doing[w].job.deadline {
        LookTimely(s.looked, s.waiting, s.gaveUp, s.doing[w].job, at);
      }
    case Await(id, at) => AwaitTimely(s.looked, s.waiting, s.gaveUp, id, at);
    case Hear(id, _) => HearTimely(s.looked, s.waiting, s.gaveUp, id);
    case GiveUp(id, at) => GiveUpTimely(s.looked, s.waiting, s.gaveUp, id, at);
    case _ =>
      hide Dated, AllLate, Timely;
  }

  lemma LookTimely(looked: map<JobId, int>, waiting: map<JobId, int>, gaveUp: map<JobId, int>, job: Job, at: int)
    requires Timely(looked, waiting, gaveUp) && at < job.deadline
    requires job.id in waiting ==> job.deadline <= waiting[job.id] + CALL_TIMEOUT_MS
    requires job.id in gaveUp ==> job.deadline <= gaveUp[job.id]
    ensures Timely(looked[job.id := at], waiting, gaveUp)
  {
  }

  lemma AwaitTimely(looked: map<JobId, int>, waiting: map<JobId, int>, gaveUp: map<JobId, int>, id: JobId, at: int)
    requires Timely(looked, waiting, gaveUp) && (id in looked ==> looked[id] <= at)
    ensures Timely(looked, waiting[id := at], gaveUp)
  {
  }

  lemma HearTimely(looked: map<JobId, int>, waiting: map<JobId, int>, gaveUp: map<JobId, int>, id: JobId)
    requires Timely(looked, waiting, gaveUp)
    ensures Timely(looked, waiting - {id}, gaveUp)
  {
  }

  lemma GiveUpTimely(looked: map<JobId, int>, waiting: map<JobId, int>, gaveUp: map<JobId, int>, id: JobId, at: int)
    requires Timely(looked, waiting, gaveUp) && id in waiting && at >= waiting[id] + CALL_TIMEOUT_MS
    ensures Timely(looked, waiting - {id}, gaveUp[id := at])
  {
  }

  /** A step keeps all of it. */
  lemma StepIsSafe(s: State, e: Event)
    requires Safe(s) && Enabled(s, e)
    ensures Safe(Apply(s, e))
  {
    hide Fifo, Occupied, Owned, AllLate, Dated, Timely, Answered, Counted, Apply, Enabled;
    StepFifo(s, e);
    StepAnswered(s, e);
    StepCounted(s, e);
    StepOwned(s, e);
    StepAllLate(s, e);
    StepDated(s, e);
    StepTimely(s, e);
  }

  // ---- Over every run ----

  ghost predicate CanRun(s: State, events: seq<Event>)
    decreases |events|
  {
    events != [] ==> Enabled(s, events[0]) && CanRun(Apply(s, events[0]), events[1..])
  }

  function RunAll(s: State, events: seq<Event>): State
    requires CanRun(s, events)
    decreases |events|
  {
    if events == [] then s else RunAll(Apply(s, events[0]), events[1..])
  }

  lemma {:induction false} RunIsSafe(s: State, events: seq<Event>)
    requires Safe(s) && CanRun(s, events)
    ensures Safe(RunAll(s, events))
    decreases |events|
  {
    if events != [] {
      StepIsSafe(s, events[0]);
      RunIsSafe(Apply(s, events[0]), events[1..]);
    }
  }

  lemma StartIsSafe(now: int)
    ensures Safe(Start(now))
  {
  }

  lemma OnlyTheReply(s: State, w: Worker, at: int)
    requires Enabled(s, Finish(w, at))
    ensures var t := Apply(s, Finish(w, at));
            t.replies == s.replies + [FromStripe(s.doing[w].job.id)] && t.calls == s.calls && t.queue == s.queue
  {
  }

  lemma OnlyTheCall(s: State, w: Worker, at: int)
    requires Enabled(s, Call(w, at))
    ensures var t := Apply(s, Call(w, at));
            t.calls == s.calls + [s.doing[w].job.id] && t.replies == s.replies && t.queue == s.queue
  {
  }

  lemma NotRepliedYet(s: State, w: Worker)
    requires Safe(s) && w in s.doing && s.doing[w].Calling?
    ensures s.doing[w].job.id !in Whose(s.replies) && s.doing[w].job.id in s.calls
  {
    assert AtWork(s.doing, s.doing[w].job.id);
    forall i | 0 <= i < |s.replies|
      ensures Whose(s.replies)[i] != s.doing[w].job.id
    {
      assert s.replies[i] in s.replies;
    }
    hide Fifo, Occupied, Owned, AllLate, Dated, Timely, AtWork;
  }

  lemma NotCalledYet(s: State, w: Worker)
    requires Safe(s) && w in s.doing && s.doing[w].Poised?
    ensures s.doing[w].job.id !in s.calls && Distinct(s.calls + [s.doing[w].job.id])
  {
    DistinctMore(s.calls, s.doing[w].job.id);
    hide Fifo, Occupied, AllLate, Dated, Timely, Answered, Distinct;
  }

  /**
   In every interleaving the queue holds at most 32 jobs, at most two are being run, the workers
   take exactly the accepted jobs, each once and in order, Stripe is called at most once for a job
   and only after its deadline was found not to have come, and that was before its caller gave up.
   */
  lemma EveryRun(now: int, events: seq<Event>)
    requires CanRun(Start(now), events)
    ensures var s := RunAll(Start(now), events);
            && |s.queue| <= 32
            && s.taken + Ids(s.queue) == s.accepted && Distinct(s.accepted)
            && (forall w | w in s.doing :: w < 2)
            && Distinct(s.calls) && (forall id :: id in s.calls <==> id in s.called)
            && (forall id | id in s.called :: id in s.taken && id in s.looked && s.looked[id] <= s.called[id])
            && (forall id | id in s.looked && id in s.gaveUp :: s.looked[id] < s.gaveUp[id])
  {
    StartIsSafe(now);
    RunIsSafe(Start(now), events);
    hide Answered, AllLate, Ids, Distinct;
  }

  /**
   In every interleaving a job that a worker took is answered exactly once, as soon as no worker is at
   it any more: with what Stripe answered if it was called, and otherwise that it came too late.
   */
  lemma AnsweredOnce(now: int, events: seq<Event>, id: JobId)
    requires CanRun(Start(now), events) && id in RunAll(Start(now), events).taken
    ensures var s := RunAll(Start(now), events);
            && Distinct(Whose(s.replies)) && (AtWork(s.doing, id) <==> id !in Whose(s.replies))
            && (id in Whose(s.replies) ==> (if id in s.calls then FromStripe(id) else Expired(id)) in s.replies)
  {
    StartIsSafe(now);
    RunIsSafe(Start(now), events);
    var s := RunAll(Start(now), events);
    if id in Whose(s.replies) {
      var i :| 0 <= i < |s.replies| && Whose(s.replies)[i] == id;
      assert s.replies[i] in s.replies;
    }
    hide Fifo, Occupied, AllLate, Dated, Timely, AtWork, Ready, Distinct;
  }

  lemma NotLookedNow(s: State, e: Event, id: JobId)
    requires AllLate(s) && Dated(s) && Enabled(s, e) && id in s.gaveUp && id !in s.looked
    ensures id in Apply(s, e).gaveUp && id !in Apply(s, e).looked
  {
    if e.Look? {
      assert Late(s, s.doing[e.w].job);
    }
    hide Late, AllLate;
  }

  /** A caller that gave up before its job was found worth running is never called for. */
  lemma {:induction false} NeverCalledLate(s: State, events: seq<Event>, id: JobId)
    requires Safe(s) && CanRun(s, events) && id in s.gaveUp && id !in s.looked
    ensures id !in RunAll(s, events).looked && id !in RunAll(s, events).called
    decreases |events|
  {
    hide Fifo, Occupied, Late, AllLate, Dated, Timely, Apply, Enabled, Ready;
    if events != [] {
      StepIsSafe(s, events[0]);
      NotLookedNow(s, events[0], id);
      NeverCalledLate(Apply(s, events[0]), events[1..], id);
    }
  }

  /**
   Stripe can still be called for a job whose caller has given up and which was not called for if and
   only if a worker looked at the deadline before that and has not made its call.
   */
  lemma CalledLateIff(s: State, id: JobId)
    requires Safe(s) && id in s.gaveUp && id !in s.called
    ensures (exists events :: CanRun(s, events) && id in RunAll(s, events).called) <==> id in s.looked
    ensures id in s.looked ==> s.looked[id] < s.gaveUp[id]
  {
    if id in s.looked {
      assert Ready(s.doing, id);
      var w :| w in s.doing && s.doing[w].Poised? && s.doing[w].job.id == id;
      var e := Call(w, s.now);
      var events := OneMore(s, e, []);
      assert id in RunAll(s, events).called;
    } else {
      forall events | CanRun(s, events)
        ensures id !in RunAll(s, events).called
      {
        NeverCalledLate(s, events, id);
      }
    }
    hide Fifo, AllLate, Owned, Occupied;
  }

  /** It happens: the look comes a moment before the deadline, the caller gives up, and then Stripe is called. */
  lemma CalledAfterGivingUp(now: int, id: JobId) returns (events: seq<Event>)
    ensures CanRun(Start(now), events)
    ensures var s := RunAll(Start(now), events);
            id in s.gaveUp && id in s.called && s.gaveUp[id] <= s.called[id]
  {
    var end := now + CALL_TIMEOUT_MS;
    var s1 := Apply(Start(now), Submit(id, now, now));
    var s2 := Apply(s1, Await(id, now));
    var s3 := Apply(s2, Take(0, now));
    var s4 := Apply(s3, Look(0, end - 1));
    var s5 := Apply(s4, GiveUp(id, end));
    assert Enabled(s5, Call(0, end)) && Apply(s5, Call(0, end)).gaveUp == map[id := end];
    assert Apply(s5, Call(0, end)).called == map[id := end];
    hide Apply, Enabled, Whose;
    events := OneMore(s5, Call(0, end), []);
    events := OneMore(s4, GiveUp(id, end), events);
    events := OneMore(s3, Look(0, end - 1), events);
    events := OneMore(s2, Take(0, now), events);
    events := OneMore(s1, Await(id, now), events);
    events := OneMore(Start(now), Submit(id, now, now), events);
  }

  lemma OneMore(s: State, e: Event, after: seq<Event>) returns (events: seq<Event>)
    requires Enabled(s, e) && CanRun(Apply(s, e), after)
    ensures events == [e] + after && CanRun(s, events) && RunAll(s, events) == RunAll(Apply(s, e), after)
  {
    events := [e] + after;
    assert events[1..] == after;
  }
}
