/** The batching executor (servers/w3multicall/threading/w3multicall_executor.py): callers submit calls
    from any thread, a ticking thread and the submissions themselves dispatch the pending batch, and pool
    threads execute dispatched batches. Each lock-protected body is one step. */
module Executor {
  import opened Prelude
  import opened Multicall

  /** `w3_results` or `exception` of a finished task. */
  datatype Outcome = Results(results: seq<Option<string>>) | Raised

  /** The keys of `w3_calls` are 0, 1, ..., so the dictionary is a sequence. */
  datatype Task = Task(calls: seq<Call>, outcome: Option<Outcome>)

  /** A future, with the call it was returned for. */
  datatype Future = Future(task: nat, callKey: nat, call: Call)

  /** `instances` counts the pool's Web3 instances. `futures` and `lost` are logs: the futures handed out, and
      the tasks taken off the queue while the pool was empty. */
  datatype State = State(
    tasks: seq<Task>, pendingTask: Option<nat>, queued: seq<nat>, instances: nat,
    futures: seq<Future>, lost: seq<nat>)

  function Start(instances: nat): State {
    State([], None, [], instances, [], [])
  }

  /** The pending task, if any, is a task. */
  predicate InBounds(s: State) {
    && (s.pendingTask.Some? ==> s.pendingTask.value < |s.tasks|)
    && (forall i :: 0 <= i < |s.queued| ==> s.queued[i] < |s.tasks|)
  }

  /** `__check_pending_task`; `due` says whether the tick duration is over. */
  function Check(s: State, batchMax: int, due: bool): (r: State)
    requires InBounds(s)
    ensures InBounds(r)
  {
    if s.pendingTask.Some? && (due || |s.tasks[s.pendingTask.value].calls| >= batchMax)
    then s.(pendingTask := None, queued := s.queued + [s.pendingTask.value])
    else s
  }

  /** The part of `submit` before it checks the pending task. */
  function Enqueue(s: State, call: Call): (r: State)
    requires InBounds(s)
    ensures InBounds(r) && r.pendingTask.Some?
  {
    if s.pendingTask.None? then
      s.(tasks := s.tasks + [Task([call], None)], pendingTask := Some(|s.tasks|),
         futures := s.futures + [Future(|s.tasks|, 0, call)])
    else
      var t := s.pendingTask.value;
      s.(tasks := s.tasks[t := s.tasks[t].(calls := s.tasks[t].calls + [call])],
         futures := s.futures + [Future(t, |s.tasks[t].calls|, call)])
  }

  /** What the contract at the other end does with one batch: answer its first n pairs, or fail. */
  datatype Reply = Answers(n: nat) | Failure(error: CallError)

  /** The contract answers each pair from that pair alone. */
  type Contract = ((string, string)) -> string

  function Answered(calls: seq<Call>, contract: Contract, n: nat): seq<string> {
    seq(if n < |calls| then n else |calls|, i requires 0 <= i < |calls| => contract(Pairs(calls)[i]))
  }

  /** The result of one batch: all its calls' outputs, or an exception when anything is missing. */
  function OutcomeOf(calls: seq<Call>, contract: Contract, decode: Decoder, reply: Reply): Outcome {
    match reply
    case Failure(_) => Raised
    case Answers(n) =>
      match Outputs(calls, Answered(calls, contract, n), decode)
      case Err(_) => Raised
      case Ok(results) => if |results| < |calls| then Raised else Results(results)
  }

  /** `__execute` of a task off the pool's queue. Taking a Web3 instance raises when the pool has none, before
      the `try` and before the task's condition is notified, and the thread pool drops the exception. */
  function Execute(s: State, k: nat, contract: Contract, decode: Decoder, reply: Reply): (r: State)
    requires InBounds(s) && k < |s.queued|
    ensures InBounds(r)
  {
    var t := s.queued[k];
    if s.instances == 0 then s.(queued := RemoveAt(s.queued, k), lost := s.lost + [t])
    else
      s.(queued := RemoveAt(s.queued, k),
         tasks := s.tasks[t := s.tasks[t].(outcome := Some(OutcomeOf(s.tasks[t].calls, contract, decode, reply)))])
  }

  // ----- Runs

  /** Submissions, ticks of the timer thread, pool threads picking up any queued task, and new instances. */
  datatype Event = Submit(call: Call, due: bool) | Tick(due: bool) | PoolExecutes(k: nat, reply: Reply) | InstanceAdded

  ghost function Step(s: State, e: Event, batchMax: int, contract: Contract, decode: Decoder): Option<State>
    requires InBounds(s)
  {
    match e
    case Submit(call, due) => Some(Check(Enqueue(s, call), batchMax, due))
    case Tick(due) => Some(Check(s, batchMax, due))
    case PoolExecutes(k, reply) => if k < |s.queued| then Some(Execute(s, k, contract, decode, reply)) else None
    case InstanceAdded => Some(s.(instances := s.instances + 1))
  }

  /** What stays fixed over a run: the pool's first instances, the batch size, the contract and the decoder. */
  datatype Setting = Setting(instances: nat, batchMax: int, contract: Contract, decode: Decoder)

  ghost function Run(x: Setting, events: seq<Event>): (r: Option<State>)
    ensures r.Some? ==> InBounds(r.value)
  {
    if events == [] then Some(Start(x.instances)) else
      match Run(x, events[..|events| - 1])
      case None => None
      case Some(s) => Step(s, events[|events| - 1], x.batchMax, x.contract, x.decode)
  }

  function BatchLimit(batchMax: int): nat {
    if batchMax < 1 then 1 else batchMax
  }

  /** A task is open while it is pending or queued, and settled once it has an outcome. */
  ghost predicate Open(s: State, t: nat) {
    s.pendingTask == Some(t) || t in s.queued
  }

  ghost predicate BatchesFit(s: State, batchMax: int)
    requires InBounds(s)
  {
    && (forall t :: 0 <= t < |s.tasks| ==> 1 <= |s.tasks[t].calls| <= BatchLimit(batchMax))
    && (s.pendingTask.Some? ==> |s.tasks[s.pendingTask.value].calls| < batchMax)
  }

  ghost predicate QueueSound(s: State)
    requires InBounds(s)
  {
    && Distinct(s.queued) && (s.pendingTask.Some? ==> s.pendingTask.value !in s.queued)
    && (forall t :: 0 <= t < |s.tasks| ==> (s.tasks[t].outcome.None? <==> Open(s, t) || t in s.lost))
    && (forall t :: t in s.lost ==> t < |s.tasks| && !Open(s, t))
  }

  ghost predicate FutureSound(s: State, f: Future) {
    f.task < |s.tasks| && f.callKey < |s.tasks[f.task].calls| && s.tasks[f.task].calls[f.callKey] == f.call
  }

  ghost predicate HasFuture(s: State, t: nat) {
    exists i :: 0 <= i < |s.futures| && s.futures[i].task == t
  }

  ghost predicate FuturesSound(s: State) {
    && (forall f :: f in s.futures ==> FutureSound(s, f))
    && (forall i, j :: 0 <= i < j < |s.futures| ==>
          s.futures[i].task != s.futures[j].task || s.futures[i].callKey != s.futures[j].callKey)
    && (forall t :: 0 <= t < |s.tasks| ==> HasFuture(s, t))
  }

  ghost predicate OutcomeSound(task: Task, contract: Contract, decode: Decoder) {
    task.outcome.None? || task.outcome == Some(Raised) ||
    (&& |task.outcome.value.results| == |task.calls|
     && forall k :: 0 <= k < |task.calls| ==>
         task.outcome.value.results[k] == ResultFor(task.calls[k], contract, decode))
  }

  /** What a caller expects of its call. */
  function ResultFor(call: Call, contract: Contract, decode: Decoder): Option<string> {
    decode(call.signature.outputTypes, contract((call.address, call.data)))
  }

  ghost predicate OutcomesSound(s: State, contract: Contract, decode: Decoder) {
    forall t :: 0 <= t < |s.tasks| ==> OutcomeSound(s.tasks[t], contract, decode)
  }

  // ----- What every step keeps

  lemma EnqueueKeepsFutures(s: State, call: Call)
    requires InBounds(s) && FuturesSound(s)
    ensures FuturesSound(Enqueue(s, call))
  {
    var r := Enqueue(s, call);
    forall f | f in s.futures ensures FutureSound(r, f) {
      assert FutureSound(s, f);
    }
    var f := r.futures[|s.futures|];
    assert FutureSound(r, f);
    forall i | 0 <= i < |s.futures| ensures s.futures[i].task != f.task || s.futures[i].callKey != f.callKey {
      assert FutureSound(s, s.futures[i]);
    }
    forall t | 0 <= t < |r.tasks| ensures HasFuture(r, t) {
      if t < |s.tasks| {
        var i :| 0 <= i < |s.futures| && s.futures[i].task == t by { assert HasFuture(s, t); }
        assert r.futures[i].task == t;
      }
    }
  }

  lemma EnqueueKeepsQueue(s: State, call: Call)
    requires InBounds(s) && QueueSound(s)
    ensures QueueSound(Enqueue(s, call))
  {
    var r := Enqueue(s, call);
    forall t | 0 <= t < |r.tasks| ensures r.tasks[t].outcome.None? <==> Open(r, t) || t in r.lost {
      if t < |s.tasks| {
        assert s.tasks[t].outcome.None? <==> Open(s, t) || t in s.lost;
      }
    }
  }

  lemma EnqueueFits(s: State, call: Call, batchMax: int)
    requires InBounds(s) && BatchesFit(s, batchMax)
    ensures forall t :: 0 <= t < |Enqueue(s, call).tasks| ==>
            1 <= |Enqueue(s, call).tasks[t].calls| <= BatchLimit(batchMax)
  {}

  lemma EnqueueKeepsOutcomes(s: State, call: Call, contract: Contract, decode: Decoder)
    requires InBounds(s) && QueueSound(s) && OutcomesSound(s, contract, decode)
    ensures OutcomesSound(Enqueue(s, call), contract, decode)
  {
    if s.pendingTask.Some? {
      assert Open(s, s.pendingTask.value);
    }
  }

  lemma CheckKeeps(s: State, batchMax: int, due: bool)
    requires InBounds(s) && QueueSound(s) && FuturesSound(s)
    requires forall t :: 0 <= t < |s.tasks| ==> 1 <= |s.tasks[t].calls| <= BatchLimit(batchMax)
    ensures var r := Check(s, batchMax, due);
            && QueueSound(r) && FuturesSound(r) && BatchesFit(r, batchMax) && r.tasks == s.tasks
            && forall t :: Open(r, t) <==> Open(s, t)
  {
    var r := Check(s, batchMax, due);
    forall f | f in s.futures ensures FutureSound(r, f) {
      assert FutureSound(s, f);
    }
    forall t | 0 <= t < |r.tasks| ensures HasFuture(r, t) {
      assert HasFuture(s, t);
    }
    forall t ensures Open(r, t) <==> Open(s, t) {}
  }

  lemma OutcomeIsSound(calls: seq<Call>, contract: Contract, decode: Decoder, reply: Reply)
    ensures OutcomeSound(Task(calls, Some(OutcomeOf(calls, contract, decode, reply))), contract, decode)
  {
    var outcome := OutcomeOf(calls, contract, decode, reply);
    if outcome.Results? {
      forall k | 0 <= k < |calls| ensures outcome.results[k] == ResultFor(calls[k], contract, decode) {
        assert Pairs(calls)[k] == (calls[k].address, calls[k].data);
      }
    }
  }

  /** The contract answered every pair, and every call says what types to expect. */
  ghost predicate Delivers(calls: seq<Call>, reply: Reply) {
    reply.Answers? && reply.n >= |calls| && forall k :: 0 <= k < |calls| ==> calls[k].signature.outputTypes != []
  }

  /** A batch has results exactly when it is answered completely: each call's own result. */
  lemma OutcomeIff(calls: seq<Call>, contract: Contract, decode: Decoder, reply: Reply)
    ensures var outcome := OutcomeOf(calls, contract, decode, reply);
            && (outcome.Results? <==> Delivers(calls, reply))
            && (outcome.Results? ==>
                  && |outcome.results| == |calls|
                  && forall k :: 0 <= k < |calls| ==> outcome.results[k] == ResultFor(calls[k], contract, decode))
  {
    OutcomeIsSound(calls, contract, decode, reply);
    if Delivers(calls, reply) {
      assert |Answered(calls, contract, reply.n)| == |calls|;
    }
  }

  /** Taking a task off the queue closes that task and no other. */
  lemma Dequeued(s: State, k: nat, t: nat)
    requires InBounds(s) && QueueSound(s) && k < |s.queued|
    ensures var r := s.(queued := RemoveAt(s.queued, k));
            Distinct(r.queued) && (Open(r, t) <==> Open(s, t) && t != s.queued[k])
  {
    RemoveAtDistinct(s.queued, k);
    RemoveAtMultiset(s.queued, k);
    assert t in multiset(s.queued) <==> t == s.queued[k] || t in multiset(RemoveAt(s.queued, k));
  }

  lemma ExecuteKeepsQueue(s: State, k: nat, contract: Contract, decode: Decoder, reply: Reply)
    requires InBounds(s) && QueueSound(s) && k < |s.queued|
    ensures QueueSound(Execute(s, k, contract, decode, reply))
  {
    var r := Execute(s, k, contract, decode, reply);
    RemoveAtDistinct(s.queued, k);
    forall t: nat ensures Open(r, t) <==> Open(s, t) && t != s.queued[k] {
      Dequeued(s, k, t);
    }
    forall t | 0 <= t < |r.tasks| ensures r.tasks[t].outcome.None? <==> Open(r, t) || t in r.lost {
      assert s.tasks[t].outcome.None? <==> Open(s, t) || t in s.lost;
      assert Open(s, s.queued[k]);
    }
  }

  lemma ExecuteKeepsRest(s: State, k: nat, contract: Contract, decode: Decoder, reply: Reply, batchMax: int)
    requires InBounds(s) && FuturesSound(s) && OutcomesSound(s, contract, decode) && BatchesFit(s, batchMax)
             && k < |s.queued|
    ensures var r := Execute(s, k, contract, decode, reply);
            FuturesSound(r) && OutcomesSound(r, contract, decode) && BatchesFit(r, batchMax)
  {
    var r := Execute(s, k, contract, decode, reply);
    OutcomeIsSound(s.tasks[s.queued[k]].calls, contract, decode, reply);
    forall f | f in s.futures ensures FutureSound(r, f) {
      assert FutureSound(s, f);
    }
    forall t | 0 <= t < |r.tasks| ensures HasFuture(r, t) {
      assert HasFuture(s, t);
    }
  }

  ghost predicate Sound(s: State, batchMax: int, contract: Contract, decode: Decoder) {
    InBounds(s) && BatchesFit(s, batchMax) && QueueSound(s) && FuturesSound(s) && OutcomesSound(s, contract, decode)
  }

  lemma StepKeepsSound(s: State, e: Event, batchMax: int, contract: Contract, decode: Decoder)
    requires Sound(s, batchMax, contract, decode) && Step(s, e, batchMax, contract, decode).Some?
    ensures Sound(Step(s, e, batchMax, contract, decode).value, batchMax, contract, decode)
  {
    match e {
      case Submit(call, due) =>
        EnqueueKeepsFutures(s, call);
        EnqueueKeepsQueue(s, call);
        EnqueueFits(s, call, batchMax);
        EnqueueKeepsOutcomes(s, call, contract, decode);
        CheckKeeps(Enqueue(s, call), batchMax, due);
      case Tick(due) => CheckKeeps(s, batchMax, due);
      case PoolExecutes(k, reply) =>
        ExecuteKeepsQueue(s, k, contract, decode, reply);
        ExecuteKeepsRest(s, k, contract, decode, reply, batchMax);
      case InstanceAdded => InstanceKeeps(s, batchMax);
    }
  }

  lemma InstanceKeeps(s: State, batchMax: int)
    requires InBounds(s) && BatchesFit(s, batchMax) && QueueSound(s) && FuturesSound(s)
    ensures var r := s.(instances := s.instances + 1); QueueSound(r) && FuturesSound(r)
  {
    var r := s.(instances := s.instances + 1);
    forall f | f in r.futures ensures FutureSound(r, f) {
      assert FutureSound(s, f);
    }
    forall t | 0 <= t < |r.tasks| ensures HasFuture(r, t) {
      assert HasFuture(s, t);
    }
    forall t ensures Open(r, t) <==> Open(s, t) {}
  }

  lemma {:induction false} EveryRunIsSound(x: Setting, events: seq<Event>)
    requires Run(x, events).Some?
    ensures Sound(Run(x, events).value, x.batchMax, x.contract, x.decode)
  {
    if events != [] {
      var init := events[..|events| - 1];
      EveryRunIsSound(x, init);
      StepKeepsSound(Run(x, init).value, events[|events| - 1], x.batchMax, x.contract, x.decode);
    }
  }

  // ----- What a caller gets

  /** A value is None when that call's output could not be decoded. */
  datatype Got = Waits | GetRaises | Value(value: Option<string>)

  /** `Future.get`. */
  function Get(s: State, f: Future): Got {
    if f.task >= |s.tasks| || s.tasks[f.task].outcome.None? then Waits
    else match s.tasks[f.task].outcome.value
         case Raised => GetRaises
         case Results(results) => if f.callKey < |results| then Value(results[f.callKey]) else GetRaises
  }

  /** In every run, however submissions, ticks and pool threads interleave: a future that yields a value yields
      the result of the very call it was returned for, and one that still waits belongs to a batch that is
      pending or queued, or that a pool thread took while the pool had no Web3 instance. */
  lemma {:induction false} EachFutureReadsItsOwnCall(x: Setting, events: seq<Event>, f: Future)
    requires Run(x, events).Some? && f in Run(x, events).value.futures
    ensures var s := Run(x, events).value;
            match Get(s, f)
            case Waits => Open(s, f.task) || f.task in s.lost
            case GetRaises => f.task < |s.tasks| && s.tasks[f.task].outcome == Some(Raised)
            case Value(v) => v == ResultFor(f.call, x.contract, x.decode)
  {
    EveryRunIsSound(x, events);
    var s := Run(x, events).value;
    assert FutureSound(s, f) && OutcomeSound(s.tasks[f.task], x.contract, x.decode);
  }

  lemma OutcomeStays(s: State, e: Event, x: Setting, t: nat)
    requires Sound(s, x.batchMax, x.contract, x.decode) && Step(s, e, x.batchMax, x.contract, x.decode).Some?
    requires t < |s.tasks| && s.tasks[t].outcome.Some?
    ensures var r := Step(s, e, x.batchMax, x.contract, x.decode).value; t < |r.tasks| && r.tasks[t] == s.tasks[t]
  {
    assert !Open(s, t);
  }

  lemma {:induction false} OutcomeStaysForever(x: Setting, events: seq<Event>, later: seq<Event>, t: nat)
    requires Run(x, events).Some? && Run(x, events + later).Some?
    requires t < |Run(x, events).value.tasks| && Run(x, events).value.tasks[t].outcome.Some?
    ensures var r := Run(x, events + later).value; t < |r.tasks| && r.tasks[t] == Run(x, events).value.tasks[t]
    decreases |later|
  {
    var all := events + later;
    if later == [] {
      assert all == events;
    } else {
      var init := later[..|later| - 1];
      assert all[..|all| - 1] == events + init;
      OutcomeStaysForever(x, events, init, t);
      EveryRunIsSound(x, events + init);
      OutcomeStays(Run(x, events + init).value, all[|all| - 1], x, t);
    }
  }

  lemma {:induction false} ExecutedOutcome(x: Setting, events: seq<Event>, k: nat, reply: Reply, f: Future)
    requires Run(x, events).Some? && f in Run(x, events).value.futures && Run(x, events).value.instances > 0
    requires k < |Run(x, events).value.queued| && Run(x, events).value.queued[k] == f.task
    ensures var r := Run(x, events + [PoolExecutes(k, reply)]);
            && r.Some? && f.task < |r.value.tasks| && FutureSound(Run(x, events).value, f)
            && r.value.tasks[f.task].outcome
               == Some(OutcomeOf(Run(x, events).value.tasks[f.task].calls, x.contract, x.decode, reply))
  {
    EveryRunIsSound(x, events);
    var all := events + [PoolExecutes(k, reply)];
    assert all[..|all| - 1] == events && all[|all| - 1] == PoolExecutes(k, reply);
  }

  /** In every run, once a pool thread with a Web3 instance at hand has executed a queued task, every future of that
      task yields the result of its own call from then on, exactly when the contract answered every pair and every
      call has output types; otherwise it raises from then on. */
  lemma {:induction false} ExecutedFuturesYieldIff(x: Setting, events: seq<Event>, k: nat, reply: Reply,
        later: seq<Event>, f: Future)
    requires Run(x, events).Some? && f in Run(x, events).value.futures && Run(x, events).value.instances > 0
    requires k < |Run(x, events).value.queued| && Run(x, events).value.queued[k] == f.task
    requires Run(x, events + [PoolExecutes(k, reply)] + later).Some?
    ensures f.task < |Run(x, events).value.tasks|
    ensures Get(Run(x, events + [PoolExecutes(k, reply)] + later).value, f)
            == if Delivers(Run(x, events).value.tasks[f.task].calls, reply)
               then Value(ResultFor(f.call, x.contract, x.decode)) else GetRaises
  {
    ExecutedOutcome(x, events, k, reply, f);
    OutcomeIff(Run(x, events).value.tasks[f.task].calls, x.contract, x.decode, reply);
    OutcomeStaysForever(x, events + [PoolExecutes(k, reply)], later, f.task);
  }

  /** In every run, a tick that is due hands every waiting future that is not lost to the pool, and one that is not
      due changes nothing. */
  lemma {:induction false} DueTickQueues(x: Setting, events: seq<Event>, f: Future)
    requires Run(x, events).Some? && f in Run(x, events).value.futures
    requires Get(Run(x, events).value, f) == Waits && f.task !in Run(x, events).value.lost
    ensures Run(x, events + [Tick(true)]).Some? && f.task in Run(x, events + [Tick(true)]).value.queued
    ensures Run(x, events + [Tick(false)]) == Run(x, events)
  {
    EachFutureReadsItsOwnCall(x, events, f);
    EveryRunIsSound(x, events);
    assert (events + [Tick(true)])[..|events|] == events && (events + [Tick(false)])[..|events|] == events;
  }

  /** No batch handed to the pool, or finished, ever holds more than max(1, batch_max_size) calls, and
      no two futures share a result. */
  lemma {:induction false} BatchesAreBounded(x: Setting, events: seq<Event>, t: nat)
    requires Run(x, events).Some? && t < |Run(x, events).value.tasks|
    ensures 1 <= |Run(x, events).value.tasks[t].calls| <= (if x.batchMax < 1 then 1 else x.batchMax)
    ensures FuturesSound(Run(x, events).value)
  {
    EveryRunIsSound(x, events);
  }

  // ----- Futures lost to an empty pool

  /** Some pool thread took a task while the pool had no Web3 instance. */
  ghost predicate ExecutedWithoutInstance(x: Setting, events: seq<Event>) {
    exists i :: 0 <= i < |events| && events[i].PoolExecutes?
                && Run(x, events[..i]).Some? && Run(x, events[..i]).value.instances == 0
  }

  lemma {:induction false} StarvedAppend(x: Setting, events: seq<Event>)
    requires events != []
    ensures var (init, e) := (events[..|events| - 1], events[|events| - 1]);
            ExecutedWithoutInstance(x, events) <==>
              || ExecutedWithoutInstance(x, init)
              || (e.PoolExecutes? && Run(x, init).Some? && Run(x, init).value.instances == 0)
  {
    var init := events[..|events| - 1];
    assert forall i :: 0 <= i < |init| ==> events[..i] == init[..i] && events[i] == init[i];
    if ExecutedWithoutInstance(x, init) {
      var i :| 0 <= i < |init| && init[i].PoolExecutes? && Run(x, init[..i]).Some?
          && Run(x, init[..i]).value.instances == 0;
      assert events[i].PoolExecutes? && Run(x, events[..i]).value.instances == 0;
    }
  }

  lemma StepLoses(s: State, e: Event, batchMax: int, contract: Contract, decode: Decoder)
    requires InBounds(s) && Step(s, e, batchMax, contract, decode).Some?
    ensures Step(s, e, batchMax, contract, decode).value.lost != []
            <==> s.lost != [] || (e.PoolExecutes? && s.instances == 0)
  {}

  lemma {:induction false} LostIff(x: Setting, events: seq<Event>)
    requires Run(x, events).Some?
    ensures Run(x, events).value.lost != [] <==> ExecutedWithoutInstance(x, events)
  {
    if events != [] {
      var init := events[..|events| - 1];
      LostIff(x, init);
      StarvedAppend(x, events);
      StepLoses(Run(x, init).value, events[|events| - 1], x.batchMax, x.contract, x.decode);
    }
  }

  ghost predicate WaitingAreOpen(s: State) {
    forall f :: f in s.futures && Get(s, f) == Waits ==> Open(s, f.task)
  }

  /** In every run: each waiting future belongs to a batch that is still pending or queued exactly when no pool
      thread ever took a task while the pool had no Web3 instance. */
  lemma {:induction false} WaitingAreOpenIff(x: Setting, events: seq<Event>)
    requires Run(x, events).Some?
    ensures WaitingAreOpen(Run(x, events).value) <==> !ExecutedWithoutInstance(x, events)
  {
    var s := Run(x, events).value;
    EveryRunIsSound(x, events);
    LostIff(x, events);
    if s.lost == [] {
      forall f | f in s.futures && Get(s, f) == Waits ensures Open(s, f.task) {
        assert FutureSound(s, f);
      }
    } else {
      assert s.lost[0] in s.lost && HasFuture(s, s.lost[0]);
      var i :| 0 <= i < |s.futures| && s.futures[i].task == s.lost[0];
      assert s.futures[i] in s.futures && Get(s, s.futures[i]) == Waits;
    }
  }

  /** So a pool that starts with an instance never loses a future. */
  lemma {:induction false} StockedPoolLosesNothing(x: Setting, events: seq<Event>)
    requires x.instances > 0 && Run(x, events).Some?
    ensures WaitingAreOpen(Run(x, events).value)
  {
    forall i | 0 <= i <= |events| && Run(x, events[..i]).Some? ensures Run(x, events[..i]).value.instances > 0 {
      InstancesStay(x, events[..i]);
    }
    WaitingAreOpenIff(x, events);
  }

  lemma {:induction false} InstancesStay(x: Setting, events: seq<Event>)
    requires Run(x, events).Some?
    ensures Run(x, events).value.instances >= x.instances
  {
    if events != [] {
      InstancesStay(x, events[..|events| - 1]);
    }
  }

  lemma StepKeepsLost(s: State, e: Event, batchMax: int, contract: Contract, decode: Decoder, t: nat)
    requires InBounds(s) && t in s.lost && Step(s, e, batchMax, contract, decode).Some?
    ensures t in Step(s, e, batchMax, contract, decode).value.lost
  {}

  lemma {:induction false} LostStays(x: Setting, events: seq<Event>, later: seq<Event>, t: nat)
    requires Run(x, events).Some? && Run(x, events + later).Some? && t in Run(x, events).value.lost
    ensures t in Run(x, events + later).value.lost
    decreases |later|
  {
    var all := events + later;
    if later == [] {
      assert all == events;
    } else {
      var init := later[..|later| - 1];
      assert all[..|all| - 1] == events + init;
      LostStays(x, events, init, t);
      StepKeepsLost(Run(x, events + init).value, all[|all| - 1], x.batchMax, x.contract, x.decode, t);
    }
  }

  /** A lost future waits forever, whatever happens next, new instances included. */
  lemma {:induction false} LostWaitsForever(x: Setting, events: seq<Event>, later: seq<Event>, f: Future)
    requires Run(x, events).Some? && Run(x, events + later).Some? && f.task in Run(x, events).value.lost
    ensures Get(Run(x, events + later).value, f) == Waits
  {
    LostStays(x, events, later, f.task);
    EveryRunIsSound(x, events + later);
  }

  /** Concretely: with an empty pool, one submitted call and one pool thread lose a future. */
  lemma EmptyPoolLosesFuture(x: Setting, call: Call) returns (events: seq<Event>, f: Future)
    requires x.instances == 0
    ensures events == [Submit(call, true), PoolExecutes(0, Answers(1))] && Run(x, events).Some?
    ensures var s := Run(x, events).value; f in s.futures && Get(s, f) == Waits && !Open(s, f.task)
  {
    var first := [Submit(call, true)];
    events := first + [PoolExecutes(0, Answers(1))];
    assert events[..1] == first && first[..0] == [];
    assert Run(x, []) == Some(Start(0));
    f := Future(0, 0, call);
    var s := Run(x, first).value;
    assert s.queued == [0] && f in s.futures && s.tasks[0].outcome == None;
    assert RemoveAt(s.queued, 0) == [];
    assert Run(x, events).value == s.(queued := [], lost := [0]);
  }

  // ----- The object

  class W3MulticallExecutor {
    const batchMaxSize: int
    var tasks: seq<Task>
    var pendingTask: Option<nat>
    var queued: seq<nat>
    var instances: nat
    ghost var futures: seq<Future>
    ghost var lost: seq<nat>

    ghost function Current(): State
      reads this
    {
      State(tasks, pendingTask, queued, instances, futures, lost)
    }

    ghost predicate Valid()
      reads this
    {
      InBounds(Current())
    }

    constructor (batchMaxSize: int, instances: nat)
      ensures Valid() && Current() == Start(instances) && this.batchMaxSize == batchMaxSize
    {
      this.batchMaxSize, this.instances := batchMaxSize, instances;
      tasks, pendingTask, queued, futures, lost := [], None, [], [], [];
    }

    method CheckPendingTask(due: bool)
      requires Valid()
      modifies this
      ensures Valid() && Current() == Check(old(Current()), batchMaxSize, due)
    {
      if pendingTask.Some? && (due || |tasks[pendingTask.value].calls| >= batchMaxSize) {
        var task := pendingTask.value;
        pendingTask := None;
        queued := queued + [task];
      }
    }

    method SubmitCall(call: Call, due: bool) returns (f: Future)
      requires Valid()
      modifies this
      ensures Valid() && Current() == Check(Enqueue(old(Current()), call), batchMaxSize, due)
      ensures futures == old(futures) + [f] && f.call == call
    {
      if pendingTask.None? {
        tasks, pendingTask := tasks + [Task([], None)], Some(|tasks|);
      }
      var task := pendingTask.value;
      var callKey := |tasks[task].calls|;
      tasks := tasks[task := tasks[task].(calls := tasks[task].calls + [call])];
      f := Future(task, callKey, call);
      futures := futures + [f];
      assert Current() == Enqueue(old(Current()), call) by {
        assert [] + [call] == [call];
        assert old(pendingTask).None? ==> tasks[task] == Task([call], None);
      }
      CheckPendingTask(due);
    }

    /** A pool thread takes queued task k, asks the pool for a Web3 instance, and runs the calls. */
    method ExecuteQueued(k: nat, contract: Contract, decode: Decoder, reply: Reply)
      requires Valid() && k < |queued|
      modifies this
      ensures Valid() && Current() == Execute(old(Current()), k, contract, decode, reply)
    {
      var t := queued[k];
      queued := RemoveAt(queued, k);
      if instances == 0 {
        lost := lost + [t];
        return;
      }
      var outcome := RunBatch(tasks[t].calls, contract, decode, reply);
      tasks := tasks[t := tasks[t].(outcome := Some(outcome))];
    }
  }

  method RunBatch(calls: seq<Call>, contract: Contract, decode: Decoder, reply: Reply) returns (outcome: Outcome)
    ensures outcome == OutcomeOf(calls, contract, decode, reply)
  {
    var w3m := new W3Multicall([]);
    for i := 0 to |calls|
      invariant w3m.calls == calls[..i]
    {
      w3m.Add(calls[i]);
    }
    assert calls[..|calls|] == calls;
    var response := match reply
      case Failure(e) => Err(e)
      case Answers(n) => Ok(Answered(calls, contract, n));
    var results := w3m.CallAll(_ => response, decode);
    outcome := if results.Err? || |results.value| < |calls| then Raised else Results(results.value);
  }
}
