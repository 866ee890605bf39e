/** Serialising transactions of one account (servers/common/services/blockchain.py: NonceManager and the
    lock lifecycle of bc_execute).

    Tasks are asyncio coroutines, so a step runs from one suspension to the next. Every address has its own
    lock; the machine below is the life of one of them. The lock is asyncio.Lock: waiters queue in order, a
    release wakes the first one, and the woken waiter takes the lock only when it resumes. */
module NonceManager {
  import opened Prelude

  // ----- asyncio.Lock

  datatype Waiter = Waiter(task: nat, woken: bool)

  datatype Lock = Lock(locked: bool, waiters: seq<Waiter>)

  const NEW_LOCK := Lock(false, [])

  function WakeFirst(l: Lock): Lock {
    if l.waiters == [] then l else l.(waiters := l.waiters[0 := l.waiters[0].(woken := true)])
  }

  /** `release` of a held lock. */
  function Release(l: Lock): Lock {
    WakeFirst(l.(locked := false))
  }

  /** `NonceManager.release`: unlock if locked. */
  function ReleaseIfLocked(l: Lock): Lock {
    if l.locked then Release(l) else l
  }

  predicate Free(l: Lock) {
    !l.locked && l.waiters == []
  }

  function IndexOfTask(ws: seq<Waiter>, t: nat): (i: nat)
    ensures i <= |ws| && (i < |ws| ==> ws[i].task == t) && forall j :: 0 <= j < i ==> ws[j].task != t
  {
    if ws == [] || ws[0].task == t then 0 else 1 + IndexOfTask(ws[1..], t)
  }

  /** The waiter's `finally`: it leaves the queue, wherever it stands. */
  function Leave(l: Lock, t: nat): Lock {
    var i := IndexOfTask(l.waiters, t);
    if i < |l.waiters| then l.(waiters := RemoveAt(l.waiters, i)) else l
  }

  /** Leaving a transaction: the release that ends the polling, or raises if the lock is not held, and then
      the unconditional release in `finally`, with no suspension in between. */
  function ExitLock(l: Lock): Lock {
    ReleaseIfLocked(if l.locked then Release(l) else l)
  }

  /** The second release never does anything after the first. */
  lemma SecondReleaseIsIdle(l: Lock)
    ensures ExitLock(l) == ReleaseIfLocked(l) && !ExitLock(l).locked
  {}

  // ----- One address

  const POLL_ATTEMPTS := 20

  datatype Phase =
    | Waiting                             // in lock.acquire
    | Fetching(asked: nat)                // holds; the pending count has been asked for
    | Sending(nonce: nat)                 // holds; building, signing and sending the transaction
    | Polling(nonce: nat, left: nat)      // holds; the pending count has been asked for again
    | Pausing(nonce: nat, left: nat)      // holds; asleep between two polls
    | Finished

  predicate Holds(p: Phase) {
    !p.Waiting? && !p.Finished?
  }

  /** A task that released the lock, and who held it. */
  datatype Freed = Freed(task: nat, holder: Option<nat>)

  /** A nonce taken, and the predecessor's nonce if the predecessor left on seeing the count advance. */
  datatype Taken = Taken(task: nat, nonce: nat, predecessor: Option<nat>)

  /** `owner`, `committed` and the logs are not program state. `committed` is the nonce of the last task to
      leave, if it left on seeing the count advance. */
  datatype System = System(
    lock: Lock, phases: map<nat, Phase>, pending: nat,
    owner: Option<nat>, committed: Option<nat>,
    arrived: seq<nat>, served: seq<nat>, freed: seq<Freed>, taken: seq<Taken>)

  datatype Event =
    | Arrives(t: nat)
    | Resumes(t: nat)
    | CountArrives(t: nat, count: nat)
    | Sent(t: nat)
    | PollArrives(t: nat, count: nat)
    | PollFails(t: nat)
    | Wakes(t: nat)
    | Raises(t: nat)                      // an exception, or cancellation of a task that holds the lock
    | CancelledInQueue(t: nat)
    | ChainAdvances(count: nat)

  const START := System(NEW_LOCK, map[], 0, None, None, [], [], [], [])

  function In(s: System, t: nat): Phase {
    if t in s.phases then s.phases[t] else Finished
  }

  /** t takes the lock and asks for the pending count. */
  function Take(s: System, t: nat, l: Lock): System {
    s.(lock := l, owner := Some(t), served := s.served + [t], phases := s.phases[t := Fetching(s.pending)])
  }

  /** t runs its way out with the lock as it leaves it. */
  function LeaveWith(s: System, t: nat, l: Lock, committed: Option<nat>): System {
    s.(lock := l, phases := s.phases[t := Finished], committed := committed,
       owner := if s.lock.locked then None else s.owner,
       freed := if s.lock.locked then s.freed + [Freed(t, s.owner)] else s.freed)
  }

  ghost function Step(s: System, e: Event): Option<System> {
    match e
    case Arrives(t) =>
      if t in s.phases then None
      else
        var s' := s.(arrived := s.arrived + [t]);
        if Free(s.lock) then Some(Take(s', t, Lock(true, [])))
        else Some(s'.(lock := s.lock.(waiters := s.lock.waiters + [Waiter(t, false)]),
                      phases := s.phases[t := Waiting]))
    case Resumes(t) =>
      if In(s, t).Waiting? && Waiter(t, true) in s.lock.waiters then Some(Take(s, t, Leave(s.lock, t).(locked := true)))
      else None
    case CountArrives(t, count) =>
      if In(s, t).Fetching? && s.phases[t].asked <= count <= s.pending
      then Some(s.(phases := s.phases[t := Sending(count)], taken := s.taken + [Taken(t, count, s.committed)]))
      else None
    case Sent(t) =>
      if In(s, t).Sending?
      then Some(s.(phases := s.phases[t := Polling(s.phases[t].nonce, POLL_ATTEMPTS - 1)]))
      else None
    case PollArrives(t, count) =>
      if !In(s, t).Polling? || count > s.pending then None
      else
        var Polling(nonce, left) := s.phases[t];
        if count > nonce then Some(LeaveWith(s, t, ExitLock(s.lock), Some(nonce)))
        else Some(s.(phases := s.phases[t := Pausing(nonce, left)]))
    case PollFails(t) =>
      if In(s, t).Polling?
      then Some(s.(phases := s.phases[t := Pausing(s.phases[t].nonce, s.phases[t].left)]))
      else None
    case Wakes(t) =>
      if !In(s, t).Pausing? then None
      else
        var Pausing(nonce, left) := s.phases[t];
        if left > 0 then Some(s.(phases := s.phases[t := Polling(nonce, left - 1)]))
        else Some(LeaveWith(s, t, ExitLock(s.lock), None))
    case Raises(t) =>
      if Holds(In(s, t)) then Some(LeaveWith(s, t, ReleaseIfLocked(s.lock), None)) else None
    case CancelledInQueue(t) =>
      if !In(s, t).Waiting? then None
      else
        var left := Leave(s.lock, t);
        var l := ReleaseIfLocked(if left.locked then left else WakeFirst(left));
        Some(if s.lock.locked then LeaveWith(s, t, l, None) else s.(lock := l, phases := s.phases[t := Finished]))
    case ChainAdvances(count) =>
      if count >= s.pending then Some(s.(pending := count)) else None
  }

  ghost function Run(events: seq<Event>): Option<System> {
    if events == [] then Some(START) else
      match Run(events[..|events| - 1])
      case None => None
      case Some(s) => Step(s, events[|events| - 1])
  }

  // ----- Mutual exclusion

  ghost predicate DistinctWaiters(ws: seq<Waiter>) {
    forall i, j :: 0 <= i < j < |ws| ==> ws[i].task != ws[j].task
  }

  ghost predicate Queued(ws: seq<Waiter>, t: nat) {
    exists i :: 0 <= i < |ws| && ws[i].task == t
  }

  /** No wake-up is lost and none is early: while the lock is held nobody in the queue is awake; while it is
      not, exactly the head of the queue is. */
  ghost predicate WokenRight(l: Lock) {
    forall i :: 0 <= i < |l.waiters| ==> (l.waiters[i].woken <==> !l.locked && i == 0)
  }

  /** The owner, and nobody else, is between acquire and release. */
  ghost predicate OneHolder(s: System) {
    && (s.lock.locked <==> s.owner.Some?)
    && (forall t :: t in s.phases ==> (Holds(s.phases[t]) <==> s.owner == Some(t)))
    && (s.owner.Some? ==> s.owner.value in s.phases)
  }

  ghost predicate QueueMatches(s: System) {
    && DistinctWaiters(s.lock.waiters)
    && (forall t :: Queued(s.lock.waiters, t) <==> t in s.phases && s.phases[t].Waiting?)
  }

  ghost predicate OwnReleases(s: System) {
    forall r :: r in s.freed ==> r.holder == Some(r.task)
  }

  ghost predicate Exclusive(s: System) {
    OneHolder(s) && QueueMatches(s) && WokenRight(s.lock) && OwnReleases(s)
  }

  lemma OneWaiterGone(ws: seq<Waiter>, i: nat, u: nat)
    requires i < |ws| && DistinctWaiters(ws)
    ensures Queued(RemoveAt(ws, i), u) <==> Queued(ws, u) && u != ws[i].task
  {
    var rest := RemoveAt(ws, i);
    assert forall k :: 0 <= k < |rest| ==> rest[k] == ws[if k < i then k else k + 1];
    if Queued(ws, u) && u != ws[i].task {
      var k :| 0 <= k < |ws| && ws[k].task == u;
      assert rest[if k < i then k else k - 1].task == u;
    }
  }

  lemma LeaveQueue(l: Lock, t: nat)
    requires DistinctWaiters(l.waiters) && Queued(l.waiters, t)
    ensures var ws := Leave(l, t).waiters;
            && DistinctWaiters(ws) && Leave(l, t).locked == l.locked
            && forall u :: Queued(ws, u) <==> Queued(l.waiters, u) && u != t
  {
    var i := IndexOfTask(l.waiters, t);
    forall u ensures Queued(RemoveAt(l.waiters, i), u) <==> Queued(l.waiters, u) && u != t {
      OneWaiterGone(l.waiters, i, u);
    }
  }

  lemma WakingKeepsQueue(l: Lock)
    ensures var ws := WakeFirst(l).waiters;
            && |ws| == |l.waiters|
            && (forall i :: 0 <= i < |ws| ==> ws[i].task == l.waiters[i].task)
            && (DistinctWaiters(ws) <==> DistinctWaiters(l.waiters))
            && forall u :: Queued(ws, u) <==> Queued(l.waiters, u)
  {}

  lemma ArrivalKeepsExclusive(s: System, t: nat)
    requires Exclusive(s) && Step(s, Arrives(t)).Some?
    ensures Exclusive(Step(s, Arrives(t)).value)
  {
    var r := Step(s, Arrives(t)).value;
    assert !Queued(s.lock.waiters, t);
    if !Free(s.lock) {
      var ws := s.lock.waiters;
      assert r.lock.waiters[|ws|].task == t;
      forall u ensures Queued(r.lock.waiters, u) <==> Queued(ws, u) || u == t {
        if Queued(ws, u) {
          var k :| 0 <= k < |ws| && ws[k].task == u;
          assert r.lock.waiters[k].task == u;
        }
      }
    }
  }

  lemma ResumptionKeepsExclusive(s: System, t: nat)
    requires Exclusive(s) && Step(s, Resumes(t)).Some?
    ensures Exclusive(Step(s, Resumes(t)).value)
    ensures s.lock.waiters != [] && s.lock.waiters[0].task == t && Leave(s.lock, t).waiters == s.lock.waiters[1..]
  {
    var ws := s.lock.waiters;
    var k :| 0 <= k < |ws| && ws[k] == Waiter(t, true);
    assert !s.lock.locked && k == 0;
    LeaveQueue(s.lock, t);
    assert RemoveAt(ws, 0) == ws[1..];
  }

  /** Whoever holds the lock may leave: the lock passes to the head of the queue, or becomes free. */
  lemma LeavingKeepsExclusive(s: System, t: nat, committed: Option<nat>)
    requires Exclusive(s) && t in s.phases && Holds(s.phases[t])
    ensures Exclusive(LeaveWith(s, t, ReleaseIfLocked(s.lock), committed))
  {
    WakingKeepsQueue(s.lock.(locked := false));
  }

  lemma HolderMovesOn(s: System, t: nat, p: Phase)
    requires Exclusive(s) && t in s.phases && Holds(s.phases[t]) && Holds(p)
    ensures Exclusive(s.(phases := s.phases[t := p]))
  {}

  /** A task cancelled while the lock is momentarily free hands the wake-up on. */
  lemma QuietCancelKeepsExclusive(s: System, t: nat)
    requires Exclusive(s) && !s.lock.locked && Step(s, CancelledInQueue(t)).Some?
    ensures Exclusive(Step(s, CancelledInQueue(t)).value)
  {
    LeaveQueue(s.lock, t);
    WakingKeepsQueue(Leave(s.lock, t));
  }

  ghost predicate FreedForeign(s: System) {
    exists i :: 0 <= i < |s.freed| && s.freed[i].holder != Some(s.freed[i].task)
  }

  /** Cancelling a task queued behind a held lock frees a lock that is not its own. */
  lemma NoisyCancelFreesForeign(s: System, t: nat)
    requires Exclusive(s) && s.lock.locked && Step(s, CancelledInQueue(t)).Some?
    ensures FreedForeign(Step(s, CancelledInQueue(t)).value)
  {
    assert Step(s, CancelledInQueue(t)).value.freed[|s.freed|] == Freed(t, s.owner);
  }

  /** Cancelling a queued task is harmless exactly when nobody holds the lock at that moment: otherwise
      its `finally` releases the holder's lock. */
  lemma CancelledInQueueKeepsExclusiveIff(s: System, t: nat)
    requires Exclusive(s) && Step(s, CancelledInQueue(t)).Some?
    ensures Exclusive(Step(s, CancelledInQueue(t)).value) <==> !s.lock.locked
  {
    if !s.lock.locked {
      QuietCancelKeepsExclusive(s, t);
    } else {
      NoisyCancelFreesForeign(s, t);
    }
  }

  lemma StepKeepsExclusive(s: System, e: Event)
    requires Exclusive(s) && Step(s, e).Some?
    requires e.CancelledInQueue? ==> !s.lock.locked
    ensures Exclusive(Step(s, e).value)
  {
    match e {
      case Arrives(t) => ArrivalKeepsExclusive(s, t);
      case Resumes(t) => ResumptionKeepsExclusive(s, t);
      case CancelledInQueue(t) => CancelledInQueueKeepsExclusiveIff(s, t);
      case ChainAdvances(_) =>
      case Raises(t) => LeavingKeepsExclusive(s, t, None);
      case CountArrives(t, count) => HolderMovesOn(s, t, Sending(count));
      case Sent(t) => HolderMovesOn(s, t, Polling(s.phases[t].nonce, POLL_ATTEMPTS - 1));
      case PollFails(t) => HolderMovesOn(s, t, Pausing(s.phases[t].nonce, s.phases[t].left));
      case PollArrives(t, count) =>
        SecondReleaseIsIdle(s.lock);
        LeavingKeepsExclusive(s, t, Some(s.phases[t].nonce));
        HolderMovesOn(s, t, Pausing(s.phases[t].nonce, s.phases[t].left));
      case Wakes(t) =>
        SecondReleaseIsIdle(s.lock);
        LeavingKeepsExclusive(s, t, None);
        if s.phases[t].left > 0 {
          HolderMovesOn(s, t, Polling(s.phases[t].nonce, s.phases[t].left - 1));
        }
    }
  }

  /** No task is cancelled in the queue while somebody holds the lock. */
  ghost predicate QuietCancels(events: seq<Event>) {
    forall i :: 0 <= i < |events| && events[i].CancelledInQueue? ==>
      Run(events[..i]).Some? && !Run(events[..i]).value.lock.locked
  }

  lemma QuietPrefix(events: seq<Event>)
    requires events != [] && QuietCancels(events)
    ensures QuietCancels(events[..|events| - 1])
  {
    var init := events[..|events| - 1];
    forall i | 0 <= i < |init| && init[i].CancelledInQueue?
      ensures Run(init[..i]).Some? && !Run(init[..i]).value.lock.locked
    {
      assert init[..i] == events[..i] && init[i] == events[i];
    }
  }

  /** In every such run, exceptions and cancellations of the holder included: at most one task is between
      acquire and release, no release ever frees another task's lock, and no wake-up is lost. */
  lemma {:induction false} EveryRunIsExclusive(events: seq<Event>)
    requires Run(events).Some? && QuietCancels(events)
    ensures Exclusive(Run(events).value)
  {
    if events != [] {
      QuietPrefix(events);
      EveryRunIsExclusive(events[..|events| - 1]);
      StepKeepsExclusive(Run(events[..|events| - 1]).value, events[|events| - 1]);
    }
  }

  lemma {:induction false} AtMostOneHolder(events: seq<Event>, t: nat, u: nat)
    requires Run(events).Some? && QuietCancels(events)
    ensures var s := Run(events).value; Holds(In(s, t)) && Holds(In(s, u)) ==> t == u
    ensures forall r :: r in Run(events).value.freed ==> r.holder == Some(r.task)
  {
    EveryRunIsExclusive(events);
  }

  lemma QuietAppend(events: seq<Event>)
    requires events != []
    ensures var (init, e) := (events[..|events| - 1], events[|events| - 1]);
            QuietCancels(events) <==>
              QuietCancels(init) && (e.CancelledInQueue? ==> Run(init).Some? && !Run(init).value.lock.locked)
  {
    var init := events[..|events| - 1];
    assert forall i :: 0 <= i < |init| ==> events[..i] == init[..i] && events[i] == init[i];
    if QuietCancels(events) {
      QuietPrefix(events);
    }
  }

  lemma ForeignStays(s: System, e: Event)
    requires FreedForeign(s) && Step(s, e).Some?
    ensures FreedForeign(Step(s, e).value)
  {
    var i :| 0 <= i < |s.freed| && s.freed[i].holder != Some(s.freed[i].task);
    assert Step(s, e).value.freed[i] == s.freed[i];
  }

  lemma {:induction false} NoisyRunFreesForeign(events: seq<Event>)
    requires Run(events).Some? && !QuietCancels(events)
    ensures FreedForeign(Run(events).value)
  {
    if events != [] {
      var init, e := events[..|events| - 1], events[|events| - 1];
      QuietAppend(events);
      if QuietCancels(init) {
        EveryRunIsExclusive(init);
        NoisyCancelFreesForeign(Run(init).value, e.t);
      } else {
        NoisyRunFreesForeign(init);
        ForeignStays(Run(init).value, e);
      }
    }
  }

  /** Over whole runs: one holder, own releases only and no lost wake-up, exactly when no task was ever
      cancelled while queued behind a held lock. */
  lemma {:induction false} RunIsExclusiveIff(events: seq<Event>)
    requires Run(events).Some?
    ensures Exclusive(Run(events).value) <==> QuietCancels(events)
  {
    if QuietCancels(events) {
      EveryRunIsExclusive(events);
    } else {
      NoisyRunFreesForeign(events);
    }
  }

  lemma Extend(events: seq<Event>, s: System, e: Event) returns (longer: seq<Event>)
    requires Run(events) == Some(s)
    ensures longer == events + [e] && Run(longer) == Step(s, e)
  {
    longer := events + [e];
    assert longer[..|events|] == events;
  }

  /** Concretely: task 2 is cancelled while queued behind task 1, and task 3 then gets the lock that
      task 1 still holds. */
  lemma CancelledInQueueFreesAnothersLock() returns (events: seq<Event>)
    ensures events == [Arrives(1), Arrives(2), CancelledInQueue(2), Arrives(3)]
    ensures Run(events).Some? && Holds(In(Run(events).value, 1)) && Holds(In(Run(events).value, 3))
  {
    events := Extend([], START, Arrives(1));
    var s1 := Run(events).value;
    events := Extend(events, s1, Arrives(2));
    var s2 := Run(events).value;
    assert s2.lock == Lock(true, [Waiter(2, false)]) by {
      assert s1.lock.waiters + [Waiter(2, false)] == [Waiter(2, false)];
    }
    assert Leave(s2.lock, 2).waiters == [];
    events := Extend(events, s2, CancelledInQueue(2));
    var s3 := Run(events).value;
    assert Free(s3.lock);
    events := Extend(events, s3, Arrives(3));
  }

  // ----- First come, first served

  function Tasks(ws: seq<Waiter>): (ts: seq<nat>)
    ensures |ts| == |ws|
  {
    seq(|ws|, i requires 0 <= i < |ws| => ws[i].task)
  }

  /** Without cancellations in the queue, tasks take the lock in the order in which they arrived. */
  lemma {:induction false} FirstComeFirstServed(events: seq<Event>)
    requires Run(events).Some? && forall e :: e in events ==> !e.CancelledInQueue?
    ensures InOrder(Run(events).value)
  {
    if events != [] {
      var init, e := events[..|events| - 1], events[|events| - 1];
      FirstComeFirstServed(init);
      var s := Run(init).value;
      assert QuietCancels(init);
      EveryRunIsExclusive(init);
      assert e in events;
      StepServesInOrder(s, e);
    }
  }

  ghost predicate InOrder(s: System) {
    s.arrived == s.served + Tasks(s.lock.waiters)
  }

  lemma StepServesInOrder(s: System, e: Event)
    requires Exclusive(s) && Step(s, e).Some? && !e.CancelledInQueue? && InOrder(s)
    ensures InOrder(Step(s, e).value)
  {
    match e {
      case Arrives(t) => ArrivalServesInOrder(s, t);
      case Resumes(t) => ResumptionServesInOrder(s, t);
      case _ => OthersKeepQueue(s, e);
    }
  }

  lemma ArrivalServesInOrder(s: System, t: nat)
    requires Step(s, Arrives(t)).Some? && InOrder(s)
    ensures InOrder(Step(s, Arrives(t)).value)
  {
    var ws, queue := s.lock.waiters, Tasks(s.lock.waiters);
    assert Tasks([]) == [];
    assert Tasks(ws + [Waiter(t, false)]) == queue + [t];
    assert s.served + (queue + [t]) == s.arrived + [t];
    assert ws == [] ==> s.served + [t] + [] == s.arrived + [t];
  }

  lemma HeadMoves(served: seq<nat>, ws: seq<Waiter>)
    requires ws != []
    ensures served + Tasks(ws) == served + [ws[0].task] + Tasks(ws[1..])
  {
    assert Tasks(ws) == [ws[0].task] + Tasks(ws[1..]);
  }

  lemma ResumptionServesInOrder(s: System, t: nat)
    requires Exclusive(s) && Step(s, Resumes(t)).Some? && InOrder(s)
    ensures InOrder(Step(s, Resumes(t)).value)
  {
    ResumptionKeepsExclusive(s, t);
    HeadMoves(s.served, s.lock.waiters);
  }

  lemma OthersKeepQueue(s: System, e: Event)
    requires Step(s, e).Some? && !e.Arrives? && !e.Resumes? && !e.CancelledInQueue?
    ensures var r := Step(s, e).value;
            r.arrived == s.arrived && r.served == s.served && Tasks(r.lock.waiters) == Tasks(s.lock.waiters)
  {
    WakingKeepsQueue(s.lock.(locked := false));
  }

  /** The queue never gets stuck: while anybody waits, somebody holds the lock or its head can resume. */
  lemma {:induction false} QueueNeverStuck(events: seq<Event>)
    requires Run(events).Some? && QuietCancels(events) && Run(events).value.lock.waiters != []
    ensures var s := Run(events).value;
            (exists t :: t in s.phases && Holds(s.phases[t])) || Step(s, Resumes(s.lock.waiters[0].task)).Some?
  {
    EveryRunIsExclusive(events);
    var s := Run(events).value;
    assert Queued(s.lock.waiters, s.lock.waiters[0].task);
    assert s.lock.waiters[0] in s.lock.waiters;
  }

  // ----- Nonces grow

  /** The last leaver's nonce is behind the chain, and behind what the current holder asked for. */
  ghost predicate CountAhead(s: System) {
    && (s.committed.Some? ==> s.committed.value < s.pending)
    && (forall t :: t in s.phases && s.phases[t].Fetching? && s.committed.Some? ==>
        s.committed.value < s.phases[t].asked)
    && (forall u :: u in s.taken && u.predecessor.Some? ==> u.predecessor.value < u.nonce)
  }

  lemma StepKeepsCountAhead(s: System, e: Event)
    requires Exclusive(s) && CountAhead(s) && Step(s, e).Some?
    requires e.CancelledInQueue? ==> !s.lock.locked
    ensures CountAhead(Step(s, e).value)
  {}

  /** A task whose predecessor left on seeing the pending count advance gets a strictly larger nonce. */
  lemma {:induction false} NoncesGrow(events: seq<Event>)
    requires Run(events).Some? && QuietCancels(events)
    ensures CountAhead(Run(events).value)
  {
    if events != [] {
      QuietPrefix(events);
      NoncesGrow(events[..|events| - 1]);
      EveryRunIsExclusive(events[..|events| - 1]);
      StepKeepsCountAhead(Run(events[..|events| - 1]).value, events[|events| - 1]);
    }
  }

  ghost predicate NoneAskedAhead(s: System) {
    forall t :: t in s.phases && s.phases[t].Fetching? ==> s.phases[t].asked <= s.pending
  }

  lemma StepKeepsAsked(s: System, e: Event)
    requires NoneAskedAhead(s) && Step(s, e).Some?
    ensures NoneAskedAhead(Step(s, e).value)
  {}

  lemma {:induction false} AskedNotAhead(events: seq<Event>)
    requires Run(events).Some?
    ensures NoneAskedAhead(Run(events).value)
  {
    if events != [] {
      AskedNotAhead(events[..|events| - 1]);
      StepKeepsAsked(Run(events[..|events| - 1]).value, events[|events| - 1]);
    }
  }

  /** The last nonce taken. */
  ghost function LastNonce(s: System): nat
    requires s.taken != []
  {
    s.taken[|s.taken| - 1].nonce
  }

  predicate HasNonce(p: Phase) {
    p.Sending? || p.Polling? || p.Pausing?
  }

  /** Nonces never go back, and one whose predecessor saw the count advance is above all before it. */
  ghost predicate NoncesInOrder(taken: seq<Taken>) {
    forall i, j :: 0 <= i < j < |taken| ==>
      taken[i].nonce <= taken[j].nonce && (taken[j].predecessor.Some? ==> taken[i].nonce < taken[j].nonce)
  }

  /** The last nonce is not ahead of the chain nor of what the holder asked for, it is the nonce of whoever has
      one, and, until another is taken, of the task that left on seeing the count advance. */
  ghost predicate LastNonceBehind(s: System) {
    && (s.taken != [] ==> LastNonce(s) <= s.pending)
    && (forall t :: t in s.phases && s.phases[t].Fetching? && s.taken != [] ==> LastNonce(s) <= s.phases[t].asked)
    && (forall t :: t in s.phases && HasNonce(s.phases[t]) ==> s.taken != [] && s.phases[t].nonce == LastNonce(s))
    && (s.committed.Some? && (forall t :: t in s.phases ==> !HasNonce(s.phases[t])) ==>
          s.taken != [] && s.committed.value == LastNonce(s))
  }

  lemma TakingKeepsOrder(s: System, t: nat, count: nat)
    requires Exclusive(s) && CountAhead(s) && LastNonceBehind(s) && NoncesInOrder(s.taken)
    requires Step(s, CountArrives(t, count)).Some?
    ensures var r := Step(s, CountArrives(t, count)).value; NoncesInOrder(r.taken) && LastNonceBehind(r)
  {
    var r := Step(s, CountArrives(t, count)).value;
    assert forall u :: u in s.phases ==> !HasNonce(s.phases[u]);
    assert t in r.phases && HasNonce(r.phases[t]);
    AppendKeepsOrder(s.taken, Taken(t, count, s.committed));
  }

  lemma AppendKeepsOrder(taken: seq<Taken>, next: Taken)
    requires NoncesInOrder(taken)
    requires taken != [] ==> taken[|taken| - 1].nonce <= next.nonce
    requires taken != [] && next.predecessor.Some? ==> taken[|taken| - 1].nonce < next.nonce
    ensures NoncesInOrder(taken + [next])
  {
    assert forall i :: 0 <= i < |taken| ==> taken[i].nonce <= taken[|taken| - 1].nonce;
  }

  lemma LeavingKeepsLastNonce(s: System, t: nat, l: Lock, committed: Option<nat>)
    requires Exclusive(s) && LastNonceBehind(s) && t in s.phases && Holds(s.phases[t])
    requires committed.Some? ==> HasNonce(s.phases[t]) && committed.value == s.phases[t].nonce
    ensures LastNonceBehind(LeaveWith(s, t, l, committed))
  {}

  lemma SendingOnKeepsLastNonce(s: System, t: nat, p: Phase)
    requires LastNonceBehind(s) && t in s.phases && HasNonce(s.phases[t])
    requires HasNonce(p) && p.nonce == s.phases[t].nonce
    ensures LastNonceBehind(s.(phases := s.phases[t := p]))
  {
    var r := s.(phases := s.phases[t := p]);
    assert t in r.phases && HasNonce(r.phases[t]);
  }

  /** Nobody gained or lost a nonce, and whoever has newly asked was told the count of now. */
  ghost predicate SameNonces(s: System, r: System) {
    && r.taken == s.taken && r.committed == s.committed && s.pending <= r.pending
    && (forall u :: u in s.phases && HasNonce(s.phases[u]) ==> u in r.phases && r.phases[u] == s.phases[u])
    && (forall u :: u in r.phases && HasNonce(r.phases[u]) ==> u in s.phases && r.phases[u] == s.phases[u])
    && (forall u :: u in r.phases && r.phases[u].Fetching? ==>
          r.phases[u].asked == s.pending || (u in s.phases && r.phases[u] == s.phases[u]))
  }

  lemma SameNoncesKeepLast(s: System, r: System)
    requires LastNonceBehind(s) && SameNonces(s, r)
    ensures LastNonceBehind(r)
  {}

  lemma QueueingKeepsLastNonce(s: System, e: Event)
    requires Exclusive(s) && LastNonceBehind(s) && Step(s, e).Some?
    requires e.Arrives? || e.Resumes? || e.ChainAdvances? || (e.CancelledInQueue? && !s.lock.locked)
    ensures LastNonceBehind(Step(s, e).value)
  {
    QueueingKeepsNonces(s, e);
    SameNoncesKeepLast(s, Step(s, e).value);
  }

  lemma QueueingKeepsNonces(s: System, e: Event)
    requires Step(s, e).Some?
    requires e.Arrives? || e.Resumes? || e.ChainAdvances? || (e.CancelledInQueue? && !s.lock.locked)
    ensures SameNonces(s, Step(s, e).value)
  {}

  lemma OthersKeepLastNonce(s: System, e: Event)
    requires Exclusive(s) && LastNonceBehind(s) && Step(s, e).Some?
    requires !e.CountArrives? && (e.CancelledInQueue? ==> !s.lock.locked)
    ensures LastNonceBehind(Step(s, e).value)
  {
    match e {
      case Sent(t) => SendingOnKeepsLastNonce(s, t, Polling(s.phases[t].nonce, POLL_ATTEMPTS - 1));
      case PollFails(t) => SendingOnKeepsLastNonce(s, t, Pausing(s.phases[t].nonce, s.phases[t].left));
      case PollArrives(t, _) =>
        LeavingKeepsLastNonce(s, t, ExitLock(s.lock), Some(s.phases[t].nonce));
        SendingOnKeepsLastNonce(s, t, Pausing(s.phases[t].nonce, s.phases[t].left));
      case Wakes(t) =>
        LeavingKeepsLastNonce(s, t, ExitLock(s.lock), None);
        if s.phases[t].left > 0 {
          SendingOnKeepsLastNonce(s, t, Polling(s.phases[t].nonce, s.phases[t].left - 1));
        }
      case Raises(t) => LeavingKeepsLastNonce(s, t, ReleaseIfLocked(s.lock), None);
      case _ => QueueingKeepsLastNonce(s, e);
    }
  }

  /** In every run without a cancellation behind a held lock, no task gets a smaller nonce than one before it, and
      one whose predecessor saw the count advance gets a larger nonce than all before it. */
  lemma {:induction false} NoncesNeverGoBack(events: seq<Event>)
    requires Run(events).Some? && QuietCancels(events)
    ensures NoncesInOrder(Run(events).value.taken) && LastNonceBehind(Run(events).value)
  {
    if events != [] {
      var init, e := events[..|events| - 1], events[|events| - 1];
      QuietPrefix(events);
      QuietAppend(events);
      NoncesNeverGoBack(init);
      EveryRunIsExclusive(init);
      NoncesGrow(init);
      if e.CountArrives? {
        TakingKeepsOrder(Run(init).value, e.t, e.count);
      } else {
        OthersKeepLastNonce(Run(init).value, e);
      }
    }
  }

  lemma AnswersFromAsked(s: System, t: nat, n: nat)
    requires NoneAskedAhead(s) && In(s, t).Fetching?
    ensures (forall count :: Step(s, CountArrives(t, count)).Some? ==>
               LastNonce(Step(s, CountArrives(t, count)).value) > n)
            <==> s.phases[t].asked > n
    ensures n >= s.phases[t].asked && n <= s.pending ==>
              Step(s, CountArrives(t, n)).Some? && LastNonce(Step(s, CountArrives(t, n)).value) == n
  {
    var least := s.phases[t].asked;
    assert Step(s, CountArrives(t, least)).Some? && LastNonce(Step(s, CountArrives(t, least)).value) == least;
  }

  /** In every run: a task that has just taken the lock is sure to get a nonce above the last one taken, whatever
      the node answers it, exactly when the pending count had passed that nonce as it took the lock. When it had
      not, and nobody was cancelled behind a held lock, the two are equal, so the very same nonce can come again. */
  lemma {:induction false} NextNonceExceedsIff(events: seq<Event>, t: nat)
    requires Run(events).Some? && In(Run(events).value, t).Fetching? && Run(events).value.taken != []
    ensures var s := Run(events).value;
            (forall count :: Step(s, CountArrives(t, count)).Some? ==>
               LastNonce(Step(s, CountArrives(t, count)).value) > LastNonce(s))
            <==> s.phases[t].asked > LastNonce(s)
    ensures var (s, again) := (Run(events).value, CountArrives(t, LastNonce(Run(events).value)));
            QuietCancels(events) ==>
              && LastNonce(s) <= s.phases[t].asked
              && (Step(s, again).Some? <==> s.phases[t].asked == LastNonce(s))
              && (Step(s, again).Some? ==> LastNonce(Step(s, again).value) == LastNonce(s))
  {
    var s := Run(events).value;
    AskedNotAhead(events);
    AnswersFromAsked(s, t, LastNonce(s));
    if QuietCancels(events) {
      NoncesNeverGoBack(events);
    }
  }

  /** As Extend, for runs whose single events do not matter. */
  lemma Continue(events: seq<Event>, s: System, e: Event) returns (longer: seq<Event>)
    requires Run(events) == Some(s)
    ensures Run(longer) == Step(s, e) && |longer| == |events| + 1
  {
    longer := Extend(events, s, e);
  }

  lemma {:induction false} PollsOut(events: seq<Event>, s: System, t: nat) returns (longer: seq<Event>)
    requires Run(events) == Some(s) && In(s, t).Polling?
    ensures Run(longer) == Some(LeaveWith(s, t, ExitLock(s.lock), None))
    ensures |longer| == |events| + 2 * (s.phases[t].left + 1)
    decreases s.phases[t].left
  {
    var Polling(nonce, left) := s.phases[t];
    longer := Continue(events, s, PollFails(t));
    var paused := Run(longer).value;
    longer := Continue(longer, paused, Wakes(t));
    if left > 0 {
      var s' := Run(longer).value;
      assert s'.phases[t := Finished] == s.phases[t := Finished];
      longer := PollsOut(longer, s', t);
    } else {
      assert paused.phases[t := Finished] == s.phases[t := Finished];
    }
  }

  /** Task 1 takes nonce 0, sends, and starts to poll. */
  lemma FirstSends() returns (events: seq<Event>, s: System)
    ensures Run(events) == Some(s) && s.lock == Lock(true, []) && s.pending == 0 && |events| == 3
    ensures s.phases == map[1 := Polling(0, 19)] && s.taken == [Taken(1, 0, None)]
  {
    events := Continue([], START, Arrives(1));
    var asking := Step(START, Arrives(1)).value;
    events := Continue(events, asking, CountArrives(1, 0));
    var sending := Step(asking, CountArrives(1, 0)).value;
    events := Continue(events, sending, Sent(1));
    s := Step(sending, Sent(1)).value;
  }

  /** Task 2 takes nonce 0 as well, when the lock is free again and the pending count has not moved. */
  lemma SecondTakes(events: seq<Event>, s: System) returns (longer: seq<Event>)
    requires Run(events) == Some(s) && Free(s.lock) && s.pending == 0 && 2 !in s.phases && s.committed == None
    ensures Run(longer).Some? && Run(longer).value.taken == s.taken + [Taken(2, 0, None)] && |longer| == |events| + 2
  {
    longer := Continue(events, s, Arrives(2));
    var asking := Step(s, Arrives(2)).value;
    longer := Continue(longer, asking, CountArrives(2, 0));
  }

  /** A task that gives up after its twenty polls, each of which fails and is slept upon, lets the next one take the
      very same nonce. */
  lemma GivingUpCanRepeatNonce() returns (events: seq<Event>)
    ensures |events| == 3 + 20 * 2 + 2 && Run(events).Some?
            && Run(events).value.taken == [Taken(1, 0, None), Taken(2, 0, None)]
  {
    var sent, s := FirstSends();
    sent := PollsOut(sent, s, 1);
    events := SecondTakes(sent, LeaveWith(s, 1, ExitLock(s.lock), None));
  }

  // ----- The object

  /** One lock per address, made on first use. The methods are the pieces between suspensions. */
  class NonceManager {
    var locks: map<string, Lock>

    function LockOf(addr: string): Lock
      reads this
    {
      if addr in locks then locks[addr] else NEW_LOCK
    }

    constructor ()
      ensures locks == map[]
    {
      locks := map[];
    }

    /** Making the entry does not change the lock of any address. */
    method GetLock(addr: string) returns (l: Lock)
      modifies this
      ensures l == old(LockOf(addr)) && addr in locks
      ensures forall a :: LockOf(a) == old(LockOf(a))
    {
      if addr !in locks {
        locks := locks[addr := NEW_LOCK];
      }
      l := locks[addr];
    }

    /** `acquire` up to its first suspension: the lock, or a place in the queue. */
    method Acquire(addr: string, task: nat) returns (acquired: bool)
      modifies this
      ensures acquired == Free(old(LockOf(addr)))
      ensures LockOf(addr) == if acquired then Lock(true, [])
                              else old(LockOf(addr)).(waiters := old(LockOf(addr)).waiters + [Waiter(task, false)])
      ensures forall a :: a != addr ==> LockOf(a) == old(LockOf(a))
    {
      var l := GetLock(addr);
      if !l.locked && l.waiters == [] {
        locks := locks[addr := l.(locked := true)];
        return true;
      }
      locks := locks[addr := l.(waiters := l.waiters + [Waiter(task, false)])];
      acquired := false;
    }

    /** The woken waiter runs on: out of the queue, and the lock is taken. */
    method ResumeAcquire(addr: string, task: nat)
      modifies this
      ensures LockOf(addr) == Leave(old(LockOf(addr)), task).(locked := true)
      ensures forall a :: a != addr ==> LockOf(a) == old(LockOf(a))
    {
      var l := GetLock(addr);
      locks := locks[addr := Leave(l, task).(locked := true)];
    }

    /** The polling loop of `wait_for_commit_and_release`: `counts` are the node's answers in order, None
        where asking raises. It stops at the first count above the nonce, within twenty polls. */
    method PollForCommit(lastUsedNonce: nat, counts: seq<Option<nat>>) returns (advanced: bool, polls: nat)
      requires |counts| >= 20
      ensures 1 <= polls <= 20 && (!advanced ==> polls == 20)
      ensures advanced <==> counts[polls - 1].Some? && counts[polls - 1].value > lastUsedNonce
      ensures forall i :: 0 <= i < polls - 1 ==> counts[i].None? || counts[i].value <= lastUsedNonce
    {
      advanced, polls := false, 0;
      while polls < POLL_ATTEMPTS
        invariant 0 <= polls <= POLL_ATTEMPTS
        invariant forall i :: 0 <= i < polls ==> counts[i].None? || counts[i].value <= lastUsedNonce
      {
        var onChainNonce := counts[polls];
        polls := polls + 1;
        if onChainNonce.Some? && onChainNonce.value > lastUsedNonce {
          advanced := true;
          return;
        }
      }
    }

    /** The release that ends the polling; false is a RuntimeError. */
    method ReleaseHeld(addr: string) returns (held: bool)
      modifies this
      ensures held == old(LockOf(addr)).locked
      ensures LockOf(addr) == if held then Release(old(LockOf(addr))) else old(LockOf(addr))
      ensures forall a :: a != addr ==> LockOf(a) == old(LockOf(a))
    {
      var l := GetLock(addr);
      held := l.locked;
      if held {
        locks := locks[addr := Release(l)];
      }
    }

    /** `release`, called in every `finally`. */
    method ReleaseQuietly(addr: string)
      modifies this
      ensures LockOf(addr) == ReleaseIfLocked(old(LockOf(addr)))
      ensures forall a :: a != addr ==> LockOf(a) == old(LockOf(a))
    {
      if addr in locks && locks[addr].locked {
        locks := locks[addr := Release(locks[addr])];
      }
    }

    /** The end of a transaction: both releases, with no suspension in between. */
    method Exit(addr: string) returns (held: bool)
      modifies this
      ensures held == old(LockOf(addr)).locked && LockOf(addr) == ExitLock(old(LockOf(addr)))
      ensures forall a :: a != addr ==> LockOf(a) == old(LockOf(a))
    {
      held := ReleaseHeld(addr);
      ReleaseQuietly(addr);
    }
  }
}
