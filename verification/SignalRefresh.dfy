/** The refresh thread racing with readers (servers/common/services/conditional_publish.py).

    `_sync_fetch` runs in an executor thread and stores its results with separate assignments;
    `offline_cfg` may run between any two of them. Each writer assignment and each whole
    `offline_cfg` call is one step here, and one fetch finishes before the next begins. */
module SignalRefresh {
  import opened Prelude
  import opened ConditionalPublish

  /** What a fetch that stored its base/force pair had found out. */
  datatype Fetch = Fetch(value: seq<seq<Answer>>, block: nat, timestamp: Option<nat>, endpoint: bool)

  datatype Writer =
    | Idle
    | ClearingValue
    | GotAnswers(answers: seq<Answer>, block: nat)
    | GotValue(value: seq<seq<Answer>>, block: nat)
    | NeedsEndpoint(value: seq<seq<Answer>>, block: nat, timestamp: Option<nat>)
    | Ready(fetch: Fetch)

  /** A reading and how many fetches had completed before it. */
  datatype Reading = Reading(running: bool, offline: bool, fetches: nat)

  datatype System = System(shared: SignalState, writer: Writer, completed: seq<Fetch>, readings: seq<Reading>)

  datatype Event =
    | MulticallAnswered(answers: seq<Answer>, block: nat)
    | MulticallFailed
    | ValueCleared
    | AnswersSliced
    | ConditionsChecked(timestamp: Option<nat>)
    | EndpointAsked(force: bool)
    | PairStored
    | Read

  const START := System(INITIAL_STATE, Idle, [], [])

  ghost function Step(calls: seq<seq<string>>, s: System, e: Event): (r: Option<System>)
    requires |calls| == 7
  {
    match (e, s.writer)
    case (MulticallAnswered(answers, block), Idle) =>
      Some(s.(shared := s.shared.(lastBlock := Some(block)), writer := GotAnswers(answers, block)))
    case (MulticallFailed, Idle) =>
      Some(s.(shared := s.shared.(lastBlock := None), writer := ClearingValue))
    case (ValueCleared, ClearingValue) =>
      Some(s.(shared := s.shared.(lastValue := None), writer := Idle))
    case (AnswersSliced, GotAnswers(answers, block)) =>
      (match Slices(calls, answers)
       case None => Some(s.(writer := Idle))
       case Some(value) => Some(s.(shared := s.shared.(lastValue := Some(value)), writer := GotValue(value, block))))
    case (ConditionsChecked(timestamp), GotValue(value, block)) =>
      if |value| != 7 then None else
      (match ConditionActive(value, block, timestamp)
       case Err(_) => Some(s.(writer := Idle))
       case Ok(active) =>
         Some(s.(writer := if active then Ready(Fetch(value, block, timestamp, false))
                           else NeedsEndpoint(value, block, timestamp))))
    case (EndpointAsked(force), NeedsEndpoint(value, block, timestamp)) =>
      Some(s.(writer := Ready(Fetch(value, block, timestamp, force))))
    case (PairStored, Ready(fetch)) =>
      if !WellFormed(fetch) then None else
      Some(s.(shared := s.shared.(baseConditionActive := Base(fetch), forcePublish := Force(fetch)),
              writer := Idle, completed := s.completed + [fetch]))
    case (Read, _) =>
      var (offline, after) := Look(s.shared);
      Some(s.(shared := after,
              readings := s.readings + [Reading(s.shared.IsRunning(), offline, |s.completed|)]))
    case _ => None
  }

  ghost predicate WellFormed(f: Fetch) {
    && |f.value| == 7
    && ConditionActive(f.value, f.block, f.timestamp).Ok?
  }

  /** What the fetch concluded about the chain. */
  ghost predicate Base(f: Fetch)
    requires WellFormed(f)
  {
    ConditionActive(f.value, f.block, f.timestamp).value
  }

  /** The endpoint's word, which counts only when no condition holds. */
  ghost predicate Force(f: Fetch)
    requires WellFormed(f)
  {
    !Base(f) && f.endpoint
  }

  ghost function RunFrom(calls: seq<seq<string>>, s: System, events: seq<Event>): Option<System>
    requires |calls| == 7
  {
    if events == [] then Some(s) else
      var before := RunFrom(calls, s, events[..|events| - 1]);
      if before.None? then None else Step(calls, before.value, events[|events| - 1])
  }

  ghost function Run(calls: seq<seq<string>>, events: seq<Event>): Option<System>
    requires |calls| == 7
  {
    RunFrom(calls, START, events)
  }

  // ----- Readings come from one fetch

  /** The mode a reader must see after the first n completed fetches: offline unless some condition
      held or the endpoint forced publication; before any fetch, online. */
  ghost predicate OfflineAfter(completed: seq<Fetch>, n: nat)
    requires n <= |completed|
    requires forall f :: f in completed ==> WellFormed(f)
  {
    n > 0 && !(Base(completed[n - 1]) || Force(completed[n - 1]))
  }

  ghost predicate Coherent(s: System) {
    && (forall f :: f in s.completed ==> WellFormed(f))
    && (s.writer.GotValue? ==> |s.writer.value| == 7)
    && (s.writer.NeedsEndpoint? ==>
          && |s.writer.value| == 7
          && ConditionActive(s.writer.value, s.writer.block, s.writer.timestamp) == Ok(false))
    && (s.writer.Ready? ==> WellFormed(s.writer.fetch))
    && (if s.completed == [] then s.shared.baseConditionActive && !s.shared.forcePublish
        else var last := s.completed[|s.completed| - 1];
             s.shared.baseConditionActive == Base(last) && s.shared.forcePublish == Force(last))
    && (forall k :: 0 <= k < |s.readings| ==>
          && s.readings[k].fetches <= |s.completed|
          && s.readings[k].offline == (s.readings[k].running && OfflineAfter(s.completed, s.readings[k].fetches)))
  }

  lemma StepKeepsCoherent(calls: seq<seq<string>>, s: System, e: Event)
    requires |calls| == 7 && Coherent(s) && Step(calls, s, e).Some?
    ensures Coherent(Step(calls, s, e).value)
  {
    var t := Step(calls, s, e).value;
    if e.PairStored? {
      forall k | 0 <= k < |t.readings|
        ensures OfflineAfter(t.completed, t.readings[k].fetches) == OfflineAfter(s.completed, t.readings[k].fetches) {}
    }
  }

  /** In every run, every reading taken while running is the verdict of one single completed fetch
      (or the initial one), and a reading taken while not running says online. */
  lemma {:induction false} EveryReadingIsOneFetch(calls: seq<seq<string>>, events: seq<Event>)
    requires |calls| == 7 && Run(calls, events).Some?
    ensures Coherent(Run(calls, events).value)
  {
    if events != [] {
      var init := events[..|events| - 1];
      EveryReadingIsOneFetch(calls, init);
      StepKeepsCoherent(calls, Run(calls, init).value, events[|events| - 1]);
    }
  }

  /** So each reading taken while running says offline exactly when the last fetch completed before it found no
      condition active and the endpoint did not force publication; before any fetch, and while not running, online. */
  lemma {:induction false} ReadingSays(calls: seq<seq<string>>, events: seq<Event>, k: nat)
    requires |calls| == 7 && Run(calls, events).Some? && k < |Run(calls, events).value.readings|
    ensures var s := Run(calls, events).value;
            var (r, n) := (s.readings[k], s.readings[k].fetches);
            && n <= |s.completed|
            && (n > 0 ==> |s.completed[n - 1].value| == 7)
            && (r.offline <==>
                  && r.running && n > 0 && !s.completed[n - 1].endpoint
                  && ConditionActive(s.completed[n - 1].value, s.completed[n - 1].block, s.completed[n - 1].timestamp)
                     == Ok(false))
  {
    EveryReadingIsOneFetch(calls, events);
    var s := Run(calls, events).value;
    if s.readings[k].fetches > 0 {
      assert WellFormed(s.completed[s.readings[k].fetches - 1]);
    }
  }

  /** Publication is never forced on top of an active condition. */
  lemma ForceImpliesNotBase(calls: seq<seq<string>>, events: seq<Event>)
    requires |calls| == 7 && Run(calls, events).Some?
    ensures var s := Run(calls, events).value.shared; s.forcePublish ==> !s.baseConditionActive
  {
    EveryReadingIsOneFetch(calls, events);
  }

  /** Two readings with no writer step between them agree, and the second changes nothing. */
  lemma RepeatedReadsAgree(calls: seq<seq<string>>, events: seq<Event>)
    requires |calls| == 7 && Run(calls, events + [Read]).Some?
    ensures Run(calls, events + [Read, Read]).Some?
    ensures var once, twice := Run(calls, events + [Read]).value, Run(calls, events + [Read, Read]).value;
            once.shared == twice.shared && 0 < |once.readings| < |twice.readings|
            && twice.readings[|twice.readings| - 1] == once.readings[|once.readings| - 1]
  {
    var all := events + [Read, Read];
    assert all[..|all| - 1] == events + [Read];
    assert (events + [Read])[..|events|] == events;
    LookTwice(Run(calls, events).value.shared);
  }

  // ----- Recorded transitions

  ghost function NewestBlock(events: seq<Event>): nat {
    if events == [] then 0
    else if events[|events| - 1].MulticallAnswered? then events[|events| - 1].block
    else NewestBlock(events[..|events| - 1])
  }

  /** The node never reports an older block than before. */
  ghost predicate NondecreasingBlocks(events: seq<Event>) {
    events == [] || (
      && NondecreasingBlocks(events[..|events| - 1])
      && (events[|events| - 1].MulticallAnswered? ==>
          NewestBlock(events[..|events| - 1]) <= events[|events| - 1].block))
  }

  /** The latest multicall to come back was answered. */
  ghost predicate LatestAnswered(events: seq<Event>) {
    events != [] && (events[|events| - 1].MulticallAnswered?
                     || (!events[|events| - 1].MulticallFailed? && LatestAnswered(events[..|events| - 1])))
  }

  ghost predicate LastMode(readings: seq<Reading>) {
    readings != [] && readings[|readings| - 1].offline
  }

  /** The newest block known at the latest reading, while running, that found this mode after one that found the
      other; 0 if there was none. The first mode is online. */
  ghost function LastSwitch(calls: seq<seq<string>>, events: seq<Event>, offline: bool): nat
    requires |calls| == 7 && Run(calls, events).Some?
  {
    if events == [] then 0
    else
      var init := events[..|events| - 1];
      var (before, now) := (Run(calls, init).value.readings, Run(calls, events).value.readings);
      if events[|events| - 1].Read? && now[|now| - 1].running && LastMode(now) == offline && LastMode(before) != offline
      then NewestBlock(init) else LastSwitch(calls, init, offline)
  }

  /** In every run the service runs exactly while the latest multicall was answered, and the two records are the
      blocks of the latest switches to offline and to online that readings have seen while running. */
  lemma {:induction false} RecordsAreLastSwitches(calls: seq<seq<string>>, events: seq<Event>)
    requires |calls| == 7 && Run(calls, events).Some?
    ensures var s := Run(calls, events).value;
            && (s.shared.IsRunning() <==> LatestAnswered(events))
            && (s.shared.IsRunning() ==> s.shared.lastBlock.value == NewestBlock(events))
            && s.shared.lastOfflineCfg == LastMode(s.readings)
            && s.shared.lastOfflineBlock == LastSwitch(calls, events, true)
            && s.shared.lastOnlineBlock == LastSwitch(calls, events, false)
  {
    if events != [] {
      var init, e := events[..|events| - 1], events[|events| - 1];
      RecordsAreLastSwitches(calls, init);
      var s := Run(calls, init).value;
      if e.Read? {
        ReadingRecords(calls, s);
      } else {
        WriterKeepsRecords(calls, s, e);
      }
    }
  }

  lemma ReadingRecords(calls: seq<seq<string>>, s: System)
    requires |calls| == 7
    ensures var r := Step(calls, s, Read);
            && r.Some? && |r.value.readings| == |s.readings| + 1 && r.value.shared.lastBlock == s.shared.lastBlock
            && var (reading, t) := (r.value.readings[|s.readings|], r.value.shared);
               && t.lastOfflineCfg == reading.offline && reading.running == s.shared.IsRunning()
               && (reading.offline ==> reading.running)
               && t.lastOfflineBlock == (if reading.offline && !s.shared.lastOfflineCfg
                                         then s.shared.lastBlock.value else s.shared.lastOfflineBlock)
               && t.lastOnlineBlock == if reading.running && !reading.offline && s.shared.lastOfflineCfg
                                       then s.shared.lastBlock.value else s.shared.lastOnlineBlock
  {}

  ghost predicate OfflineRecordedLast(s: SignalState) {
    s.lastOfflineCfg ==> s.lastOfflineBlock >= s.lastOnlineBlock
  }

  ghost predicate OnlineRecordedLast(s: SignalState) {
    !s.lastOfflineCfg ==> s.lastOnlineBlock >= s.lastOfflineBlock
  }

  /** In every run over non-decreasing blocks, being offline means the last recorded transition was
      to offline, and no recorded transition is newer than the newest block. */
  lemma {:induction false} OfflineMeansOfflineRecordedLast(calls: seq<seq<string>>, events: seq<Event>)
    requires |calls| == 7 && Run(calls, events).Some? && NondecreasingBlocks(events)
    ensures var s := Run(calls, events).value.shared;
            && OfflineRecordedLast(s)
            && (s.lastBlock.Some? ==> s.lastBlock.value == NewestBlock(events))
            && s.lastOnlineBlock <= NewestBlock(events) && s.lastOfflineBlock <= NewestBlock(events)
  {
    if events != [] {
      var init, e := events[..|events| - 1], events[|events| - 1];
      OfflineMeansOfflineRecordedLast(calls, init);
      StepKeepsRecords(calls, Run(calls, init).value, e, NewestBlock(init));
    }
  }

  lemma StepKeepsRecords(calls: seq<seq<string>>, s: System, e: Event, newest: nat)
    requires |calls| == 7 && Step(calls, s, e).Some?
    requires OfflineRecordedLast(s.shared) && (s.shared.lastBlock.Some? ==> s.shared.lastBlock.value == newest)
    requires s.shared.lastOnlineBlock <= newest && s.shared.lastOfflineBlock <= newest
    requires e.MulticallAnswered? ==> newest <= e.block
    ensures var (t, newest') := (Step(calls, s, e).value.shared, if e.MulticallAnswered? then e.block else newest);
            && OfflineRecordedLast(t) && (t.lastBlock.Some? ==> t.lastBlock.value == newest')
            && t.lastOnlineBlock <= newest' && t.lastOfflineBlock <= newest'
  {}

  /** The latest switch to online went unrecorded: the reading that saw it met an outage, and the switch to
      offline before it was recorded at a newer block than any switch to online. */
  ghost predicate HidesOnlineSwitch(calls: seq<seq<string>>, events: seq<Event>)
    requires |calls| == 7 && Run(calls, events).Some?
  {
    if events == [] then false
    else
      var init := events[..|events| - 1];
      var s := Run(calls, init).value.shared;
      if !events[|events| - 1].Read? then HidesOnlineSwitch(calls, init)
      else if Look(s).0 then false
      else if s.lastOfflineCfg then !s.IsRunning() && s.lastOfflineBlock > s.lastOnlineBlock
      else HidesOnlineSwitch(calls, init)
  }

  /** The mirrored claim, that online means online was recorded last, survives a reading exactly when
      that reading does not meet an outage while the mode was offline. */
  lemma OnlineRecordSurvivesReadingIff(s: SignalState)
    requires OfflineRecordedLast(s) && OnlineRecordedLast(s)
    requires s.lastBlock.Some? ==> s.lastBlock.value >= s.lastOfflineBlock
    ensures OnlineRecordedLast(Look(s).1) <==>
            !(s.lastOfflineCfg && !s.IsRunning() && s.lastOfflineBlock > s.lastOnlineBlock)
  {}

  /** Over whole runs with non-decreasing blocks: being online means the last recorded transition was to
      online, exactly unless the latest switch to online was hidden by an outage. */
  lemma {:induction false} OnlineMeansOnlineRecordedLastIff(calls: seq<seq<string>>, events: seq<Event>)
    requires |calls| == 7 && Run(calls, events).Some? && NondecreasingBlocks(events)
    ensures var s := Run(calls, events).value.shared;
            OnlineRecordedLast(s) <==> s.lastOfflineCfg || !HidesOnlineSwitch(calls, events)
  {
    if events != [] {
      var init, e := events[..|events| - 1], events[|events| - 1];
      OnlineMeansOnlineRecordedLastIff(calls, init);
      OfflineMeansOfflineRecordedLast(calls, init);
      var s := Run(calls, init).value;
      if !e.Read? {
        WriterKeepsRecords(calls, s, e);
      } else if OnlineRecordedLast(s.shared) {
        OnlineRecordSurvivesReadingIff(s.shared);
      }
    }
  }

  lemma WriterKeepsRecords(calls: seq<seq<string>>, s: System, e: Event)
    requires |calls| == 7 && Step(calls, s, e).Some? && !e.Read?
    ensures var t := Step(calls, s, e).value.shared;
            && t.lastOfflineCfg == s.shared.lastOfflineCfg
            && t.lastOnlineBlock == s.shared.lastOnlineBlock && t.lastOfflineBlock == s.shared.lastOfflineBlock
            && Step(calls, s, e).value.readings == s.readings
            && t.lastBlock == match e
                              case MulticallAnswered(_, block) => Some(block)
                              case MulticallFailed => None
                              case _ => s.shared.lastBlock
  {}

  /** Whatever the refresh thread does between two readings, no transition is recorded. */
  lemma {:induction false} OnlyReadingsRecord(calls: seq<seq<string>>, s: System, events: seq<Event>)
    requires |calls| == 7 && RunFrom(calls, s, events).Some? && Read !in events
    ensures var t := RunFrom(calls, s, events).value.shared;
            && t.lastOfflineCfg == s.shared.lastOfflineCfg
            && t.lastOnlineBlock == s.shared.lastOnlineBlock && t.lastOfflineBlock == s.shared.lastOfflineBlock
  {
    if events != [] {
      var init, e := events[..|events| - 1], events[|events| - 1];
      assert e in events && forall x :: x in init ==> x in events;
      OnlyReadingsRecord(calls, s, init);
      WriterKeepsRecords(calls, RunFrom(calls, s, init).value, e);
    }
  }

  /** A run, over increasing blocks, in which an outage hides the switch back to online: the service
      is running and online, yet the only recorded transition is the one to offline. */
  lemma OutageHidesOnlineSwitch() returns (calls: seq<seq<string>>, events: seq<Event>)
    ensures |calls| == 7 && Run(calls, events).Some?
    ensures var s := Run(calls, events).value.shared;
            && s.IsRunning() && !s.lastOfflineCfg && !Look(s).0
            && s.lastOfflineBlock == 5 && s.lastOnlineBlock == 0 && s.lastBlock == Some(9)
  {
    calls := [[], [], [], [], [], [], []];
    var value := NothingAsked(calls);
    var offline := FetchThenRead(calls, START, value, 5, false);
    var s1 := RunFrom(calls, START, offline).value;
    var outage := ExtendRun(calls, s1, s1, [], MulticallFailed);
    outage := ExtendRun(calls, s1, RunFrom(calls, s1, outage).value, outage, ValueCleared);
    outage := ExtendRun(calls, s1, RunFrom(calls, s1, outage).value, outage, Read);
    var s2 := RunFrom(calls, s1, outage).value;
    var online := FetchThenRead(calls, s2, value, 9, true);
    RunConcat(calls, START, offline, outage);
    RunConcat(calls, START, offline + outage, online);
    events := offline + outage + online;
  }

  lemma {:induction false} NothingAsked(calls: seq<seq<string>>) returns (value: seq<seq<Answer>>)
    requires forall i :: 0 <= i < |calls| ==> calls[i] == []
    ensures Slices(calls, []) == Some(value) && |value| == |calls|
    ensures forall i :: 0 <= i < |value| ==> value[i] == []
  {
    value := [];
    if calls != [] {
      var rest := NothingAsked(calls[1..]);
      var none: seq<Answer> := [];
      assert none[0..] == none && none[..0] == none;
      value := [none] + rest;
    }
  }

  lemma {:induction false} NothingDue(value: seq<seq<Answer>>, block: nat)
    requires |value| == 7 && forall i :: 0 <= i < |value| ==> value[i] == []
    ensures ConditionActive(value, block, None) == Ok(false)
  {
    assert ScanTimes([], block) == Ok(false);
  }

  lemma FetchThenRead(calls: seq<seq<string>>, s: System, value: seq<seq<Answer>>, block: nat, endpoint: bool)
    returns (events: seq<Event>)
    requires |calls| == 7 && s.writer == Idle
    requires Slices(calls, []) == Some(value) && forall i :: 0 <= i < |value| ==> value[i] == []
    ensures RunFrom(calls, s, events).Some? && RunFrom(calls, s, events).value.writer == Idle
    ensures RunFrom(calls, s, events).value.shared ==
            Look(s.shared.(lastBlock := Some(block), lastValue := Some(value),
                           baseConditionActive := false, forcePublish := endpoint)).1
  {
    NothingDue(value, block);
    EffectOfAnswered(s.shared, calls, [], block, None, endpoint);
    events := UninterruptedFetch(calls, s, Ok(([], block)), None, endpoint);
    events := ExtendRun(calls, s, RunFrom(calls, s, events).value, events, Read);
  }

  lemma {:induction false} RunConcat(calls: seq<seq<string>>, s: System, a: seq<Event>, b: seq<Event>)
    requires |calls| == 7 && RunFrom(calls, s, a).Some?
    ensures RunFrom(calls, s, a + b) == RunFrom(calls, RunFrom(calls, s, a).value, b)
    decreases |b|
  {
    if b == [] {
      assert a + b == a;
    } else {
      assert (a + b)[..|a + b| - 1] == a + b[..|b| - 1];
      RunConcat(calls, s, a, b[..|b| - 1]);
    }
  }

  // ----- The steps add up to the whole call

  /** Run without interruption, the writer's steps are exactly one `_sync_fetch`. */
  lemma UninterruptedFetch(calls: seq<seq<string>>, s: System, reply: Result<(seq<Answer>, nat), FetchError>,
                           timestamp: Option<nat>, endpoint: bool) returns (events: seq<Event>)
    requires |calls| == 7 && s.writer == Idle
    ensures Read !in events
    ensures var r := RunFrom(calls, s, events);
            r.Some? && r.value.writer == Idle
            && r.value.shared == FetchEffect(s.shared, calls, reply, timestamp, endpoint).0
  {
    if reply.Err? {
      events := ExtendRun(calls, s, s, [], MulticallFailed);
      events := ExtendRun(calls, s, RunFrom(calls, s, events).value, events, ValueCleared);
    } else {
      events := AnsweredFetch(calls, s, reply.value.0, reply.value.1, timestamp, endpoint);
    }
  }

  lemma AnsweredFetch(calls: seq<seq<string>>, s: System, answers: seq<Answer>, block: nat, timestamp: Option<nat>,
                      endpoint: bool) returns (events: seq<Event>)
    requires |calls| == 7 && s.writer == Idle
    ensures Read !in events
    ensures var r := RunFrom(calls, s, events);
            r.Some? && r.value.writer == Idle
            && r.value.shared == FetchEffect(s.shared, calls, Ok((answers, block)), timestamp, endpoint).0
  {
    events := SlicedFetch(calls, s, answers, block);
    EffectOfAnswered(s.shared, calls, answers, block, timestamp, endpoint);
    if Slices(calls, answers).Some? {
      events := ConcludedFetch(calls, s, events, Cut(calls, Answered(s, answers, block)), timestamp, endpoint);
    }
  }

  ghost function Answered(s: System, answers: seq<Answer>, block: nat): System {
    s.(shared := s.shared.(lastBlock := Some(block)), writer := GotAnswers(answers, block))
  }

  ghost function Cut(calls: seq<seq<string>>, s: System): System
    requires s.writer.GotAnswers?
  {
    match Slices(calls, s.writer.answers)
    case None => s.(writer := Idle)
    case Some(value) => s.(shared := s.shared.(lastValue := Some(value)), writer := GotValue(value, s.writer.block))
  }

  lemma {:induction false} StepCuts(calls: seq<seq<string>>, s: System)
    requires |calls| == 7 && s.writer.GotAnswers?
    ensures Step(calls, s, AnswersSliced) == Some(Cut(calls, s))
  {}

  /** The fetch up to the point where the answers have been cut up. */
  lemma SlicedFetch(calls: seq<seq<string>>, s: System, answers: seq<Answer>, block: nat) returns (events: seq<Event>)
    requires |calls| == 7 && s.writer == Idle
    ensures Read !in events && RunFrom(calls, s, events) == Some(Cut(calls, Answered(s, answers, block)))
  {
    events := ExtendRun(calls, s, s, [], MulticallAnswered(answers, block));
    StepCuts(calls, Answered(s, answers, block));
    events := ExtendRun(calls, s, Answered(s, answers, block), events, AnswersSliced);
  }

  lemma {:induction false} EffectOfAnswered(shared: SignalState, calls: seq<seq<string>>, answers: seq<Answer>,
                                            block: nat, timestamp: Option<nat>, endpoint: bool)
    requires |calls| == 7
    ensures var got := shared.(lastBlock := Some(block));
            FetchEffect(shared, calls, Ok((answers, block)), timestamp, endpoint).0 ==
            (match Slices(calls, answers)
             case None => got
             case Some(value) =>
               match ConditionActive(value, block, timestamp)
               case Err(_) => got.(lastValue := Some(value))
               case Ok(active) =>
                 got.(lastValue := Some(value), baseConditionActive := active, forcePublish := !active && endpoint))
  {}

  lemma ConcludedFetch(calls: seq<seq<string>>, s: System, events: seq<Event>, got: System, timestamp: Option<nat>,
                       endpoint: bool)
    returns (longer: seq<Event>)
    requires |calls| == 7 && RunFrom(calls, s, events) == Some(got) && Read !in events
    requires got.writer.GotValue? && |got.writer.value| == 7
    ensures Read !in longer
    ensures var r := RunFrom(calls, s, longer);
            && r.Some? && r.value.writer == Idle
            && r.value.shared == (match ConditionActive(got.writer.value, got.writer.block, timestamp)
                                  case Err(_) => got.shared
                                  case Ok(active) => got.shared.(baseConditionActive := active,
                                                                 forcePublish := !active && endpoint))
  {
    longer := ExtendRun(calls, s, got, events, ConditionsChecked(timestamp));
    var active := ConditionActive(got.writer.value, got.writer.block, timestamp);
    if active.Err? {
      return;
    }
    if !active.value {
      longer := ExtendRun(calls, s, RunFrom(calls, s, longer).value, longer, EndpointAsked(endpoint));
    }
    longer := ExtendRun(calls, s, RunFrom(calls, s, longer).value, longer, PairStored);
  }

  lemma ExtendRun(calls: seq<seq<string>>, s: System, before: System, events: seq<Event>, e: Event)
    returns (longer: seq<Event>)
    requires |calls| == 7 && RunFrom(calls, s, events) == Some(before)
    ensures RunFrom(calls, s, longer) == Step(calls, before, e)
    ensures Read in longer <==> Read in events || e == Read
  {
    longer := events + [e];
    assert longer[..|longer| - 1] == events;
  }
}
