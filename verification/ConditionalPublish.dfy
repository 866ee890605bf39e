/** The need/unneed signal (servers/common/services/conditional_publish.py).

    A refresh thread fetches seven lists of on-chain conditions in one multicall and stores what
    they say; readers derive from the stored values whether the coin pair is offline ("unneed")
    and note the block of each mode change they see. */
module ConditionalPublish {
  import opened Prelude

  /** A decoded answer: a uint256, or a bool which Python treats as 0 or 1; None if it could not be decoded. */
  type Answer = Option<nat>

  datatype FetchError = RpcFailed | MissingAnswers | UndecodableTime

  /** The sentinel `DefaultDecimal` (-2): take the value from the general configuration. */
  const DEFAULT_DELTA: real := -2.0
  const DEFAULT_BLOCKS: int := -2

  datatype SignalConfig = SignalConfig(
    priceDeltaNeed: real, priceDeltaUnneed: real, publishBlocksNeed: int, publishBlocksUnneed: int)

  /** What the service object remembers between calls. */
  datatype SignalState = SignalState(
    lastValue: Option<seq<seq<Answer>>>, lastBlock: Option<nat>,
    baseConditionActive: bool, forcePublish: bool,
    lastOnlineBlock: nat, lastOfflineBlock: nat, lastOfflineCfg: bool)
  {
    predicate IsRunning() {
      lastBlock.Some?
    }
  }

  const INITIAL_STATE := SignalState(None, None, true, false, 0, 0, false)

  // ----- Conditions

  /** Python's truth value: an undecodable answer counts as false. */
  predicate Truthy(x: Answer) {
    x.Some? && x.value != 0
  }

  predicate IsBelow(x: Answer, limit: nat) {
    x.Some? && x.value < limit
  }

  ghost predicate SomeFalsy(l: seq<Answer>) {
    exists x :: x in l && !Truthy(x)
  }

  ghost predicate SomeTruthy(l: seq<Answer>) {
    exists x :: x in l && Truthy(x)
  }

  ghost predicate SomeBelow(l: seq<Answer>, limit: nat) {
    exists x :: x in l && IsBelow(x, limit)
  }

  /** Comparing an undecodable answer with a number is a TypeError; a smaller time ends the scan before it. */
  ghost function ScanTimes(l: seq<Answer>, limit: nat): Result<bool, FetchError> {
    if l == [] then Ok(false)
    else if l[0].None? then Err(UndecodableTime)
    else if l[0].value < limit then Ok(true)
    else ScanTimes(l[1..], limit)
  }

  /** An undecodable time, with no time below the limit ahead of it. */
  ghost predicate RaisesInScan(l: seq<Answer>, limit: nat) {
    exists i :: 0 <= i < |l| && l[i].None? && forall j :: 0 <= j < i ==> !IsBelow(l[j], limit)
  }

  lemma {:induction false} ScanSays(l: seq<Answer>, limit: nat)
    ensures match ScanTimes(l, limit)
            case Ok(found) => (found <==> SomeBelow(l, limit)) && !RaisesInScan(l, limit)
            case Err(e) => e == UndecodableTime && RaisesInScan(l, limit)
  {
    if l != [] && l[0].Some? && l[0].value >= limit {
      ScanSays(l[1..], limit);
      assert forall x :: x in l <==> x == l[0] || x in l[1..];
      assert forall i :: 0 < i < |l| ==> l[i] == l[1..][i - 1];
      if RaisesInScan(l[1..], limit) {
        var i :| 0 <= i < |l[1..]| && l[1..][i].None? && forall j :: 0 <= j < i ==> !IsBelow(l[1..][j], limit);
        assert l[i + 1].None? && forall j :: 0 <= j < i + 1 ==> !IsBelow(l[j], limit);
      }
    } else if l != [] {
      assert l[0] in l;
    }
  }

  /** Some queue is not empty, or some EMA is due. Order of the lists: v3 empty, v3 EMA, v3 TC, v3 settlement,
      empty, EMA, TC. */
  ghost predicate QueueOrEma(value: seq<seq<Answer>>)
    requires |value| == 7
  {
    SomeFalsy(value[0]) || SomeTruthy(value[1]) || SomeFalsy(value[4]) || SomeTruthy(value[5])
  }

  /** A publication is needed: besides, some payment or settlement time has passed. */
  ghost predicate Needed(value: seq<seq<Answer>>, block: nat, timestamp: nat)
    requires |value| == 7
  {
    QueueOrEma(value) || SomeBelow(value[6], block) || SomeBelow(value[2], timestamp) || SomeBelow(value[3], timestamp)
  }

  /** In terms of the answers: a v3 or old queue that does not say it is empty, an EMA that says it is due, an old
      payment time below the block number, or a v3 payment or settlement time below the timestamp. */
  lemma NeededMeans(value: seq<seq<Answer>>, block: nat, timestamp: nat)
    requires |value| == 7
    ensures Needed(value, block, timestamp) <==>
              || (exists x :: x in value[0] && (x == None || x == Some(0)))
              || (exists x :: x in value[1] && x != None && x != Some(0))
              || (exists x :: x in value[4] && (x == None || x == Some(0)))
              || (exists x :: x in value[5] && x != None && x != Some(0))
              || (exists x :: x in value[6] && x.Some? && x.value < block)
              || (exists x :: x in value[2] && x.Some? && x.value < timestamp)
              || (exists x :: x in value[3] && x.Some? && x.value < timestamp)
  {}

  /** The block's timestamp is asked for only when no cheap condition holds, no time compared with the block
      number raises, and a v3 time list is present. */
  ghost predicate AsksForTimestamp(value: seq<seq<Answer>>, block: nat)
    requires |value| == 7
  {
    !QueueOrEma(value) && ScanTimes(value[6], block) == Ok(false) && (value[2] != [] || value[3] != [])
  }

  /** In terms of the answers again: when the node is asked for the timestamp, and which list of times raises. */
  lemma {:induction false} AsksMeans(value: seq<seq<Answer>>, block: nat)
    requires |value| == 7
    ensures AsksForTimestamp(value, block) <==>
              && (forall x :: x in value[0] || x in value[4] ==> x != None && x != Some(0))
              && (forall x :: x in value[1] || x in value[5] ==> x == None || x == Some(0))
              && ScanTimes(value[6], block) == Ok(false) && (value[2] != [] || value[3] != [])
  {}

  lemma RaisesMeans(l: seq<Answer>, limit: nat)
    ensures RaisesInScan(l, limit) <==>
              exists i :: 0 <= i < |l| && l[i] == None
                          && forall j :: 0 <= j < i ==> l[j] == None || l[j].value >= limit
  {}

  /** What `getConditionActive` answers; `timestamp` is None when asking the node for it raises. */
  ghost function ConditionActive(value: seq<seq<Answer>>, block: nat, timestamp: Option<nat>): Result<bool, FetchError>
    requires |value| == 7
  {
    if QueueOrEma(value) then Ok(true)
    else if ScanTimes(value[6], block) != Ok(false) then ScanTimes(value[6], block)
    else if !AsksForTimestamp(value, block) then Ok(false)
    else if timestamp.None? then Err(RpcFailed)
    else if ScanTimes(value[2], timestamp.value) != Ok(false) then ScanTimes(value[2], timestamp.value)
    else ScanTimes(value[3], timestamp.value)
  }

  /** Every answer given is right: active exactly when a publication is needed. No answer is given exactly
      when an undecodable time is compared, or the timestamp is needed and asking for it raises. */
  lemma ConditionActiveIsRight(value: seq<seq<Answer>>, block: nat, timestamp: Option<nat>)
    requires |value| == 7
    ensures var (r, t) := (ConditionActive(value, block, timestamp), if timestamp.Some? then timestamp.value else 0);
            && (r.Ok? ==> (r.value <==> Needed(value, block, t)))
            && (r == Err(RpcFailed) <==> AsksForTimestamp(value, block) && timestamp.None?)
            && (r == Err(UndecodableTime) <==>
                  && !QueueOrEma(value)
                  && (|| RaisesInScan(value[6], block)
                      || (AsksForTimestamp(value, block) && timestamp.Some?
                          && (RaisesInScan(value[2], t) || (!SomeBelow(value[2], t) && RaisesInScan(value[3], t))))))
  {
    ScanSays(value[6], block);
    if timestamp.Some? {
      ScanSays(value[2], timestamp.value);
      ScanSays(value[3], timestamp.value);
    }
  }

  method AnyFalsy(l: seq<Answer>) returns (found: bool)
    ensures found <==> SomeFalsy(l)
  {
    for i := 0 to |l|
      invariant forall j :: 0 <= j < i ==> Truthy(l[j])
    {
      if !Truthy(l[i]) {
        assert l[i] in l;
        return true;
      }
    }
    found := false;
  }

  method AnyTruthy(l: seq<Answer>) returns (found: bool)
    ensures found <==> SomeTruthy(l)
  {
    for i := 0 to |l|
      invariant forall j :: 0 <= j < i ==> !Truthy(l[j])
    {
      if Truthy(l[i]) {
        assert l[i] in l;
        return true;
      }
    }
    found := false;
  }

  method AnyBelow(l: seq<Answer>, limit: nat) returns (r: Result<bool, FetchError>)
    ensures r == ScanTimes(l, limit)
  {
    assert l[0..] == l;
    for i := 0 to |l|
      invariant ScanTimes(l, limit) == ScanTimes(l[i..], limit)
    {
      assert l[i..][1..] == l[i + 1..];
      if l[i].None? {
        return Err(UndecodableTime);
      }
      if l[i].value < limit {
        return Ok(true);
      }
    }
    r := Ok(false);
  }

  method GetConditionActive(value: seq<seq<Answer>>, block: nat, timestamp: Option<nat>)
    returns (r: Result<bool, FetchError>)
    requires |value| == 7
    ensures r == ConditionActive(value, block, timestamp)
  {
    var found := AnyFalsy(value[0]);
    if found { return Ok(true); }
    found := AnyTruthy(value[1]);
    if found { return Ok(true); }
    found := AnyFalsy(value[4]);
    if found { return Ok(true); }
    found := AnyTruthy(value[5]);
    if found { return Ok(true); }
    r := AnyBelow(value[6], block);
    if r != Ok(false) { return; }
    if value[2] == [] && value[3] == [] { return Ok(false); }
    if timestamp.None? { return Err(RpcFailed); }
    r := AnyBelow(value[2], timestamp.value);
    if r != Ok(false) { return; }
    r := AnyBelow(value[3], timestamp.value);
  }

  // ----- Flattening the call lists and slicing the answers back

  function Flatten<C>(calls: seq<seq<C>>): seq<C> {
    if calls == [] then [] else calls[0] + Flatten(calls[1..])
  }

  /** The answers cut into runs as long as the call lists; None when there are too few. */
  function Slices<C>(calls: seq<seq<C>>, answers: seq<Answer>): (r: Option<seq<seq<Answer>>>)
    ensures r.Some? ==> |r.value| == |calls|
  {
    if calls == [] then Some([])
    else if |answers| < |calls[0]| then None
    else
      var rest := Slices(calls[1..], answers[|calls[0]|..]);
      if rest.None? then None else Some([answers[..|calls[0]|]] + rest.value)
  }

  /** Each condition gets exactly the answers to its own calls: call j of list i is answered at [i][j]. */
  lemma {:induction false} EachConditionItsOwnAnswers<C>(calls: seq<seq<C>>, answers: seq<Answer>, ask: C -> Answer)
    requires |answers| == |Flatten(calls)|
    requires forall k :: 0 <= k < |answers| ==> answers[k] == ask(Flatten(calls)[k])
    ensures Slices(calls, answers).Some?
    ensures forall i :: 0 <= i < |calls| ==> |Slices(calls, answers).value[i]| == |calls[i]|
    ensures forall i, j :: 0 <= i < |calls| && 0 <= j < |calls[i]| ==>
            Slices(calls, answers).value[i][j] == ask(calls[i][j])
  {
    if calls != [] {
      var n := |calls[0]|;
      var tail := answers[n..];
      forall k | 0 <= k < |tail| ensures tail[k] == ask(Flatten(calls[1..])[k]) {
        assert Flatten(calls)[n + k] == Flatten(calls[1..])[k];
      }
      EachConditionItsOwnAnswers(calls[1..], tail, ask);
      var r := Slices(calls, answers).value;
      assert forall i :: 0 < i < |calls| ==>
             r[i] == Slices(calls[1..], tail).value[i - 1] && calls[i] == calls[1..][i - 1];
      assert forall j :: 0 <= j < n ==> r[0][j] == answers[j] && Flatten(calls)[j] == calls[0][j];
    }
  }

  /** Slicing fails exactly when the multicall answered fewer calls than were sent. */
  lemma {:induction false} SlicesNeedAllAnswers<C>(calls: seq<seq<C>>, answers: seq<Answer>)
    ensures Slices(calls, answers).Some? <==> |Flatten(calls)| <= |answers|
  {
    if calls != [] && |calls[0]| <= |answers| {
      SlicesNeedAllAnswers(calls[1..], answers[|calls[0]|..]);
    }
  }

  method FlattenCalls<C>(calls: seq<seq<C>>) returns (args: seq<C>)
    ensures args == Flatten(calls)
  {
    args := [];
    for i := 0 to |calls|
      invariant args + Flatten(calls[i..]) == Flatten(calls)
    {
      var before := args;
      for j := 0 to |calls[i]|
        invariant args == before + calls[i][..j]
      {
        args := args + [calls[i][j]];
      }
      assert calls[i..][1..] == calls[i + 1..];
    }
  }

  /** `results_base.pop(0)` for each call of each list; None when a pop finds nothing left. */
  method PopResults<C>(calls: seq<seq<C>>, answers: seq<Answer>) returns (r: Option<seq<seq<Answer>>>)
    ensures r == Slices(calls, answers)
  {
    var resultsBase, results := answers, [];
    assert calls[0..] == calls;
    ghost var all := Slices(calls, answers);
    assert all.Some? ==> [] + all.value == all.value;
    var i := 0;
    while i < |calls|
      invariant 0 <= i <= |calls|
      invariant var rest := Slices(calls[i..], resultsBase);
                all == if rest.None? then None else Some(results + rest.value)
    {
      ghost var left := resultsBase;
      var popped := [];
      var j := 0;
      assert calls[i..][0] == calls[i] && calls[i..][1..] == calls[i + 1..];
      while j < |calls[i]|
        invariant 0 <= j <= |calls[i]| && j <= |left|
        invariant popped == left[..j] && resultsBase == left[j..]
      {
        if resultsBase == [] {
          return None;
        }
        popped := popped + [resultsBase[0]];
        resultsBase := resultsBase[1..];
        j := j + 1;
      }
      ghost var rest := Slices(calls[i + 1..], resultsBase);
      assert rest.Some? ==> results + ([popped] + rest.value) == results + [popped] + rest.value;
      results := results + [popped];
      i := i + 1;
    }
    assert calls[i..] == [] && results + [] == results;
    r := Some(results);
  }

  // ----- The refresh, as one uninterrupted call

  /** State after a fetch, and what it raised. The endpoint is asked only when no condition holds. */
  ghost function FetchEffect<C>(s: SignalState, calls: seq<seq<C>>, reply: Result<(seq<Answer>, nat), FetchError>,
                                timestamp: Option<nat>, endpoint: bool): (SignalState, Result<(), FetchError>)
    requires |calls| == 7
  {
    match reply
    case Err(_) => (s.(lastBlock := None, lastValue := None), Ok(()))
    case Ok((answers, block)) =>
      var got := s.(lastBlock := Some(block));
      match Slices(calls, answers)
      case None => (got, Err(MissingAnswers))
      case Some(value) =>
        var stored := got.(lastValue := Some(value));
        match ConditionActive(value, block, timestamp)
        case Err(e) => (stored, Err(e))
        case Ok(active) =>
          (stored.(baseConditionActive := active, forcePublish := !active && endpoint), Ok(()))
  }

  /** What a refresh raises: nothing when the multicall itself fails; too few answers; or what the conditions raise. */
  lemma {:induction false} FetchRaisesIff<C>(s: SignalState, calls: seq<seq<C>>,
                                             reply: Result<(seq<Answer>, nat), FetchError>, timestamp: Option<nat>,
                                             endpoint: bool)
    requires |calls| == 7
    ensures var r := FetchEffect(s, calls, reply, timestamp, endpoint).1;
            && (reply.Err? ==> r == Ok(()))
            && (reply.Ok? && |reply.value.0| < |Flatten(calls)| ==> r == Err(MissingAnswers))
            && (reply.Ok? && |reply.value.0| >= |Flatten(calls)| ==>
                  && Slices(calls, reply.value.0).Some?
                  && var verdict := ConditionActive(Slices(calls, reply.value.0).value, reply.value.1, timestamp);
                     r == if verdict.Err? then Err(verdict.error) else Ok(()))
  {
    if reply.Ok? {
      SlicesNeedAllAnswers(calls, reply.value.0);
    }
  }

  /** What a refresh leaves: without an answered multicall no block and no value; otherwise the block, the answers cut
      up if there are enough, and, if the conditions say something, that and whether the endpoint forces publication
      in spite of it. The recorded switches stay. */
  lemma {:induction false} FetchLeaves<C>(s: SignalState, calls: seq<seq<C>>,
                                          reply: Result<(seq<Answer>, nat), FetchError>, timestamp: Option<nat>,
                                          endpoint: bool)
    requires |calls| == 7
    ensures var t := FetchEffect(s, calls, reply, timestamp, endpoint).0;
            && t.lastOnlineBlock == s.lastOnlineBlock && t.lastOfflineBlock == s.lastOfflineBlock
            && t.lastOfflineCfg == s.lastOfflineCfg
            && (reply.Err? ==> t.lastBlock == None && t.lastValue == None)
            && (reply.Ok? ==>
                  && t.lastBlock == Some(reply.value.1)
                  && t.lastValue == (if |reply.value.0| < |Flatten(calls)| then s.lastValue
                                     else Slices(calls, reply.value.0)))
            && (if reply.Ok? && FetchEffect(s, calls, reply, timestamp, endpoint).1.Ok?
                then && t.lastValue.Some? && |t.lastValue.value| == 7
                     && ConditionActive(t.lastValue.value, reply.value.1, timestamp) == Ok(t.baseConditionActive)
                     && (t.forcePublish <==> !t.baseConditionActive && endpoint)
                else t.baseConditionActive == s.baseConditionActive && t.forcePublish == s.forcePublish)
  {
    if reply.Ok? {
      SlicesNeedAllAnswers(calls, reply.value.0);
    }
  }

  // ----- Readers

  /** `offline_cfg()`: the mode, and the state after noting a change of mode. */
  function Look(s: SignalState): (bool, SignalState) {
    if !s.IsRunning() then (false, s.(lastOfflineCfg := false)) else
      var offline := !(s.baseConditionActive || s.forcePublish);
      var noted :=
        if s.lastOfflineCfg == offline then s
        else if offline then s.(lastOfflineBlock := s.lastBlock.value)
        else s.(lastOnlineBlock := s.lastBlock.value);
      (offline, noted.(lastOfflineCfg := offline))
  }

  /** Reading again with no refresh in between agrees and changes nothing further. */
  lemma LookTwice(s: SignalState)
    ensures Look(Look(s).1) == (Look(s).0, Look(s).1)
  {}

  function Choose<T(==)>(need: T, unneed: T, offline: bool, sentinel: T, default: T): T {
    var x := if offline then unneed else need;
    if x == sentinel then default else x
  }

  /** Both ConditionalPublishService and, when `disabled`, DisabledConditionalPublishService. */
  class SignalService {
    const disabled: bool
    const cfg: SignalConfig
    var lastValue: Option<seq<seq<Answer>>>
    var lastBlock: Option<nat>
    var baseConditionActive: bool
    var forcePublish: bool
    var lastOnlineBlock: nat
    var lastOfflineBlock: nat
    var lastOfflineCfg: bool

    function State(): SignalState
      reads this
    {
      SignalState(lastValue, lastBlock, baseConditionActive, forcePublish,
                  lastOnlineBlock, lastOfflineBlock, lastOfflineCfg)
    }

    constructor (disabled: bool, cfg: SignalConfig)
      ensures State() == INITIAL_STATE && this.disabled == disabled && this.cfg == cfg
    {
      this.disabled, this.cfg := disabled, cfg;
      lastValue, lastBlock := None, None;
      baseConditionActive, forcePublish := true, false;
      lastOnlineBlock, lastOfflineBlock, lastOfflineCfg := 0, 0, false;
    }

    method SyncFetch<C>(calls: seq<seq<C>>, multicall: seq<C> -> Result<(seq<Answer>, nat), FetchError>,
                        timestamp: Option<nat>, endpoint: bool) returns (r: Result<(), FetchError>)
      requires |calls| == 7
      modifies this
      ensures (State(), r) == FetchEffect(old(State()), calls, multicall(Flatten(calls)), timestamp, endpoint)
    {
      var args := FlattenCalls(calls);
      var reply := multicall(args);
      var resultsBase: seq<Answer> := [];
      match reply {
        case Ok((answers, block)) =>
          resultsBase, lastBlock := answers, Some(block);
        case Err(_) =>
          lastBlock := None;
          lastValue := None;
      }
      if lastBlock.None? {
        return Ok(());
      }
      var results := PopResults(calls, resultsBase);
      if results.None? {
        return Err(MissingAnswers);
      }
      lastValue := results;
      var active := GetConditionActive(results.value, lastBlock.value, timestamp);
      if active.Err? {
        return Err(active.error);
      }
      var force := false;
      if !active.value {
        force := endpoint;
      }
      baseConditionActive, forcePublish := active.value, force;
      r := Ok(());
    }

    method OfflineCfg() returns (out: bool)
      modifies this
      ensures if disabled then !out && State() == old(State()) else (out, State()) == Look(old(State()))
    {
      if disabled {
        return false;
      }
      out := false;
      if lastBlock.Some? {
        out := !(baseConditionActive || forcePublish);
        if lastOfflineCfg != out {
          if out {
            lastOfflineBlock := lastBlock.value;
          } else {
            lastOnlineBlock := lastBlock.value;
          }
        }
      }
      lastOfflineCfg := out;
    }

    method GetPriceDelta(default: real) returns (x: real)
      modifies this
      ensures State() == AfterLook(old(State()), disabled)
      ensures x == PriceDelta(old(State()), disabled, cfg, default)
    {
      if disabled {
        return default;
      }
      var offline := OfflineCfg();
      x := if offline then cfg.priceDeltaUnneed else cfg.priceDeltaNeed;
      if x == DEFAULT_DELTA {
        x := default;
      }
    }

    method GetValidPricePeriod(default: int) returns (x: int)
      modifies this
      ensures State() == AfterLook(old(State()), disabled)
      ensures x == ValidPeriod(old(State()), disabled, cfg, default)
    {
      if disabled {
        return default;
      }
      var offline := OfflineCfg();
      x := if offline then cfg.publishBlocksUnneed else cfg.publishBlocksNeed;
      if x == DEFAULT_BLOCKS {
        x := default;
      }
    }

    method LastOnlineBlock() returns (b: nat)
      ensures b == OnlineBlock(State(), disabled)
    {
      b := if disabled then 0 else lastOnlineBlock;
    }

    method LastOfflineBlock() returns (b: nat)
      ensures b == OfflineBlock(State(), disabled)
    {
      b := if disabled then 0 else lastOfflineBlock;
    }
  }

  function AfterLook(s: SignalState, disabled: bool): SignalState {
    if disabled then s else Look(s).1
  }

  function PriceDelta(s: SignalState, disabled: bool, cfg: SignalConfig, default: real): real {
    if disabled then default else Choose(cfg.priceDeltaNeed, cfg.priceDeltaUnneed, Look(s).0, DEFAULT_DELTA, default)
  }

  function ValidPeriod(s: SignalState, disabled: bool, cfg: SignalConfig, default: int): int {
    if disabled then default
    else Choose(cfg.publishBlocksNeed, cfg.publishBlocksUnneed, Look(s).0, DEFAULT_BLOCKS, default)
  }

  function OnlineBlock(s: SignalState, disabled: bool): nat {
    if disabled then 0 else s.lastOnlineBlock
  }

  function OfflineBlock(s: SignalState, disabled: bool): nat {
    if disabled then 0 else s.lastOfflineBlock
  }

  /** Offline, the configured values for "unneed" hold, otherwise those for "need"; -2 stands for the general ones,
      as does a disabled service. Offline means running with no condition active and none forced. */
  lemma ValuesByMode(s: SignalState, cfg: SignalConfig, delta: real, period: int)
    ensures PriceDelta(s, true, cfg, delta) == delta && ValidPeriod(s, true, cfg, period) == period
    ensures var offline := s.lastBlock.Some? && !s.baseConditionActive && !s.forcePublish;
            && (offline ==>
                  && PriceDelta(s, false, cfg, delta)
                      == (if cfg.priceDeltaUnneed == -2.0 then delta else cfg.priceDeltaUnneed)
                  && ValidPeriod(s, false, cfg, period)
                     == if cfg.publishBlocksUnneed == -2 then period else cfg.publishBlocksUnneed)
            && (!offline ==>
                  && PriceDelta(s, false, cfg, delta)
                      == (if cfg.priceDeltaNeed == -2.0 then delta else cfg.priceDeltaNeed)
                  && ValidPeriod(s, false, cfg, period)
                     == if cfg.publishBlocksNeed == -2 then period else cfg.publishBlocksNeed)
  {}
}
