/** Task publication: whether tasks are available, since which block, and whose turn it is
    (servers/oracle/src/tasks_runner.py; TasksOracleTurn in servers/oracle/src/oracle_turn.py). */
module Tasks {
  import opened Prelude
  import opened SelectNext
  import opened OracleTurn
  import opened TurnTheorems

  // ----- Which tasks are available

  const ZERO_ADDRESS := "0x0000000000000000000000000000000000000000"

  /** `str.lower` on the characters an address can have. */
  function Lower(s: string): (t: string)
    ensures |t| == |s|
  {
    seq(|s|, i requires 0 <= i < |s| => if 'A' <= s[i] <= 'Z' then (s[i] as int + 32) as char else s[i])
  }

  lemma LowerExample()
    ensures Lower("0xABCDEF0123456789abcdefXYZxyz") == "0xabcdef0123456789abcdefxyzxyz"
  {}

  /** The lower-cased addresses that are not the zero address. */
  function RealTasks(tasks: seq<string>): seq<string> {
    if tasks == [] then [] else
      var last := Lower(tasks[|tasks| - 1]);
      RealTasks(tasks[..|tasks| - 1]) + if last != ZERO_ADDRESS then [last] else []
  }

  /** `_get_available_tasks_state`: availability and flags. */
  function AvailableTasksState(available: bool, flags: nat, tasks: seq<string>, ignored: set<string>): (bool, nat) {
    if available && ignored != {} then
      var named := RealTasks(tasks);
      if named != [] && forall t :: t in named ==> t in ignored then (false, 0) else (available, flags)
    else (available, flags)
  }

  /** A node holds back exactly when something is there to do, all of it is on its ignore list, and the
      contract named at least one task: empty slots alone never hold it back. */
  lemma HoldsBackIff(flags: nat, tasks: seq<string>, ignored: set<string>)
    ensures !AvailableTasksState(true, flags, tasks, ignored).0 <==>
              && (exists i :: 0 <= i < |tasks| && Lower(tasks[i]) != ZERO_ADDRESS)
              && (forall i :: 0 <= i < |tasks| && Lower(tasks[i]) != ZERO_ADDRESS ==> Lower(tasks[i]) in ignored)
    ensures AvailableTasksState(true, flags, tasks, ignored)
            == if AvailableTasksState(true, flags, tasks, ignored).0 then (true, flags) else (false, 0)
    ensures AvailableTasksState(false, flags, tasks, ignored) == (false, flags)
  {
    var named := RealTasks(tasks);
    forall t ensures t in named <==> t != ZERO_ADDRESS && Named(tasks, t) {
      RealTasksMembers(tasks, t);
    }
    assert forall i :: 0 <= i < |tasks| ==> Named(tasks, Lower(tasks[i]));
    if named != [] {
      assert named[0] in named;
    }
  }

  ghost predicate Named(tasks: seq<string>, t: string) {
    exists i :: 0 <= i < |tasks| && Lower(tasks[i]) == t
  }

  lemma NamedAppend(tasks: seq<string>, last: string, t: string)
    ensures Named(tasks + [last], t) <==> Named(tasks, t) || t == Lower(last)
  {
    var all := tasks + [last];
    if Named(tasks, t) {
      var i :| 0 <= i < |tasks| && Lower(tasks[i]) == t;
      assert Lower(all[i]) == t;
    }
    assert all[|tasks|] == last;
  }

  lemma {:induction false} RealTasksMembers(tasks: seq<string>, t: string)
    ensures t in RealTasks(tasks) <==> t != ZERO_ADDRESS && Named(tasks, t)
  {
    if tasks != [] {
      var init, last := tasks[..|tasks| - 1], tasks[|tasks| - 1];
      assert tasks == init + [last];
      RealTasksMembers(init, t);
      NamedAppend(init, last, t);
    }
  }

  // ----- The availability latch

  /** One poll of the chain by the publishing loop. */
  datatype Poll = Poll(available: bool, blockNum: nat)

  /** `_last_block_when_available` after a poll; Python's `not` treats None and 0 alike. */
  function Latched(latch: Option<nat>, poll: Poll): Option<nat> {
    if !poll.available then None
    else if latch == None || latch == Some(0) then Some(poll.blockNum)
    else latch
  }

  ghost function LatchedAfter(history: seq<Poll>): Option<nat> {
    if history == [] then Some(0) else Latched(LatchedAfter(history[..|history| - 1]), history[|history| - 1])
  }

  /** Polls s, ..., n-1 all found tasks, and poll s is the first to do so since the start or an unavailable poll. */
  ghost predicate Streak(history: seq<Poll>, s: nat) {
    && s < |history|
    && (forall k :: s <= k < |history| ==> history[k].available)
    && (s == 0 || !history[s - 1].available)
  }

  /** The latch refines the polling history: it is the block of the first poll of the current run of
      available polls (skipping polls at block 0), and empty right after an unavailable poll. */
  lemma {:induction false} LatchIsStreakStart(history: seq<Poll>, s: nat, i: nat)
    requires Streak(history, s) && s <= i < |history|
    requires history[i].blockNum > 0 && forall k :: s <= k < i ==> history[k].blockNum == 0
    ensures LatchedAfter(history) == Some(history[i].blockNum)
    decreases |history|
  {
    var init := history[..|history| - 1];
    if i < |init| {
      LatchIsStreakStart(init, s, i);
    } else {
      LatchUnsetBefore(history, s, i);
      assert LatchedAfter(init) == None || LatchedAfter(init) == Some(0);
    }
  }

  /** And there is none exactly after a poll that found no tasks. */
  lemma {:induction false} NoLatchIff(history: seq<Poll>)
    ensures LatchedAfter(history) == None <==> history != [] && !history[|history| - 1].available
  {}

  lemma {:induction false} LatchUnsetBefore(history: seq<Poll>, s: nat, i: nat)
    requires s <= i < |history| && forall k :: s <= k < i ==> history[k].available && history[k].blockNum == 0
    requires s == 0 || !history[s - 1].available
    ensures LatchedAfter(history[..i]) == None || LatchedAfter(history[..i]) == Some(0)
    decreases i - s
  {
    if s < i {
      LatchUnsetBefore(history, s, i - 1);
      assert history[..i][..i - 1] == history[..i - 1];
    } else if s > 0 {
      assert history[..s][..s - 1] == history[..s - 1];
    }
  }

  // ----- Whose turn

  datatype TaskTurnError = TurnFailed(error: TurnError) | NoLatchedBlock

  /** `TasksOracleTurn._is_oracle_turn_with_msg`; subtracting None is a TypeError. */
  function TaskQuery(conf: TurnConf, vi: BlockchainInfo, addr: string, addresses: seq<string>, available: bool,
                     latch: Option<nat>, onlyChosen: bool): Result<bool, TaskTurnError>
    requires |addresses| == |vi.selectedOracles|
  {
    if !available then Ok(false)
    else if !IsOracleSelectedInRound(vi.selectedOracles, addr) then Ok(false)
    else if latch.None? then Err(NoLatchedBlock)
    else
      var sequence := FallbackSequence(conf.enteringFallbacksAmounts, |vi.selectedOracles|);
      var since := vi.blockNum - latch.value;
      if since < conf.pricePublishBlocks then Ok(false)
      else Ok(CanOraclePublish(Some(since - conf.pricePublishBlocks), addr, addresses, sequence, onlyChosen))
  }

  function ValidateTask(conf: TurnConf, vi: BlockchainInfo, addr: string, available: bool, latch: Option<nat>)
    : Result<bool, TaskTurnError>
  {
    match PublicationOrder(vi)
    case Err(e) => Err(TurnFailed(e))
    case Ok(order) =>
      if order == [] then Err(TurnFailed(NoOracles))
      else if IsSelectedOracle(order, addr) then Ok(true)
      else TaskQuery(conf, vi, addr, order, available, latch, false)
  }

  function IsTaskTurn(conf: TurnConf, vi: BlockchainInfo, addr: string, available: bool, latch: Option<nat>,
                      disableFallbacks: bool): Result<(bool, seq<string>), TaskTurnError>
  {
    match PublicationOrder(vi)
    case Err(e) => Err(TurnFailed(e))
    case Ok(order) =>
      match TaskQuery(conf, vi, addr, order, available, latch, disableFallbacks)
      case Err(e) => Err(e)
      case Ok(mine) => Ok((mine, order))
  }

  /** The oracle is in the round, and the one window, which opens `pricePublishBlocks` after the latched block,
      admits its rank. */
  ghost predicate Entitled(conf: TurnConf, vi: BlockchainInfo, addr: string, addresses: seq<string>,
                           latch: Option<nat>, onlyChosen: bool)
  {
    && IsOracleSelectedInRound(vi.selectedOracles, addr) && addr in addresses && latch.Some?
    && Admits(Sequence(conf, vi), Rank(addresses, addr), vi.blockNum - latch.value - conf.pricePublishBlocks,
              onlyChosen)
  }

  /** A task query says yes exactly when tasks are available and the oracle is entitled to run them. */
  lemma TaskYesIff(conf: TurnConf, vi: BlockchainInfo, addr: string, addresses: seq<string>, available: bool,
                   latch: Option<nat>, onlyChosen: bool)
    requires Orders(addresses, vi)
    ensures TaskQuery(conf, vi, addr, addresses, available, latch, onlyChosen) == Ok(true)
            <==> available && Entitled(conf, vi, addr, addresses, latch, onlyChosen)
  {
    if available && IsOracleSelectedInRound(vi.selectedOracles, addr) && latch.Some? {
      assert addr in Elements(Addresses(vi.selectedOracles));
      var age := vi.blockNum - latch.value - conf.pricePublishBlocks;
      if age >= 0 {
        CanPublishByRank(age, addr, addresses, Sequence(conf, vi), onlyChosen);
      }
    }
  }

  /** The same in terms of the configured amounts and the block numbers. */
  lemma TaskYesInAmountsIff(conf: TurnConf, vi: BlockchainInfo, addr: string, addresses: seq<string>,
                            available: bool, latch: Option<nat>, onlyChosen: bool)
    requires Orders(addresses, vi) && addr in addresses
    ensures TaskQuery(conf, vi, addr, addresses, available, latch, onlyChosen) == Ok(true) <==>
              && available && AllSelected(vi.selectedOracles, addr) && latch.Some?
              && (Rank(addresses, addr) == 0 || !onlyChosen)
              && AdmittedAfter(conf.enteringFallbacksAmounts, |vi.selectedOracles|, Rank(addresses, addr),
                               vi.blockNum - latch.value - conf.pricePublishBlocks)
    ensures TaskQuery(conf, vi, addr, addresses, available, latch, onlyChosen).Err?
            <==> available && AllSelected(vi.selectedOracles, addr) && latch.None?
  {
    TaskYesIff(conf, vi, addr, addresses, available, latch, onlyChosen);
    ListedInRound(vi, addresses, addr);
    if latch.Some? {
      AdmitsInAmounts(conf.enteringFallbacksAmounts, |vi.selectedOracles|, Rank(addresses, addr),
                      vi.blockNum - latch.value - conf.pricePublishBlocks, onlyChosen);
    }
  }

  /** What a node asks itself about the tasks is that query in the publication order, about the chosen oracle only when
      fallbacks are disabled; a validator lets the chosen oracle pass at once and asks about fallbacks. */
  lemma TaskTurnsAre(conf: TurnConf, vi: BlockchainInfo, addr: string, available: bool, latch: Option<nat>,
                     disableFallbacks: bool, order: seq<string>)
    requires PublicationOrder(vi) == Ok(order)
    ensures IsTaskTurn(conf, vi, addr, available, latch, disableFallbacks)
            == match TaskQuery(conf, vi, addr, order, available, latch, disableFallbacks)
               case Err(e) => Err(e)
               case Ok(mine) => Ok((mine, order))
    ensures ValidateTask(conf, vi, addr, available, latch)
            == if order == [] then Err(TurnFailed(NoOracles))
               else if order[0] == addr then Ok(true) else TaskQuery(conf, vi, addr, order, available, latch, false)
  {}

  /** The node is the chosen one, or the peer has a latched block and the window it opens has reached its rank. */
  ghost predicate TaskPeerAgrees(conf: TurnConf, vi: BlockchainInfo, order: seq<string>, addr: string,
                                 theirs: Option<nat>)
    requires addr in order
  {
    || Rank(order, addr) == 0
    || (theirs.Some? && vi.blockNum - theirs.value
                        >= conf.pricePublishBlocks + OpeningAge(Sequence(conf, vi), Rank(order, addr)))
  }

  /** What decides whether a peer that finds tasks agrees with a node that concluded that it may run them; in
      particular it agrees when it latched a block no later. */
  lemma TaskPeerAgreesIff(conf: TurnConf, vi: BlockchainInfo, order: seq<string>, addr: string, mine: Option<nat>,
                          disableFallbacks: bool, theirs: Option<nat>)
    requires Nondecreasing(conf.enteringFallbacksAmounts) && PublicationOrder(vi) == Ok(order)
    requires IsTaskTurn(conf, vi, addr, true, mine, disableFallbacks) == Ok((true, order))
    ensures addr in order && mine.Some?
    ensures ValidateTask(conf, vi, addr, true, theirs) == Ok(true) <==> TaskPeerAgrees(conf, vi, order, addr, theirs)
    ensures theirs.Some? && theirs.value <= mine.value ==> TaskPeerAgrees(conf, vi, order, addr, theirs)
  {
    PublicationOrderOrders(vi);
    TaskYesIff(conf, vi, addr, order, true, mine, disableFallbacks);
    TaskYesIff(conf, vi, addr, order, true, theirs, false);
    SequenceShape(conf.enteringFallbacksAmounts, |vi.selectedOracles|);
    SomeAgeAdmits(conf, vi, Rank(order, addr));
    assert Admits(Sequence(conf, vi), Rank(order, addr), vi.blockNum - mine.value - conf.pricePublishBlocks, false);
  }

  /** While every poll finds tasks, an oracle once entitled to run them stays entitled. */
  lemma {:induction false} TaskTurnPersists(conf: TurnConf, vi: BlockchainInfo, addr: string,
                                            addresses: seq<string>, onlyChosen: bool, history: seq<Poll>,
                                            later: seq<Poll>, blockNum: nat)
    requires Nondecreasing(conf.enteringFallbacksAmounts) && Orders(addresses, vi)
    requires forall k :: 0 <= k < |later| ==> later[k].available
    requires LatchedAfter(history) != Some(0)
    requires TaskQuery(conf, vi, addr, addresses, true, LatchedAfter(history), onlyChosen) == Ok(true)
    requires vi.blockNum <= blockNum
    ensures TaskQuery(conf, vi.(blockNum := blockNum), addr, addresses, true, LatchedAfter(history + later),
                      onlyChosen) == Ok(true)
  {
    TaskYesIff(conf, vi, addr, addresses, true, LatchedAfter(history), onlyChosen);
    LatchKept(history, later);
    EntitledLater(conf, vi, addr, addresses, LatchedAfter(history), onlyChosen, blockNum);
    TaskYesIff(conf, vi.(blockNum := blockNum), addr, addresses, true, LatchedAfter(history + later), onlyChosen);
  }

  /** The same latch at a later block. */
  lemma EntitledLater(conf: TurnConf, vi: BlockchainInfo, addr: string, addresses: seq<string>, latch: Option<nat>,
                      onlyChosen: bool, blockNum: nat)
    requires Nondecreasing(conf.enteringFallbacksAmounts) && vi.blockNum <= blockNum
    requires Entitled(conf, vi, addr, addresses, latch, onlyChosen)
    ensures Entitled(conf, vi.(blockNum := blockNum), addr, addresses, latch, onlyChosen)
  {
    SequenceShape(conf.enteringFallbacksAmounts, |vi.selectedOracles|);
    var shift := latch.value + conf.pricePublishBlocks;
    AdmitsLater(Sequence(conf, vi), Rank(addresses, addr), vi.blockNum - shift, blockNum - shift, onlyChosen);
  }

  lemma {:induction false} LatchKept(history: seq<Poll>, later: seq<Poll>)
    requires forall k :: 0 <= k < |later| ==> later[k].available
    requires LatchedAfter(history).Some? && LatchedAfter(history) != Some(0)
    ensures LatchedAfter(history + later) == LatchedAfter(history)
    decreases |later|
  {
    if later == [] {
      assert history + later == history;
    } else {
      LatchKept(history, later[..|later| - 1]);
      assert (history + later)[..|history + later| - 1] == history + later[..|later| - 1];
    }
  }

  // ----- The runner

  datatype TaskParamsRead = TaskParamsRead(available: bool, latch: Option<nat>, flags: nat)

  class TasksRunner {
    const conf: TurnConf
    const ignored: set<string>
    const disableFallbacks: bool
    var areTasksAvailable: bool
    var tasksFlags: nat
    var lastBlockWhenAvailable: Option<nat>
    ghost var history: seq<Poll>

    ghost predicate Valid()
      reads this
    {
      lastBlockWhenAvailable == LatchedAfter(history)
    }

    constructor (conf: TurnConf, ignored: set<string>, disableFallbacks: bool)
      ensures Valid() && history == [] && this.conf == conf && this.ignored == ignored
      ensures this.disableFallbacks == disableFallbacks
    {
      this.conf, this.ignored, this.disableFallbacks := conf, ignored, disableFallbacks;
      areTasksAvailable, tasksFlags, lastBlockWhenAvailable, history := false, 0, Some(0), [];
    }

    /** None: no tasks. Otherwise the turn as decided with the block latched by the polling history. */
    method IsOracleTurn(vi: BlockchainInfo, addr: string, available: bool, flags: nat, tasks: seq<string>)
      returns (r: Option<Result<(bool, seq<string>), TaskTurnError>>)
      requires Valid() && vi.blockNum >= 0
      modifies this
      ensures Valid()
      ensures var state := AvailableTasksState(available, flags, tasks, ignored);
              && history == old(history) + [Poll(state.0, vi.blockNum)]
              && (areTasksAvailable, tasksFlags) == state
              && r == if state.0 then Some(IsTaskTurn(conf, vi, addr, true, LatchedAfter(history),
                                                      disableFallbacks)) else None
    {
      var state := AvailableTasksState(available, flags, tasks, ignored);
      areTasksAvailable, tasksFlags := state.0, state.1;
      ghost var before := history;
      history := before + [Poll(state.0, vi.blockNum)];
      assert history[..|history| - 1] == before;
      if !areTasksAvailable {
        lastBlockWhenAvailable := None;
        return None;
      }
      if lastBlockWhenAvailable == None || lastBlockWhenAvailable == Some(0) {
        lastBlockWhenAvailable := Some(vi.blockNum);
      }
      r := Some(IsTaskTurn(conf, vi, addr, true, lastBlockWhenAvailable, disableFallbacks));
    }

    /** A validator sees the chain's tasks afresh but the block latched by this node's own polls. */
    method CreateValidator(available: bool, flags: nat, tasks: seq<string>) returns (v: TaskParamsRead)
      requires Valid()
      ensures var state := AvailableTasksState(available, flags, tasks, ignored);
              v == TaskParamsRead(state.0, LatchedAfter(history), state.1)
    {
      var state := AvailableTasksState(available, flags, tasks, ignored);
      v := TaskParamsRead(state.0, lastBlockWhenAvailable, state.1);
    }
  }
}
