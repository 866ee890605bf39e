/** Whose turn it is to publish (servers/oracle/src/oracle_turn.py). */
module OracleTurn {
  import opened Prelude
  import opened Helpers
  import opened SelectNext
  import opened ConditionalPublish

  datatype TurnConf = TurnConf(
    priceDeltaPct: real, pricePublishBlocks: nat,
    enteringFallbacksAmounts: seq<Byte>, triggerValidPublicationBlocks: int)

  datatype BlockchainInfo = BlockchainInfo(
    selectedOracles: seq<OracleInfo>, blockchainPrice: int, blockNum: int,
    lastPubBlock: int, lastPubDigest: Digest, validPricePeriodInBlocks: int)

  /** The exceptions that can leave a turn query. */
  datatype TurnError = OrderFailed(SelectError) | NoOracles | InvalidBlockNumber | ZeroPrice

  // ----- Fallback windows

  /** How many addresses, from the front, may publish 0, 1, 2, ... blocks after a window opens. */
  function FallbackSequence(amounts: seq<Byte>, selectedOraclesLen: nat): (s: seq<nat>)
    ensures |s| >= 1
  {
    var s := [1] + seq(|amounts|, i requires 0 <= i < |amounts| => amounts[i] + 1);
    if s[|s| - 1] < selectedOraclesLen - 1 then s + [selectedOraclesLen] else s
  }

  function IsSelectedOracle(addresses: seq<string>, addr: string): bool
    requires |addresses| > 0
  {
    addresses[0] == addr
  }

  /** Python's `l[1:k]`. */
  function SliceFromOne<T>(l: seq<T>, k: nat): seq<T> {
    if |l| == 0 || k <= 1 then [] else l[1..if k <= |l| then k else |l|]
  }

  function CanOraclePublish(blocksSincePubIsAllowed: Option<nat>, addr: string, addresses: seq<string>,
                            sequence: seq<nat>, onlyChosen: bool): bool
    requires |addresses| > 0 && |sequence| > 0
  {
    if IsSelectedOracle(addresses, addr) then true else
      var index := if blocksSincePubIsAllowed.Some? && blocksSincePubIsAllowed.value < |sequence|
                   then blocksSincePubIsAllowed.value else |sequence| - 1;
      addr in SliceFromOne(addresses, sequence[index]) && !onlyChosen
  }

  predicate IsOracleSelectedInRound(oracles: seq<OracleInfo>, addr: string) {
    && |oracles| != 0
    && addr in Addresses(oracles)
    && !(exists i :: 0 <= i < |oracles| && oracles[i].addr == addr && !oracles[i].selectedInCurrentRound)
  }

  // ----- The price-change latch

  datatype Latch = Latch(changeBlock: int, pubBlock: int)

  const NO_LATCH := Latch(-1, -1)

  predicate IsLatched(l: Latch, lastPubBlock: int) {
    l.pubBlock == lastPubBlock && l.changeBlock >= 0
  }

  /** `price_changed_blocks`: blocks since the latched change (None if there is none) and the new latch. */
  function PriceChanged(l: Latch, lastPubBlock: int, blockNum: int, delta: Option<real>, threshold: real)
    : Result<(Option<int>, Latch), TurnError>
  {
    if lastPubBlock < 0 || blockNum < 0 then Err(InvalidBlockNumber)
    else if IsLatched(l, lastPubBlock) then Ok((Some(blockNum - l.changeBlock), l))
    else if delta.None? then Err(ZeroPrice)
    else if delta.value < threshold then Ok((None, l))
    else Ok((Some(0), Latch(blockNum, lastPubBlock)))
  }

  // ----- One turn query as a function of the state it reads

  datatype TurnState = TurnState(latch: Latch, signal: SignalState)

  datatype Setup = Setup(signalDisabled: bool, signalCfg: SignalConfig)

  /** First block of the window before the price expires, moved up to the latest mode change. */
  function ExpiryStart(f: Setup, conf: TurnConf, vi: BlockchainInfo, s: SignalState): int {
    var start := vi.lastPubBlock - conf.triggerValidPublicationBlocks
                 + ValidPeriod(s, f.signalDisabled, f.signalCfg, vi.validPricePeriodInBlocks);
    var after := AfterLook(s, f.signalDisabled);
    var online, offline := OnlineBlock(after, f.signalDisabled), OfflineBlock(after, f.signalDisabled);
    var start' := if online > start then online else start;
    if offline > start' then offline else start'
  }

  /** A reading taken earlier in the same query does not move the window. */
  lemma ExpiryStartAfterLook(f: Setup, conf: TurnConf, vi: BlockchainInfo, s: SignalState)
    ensures var after := AfterLook(s, f.signalDisabled);
            AfterLook(after, f.signalDisabled) == after
                && ExpiryStart(f, conf, vi, after) == ExpiryStart(f, conf, vi, s)
  {
    LookTwice(s);
  }

  /** The two windows, in the order the code tries them. */
  function InSomeWindow(sequence: seq<nat>, publishBlocks: nat, blockNum: int, start: int, since: Option<int>,
                        addr: string, addresses: seq<string>, onlyChosen: bool): bool
    requires |addresses| > 0 && |sequence| > 0
  {
    if blockNum >= start && CanOraclePublish(Some(blockNum - start), addr, addresses, sequence, onlyChosen) then true
    else if since.None? then false
    else if since.value < publishBlocks then false
    else CanOraclePublish(Some(since.value - publishBlocks), addr, addresses, sequence, onlyChosen)
  }

  predicate PassesGates(conf: TurnConf, vi: BlockchainInfo, addr: string, exchangePrice: Option<PriceWithTimestamp>) {
    && exchangePrice.Some?
    && IsOracleSelectedInRound(vi.selectedOracles, addr)
    && vi.validPricePeriodInBlocks >= conf.triggerValidPublicationBlocks
  }

  /** `PriceOracleTurn._is_oracle_turn_with_msg`. */
  function TurnQuery(f: Setup, conf: TurnConf, vi: BlockchainInfo, addr: string, addresses: seq<string>,
                     exchangePrice: Option<PriceWithTimestamp>, onlyChosen: bool, st: TurnState)
    : (Result<bool, TurnError>, TurnState)
    requires |addresses| == |vi.selectedOracles|
  {
    if !PassesGates(conf, vi, addr, exchangePrice) then (Ok(false), st) else
      var threshold := ConditionalPublish.PriceDelta(st.signal, f.signalDisabled, f.signalCfg, conf.priceDeltaPct);
      var delta := Helpers.PriceDelta(vi.blockchainPrice, exchangePrice.value.price);
      match PriceChanged(st.latch, vi.lastPubBlock, vi.blockNum, delta, threshold)
      case Err(e) => (Err(e), st)
      case Ok((since, latch)) =>
        (Ok(InSomeWindow(FallbackSequence(conf.enteringFallbacksAmounts, |vi.selectedOracles|), conf.pricePublishBlocks,
                         vi.blockNum, ExpiryStart(f, conf, vi, st.signal), since, addr, addresses, onlyChosen)),
         TurnState(latch, AfterLook(st.signal, f.signalDisabled)))
  }

  /** `validate_turn` once the order is known, called when another node asks for a signature. */
  function ValidateInOrder(f: Setup, conf: TurnConf, vi: BlockchainInfo, order: seq<string>, addr: string,
                           exchangePrice: Option<PriceWithTimestamp>, st: TurnState)
    : (Result<bool, TurnError>, TurnState)
    requires |order| == |vi.selectedOracles|
  {
    if order == [] then (Err(NoOracles), st)
    else if IsSelectedOracle(order, addr) then (Ok(true), st)
    else TurnQuery(f, conf, vi, addr, order, exchangePrice, false, st)
  }

  /** `is_oracle_turn` once the order is known, called by the node's own publishing loop. */
  function AskInOrder(f: Setup, conf: TurnConf, vi: BlockchainInfo, order: seq<string>, addr: string,
                      exchangePrice: Option<PriceWithTimestamp>, disableFallbacks: bool, st: TurnState)
    : (Result<(bool, seq<string>), TurnError>, TurnState)
    requires |order| == |vi.selectedOracles|
  {
    var (answer, after) := TurnQuery(f, conf, vi, addr, order, exchangePrice, disableFallbacks, st);
    (if answer.Err? then Err(answer.error) else Ok((answer.value, order)), after)
  }

  /** `select_next_addresses`. */
  function PublicationOrder(vi: BlockchainInfo): (r: Result<seq<string>, TurnError>)
    ensures r.Ok? ==> |r.value| == |vi.selectedOracles|
  {
    var order := Order(vi.lastPubDigest, vi.selectedOracles);
    if order.Err? then Err(OrderFailed(order.error)) else Ok(Addresses(order.value))
  }

  function ValidateTurn(f: Setup, conf: TurnConf, vi: BlockchainInfo, addr: string,
                        exchangePrice: Option<PriceWithTimestamp>, st: TurnState)
    : (Result<bool, TurnError>, TurnState)
  {
    var order := PublicationOrder(vi);
    if order.Err? then (Err(order.error), st)
    else ValidateInOrder(f, conf, vi, order.value, addr, exchangePrice, st)
  }

  function IsOracleTurn(f: Setup, conf: TurnConf, vi: BlockchainInfo, addr: string,
                        exchangePrice: Option<PriceWithTimestamp>, disableFallbacks: bool, st: TurnState)
    : (Result<(bool, seq<string>), TurnError>, TurnState)
  {
    var order := PublicationOrder(vi);
    if order.Err? then (Err(order.error), st)
    else AskInOrder(f, conf, vi, order.value, addr, exchangePrice, disableFallbacks, st)
  }

  // ----- What the latch remembers of the calls made so far

  /** One call of `price_changed_blocks` that did not raise: had the price moved far enough? */
  datatype LatchCall = LatchCall(lastPubBlock: nat, blockNum: nat, reached: bool)

  ghost function LatchStep(l: Latch, c: LatchCall): (Option<int>, Latch) {
    var delta := Some(if c.reached then 1.0 else 0.0);
    PriceChanged(l, c.lastPubBlock, c.blockNum, delta, 1.0).value
  }

  ghost function LatchAfter(history: seq<LatchCall>): Latch {
    if history == [] then NO_LATCH
    else LatchStep(LatchAfter(history[..|history| - 1]), history[|history| - 1]).1
  }

  /** Block of the first call in publication `pub` at which the price had moved far enough. */
  ghost function FirstReached(history: seq<LatchCall>, pub: nat): Option<nat> {
    if history == [] then None
    else if history[0].lastPubBlock == pub && history[0].reached then Some(history[0].blockNum)
    else FirstReached(history[1..], pub)
  }

  /** A call at which the price of publication `pub` had moved far enough. */
  ghost predicate MovedIn(c: LatchCall, pub: nat) {
    c.reached && c.lastPubBlock == pub
  }

  ghost predicate MovedElsewhere(c: LatchCall, pub: nat) {
    c.reached && c.lastPubBlock != pub
  }

  /** The calls after the last one at which the price of another publication had moved. */
  ghost function SinceOvertaken(history: seq<LatchCall>, pub: nat): seq<LatchCall> {
    if history == [] || MovedElsewhere(history[|history| - 1], pub) then []
    else SinceOvertaken(history[..|history| - 1], pub) + [history[|history| - 1]]
  }

  /** The price moved in `pub`, and later in another publication. */
  ghost predicate Overtaken(history: seq<LatchCall>, pub: nat) {
    exists i, j :: 0 <= i < j < |history| && MovedIn(history[i], pub) && MovedElsewhere(history[j], pub)
  }

  /** i is the first move of `pub`, j the last move of another publication, and k the first move of `pub`
      after j. */
  ghost predicate MovedAgain(history: seq<LatchCall>, pub: nat, i: nat, j: nat, k: nat) {
    && i < j < k < |history|
    && MovedIn(history[i], pub) && MovedElsewhere(history[j], pub) && MovedIn(history[k], pub)
    && (forall x :: 0 <= x < i ==> !MovedIn(history[x], pub))
    && (forall x :: j < x < |history| ==> !MovedElsewhere(history[x], pub))
    && (forall x :: j < x < k ==> !MovedIn(history[x], pub))
  }

  /** Overtaken, the price of `pub` was first seen to move again at the very block of its first move. */
  ghost predicate MovedAgainAtSameBlock(history: seq<LatchCall>, pub: nat) {
    exists i: nat, j: nat, k: nat :: MovedAgain(history, pub, i, j, k) && history[i].blockNum == history[k].blockNum
  }

  ghost function Age(since: Option<nat>, blockNum: int): Option<int> {
    match since
    case None => None
    case Some(b) => Some(blockNum - b)
  }

  ghost predicate NondecreasingPublications(history: seq<LatchCall>) {
    forall i, j :: 0 <= i < j < |history| ==> history[i].lastPubBlock <= history[j].lastPubBlock
  }

  lemma {:induction false} FirstReachedAppend(history: seq<LatchCall>, c: LatchCall, pub: nat)
    ensures FirstReached(history + [c], pub) ==
            (match FirstReached(history, pub)
             case Some(b) => Some(b)
             case None => if c.lastPubBlock == pub && c.reached then Some(c.blockNum) else None)
  {
    if history == [] {
      assert history + [c] == [c];
    } else {
      assert (history + [c])[1..] == history[1..] + [c];
      FirstReachedAppend(history[1..], c, pub);
    }
  }

  /** On every history: the latch is set for `pub` exactly when the price moved in it since another
      publication last overtook it, and then at the first such call. */
  lemma {:induction false} LatchIsFirstSinceOvertaken(history: seq<LatchCall>, pub: nat)
    ensures match FirstReached(SinceOvertaken(history, pub), pub)
            case Some(b) => LatchAfter(history) == Latch(b, pub)
            case None => !IsLatched(LatchAfter(history), pub)
  {
    if history != [] {
      var init, c := history[..|history| - 1], history[|history| - 1];
      LatchIsFirstSinceOvertaken(init, pub);
      FirstReachedAppend(SinceOvertaken(init, pub), c, pub);
    }
  }

  /** What the next call answers, on every history and in terms of it alone. */
  lemma {:induction false} LatchAnswers(history: seq<LatchCall>, c: LatchCall)
    ensures LatchStep(LatchAfter(history), c).0
            == Age(FirstReached(SinceOvertaken(history + [c], c.lastPubBlock), c.lastPubBlock), c.blockNum)
  {
    assert (history + [c])[..|history|] == history;
    LatchIsFirstSinceOvertaken(history, c.lastPubBlock);
    FirstReachedAppend(SinceOvertaken(history, c.lastPubBlock), c, c.lastPubBlock);
  }

  lemma {:induction false} FirstReachedAt(history: seq<LatchCall>, pub: nat) returns (k: nat)
    ensures k <= |history| && forall i :: 0 <= i < k ==> !MovedIn(history[i], pub)
    ensures match FirstReached(history, pub)
            case None => k == |history|
            case Some(b) => k < |history| && MovedIn(history[k], pub) && history[k].blockNum == b
  {
    k := 0;
    if history != [] && !MovedIn(history[0], pub) {
      k := FirstReachedAt(history[1..], pub);
      assert forall i :: 0 < i <= k && i < |history| ==> history[i] == history[1..][i - 1];
      k := k + 1;
    }
  }

  lemma {:induction false} SinceIsSuffix(history: seq<LatchCall>, pub: nat) returns (m: nat)
    ensures m <= |history| && SinceOvertaken(history, pub) == history[m..]
    ensures forall j :: m <= j < |history| ==> !MovedElsewhere(history[j], pub)
    ensures m > 0 ==> MovedElsewhere(history[m - 1], pub)
  {
    m := |history|;
    if history != [] && !MovedElsewhere(history[|history| - 1], pub) {
      var init := history[..|history| - 1];
      m := SinceIsSuffix(init, pub);
      assert init[m..] + [history[|history| - 1]] == history[m..];
      assert forall j :: m <= j < |init| ==> history[j] == init[j];
    }
  }

  /** While no other publication overtakes it, the first call since the last overtaking is the first of all. */
  lemma {:induction false} NotOvertakenKeepsFirst(history: seq<LatchCall>, pub: nat)
    requires !Overtaken(history, pub)
    ensures FirstReached(SinceOvertaken(history, pub), pub) == FirstReached(history, pub)
  {
    if history != [] {
      var init, c := history[..|history| - 1], history[|history| - 1];
      assert init + [c] == history;
      assert !Overtaken(init, pub) by {
        assert forall i :: 0 <= i < |init| ==> init[i] == history[i];
      }
      NotOvertakenKeepsFirst(init, pub);
      FirstReachedAppend(init, c, pub);
      FirstReachedAppend(SinceOvertaken(init, pub), c, pub);
      var k := FirstReachedAt(init, pub);
      assert k < |init| ==> history[k] == init[k];
    }
  }

  /** Once overtaken, the first call is forgotten, unless the next one was made at the same block. */
  lemma {:induction false} OvertakenForgetsFirst(history: seq<LatchCall>, pub: nat)
    requires Overtaken(history, pub)
    ensures FirstReached(SinceOvertaken(history, pub), pub) == FirstReached(history, pub)
            <==> MovedAgainAtSameBlock(history, pub)
  {
    var i, j :| 0 <= i < j < |history| && MovedIn(history[i], pub) && MovedElsewhere(history[j], pub);
    var first := FirstReachedAt(history, pub);
    var m := SinceIsSuffix(history, pub);
    var again := FirstReachedAt(history[m..], pub);
    assert first <= i < j < m;
    assert forall x :: m <= x < |history| ==> history[x] == history[m..][x - m];
    if again < |history[m..]| {
      assert MovedAgain(history, pub, first, m - 1, m + again);
    }
    forall a: nat, b: nat, c: nat | MovedAgain(history, pub, a, b, c)
      ensures a == first && b == m - 1 && c == m + again
    {
      assert MovedIn(history[m..][c - m], pub);
    }
  }

  /** On every history in which no other publication has overtaken it, the answer is the age of the first
      price move this publication ever saw. */
  lemma {:induction false} LatchRefinesUnlessOvertaken(history: seq<LatchCall>, c: LatchCall)
    requires !Overtaken(history, c.lastPubBlock)
    ensures LatchStep(LatchAfter(history), c).0 == Age(FirstReached(history + [c], c.lastPubBlock), c.blockNum)
  {
    LatchAnswers(history, c);
    OvertakenAppend(history, c);
    NotOvertakenKeepsFirst(history + [c], c.lastPubBlock);
  }

  /** And on no other history, whatever order publications and blocks come in, save by the coincidence that
      the price was first seen to move again at the very block of the first move. */
  lemma {:induction false} LatchRefinesHistoryIff(history: seq<LatchCall>, c: LatchCall)
    ensures LatchStep(LatchAfter(history), c).0 == Age(FirstReached(history + [c], c.lastPubBlock), c.blockNum)
            <==> !Overtaken(history, c.lastPubBlock) || MovedAgainAtSameBlock(history + [c], c.lastPubBlock)
  {
    if Overtaken(history, c.lastPubBlock) {
      LatchAnswers(history, c);
      OvertakenAppend(history, c);
      OvertakenForgetsFirst(history + [c], c.lastPubBlock);
    } else {
      LatchRefinesUnlessOvertaken(history, c);
    }
  }

  /** A call of the publication itself does not overtake it. */
  lemma OvertakenAppend(history: seq<LatchCall>, c: LatchCall)
    ensures Overtaken(history + [c], c.lastPubBlock) <==> Overtaken(history, c.lastPubBlock)
  {
    var all := history + [c];
    if Overtaken(history, c.lastPubBlock) {
      var i, j :| 0 <= i < j < |history| && MovedIn(history[i], c.lastPubBlock)
          && MovedElsewhere(history[j], c.lastPubBlock);
      assert MovedIn(all[i], c.lastPubBlock) && MovedElsewhere(all[j], c.lastPubBlock);
    }
  }

  /** Over non-decreasing publications, the newest one's latch is the first call whose price had moved. */
  lemma {:induction false} LatchIsFirstReached(history: seq<LatchCall>, pub: nat)
    requires NondecreasingPublications(history)
    requires forall i :: 0 <= i < |history| ==> history[i].lastPubBlock <= pub
    ensures match FirstReached(history, pub)
            case Some(b) => LatchAfter(history) == Latch(b, pub)
            case None => !IsLatched(LatchAfter(history), pub)
  {
    LatchIsFirstSinceOvertaken(history, pub);
    NotOvertakenKeepsFirst(history, pub);
  }

  /** In particular over non-decreasing publications, even when a block is asked about twice. */
  lemma {:induction false} LatchRefinesHistory(history: seq<LatchCall>, c: LatchCall)
    requires NondecreasingPublications(history + [c])
    ensures LatchStep(LatchAfter(history), c).0 == Age(FirstReached(history + [c], c.lastPubBlock), c.blockNum)
  {
    assert !Overtaken(history, c.lastPubBlock) by {
      var all := history + [c];
      assert forall j :: 0 <= j < |history| ==> all[j] == history[j];
      assert forall j :: 0 <= j < |history| ==> all[j].lastPubBlock <= all[|history|].lastPubBlock;
    }
    LatchRefinesUnlessOvertaken(history, c);
  }

  /** Concretely: a publication that comes back after another one latched is treated as new, although the
      price had already moved in it. */
  lemma ReturningPublicationForgets()
    ensures var history := [LatchCall(5, 10, true), LatchCall(6, 11, true)];
            var c := LatchCall(5, 12, false);
            LatchStep(LatchAfter(history), c).0 == None && FirstReached(history + [c], 5) == Some(10)
  {
    var history := [LatchCall(5, 10, true), LatchCall(6, 11, true)];
    assert history[..1] == [LatchCall(5, 10, true)] && history[..1][..0] == [];
    assert LatchAfter(history[..1]) == Latch(10, 5);
    assert LatchAfter(history) == Latch(11, 6);
  }

  /** The answer is the age of the first price move of this publication since another one overtook it. */
  ghost predicate AnswersFromHistory(history: seq<LatchCall>, vi: BlockchainInfo, answer: Option<int>) {
    vi.lastPubBlock >= 0 ==>
      answer == Age(FirstReached(SinceOvertaken(history, vi.lastPubBlock), vi.lastPubBlock), vi.blockNum)
  }

  // ----- The object

  class PriceOracleTurn {
    const signal: SignalService
    var priceChangeBlock: int
    var priceChangePubBlock: int
    ghost var history: seq<LatchCall>

    ghost predicate Valid()
      reads this
    {
      CurrentLatch() == LatchAfter(history)
    }

    function CurrentLatch(): Latch
      reads this
    {
      Latch(priceChangeBlock, priceChangePubBlock)
    }

    function State(): TurnState
      reads this, signal
    {
      TurnState(CurrentLatch(), signal.State())
    }

    function SignalSetup(): Setup {
      Setup(signal.disabled, signal.cfg)
    }

    constructor (signal: SignalService)
      ensures Valid() && this.signal == signal && CurrentLatch() == NO_LATCH && history == []
    {
      this.signal := signal;
      priceChangeBlock, priceChangePubBlock := -1, -1;
      history := [];
    }

    /** Unless it raises, the call joins the history, and it answers how long ago the history first saw the
        price move in this publication since another publication overtook it. */
    method PriceChangedBlocks(conf: TurnConf, vi: BlockchainInfo, exchangePrice: PriceWithTimestamp)
      returns (r: Result<Option<int>, TurnError>)
      requires Valid()
      modifies this, signal
      ensures Valid()
      ensures r.Ok? ==> AnswersFromHistory(history, vi, r.value)
      ensures var delta := Helpers.PriceDelta(vi.blockchainPrice, exchangePrice.price);
              var threshold := ConditionalPublish.PriceDelta(
                old(signal.State()), signal.disabled, signal.cfg, conf.priceDeltaPct);
              match PriceChanged(old(CurrentLatch()), vi.lastPubBlock, vi.blockNum, delta, threshold)
              case Err(e) => r == Err(e) && State() == old(State()) && history == old(history)
              case Ok((since, latch)) =>
                && r == Ok(since) && CurrentLatch() == latch
                && (signal.State() == old(signal.State())
                    || signal.State() == AfterLook(old(signal.State()), signal.disabled))
                && history == old(history)
                              + [LatchCall(vi.lastPubBlock, vi.blockNum, delta.Some? && delta.value >= threshold)]
    {
      if vi.lastPubBlock < 0 || vi.blockNum < 0 {
        return Err(InvalidBlockNumber);
      }
      ghost var moved := Helpers.PriceDelta(vi.blockchainPrice, exchangePrice.price);
      ghost var limit := ConditionalPublish.PriceDelta(signal.State(), signal.disabled, signal.cfg, conf.priceDeltaPct);
      ghost var c := LatchCall(vi.lastPubBlock, vi.blockNum, moved.Some? && moved.value >= limit);
      assert (history + [c])[..|history|] == history;
      LatchAnswers(history, c);
      if priceChangePubBlock == vi.lastPubBlock && priceChangeBlock >= 0 {
        history := history + [c];
        return Ok(Some(vi.blockNum - priceChangeBlock));
      }
      var delta := Helpers.PriceDelta(vi.blockchainPrice, exchangePrice.price);
      if delta.None? {
        return Err(ZeroPrice);
      }
      history := history + [c];
      var thresholdDelta := signal.GetPriceDelta(conf.priceDeltaPct);
      if delta.value < thresholdDelta {
        return Ok(None);
      }
      if priceChangePubBlock != vi.lastPubBlock {
        priceChangePubBlock := vi.lastPubBlock;
      }
      priceChangeBlock := vi.blockNum;
      r := Ok(Some(0));
    }

    method ExpiryWindowStart(conf: TurnConf, vi: BlockchainInfo) returns (start: int)
      modifies signal
      ensures start == ExpiryStart(SignalSetup(), conf, vi, old(signal.State()))
      ensures signal.State() == AfterLook(old(signal.State()), signal.disabled)
    {
      ExpiryStartAfterLook(SignalSetup(), conf, vi, signal.State());
      var period := signal.GetValidPricePeriod(vi.validPricePeriodInBlocks);
      start := vi.lastPubBlock - conf.triggerValidPublicationBlocks + period;
      var lastOnlineBlock := signal.LastOnlineBlock();
      var lastOfflineBlock := signal.LastOfflineBlock();
      if lastOnlineBlock > start {
        start := lastOnlineBlock;
      }
      if lastOfflineBlock > start {
        start := lastOfflineBlock;
      }
      var _ := signal.GetValidPricePeriod(vi.validPricePeriodInBlocks);  // logged
    }

    method IsOracleTurnWithMsg(conf: TurnConf, vi: BlockchainInfo, addr: string, addresses: seq<string>,
                               exchangePrice: Option<PriceWithTimestamp>, onlyChosen: bool)
      returns (r: Result<bool, TurnError>)
      requires Valid() && |addresses| == |vi.selectedOracles|
      modifies this, signal
      ensures Valid()
      ensures (r, State()) == TurnQuery(SignalSetup(), conf, vi, addr, addresses, exchangePrice, onlyChosen,
                                        old(State()))
    {
      if exchangePrice.None? {
        return Ok(false);
      }
      if !IsOracleSelectedInRound(vi.selectedOracles, addr) {
        return Ok(false);
      }
      var sequence := FallbackSequence(conf.enteringFallbacksAmounts, |vi.selectedOracles|);
      if vi.validPricePeriodInBlocks < conf.triggerValidPublicationBlocks {
        return Ok(false);
      }
      var changed := PriceChangedBlocks(conf, vi, exchangePrice.value);
      if changed.Err? {
        return Err(changed.error);
      }
      ExpiryStartAfterLook(SignalSetup(), conf, vi, old(signal.State()));
      var start := ExpiryWindowStart(conf, vi);
      var mine := TryWindows(conf, vi, start, changed.value, addr, addresses, sequence, onlyChosen);
      r := Ok(mine);
    }

    /** Before expiry first, then after the price change. */
    method TryWindows(conf: TurnConf, vi: BlockchainInfo, start: int, blocksSincePriceChange: Option<int>,
                      addr: string, addresses: seq<string>, sequence: seq<nat>, onlyChosen: bool) returns (mine: bool)
      requires |addresses| > 0 && |sequence| > 0
      ensures mine == InSomeWindow(sequence, conf.pricePublishBlocks, vi.blockNum, start, blocksSincePriceChange,
                                   addr, addresses, onlyChosen)
    {
      if vi.blockNum >= start {
        if CanOraclePublish(Some(vi.blockNum - start), addr, addresses, sequence, onlyChosen) {
          return true;
        }
      }
      if blocksSincePriceChange.None? {
        return false;
      }
      if blocksSincePriceChange.value < conf.pricePublishBlocks {
        return false;
      }
      mine := CanOraclePublish(Some(blocksSincePriceChange.value - conf.pricePublishBlocks), addr, addresses,
                               sequence, onlyChosen);
    }

    method Validate(conf: TurnConf, vi: BlockchainInfo, addr: string, exchangePrice: Option<PriceWithTimestamp>)
      returns (r: Result<bool, TurnError>)
      requires Valid()
      modifies this, signal
      ensures Valid()
      ensures (r, State()) == ValidateTurn(SignalSetup(), conf, vi, addr, exchangePrice, old(State()))
    {
      var order := SelectNext.SelectNext(vi.lastPubDigest, vi.selectedOracles);
      if order.Err? {
        return Err(OrderFailed(order.error));
      }
      var addresses := Addresses(order.value);
      if addresses == [] {
        return Err(NoOracles);
      }
      if IsSelectedOracle(addresses, addr) {
        return Ok(true);
      }
      r := IsOracleTurnWithMsg(conf, vi, addr, addresses, exchangePrice, false);
    }

    method Query(conf: TurnConf, vi: BlockchainInfo, addr: string, exchangePrice: Option<PriceWithTimestamp>,
                 disableFallbacks: bool)
      returns (r: Result<(bool, seq<string>), TurnError>)
      requires Valid()
      modifies this, signal
      ensures Valid()
      ensures (r, State()) == IsOracleTurn(SignalSetup(), conf, vi, addr, exchangePrice, disableFallbacks, old(State()))
    {
      var order := SelectNext.SelectNext(vi.lastPubDigest, vi.selectedOracles);
      if order.Err? {
        return Err(OrderFailed(order.error));
      }
      var addresses := Addresses(order.value);
      var mine := IsOracleTurnWithMsg(conf, vi, addr, addresses, exchangePrice, disableFallbacks);
      r := if mine.Err? then Err(mine.error) else Ok((mine.value, addresses));
    }
  }
}
