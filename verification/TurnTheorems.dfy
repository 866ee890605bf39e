/** What the turn protocol guarantees: over a whole publication, between a publisher and its
    peers, and across changes of the need/unneed mode (servers/oracle/src/oracle_turn.py). */
module TurnTheorems {
  import opened Prelude
  import opened SelectNext
  import opened ConditionalPublish
  import opened OracleTurn
  import Helpers
  import SignalRefresh

  // ----- Windows by rank

  /** Position of an oracle in the publication order: 0 is the chosen one. */
  function Rank(addresses: seq<string>, addr: string): nat
    requires addr in addresses
  {
    IndexOf(addresses, addr)
  }

  /** How many addresses may publish `age` blocks after a window opened. */
  function Width(sequence: seq<nat>, age: nat): nat
    requires |sequence| > 0
  {
    if age < |sequence| then sequence[age] else sequence[|sequence| - 1]
  }

  ghost predicate Nondecreasing(s: seq<nat>) {
    forall i, j :: 0 <= i < j < |s| ==> s[i] <= s[j]
  }

  ghost predicate Admits(sequence: seq<nat>, rank: nat, age: int, onlyChosen: bool)
    requires |sequence| > 0
  {
    age >= 0 && (rank == 0 || (!onlyChosen && rank < Width(sequence, age)))
  }

  lemma CanPublishByRank(age: nat, addr: string, addresses: seq<string>, sequence: seq<nat>, onlyChosen: bool)
    requires addr in addresses && |sequence| > 0
    ensures CanOraclePublish(Some(age), addr, addresses, sequence, onlyChosen)
            <==> Admits(sequence, Rank(addresses, addr), age, onlyChosen)
  {
    var rank, k := Rank(addresses, addr), Width(sequence, age);
    var slice := SliceFromOne(addresses, k);
    if 0 < rank < k {
      assert slice[rank - 1] == addr;
    }
    if rank > 0 && addr in slice {
      var i :| 0 <= i < |slice| && slice[i] == addr;
      RankIsFirst(addresses, addr, i + 1);
    }
  }

  lemma RankIsFirst(addresses: seq<string>, addr: string, i: nat)
    requires i < |addresses| && addresses[i] == addr
    ensures Rank(addresses, addr) <= i
  {
    var rank := Rank(addresses, addr);
    assert forall k :: 0 <= k < rank ==> addresses[..rank][k] == addresses[k];
  }

  lemma SequenceShape(amounts: seq<Byte>, n: nat)
    requires Nondecreasing(amounts)
    ensures Nondecreasing(FallbackSequence(amounts, n)) && FallbackSequence(amounts, n)[0] == 1
  {}

  /** The window never narrows. */
  lemma WidthMonotone(sequence: seq<nat>, age: nat, later: nat)
    requires |sequence| > 0 && Nondecreasing(sequence) && age <= later
    ensures Width(sequence, age) <= Width(sequence, later)
  {}

  /** First age at which a rank is admitted; the length of the sequence if never. */
  ghost function OpeningAge(sequence: seq<nat>, rank: nat): (a: nat)
    ensures a <= |sequence|
    ensures forall i :: 0 <= i < a ==> sequence[i] <= rank
    ensures a < |sequence| ==> rank < sequence[a]
  {
    if sequence == [] || rank < sequence[0] then 0 else 1 + OpeningAge(sequence[1..], rank)
  }

  lemma {:induction false} OpeningAgeIff(sequence: seq<nat>, rank: nat, age: nat)
    requires |sequence| > 0 && Nondecreasing(sequence)
    ensures rank < Width(sequence, age)
            <==> OpeningAge(sequence, rank) <= age && OpeningAge(sequence, rank) < |sequence|
  {}

  function LastEntry(amounts: seq<Byte>): nat {
    if amounts == [] then 1 else amounts[|amounts| - 1] as nat + 1
  }

  lemma LastOfSequence(amounts: seq<Byte>, n: nat)
    ensures var s := FallbackSequence(amounts, n);
            s[|s| - 1] == if LastEntry(amounts) < n - 1 then n else LastEntry(amounts)
  {
    var s: seq<nat> := [1] + seq(|amounts|, i requires 0 <= i < |amounts| => amounts[i] as nat + 1);
    assert |s| == |amounts| + 1;
    if amounts != [] {
      assert s[|s| - 1] == amounts[|amounts| - 1] as nat + 1;
    }
    assert s[|s| - 1] == LastEntry(amounts);
  }

  lemma FullWidth(amounts: seq<Byte>, n: nat, age: nat)
    requires age >= |FallbackSequence(amounts, n)| - 1
    ensures Width(FallbackSequence(amounts, n), age) == if LastEntry(amounts) < n - 1 then n else LastEntry(amounts)
  {
    LastOfSequence(amounts, n);
  }

  /** The largest rank ever admitted: everyone, except the very last position exactly when the
      configured last entry (last amount + 1, or 1 if there is none) equals n - 1. */
  lemma FullWindowAdmits(amounts: seq<Byte>, n: nat, rank: nat, age: nat)
    requires Nondecreasing(amounts) && rank < n
    ensures var sequence := FallbackSequence(amounts, n);
            age >= |sequence| - 1 ==>
              (Admits(sequence, rank, age, false) <==> !(rank == n - 1 && LastEntry(amounts) == n - 1))
  {
    if age >= |FallbackSequence(amounts, n)| - 1 {
      FullWidth(amounts, n, age);
    }
  }

  /** In terms of the configured amounts: so many addresses at each age. */
  lemma WidthInAmounts(amounts: seq<Byte>, n: nat, age: nat)
    ensures Width(FallbackSequence(amounts, n), age) ==
            if age == 0 then 1
            else if age <= |amounts| then amounts[age - 1] as nat + 1
            else if LastEntry(amounts) < n - 1 then n else LastEntry(amounts)
  {
    var s := FallbackSequence(amounts, n);
    var given: seq<nat> := [1] + seq(|amounts|, i requires 0 <= i < |amounts| => amounts[i] as nat + 1);
    assert given <= s && |given| == |amounts| + 1;
    if 0 < age <= |amounts| {
      assert given[age] == amounts[age - 1] as nat + 1;
    } else if age > |amounts| {
      FullWidth(amounts, n, age);
    }
  }

  /** The position is admitted `age` blocks after a window opened: the chosen one at once; a fallback after k
      blocks when the k-th amount reaches it and, past the amounts, when the last one does, or in any case if the
      last amount leaves out more than the very last position. */
  ghost predicate AdmittedAfter(amounts: seq<Byte>, n: nat, rank: nat, age: int) {
    var last := if amounts == [] then 0 else amounts[|amounts| - 1] as nat;
    && age >= 0
    && (|| rank == 0
        || (0 < age <= |amounts| && rank <= amounts[age - 1])
        || (age > |amounts| && if last + 2 < n then rank < n else rank <= last))
  }

  lemma AdmitsInAmounts(amounts: seq<Byte>, n: nat, rank: nat, age: int, onlyChosen: bool)
    ensures Admits(FallbackSequence(amounts, n), rank, age, onlyChosen)
            <==> (rank == 0 || !onlyChosen) && AdmittedAfter(amounts, n, rank, age)
  {
    if age >= 0 {
      WidthInAmounts(amounts, n, age);
    }
  }

  // ----- When a query says yes

  ghost predicate Orders(addresses: seq<string>, vi: BlockchainInfo) {
    && |addresses| == |vi.selectedOracles|
    && Elements(addresses) == Elements(Addresses(vi.selectedOracles))
  }

  lemma PublicationOrderOrders(vi: BlockchainInfo)
    requires PublicationOrder(vi).Ok?
    ensures Orders(PublicationOrder(vi).value, vi)
  {
    PermutationKeepsAddresses(Order(vi.lastPubDigest, vi.selectedOracles).value, vi.selectedOracles);
  }

  ghost function Sequence(conf: TurnConf, vi: BlockchainInfo): seq<nat> {
    FallbackSequence(conf.enteringFallbacksAmounts, |vi.selectedOracles|)
  }

  /** The latch the query works with, or why it raises. */
  ghost function Changed(f: Setup, conf: TurnConf, vi: BlockchainInfo, price: PriceWithTimestamp, st: TurnState)
    : Result<(Option<int>, Latch), TurnError>
  {
    PriceChanged(st.latch, vi.lastPubBlock, vi.blockNum, Helpers.PriceDelta(vi.blockchainPrice, price.price),
                 ConditionalPublish.PriceDelta(st.signal, f.signalDisabled, f.signalCfg, conf.priceDeltaPct))
  }

  ghost predicate ExpiryAdmits(f: Setup, conf: TurnConf, vi: BlockchainInfo, s: SignalState, rank: nat,
                               onlyChosen: bool)
  {
    Admits(Sequence(conf, vi), rank, vi.blockNum - ExpiryStart(f, conf, vi, s), onlyChosen)
  }

  ghost predicate ChangeAdmits(conf: TurnConf, vi: BlockchainInfo, l: Latch, rank: nat, onlyChosen: bool) {
    && IsLatched(l, vi.lastPubBlock)
    && Admits(Sequence(conf, vi), rank, vi.blockNum - l.changeBlock - conf.pricePublishBlocks, onlyChosen)
  }

  lemma WindowIff(blocks: int, addr: string, addresses: seq<string>, sequence: seq<nat>, onlyChosen: bool)
    requires addr in addresses && |sequence| > 0
    ensures blocks >= 0 && CanOraclePublish(Some(blocks), addr, addresses, sequence, onlyChosen)
            <==> Admits(sequence, Rank(addresses, addr), blocks, onlyChosen)
  {
    if blocks >= 0 {
      CanPublishByRank(blocks, addr, addresses, sequence, onlyChosen);
    }
  }

  lemma InSomeWindowIff(sequence: seq<nat>, publishBlocks: nat, blockNum: int, start: int, since: Option<int>,
                        addr: string, addresses: seq<string>, onlyChosen: bool)
    requires addr in addresses && |sequence| > 0
    ensures var rank := Rank(addresses, addr);
            InSomeWindow(sequence, publishBlocks, blockNum, start, since, addr, addresses, onlyChosen) <==>
              || Admits(sequence, rank, blockNum - start, onlyChosen)
              || (since.Some? && Admits(sequence, rank, since.value - publishBlocks, onlyChosen))
  {
    WindowIff(blockNum - start, addr, addresses, sequence, onlyChosen);
    if since.Some? {
      WindowIff(since.value - publishBlocks, addr, addresses, sequence, onlyChosen);
    }
  }

  /** A query says yes exactly when the gates pass, nothing raises, and the oracle's rank is admitted
      by the window before expiry or by the window after the latched price change. */
  lemma QueryYesIff(f: Setup, conf: TurnConf, vi: BlockchainInfo, addr: string, addresses: seq<string>,
                    price: Option<PriceWithTimestamp>, onlyChosen: bool, st: TurnState)
    requires Orders(addresses, vi)
    ensures var (answer, after) := TurnQuery(f, conf, vi, addr, addresses, price, onlyChosen, st);
            answer == Ok(true) <==>
              && PassesGates(conf, vi, addr, price)
              && Changed(f, conf, vi, price.value, st).Ok?
              && addr in addresses
              && (ExpiryAdmits(f, conf, vi, st.signal, Rank(addresses, addr), onlyChosen)
                  || ChangeAdmits(conf, vi, after.latch, Rank(addresses, addr), onlyChosen))
  {
    if PassesGates(conf, vi, addr, price) && Changed(f, conf, vi, price.value, st).Ok? {
      assert addr in Elements(Addresses(vi.selectedOracles));
      var (since, latch) := Changed(f, conf, vi, price.value, st).value;
      SinceIsLatchAge(f, conf, vi, price.value, st);
      QueryInWindow(f, conf, vi, addr, addresses, price, onlyChosen, st, since, latch);
    }
  }

  lemma SinceIsLatchAge(f: Setup, conf: TurnConf, vi: BlockchainInfo, price: PriceWithTimestamp, st: TurnState)
    requires Changed(f, conf, vi, price, st).Ok?
    ensures var (since, latch) := Changed(f, conf, vi, price, st).value;
            if IsLatched(latch, vi.lastPubBlock) then since == Some(vi.blockNum - latch.changeBlock) else since == None
  {}

  lemma QueryInWindow(f: Setup, conf: TurnConf, vi: BlockchainInfo, addr: string, addresses: seq<string>,
                      price: Option<PriceWithTimestamp>, onlyChosen: bool, st: TurnState, since: Option<int>,
                      latch: Latch)
    requires |addresses| == |vi.selectedOracles| && addr in addresses
    requires PassesGates(conf, vi, addr, price) && Changed(f, conf, vi, price.value, st) == Ok((since, latch))
    ensures var (answer, after) := TurnQuery(f, conf, vi, addr, addresses, price, onlyChosen, st);
            && answer.Ok? && after.latch == latch
            && (answer.value <==>
                  || ExpiryAdmits(f, conf, vi, st.signal, Rank(addresses, addr), onlyChosen)
                  || (since.Some? && Admits(Sequence(conf, vi), Rank(addresses, addr),
                                            since.value - conf.pricePublishBlocks, onlyChosen)))
  {
    InSomeWindowIff(Sequence(conf, vi), conf.pricePublishBlocks, vi.blockNum, ExpiryStart(f, conf, vi, st.signal),
                    since, addr, addresses, onlyChosen);
  }

  /** A query raises exactly when the gates pass and either a block number is negative or, before the
      price change is latched, one of the prices divides by zero; it then changes nothing. */
  lemma QueryRaisesIff(f: Setup, conf: TurnConf, vi: BlockchainInfo, addr: string, addresses: seq<string>,
                       price: Option<PriceWithTimestamp>, onlyChosen: bool, st: TurnState)
    requires |addresses| == |vi.selectedOracles|
    ensures var (answer, after) := TurnQuery(f, conf, vi, addr, addresses, price, onlyChosen, st);
            && (answer.Err? <==>
                  && PassesGates(conf, vi, addr, price)
                  && (|| vi.lastPubBlock < 0 || vi.blockNum < 0
                      || (!IsLatched(st.latch, vi.lastPubBlock)
                          && Helpers.Min(vi.blockchainPrice, price.value.price) == 0)))
            && (answer.Err? ==>
                  && after == st
                  && answer.error == if vi.lastPubBlock < 0 || vi.blockNum < 0 then InvalidBlockNumber else ZeroPrice)
            && (!PassesGates(conf, vi, addr, price) ==> answer == Ok(false) && after == st)
            && (PassesGates(conf, vi, addr, price) && answer.Ok? ==>
                after.signal == AfterLook(st.signal, f.signalDisabled))
  {}

  /** A peer's query as a whole raises exactly when the order cannot be derived (no oracles, or more than
      32), or for an oracle other than the chosen one when the query proper does. */
  lemma ValidateRaisesIff(f: Setup, conf: TurnConf, vi: BlockchainInfo, addr: string,
                          price: Option<PriceWithTimestamp>, st: TurnState)
    ensures ValidateTurn(f, conf, vi, addr, price, st).0.Err? <==>
              || |vi.selectedOracles| == 0 || |vi.selectedOracles| > HASH_BYTES
              || (PublicationOrder(vi).value[0] != addr
                  && TurnQuery(f, conf, vi, addr, PublicationOrder(vi).value, price, false, st).0.Err?)
    ensures 0 < |vi.selectedOracles| <= HASH_BYTES && PublicationOrder(vi).value[0] == addr ==>
              ValidateTurn(f, conf, vi, addr, price, st) == (Ok(true), st)
    ensures |vi.selectedOracles| == 0 ==> ValidateTurn(f, conf, vi, addr, price, st) == (Err(NoOracles), st)
    ensures |vi.selectedOracles| > HASH_BYTES ==>
              ValidateTurn(f, conf, vi, addr, price, st) == (Err(OrderFailed(TooManyOracles)), st)
  {
    assert PublicationOrder(vi).Ok? <==> |vi.selectedOracles| <= HASH_BYTES;
  }

  /** What a node asks itself about its own turn is the query in the publication order, about the chosen oracle only
      when fallbacks are disabled. */
  lemma OwnTurnIs(f: Setup, conf: TurnConf, vi: BlockchainInfo, addr: string, price: Option<PriceWithTimestamp>,
                  disableFallbacks: bool, st: TurnState)
    requires PublicationOrder(vi).Ok?
    ensures var (r, after) := IsOracleTurn(f, conf, vi, addr, price, disableFallbacks, st);
            var (answer, moved) := TurnQuery(f, conf, vi, addr, PublicationOrder(vi).value, price, disableFallbacks,
                                             st);
            && after == moved
            && r == (if answer.Err? then Err(answer.error) else Ok((answer.value, PublicationOrder(vi).value)))
            && (r.Ok? && r.value.0 && disableFallbacks ==> addr in r.value.1 && Rank(r.value.1, addr) == 0)
  {
    PublicationOrderOrders(vi);
    QueryYesIff(f, conf, vi, addr, PublicationOrder(vi).value, price, disableFallbacks, st);
  }

  // ----- Publisher and peer

  /** What a node reads of its signal for the expiry window. */
  ghost predicate SameReadings(vi: BlockchainInfo, f: Setup, s: SignalState, g: Setup, t: SignalState) {
    var a, b := AfterLook(s, f.signalDisabled), AfterLook(t, g.signalDisabled);
    && ValidPeriod(s, f.signalDisabled, f.signalCfg, vi.validPricePeriodInBlocks)
       == ValidPeriod(t, g.signalDisabled, g.signalCfg, vi.validPricePeriodInBlocks)
    && OnlineBlock(a, f.signalDisabled) == OnlineBlock(b, g.signalDisabled)
    && OfflineBlock(a, f.signalDisabled) == OfflineBlock(b, g.signalDisabled)
  }

  ghost predicate EqualOrOlder(peer: Latch, publisher: Latch, pub: int) {
    IsLatched(publisher, pub) ==> IsLatched(peer, pub) && peer.changeBlock <= publisher.changeBlock
  }

  ghost predicate InRound(conf: TurnConf, vi: BlockchainInfo, order: seq<string>, addr: string) {
    && addr in order && IsOracleSelectedInRound(vi.selectedOracles, addr)
    && vi.validPricePeriodInBlocks >= conf.triggerValidPublicationBlocks
    && vi.lastPubBlock >= 0 && vi.blockNum >= 0
  }

  /** A query about a fallback can be answered: there is an exchange price and, unless the price change is
      latched already, no division by zero. */
  ghost predicate CanAnswer(vi: BlockchainInfo, price: Option<PriceWithTimestamp>, l: Latch) {
    price.Some? && (IsLatched(l, vi.lastPubBlock) || Helpers.Min(vi.blockchainPrice, price.value.price) != 0)
  }

  /** A latch set by the very query is too young to admit a fallback. */
  lemma FreshLatchAdmitsNoFallback(f: Setup, conf: TurnConf, vi: BlockchainInfo, price: PriceWithTimestamp,
                                   st: TurnState, rank: nat, onlyChosen: bool)
    requires Changed(f, conf, vi, price, st).Ok? && rank > 0
    ensures ChangeAdmits(conf, vi, Changed(f, conf, vi, price, st).value.1, rank, onlyChosen)
            <==> ChangeAdmits(conf, vi, st.latch, rank, onlyChosen)
  {
    assert Sequence(conf, vi)[0] == 1;
  }

  /** In terms of what the node knows before the query: it says yes to a fallback exactly when the oracle is
      in the round, the query can be answered, and a window admits the oracle's rank. */
  lemma FallbackYesIff(f: Setup, conf: TurnConf, vi: BlockchainInfo, addr: string, addresses: seq<string>,
                       price: Option<PriceWithTimestamp>, onlyChosen: bool, st: TurnState)
    requires Orders(addresses, vi) && addr in addresses && Rank(addresses, addr) > 0
    ensures TurnQuery(f, conf, vi, addr, addresses, price, onlyChosen, st).0 == Ok(true) <==>
              && InRound(conf, vi, addresses, addr) && CanAnswer(vi, price, st.latch)
              && (ExpiryAdmits(f, conf, vi, st.signal, Rank(addresses, addr), onlyChosen)
                  || ChangeAdmits(conf, vi, st.latch, Rank(addresses, addr), onlyChosen))
  {
    QueryYesIff(f, conf, vi, addr, addresses, price, onlyChosen, st);
    if PassesGates(conf, vi, addr, price) && Changed(f, conf, vi, price.value, st).Ok? {
      FreshLatchAdmitsNoFallback(f, conf, vi, price.value, st, Rank(addresses, addr), onlyChosen);
      LatchOfQuery(f, conf, vi, addr, addresses, price, onlyChosen, st);
    }
  }

  /** Every listed entry with this address is selected. */
  ghost predicate AllSelected(oracles: seq<OracleInfo>, addr: string) {
    forall i :: 0 <= i < |oracles| && oracles[i].addr == addr ==> oracles[i].selectedInCurrentRound
  }

  /** The same in terms of the configured amounts, the listed oracles and the block numbers alone. */
  lemma FallbackYesInAmountsIff(f: Setup, conf: TurnConf, vi: BlockchainInfo, addr: string, addresses: seq<string>,
                                price: Option<PriceWithTimestamp>, onlyChosen: bool, st: TurnState)
    requires Orders(addresses, vi) && addr in addresses && Rank(addresses, addr) > 0
    ensures var (rank, amounts, n) := (Rank(addresses, addr), conf.enteringFallbacksAmounts, |vi.selectedOracles|);
            var latched := st.latch.pubBlock == vi.lastPubBlock && st.latch.changeBlock >= 0;
            TurnQuery(f, conf, vi, addr, addresses, price, onlyChosen, st).0 == Ok(true) <==>
              && !onlyChosen && price.Some? && AllSelected(vi.selectedOracles, addr)
              && vi.validPricePeriodInBlocks >= conf.triggerValidPublicationBlocks
              && vi.lastPubBlock >= 0 && vi.blockNum >= 0
              && (latched || Helpers.Min(vi.blockchainPrice, price.value.price) != 0)
              && (|| AdmittedAfter(amounts, n, rank, vi.blockNum - ExpiryStart(f, conf, vi, st.signal))
                  || (latched && AdmittedAfter(amounts, n, rank,
                                               vi.blockNum - st.latch.changeBlock - conf.pricePublishBlocks)))
  {
    var rank, amounts, n := Rank(addresses, addr), conf.enteringFallbacksAmounts, |vi.selectedOracles|;
    FallbackYesIff(f, conf, vi, addr, addresses, price, onlyChosen, st);
    AdmitsInAmounts(amounts, n, rank, vi.blockNum - ExpiryStart(f, conf, vi, st.signal), onlyChosen);
    AdmitsInAmounts(amounts, n, rank, vi.blockNum - st.latch.changeBlock - conf.pricePublishBlocks, onlyChosen);
    ListedInRound(vi, addresses, addr);
  }

  lemma ListedInRound(vi: BlockchainInfo, addresses: seq<string>, addr: string)
    requires Orders(addresses, vi) && addr in addresses
    ensures IsOracleSelectedInRound(vi.selectedOracles, addr) <==> AllSelected(vi.selectedOracles, addr)
  {
    assert addr in Elements(addresses);
    assert addr in Addresses(vi.selectedOracles);
  }

  /** And for the chosen oracle, who needs only one of the windows to have opened; here a price change that the
      query itself has just latched counts. */
  lemma ChosenYesIff(f: Setup, conf: TurnConf, vi: BlockchainInfo, addr: string, addresses: seq<string>,
                     price: Option<PriceWithTimestamp>, onlyChosen: bool, st: TurnState)
    requires Orders(addresses, vi) && addr in addresses && Rank(addresses, addr) == 0
    ensures var (answer, after) := TurnQuery(f, conf, vi, addr, addresses, price, onlyChosen, st);
            answer == Ok(true) <==>
              && answer.Ok? && price.Some? && AllSelected(vi.selectedOracles, addr)
              && vi.validPricePeriodInBlocks >= conf.triggerValidPublicationBlocks
              && (|| vi.blockNum >= ExpiryStart(f, conf, vi, st.signal)
                  || (&& after.latch.pubBlock == vi.lastPubBlock && after.latch.changeBlock >= 0
                      && vi.blockNum - after.latch.changeBlock >= conf.pricePublishBlocks))
  {
    QueryYesIff(f, conf, vi, addr, addresses, price, onlyChosen, st);
    ListedInRound(vi, addresses, addr);
  }

  /** A query that passes the gates latches the price change exactly when the prices, both positive, are at least
      the threshold apart, in percent of the smaller, and no change of this publication is latched yet. */
  lemma LatchSetIff(f: Setup, conf: TurnConf, vi: BlockchainInfo, addr: string, addresses: seq<string>,
                    price: Option<PriceWithTimestamp>, onlyChosen: bool, st: TurnState)
    requires |addresses| == |vi.selectedOracles| && PassesGates(conf, vi, addr, price)
    requires vi.lastPubBlock >= 0 && vi.blockNum >= 0 && vi.blockchainPrice > 0 && price.value.price > 0
    ensures var (p, q) := (vi.blockchainPrice, price.value.price);
            var threshold := ConditionalPublish.PriceDelta(st.signal, f.signalDisabled, f.signalCfg,
                                                           conf.priceDeltaPct);
            var moved := (if p < q then q - p
                else p - q) as real * 100.0 >= threshold * ((if p < q then p else q) as real);
            TurnQuery(f, conf, vi, addr, addresses, price, onlyChosen, st).1.latch
            == if moved && !(st.latch.pubBlock == vi.lastPubBlock && st.latch.changeBlock >= 0)
               then Latch(vi.blockNum, vi.lastPubBlock) else st.latch
  {
    Helpers.DeltaReachesIff(vi.blockchainPrice, price.value.price,
                            ConditionalPublish.PriceDelta(st.signal, f.signalDisabled, f.signalCfg,
                                                          conf.priceDeltaPct));
  }

  /** Where the window before expiry starts. Without a signal service there are no mode changes. */
  lemma ExpiryStartIs(cfg: SignalConfig, conf: TurnConf, vi: BlockchainInfo, s: SignalState)
    ensures ExpiryStart(Setup(true, cfg), conf, vi, s)
            == Helpers.Max(vi.lastPubBlock - conf.triggerValidPublicationBlocks + vi.validPricePeriodInBlocks, 0)
    ensures var start := vi.lastPubBlock - conf.triggerValidPublicationBlocks
                         + ValidPeriod(s, false, cfg, vi.validPricePeriodInBlocks);
            ExpiryStart(Setup(false, cfg), conf, vi, s)
            == Helpers.Max(Helpers.Max(start, Look(s).1.lastOnlineBlock), Look(s).1.lastOfflineBlock)
  {}

  lemma LatchOfQuery(f: Setup, conf: TurnConf, vi: BlockchainInfo, addr: string, addresses: seq<string>,
                     price: Option<PriceWithTimestamp>, onlyChosen: bool, st: TurnState)
    requires |addresses| == |vi.selectedOracles| && PassesGates(conf, vi, addr, price)
    requires Changed(f, conf, vi, price.value, st).Ok?
    ensures TurnQuery(f, conf, vi, addr, addresses, price, onlyChosen, st).1.latch
            == Changed(f, conf, vi, price.value, st).value.1
  {}

  /** A publisher's yes: the oracle is in the round, and it is the chosen one or was admitted by a window
      that was open, latch and all, before the query. */
  lemma PublisherYes(f: Setup, conf: TurnConf, vi: BlockchainInfo, order: seq<string>, addr: string,
                     price: Option<PriceWithTimestamp>, disableFallbacks: bool, st: TurnState)
    requires Orders(order, vi)
    requires var p := AskInOrder(f, conf, vi, order, addr, price, disableFallbacks, st).0; p.Ok? && p.value.0
    ensures InRound(conf, vi, order, addr)
    ensures || Rank(order, addr) == 0
            || ExpiryAdmits(f, conf, vi, st.signal, Rank(order, addr), false)
            || ChangeAdmits(conf, vi, st.latch, Rank(order, addr), false)
  {
    QueryYesIff(f, conf, vi, addr, order, price, disableFallbacks, st);
    if Rank(order, addr) > 0 {
      FallbackYesIff(f, conf, vi, addr, order, price, disableFallbacks, st);
    }
  }

  /** A window that admitted the oracle at the publisher is open at the peer too. */
  lemma OpenAtPeer(conf: TurnConf, vi: BlockchainInfo, f: Setup, s: SignalState, mine: Latch, g: Setup,
                   t: SignalState, theirs: Latch, rank: nat)
    requires Nondecreasing(conf.enteringFallbacksAmounts)
    requires SameReadings(vi, f, s, g, t) && EqualOrOlder(theirs, mine, vi.lastPubBlock)
    requires ExpiryAdmits(f, conf, vi, s, rank, false) || ChangeAdmits(conf, vi, mine, rank, false)
    ensures ExpiryAdmits(g, conf, vi, t, rank, false) || ChangeAdmits(conf, vi, theirs, rank, false)
  {
    OlderLatchAdmits(conf, vi, rank, mine, theirs);
    SameExpiryStart(conf, vi, f, s, g, t);
  }

  lemma SameExpiryStart(conf: TurnConf, vi: BlockchainInfo, f: Setup, s: SignalState, g: Setup, t: SignalState)
    requires SameReadings(vi, f, s, g, t)
    ensures ExpiryStart(f, conf, vi, s) == ExpiryStart(g, conf, vi, t)
  {}

  lemma OlderLatchAdmits(conf: TurnConf, vi: BlockchainInfo, rank: nat, publisher: Latch, peer: Latch)
    requires Nondecreasing(conf.enteringFallbacksAmounts) && EqualOrOlder(peer, publisher, vi.lastPubBlock)
    ensures ChangeAdmits(conf, vi, publisher, rank, false) ==> ChangeAdmits(conf, vi, peer, rank, false)
  {
    SequenceShape(conf.enteringFallbacksAmounts, |vi.selectedOracles|);
    if ChangeAdmits(conf, vi, publisher, rank, false) {
      AdmitsLater(Sequence(conf, vi), rank, vi.blockNum - publisher.changeBlock - conf.pricePublishBlocks,
                  vi.blockNum - peer.changeBlock - conf.pricePublishBlocks, false);
    }
  }

  /** A peer agrees about an oracle of the round exactly when it is the chosen one, or the peer can answer
      and one of its windows admits the oracle's rank. */
  lemma PeerSaysYesIff(conf: TurnConf, vi: BlockchainInfo, order: seq<string>, addr: string, g: Setup,
                       peerPrice: Option<PriceWithTimestamp>, peer: TurnState)
    requires Orders(order, vi) && InRound(conf, vi, order, addr)
    ensures ValidateInOrder(g, conf, vi, order, addr, peerPrice, peer).0 == Ok(true) <==>
              || Rank(order, addr) == 0
              || (CanAnswer(vi, peerPrice, peer.latch)
                  && (ExpiryAdmits(g, conf, vi, peer.signal, Rank(order, addr), false)
                      || ChangeAdmits(conf, vi, peer.latch, Rank(order, addr), false)))
  {
    if Rank(order, addr) > 0 {
      FallbackYesIff(g, conf, vi, addr, order, peerPrice, false, peer);
    }
  }

  lemma AgreementInOrder(conf: TurnConf, vi: BlockchainInfo, order: seq<string>, addr: string, f: Setup,
                         price: Option<PriceWithTimestamp>, disableFallbacks: bool, st: TurnState, g: Setup,
                         peerPrice: Option<PriceWithTimestamp>, peer: TurnState)
    requires Nondecreasing(conf.enteringFallbacksAmounts) && Orders(order, vi)
    requires var p := AskInOrder(f, conf, vi, order, addr, price, disableFallbacks, st).0; p.Ok? && p.value.0
    requires SameReadings(vi, f, st.signal, g, peer.signal) && EqualOrOlder(peer.latch, st.latch, vi.lastPubBlock)
    requires CanAnswer(vi, peerPrice, peer.latch)
    ensures ValidateInOrder(g, conf, vi, order, addr, peerPrice, peer).0 == Ok(true)
  {
    PublisherYes(f, conf, vi, order, addr, price, disableFallbacks, st);
    PeerSaysYesIff(conf, vi, order, addr, g, peerPrice, peer);
    if Rank(order, addr) > 0 {
      OpenAtPeer(conf, vi, f, st.signal, st.latch, g, peer.signal, peer.latch, Rank(order, addr));
    }
  }

  /** Whenever a node (with fallbacks enabled or disabled) concludes that it may publish, every peer agrees
      that reads the same signal, can answer, and had not latched this publication's price change later. */
  lemma PublisherPeerAgreement(conf: TurnConf, vi: BlockchainInfo, addr: string, f: Setup,
                               price: Option<PriceWithTimestamp>, disableFallbacks: bool, st: TurnState, g: Setup,
                               peerPrice: Option<PriceWithTimestamp>, peer: TurnState)
    requires Nondecreasing(conf.enteringFallbacksAmounts)
    requires var p := IsOracleTurn(f, conf, vi, addr, price, disableFallbacks, st).0; p.Ok? && p.value.0
    requires SameReadings(vi, f, st.signal, g, peer.signal) && EqualOrOlder(peer.latch, st.latch, vi.lastPubBlock)
    requires CanAnswer(vi, peerPrice, peer.latch)
    ensures ValidateTurn(g, conf, vi, addr, peerPrice, peer).0 == Ok(true)
  {
    PublicationOrderOrders(vi);
    AgreementInOrder(conf, vi, PublicationOrder(vi).value, addr, f, price, disableFallbacks, st, g, peerPrice, peer);
  }

  /** What decides a peer's answer, all of it known before it is asked: the oracle is the chosen one, or the
      peer can answer and one of its windows has been open long enough for the oracle's rank. */
  ghost predicate PeerAgrees(conf: TurnConf, vi: BlockchainInfo, order: seq<string>, addr: string, g: Setup,
                             peerPrice: Option<PriceWithTimestamp>, peer: TurnState)
    requires addr in order
  {
    var opening := OpeningAge(Sequence(conf, vi), Rank(order, addr));
    || Rank(order, addr) == 0
    || (CanAnswer(vi, peerPrice, peer.latch)
        && (|| vi.blockNum - ExpiryStart(g, conf, vi, peer.signal) >= opening
            || (IsLatched(peer.latch, vi.lastPubBlock)
                && vi.blockNum - peer.latch.changeBlock >= conf.pricePublishBlocks + opening)))
  }

  /** Exactly when a peer agrees with a node that concluded that it may publish, whatever the peer's latch,
      signal and exchange price. */
  lemma PeerAgreesIff(conf: TurnConf, vi: BlockchainInfo, order: seq<string>, addr: string, f: Setup,
                      price: Option<PriceWithTimestamp>, disableFallbacks: bool, st: TurnState, g: Setup,
                      peerPrice: Option<PriceWithTimestamp>, peer: TurnState)
    requires Nondecreasing(conf.enteringFallbacksAmounts)
    requires PublicationOrder(vi) == Ok(order)
    requires var p := IsOracleTurn(f, conf, vi, addr, price, disableFallbacks, st).0; p.Ok? && p.value.0
    ensures addr in order
    ensures ValidateTurn(g, conf, vi, addr, peerPrice, peer).0 == Ok(true)
            <==> PeerAgrees(conf, vi, order, addr, g, peerPrice, peer)
  {
    PublicationOrderOrders(vi);
    PublisherYes(f, conf, vi, order, addr, price, disableFallbacks, st);
    SequenceShape(conf.enteringFallbacksAmounts, |vi.selectedOracles|);
    PeerSaysYesIff(conf, vi, order, addr, g, peerPrice, peer);
    SomeAgeAdmits(conf, vi, Rank(order, addr));
  }

  /** By opening age: an admitted rank is admitted from its opening age on. */
  lemma {:induction false} SomeAgeAdmits(conf: TurnConf, vi: BlockchainInfo, rank: nat)
    requires Nondecreasing(Sequence(conf, vi))
    ensures forall age: int, other: int :: Admits(Sequence(conf, vi), rank, other, false) && rank > 0 ==>
              (Admits(Sequence(conf, vi), rank, age, false) <==> age >= OpeningAge(Sequence(conf, vi), rank))
  {
    var sequence := Sequence(conf, vi);
    forall age: int, other: int | Admits(sequence, rank, other, false) && rank > 0
      ensures Admits(sequence, rank, age, false) <==> age >= OpeningAge(sequence, rank)
    {
      OpeningAgeIff(sequence, rank, other);
      if age >= 0 {
        OpeningAgeIff(sequence, rank, age);
      }
    }
  }

  // ----- A whole publication

  /** One query to a turn object while the publication and the signal stay as they are. */
  datatype Ask = Ask(blockNum: int, addr: string, price: Option<PriceWithTimestamp>, onlyChosen: bool)

  ghost function AskStep(f: Setup, conf: TurnConf, vi: BlockchainInfo, order: seq<string>, st: TurnState, a: Ask)
    : (Result<bool, TurnError>, TurnState)
    requires |order| == |vi.selectedOracles|
  {
    TurnQuery(f, conf, vi.(blockNum := a.blockNum), a.addr, order, a.price, a.onlyChosen, st)
  }

  ghost function StateAfter(f: Setup, conf: TurnConf, vi: BlockchainInfo, order: seq<string>, st: TurnState,
                            asks: seq<Ask>): TurnState
    requires |order| == |vi.selectedOracles|
  {
    if asks == [] then st
    else AskStep(f, conf, vi, order, StateAfter(f, conf, vi, order, st, asks[..|asks| - 1]), asks[|asks| - 1]).1
  }

  ghost function Answer(f: Setup, conf: TurnConf, vi: BlockchainInfo, order: seq<string>, st: TurnState,
                        asks: seq<Ask>, i: nat)
    : Result<bool, TurnError>
    requires |order| == |vi.selectedOracles| && i < |asks|
  {
    AskStep(f, conf, vi, order, StateAfter(f, conf, vi, order, st, asks[..i]), asks[i]).0
  }

  /** Between two queries the expiry window stays put and a latch set in this publication stays set. */
  lemma {:induction false} StateKept(f: Setup, conf: TurnConf, vi: BlockchainInfo, order: seq<string>,
                                     st: TurnState, asks: seq<Ask>, i: nat)
    requires |order| == |vi.selectedOracles| && i <= |asks|
    ensures var before := StateAfter(f, conf, vi, order, st, asks[..i]);
            var after := StateAfter(f, conf, vi, order, st, asks);
            && ExpiryStart(f, conf, vi, after.signal) == ExpiryStart(f, conf, vi, before.signal)
            && (IsLatched(before.latch, vi.lastPubBlock) ==> after.latch == before.latch)
    decreases |asks| - i
  {
    if i == |asks| {
      assert asks[..i] == asks;
    } else {
      var prev := asks[..|asks| - 1];
      assert prev[..i] == asks[..i];
      StateKept(f, conf, vi, order, st, prev, i);
      ExpiryStartAfterLook(f, conf, vi, StateAfter(f, conf, vi, order, st, prev).signal);
    }
  }

  /** An oracle that may publish at one block may publish at every later block of the publication,
      whatever prices are seen and whoever asks in between. */
  lemma EligibilityPersists(f: Setup, conf: TurnConf, vi: BlockchainInfo, order: seq<string>, st: TurnState,
                            asks: seq<Ask>, i: nat, j: nat)
    requires Nondecreasing(conf.enteringFallbacksAmounts) && Orders(order, vi)
    requires i < j < |asks| && asks[i].blockNum <= asks[j].blockNum
    requires asks[i].addr == asks[j].addr && asks[i].onlyChosen == asks[j].onlyChosen && asks[j].price.Some?
    requires Answer(f, conf, vi, order, st, asks, i) == Ok(true) && Answer(f, conf, vi, order, st, asks, j).Ok?
    ensures Answer(f, conf, vi, order, st, asks, j) == Ok(true)
  {
    var si, sj := StateAfter(f, conf, vi, order, st, asks[..i]), StateAfter(f, conf, vi, order, st, asks[..j]);
    var viI, viJ, a, b := vi.(blockNum := asks[i].blockNum), vi.(blockNum := asks[j].blockNum), asks[i], asks[j];
    var since := YesSince(f, conf, viI, order, si, a.addr, a.price, a.onlyChosen);
    KeptBetween(f, conf, vi, order, st, asks, i, j);
    StillOpen(f, conf, viI, order, si.signal, AskStep(f, conf, vi, order, si, a).1.latch, viJ, sj, a.addr,
              a.onlyChosen, since);
    AdmittedSaysYes(f, conf, viJ, order, sj, b.addr, b.price, b.onlyChosen, since);
  }

  /** The oracle is in the round and admitted by a window that opened at `since`, as seen with this
      signal and this latch. */
  ghost predicate OpenSince(f: Setup, conf: TurnConf, vi: BlockchainInfo, order: seq<string>, signal: SignalState,
                            latch: Latch, addr: string, onlyChosen: bool, since: int)
  {
    && IsOracleSelectedInRound(vi.selectedOracles, addr) && addr in order
    && vi.validPricePeriodInBlocks >= conf.triggerValidPublicationBlocks
    && Admits(Sequence(conf, vi), Rank(order, addr), vi.blockNum - since, onlyChosen)
    && (|| since == ExpiryStart(f, conf, vi, signal)
        || (IsLatched(latch, vi.lastPubBlock) && since == latch.changeBlock + conf.pricePublishBlocks))
  }

  /** The window that admitted one query opened at the same block as seen by the later one. */
  lemma StillOpen(f: Setup, conf: TurnConf, vi: BlockchainInfo, order: seq<string>, signal: SignalState,
                  latch: Latch, viLater: BlockchainInfo, later: TurnState, addr: string, onlyChosen: bool,
                  since: int)
    requires Nondecreasing(conf.enteringFallbacksAmounts)
    requires OpenSince(f, conf, vi, order, signal, latch, addr, onlyChosen, since)
    requires viLater == vi.(blockNum := viLater.blockNum) && vi.blockNum <= viLater.blockNum
    requires ExpiryStart(f, conf, viLater, later.signal) == ExpiryStart(f, conf, vi, signal)
    requires IsLatched(latch, vi.lastPubBlock) ==> later.latch == latch
    ensures OpenSince(f, conf, viLater, order, later.signal, later.latch, addr, onlyChosen, since)
  {
    SequenceShape(conf.enteringFallbacksAmounts, |vi.selectedOracles|);
    AdmitsLater(Sequence(conf, vi), Rank(order, addr), vi.blockNum - since, viLater.blockNum - since, onlyChosen);
  }

  lemma {:induction false} KeptBetween(f: Setup, conf: TurnConf, vi: BlockchainInfo, order: seq<string>,
                                       st: TurnState, asks: seq<Ask>, i: nat, j: nat)
    requires |order| == |vi.selectedOracles| && i < j < |asks|
    ensures var si, sj := StateAfter(f, conf, vi, order, st, asks[..i]), StateAfter(f, conf, vi, order, st, asks[..j]);
            var next := AskStep(f, conf, vi, order, si, asks[i]).1.latch;
            && ExpiryStart(f, conf, vi, sj.signal) == ExpiryStart(f, conf, vi, si.signal)
            && (IsLatched(next, vi.lastPubBlock) ==> sj.latch == next)
  {
    assert asks[..j][..i] == asks[..i] && asks[..j][..i + 1] == asks[..i + 1] && asks[..i + 1][..i] == asks[..i];
    StateKept(f, conf, vi, order, st, asks[..j], i);
    StateKept(f, conf, vi, order, st, asks[..j], i + 1);
  }

  lemma AdmittedSaysYes(f: Setup, conf: TurnConf, vi: BlockchainInfo, order: seq<string>, st: TurnState,
                        addr: string, price: Option<PriceWithTimestamp>, onlyChosen: bool, since: int)
    requires Orders(order, vi) && price.Some? && TurnQuery(f, conf, vi, addr, order, price, onlyChosen, st).0.Ok?
    requires OpenSince(f, conf, vi, order, st.signal, st.latch, addr, onlyChosen, since)
    ensures TurnQuery(f, conf, vi, addr, order, price, onlyChosen, st).0 == Ok(true)
  {
    AnsweredMeansChanged(f, conf, vi, addr, order, price, onlyChosen, st);
    QueryYesIff(f, conf, vi, addr, order, price, onlyChosen, st);
  }

  /** A query that passes the gates and does not raise keeps a latch of this publication. */
  lemma AnsweredMeansChanged(f: Setup, conf: TurnConf, vi: BlockchainInfo, addr: string, addresses: seq<string>,
                             price: Option<PriceWithTimestamp>, onlyChosen: bool, st: TurnState)
    requires |addresses| == |vi.selectedOracles| && PassesGates(conf, vi, addr, price)
    requires TurnQuery(f, conf, vi, addr, addresses, price, onlyChosen, st).0.Ok?
    ensures Changed(f, conf, vi, price.value, st).Ok?
    ensures IsLatched(st.latch, vi.lastPubBlock) ==>
              TurnQuery(f, conf, vi, addr, addresses, price, onlyChosen, st).1.latch == st.latch
  {}

  lemma OpenedByExpiry(f: Setup, conf: TurnConf, vi: BlockchainInfo, order: seq<string>, signal: SignalState,
                       latch: Latch, addr: string, onlyChosen: bool)
    requires InRound(conf, vi, order, addr) && ExpiryAdmits(f, conf, vi, signal, Rank(order, addr), onlyChosen)
    ensures OpenSince(f, conf, vi, order, signal, latch, addr, onlyChosen, ExpiryStart(f, conf, vi, signal))
  {}

  lemma OpenedByChange(f: Setup, conf: TurnConf, vi: BlockchainInfo, order: seq<string>, signal: SignalState,
                       latch: Latch, addr: string, onlyChosen: bool)
    requires InRound(conf, vi, order, addr) && ChangeAdmits(conf, vi, latch, Rank(order, addr), onlyChosen)
    ensures OpenSince(f, conf, vi, order, signal, latch, addr, onlyChosen, latch.changeBlock + conf.pricePublishBlocks)
  {}

  lemma YesIsAdmitted(f: Setup, conf: TurnConf, vi: BlockchainInfo, order: seq<string>, st: TurnState, addr: string,
                      price: Option<PriceWithTimestamp>, onlyChosen: bool)
    requires Orders(order, vi) && TurnQuery(f, conf, vi, addr, order, price, onlyChosen, st).0 == Ok(true)
    ensures InRound(conf, vi, order, addr)
    ensures var latch := TurnQuery(f, conf, vi, addr, order, price, onlyChosen, st).1.latch;
            || ExpiryAdmits(f, conf, vi, st.signal, Rank(order, addr), onlyChosen)
            || ChangeAdmits(conf, vi, latch, Rank(order, addr), onlyChosen)
  {
    QueryYesIff(f, conf, vi, addr, order, price, onlyChosen, st);
  }

  lemma AdmittedSince(f: Setup, conf: TurnConf, vi: BlockchainInfo, order: seq<string>, signal: SignalState,
                      latch: Latch, addr: string, onlyChosen: bool) returns (since: int)
    requires InRound(conf, vi, order, addr)
    requires || ExpiryAdmits(f, conf, vi, signal, Rank(order, addr), onlyChosen)
             || ChangeAdmits(conf, vi, latch, Rank(order, addr), onlyChosen)
    ensures OpenSince(f, conf, vi, order, signal, latch, addr, onlyChosen, since)
  {
    if ExpiryAdmits(f, conf, vi, signal, Rank(order, addr), onlyChosen) {
      since := ExpiryStart(f, conf, vi, signal);
      OpenedByExpiry(f, conf, vi, order, signal, latch, addr, onlyChosen);
    } else {
      since := latch.changeBlock + conf.pricePublishBlocks;
      OpenedByChange(f, conf, vi, order, signal, latch, addr, onlyChosen);
    }
  }

  /** A yes names the block its window opened at. */
  lemma YesSince(f: Setup, conf: TurnConf, vi: BlockchainInfo, order: seq<string>, st: TurnState, addr: string,
                 price: Option<PriceWithTimestamp>, onlyChosen: bool) returns (since: int)
    requires Orders(order, vi) && TurnQuery(f, conf, vi, addr, order, price, onlyChosen, st).0 == Ok(true)
    ensures OpenSince(f, conf, vi, order, st.signal, TurnQuery(f, conf, vi, addr, order, price, onlyChosen, st).1.latch,
                      addr, onlyChosen, since)
  {
    YesIsAdmitted(f, conf, vi, order, st, addr, price, onlyChosen);
    since := AdmittedSince(f, conf, vi, order, st.signal,
                           TurnQuery(f, conf, vi, addr, order, price, onlyChosen, st).1.latch, addr, onlyChosen);
  }

  lemma AdmitsLater(sequence: seq<nat>, rank: nat, age: int, later: int, onlyChosen: bool)
    requires |sequence| > 0 && Nondecreasing(sequence) && age <= later
    requires Admits(sequence, rank, age, onlyChosen)
    ensures Admits(sequence, rank, later, onlyChosen)
  {
    WidthMonotone(sequence, age, later);
  }

  // ----- The last position

  ghost predicate LeftOut(conf: TurnConf, vi: BlockchainInfo, rank: nat) {
    var n := |vi.selectedOracles|;
    rank == n - 1 && LastEntry(conf.enteringFallbacksAmounts) == n - 1
  }

  /** One of the two windows has been open for as many blocks as it takes to open fully. */
  ghost predicate FullyOpen(f: Setup, conf: TurnConf, vi: BlockchainInfo, st: TurnState) {
    || vi.blockNum - ExpiryStart(f, conf, vi, st.signal) >= |Sequence(conf, vi)| - 1
    || (IsLatched(st.latch, vi.lastPubBlock)
        && vi.blockNum - st.latch.changeBlock - conf.pricePublishBlocks >= |Sequence(conf, vi)| - 1)
  }

  /** Once either window is fully open, a query that passes the gates and does not raise says yes to every
      position, except the last one when the last configured entry equals n - 1: that one is refused through
      both windows. */
  lemma FullyOpenQueryIff(f: Setup, conf: TurnConf, vi: BlockchainInfo, addr: string, order: seq<string>,
                          price: Option<PriceWithTimestamp>, st: TurnState)
    requires Nondecreasing(conf.enteringFallbacksAmounts) && Orders(order, vi) && addr in order
    requires PassesGates(conf, vi, addr, price) && Changed(f, conf, vi, price.value, st).Ok?
    requires FullyOpen(f, conf, vi, st)
    ensures TurnQuery(f, conf, vi, addr, order, price, false, st).0 == Ok(true)
            <==> !LeftOut(conf, vi, Rank(order, addr))
  {
    var rank := Rank(order, addr);
    QueryYesIff(f, conf, vi, addr, order, price, false, st);
    AnsweredMeansChanged(f, conf, vi, addr, order, price, false, st);
    if LeftOut(conf, vi, rank) {
      LeftOutNeverAdmitted(conf, vi, rank);
    } else {
      FullyOpenAdmits(f, conf, vi, st, rank);
    }
  }

  lemma FullyOpenAdmits(f: Setup, conf: TurnConf, vi: BlockchainInfo, st: TurnState, rank: nat)
    requires Nondecreasing(conf.enteringFallbacksAmounts) && rank < |vi.selectedOracles| && !LeftOut(conf, vi, rank)
    requires FullyOpen(f, conf, vi, st)
    ensures ExpiryAdmits(f, conf, vi, st.signal, rank, false) || ChangeAdmits(conf, vi, st.latch, rank, false)
  {
    var amounts, n := conf.enteringFallbacksAmounts, |vi.selectedOracles|;
    if vi.blockNum - ExpiryStart(f, conf, vi, st.signal) >= |Sequence(conf, vi)| - 1 {
      FullWindowAdmits(amounts, n, rank, vi.blockNum - ExpiryStart(f, conf, vi, st.signal));
    } else {
      FullWindowAdmits(amounts, n, rank, vi.blockNum - st.latch.changeBlock - conf.pricePublishBlocks);
    }
  }

  lemma LeftOutNeverAdmitted(conf: TurnConf, vi: BlockchainInfo, rank: nat)
    requires Nondecreasing(conf.enteringFallbacksAmounts) && LeftOut(conf, vi, rank)
    ensures forall age: int, onlyChosen: bool :: !Admits(Sequence(conf, vi), rank, age, onlyChosen)
  {
    var sequence := Sequence(conf, vi);
    SequenceShape(conf.enteringFallbacksAmounts, |vi.selectedOracles|);
    forall age: int, onlyChosen: bool ensures !Admits(sequence, rank, age, onlyChosen) {
      if age >= 0 {
        WidthMonotone(sequence, age, age + |sequence|);
        FullWidth(conf.enteringFallbacksAmounts, |vi.selectedOracles|, age + |sequence|);
      }
    }
  }

  /** The position left out is never eligible: no block, price, latch or signal gets it a yes. */
  lemma LeftOutNeverEligible(f: Setup, conf: TurnConf, vi: BlockchainInfo, addr: string, order: seq<string>,
                             price: Option<PriceWithTimestamp>, onlyChosen: bool, st: TurnState)
    requires Nondecreasing(conf.enteringFallbacksAmounts) && Orders(order, vi) && addr in order
    requires LeftOut(conf, vi, Rank(order, addr))
    ensures TurnQuery(f, conf, vi, addr, order, price, onlyChosen, st).0 != Ok(true)
  {
    QueryYesIff(f, conf, vi, addr, order, price, onlyChosen, st);
    LeftOutNeverAdmitted(conf, vi, Rank(order, addr));
  }

  // ----- Mode changes

  /** The window before expiry restarts at a mode change: no fallback passes through it at or before
      the latest recorded transition, including one that this very query has just noticed. */
  lemma ModeChangeRestartsExpiryWindow(f: Setup, conf: TurnConf, vi: BlockchainInfo, s: SignalState, rank: nat,
                                       onlyChosen: bool)
    requires rank > 0 && ExpiryAdmits(f, conf, vi, s, rank, onlyChosen)
    ensures var after := AfterLook(s, f.signalDisabled);
            && vi.blockNum > OnlineBlock(after, f.signalDisabled)
            && vi.blockNum > OfflineBlock(after, f.signalDisabled)
            && (!f.signalDisabled && s.IsRunning() && Look(s).0 != s.lastOfflineCfg ==> vi.blockNum > s.lastBlock.value)
  {
    assert Sequence(conf, vi)[0] == 1;
  }

  /** Amid a running refresh, the window is the one of the moment at which the period was read: what the
      refresh thread does before the two records are read, statement by statement, does not move it. */
  lemma {:induction false} ExpiryStartAmidRefresh(cfg: SignalConfig, conf: TurnConf, vi: BlockchainInfo,
                                                  calls: seq<seq<string>>, s: SignalRefresh.System,
                                                  meanwhile: seq<SignalRefresh.Event>)
    requires |calls| == 7 && SignalRefresh.Read !in meanwhile
    requires SignalRefresh.RunFrom(calls, SignalRefresh.Step(calls, s, SignalRefresh.Read).value, meanwhile).Some?
    ensures var seen := SignalRefresh.Step(calls, s, SignalRefresh.Read).value;
            var t := SignalRefresh.RunFrom(calls, seen, meanwhile).value.shared;
            var start := vi.lastPubBlock - conf.triggerValidPublicationBlocks
                         + ValidPeriod(s.shared, false, cfg, vi.validPricePeriodInBlocks);
            ExpiryStart(Setup(false, cfg), conf, vi, s.shared)
            == Helpers.Max(Helpers.Max(start, t.lastOnlineBlock), t.lastOfflineBlock)
  {
    SignalRefresh.OnlyReadingsRecord(calls, SignalRefresh.Step(calls, s, SignalRefresh.Read).value, meanwhile);
  }

  /** So at such a block a fallback's yes can only come from a latched price change. */
  lemma AtModeChangeOnlyPriceChangeAdmitsFallbacks(f: Setup, conf: TurnConf, vi: BlockchainInfo, addr: string,
        addresses: seq<string>, price: Option<PriceWithTimestamp>, onlyChosen: bool, st: TurnState)
    requires Orders(addresses, vi)
    requires TurnQuery(f, conf, vi, addr, addresses, price, onlyChosen, st).0 == Ok(true)
    requires addr in addresses && Rank(addresses, addr) > 0
    requires var after := TurnQuery(f, conf, vi, addr, addresses, price, onlyChosen, st).1.signal;
             vi.blockNum <= OnlineBlock(after, f.signalDisabled) || vi.blockNum <= OfflineBlock(after, f.signalDisabled)
    ensures ChangeAdmits(conf, vi, TurnQuery(f, conf, vi, addr, addresses, price, onlyChosen, st).1.latch,
                         Rank(addresses, addr), onlyChosen)
  {
    QueryYesIff(f, conf, vi, addr, addresses, price, onlyChosen, st);
    if ExpiryAdmits(f, conf, vi, st.signal, Rank(addresses, addr), onlyChosen) {
      ModeChangeRestartsExpiryWindow(f, conf, vi, st.signal, Rank(addresses, addr), onlyChosen);
    }
  }

  // ----- A peer that latched later can disagree

  lemma {:induction false} ZeroHashKeepsOrder<T>(l1: seq<T>, zeros: seq<nat>)
    requires |l1| <= |zeros| && forall i :: 0 <= i < |zeros| ==> zeros[i] == 0
    ensures Shuffle(l1, zeros) == l1
    decreases |l1|
  {
    if l1 != [] {
      var rest, tail := RemoveAt(l1, 0), zeros[1..];
      assert rest == l1[1..];
      assert forall i :: 0 <= i < |tail| ==> tail[i] == zeros[i + 1];
      ZeroHashKeepsOrder(rest, tail);
      assert Residue(zeros[0], |l1|) == 0;
      assert Shuffle(l1, zeros) == [l1[0]] + Shuffle(rest, tail);
    }
  }

  const TWO_ORACLES := [OracleInfo("a", 1, true), OracleInfo("b", 1, true)]
  const LATE_CONF := TurnConf(1.0, 1, [1], 30)
  const LATE_INFO := BlockchainInfo(TWO_ORACLES, 100, 20, 10, seq(HASH_BYTES, _ => 0), 300)
  const LATE_PRICE := PriceWithTimestamp(200, 1.0)
  const NO_SIGNAL := Setup(true, SignalConfig(0.0, 0.0, 0, 0))

  lemma ZeroDrawFallsInFirstBucket(l2: seq<OracleInfo>)
    requires l2 != []
    ensures InBucket(l2, 0, 0)
  {}

  lemma ZeroHashOrder(zeros: Digest, oracles: seq<OracleInfo>)
    requires forall i :: 0 <= i < |zeros| ==> zeros[i] == 0
    requires 0 < |oracles| <= HASH_BYTES
    ensures Order(zeros, oracles) == Ok(oracles)
  {
    ZeroHashKeepsOrder(oracles, zeros);
    ZerosAreZero(zeros);
    ZeroDrawFallsInFirstBucket(oracles);
    OrderFromBucket(zeros, oracles, 0);
    assert Rotate(oracles, 0) == oracles;
  }

  lemma ZeroPublicationOrder(vi: BlockchainInfo)
    requires forall i :: 0 <= i < |vi.lastPubDigest| ==> vi.lastPubDigest[i] == 0
    requires 0 < |vi.selectedOracles| <= HASH_BYTES
    ensures PublicationOrder(vi) == Ok(Addresses(vi.selectedOracles))
  {
    ZeroHashOrder(vi.lastPubDigest, vi.selectedOracles);
  }

  lemma TwoOracleOrder()
    ensures PublicationOrder(LATE_INFO) == Ok(["a", "b"])
  {
    ZeroPublicationOrder(LATE_INFO);
    assert Addresses(TWO_ORACLES) == ["a", "b"];
  }

  lemma TwoOracleRanks()
    ensures PublicationOrder(LATE_INFO) == Ok(["a", "b"]) && Orders(["a", "b"], LATE_INFO)
    ensures Rank(["a", "b"], "b") == 1 && Sequence(LATE_CONF, LATE_INFO) == [1, 2]
  {
    TwoOracleOrder();
    PublicationOrderOrders(LATE_INFO);
    var order := ["a", "b"];
    assert order[0] == "a" && order[1] == "b" && "b" != "a" && "b" in order;
    assert FallbackSequence([1], 2) == [1, 2];
  }

  lemma FallbackOfTwo()
    ensures InRound(LATE_CONF, LATE_INFO, ["a", "b"], "b")
  {
    assert TWO_ORACLES[1].addr == "b" && Addresses(TWO_ORACLES)[1] == "b";
    assert ["a", "b"][1] == "b";
  }

  lemma WindowsOfTwo()
    ensures ChangeAdmits(LATE_CONF, LATE_INFO, Latch(12, 10), 1, false)
    ensures !ExpiryAdmits(NO_SIGNAL, LATE_CONF, LATE_INFO, INITIAL_STATE, 1, false)
  {
    TwoOracleRanks();
  }

  lemma EarlyLatchAdmits(st: TurnState)
    requires st == TurnState(Latch(12, 10), INITIAL_STATE)
    ensures TurnQuery(NO_SIGNAL, LATE_CONF, LATE_INFO, "b", ["a", "b"], Some(LATE_PRICE), false, st).0 == Ok(true)
  {
    TwoOracleRanks();
    FallbackOfTwo();
    WindowsOfTwo();
    FallbackYesIff(NO_SIGNAL, LATE_CONF, LATE_INFO, "b", ["a", "b"], Some(LATE_PRICE), false, st);
  }

  lemma NoLatchAdmitsNot(st: TurnState)
    requires st == TurnState(NO_LATCH, INITIAL_STATE)
    ensures TurnQuery(NO_SIGNAL, LATE_CONF, LATE_INFO, "b", ["a", "b"], Some(LATE_PRICE), false, st).0 == Ok(false)
  {
    TwoOracleRanks();
    WindowsOfTwo();
    FallbackYesIff(NO_SIGNAL, LATE_CONF, LATE_INFO, "b", ["a", "b"], Some(LATE_PRICE), false, st);
    QueryRaisesIff(NO_SIGNAL, LATE_CONF, LATE_INFO, "b", ["a", "b"], Some(LATE_PRICE), false, st);
  }

  lemma AskedInOrder(f: Setup, conf: TurnConf, vi: BlockchainInfo, addr: string, price: Option<PriceWithTimestamp>,
                     onlyChosen: bool, st: TurnState, order: seq<string>)
    requires PublicationOrder(vi) == Ok(order) && order != []
    requires TurnQuery(f, conf, vi, addr, order, price, onlyChosen, st).0.Ok?
    ensures IsOracleTurn(f, conf, vi, addr, price, onlyChosen, st).0
            == Ok((TurnQuery(f, conf, vi, addr, order, price, onlyChosen, st).0.value, order))
    ensures order[0] != addr && !onlyChosen ==>
              ValidateTurn(f, conf, vi, addr, price, st) == TurnQuery(f, conf, vi, addr, order, price, onlyChosen, st)
  {}

  lemma EarlyLatchPublishes(st: TurnState)
    requires st == TurnState(Latch(12, 10), INITIAL_STATE)
    ensures IsOracleTurn(NO_SIGNAL, LATE_CONF, LATE_INFO, "b", Some(LATE_PRICE), false, st).0 == Ok((true, ["a", "b"]))
  {
    TwoOracleRanks();
    EarlyLatchAdmits(st);
    AskedInOrder(NO_SIGNAL, LATE_CONF, LATE_INFO, "b", Some(LATE_PRICE), false, st, ["a", "b"]);
  }

  lemma NoLatchRefuses(st: TurnState)
    requires st == TurnState(NO_LATCH, INITIAL_STATE)
    ensures ValidateTurn(NO_SIGNAL, LATE_CONF, LATE_INFO, "b", Some(LATE_PRICE), st).0 == Ok(false)
  {
    TwoOracleRanks();
    NoLatchAdmitsNot(st);
    AskedInOrder(NO_SIGNAL, LATE_CONF, LATE_INFO, "b", Some(LATE_PRICE), false, st, ["a", "b"]);
  }

  /** Concretely: the fallback b saw the price move at block 12 and may publish at block 20, but a peer
      that saw it only at block 20 refuses. */
  lemma LaterLatchDisagrees()
    ensures IsOracleTurn(NO_SIGNAL, LATE_CONF, LATE_INFO, "b", Some(LATE_PRICE), false,
                         TurnState(Latch(12, 10), INITIAL_STATE)).0 == Ok((true, ["a", "b"]))
    ensures ValidateTurn(NO_SIGNAL, LATE_CONF, LATE_INFO, "b", Some(LATE_PRICE),
                         TurnState(NO_LATCH, INITIAL_STATE)).0 == Ok(false)
  {
    EarlyLatchPublishes(TurnState(Latch(12, 10), INITIAL_STATE));
    NoLatchRefuses(TurnState(NO_LATCH, INITIAL_STATE));
  }

  const THREE_ORACLES := [OracleInfo("a", 1, true), OracleInfo("b", 1, true), OracleInfo("c", 1, true)]
  const THREE_INFO := BlockchainInfo(THREE_ORACLES, 100, 1000, 10, seq(HASH_BYTES, _ => 0), 300)

  lemma ThirdQueryRefused(st: TurnState)
    requires IsLatched(st.latch, THREE_INFO.lastPubBlock)
    ensures TurnQuery(NO_SIGNAL, LATE_CONF, THREE_INFO, "c", ["a", "b", "c"], Some(LATE_PRICE), false, st).0
            == Ok(false)
  {
    ThirdRank();
    LeftOutNeverEligible(NO_SIGNAL, LATE_CONF, THREE_INFO, "c", ["a", "b", "c"], Some(LATE_PRICE), false, st);
    QueryRaisesIff(NO_SIGNAL, LATE_CONF, THREE_INFO, "c", ["a", "b", "c"], Some(LATE_PRICE), false, st);
  }

  lemma ThirdOrder()
    ensures PublicationOrder(THREE_INFO) == Ok(["a", "b", "c"])
  {
    ZeroPublicationOrder(THREE_INFO);
    ThreeAddresses();
  }

  lemma ThreeAddresses()
    ensures Addresses(THREE_ORACLES) == ["a", "b", "c"]
  {}

  /** Concretely: of three oracles, with the amounts [1], the third is refused although the window before
      expiry has been open for hundreds of blocks and the price has doubled long ago. */
  lemma ThirdOracleRefused(st: TurnState)
    requires st == TurnState(Latch(12, 10), INITIAL_STATE)
    ensures IsOracleTurn(NO_SIGNAL, LATE_CONF, THREE_INFO, "c", Some(LATE_PRICE), false, st).0
            == Ok((false, ["a", "b", "c"]))
    ensures THREE_INFO.blockNum - ExpiryStart(NO_SIGNAL, LATE_CONF, THREE_INFO, st.signal) > 500
  {
    ThirdOrder();
    ThirdQueryRefused(st);
    AskedInOrder(NO_SIGNAL, LATE_CONF, THREE_INFO, "c", Some(LATE_PRICE), false, st, ["a", "b", "c"]);
  }

  lemma ThirdRank()
    ensures "c" in ["a", "b", "c"] && Rank(["a", "b", "c"], "c") == 2
    ensures Orders(["a", "b", "c"], THREE_INFO) && LeftOut(LATE_CONF, THREE_INFO, 2)
  {
    var order := ["a", "b", "c"];
    assert order[0] == "a" && order[1] == "b" && order[2] == "c" && "c" != "a" && "c" != "b";
    ThreeAddresses();
  }

  lemma FirstRank()
    ensures Orders(["a", "b", "c"], THREE_INFO) && Rank(["a", "b", "c"], "a") == 0
  {
    ThirdOrder();
    PublicationOrderOrders(THREE_INFO);
    assert ["a", "b", "c"][0] == "a";
  }

  lemma FirstIsAdmitted()
    ensures PassesGates(LATE_CONF, THREE_INFO, "a", Some(LATE_PRICE))
    ensures ExpiryAdmits(NO_SIGNAL, LATE_CONF, THREE_INFO, INITIAL_STATE, 0, false)
  {
    assert THREE_ORACLES[0].addr == "a" && Addresses(THREE_ORACLES)[0] == "a";
  }

  lemma FirstQueryAccepted(st: TurnState)
    requires st == TurnState(Latch(12, 10), INITIAL_STATE)
    ensures TurnQuery(NO_SIGNAL, LATE_CONF, THREE_INFO, "a", ["a", "b", "c"], Some(LATE_PRICE), false, st).0 == Ok(true)
  {
    FirstRank();
    FirstIsAdmitted();
    QueryYesIff(NO_SIGNAL, LATE_CONF, THREE_INFO, "a", ["a", "b", "c"], Some(LATE_PRICE), false, st);
  }

  /** And the first of them may publish. */
  lemma ChosenOfThreePublishes(st: TurnState)
    requires st == TurnState(Latch(12, 10), INITIAL_STATE)
    ensures IsOracleTurn(NO_SIGNAL, LATE_CONF, THREE_INFO, "a", Some(LATE_PRICE), false, st).0
            == Ok((true, ["a", "b", "c"]))
  {
    ThirdOrder();
    FirstQueryAccepted(st);
    AskedInOrder(NO_SIGNAL, LATE_CONF, THREE_INFO, "a", Some(LATE_PRICE), false, st, ["a", "b", "c"]);
  }
}
