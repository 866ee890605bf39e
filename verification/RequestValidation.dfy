/** What a node checks before it co-signs (servers/oracle/src/request_validation.py), and what the
    publisher asks it to sign (servers/oracle/src/coin_pair_runner.py). */
module RequestValidation {
  import opened Prelude
  import opened Encoding
  import opened Messages
  import opened OracleTurn
  import opened ConditionalPublish
  import opened Tasks
  import opened TurnTheorems
  import Helpers

  type Signature = string

  /** Does the signature of the message recover to the address? */
  type Verifier = (string, string, Signature) -> bool

  /** The node's own key. */
  type Signer = string -> Signature

  datatype Failure =
    | NoBlockchainData | DifferentLastPubBlock | ExpirationOnlyForV4 | ExpirationTooClose | ExpirationTooFar
    | NoExchangePrice | InvalidPublishPrice | PriceOutOfRange | NoTasksAvailable | TasksFlagsMismatch
    | InvalidTurn | TurnRaised(turnError: TurnError) | TaskTurnRaised(taskError: TaskTurnError)
    | MessageRaised(msgError: MsgError) | InvalidSignature

  // ----- Prices

  datatype PriceLimits = PriceLimits(
    rejectDeltaPct: real, minExpirationValidity: int, maxExpirationValidity: Option<int>)

  /** The exchange price or, in the same way, the proposed one, is unusable. */
  predicate Unusable(price: int, tsUtc: real) {
    price == 0 || tsUtc <= 0.0
  }

  /** `PriceRequestValidation.validate_params`, with `now` for the clock. */
  function ValidatePriceParams(limits: PriceLimits, params: PriceParams, exchangePrice: Option<PriceWithTimestamp>,
                               info: Option<BlockchainInfo>, now: int): Result<(), Failure>
  {
    if info.None? then Err(NoBlockchainData)
    else if params.lastPubBlock != info.value.lastPubBlock then Err(DifferentLastPubBlock)
    else if params.expiration.Some? && params.version != EXPIRING_PRICE_MESSAGE_VERSION then Err(ExpirationOnlyForV4)
    else if params.expiration.Some?
        && params.expiration.value - now < limits.minExpirationValidity then Err(ExpirationTooClose)
    else if params.expiration.Some? && limits.maxExpirationValidity.Some?
            && params.expiration.value - now > limits.maxExpirationValidity.value then Err(ExpirationTooFar)
    else if exchangePrice.None? || Unusable(exchangePrice.value.price, exchangePrice.value.tsUtc)
        then Err(NoExchangePrice)
    else if Unusable(params.price, params.priceTsUtc) then Err(InvalidPublishPrice)
    else
      var delta := Helpers.PriceDelta(params.price, exchangePrice.value.price);
      if delta.value > limits.rejectDeltaPct then Err(PriceOutOfRange) else Ok(())
  }

  /** `PriceRequestValidation.validate_and_sign`: the message and our signature, and the turn state after. */
  function PriceAnswer(f: Setup, conf: TurnConf, limits: PriceLimits, params: PriceParams,
                       exchangePrice: Option<PriceWithTimestamp>, info: Option<BlockchainInfo>, now: int,
                       signature: Signature, verify: Verifier, sign: Signer, st: TurnState)
    : (Result<(string, Signature), Failure>, TurnState)
  {
    match ValidatePriceParams(limits, params, exchangePrice, info, now)
    case Err(e) => (Err(e), st)
    case Ok(_) =>
      var (turn, after) := ValidateTurn(f, conf, info.value, params.oracleAddr, exchangePrice, st);
      (match turn
       case Err(e) => Err(TurnRaised(e))
       case Ok(mine) =>
         if !mine then Err(InvalidTurn) else
           match PriceMsg(params)
           case Err(e) => Err(MessageRaised(e))
           case Ok(message) =>
             if verify(params.oracleAddr, message, signature)
             then Ok((message, sign(message)))
             else Err(InvalidSignature),
       after)
  }

  ghost predicate FreshEnough(limits: PriceLimits, params: PriceParams, now: int) {
    params.expiration.Some? ==>
      && params.version == EXPIRING_PRICE_MESSAGE_VERSION
      && limits.minExpirationValidity <= params.expiration.value - now
      && (limits.maxExpirationValidity.Some? ==> params.expiration.value - now <= limits.maxExpirationValidity.value)
  }

  ghost predicate WithinFactor(p: int, q: int, k: real) {
    p as real <= k * (q as real) && q as real <= k * (p as real)
  }

  /** Two positive prices no further apart than the factor 1 + d/100, either way round. */
  ghost predicate Close(p: int, q: int, d: real) {
    WithinFactor(p, q, 1.0 + d / 100.0)
  }

  /** For positive prices, the parameters pass exactly when the last publication agrees, the expiration
      is one V4 allows and lies in the permitted span, both prices are usable, and they are close. */
  lemma PriceParamsPassIff(limits: PriceLimits, params: PriceParams, exchangePrice: Option<PriceWithTimestamp>,
                           info: Option<BlockchainInfo>, now: int)
    requires params.price > 0 && (exchangePrice.Some? ==> exchangePrice.value.price > 0)
    ensures ValidatePriceParams(limits, params, exchangePrice, info, now).Ok? <==>
              && info.Some? && params.lastPubBlock == info.value.lastPubBlock
              && FreshEnough(limits, params, now)
              && exchangePrice.Some? && exchangePrice.value.tsUtc > 0.0 && params.priceTsUtc > 0.0
              && Close(params.price, exchangePrice.value.price, limits.rejectDeltaPct)
  {
    if exchangePrice.Some? {
      Helpers.DeltaWithinIff(params.price, exchangePrice.value.price, limits.rejectDeltaPct);
    }
  }

  /** A node signs only the text of the request it validated, and only for a requester that signed that
      very text: every field of what it signs is a field it checked, and the window admitted the requester. */
  lemma SignsOnlyWhatItChecked(f: Setup, conf: TurnConf, limits: PriceLimits, params: PriceParams,
                               exchangePrice: Option<PriceWithTimestamp>, info: Option<BlockchainInfo>, now: int,
                               signature: Signature, verify: Verifier, sign: Signer, st: TurnState)
    requires PriceInRange(params)
    requires PriceAnswer(f, conf, limits, params, exchangePrice, info, now, signature, verify, sign, st).0.Ok?
    ensures var (message, ours) := PriceAnswer(f, conf, limits, params, exchangePrice, info, now, signature, verify,
                                               sign, st).0.value;
            && Messages.Read(message) == Some(PriceContents(params))
            && verify(params.oracleAddr, message, signature) && ours == sign(message)
            && info.Some? && params.lastPubBlock == info.value.lastPubBlock
            && ValidateTurn(f, conf, info.value, params.oracleAddr, exchangePrice, st).0 == Ok(true)
  {
    PriceMessageReadsBack(params);
  }

  /** A request is answered exactly when its parameters pass, the turn is the requester's, the message exists and the
      requester signed it; the answer is the message and our signature of it. Only a turn query moves the state. */
  lemma PriceAnswerIff(f: Setup, conf: TurnConf, limits: PriceLimits, params: PriceParams,
                       exchangePrice: Option<PriceWithTimestamp>, info: Option<BlockchainInfo>, now: int,
                       signature: Signature, verify: Verifier, sign: Signer, st: TurnState, message: string,
                       ours: Signature)
    ensures var (r, after) := PriceAnswer(f, conf, limits, params, exchangePrice, info, now, signature, verify,
                                          sign, st);
            && (r == Ok((message, ours)) <==>
                  && ValidatePriceParams(limits, params, exchangePrice, info, now).Ok?
                  && ValidateTurn(f, conf, info.value, params.oracleAddr, exchangePrice, st).0 == Ok(true)
                  && PriceMsg(params) == Ok(message) && verify(params.oracleAddr, message, signature)
                  && ours == sign(message))
            && (r == Err(InvalidTurn) <==>
                  && ValidatePriceParams(limits, params, exchangePrice, info, now).Ok?
                  && ValidateTurn(f, conf, info.value, params.oracleAddr, exchangePrice, st).0 == Ok(false))
            && (r == Err(InvalidSignature) <==>
                  && ValidatePriceParams(limits, params, exchangePrice, info, now).Ok?
                  && ValidateTurn(f, conf, info.value, params.oracleAddr, exchangePrice, st).0 == Ok(true)
                  && PriceMsg(params).Ok? && !verify(params.oracleAddr, PriceMsg(params).value, signature))
            && after == if ValidatePriceParams(limits, params, exchangePrice, info, now).Ok?
                        then ValidateTurn(f, conf, info.value, params.oracleAddr, exchangePrice, st).1 else st
  {}

  /** Which failure is reported: the first of the checks, in this order, that the request does not meet. */
  lemma PriceFailureIs(limits: PriceLimits, params: PriceParams, exchangePrice: Option<PriceWithTimestamp>,
                       info: Option<BlockchainInfo>, now: int)
    ensures var r := ValidatePriceParams(limits, params, exchangePrice, info, now);
            var left := if params.expiration.Some? then params.expiration.value - now else 0;
            && (r == Err(NoBlockchainData) <==> info.None?)
            && (r == Err(DifferentLastPubBlock) <==> info.Some? && params.lastPubBlock != info.value.lastPubBlock)
            && (info.Some? && params.lastPubBlock == info.value.lastPubBlock ==>
                  && (r == Err(ExpirationOnlyForV4) <==> params.expiration.Some? && params.version != 4)
                  && (r == Err(ExpirationTooClose) <==>
                        params.expiration.Some? && params.version == 4 && left < limits.minExpirationValidity)
                  && (r == Err(ExpirationTooFar) <==>
                        && params.expiration.Some? && params.version == 4 && left >= limits.minExpirationValidity
                        && limits.maxExpirationValidity.Some? && left > limits.maxExpirationValidity.value)
                  && (FreshEnough(limits, params, now) ==>
                        (r == Err(NoExchangePrice) <==> exchangePrice.None? || exchangePrice.value.price == 0
                                                        || exchangePrice.value.tsUtc <= 0.0))
                  && (r == Err(InvalidPublishPrice) ==> params.price == 0 || params.priceTsUtc <= 0.0)
                  && (params.price == 0 || params.priceTsUtc <= 0.0 ==> r.Err? && r.error != PriceOutOfRange))
  {}

  // ----- From the publisher's yes to the peer's signature

  /** `CoinPairRunner.prepare_publish_params`. */
  function Prepare(coinPair: string, price: PriceWithTimestamp, addr: string, info: BlockchainInfo, now: int,
                   expirationSeconds: int): PriceParams
  {
    PriceParams(EXPIRING_PRICE_MESSAGE_VERSION, coinPair, price.price, price.tsUtc, addr, info.lastPubBlock,
                Some(now + expirationSeconds))
  }

  /** What the publisher asks to be signed says its coin pair, its price, its address, the last publication and when
      the signatures expire, in a V4 message. */
  lemma PreparedMessageSays(coinPair: string, price: PriceWithTimestamp, addr: string, info: BlockchainInfo,
                            now: int, expirationSeconds: int)
    requires PriceInRange(Prepare(coinPair, price, addr, info, now, expirationSeconds))
    ensures var params := Prepare(coinPair, price, addr, info, now, expirationSeconds);
            && params.priceTsUtc == price.tsUtc && params.oracleAddr == addr && AddrToNumber(addr).Some?
            && PriceMsg(params).Ok?
            && Messages.Read(PriceMsg(params).value)
               == Some(Contents(4, coinPair, price.price, AddrToNumber(addr).value, info.lastPubBlock,
                                Some(now + expirationSeconds)))
  {
    PriceMessageReadsBack(Prepare(coinPair, price, addr, info, now, expirationSeconds));
  }

  /** The expiration leaves a span of validity that the peer's clock accepts. */
  ghost predicate SpanFits(limits: PriceLimits, asked: int, expirationSeconds: int, answered: int) {
    && limits.minExpirationValidity <= asked + expirationSeconds - answered
    && (limits.maxExpirationValidity.Some? ==>
          asked + expirationSeconds - answered <= limits.maxExpirationValidity.value)
  }

  /** When a node concludes that it may publish and asks a peer, the peer signs exactly when it agrees on the
      turn, its clock leaves the expiration in the permitted span, and the prices are close. All three are
      known before it is asked. */
  lemma PeerSignsIff(f: Setup, g: Setup, conf: TurnConf, limits: PriceLimits, coinPair: string,
                     price: PriceWithTimestamp, peerPrice: Option<PriceWithTimestamp>, info: BlockchainInfo,
                     order: seq<string>, addr: string, disableFallbacks: bool, asked: int, answered: int,
                     expirationSeconds: int, signature: Signature, verify: Verifier, sign: Signer, st: TurnState,
                     peer: TurnState)
    requires Nondecreasing(conf.enteringFallbacksAmounts) && PublicationOrder(info) == Ok(order)
    requires var p := IsOracleTurn(f, conf, info, addr, Some(price), disableFallbacks, st).0; p.Ok? && p.value.0
    requires price.price > 0 && price.tsUtc > 0.0 && (peerPrice.Some? ==> peerPrice.value.price > 0)
    requires var params := Prepare(coinPair, price, addr, info, asked, expirationSeconds);
             PriceMsg(params).Ok? && verify(addr, PriceMsg(params).value, signature)
    ensures addr in order
    ensures var params := Prepare(coinPair, price, addr, info, asked, expirationSeconds);
            PriceAnswer(g, conf, limits, params, peerPrice, Some(info), answered, signature, verify, sign,
                        peer).0.Ok? <==>
              && PeerAgrees(conf, info, order, addr, g, peerPrice, peer)
              && SpanFits(limits, asked, expirationSeconds, answered)
              && peerPrice.Some? && peerPrice.value.tsUtc > 0.0
              && Close(price.price, peerPrice.value.price, limits.rejectDeltaPct)
  {
    var params := Prepare(coinPair, price, addr, info, asked, expirationSeconds);
    PriceParamsPassIff(limits, params, peerPrice, Some(info), answered);
    PeerAgreesIff(conf, info, order, addr, f, Some(price), disableFallbacks, st, g, peerPrice, peer);
  }

  // ----- Two prices one node accepted

  lemma FactorSquared(hi: real, e: real, lo: real, k: real)
    requires k >= 0.0 && hi <= k * e && e <= k * lo
    ensures hi <= k * k * lo
  {
    Helpers.MulLeft(e, k * lo, k);
    assert k * lo * k == k * k * lo;
  }

  lemma CloseToTheSame(p: int, q: int, e: int, k: real)
    requires k >= 0.0 && WithinFactor(p, e, k) && WithinFactor(q, e, k)
    ensures WithinFactor(p, q, k * k)
  {
    FactorSquared(p as real, e as real, q as real, k);
    FactorSquared(q as real, e as real, p as real, k);
  }

  /** Two positive prices that one node accepted against the same exchange price: the larger is at most
      (1 + D/100)^2 times the smaller. */
  lemma AcceptedPricesAreClose(limits: PriceLimits, a: PriceParams, b: PriceParams,
                               exchangePrice: PriceWithTimestamp, infoA: Option<BlockchainInfo>,
                               infoB: Option<BlockchainInfo>, nowA: int, nowB: int, k: real)
    requires a.price > 0 && b.price > 0 && exchangePrice.price > 0
    requires k == 1.0 + limits.rejectDeltaPct / 100.0 && k >= 0.0
    requires ValidatePriceParams(limits, a, Some(exchangePrice), infoA, nowA).Ok?
    requires ValidatePriceParams(limits, b, Some(exchangePrice), infoB, nowB).Ok?
    ensures WithinFactor(a.price, b.price, k * k)
  {
    AcceptedIsClose(limits, a, exchangePrice, infoA, nowA, k);
    AcceptedIsClose(limits, b, exchangePrice, infoB, nowB, k);
    CloseToTheSame(a.price, b.price, exchangePrice.price, k);
  }

  lemma AcceptedIsClose(limits: PriceLimits, a: PriceParams, exchangePrice: PriceWithTimestamp,
                        info: Option<BlockchainInfo>, now: int, k: real)
    requires a.price > 0 && exchangePrice.price > 0 && k == 1.0 + limits.rejectDeltaPct / 100.0
    requires ValidatePriceParams(limits, a, Some(exchangePrice), info, now).Ok?
    ensures WithinFactor(a.price, exchangePrice.price, k)
  {
    PriceParamsPassIff(limits, a, Some(exchangePrice), info, now);
  }

  // ----- Tasks

  function ValidateTaskParams(params: TaskParams, seen: TaskParamsRead, info: Option<BlockchainInfo>)
    : Result<(), Failure>
  {
    if info.None? then Err(NoBlockchainData)
    else if !seen.available then Err(NoTasksAvailable)
    else if params.lastPubBlock != info.value.lastPubBlock then Err(DifferentLastPubBlock)
    else if params.tasksFlags != seen.flags then Err(TasksFlagsMismatch)
    else Ok(())
  }

  function TaskAnswer(conf: TurnConf, params: TaskParams, seen: TaskParamsRead, info: Option<BlockchainInfo>,
                      signature: Signature, verify: Verifier, sign: Signer): Result<(string, Signature), Failure>
  {
    match ValidateTaskParams(params, seen, info)
    case Err(e) => Err(e)
    case Ok(_) =>
      match ValidateTask(conf, info.value, params.oracleAddr, seen.available, seen.latch)
      case Err(e) => Err(TaskTurnRaised(e))
      case Ok(mine) =>
        if !mine then Err(InvalidTurn) else
          match TaskMsg(params)
          case Err(e) => Err(MessageRaised(e))
          case Ok(message) =>
            if verify(params.oracleAddr, message, signature)
            then Ok((message, sign(message)))
            else Err(InvalidSignature)
  }

  /** A task request is answered exactly when the chain shows the same available tasks after the same publication, the
      turn is the requester's, and the requester signed the message; the answer is that message, which reads back as
      what was checked, and our signature of it. */
  lemma TaskAnswerIff(conf: TurnConf, params: TaskParams, seen: TaskParamsRead, info: Option<BlockchainInfo>,
                      signature: Signature, verify: Verifier, sign: Signer, message: string, ours: Signature)
    requires TaskInRange(params)
    ensures TaskAnswer(conf, params, seen, info, signature, verify, sign) == Ok((message, ours)) <==>
              && info.Some? && seen.available && params.lastPubBlock == info.value.lastPubBlock
              && params.tasksFlags == seen.flags
              && ValidateTask(conf, info.value, params.oracleAddr, seen.available, seen.latch) == Ok(true)
              && TaskMsg(params) == Ok(message) && verify(params.oracleAddr, message, signature)
              && ours == sign(message)
    ensures TaskMsg(params) == Ok(message) ==> Messages.Read(message) == Some(TaskContents(params))
  {
    TaskMessageReadsBack(params);
  }

  /** Which failure is reported: the first of these that holds. */
  lemma TaskFailureIs(conf: TurnConf, params: TaskParams, seen: TaskParamsRead, info: Option<BlockchainInfo>,
                      signature: Signature, verify: Verifier, sign: Signer)
    requires TaskInRange(params)
    ensures var r := TaskAnswer(conf, params, seen, info, signature, verify, sign);
            && (r == Err(NoBlockchainData) <==> info.None?)
            && (info.Some? ==>
                  && (r == Err(NoTasksAvailable) <==> !seen.available)
                  && (r == Err(DifferentLastPubBlock) <==>
                        seen.available && params.lastPubBlock != info.value.lastPubBlock)
                  && (r == Err(TasksFlagsMismatch) <==>
                        && seen.available && params.lastPubBlock == info.value.lastPubBlock
                        && params.tasksFlags != seen.flags)
                  && (seen.available && params.lastPubBlock == info.value.lastPubBlock
                      && params.tasksFlags == seen.flags ==>
                        && (r == Err(InvalidTurn) <==>
                              ValidateTask(conf, info.value, params.oracleAddr, true, seen.latch) == Ok(false))
                        && (r == Err(InvalidSignature) <==>
                              && ValidateTask(conf, info.value, params.oracleAddr, true, seen.latch) == Ok(true)
                              && TaskMsg(params).Ok? && !verify(params.oracleAddr, TaskMsg(params).value, signature))))
  {
    TaskMessageReadsBack(params);
  }

  /** When a node concludes that it may run the tasks, a peer signs exactly when the chain shows it the same
      available tasks and it agrees on the turn, whatever it has latched; a block no later is enough for that. */
  lemma TaskPeerSignsIff(conf: TurnConf, version: int, coinPair: string, flags: int, info: BlockchainInfo,
                         addr: string, mine: Option<nat>, disableFallbacks: bool, order: seq<string>,
                         seen: TaskParamsRead, signature: Signature, verify: Verifier, sign: Signer)
    requires Nondecreasing(conf.enteringFallbacksAmounts) && PublicationOrder(info) == Ok(order)
    requires IsTaskTurn(conf, info, addr, true, mine, disableFallbacks) == Ok((true, order))
    requires var params := TaskParams(version, coinPair, flags, addr, info.lastPubBlock);
             TaskMsg(params).Ok? && verify(addr, TaskMsg(params).value, signature)
    ensures addr in order && mine.Some?
    ensures var params := TaskParams(version, coinPair, flags, addr, info.lastPubBlock);
            TaskAnswer(conf, params, seen, Some(info), signature, verify, sign).Ok?
            <==> seen.available && flags == seen.flags && TaskPeerAgrees(conf, info, order, addr, seen.latch)
    ensures seen.latch.Some? && seen.latch.value <= mine.value ==> TaskPeerAgrees(conf, info, order, addr, seen.latch)
  {
    TaskPeerAgreesIff(conf, info, order, addr, mine, disableFallbacks, seen.latch);
  }
}
