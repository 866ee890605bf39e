/** The whole publication protocol put together: from a node's conclusion that it is its turn, through its
    peers' checks, to a publication that goes out. */
module Protocol {
  import opened Prelude
  import opened Encoding
  import opened Messages
  import opened SelectNext
  import opened ConditionalPublish
  import opened OracleTurn
  import opened PriceFeeder
  import opened TurnTheorems
  import opened RequestValidation
  import opened GatherSignatures
  import opened Quorum
  import Helpers

  /** One node as it answers a request: its signal setup, its exchange price, its turn state, its clock. */
  datatype Node = Node(setup: Setup, price: PriceWithTimestamp, state: TurnState, clock: int)

  /** The publisher's side: what it decided with, and when. */
  datatype Attempt = Attempt(addr: string, node: Node, disableFallbacks: bool, coinPair: string, expirationSeconds: int)

  /** What the publisher and the peers that agree with it share. */
  datatype World = World(
    conf: TurnConf, limits: PriceLimits, info: BlockchainInfo, verify: Verifier, keys: string -> Signer)

  function Params(w: World, a: Attempt): PriceParams {
    Prepare(a.coinPair, a.node.price, a.addr, w.info, a.node.clock, a.expirationSeconds)
  }

  ghost predicate MayPublish(w: World, a: Attempt) {
    var p := IsOracleTurn(a.node.setup, w.conf, w.info, a.addr, Some(a.node.price), a.disableFallbacks, a.node.state).0;
    p.Ok? && p.value.0
  }

  /** What a peer answers to the attempt. */
  function ReplyOf(w: World, a: Attempt, message: string, addr: string, peer: Node): Reply {
    match PriceAnswer(peer.setup, w.conf, w.limits, Params(w, a), Some(peer.price), Some(w.info), peer.clock,
                      w.keys(a.addr)(message), w.verify, w.keys(addr), peer.state).0
    case Err(_) => NoSignature
    case Ok((_, signature)) => SignatureBytes(signature)
  }

  /** What a peer that serves only the legacy endpoint answers there. */
  function LegacyReplyOf(w: World, a: Attempt, message: string, addr: string, peer: Node): Reply {
    match PriceAnswer(peer.setup, w.conf, w.limits, AsLegacy(Params(w, a)), Some(peer.price), Some(w.info), peer.clock,
                      w.keys(a.addr)(message), w.verify, w.keys(addr), peer.state).0
    case Err(_) => NoSignature
    case Ok((_, signature)) => SignatureBytes(signature)
  }

  /** The peer reads the same signal, had latched the price change no later, and can answer. */
  ghost predicate AgreesOnTurn(w: World, a: Attempt, peer: Node) {
    && SameReadings(w.info, a.node.setup, a.node.state.signal, peer.setup, peer.state.signal)
    && EqualOrOlder(peer.state.latch, a.node.state.latch, w.info.lastPubBlock)
    && CanAnswer(w.info, Some(peer.price), peer.state.latch)
  }

  /** And it has a close price. */
  ghost predicate InAgreement(w: World, a: Attempt, peer: Node) {
    && AgreesOnTurn(w, a, peer)
    && peer.price.price > 0 && peer.price.tsUtc > 0.0
    && Close(a.node.price.price, peer.price.price, w.limits.rejectDeltaPct)
  }

  /** Its clock is within the span the expiration allows. */
  ghost predicate ClockFits(w: World, a: Attempt, peer: Node) {
    SpanFits(w.limits, a.node.clock, a.expirationSeconds, peer.clock)
  }

  /** What a key signs verifies. */
  ghost predicate MatchingKeys(w: World) {
    forall addr, m :: w.verify(addr, m, w.keys(addr)(m))
  }

  /** And the message exists. */
  ghost predicate Signable(w: World, a: Attempt) {
    PriceMsg(Params(w, a)).Ok? && MatchingKeys(w)
  }

  lemma AgreeingPeerSigns(w: World, a: Attempt, addr: string, peer: Node)
    requires Nondecreasing(w.conf.enteringFallbacksAmounts) && MayPublish(w, a) && Signable(w, a)
    requires a.node.price.price > 0 && a.node.price.tsUtc > 0.0
    requires InAgreement(w, a, peer) && ClockFits(w, a, peer)
    ensures var message := PriceMsg(Params(w, a)).value;
            ReplyOf(w, a, message, addr, peer) == SignatureBytes(w.keys(addr)(message))
  {
    var message, order := PriceMsg(Params(w, a)).value, PublicationOrder(w.info).value;
    PublisherPeerAgreement(w.conf, w.info, a.addr, a.node.setup, Some(a.node.price), a.disableFallbacks, a.node.state,
                           peer.setup, Some(peer.price), peer.state);
    PeerAgreesIff(w.conf, w.info, order, a.addr, a.node.setup, Some(a.node.price), a.disableFallbacks, a.node.state,
                  peer.setup, Some(peer.price), peer.state);
    PeerSignsIff(a.node.setup, peer.setup, w.conf, w.limits, a.coinPair, a.node.price, Some(peer.price), w.info,
                 order, a.addr, a.disableFallbacks, a.node.clock, peer.clock, a.expirationSeconds,
                 w.keys(a.addr)(message), w.verify, w.keys(addr), a.node.state, peer.state);
  }

  ghost function Ours(w: World, a: Attempt): OracleSignature
    requires PriceMsg(Params(w, a)).Ok?
  {
    OracleSignature(a.addr, w.keys(a.addr)(PriceMsg(Params(w, a)).value))
  }

  ghost function TheRequest(w: World, a: Attempt): Request
    requires PriceMsg(Params(w, a)).Ok?
  {
    Request(PriceMsg(Params(w, a)).value,
            if PriceMsg(AsLegacy(Params(w, a))).Ok? then Some(PriceMsg(AsLegacy(Params(w, a))).value) else None,
            w.verify)
  }

  /** A message that exists has a legacy form. */
  lemma LegacyExists(w: World, a: Attempt)
    requires PriceMsg(Params(w, a)).Ok?
    ensures PriceMsg(AsLegacy(Params(w, a))).Ok? && TheRequest(w, a).legacyMessage.Some?
  {}

  /** On the legacy endpoint, which knows no expiration, the peer's clock does not matter. */
  lemma AgreeingPeerSignsLegacy(w: World, a: Attempt, addr: string, peer: Node)
    requires Nondecreasing(w.conf.enteringFallbacksAmounts) && MayPublish(w, a) && Signable(w, a)
    requires a.node.price.price > 0 && a.node.price.tsUtc > 0.0
    requires InAgreement(w, a, peer)
    ensures PriceMsg(AsLegacy(Params(w, a))).Ok?
    ensures var message := PriceMsg(AsLegacy(Params(w, a))).value;
            LegacyReplyOf(w, a, message, addr, peer) == SignatureBytes(w.keys(addr)(message))
  {
    LegacyExists(w, a);
    PublisherPeerAgreement(w.conf, w.info, a.addr, a.node.setup, Some(a.node.price), a.disableFallbacks, a.node.state,
                           peer.setup, Some(peer.price), peer.state);
    PriceParamsPassIff(w.limits, AsLegacy(Params(w, a)), Some(peer.price), Some(w.info), peer.clock);
  }

  function Count(flags: seq<bool>): nat {
    if flags == [] then 0 else (if flags[0] then 1 else 0) + Count(flags[1..])
  }

  lemma {:induction false} PresentAtLeast(results: seq<Option<Collected>>, flags: seq<bool>)
    requires |flags| == |results| && forall i :: 0 <= i < |flags| && flags[i] ==> results[i].Some?
    ensures |Present(results)| >= Count(flags)
  {
    if flags != [] {
      PresentAtLeast(results[1..], flags[1..]);
    }
  }

  /** The peer answers as the node it is: on the current endpoint, with a clock that fits, or, where it serves only
      that, on the legacy one. */
  ghost predicate AnswersAs(w: World, a: Attempt, addr: string, peer: Node, replies: Replies)
    requires Signable(w, a)
  {
    || (ClockFits(w, a, peer) && replies.current == ReplyOf(w, a, PriceMsg(Params(w, a)).value, addr, peer))
    || (&& replies.current == NotServed && PriceMsg(AsLegacy(Params(w, a))).Ok?
        && replies.legacy == LegacyReplyOf(w, a, PriceMsg(AsLegacy(Params(w, a))).value, addr, peer))
  }

  /** The peer is known to agree and answers as such; nothing is assumed about one that is None. */
  ghost predicate Consents(w: World, a: Attempt, addr: string, peer: Option<Node>, replies: Replies)
    requires Signable(w, a)
  {
    peer.Some? && InAgreement(w, a, peer.value) && AnswersAs(w, a, addr, peer.value, replies)
  }

  /** The round as the publisher meets it: one node, or nothing known, behind each peer's address. Replies are
      free, and the network decides who completes in time, and in which order. */
  ghost predicate Answering(w: World, a: Attempt, nodes: seq<Option<Node>>, net: Network) {
    var peers := Peers(w.info.selectedOracles, a.addr);
    |nodes| == |peers| && Readable(peers, net) && forall i :: 0 <= i < |peers| ==> IntBase16(peers[i]).Some?
  }

  /** Which of the peers that complete in time consent. */
  ghost function Consenting(w: World, a: Attempt, nodes: seq<Option<Node>>, net: Network): seq<bool>
    requires Signable(w, a) && Answering(w, a, nodes, net)
  {
    var peers := Peers(w.info.selectedOracles, a.addr);
    seq(|net.order|, i requires 0 <= i < |net.order| =>
      Consents(w, a, peers[net.order[i]], nodes[net.order[i]], net.replies[net.order[i]]))
  }

  /** The publication of the attempt goes out, with a signature of each of n / 2 peers. */
  ghost predicate GoesOut(w: World, a: Attempt, net: Network, now: int, minValidity: int)
    requires PriceMsg(Params(w, a)).Ok? && Readable(Peers(w.info.selectedOracles, a.addr), net)
  {
    SendsFullSet(w.info.selectedOracles, TheRequest(w, a), Ours(w, a), net, Params(w, a).expiration, now, minValidity)
  }

  /** A peer that serves neither endpoint completes while fewer than n / 2 others have brought anything. */
  ghost predicate Spoiled(w: World, a: Attempt, net: Network)
    requires PriceMsg(Params(w, a)).Ok? && Readable(Peers(w.info.selectedOracles, a.addr), net)
  {
    MarkedEarly(Peers(w.info.selectedOracles, a.addr), TheRequest(w, a), net, |w.info.selectedOracles| / 2)
  }

  lemma ConsentIsAnswer(w: World, a: Attempt, addr: string, peer: Option<Node>, replies: Replies)
    requires Nondecreasing(w.conf.enteringFallbacksAmounts) && MayPublish(w, a) && Signable(w, a)
    requires a.node.price.price > 0 && a.node.price.tsUtc > 0.0
    requires Consents(w, a, addr, peer, replies)
    ensures GetSignature(addr, TheRequest(w, a), replies).Some?
  {
    AgreeingPeerSignsLegacy(w, a, addr, peer.value);
    if replies.current == NotServed {
      var legacy := PriceMsg(AsLegacy(Params(w, a))).value;
      GetSignatureIff(addr, TheRequest(w, a), replies, OracleSignature(addr, w.keys(addr)(legacy)));
    } else {
      AgreeingPeerSigns(w, a, addr, peer.value);
      var message := PriceMsg(Params(w, a)).value;
      GetSignatureIff(addr, TheRequest(w, a), replies, OracleSignature(addr, w.keys(addr)(message)));
    }
  }

  /** Liveness of one attempt: when a node concludes that it is its turn and consenting peers, at least
      half of the round's size (rounded down), complete before the deadline, the publication goes out exactly
      unless a peer that serves neither endpoint completes among the first; then gathering raises. Nothing is
      assumed about the other peers' replies. */
  lemma AgreeingMajorityPublishesIff(w: World, a: Attempt, nodes: seq<Option<Node>>, net: Network, now: int,
                                     minValidity: int)
    requires Nondecreasing(w.conf.enteringFallbacksAmounts) && MayPublish(w, a) && Signable(w, a)
    requires a.node.price.price > 0 && a.node.price.tsUtc > 0.0
    requires |w.info.selectedOracles| >= 2 && IntBase16(a.addr).Some?
    requires Answering(w, a, nodes, net)
    requires Count(Consenting(w, a, nodes, net)) >= |w.info.selectedOracles| / 2
    requires a.node.clock + a.expirationSeconds - now >= minValidity
    ensures GoesOut(w, a, net, now, minValidity) <==> !Spoiled(w, a, net)
    ensures Spoiled(w, a, net)
            <==> Gather(w.info.selectedOracles, TheRequest(w, a), Ours(w, a), net) == Err(NoSortKey)
  {
    var results := Answers(Peers(w.info.selectedOracles, a.addr), TheRequest(w, a), net);
    var flags := Consenting(w, a, nodes, net);
    forall i | 0 <= i < |results| && flags[i] ensures results[i].Some? {
      var k := net.order[i];
      ConsentIsAnswer(w, a, Peers(w.info.selectedOracles, a.addr)[k], nodes[k], net.replies[k]);
    }
    PresentAtLeast(results, flags);
    EnoughAnswersSendIff(w.info.selectedOracles, TheRequest(w, a), Ours(w, a), net, Params(w, a).expiration, now,
                         minValidity);
  }

  /** So it goes out when every peer serves one of the two endpoints, whatever the others answer there. */
  lemma AgreeingMajorityPublishes(w: World, a: Attempt, nodes: seq<Option<Node>>, net: Network, now: int,
                                  minValidity: int)
    requires Nondecreasing(w.conf.enteringFallbacksAmounts) && MayPublish(w, a) && Signable(w, a)
    requires a.node.price.price > 0 && a.node.price.tsUtc > 0.0
    requires |w.info.selectedOracles| >= 2 && IntBase16(a.addr).Some?
    requires Answering(w, a, nodes, net)
    requires forall i :: 0 <= i < |net.replies| ==> net.replies[i] != Replies(NotServed, NotServed)
    requires Count(Consenting(w, a, nodes, net)) >= |w.info.selectedOracles| / 2
    requires a.node.clock + a.expirationSeconds - now >= minValidity
    ensures GoesOut(w, a, net, now, minValidity)
  {
    AgreeingMajorityPublishesIff(w, a, nodes, net, now, minValidity);
  }

  // ----- Prices from the exchanges

  /** What one node's price feeder has received, the exchanges it knows, and its limits. */
  datatype Feed = Feed(
    received: seq<Quote>, names: seq<string>, queueLen: nat, publishMaxDiff: real, validateMaxDiff: real)

  /** The band in which exchanges quote, and the scale of published prices. */
  datatype Market = Market(lo: real, hi: real, digits: nat)

  function Lowest(m: Market): int {
    Truncate(Shifted(m.lo, m.digits))
  }

  function Highest(m: Market): int {
    Truncate(Shifted(m.hi, m.digits))
  }

  /** Two positive ends within d percent of each other. */
  ghost predicate NarrowBand(l: int, h: int, d: real) {
    0 < l && h as real <= (1.0 + d / 100.0) * (l as real)
  }

  ghost predicate Narrow(m: Market, d: real) {
    NarrowBand(Lowest(m), Highest(m), d)
  }

  /** The price the feeder gives for the target time, when most of what survives there quotes in the band. */
  ghost predicate PricedBy(price: PriceWithTimestamp, feed: Feed, target: real, maxDiff: real, m: Market) {
    var survivors := Survivors(QueuesOf(feed.received, feed.names, feed.queueLen), target, maxDiff);
    MajorityWithin(survivors, m.lo, m.hi) && PriceFrom(survivors, m.digits) == Ok(Some(price))
  }

  lemma PricedWithin(price: PriceWithTimestamp, feed: Feed, target: real, maxDiff: real, m: Market)
    requires PricedBy(price, feed, target, maxDiff, m)
    ensures Lowest(m) <= price.price <= Highest(m) && Gap(target, price.tsUtc) <= maxDiff
  {
    RobustPrice(QueuesOf(feed.received, feed.names, feed.queueLen), target, maxDiff, m.digits, m.lo, m.hi);
    PriceIsFresh(feed.received, feed.names, feed.queueLen, target, maxDiff, m.digits);
  }

  lemma FactorOfLarger(k: real, l: real, h: real, q: real)
    requires 0.0 < l <= h && l <= q && h <= k * l
    ensures h <= k * q
  {
    if k < 1.0 {
      Helpers.MulLess(k, 1.0, l);
    } else {
      Helpers.MulLeft(l, q, k);
      assert l * k == k * l && q * k == k * q;
    }
  }

  lemma BandIsClose(p: int, q: int, l: int, h: int, d: real)
    requires NarrowBand(l, h, d) && l <= p <= h && l <= q <= h
    ensures p > 0 && q > 0 && Close(p, q, d)
  {
    var k := 1.0 + d / 100.0;
    FactorOfLarger(k, l as real, h as real, p as real);
    FactorOfLarger(k, l as real, h as real, q as real);
  }

  /** Two nodes, whatever exchanges they listen to and whatever times they ask for: if most of what survives at
      each of them quotes in one narrow band, their prices are close enough for each to accept the other's. */
  lemma RobustPricesAreClose(p: PriceWithTimestamp, mine: Feed, target: real, maxDiff: real, q: PriceWithTimestamp,
                             theirs: Feed, target': real, maxDiff': real, m: Market, d: real)
    requires PricedBy(p, mine, target, maxDiff, m) && PricedBy(q, theirs, target', maxDiff', m) && Narrow(m, d)
    ensures p.price > 0 && q.price > 0 && Close(p.price, q.price, d)
  {
    PricedWithin(p, mine, target, maxDiff, m);
    PricedWithin(q, theirs, target', maxDiff', m);
    BandIsClose(p.price, q.price, Lowest(m), Highest(m), d);
  }

  /** The publisher's price is the one for its own time; the peer's is the one it looks up for the time of the
      price it is asked about, which is not within its limit of time zero. */
  ghost predicate BothPriced(w: World, a: Attempt, mine: Feed, now: real, peer: Node, theirs: Feed, m: Market) {
    && PricedBy(a.node.price, mine, now, mine.publishMaxDiff, m)
    && PricedBy(peer.price, theirs, a.node.price.tsUtc, theirs.validateMaxDiff, m)
    && a.node.price.tsUtc > 0.0 && a.node.price.tsUtc > theirs.validateMaxDiff
    && Narrow(m, w.limits.rejectDeltaPct)
  }

  lemma PricedClosely(w: World, a: Attempt, mine: Feed, now: real, peer: Node, theirs: Feed, m: Market)
    requires BothPriced(w, a, mine, now, peer, theirs, m)
    ensures a.node.price.price > 0 && peer.price.price > 0 && peer.price.tsUtc > 0.0
    ensures Close(a.node.price.price, peer.price.price, w.limits.rejectDeltaPct)
  {
    RobustPricesAreClose(a.node.price, mine, now, mine.publishMaxDiff, peer.price, theirs, a.node.price.tsUtc,
                         theirs.validateMaxDiff, m, w.limits.rejectDeltaPct);
    PricedWithin(peer.price, theirs, a.node.price.tsUtc, theirs.validateMaxDiff, m);
  }

  /** With such prices only the turn and the clock are left to disagree on: the peer signs exactly when it
      agrees on the turn and the expiration leaves its clock in the permitted span. */
  lemma RobustPeerSignsIff(w: World, a: Attempt, mine: Feed, now: real, addr: string, peer: Node, theirs: Feed,
                           m: Market)
    requires Nondecreasing(w.conf.enteringFallbacksAmounts) && MayPublish(w, a) && Signable(w, a)
    requires BothPriced(w, a, mine, now, peer, theirs, m)
    ensures a.addr in PublicationOrder(w.info).value
    ensures PriceAnswer(peer.setup, w.conf, w.limits, Params(w, a), Some(peer.price), Some(w.info), peer.clock,
                        w.keys(a.addr)(PriceMsg(Params(w, a)).value), w.verify, w.keys(addr), peer.state).0.Ok?
            <==>
              && PeerAgrees(w.conf, w.info, PublicationOrder(w.info).value, a.addr, peer.setup, Some(peer.price),
                            peer.state)
              && SpanFits(w.limits, a.node.clock, a.expirationSeconds, peer.clock)
  {
    PricedClosely(w, a, mine, now, peer, theirs, m);
    PeerSignsIff(a.node.setup, peer.setup, w.conf, w.limits, a.coinPair, a.node.price, Some(peer.price), w.info,
                 PublicationOrder(w.info).value, a.addr, a.disableFallbacks, a.node.clock, peer.clock,
                 a.expirationSeconds, w.keys(a.addr)(PriceMsg(Params(w, a)).value), w.verify, w.keys(addr),
                 a.node.state, peer.state);
  }

  /** The peer agrees on the turn, and has its price from exchanges that quote in the band. */
  ghost predicate RobustPeer(w: World, a: Attempt, mine: Feed, now: real, peer: Node, theirs: Feed, m: Market) {
    AgreesOnTurn(w, a, peer) && BothPriced(w, a, mine, now, peer, theirs, m)
  }

  /** Which of the peers that complete in time are such, and answer as such. */
  ghost function RobustPeers(w: World, a: Attempt, mine: Feed, now: real, nodes: seq<Option<Node>>,
                             feeds: seq<Feed>, m: Market, net: Network): seq<bool>
    requires Signable(w, a) && Answering(w, a, nodes, net) && |feeds| == |nodes|
  {
    var peers := Peers(w.info.selectedOracles, a.addr);
    seq(|net.order|, i requires 0 <= i < |net.order| =>
      var k := net.order[i];
      nodes[k].Some? && RobustPeer(w, a, mine, now, nodes[k].value, feeds[k], m)
      && AnswersAs(w, a, peers[k], nodes[k].value, net.replies[k]))
  }

  lemma {:induction false} CountMonotone(few: seq<bool>, many: seq<bool>)
    requires |few| == |many| && forall i :: 0 <= i < |few| && few[i] ==> many[i]
    ensures Count(few) <= Count(many)
  {
    if few != [] {
      CountMonotone(few[1..], many[1..]);
    }
  }

  /** From the exchanges to the chain: when a node concludes that it is its turn, and half of the round's peers
      (rounded down) agree on the turn and complete in time, then its price is between the ends of any narrow
      band that holds most of what survives at each of these nodes, and it is published exactly unless a peer
      that serves neither endpoint completes among the first. Nothing is assumed about the other peers. */
  lemma RobustMajorityPublishesIff(w: World, a: Attempt, mine: Feed, at: real, nodes: seq<Option<Node>>,
                                   feeds: seq<Feed>, m: Market, net: Network, now: int, minValidity: int)
    requires Nondecreasing(w.conf.enteringFallbacksAmounts) && MayPublish(w, a) && Signable(w, a)
    requires |w.info.selectedOracles| >= 2 && IntBase16(a.addr).Some?
    requires Answering(w, a, nodes, net) && |feeds| == |nodes|
    requires Count(RobustPeers(w, a, mine, at, nodes, feeds, m, net)) >= |w.info.selectedOracles| / 2
    requires a.node.clock + a.expirationSeconds - now >= minValidity
    ensures Lowest(m) <= Params(w, a).price <= Highest(m)
    ensures GoesOut(w, a, net, now, minValidity) <==> !Spoiled(w, a, net)
  {
    var robust := RobustPeers(w, a, mine, at, nodes, feeds, m, net);
    forall i | 0 <= i < |net.order| && robust[i] ensures Consenting(w, a, nodes, net)[i] {
      PricedClosely(w, a, mine, at, nodes[net.order[i]].value, feeds[net.order[i]], m);
    }
    CountMonotone(robust, Consenting(w, a, nodes, net));
    var i := SomeCounted(robust);
    PricedClosely(w, a, mine, at, nodes[net.order[i]].value, feeds[net.order[i]], m);
    PricedWithin(a.node.price, mine, at, mine.publishMaxDiff, m);
    AgreeingMajorityPublishesIff(w, a, nodes, net, now, minValidity);
  }

  lemma {:induction false} SomeCounted(flags: seq<bool>) returns (i: nat)
    requires Count(flags) > 0
    ensures i < |flags| && flags[i]
  {
    i := 0;
    if !flags[0] {
      i := SomeCounted(flags[1..]);
      i := i + 1;
    }
  }

  // ----- A round in which it all comes together

  const TWO_NODE_STATE := TurnState(Latch(12, 10), INITIAL_STATE)
  const TWO_NODE := Node(NO_SIGNAL, LATE_PRICE, TWO_NODE_STATE, 1000)
  const TWO_NODE_ATTEMPT := Attempt("b", TWO_NODE, false, "BTCUSD", 300)

  ghost predicate SmallWorld(w: World, info: BlockchainInfo) {
    w.conf == LATE_CONF && w.limits == PriceLimits(1.0, 30, Some(600)) && w.info == info && MatchingKeys(w)
  }

  lemma HexAddress(addr: string)
    requires addr in ["a", "b", "c"]
    ensures IntBase16(addr).Some? && AddrToNumber(addr).Some?
  {
    assert addr[..0] == "" && FromHex("") == Some(0);
  }

  lemma BitcoinSignable(w: World, a: Attempt)
    requires MatchingKeys(w) && a.coinPair == "BTCUSD" && a.addr in ["a", "b", "c"]
    ensures Signable(w, a)
  {
    AsciiIff("BTCUSD");
    HexAddress(a.addr);
  }

  lemma TwoNodesAgree(w: World)
    requires SmallWorld(w, LATE_INFO)
    ensures MayPublish(w, TWO_NODE_ATTEMPT) && InAgreement(w, TWO_NODE_ATTEMPT, TWO_NODE)
  {
    TwoOracleRanks();
    EarlyLatchPublishes(TWO_NODE_STATE);
  }

  lemma OnePeer()
    ensures Peers(LATE_INFO.selectedOracles, "b") == ["a"]
  {
    assert TWO_ORACLES[..1] == [TWO_ORACLES[0]] && TWO_ORACLES[..1][..0] == [];
    assert Peers(TWO_ORACLES[..1], "b") == [] + ["a"];
    assert ["a"] + [] == ["a"];
  }

  /** What the one peer answers, on both endpoints or only on the legacy one. */
  lemma ConsentingReplies(w: World, a: Attempt, addr: string, node: Node, legacyOnly: bool) returns (replies: Replies)
    requires Nondecreasing(w.conf.enteringFallbacksAmounts) && MayPublish(w, a) && Signable(w, a)
    requires a.node.price.price > 0 && a.node.price.tsUtc > 0.0
    requires InAgreement(w, a, node) && ClockFits(w, a, node)
    ensures Consents(w, a, addr, Some(node), replies) && replies != Replies(NotServed, NotServed)
    ensures legacyOnly ==> replies.current == NotServed
  {
    AgreeingPeerSignsLegacy(w, a, addr, node);
    var message, legacy := PriceMsg(Params(w, a)).value, PriceMsg(AsLegacy(Params(w, a))).value;
    replies := if legacyOnly then Replies(NotServed, LegacyReplyOf(w, a, legacy, addr, node))
               else Replies(ReplyOf(w, a, message, addr, node), NoSignature);
  }

  lemma OnePeerConsents(w: World, a: Attempt, addr: string, node: Node, net: Network)
    requires Signable(w, a) && Peers(w.info.selectedOracles, a.addr) == [addr] && IntBase16(addr).Some?
    requires |net.replies| == 1 && net.order == [0] && Consents(w, a, addr, Some(node), net.replies[0])
    ensures Answering(w, a, [Some(node)], net) && Count(Consenting(w, a, [Some(node)], net)) == 1
  {
    assert Consenting(w, a, [Some(node)], net) == [true];
    assert Count([true]) == 1;
  }

  /** In a round of two, one peer in agreement is enough. */
  lemma RoundOfTwoPublishes(w: World, a: Attempt, addr: string, node: Node, replies: Replies, now: int,
                            minValidity: int) returns (net: Network)
    requires Nondecreasing(w.conf.enteringFallbacksAmounts) && MayPublish(w, a) && Signable(w, a)
    requires a.node.price.price > 0 && a.node.price.tsUtc > 0.0
    requires Consents(w, a, addr, Some(node), replies) && replies != Replies(NotServed, NotServed)
    requires Peers(w.info.selectedOracles, a.addr) == [addr] && IntBase16(addr).Some?
    requires |w.info.selectedOracles| == 2 && IntBase16(a.addr).Some?
    requires a.node.clock + a.expirationSeconds - now >= minValidity
    ensures net == Network([replies], [0], false)
    ensures Answering(w, a, [Some(node)], net) && GoesOut(w, a, net, now, minValidity)
  {
    net := Network([replies], [0], false);
    OnePeerConsents(w, a, addr, node, net);
    AgreeingMajorityPublishes(w, a, [Some(node)], net, now, minValidity);
  }

  lemma TwoNodesInTime(w: World)
    requires SmallWorld(w, LATE_INFO)
    ensures Nondecreasing(w.conf.enteringFallbacksAmounts) && |w.info.selectedOracles| == 2
    ensures Peers(w.info.selectedOracles, "b") == ["a"]
    ensures var a := TWO_NODE_ATTEMPT;
            && a.node.price.price > 0 && a.node.price.tsUtc > 0.0 && ClockFits(w, a, TWO_NODE)
            && a.node.clock + a.expirationSeconds - 1010 >= 30
  {
    OnePeer();
  }

  /** Concretely, for any matching keys: in a round of two, the fallback b, which saw the price move eight
      blocks ago, publishes with the signature of a, also when a serves only the legacy endpoint. */
  lemma TwoNodesPublish(w: World, legacyOnly: bool) returns (net: Network)
    requires SmallWorld(w, LATE_INFO)
    ensures var a := TWO_NODE_ATTEMPT;
            && PriceMsg(Params(w, a)).Ok? && Answering(w, a, [Some(TWO_NODE)], net)
            && (legacyOnly ==> |net.replies| == 1 && net.replies[0].current == NotServed)
            && GoesOut(w, a, net, 1010, 30)
  {
    BitcoinSignable(w, TWO_NODE_ATTEMPT);
    TwoNodesAgree(w);
    TwoNodesInTime(w);
    HexAddress("a");
    HexAddress("b");
    var replies := ConsentingReplies(w, TWO_NODE_ATTEMPT, "a", TWO_NODE, legacyOnly);
    net := RoundOfTwoPublishes(w, TWO_NODE_ATTEMPT, "a", TWO_NODE, replies, 1010, 30);
  }

  // ----- A round that one peer spoils

  const THREE_NODE_ATTEMPT := Attempt("a", TWO_NODE, false, "BTCUSD", 300)

  lemma TwoPeers()
    ensures Peers(THREE_INFO.selectedOracles, "a") == ["b", "c"]
  {
    var l := THREE_ORACLES;
    assert l[..2][..1] == l[..1] && l[..1][..0] == [];
    assert Peers(l[..1], "a") == [] + [];
    assert Peers(l[..2], "a") == [] + ["b"];
    assert ["b"] + ["c"] == ["b", "c"];
  }

  lemma ThreeNodesAgree(w: World)
    requires SmallWorld(w, THREE_INFO)
    ensures MayPublish(w, THREE_NODE_ATTEMPT) && InAgreement(w, THREE_NODE_ATTEMPT, TWO_NODE)
  {
    ChosenOfThreePublishes(TWO_NODE_STATE);
  }

  lemma BothPeersComplete(w: World) returns (net: Network)
    requires SmallWorld(w, THREE_INFO) && Signable(w, THREE_NODE_ATTEMPT)
    ensures Answering(w, THREE_NODE_ATTEMPT, [None, Some(TWO_NODE)], net)
    ensures net.order == [0, 1] && !net.deadline && net.replies[0] == Replies(NotServed, NotServed)
    ensures AnswersAs(w, THREE_NODE_ATTEMPT, "c", TWO_NODE, net.replies[1])
  {
    TwoPeers();
    HexAddress("b");
    HexAddress("c");
    net := FirstOfTwoUnserved(w, THREE_NODE_ATTEMPT, "b", "c", TWO_NODE);
  }

  /** Two peers complete in order, the second of them as the node it is. */
  lemma FirstOfTwoUnserved(w: World, a: Attempt, first: string, second: string, node: Node) returns (net: Network)
    requires Signable(w, a) && Peers(w.info.selectedOracles, a.addr) == [first, second] && ClockFits(w, a, node)
    requires IntBase16(first).Some? && IntBase16(second).Some?
    ensures Answering(w, a, [None, Some(node)], net)
    ensures net.order == [0, 1] && !net.deadline && net.replies[0] == Replies(NotServed, NotServed)
    ensures AnswersAs(w, a, second, node, net.replies[1])
  {
    var signed := ReplyOf(w, a, PriceMsg(Params(w, a)).value, second, node);
    net := Network([Replies(NotServed, NotServed), Replies(signed, NoSignature)], [0, 1], false);
  }

  lemma OneOfTwoConsents(w: World, net: Network)
    requires Signable(w, THREE_NODE_ATTEMPT) && net.order == [0, 1]
    requires Answering(w, THREE_NODE_ATTEMPT, [None, Some(TWO_NODE)], net)
    requires Peers(w.info.selectedOracles, "a") == ["b", "c"]
    requires InAgreement(w, THREE_NODE_ATTEMPT, TWO_NODE)
    requires AnswersAs(w, THREE_NODE_ATTEMPT, "c", TWO_NODE, net.replies[1])
    ensures Count(Consenting(w, THREE_NODE_ATTEMPT, [None, Some(TWO_NODE)], net)) == 1
  {
    var flags := Consenting(w, THREE_NODE_ATTEMPT, [None, Some(TWO_NODE)], net);
    assert flags == [false, true] && flags[1..] == [true] && flags[1..][1..] == [];
    assert Count(flags[1..]) == 1;
  }

  /** Any first peer that serves neither endpoint spoils the attempt. */
  lemma FirstPeerSpoils(w: World, a: Attempt, net: Network)
    requires PriceMsg(Params(w, a)).Ok? && Readable(Peers(w.info.selectedOracles, a.addr), net)
    requires |w.info.selectedOracles| >= 2 && net.order != []
    requires net.replies[net.order[0]] == Replies(NotServed, NotServed)
    ensures Spoiled(w, a, net)
  {
    LegacyExists(w, a);
    var results := Answers(Peers(w.info.selectedOracles, a.addr), TheRequest(w, a), net);
    assert results[..0] == [] && |Present(results[..0])| < |w.info.selectedOracles| / 2;
  }

  /** Concretely: in a round of three, the chosen oracle needs one signature and c gives it, in time; but b, which
      serves neither endpoint, completes first, and gathering raises. */
  lemma OnePeerSpoilsRound(w: World) returns (net: Network)
    requires SmallWorld(w, THREE_INFO)
    ensures var (a, nodes) := (THREE_NODE_ATTEMPT, [None, Some(TWO_NODE)]);
            && MayPublish(w, a) && Signable(w, a) && Answering(w, a, nodes, net) && !net.deadline
            && Count(Consenting(w, a, nodes, net)) >= |w.info.selectedOracles| / 2
            && Gather(w.info.selectedOracles, TheRequest(w, a), Ours(w, a), net) == Err(NoSortKey)
  {
    BitcoinSignable(w, THREE_NODE_ATTEMPT);
    ThreeNodesAgree(w);
    net := BothPeersComplete(w);
    TwoPeers();
    OneOfTwoConsents(w, net);
    FirstPeerSpoils(w, THREE_NODE_ATTEMPT, net);
    HexAddress("a");
    AgreeingMajorityPublishesIff(w, THREE_NODE_ATTEMPT, [None, Some(TWO_NODE)], net, 1010, 30);
  }

  // ----- Their price

  const ONE_QUOTE := Quote("x", Some(200.0), 1.0, 1.0, 1.0)
  const ONE_FEED := Feed([ONE_QUOTE], ["x"], 1, 0.5, 0.5)
  const ONE_MARKET := Market(200.0, 200.0, 0)

  lemma OneQueue()
    ensures QueuesOf(ONE_FEED.received, ONE_FEED.names, ONE_FEED.queueLen) == [[AsItem(ONE_QUOTE)]]
  {
    SentByAppend([], ONE_QUOTE, "x");
    assert [] + [ONE_QUOTE] == ONE_FEED.received;
    assert SentBy(ONE_FEED.received, "x") == [] + [AsItem(ONE_QUOTE)];
    assert [] + [AsItem(ONE_QUOTE)] == [AsItem(ONE_QUOTE)];
  }

  lemma OneSurvivor()
    ensures Survivors([[AsItem(ONE_QUOTE)]], 1.0, 0.5) == [ONE_QUOTE]
  {
    var queues := [[AsItem(ONE_QUOTE)]];
    var k := NearestIsRight(queues[0], 1.0);
    SurvivorsStep(queues, 0, 1.0, 0.5);
    assert queues[..1] == queues && queues[..0] == [];
    assert Survivors([], 1.0, 0.5) + [ONE_QUOTE] == [ONE_QUOTE];
  }

  lemma OneQuoteIsMajority()
    ensures MajorityWithin([ONE_QUOTE], 200.0, 200.0)
  {
    var entries := AsEntries([ONE_QUOTE]);
    assert |entries| == 1 && entries[0].value == 200.0 && entries[0].weight == 1.0;
  }

  lemma OnePrice()
    ensures PriceFrom([ONE_QUOTE], 0) == Ok(Some(LATE_PRICE))
  {
    OneQuoteIsMajority();
    ChosenQuote([ONE_QUOTE]);
    assert Pow10(0) == 1.0;
  }

  /** The price of both nodes of that round is the one a single exchange quoted to each of them. */
  lemma TwoNodesPriced(w: World)
    requires SmallWorld(w, LATE_INFO)
    ensures RobustPeer(w, TWO_NODE_ATTEMPT, ONE_FEED, 1.0, TWO_NODE, ONE_FEED, ONE_MARKET)
  {
    OneQueue();
    OneSurvivor();
    OneQuoteIsMajority();
    OnePrice();
    TwoNodesAgree(w);
    assert Lowest(ONE_MARKET) == 200 && Highest(ONE_MARKET) == 200;
  }
}
