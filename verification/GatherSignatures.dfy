/** Collecting co-signatures and deciding to publish
    (servers/oracle/src/oracle_coin_pair_loop.py). */
module GatherSignatures {
  import opened Prelude
  import opened Encoding
  import opened Messages
  import opened SelectNext
  import opened OracleTurn
  import opened RequestValidation

  // ----- One peer

  /** What one POST to a peer brings: a decodable signature, status 404 or 405, or anything else. */
  datatype Reply = SignatureBytes(signature: Signature) | NotServed | NoSignature

  /** What a peer would answer on the current and on the legacy endpoint. */
  datatype Replies = Replies(current: Reply, legacy: Reply)

  datatype OracleSignature = OracleSignature(addr: string, signature: Signature)

  /** A gathered element: a signature, or the object that marks an endpoint as unsupported. */
  datatype Collected = Signed(sig: OracleSignature) | EndpointUnsupported

  /** What the publisher asks for; the legacy message exists when the message has an expiration. */
  datatype Request = Request(message: string, legacyMessage: Option<string>, verify: Verifier)

  function SignatureOnce(addr: string, message: string, reply: Reply, verify: Verifier): Option<Collected> {
    match reply
    case NotServed => Some(EndpointUnsupported)
    case NoSignature => None
    case SignatureBytes(s) => if verify(addr, message, s) then Some(Signed(OracleSignature(addr, s))) else None
  }

  function GetSignature(addr: string, request: Request, replies: Replies): Option<Collected> {
    var first := SignatureOnce(addr, request.message, replies.current, request.verify);
    if first != Some(EndpointUnsupported) then first
    else if request.legacyMessage.None? then None
    else SignatureOnce(addr, request.legacyMessage.value, replies.legacy, request.verify)
  }

  /** A peer's signature is taken exactly when the current endpoint gave it and it verifies on the message or, where
      that endpoint is not served, the legacy one gave it and it verifies on the legacy message. */
  lemma GetSignatureIff(addr: string, request: Request, replies: Replies, sig: OracleSignature)
    ensures GetSignature(addr, request, replies) == Some(Signed(sig)) <==>
              && sig.addr == addr
              && (|| (replies.current == SignatureBytes(sig.signature)
                      && request.verify(addr, request.message, sig.signature))
                  || (&& replies.current == NotServed && request.legacyMessage.Some?
                      && replies.legacy == SignatureBytes(sig.signature)
                      && request.verify(addr, request.legacyMessage.value, sig.signature)))
  {}

  /** The signature counts for the message itself or, where only that was served, for its legacy form. */
  predicate Genuine(request: Request, sig: OracleSignature) {
    || request.verify(sig.addr, request.message, sig.signature)
    || (request.legacyMessage.Some? && request.verify(sig.addr, request.legacyMessage.value, sig.signature))
  }

  // ----- The gathering loop

  datatype GatherError = DeadlinePassed | NoSortKey

  /** `results` are the peers' answers in the order they complete; with `deadline` the time is up
      before the remaining peers answer. */
  function Collect(sigs: seq<Collected>, results: seq<Option<Collected>>, needed: nat, deadline: bool)
    : Result<seq<Collected>, GatherError>
    decreases |results|
  {
    if results == [] then if deadline then Err(DeadlinePassed) else Ok(sigs)
    else
      var more := if results[0].Some? then sigs + [results[0].value] else sigs;
      if |more| >= needed then Ok(more) else Collect(more, results[1..], needed, deadline)
  }

  function Present(results: seq<Option<Collected>>): seq<Collected> {
    if results == [] then [] else (if results[0].Some? then [results[0].value] else []) + Present(results[1..])
  }

  /** The loop keeps exactly the first `needed` answers, and fails when the time is up before that many. */
  lemma {:induction false} CollectKeepsFirstNeeded(sigs: seq<Collected>, results: seq<Option<Collected>>,
        needed: nat, deadline: bool)
    requires |sigs| < needed
    ensures var all := sigs + Present(results);
            Collect(sigs, results, needed, deadline) ==
            if |all| >= needed then Ok(all[..needed]) else if deadline then Err(DeadlinePassed) else Ok(all)
    decreases |results|
  {
    if results == [] {
      assert sigs + [] == sigs;
    } else {
      var got := if results[0].Some? then [results[0].value] else [];
      var more := sigs + got;
      assert sigs + Present(results) == more + Present(results[1..]);
      assert got == [] ==> more == sigs;
      if |more| >= needed {
        assert (more + Present(results[1..]))[..needed] == more;
      } else {
        CollectKeepsFirstNeeded(more, results[1..], needed, deadline);
      }
    }
  }

  function SortKey(c: Collected): Option<nat> {
    match c
    case EndpointUnsupported => None
    case Signed(sig) => IntBase16(sig.addr)
  }

  function AddrNumber(sig: OracleSignature): nat {
    match IntBase16(sig.addr)
    case None => 0
    case Some(n) => n
  }

  function Signatures(cs: seq<Collected>): (sigs: seq<OracleSignature>)
    requires forall i :: 0 <= i < |cs| ==> cs[i].Signed?
    ensures |sigs| == |cs|
  {
    seq(|cs|, i requires 0 <= i < |cs| => cs[i].sig)
  }

  function InsertByAddr(sorted: seq<OracleSignature>, x: OracleSignature): (r: seq<OracleSignature>)
    ensures |r| == |sorted| + 1
  {
    if sorted == [] || AddrNumber(sorted[|sorted| - 1]) <= AddrNumber(x) then sorted + [x]
    else InsertByAddr(sorted[..|sorted| - 1], x) + [sorted[|sorted| - 1]]
  }

  /** `sorted(..., key=...)`, which is stable. */
  function SortByAddr(s: seq<OracleSignature>): (r: seq<OracleSignature>)
    ensures |r| == |s|
  {
    if s == [] then [] else InsertByAddr(SortByAddr(s[..|s| - 1]), s[|s| - 1])
  }

  ghost predicate Ascending(s: seq<OracleSignature>) {
    forall i, j :: 0 <= i < j < |s| ==> AddrNumber(s[i]) <= AddrNumber(s[j])
  }

  lemma {:induction false} InsertAdds(sorted: seq<OracleSignature>, x: OracleSignature)
    ensures multiset(InsertByAddr(sorted, x)) == multiset(sorted) + multiset{x}
  {
    if sorted != [] && AddrNumber(sorted[|sorted| - 1]) > AddrNumber(x) {
      var init, last := sorted[..|sorted| - 1], sorted[|sorted| - 1];
      InsertAdds(init, x);
      assert sorted == init + [last];
    }
  }

  /** Where an element of an extended collection comes from. */
  lemma OldOrNew(r: seq<OracleSignature>, s: seq<OracleSignature>, x: OracleSignature, i: nat)
    requires multiset(r) == multiset(s) + multiset{x} && i < |r|
    ensures r[i] in s || r[i] == x
  {
    assert r[i] in multiset(r);
  }

  lemma AppendLargest(r: seq<OracleSignature>, last: OracleSignature)
    requires Ascending(r) && forall i :: 0 <= i < |r| ==> AddrNumber(r[i]) <= AddrNumber(last)
    ensures Ascending(r + [last])
  {}

  lemma {:induction false} InsertKeepsOrder(sorted: seq<OracleSignature>, x: OracleSignature)
    requires Ascending(sorted)
    ensures Ascending(InsertByAddr(sorted, x)) && multiset(InsertByAddr(sorted, x)) == multiset(sorted) + multiset{x}
  {
    InsertAdds(sorted, x);
    if sorted == [] || AddrNumber(sorted[|sorted| - 1]) <= AddrNumber(x) {
      AppendLargest(sorted, x);
    } else {
      var init, last := sorted[..|sorted| - 1], sorted[|sorted| - 1];
      var r := InsertByAddr(init, x);
      InsertKeepsOrder(init, x);
      forall i | 0 <= i < |r| ensures AddrNumber(r[i]) <= AddrNumber(last) {
        OldOrNew(r, init, x, i);
      }
      AppendLargest(r, last);
    }
  }

  lemma {:induction false} SortIsSorted(s: seq<OracleSignature>)
    ensures Ascending(SortByAddr(s)) && multiset(SortByAddr(s)) == multiset(s)
  {
    if s != [] {
      SortIsSorted(s[..|s| - 1]);
      InsertKeepsOrder(SortByAddr(s[..|s| - 1]), s[|s| - 1]);
      assert s == s[..|s| - 1] + [s[|s| - 1]];
    }
  }

  /** The other oracles, in the order of the list. */
  function Peers(oracles: seq<OracleInfo>, own: string): seq<string> {
    if oracles == [] then [] else
      Peers(oracles[..|oracles| - 1], own)
      + if oracles[|oracles| - 1].addr != own then [oracles[|oracles| - 1].addr] else []
  }

  /** What the network does: the peers' replies, the order in which they complete, and whether the
      deadline cuts off the rest. */
  datatype Network = Network(replies: seq<Replies>, order: seq<nat>, deadline: bool)

  ghost predicate Plausible(peers: seq<string>, net: Network) {
    && |net.replies| == |peers|
    && Distinct(net.order) && (forall i :: 0 <= i < |net.order| ==> net.order[i] < |peers|)
    && (net.deadline <==> |net.order| < |peers|)
  }

  predicate Readable(peers: seq<string>, net: Network) {
    |net.replies| == |peers| && forall i :: 0 <= i < |net.order| ==> net.order[i] < |peers|
  }

  function Answers(peers: seq<string>, request: Request, net: Network): (results: seq<Option<Collected>>)
    requires Readable(peers, net)
    ensures |results| == |net.order|
  {
    seq(|net.order|, i requires 0 <= i < |net.order| => GetSignature(peers[net.order[i]], request,
                                                                     net.replies[net.order[i]]))
  }

  /** `gather_signatures`, before the addresses are dropped. */
  function Gather(oracles: seq<OracleInfo>, request: Request, own: OracleSignature, net: Network)
    : Result<seq<OracleSignature>, GatherError>
    requires Readable(Peers(oracles, own.addr), net)
  {
    match Collect([], Answers(Peers(oracles, own.addr), request, net), |oracles| / 2, net.deadline)
    case Err(e) => Err(e)
    case Ok(cs) => Arrange(cs + [Signed(own)])
  }

  function Arrange(cs: seq<Collected>): Result<seq<OracleSignature>, GatherError> {
    if exists i :: 0 <= i < |cs| && SortKey(cs[i]).None? then Err(NoSortKey) else
      assert forall i :: 0 <= i < |cs| ==> SortKey(cs[i]).Some?;
      Ok(SortByAddr(Signatures(cs)))
  }

  method GatherSignatures(oracles: seq<OracleInfo>, request: Request, own: OracleSignature, net: Network)
    returns (r: Result<seq<Signature>, GatherError>)
    requires Readable(Peers(oracles, own.addr), net)
    ensures match Gather(oracles, request, own, net)
            case Err(e) => r == Err(e)
            case Ok(sigs) => r.Ok? && |r.value| == |sigs| && forall i :: 0 <= i < |sigs| ==>
                r.value[i] == sigs[i].signature
  {
    var peers := Peers(oracles, own.addr);
    ghost var results := Answers(peers, request, net);
    var needed := |oracles| / 2;
    var sigs: seq<Collected> := [];
    var i, done := 0, false;
    while i < |net.order| && !done
      invariant 0 <= i <= |net.order|
      invariant if done then Collect([], results, needed, net.deadline) == Ok(sigs)
                else Collect([], results, needed, net.deadline) == Collect(sigs, results[i..], needed, net.deadline)
      decreases |net.order| - i
    {
      var sig := GetSignature(peers[net.order[i]], request, net.replies[net.order[i]]);
      assert results[i..][0] == sig && results[i..][1..] == results[i + 1..];
      if sig.Some? {
        sigs := sigs + [sig.value];
      }
      done := |sigs| >= needed;
      i := i + 1;
    }
    if !done && net.deadline {
      return Err(DeadlinePassed);
    }
    sigs := sigs + [Signed(own)];
    var sorted := Arrange(sigs);
    if sorted.Err? {
      return Err(sorted.error);
    }
    r := Ok(seq(|sorted.value|, k requires 0 <= k < |sorted.value| => sorted.value[k].signature));
  }
}
