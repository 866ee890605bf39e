/** What a gathered set of signatures guarantees, when a publication goes out, and how far apart two
    published prices can be (servers/oracle/src/oracle_coin_pair_loop.py). */
module Quorum {
  import opened Prelude
  import opened Encoding
  import opened Messages
  import opened SelectNext
  import opened OracleTurn
  import opened RequestValidation
  import opened GatherSignatures
  import Helpers

  // ----- Who is in the set

  lemma {:induction false} PeersAreOthers(oracles: seq<OracleInfo>, own: string)
    requires Distinct(Addresses(oracles))
    ensures Distinct(Peers(oracles, own))
    ensures forall a :: a in Peers(oracles, own) <==> a in Addresses(oracles) && a != own
  {
    if oracles != [] {
      var init, last := oracles[..|oracles| - 1], oracles[|oracles| - 1].addr;
      assert Addresses(oracles) == Addresses(init) + [last];
      assert Distinct(Addresses(init)) by {
        assert forall i :: 0 <= i < |init| ==> Addresses(init)[i] == Addresses(oracles)[i];
      }
      PeersAreOthers(init, own);
      assert last !in Addresses(init);
    }
  }

  /** Where each gathered answer came from: strictly increasing positions among the completions. */
  ghost predicate DrawnFrom(cs: seq<Collected>, idx: seq<nat>, results: seq<Option<Collected>>) {
    && |idx| == |cs|
    && (forall m :: 0 <= m < |idx| ==> idx[m] < |results| && results[idx[m]] == Some(cs[m]))
    && (forall m, n :: 0 <= m < n < |idx| ==> idx[m] < idx[n])
  }

  lemma DrawnLater(cs: seq<Collected>, idx: seq<nat>, results: seq<Option<Collected>>, first: Option<Collected>)
    returns (shifted: seq<nat>)
    requires DrawnFrom(cs, idx, results)
    ensures DrawnFrom(cs, shifted, [first] + results) && forall m :: 0 <= m < |shifted| ==> shifted[m] > 0
  {
    shifted := seq(|idx|, m requires 0 <= m < |idx| => idx[m] + 1);
    forall m | 0 <= m < |shifted| ensures shifted[m] < |results| + 1 && ([first] + results)[shifted[m]] == Some(cs[m]) {
      assert ([first] + results)[idx[m] + 1] == results[idx[m]];
    }
  }

  lemma DrawnFirst(cs: seq<Collected>, idx: seq<nat>, results: seq<Option<Collected>>)
    requires DrawnFrom(cs, idx, results) && results != [] && results[0].Some?
    requires forall m :: 0 <= m < |idx| ==> idx[m] > 0
    ensures DrawnFrom([results[0].value] + cs, [0] + idx, results)
  {
    var cs', idx' := [results[0].value] + cs, [0] + idx;
    assert forall m :: 0 < m < |idx'| ==> idx'[m] == idx[m - 1] && cs'[m] == cs[m - 1];
  }

  lemma {:induction false} PresentIsDrawn(results: seq<Option<Collected>>) returns (idx: seq<nat>)
    ensures DrawnFrom(Present(results), idx, results)
  {
    idx := [];
    if results != [] {
      var rest := PresentIsDrawn(results[1..]);
      assert [results[0]] + results[1..] == results;
      idx := DrawnLater(Present(results[1..]), rest, results[1..], results[0]);
      if results[0].Some? {
        DrawnFirst(Present(results[1..]), idx, results);
        idx := [0] + idx;
      } else {
        assert [] + Present(results[1..]) == Present(results[1..]);
      }
    }
  }

  lemma PrefixIsDrawn(cs: seq<Collected>, idx: seq<nat>, results: seq<Option<Collected>>, n: nat)
    requires DrawnFrom(cs, idx, results) && n <= |cs|
    ensures DrawnFrom(cs[..n], idx[..n], results)
  {}

  /** Whatever the loop collects is drawn from the completions. */
  lemma CollectedIsDrawn(results: seq<Option<Collected>>, needed: nat, deadline: bool) returns (idx: seq<nat>)
    requires Collect([], results, needed, deadline).Ok?
    ensures DrawnFrom(Collect([], results, needed, deadline).value, idx, results)
  {
    var cs := Collect([], results, needed, deadline).value;
    if results == [] {
      idx := [];
    } else if needed == 0 {
      idx := if results[0].Some? then [0] else [];
    } else {
      CollectKeepsFirstNeeded([], results, needed, deadline);
      idx := PresentIsDrawn(results);
      assert [] + Present(results) == Present(results);
      if |Present(results)| >= needed {
        PrefixIsDrawn(Present(results), idx, results, needed);
        idx := idx[..needed];
      }
    }
  }

  ghost predicate SignedBy(cs: seq<Collected>) {
    forall i :: 0 <= i < |cs| ==> cs[i].Signed?
  }

  ghost predicate DistinctSigners(sigs: seq<OracleSignature>) {
    forall i, j :: 0 <= i < j < |sigs| ==> sigs[i].addr != sigs[j].addr
  }

  /** Each collected signature is one peer's own, verified, and no peer appears twice. */
  lemma CollectedAreDistinctPeers(peers: seq<string>, request: Request, net: Network, cs: seq<Collected>, idx: seq<nat>)
    requires Distinct(peers) && Plausible(peers, net)
    requires DrawnFrom(cs, idx, Answers(peers, request, net)) && SignedBy(cs)
    ensures forall i :: 0 <= i < |cs| ==> cs[i].sig.addr in peers && Genuine(request, cs[i].sig)
    ensures DistinctSigners(Signatures(cs))
  {
    forall i | 0 <= i < |cs| ensures cs[i].sig.addr == peers[net.order[idx[i]]] && Genuine(request, cs[i].sig) {
      AnswerIsGenuine(peers[net.order[idx[i]]], request, net.replies[net.order[idx[i]]]);
      assert Answers(peers, request, net)[idx[i]] == Some(cs[i]);
    }
    forall i, j | 0 <= i < j < |cs| ensures cs[i].sig.addr != cs[j].sig.addr {
      assert net.order[idx[i]] != net.order[idx[j]];
      DifferentPeers(peers, net.order[idx[i]], net.order[idx[j]]);
    }
  }

  lemma DifferentPeers(peers: seq<string>, a: nat, b: nat)
    requires Distinct(peers) && a < |peers| && b < |peers| && a != b
    ensures peers[a] != peers[b]
  {}

  lemma AnswerIsGenuine(addr: string, request: Request, replies: Replies)
    ensures var c := GetSignature(addr, request, replies);
            c.Some? && c.value.Signed? ==> c.value.sig.addr == addr && Genuine(request, c.value.sig)
  {}

  lemma MultisetAddresses(a: seq<OracleSignature>, b: seq<OracleSignature>)
    requires multiset(a) == multiset(b)
    ensures forall x :: x in a <==> x in b
    ensures |a| == |b|
  {
    forall x ensures x in a <==> x in b {
      assert x in multiset(a) <==> x in a;
      assert x in multiset(b) <==> x in b;
    }
    assert |multiset(a)| == |a| && |multiset(b)| == |b|;
  }

  /** A rearrangement of signatures by different oracles is by different oracles. */
  lemma {:induction false} RearrangedDistinct(a: seq<OracleSignature>, b: seq<OracleSignature>)
    requires multiset(a) == multiset(b) && DistinctSigners(a)
    ensures DistinctSigners(b)
    decreases |a|
  {
    if a != [] {
      var k := PermutationStep(a, b);
      var rest := RemoveAt(b, k);
      var init := a[..|a| - 1];
      RearrangedDistinct(init, rest);
      MultisetAddresses(init, rest);
      RestoreDistinct(b, k);
    }
  }

  lemma RestoreDistinct(b: seq<OracleSignature>, k: nat)
    requires k < |b| && DistinctSigners(RemoveAt(b, k))
    requires forall x :: x in RemoveAt(b, k) ==> x.addr != b[k].addr
    ensures DistinctSigners(b)
  {
    var rest := RemoveAt(b, k);
    forall i, j | 0 <= i < j < |b| ensures b[i].addr != b[j].addr {
      var i', j' := if i < k then i else i - 1, if j < k then j else j - 1;
      if i == k {
        assert rest[j'] == b[j] && rest[j'] in rest;
      } else if j == k {
        assert rest[i'] == b[i] && rest[i'] in rest;
      } else {
        assert rest[i'] == b[i] && rest[j'] == b[j];
      }
    }
  }

  /** Our own signature, or a genuine one of another oracle of the round. */
  ghost predicate OwnOrGenuine(oracles: seq<OracleInfo>, request: Request, own: OracleSignature, s: OracleSignature) {
    s == own || (s.addr in Addresses(oracles) && s.addr != own.addr && Genuine(request, s))
  }

  ghost predicate GoodSet(oracles: seq<OracleInfo>, request: Request, own: OracleSignature, sigs: seq<OracleSignature>)
  {
    && own in sigs && (forall s :: s in sigs ==> OwnOrGenuine(oracles, request, own, s))
    && DistinctSigners(sigs) && Ascending(sigs)
  }

  /** A gathered set holds our own signature and genuine signatures of other oracles of the round, each
      by a different oracle, in ascending order of address as the contract wants them. */
  lemma {:induction false} GatheredAreGenuine(oracles: seq<OracleInfo>, request: Request, own: OracleSignature,
                                              net: Network)
    requires Distinct(Addresses(oracles)) && Plausible(Peers(oracles, own.addr), net)
    requires Gather(oracles, request, own, net).Ok?
    ensures GoodSet(oracles, request, own, Gather(oracles, request, own, net).value)
  {
    var peers := Peers(oracles, own.addr);
    PeersAreOthers(oracles, own.addr);
    var results := Answers(peers, request, net);
    var cs := Collect([], results, |oracles| / 2, net.deadline).value;
    var idx := CollectedIsDrawn(results, |oracles| / 2, net.deadline);
    AllSigned(cs, own);
    CollectedAreDistinctPeers(peers, request, net, cs, idx);
    OwnJoins(oracles, request, own, cs);
  }

  /** Ascending order is that of the addresses' numbers, all of which exist. */
  lemma {:induction false} GatheredAscend(oracles: seq<OracleInfo>, request: Request, own: OracleSignature,
                                          net: Network, i: nat, j: nat)
    requires Distinct(Addresses(oracles)) && Plausible(Peers(oracles, own.addr), net)
    requires Gather(oracles, request, own, net).Ok? && i < j < |Gather(oracles, request, own, net).value|
    ensures var sigs := Gather(oracles, request, own, net).value;
            && IntBase16(sigs[i].addr).Some? && IntBase16(sigs[j].addr).Some?
            && IntBase16(sigs[i].addr).value <= IntBase16(sigs[j].addr).value
  {
    GatheredAreGenuine(oracles, request, own, net);
    GatherKeeps(oracles, request, own, net);
    var kept := Kept(Answers(Peers(oracles, own.addr), request, net), |oracles| / 2);
    AllSigned(kept, own);
    ArrangedAreNumbers(kept, own, i);
    ArrangedAreNumbers(kept, own, j);
  }

  lemma ArrangedAreNumbers(cs: seq<Collected>, own: OracleSignature, i: nat)
    requires Arrange(cs + [Signed(own)]).Ok? && i < |Arrange(cs + [Signed(own)]).value|
    ensures IntBase16(Arrange(cs + [Signed(own)]).value[i].addr).Some?
  {
    AllSigned(cs, own);
    ArrangeOkIff(cs, own);
    var all, sorted := Signatures(cs) + [own], SortByAddr(Signatures(cs) + [own]);
    SortIsSorted(all);
    MultisetAddresses(all, sorted);
    assert sorted[i] in sorted;
    var k :| 0 <= k < |all| && all[k] == sorted[i];
    if k < |cs| {
      assert SortKey(cs[k]) == IntBase16(all[k].addr);
    }
  }

  lemma AllSigned(cs: seq<Collected>, own: OracleSignature)
    requires Arrange(cs + [Signed(own)]).Ok?
    ensures SignedBy(cs) && Arrange(cs + [Signed(own)]).value == SortByAddr(Signatures(cs) + [own])
  {
    var all := cs + [Signed(own)];
    forall i | 0 <= i < |cs| ensures cs[i].Signed? {
      assert all[i] == cs[i] && SortKey(all[i]).Some?;
    }
    assert Signatures(all) == Signatures(cs) + [own];
  }

  lemma {:induction false} SortedStaysGood(oracles: seq<OracleInfo>, request: Request, own: OracleSignature,
                                           all: seq<OracleSignature>)
    requires own in all && DistinctSigners(all) && forall s :: s in all ==> OwnOrGenuine(oracles, request, own, s)
    ensures GoodSet(oracles, request, own, SortByAddr(all))
  {
    SortIsSorted(all);
    MultisetAddresses(all, SortByAddr(all));
    RearrangedDistinct(all, SortByAddr(all));
  }

  lemma OwnJoins(oracles: seq<OracleInfo>, request: Request, own: OracleSignature, cs: seq<Collected>)
    requires SignedBy(cs) && DistinctSigners(Signatures(cs))
    requires forall i :: 0 <= i < |cs| ==>
               cs[i].sig.addr in Addresses(oracles) && cs[i].sig.addr != own.addr && Genuine(request, cs[i].sig)
    ensures GoodSet(oracles, request, own, SortByAddr(Signatures(cs) + [own]))
  {
    var all := Signatures(cs) + [own];
    assert all[|cs|] == own && forall i :: 0 <= i < |cs| ==> all[i] == cs[i].sig;
    assert forall i :: 0 <= i < |all| ==> OwnOrGenuine(oracles, request, own, all[i]);
    SortedStaysGood(oracles, request, own, all);
  }

  // ----- When a publication goes out

  datatype Publication = NotEnoughSignatures | TooCloseToExpiration | Send(sigs: seq<OracleSignature>)

  /** The gates of `publish`, with `now` for the clock. */
  function Publish(oracles: seq<OracleInfo>, gathered: seq<OracleSignature>, expiration: Option<int>, now: int,
                   minValidity: int): Publication
  {
    if |gathered| < |oracles| / 2 + 1 then NotEnoughSignatures
    else if expiration.Some? && expiration.value - now < minValidity then TooCloseToExpiration
    else Send(gathered)
  }

  /** The answers that gathering keeps: the first n / 2 that bring something or, when n / 2 is zero, whatever
      the first peer to complete brings. */
  function Kept(results: seq<Option<Collected>>, needed: nat): seq<Collected> {
    var looked := if needed == 0 && |results| > 0 then results[..1] else results;
    var answered := Present(looked);
    if needed > 0 && |answered| >= needed then answered[..needed] else answered
  }

  /** The deadline does not pass while an answer is still waited for. */
  predicate InTime(results: seq<Option<Collected>>, needed: nat, deadline: bool) {
    !deadline || if needed == 0 then |results| > 0 else |Present(results)| >= needed
  }

  lemma FirstPresent(results: seq<Option<Collected>>)
    requires results != []
    ensures Present(results[..1]) == if results[0].Some? then [results[0].value] else []
  {
    var one := results[..1];
    assert one[1..] == [] && one[0] == results[0] && Present([]) == [];
    assert Present(one) == (if one[0].Some? then [one[0].value] else []) + Present(one[1..]);
  }

  lemma {:induction false} CollectKeeps(results: seq<Option<Collected>>, needed: nat, deadline: bool)
    ensures Collect([], results, needed, deadline)
            == if InTime(results, needed, deadline) then Ok(Kept(results, needed)) else Err(DeadlinePassed)
  {
    assert [] + Present(results) == Present(results);
    if needed > 0 {
      CollectKeepsFirstNeeded([], results, needed, deadline);
    } else if results != [] {
      FirstPresent(results);
      assert results[0].Some? ==> [] + [results[0].value] == [results[0].value];
    }
  }

  lemma {:induction false} GatherKeeps(oracles: seq<OracleInfo>, request: Request, own: OracleSignature, net: Network)
    requires Readable(Peers(oracles, own.addr), net)
    ensures var (results, needed) := (Answers(Peers(oracles, own.addr), request, net), |oracles| / 2);
            Gather(oracles, request, own, net) ==
            if InTime(results, needed, net.deadline)
            then Arrange(Kept(results, needed) + [Signed(own)])
            else Err(DeadlinePassed)
  {
    CollectKeeps(Answers(Peers(oracles, own.addr), request, net), |oracles| / 2, net.deadline);
  }

  /** A publication goes out exactly when n / 2 peers answer before the deadline (for n < 2: when the one peer
      there may be completes), every address kept can be sorted, so that no answer kept is the mark of an
      unsupported endpoint, and the expiration is far enough. A gathered set never exceeds n / 2 + 1
      signatures for n >= 2, and two otherwise. */
  lemma {:induction false} SendsIff(oracles: seq<OracleInfo>, request: Request, own: OracleSignature, net: Network,
                                    expiration: Option<int>, now: int, minValidity: int)
    requires Readable(Peers(oracles, own.addr), net)
    ensures var (results, needed) := (Answers(Peers(oracles, own.addr), request, net), |oracles| / 2);
            var (kept, gathered) := (Kept(results, needed), Gather(oracles, request, own, net));
            && ((gathered.Ok? && Publish(oracles, gathered.value, expiration, now, minValidity).Send?) <==>
                  && InTime(results, needed, net.deadline) && |kept| >= needed
                  && SortKey(Signed(own)).Some? && (forall i :: 0 <= i < |kept| ==> SortKey(kept[i]).Some?)
                  && (expiration.Some? ==> expiration.value - now >= minValidity))
            && (gathered.Ok? ==> |gathered.value| <= if needed == 0 then 2 else needed + 1)
  {
    var results, needed := Answers(Peers(oracles, own.addr), request, net), |oracles| / 2;
    GatherKeeps(oracles, request, own, net);
    ArrangeOkIff(Kept(results, needed), own);
    KeptSize(results, needed);
  }

  lemma {:induction false} KeptSize(results: seq<Option<Collected>>, needed: nat)
    ensures |Kept(results, needed)| <= if needed == 0 then 1 else needed
    ensures needed > 0 && |Present(results)| >= needed ==> |Kept(results, needed)| == needed
  {
    if needed == 0 && results != [] {
      FirstPresent(results);
    }
  }

  /** Neither endpoint is served: both answer 404 or 405. */
  predicate Unsupported(request: Request, replies: Replies) {
    replies.current.NotServed? && request.legacyMessage.Some? && replies.legacy.NotServed?
  }

  lemma AnswerIsMarkIff(addr: string, request: Request, replies: Replies)
    requires IntBase16(addr).Some?
    ensures var c := GetSignature(addr, request, replies);
            c.Some? ==> (SortKey(c.value).None? <==> Unsupported(request, replies))
    ensures Unsupported(request, replies) ==> GetSignature(addr, request, replies) == Some(EndpointUnsupported)
  {}

  /** A peer that serves neither endpoint completes before `needed` others have brought anything. */
  ghost predicate MarkedEarly(peers: seq<string>, request: Request, net: Network, needed: nat)
    requires Readable(peers, net)
  {
    exists j :: 0 <= j < |net.order| && Unsupported(request, net.replies[net.order[j]])
                && |Present(Answers(peers, request, net)[..j])| < needed
  }

  /** An answer's place among those that bring something. */
  lemma {:induction false} PresentAt(results: seq<Option<Collected>>, j: nat)
    requires j < |results| && results[j].Some?
    ensures var k := |Present(results[..j])|; k < |Present(results)| && Present(results)[k] == results[j].value
  {
    if j > 0 {
      PresentAt(results[1..], j - 1);
      assert results[..j][1..] == results[1..][..j - 1];
    }
  }

  /** Which answer an element of the list came from. */
  lemma {:induction false} PresentFrom(results: seq<Option<Collected>>, k: nat) returns (j: nat)
    requires k < |Present(results)|
    ensures j < |results| && results[j] == Some(Present(results)[k]) && |Present(results[..j])| == k
  {
    if results[0].Some? && k == 0 {
      j := 0;
    } else {
      j := PresentFrom(results[1..], if results[0].Some? then k - 1 else k);
      j := j + 1;
      assert results[..j][1..] == results[1..][..j - 1];
    }
  }

  /** The answers kept cannot be sorted exactly when a peer serving neither endpoint was among the first. */
  lemma {:induction false} KeptMarkIff(peers: seq<string>, request: Request, net: Network, needed: nat)
    requires Readable(peers, net) && forall i :: 0 <= i < |peers| ==> IntBase16(peers[i]).Some?
    requires 0 < needed <= |Present(Answers(peers, request, net))|
    ensures var kept := Kept(Answers(peers, request, net), needed);
            (exists i :: 0 <= i < |kept| && SortKey(kept[i]).None?) <==> MarkedEarly(peers, request, net, needed)
  {
    var results := Answers(peers, request, net);
    var kept := Kept(results, needed);
    if MarkedEarly(peers, request, net, needed) {
      var j :| 0 <= j < |net.order| && Unsupported(request, net.replies[net.order[j]])
               && |Present(results[..j])| < needed;
      AnswerIsMarkIff(peers[net.order[j]], request, net.replies[net.order[j]]);
      PresentAt(results, j);
      assert SortKey(kept[|Present(results[..j])|]).None?;
    }
    if i :| 0 <= i < |kept| && SortKey(kept[i]).None? {
      var j := PresentFrom(results, i);
      AnswerIsMarkIff(peers[net.order[j]], request, net.replies[net.order[j]]);
    }
  }

  /** The attempt gathers a full set and sends it. */
  ghost predicate SendsFullSet(oracles: seq<OracleInfo>, request: Request, own: OracleSignature, net: Network,
                               expiration: Option<int>, now: int, minValidity: int)
    requires Readable(Peers(oracles, own.addr), net)
  {
    var gathered := Gather(oracles, request, own, net);
    && gathered.Ok? && |gathered.value| == |oracles| / 2 + 1
    && Publish(oracles, gathered.value, expiration, now, minValidity) == Send(gathered.value)
  }

  /** Enough answers in time make a full set that is sent, unless a peer that serves neither endpoint is among
      the first of them: then sorting raises, however many others signed. */
  lemma {:induction false} EnoughAnswersSendIff(oracles: seq<OracleInfo>, request: Request, own: OracleSignature,
                                                net: Network, expiration: Option<int>, now: int, minValidity: int)
    requires |oracles| >= 2 && Readable(Peers(oracles, own.addr), net) && SortKey(Signed(own)).Some?
    requires forall i :: 0 <= i < |Peers(oracles, own.addr)| ==> IntBase16(Peers(oracles, own.addr)[i]).Some?
    requires |Present(Answers(Peers(oracles, own.addr), request, net))| >= |oracles| / 2
    requires expiration.Some? ==> expiration.value - now >= minValidity
    ensures SendsFullSet(oracles, request, own, net, expiration, now, minValidity)
            <==> !MarkedEarly(Peers(oracles, own.addr), request, net, |oracles| / 2)
    ensures MarkedEarly(Peers(oracles, own.addr), request, net, |oracles| / 2)
            <==> Gather(oracles, request, own, net) == Err(NoSortKey)
  {
    KeptMarkIff(Peers(oracles, own.addr), request, net, |oracles| / 2);
    EnoughAnswersArranged(oracles, request, own, net);
    ArrangeOkIff(Kept(Answers(Peers(oracles, own.addr), request, net), |oracles| / 2), own);
  }

  lemma {:induction false} EnoughAnswersArranged(oracles: seq<OracleInfo>, request: Request, own: OracleSignature,
                                                 net: Network)
    requires |oracles| >= 2 && Readable(Peers(oracles, own.addr), net)
    requires |Present(Answers(Peers(oracles, own.addr), request, net))| >= |oracles| / 2
    ensures var kept := Kept(Answers(Peers(oracles, own.addr), request, net), |oracles| / 2);
            |kept| == |oracles| / 2 && Gather(oracles, request, own, net) == Arrange(kept + [Signed(own)])
  {
    GatherKeeps(oracles, request, own, net);
    KeptSize(Answers(Peers(oracles, own.addr), request, net), |oracles| / 2);
  }

  /** An oracle alone in its round publishes with its own signature only. */
  lemma {:induction false} LoneOracleSends(oracles: seq<OracleInfo>, request: Request, own: OracleSignature,
                                           net: Network, expiration: Option<int>, now: int, minValidity: int)
    requires |oracles| == 1 && oracles[0].addr == own.addr && SortKey(Signed(own)).Some?
    requires Plausible(Peers(oracles, own.addr), net)
    ensures Gather(oracles, request, own, net) == Ok([own])
    ensures Publish(oracles, [own], expiration, now, minValidity).Send? <==>
              (expiration.Some? ==> expiration.value - now >= minValidity)
  {
    assert oracles[..0] == [] && Peers(oracles, own.addr) == [];
    assert Collect([], Answers([], request, net), 0, net.deadline) == Ok([]);
    assert [] + [Signed(own)] == [Signed(own)] && Signatures([Signed(own)]) == [own];
    assert [own][..0] == [] && SortByAddr([own]) == [own];
  }

  lemma ArrangeOkIff(cs: seq<Collected>, own: OracleSignature)
    ensures Arrange(cs + [Signed(own)]).Ok?
            <==> SortKey(Signed(own)).Some? && forall i :: 0 <= i < |cs| ==> SortKey(cs[i]).Some?
    ensures Arrange(cs + [Signed(own)]).Ok? ==> |Arrange(cs + [Signed(own)]).value| == |cs| + 1
  {
    var all := cs + [Signed(own)];
    assert all[|cs|] == Signed(own) && forall i :: 0 <= i < |cs| ==> all[i] == cs[i];
  }

  /** Gathering raises while sorting exactly when it is in time and it kept an unsupported-endpoint mark or an
      address that is no number, or our own is none. */
  lemma {:induction false} GatherRaisesIff(oracles: seq<OracleInfo>, request: Request, own: OracleSignature,
                                           net: Network)
    requires Readable(Peers(oracles, own.addr), net)
    ensures var (results, needed) := (Answers(Peers(oracles, own.addr), request, net), |oracles| / 2);
            Gather(oracles, request, own, net) == Err(NoSortKey) <==>
              && InTime(results, needed, net.deadline)
              && (SortKey(Signed(own)).None?
                  || exists i :: 0 <= i < |Kept(results, needed)| && SortKey(Kept(results, needed)[i]).None?)
  {
    GatherKeeps(oracles, request, own, net);
    ArrangeOkIff(Kept(Answers(Peers(oracles, own.addr), request, net), |oracles| / 2), own);
  }

  /** Concretely: a peer that serves neither endpoint leaves its mark among the signatures, and the sort
      then raises where a missing signature would only have left the set too small. */
  lemma UnsupportedPeerBreaksGathering(verify: Verifier)
    ensures var oracles := [OracleInfo("0x1", 1, true), OracleInfo("0x2", 1, true)];
            var net := Network([Replies(NotServed, NotServed)], [0], false);
            var gathered := Gather(oracles, Request("4", Some("3"), verify), OracleSignature("0x1", "s"), net);
            Peers(oracles, "0x1") == ["0x2"] && gathered == Err(NoSortKey)
  {
    var oracles := [OracleInfo("0x1", 1, true), OracleInfo("0x2", 1, true)];
    assert oracles[..1] == [OracleInfo("0x1", 1, true)] && oracles[..1][..0] == [];
    assert Peers(oracles[..1], "0x1") == [];
    assert Peers(oracles, "0x1") == ["0x2"];
    var net := Network([Replies(NotServed, NotServed)], [0], false);
    var request := Request("4", Some("3"), verify);
    var results := Answers(["0x2"], request, net);
    assert results == [Some(EndpointUnsupported)];
    assert Present(results) == [EndpointUnsupported] by {
      assert results[1..] == [];
    }
    CollectKeepsFirstNeeded([], results, 1, false);
    assert ([] + Present(results))[..1] == [EndpointUnsupported];
    var cs := [EndpointUnsupported] + [Signed(OracleSignature("0x1", "s"))];
    assert SortKey(cs[0]).None?;
  }

  // ----- Two quorums share a signer

  ghost function Signers(sigs: seq<OracleSignature>): set<string> {
    set s | s in sigs :: s.addr
  }

  lemma {:induction false} DistinctSignersCount(sigs: seq<OracleSignature>)
    requires DistinctSigners(sigs)
    ensures |Signers(sigs)| == |sigs|
  {
    if sigs != [] {
      var init, last := sigs[..|sigs| - 1], sigs[|sigs| - 1];
      DistinctSignersCount(init);
      assert forall s :: s in sigs <==> s in init || s == last;
      assert Signers(sigs) == Signers(init) + {last.addr};
      assert last.addr !in Signers(init);
    }
  }

  lemma LargeSubsetsOverlap(a: set<string>, b: set<string>, all: set<string>)
    requires a <= all && b <= all && |a| + |b| > |all|
    ensures a * b != {}
  {
    SubsetCardinality(a + b, all);
    assert |a| + |b| == |a + b| + |a * b|;
  }

  lemma QuorumsIntersect(oracles: seq<OracleInfo>, a: seq<OracleSignature>, b: seq<OracleSignature>)
    returns (shared: string)
    requires Distinct(Addresses(oracles)) && DistinctSigners(a) && DistinctSigners(b)
    requires Signers(a) <= Elements(Addresses(oracles)) && Signers(b) <= Elements(Addresses(oracles))
    requires |a| >= |oracles| / 2 + 1 && |b| >= |oracles| / 2 + 1
    ensures shared in Signers(a) && shared in Signers(b)
  {
    var all := Elements(Addresses(oracles));
    DistinctCardinality(Addresses(oracles));
    DistinctSignersCount(a);
    DistinctSignersCount(b);
    LargeSubsetsOverlap(Signers(a), Signers(b), all);
    shared :| shared in Signers(a) * Signers(b);
  }

  // ----- How far apart two published prices can be

  /** The node either published its own exchange price or accepted the request against it. */
  ghost predicate StandsFor(limits: PriceLimits, params: PriceParams, exchangePrice: PriceWithTimestamp) {
    || params.price == exchangePrice.price
    || exists info, now :: ValidatePriceParams(limits, params, Some(exchangePrice), info, now).Ok?
  }

  lemma StandsForIsClose(limits: PriceLimits, params: PriceParams, exchangePrice: PriceWithTimestamp, k: real)
    requires params.price > 0 && exchangePrice.price > 0
    requires k == 1.0 + limits.rejectDeltaPct / 100.0 && limits.rejectDeltaPct >= 0.0
    requires StandsFor(limits, params, exchangePrice)
    ensures WithinFactor(params.price, exchangePrice.price, k)
  {
    if params.price == exchangePrice.price {
      Helpers.MulLeft(1.0, k, params.price as real);
    } else {
      var info, now :| ValidatePriceParams(limits, params, Some(exchangePrice), info, now).Ok?;
      AcceptedIsClose(limits, params, exchangePrice, info, now, k);
    }
  }

  /** Two publications of the same round, gathered however the network behaved: if every signature on them
      was given by a node that stands for the price against its own exchange price, the larger price is at
      most (1 + D/100)^2 times the smaller. */
  lemma {:induction false} PublishedPricesAreClose(oracles: seq<OracleInfo>, a: PriceParams, b: PriceParams,
        requestA: Request, requestB: Request, ownA: OracleSignature, ownB: OracleSignature, netA: Network,
        netB: Network, limits: PriceLimits, exchange: string -> PriceWithTimestamp, k: real)
    requires Distinct(Addresses(oracles)) && ownA.addr in Addresses(oracles) && ownB.addr in Addresses(oracles)
    requires Plausible(Peers(oracles, ownA.addr), netA) && Plausible(Peers(oracles, ownB.addr), netB)
    requires Sent(oracles, requestA, ownA, netA) && Sent(oracles, requestB, ownB, netB)
    requires a.price > 0 && b.price > 0 && forall addr :: exchange(addr).price > 0
    requires k == 1.0 + limits.rejectDeltaPct / 100.0 && limits.rejectDeltaPct >= 0.0
    requires HonestFor(requestA, ownA, a, limits, exchange) && HonestFor(requestB, ownB, b, limits, exchange)
    ensures WithinFactor(a.price, b.price, k * k)
  {
    var sigsA, sigsB := Gather(oracles, requestA, ownA, netA).value, Gather(oracles, requestB, ownB, netB).value;
    SignersOfSent(oracles, requestA, ownA, netA, a, limits, exchange);
    SignersOfSent(oracles, requestB, ownB, netB, b, limits, exchange);
    var shared := QuorumsIntersect(oracles, sigsA, sigsB);
    StandsForIsClose(limits, a, exchange(shared), k);
    StandsForIsClose(limits, b, exchange(shared), k);
    CloseToTheSame(a.price, b.price, exchange(shared).price, k);
  }

  ghost predicate Sent(oracles: seq<OracleInfo>, request: Request, own: OracleSignature, net: Network)
    requires Plausible(Peers(oracles, own.addr), net)
  {
    var gathered := Gather(oracles, request, own, net);
    gathered.Ok? && |gathered.value| >= |oracles| / 2 + 1
  }

  /** Signatures are not forged: whoever signed the request stands for its price. */
  ghost predicate HonestFor(request: Request, own: OracleSignature, params: PriceParams, limits: PriceLimits,
                            exchange: string -> PriceWithTimestamp)
  {
    && StandsFor(limits, params, exchange(own.addr))
    && forall s: OracleSignature :: Genuine(request, s) ==> StandsFor(limits, params, exchange(s.addr))
  }

  lemma {:induction false} SignersOfSent(oracles: seq<OracleInfo>, request: Request, own: OracleSignature,
                                         net: Network, params: PriceParams, limits: PriceLimits,
                                         exchange: string -> PriceWithTimestamp)
    requires Distinct(Addresses(oracles)) && own.addr in Addresses(oracles) && Plausible(Peers(oracles, own.addr), net)
    requires Sent(oracles, request, own, net) && HonestFor(request, own, params, limits, exchange)
    ensures var sigs := Gather(oracles, request, own, net).value;
            && DistinctSigners(sigs) && Signers(sigs) <= Elements(Addresses(oracles))
            && forall addr :: addr in Signers(sigs) ==> StandsFor(limits, params, exchange(addr))
  {
    GatheredAreGenuine(oracles, request, own, net);
  }
}
