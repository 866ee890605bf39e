/** Price queues and the price a node publishes or validates against
    (servers/oracle/src/price_feeder/price_feeder.py and the caller-facing part of moc_price_engines.py).
    Timestamps and prices are exact reals; a price of None is a NaN. */
module PriceFeeder {
  import opened Prelude
  import opened WeightedMedian
  import Helpers

  datatype Quote = Quote(name: string, price: Option<real>, ponderation: real, timestamp: real, tsUtc: real)

  /** A queue element: `{"ts_utc": ..., "data": ...}`. */
  datatype Item = Item(tsUtc: real, data: Quote)

  /** Distance in time. */
  function Gap(target: real, ts: real): (gap: real)
    ensures gap >= 0.0 && (gap == ts - target || gap == target - ts)
  {
    if target < ts then ts - target else target - ts
  }

  // ----- Nearest in time

  /** Index of the first element nearest to the target: Python's `min` keeps the earliest. */
  function FirstNearest(q: seq<Item>, target: real): (m: nat)
    requires q != []
    ensures m < |q|
    ensures forall i :: 0 <= i < |q| ==> Gap(target, q[m].tsUtc) <= Gap(target, q[i].tsUtc)
    ensures forall i :: 0 <= i < m ==> Gap(target, q[m].tsUtc) < Gap(target, q[i].tsUtc)
  {
    if |q| == 1 then 0 else
      var m := FirstNearest(q[..|q| - 1], target);
      if Gap(target, q[|q| - 1].tsUtc) < Gap(target, q[m].tsUtc) then |q| - 1 else m
  }

  function Without(q: seq<Item>, ts: real): seq<Item> {
    if q == [] then []
    else Without(q[..|q| - 1], ts) + (if q[|q| - 1].tsUtc != ts then [q[|q| - 1]] else [])
  }

  /** `min_without`. */
  function MinWithout(q: seq<Item>, target: real, x: Item): Option<Item> {
    var rest := Without(q, x.tsUtc);
    if rest == [] then None else Some(rest[FirstNearest(rest, target)])
  }

  /** `get_nearest_data`, as the element whose data is returned. */
  function Nearest(q: seq<Item>, target: real): Option<Item> {
    if q == [] then None else
      var ret1 := q[FirstNearest(q, target)];
      match MinWithout(q, target, ret1)
      case None => Some(ret1)
      case Some(ret2) =>
        if Gap(target, ret1.tsUtc) != Gap(target, ret2.tsUtc) then Some(ret1)
        else if ret1.tsUtc - target > 0.0 then Some(ret1)
        else Some(ret2)
  }

  /** At minimal distance; the latest timestamp at that distance; the earliest inserted with that timestamp. */
  ghost predicate IsNearest(q: seq<Item>, target: real, k: nat)
    requires k < |q|
  {
    && (forall i :: 0 <= i < |q| ==> Gap(target, q[k].tsUtc) <= Gap(target, q[i].tsUtc))
    && (forall i :: 0 <= i < |q| && Gap(target, q[i].tsUtc) == Gap(target, q[k].tsUtc) ==> q[i].tsUtc <= q[k].tsUtc)
    && (forall i :: 0 <= i < k ==> q[i].tsUtc != q[k].tsUtc)
  }

  lemma {:induction false} WithoutMembers(q: seq<Item>, ts: real)
    ensures forall x :: x in Without(q, ts) <==> x in q && x.tsUtc != ts
  {
    if q != [] {
      WithoutMembers(q[..|q| - 1], ts);
      assert forall x :: x in q <==> x in q[..|q| - 1] || x == q[|q| - 1];
    }
  }

  lemma {:induction false} NoEarlierWithItsTime(init: seq<Item>, last: Item, ts: real)
    requires forall at :: 0 <= at < |Without(init, ts)| ==> Without(init, ts)[at].tsUtc != last.tsUtc
    requires last.tsUtc != ts
    ensures forall i :: 0 <= i < |init| ==> init[i].tsUtc != last.tsUtc
  {
    WithoutMembers(init, ts);
    forall i | 0 <= i < |init| ensures init[i].tsUtc != last.tsUtc {
      assert init[i].tsUtc != ts ==> init[i] in Without(init, ts);
    }
  }

  /** The first element with its timestamp in the filtered queue is the first one in the queue. */
  lemma {:induction false} FirstInWhole(q: seq<Item>, ts: real, j: nat) returns (k: nat)
    requires j < |Without(q, ts)| && forall i :: 0 <= i < j ==> Without(q, ts)[i].tsUtc != Without(q, ts)[j].tsUtc
    ensures k < |q| && q[k] == Without(q, ts)[j] && forall i :: 0 <= i < k ==> q[i].tsUtc != q[k].tsUtc
  {
    var init, last := q[..|q| - 1], q[|q| - 1];
    var before := Without(init, ts);
    assert forall i :: 0 <= i < |before| ==> Without(q, ts)[i] == before[i];
    if j < |before| {
      k := FirstInWhole(init, ts, j);
      assert forall i :: 0 <= i <= k ==> q[i] == init[i];
    } else {
      k := |q| - 1;
      NoEarlierWithItsTime(init, last, ts);
      assert forall i :: 0 <= i < k ==> q[i] == init[i];
    }
  }

  /** When the first candidate is kept: no other timestamp is nearer, or as near and later. */
  lemma {:induction false} FirstCandidateIsNearest(q: seq<Item>, target: real, m: nat)
    requires q != [] && m == FirstNearest(q, target)
    requires var rest := Without(q, q[m].tsUtc);
             rest == [] || Gap(target, rest[FirstNearest(rest, target)].tsUtc) != Gap(target, q[m].tsUtc)
             || q[m].tsUtc > target
    ensures IsNearest(q, target, m)
  {
    var rest := Without(q, q[m].tsUtc);
    WithoutMembers(q, q[m].tsUtc);
    forall i | 0 <= i < |q| && q[i].tsUtc != q[m].tsUtc && Gap(target, q[i].tsUtc) == Gap(target, q[m].tsUtc)
      ensures q[i].tsUtc <= q[m].tsUtc
    {
      assert q[i] in rest;
      var at :| 0 <= at < |rest| && rest[at] == q[i];
      OtherIsNoNearer(q, target, m, rest, at);
    }
    assert forall i :: 0 <= i < m ==> q[i].tsUtc != q[m].tsUtc;
  }

  lemma {:induction false} OtherIsNoNearer(q: seq<Item>, target: real, m: nat, rest: seq<Item>, at: nat)
    requires q != [] && m == FirstNearest(q, target) && rest == Without(q, q[m].tsUtc) && at < |rest|
    ensures var other := rest[FirstNearest(rest, target)];
            Gap(target, q[m].tsUtc) <= Gap(target, other.tsUtc) <= Gap(target, rest[at].tsUtc)
  {
    WithoutMembers(q, q[m].tsUtc);
    var other := rest[FirstNearest(rest, target)];
    assert other in rest && other in q;
    var i :| 0 <= i < |q| && q[i] == other;
  }

  /** The lookup is right, on every queue and for every target. */
  lemma NearestIsRight(q: seq<Item>, target: real) returns (k: nat)
    requires q != []
    ensures k < |q| && Nearest(q, target) == Some(q[k]) && IsNearest(q, target, k)
  {
    var m := FirstNearest(q, target);
    var rest := Without(q, q[m].tsUtc);
    if rest == [] || Gap(target, rest[FirstNearest(rest, target)].tsUtc) != Gap(target, q[m].tsUtc)
        || q[m].tsUtc > target {
      k := m;
      FirstCandidateIsNearest(q, target, m);
    } else {
      var j := FirstNearest(rest, target);
      WithoutMembers(q, q[m].tsUtc);
      assert forall i :: 0 <= i < j ==> rest[i].tsUtc != rest[j].tsUtc;
      k := FirstInWhole(q, q[m].tsUtc, j);
      assert rest[j] in rest && q[k].tsUtc != q[m].tsUtc;
    }
  }

  /** That fixes the answer. */
  lemma NearestIsUnique(q: seq<Item>, target: real, j: nat, k: nat)
    requires j < |q| && k < |q| && IsNearest(q, target, j) && IsNearest(q, target, k)
    ensures j == k
  {
    assert Gap(target, q[j].tsUtc) == Gap(target, q[k].tsUtc);
    assert q[j].tsUtc == q[k].tsUtc;
  }

  // ----- The bounded queue

  function LastOf<T>(s: seq<T>, n: nat): (last: seq<T>)
    ensures |last| == if |s| < n then |s| else n
    ensures forall i :: 0 <= i < |last| ==> last[i] == s[|s| - |last| + i]
  {
    if |s| <= n then s else s[|s| - n..]
  }

  class TimeWithTimestampQueue {
    const maxlen: nat
    var priceQueue: seq<Item>
    ghost var appended: seq<Item>

    /** The queue is the last `maxlen` of everything appended. */
    ghost predicate Valid()
      reads this
    {
      priceQueue == LastOf(appended, maxlen)
    }

    constructor (maxlen: nat)
      ensures Valid() && this.maxlen == maxlen && appended == []
    {
      this.maxlen, priceQueue, appended := maxlen, [], [];
    }

    method Append(tsUtc: real, data: Quote)
      requires Valid()
      modifies this
      ensures Valid() && appended == old(appended) + [Item(tsUtc, data.(tsUtc := tsUtc))]
    {
      var item := Item(tsUtc, data.(tsUtc := tsUtc));
      appended := appended + [item];
      if maxlen == 0 {
        return;
      }
      if |priceQueue| == maxlen {
        priceQueue := priceQueue[1..];
      }
      priceQueue := priceQueue + [item];
    }

    method GetNearestData(target: real) returns (r: Option<Quote>)
      requires Valid()
      ensures r == NearestData(LastOf(appended, maxlen), target)
    {
      r := NearestData(priceQueue, target);
    }
  }

  function NearestData(q: seq<Item>, target: real): Option<Quote> {
    match Nearest(q, target)
    case None => None
    case Some(item) => Some(item.data)
  }

  // ----- The weighted price

  /** Positions of the finite prices. */
  function FiniteIdx(fPrices: seq<Quote>): (idx: seq<nat>)
    ensures forall i :: 0 <= i < |idx| ==> idx[i] < |fPrices| && fPrices[idx[i]].price.Some?
    ensures (forall i :: 0 <= i < |fPrices| ==> fPrices[i].price.Some?) ==>
            |idx| == |fPrices| && forall i :: 0 <= i < |idx| ==> idx[i] == i
    ensures idx == [] <==> forall i :: 0 <= i < |fPrices| ==> fPrices[i].price.None?
  {
    if fPrices == [] then [] else
      var init := FiniteIdx(fPrices[..|fPrices| - 1]);
      if fPrices[|fPrices| - 1].price.Some? then init + [|fPrices| - 1] else init
  }

  lemma {:induction false} FiniteIdxHas(fPrices: seq<Quote>, k: nat)
    requires k < |fPrices| && fPrices[k].price.Some?
    ensures k in FiniteIdx(fPrices)
  {
    var init := fPrices[..|fPrices| - 1];
    if k < |init| {
      FiniteIdxHas(init, k);
    } else {
      assert FiniteIdx(fPrices)[|FiniteIdx(init)|] == k;
    }
  }

  lemma {:induction false} FiniteIdxAscends(fPrices: seq<Quote>)
    ensures forall i, j :: 0 <= i < j < |FiniteIdx(fPrices)| ==> FiniteIdx(fPrices)[i] < FiniteIdx(fPrices)[j]
  {
    if fPrices != [] {
      FiniteIdxAscends(fPrices[..|fPrices| - 1]);
    }
  }

  /** All of them, each once, in order. */
  lemma {:induction false} FiniteIdxAre(fPrices: seq<Quote>, k: nat)
    requires k < |fPrices|
    ensures k in FiniteIdx(fPrices) <==> fPrices[k].price.Some?
    ensures forall i, j :: 0 <= i < j < |FiniteIdx(fPrices)| ==> FiniteIdx(fPrices)[i] < FiniteIdx(fPrices)[j]
  {
    FiniteIdxAscends(fPrices);
    if fPrices[k].price.Some? {
      FiniteIdxHas(fPrices, k);
    }
  }

  function PricesAt(fPrices: seq<Quote>, idx: seq<nat>): (values: seq<real>)
    requires forall i :: 0 <= i < |idx| ==> idx[i] < |fPrices| && fPrices[idx[i]].price.Some?
    ensures |values| == |idx|
  {
    seq(|idx|, i requires 0 <= i < |idx| => fPrices[idx[i]].price.value)
  }

  function WeightsAt(fPrices: seq<Quote>, idx: seq<nat>): (weights: seq<real>)
    requires forall i :: 0 <= i < |idx| ==> idx[i] < |fPrices|
    ensures |weights| == |idx|
  {
    seq(|idx|, i requires 0 <= i < |idx| => fPrices[idx[i]].ponderation)
  }

  /** `get_weighted_from`. With no finite price the unpacking of `zip(*())` raises before the `len` test. */
  function WeightedFrom(fPrices: seq<Quote>): Result<Quote, MedianError> {
    var idxback := FiniteIdx(fPrices);
    var lPrices, lWeights := PricesAt(fPrices, idxback), WeightsAt(fPrices, idxback);
    if idxback == [] then Err(NoFinitePrices)
    else if Sum(lWeights) == 0.0 then Err(ZeroDivision)
    else Ok(fPrices[idxback[MedianIdx(lPrices, lWeights)]])
  }

  method GetWeightedFrom(fPrices: seq<Quote>) returns (r: Result<Quote, MedianError>)
    ensures r == WeightedFrom(fPrices)
  {
    var idxback := FiniteIdx(fPrices);
    if idxback == [] {
      return Err(NoFinitePrices);
    }
    var idx := WeightedMedianIdx(PricesAt(fPrices, idxback), WeightsAt(fPrices, idxback));
    if idx.Err? {
      return Err(idx.error);
    }
    r := Ok(fPrices[idxback[idx.value]]);
  }

  // ----- The loop object

  predicate Survives(data: Option<Quote>, target: real, maxDiff: real) {
    data.Some? && data.value.price.Some? && Gap(target, data.value.tsUtc) <= maxDiff
  }

  /** The nearest entry of each queue, in the order of the queues, unless missing, NaN or stale. */
  function Survivors(queues: seq<seq<Item>>, target: real, maxDiff: real): (s: seq<Quote>)
    ensures forall i :: 0 <= i < |s| ==>
              s[i].price.Some? && Gap(target, s[i].tsUtc) <= maxDiff
              && exists k :: 0 <= k < |queues| && NearestData(queues[k], target) == Some(s[i])
  {
    if queues == [] then [] else
      var init := queues[..|queues| - 1];
      var before := Survivors(init, target, maxDiff);
      var data := NearestData(queues[|queues| - 1], target);
      assert forall i :: 0 <= i < |before| ==>
        exists k :: 0 <= k < |queues| && NearestData(queues[k], target) == Some(before[i]) by {
        forall i | 0 <= i < |before|
          ensures exists k :: 0 <= k < |queues| && NearestData(queues[k], target) == Some(before[i])
        {
          var k :| 0 <= k < |init| && NearestData(init[k], target) == Some(before[i]);
          assert NearestData(queues[k], target) == Some(before[i]);
        }
      }
      if Survives(data, target, maxDiff) then before + [data.value] else before
  }

  lemma {:induction false} SurvivorsStep(queues: seq<seq<Item>>, i: nat, target: real, maxDiff: real)
    requires i < |queues|
    ensures var data := NearestData(queues[i], target);
            Survivors(queues[..i + 1], target, maxDiff) ==
            Survivors(queues[..i], target, maxDiff) + (if Survives(data, target, maxDiff) then [data.value] else [])
  {
    assert queues[..i + 1][..i] == queues[..i];
  }

  function Pow10(n: nat): (p: real)
    ensures p >= 1.0
  {
    if n == 0 then 1.0 else 10.0 * Pow10(n - 1)
  }

  /** Every queue whose nearest entry is finite and fresh has its place among the survivors, right after those of the
      queues before it, and no other queue adds anything. */
  lemma {:induction false} SurvivorsAre(queues: seq<seq<Item>>, k: nat, target: real, maxDiff: real)
    requires k < |queues|
    ensures var (before, upTo) := (Survivors(queues[..k], target, maxDiff),
                                   Survivors(queues[..k + 1], target, maxDiff));
            var data := NearestData(queues[k], target);
            upTo == before + if data.Some? && data.value.price.Some? && Gap(target, data.value.tsUtc) <= maxDiff
                             then [data.value] else []
    ensures Survivors([], target, maxDiff) == [] && queues[..|queues|] == queues
  {
    SurvivorsStep(queues, k, target, maxDiff);
  }

  /** A power of ten: 18 digits are the usual scale. */
  lemma {:induction false} PowersOfTen(a: nat, b: nat)
    ensures Pow10(0) == 1.0 && Pow10(1) == 10.0 && Pow10(18) == 1000000000000000000.0
    ensures Pow10(a + b) == Pow10(a) * Pow10(b)
  {
    TenToEighteen();
    if a > 0 {
      PowersOfTen(a - 1, b);
      var x, y := Pow10(a - 1), Pow10(b);
      assert 10.0 * (x * y) == 10.0 * x * y;
    }
  }

  lemma TenToEighteen()
    ensures Pow10(1) == 10.0 && Pow10(18) == 1000000000000000000.0
  {
    assert Pow10(1) == 10.0 * Pow10(0);
    assert Pow10(6) == 1000000.0;
    assert Pow10(12) == 1000000.0 * Pow10(6);
    assert Pow10(18) == 1000000.0 * Pow10(12);
  }

  /** `price * 10 ** digits`. */
  function Shifted(price: real, digits: nat): real {
    price * Pow10(digits)
  }

  function PriceFrom(survivors: seq<Quote>, digits: nat): Result<Option<PriceWithTimestamp>, MedianError> {
    if survivors == [] then Ok(None) else
      match WeightedFrom(survivors)
      case Err(e) => Err(e)
      case Ok(val) =>
        Ok(Some(PriceWithTimestamp(Truncate(Shifted(if val.price.Some? then val.price.value else 0.0, digits)),
                                   val.timestamp)))
  }

  class PriceFeederLoop {
    const queueLen: nat
    const publishMaxDiff: real
    const validateMaxDiff: real
    const digits: nat
    /** The dictionary of queues, with its keys in insertion order. */
    var names: seq<string>
    var queues: map<string, TimeWithTimestampQueue>
    ghost var owned: set<TimeWithTimestampQueue>
    ghost var received: seq<Quote>

    /** One queue per exchange heard of, holding the last `queueLen` of what that exchange sent. */
    ghost predicate Valid()
      reads this, owned
    {
      && Distinct(names)
      && (forall n :: n in names <==> n in queues)
      && (forall n :: n in queues ==> queues[n] in owned && Holds(queues[n], queueLen, received, n))
      && (forall m, n :: m in queues && n in queues && m != n ==> queues[m] != queues[n])
      && (forall n :: n !in queues ==> SentBy(received, n) == [])
    }

    constructor (queueLen: nat, publishMaxDiff: real, validateMaxDiff: real, digits: nat)
      ensures Valid() && received == [] && names == [] && owned == {}
      ensures this.queueLen == queueLen && this.publishMaxDiff == publishMaxDiff
      ensures this.validateMaxDiff == validateMaxDiff && this.digits == digits
    {
      this.queueLen, this.digits := queueLen, digits;
      this.publishMaxDiff, this.validateMaxDiff := publishMaxDiff, validateMaxDiff;
      names, queues, received, owned := [], map[], [], {};
    }

    method AddQueue(name: string)
      requires Valid() && name !in queues
      modifies this
      ensures Valid() && received == old(received) && fresh(owned - old(owned))
      ensures names == old(names) + [name]
    {
      var q := new TimeWithTimestampQueue(queueLen);
      assert Holds(q, queueLen, received, name);
      forall n | n in queues ensures queues[n] != q && Holds(queues[n], queueLen, received, n) {
        assert queues[n] in owned;
      }
      queues, names, owned := queues[name := q], names + [name], owned + {q};
    }

    method AppendToQueue(val: Quote)
      requires Valid() && val.name in queues
      modifies this`received, queues[val.name]
      ensures Valid() && received == old(received) + [val]
    {
      ghost var before := received;
      forall n ensures SentBy(before + [val], n) == SentBy(before, n) + (if val.name == n then [AsItem(val)] else []) {
        SentByAppend(before, val, n);
      }
      received := before + [val];
      var q := queues[val.name];
      q.Append(val.timestamp, val);
      assert Holds(q, queueLen, received, val.name);
      forall n | n in queues && n != val.name ensures Holds(queues[n], queueLen, received, n) {
        assert queues[n] != q && old(Holds(queues[n], queueLen, received, n));
      }
    }

    method Insert(val: Quote)
      requires Valid()
      modifies this, owned
      ensures Valid() && received == old(received) + [val] && fresh(owned - old(owned))
      ensures names == if val.name in old(names) then old(names) else old(names) + [val.name]
    {
      if val.name !in queues {
        AddQueue(val.name);
      }
      AppendToQueue(val);
    }

    /** A round of fetched values; None is a value on which reading the name or the timestamp raises. The
        exception is swallowed, and the values before it stay inserted. */
    method Run(wData: seq<Option<Quote>>)
      requires Valid()
      modifies this, owned
      ensures Valid() && received == old(received) + BeforeFault(wData) && fresh(owned - old(owned))
    {
      for i := 0 to |wData|
        invariant Valid() && fresh(owned - old(owned))
        invariant received + BeforeFault(wData[i..]) == old(received) + BeforeFault(wData)
      {
        BeforeFaultStep(wData, i, received);
        if wData[i].None? {
          return;
        }
        Insert(wData[i].value);
      }
    }

    method NearestOf(name: string, target: real) returns (data: Option<Quote>)
      requires Valid() && name in queues
      ensures data == NearestData(LastOf(SentBy(received, name), queueLen), target)
    {
      assert Holds(queues[name], queueLen, received, name);
      data := queues[name].GetNearestData(target);
    }

    method CollectPrices(target: real, maxDiff: real) returns (wData: seq<Quote>)
      requires Valid()
      ensures wData == Survivors(QueuesOf(received, names, queueLen), target, maxDiff)
    {
      ghost var contents := QueuesOf(received, names, queueLen);
      wData := [];
      for i := 0 to |names|
        invariant wData == Survivors(contents[..i], target, maxDiff)
      {
        SurvivorsStep(contents, i, target, maxDiff);
        var data := NearestOf(names[i], target);
        if Survives(data, target, maxDiff) {
          wData := wData + [data.value];
        }
      }
      assert contents[..|names|] == contents;
    }

    /** The answer is determined by what was received: nothing else of the object's past matters. */
    method GetLastPrice(target: real, toPublish: bool) returns (r: Result<Option<PriceWithTimestamp>, MedianError>)
      requires Valid()
      ensures r == PriceFrom(Survivors(QueuesOf(received, names, queueLen), target,
                                       if toPublish then publishMaxDiff else validateMaxDiff), digits)
    {
      var maxDiff := if toPublish then publishMaxDiff else validateMaxDiff;
      var wData := CollectPrices(target, maxDiff);
      r := WeightedPrice(wData, digits);
    }
  }

  method WeightedPrice(wData: seq<Quote>, digits: nat) returns (r: Result<Option<PriceWithTimestamp>, MedianError>)
    ensures r == PriceFrom(wData, digits)
  {
    if wData == [] {
      return Ok(None);
    }
    var val := GetWeightedFrom(wData);
    if val.Err? {
      return Err(val.error);
    }
    r := Ok(Some(PriceWithTimestamp(
      Truncate(Shifted(if val.value.price.Some? then val.value.price.value else 0.0, digits)), val.value.timestamp)));
  }

  /** The values up to the first one that cannot be read. */
  function BeforeFault(wData: seq<Option<Quote>>): (read: seq<Quote>)
    ensures |read| <= |wData| && (|read| < |wData| ==> wData[|read|].None?)
    ensures forall i :: 0 <= i < |read| ==> wData[i] == Some(read[i])
  {
    if wData == [] || wData[0].None? then [] else [wData[0].value] + BeforeFault(wData[1..])
  }

  lemma {:induction false} BeforeFaultStep(wData: seq<Option<Quote>>, i: nat, before: seq<Quote>)
    requires i < |wData|
    ensures before + BeforeFault(wData[i..]) ==
            if wData[i].None? then before else before + [wData[i].value] + BeforeFault(wData[i + 1..])
  {
    assert wData[i..][1..] == wData[i + 1..];
  }

  ghost predicate Holds(q: TimeWithTimestampQueue, maxlen: nat, received: seq<Quote>, name: string)
    reads q
  {
    q.Valid() && q.maxlen == maxlen && q.appended == SentBy(received, name)
  }

  function AsItem(val: Quote): Item {
    Item(val.timestamp, val.(tsUtc := val.timestamp))
  }

  ghost function SentBy(received: seq<Quote>, name: string): seq<Item> {
    if received == [] then [] else
      SentBy(received[..|received| - 1], name)
      + (if received[|received| - 1].name == name then [AsItem(received[|received| - 1])] else [])
  }

  lemma {:induction false} SentByAppend(received: seq<Quote>, val: Quote, name: string)
    ensures SentBy(received + [val], name) == SentBy(received, name) + (if val.name == name then [AsItem(val)] else [])
  {
    assert (received + [val])[..|received|] == received;
  }

  /** What an exchange sent is what was received under its name, in the order received: each such quote stands after
      as many of its items as had been received before it. */
  lemma {:induction false} SentByIs(received: seq<Quote>, name: string, i: nat)
    requires i < |received|
    ensures var (sent, before) := (SentBy(received, name), SentBy(received[..i], name));
            && |before| <= |sent| && sent[..|before|] == before
            && (received[i].name == name ==>
                  && |before| < |sent|
                  && sent[|before|] == Item(received[i].timestamp, received[i].(tsUtc := received[i].timestamp)))
            && (received[i].name != name ==> SentBy(received[..i + 1], name) == before)
    ensures |SentBy([], name)| == 0
  {
    var init := received[..|received| - 1];
    if i < |init| {
      SentByIs(init, name, i);
      assert init[..i] == received[..i] && init[..i + 1] == received[..i + 1];
    } else {
      assert received[..i] == init && received[..i + 1] == received;
    }
  }

  ghost function QueuesOf(received: seq<Quote>, names: seq<string>, queueLen: nat): seq<seq<Item>> {
    seq(|names|, i requires 0 <= i < |names| => LastOf(SentBy(received, names[i]), queueLen))
  }

  // ----- Robustness of the published price

  lemma ShiftedMonotone(a: real, b: real, digits: nat)
    requires a <= b
    ensures Shifted(a, digits) <= Shifted(b, digits)
  {
    var p := Pow10(digits);
    assert b * p - a * p == (b - a) * p;
  }

  /** The surviving quotes as (price, weight) entries. */
  function AsEntries(survivors: seq<Quote>): (es: seq<Entry>)
    requires forall i :: 0 <= i < |survivors| ==> survivors[i].price.Some?
    ensures |es| == |survivors|
    ensures forall i :: 0 <= i < |es| ==> es[i] == Entry(survivors[i].price.value, survivors[i].ponderation)
  {
    var idx := FiniteIdx(survivors);
    Entries(PricesAt(survivors, idx), WeightsAt(survivors, idx))
  }

  /** The chosen quote is one of the survivors, finite, and holds their weighted median. */
  lemma ChosenQuote(survivors: seq<Quote>)
    requires forall i :: 0 <= i < |survivors| ==> survivors[i].price.Some?
    requires NonNegative(AsEntries(survivors)) && Total(AsEntries(survivors)) > 0.0
    ensures WeightedFrom(survivors).Ok?
    ensures var q := WeightedFrom(survivors).value;
            q in survivors && q.price.Some? && IsMedian(AsEntries(survivors), q.price.value)
  {
    var idx := FiniteIdx(survivors);
    var lPrices, lWeights := PricesAt(survivors, idx), WeightsAt(survivors, idx);
    TotalIsSum(lPrices, lWeights);
    MedianIsLeastHalfValue(lPrices, lWeights);
  }

  /** Exchanges holding more than half of the surviving weight quote within [lo, hi]. */
  ghost predicate MajorityWithin(survivors: seq<Quote>, lo: real, hi: real)
    requires forall i :: 0 <= i < |survivors| ==> survivors[i].price.Some?
  {
    var es := AsEntries(survivors);
    NonNegative(es) && Total(es) > 0.0 && 2.0 * Within(es, lo, hi) > Total(es)
  }

  /** If exchanges holding more than half of the surviving weight quote within [lo, hi], the published
      price is between lo and hi, shifted and truncated. */
  lemma {:induction false} RobustPrice(queues: seq<seq<Item>>, target: real, maxDiff: real, digits: nat, lo: real,
                                       hi: real)
    requires MajorityWithin(Survivors(queues, target, maxDiff), lo, hi)
    ensures var r := PriceFrom(Survivors(queues, target, maxDiff), digits);
            r.Ok? && r.value.Some?
            && Truncate(Shifted(lo, digits)) <= r.value.value.price <= Truncate(Shifted(hi, digits))
    ensures var q := WeightedFrom(Survivors(queues, target, maxDiff)).value;
            q.price.Some? && Gap(target, q.tsUtc) <= maxDiff
            && exists k :: 0 <= k < |queues| && NearestData(queues[k], target) == Some(q)
  {
    var s := Survivors(queues, target, maxDiff);
    ChosenQuote(s);
    var v := WeightedFrom(s).value.price.value;
    MajorityPinsMedian(AsEntries(s), v, lo, hi);
    ShiftedMonotone(lo, v, digits);
    ShiftedMonotone(v, hi, digits);
    TruncateMonotone(Shifted(lo, digits), Shifted(v, digits));
    TruncateMonotone(Shifted(v, digits), Shifted(hi, digits));
  }

  /** There is no price exactly when nothing survives, and an error exactly when something does, but no price among it
      is finite or the weights of the finite ones sum to zero. */
  lemma {:induction false} NoPriceIff(survivors: seq<Quote>, digits: nat)
    ensures PriceFrom(survivors, digits) == Ok(None) <==> survivors == []
    ensures PriceFrom(survivors, digits) == Err(NoFinitePrices) <==>
              survivors != [] && forall i :: 0 <= i < |survivors| ==> survivors[i].price.None?
    ensures PriceFrom(survivors, digits) == Err(ZeroDivision) <==>
              FiniteIdx(survivors) != [] && Sum(WeightsAt(survivors, FiniteIdx(survivors))) == 0.0
  {}

  /** At 18 digits, the price given is the chosen quote's times 10^18, rounded down, with that quote's time. */
  lemma PriceInWei(survivors: seq<Quote>)
    requires survivors != [] && WeightedFrom(survivors).Ok? && WeightedFrom(survivors).value.price.Some?
    requires WeightedFrom(survivors).value.price.value >= 0.0
    ensures var (r, q) := (PriceFrom(survivors, 18), WeightedFrom(survivors).value);
            && r.Ok? && r.value.Some? && r.value.value.tsUtc == q.timestamp
            && r.value.value.price as real <= q.price.value * 1000000000000000000.0 < r.value.value.price as real + 1.0
  {
    TenToEighteen();
    ScaledFloor(WeightedFrom(survivors).value.price.value, 18);
  }

  lemma {:induction false} ScaledFloor(price: real, digits: nat)
    requires price >= 0.0
    ensures Truncate(Shifted(price, digits)) as real <= price * Pow10(digits) < Truncate(Shifted(price,
                                                                                                 digits)) as real + 1.0
  {
    Helpers.MulLeft(0.0, price, Pow10(digits));
  }

  /** Every queued quote carries the time it was queued with, as `append` leaves it. */
  ghost predicate Stamped(q: seq<Item>) {
    forall i :: 0 <= i < |q| ==> q[i].data.tsUtc == q[i].data.timestamp
  }

  lemma {:induction false} SentByIsStamped(received: seq<Quote>, name: string)
    ensures Stamped(SentBy(received, name))
  {
    if received != [] {
      SentByIsStamped(received[..|received| - 1], name);
    }
  }

  lemma NearestIsStamped(q: seq<Item>, target: real)
    requires Stamped(q) && NearestData(q, target).Some?
    ensures var data := NearestData(q, target).value; data.tsUtc == data.timestamp
  {
    var k := NearestIsRight(q, target);
  }

  lemma QueuesAreStamped(received: seq<Quote>, names: seq<string>, queueLen: nat, k: nat)
    requires k < |names|
    ensures Stamped(QueuesOf(received, names, queueLen)[k])
  {
    SentByIsStamped(received, names[k]);
  }

  lemma ChosenIsStamped(queues: seq<seq<Item>>, target: real, q: Quote)
    requires forall k :: 0 <= k < |queues| ==> Stamped(queues[k])
    requires exists k :: 0 <= k < |queues| && NearestData(queues[k], target) == Some(q)
    ensures q.tsUtc == q.timestamp
  {
    var k :| 0 <= k < |queues| && NearestData(queues[k], target) == Some(q);
    NearestIsStamped(queues[k], target);
  }

  lemma ChosenIsSurvivor(survivors: seq<Quote>)
    requires WeightedFrom(survivors).Ok?
    ensures WeightedFrom(survivors).value in survivors
  {}

  /** The price a feeder that received these quotes gives for a time, if any, is no further from it than the
      limit, whatever the weights. */
  lemma {:induction false} PriceIsFresh(received: seq<Quote>, names: seq<string>, queueLen: nat, target: real,
                                        maxDiff: real, digits: nat)
    ensures var r := PriceFrom(Survivors(QueuesOf(received, names, queueLen), target, maxDiff), digits);
            r.Ok? && r.value.Some? ==> Gap(target, r.value.value.tsUtc) <= maxDiff
  {
    var queues := QueuesOf(received, names, queueLen);
    var survivors := Survivors(queues, target, maxDiff);
    if survivors != [] && WeightedFrom(survivors).Ok? {
      ChosenIsSurvivor(survivors);
      forall k | 0 <= k < |queues| ensures Stamped(queues[k]) {
        QueuesAreStamped(received, names, queueLen, k);
      }
      ChosenIsStamped(queues, target, WeightedFrom(survivors).value);
    }
  }
}
