/** The weighted median of exchange prices (servers/oracle/src/price_feeder/moc_price_engines.py).
    Decimals are exact reals. */
module WeightedMedian {
  import opened Prelude

  datatype MedianError = ZeroDivision | EmptyList | NoFinitePrices

  datatype Entry = Entry(value: real, weight: real)

  /** A row of `sorted(zip(values, weights, range(len(values))))`. */
  datatype Row = Row(value: real, weight: real, index: nat)

  // ----- Weights

  function Sum(weights: seq<real>): real {
    if weights == [] then 0.0 else Sum(weights[..|weights| - 1]) + weights[|weights| - 1]
  }

  function Total(es: seq<Entry>): real {
    if es == [] then 0.0 else Total(es[..|es| - 1]) + es[|es| - 1].weight
  }

  /** Total weight of the listed values at or below v. */
  function UpTo(es: seq<Entry>, v: real): real {
    if es == [] then 0.0 else
      UpTo(es[..|es| - 1], v) + (if es[|es| - 1].value <= v then es[|es| - 1].weight else 0.0)
  }

  /** Total weight of the listed values strictly below v. */
  function Below(es: seq<Entry>, v: real): real {
    if es == [] then 0.0 else
      Below(es[..|es| - 1], v) + (if es[|es| - 1].value < v then es[|es| - 1].weight else 0.0)
  }

  ghost predicate NonNegative(es: seq<Entry>) {
    forall i :: 0 <= i < |es| ==> es[i].weight >= 0.0
  }

  function Entries(values: seq<real>, weights: seq<real>): (es: seq<Entry>)
    requires |values| == |weights|
    ensures |es| == |values|
    ensures forall i :: 0 <= i < |es| ==> es[i] == Entry(values[i], weights[i])
  {
    seq(|values|, i requires 0 <= i < |values| => Entry(values[i], weights[i]))
  }

  /** The defining property of the median: the least listed value that half the weight lies at or below. */
  ghost predicate IsMedian(es: seq<Entry>, v: real) {
    && (exists i :: 0 <= i < |es| && es[i].value == v)
    && 2.0 * UpTo(es, v) >= Total(es)
    && forall i :: 0 <= i < |es| && es[i].value < v ==> 2.0 * UpTo(es, es[i].value) < Total(es)
  }

  // ----- Sorting

  predicate Precedes(a: Row, b: Row) {
    a.value < b.value || (a.value == b.value && (a.weight < b.weight || (a.weight == b.weight && a.index <= b.index)))
  }

  function Insert(r: Row, rows: seq<Row>): (s: seq<Row>)
    ensures multiset(s) == multiset(rows) + multiset{r}
  {
    if rows == [] then [r]
    else if Precedes(r, rows[0]) then [r] + rows
    else
      assert rows == [rows[0]] + rows[1..];
      [rows[0]] + Insert(r, rows[1..])
  }

  /** `sorted(...)`. */
  function Sort(rows: seq<Row>): (s: seq<Row>)
    ensures multiset(s) == multiset(rows) && |s| == |rows|
  {
    if rows == [] then [] else
      assert rows == rows[..|rows| - 1] + [rows[|rows| - 1]];
      var s := Insert(rows[|rows| - 1], Sort(rows[..|rows| - 1]));
      assert |s| == |multiset(s)| == |multiset(rows)|;
      s
  }

  ghost predicate Sorted(rows: seq<Row>) {
    forall i, j :: 0 <= i < j < |rows| ==> Precedes(rows[i], rows[j])
  }

  lemma {:induction false} InsertSorts(r: Row, rows: seq<Row>)
    requires Sorted(rows)
    ensures Sorted(Insert(r, rows))
  {
    if rows != [] && !Precedes(r, rows[0]) {
      InsertSorts(r, rows[1..]);
      var tail := Insert(r, rows[1..]);
      forall j | 0 <= j < |tail| ensures Precedes(rows[0], tail[j]) {
        assert tail[j] in multiset(rows[1..]) + multiset{r};
      }
    }
  }

  lemma {:induction false} SortSorts(rows: seq<Row>)
    ensures Sorted(Sort(rows))
  {
    if rows != [] {
      SortSorts(rows[..|rows| - 1]);
      InsertSorts(rows[|rows| - 1], Sort(rows[..|rows| - 1]));
    }
  }

  // ----- The computation

  /** `[f(w) for w in weights]`. */
  function Mapped(weights: seq<real>, f: real -> real): (n: seq<real>)
    ensures |n| == |weights|
    ensures forall i :: 0 <= i < |n| ==> n[i] == f(weights[i])
  {
    seq(|weights|, i requires 0 <= i < |weights| => f(weights[i]))
  }

  function DivideBy(total: real): real -> real
    requires total != 0.0
  {
    x => x / total
  }

  function Rows(values: seq<real>, weights: seq<real>): (rows: seq<Row>)
    requires |values| == |weights|
    ensures |rows| == |values|
    ensures forall i :: 0 <= i < |rows| ==> rows[i] == Row(values[i], weights[i], i)
  {
    seq(|values|, i requires 0 <= i < |values| => Row(values[i], weights[i], i))
  }

  function EntriesOf(rows: seq<Row>): (es: seq<Entry>)
    ensures |es| == |rows|
    ensures forall i :: 0 <= i < |es| ==> es[i] == Entry(rows[i].value, rows[i].weight)
  {
    seq(|rows|, i requires 0 <= i < |rows| => Entry(rows[i].value, rows[i].weight))
  }

  /** `cumulative_probability` after k rows. */
  function Running(rows: seq<Row>, k: nat): real
    requires k <= |rows|
  {
    if k == 0 then 0.0 else Running(rows, k - 1) + rows[k - 1].weight
  }

  lemma {:induction false} RunningIsTotal(rows: seq<Row>, k: nat)
    requires k <= |rows|
    ensures Running(rows, k) == Total(EntriesOf(rows)[..k])
  {
    if k > 0 {
      RunningIsTotal(rows, k - 1);
      assert EntriesOf(rows)[..k][..k - 1] == EntriesOf(rows)[..k - 1];
    }
  }

  /** First position whose running weight reaches one half; the last one if none does. */
  function HalfPoint(rows: seq<Row>, from: nat): (k: nat)
    requires from < |rows|
    ensures from <= k < |rows|
    decreases |rows| - from
  {
    if from == |rows| - 1 || Running(rows, from + 1) >= 0.5 then from else HalfPoint(rows, from + 1)
  }

  /** The index picked from values and their weights turned into probabilities. */
  function PickIdx(values: seq<real>, probabilities: seq<real>): (idx: nat)
    requires |values| == |probabilities| > 0
    ensures idx < |values|
  {
    var rows := Sort(Rows(values, probabilities));
    var k := HalfPoint(rows, 0);
    RowFromInput(values, probabilities, k);
    rows[k].index
  }

  /** Of equal values the smaller weight comes first, of equal weights too the earlier position; the row picked is the
      first, in that order, at which the running weight reaches one half, or the last one. */
  lemma PickedRow(values: seq<real>, probabilities: seq<real>) returns (rows: seq<Row>, k: nat)
    requires |values| == |probabilities| > 0
    ensures multiset(rows) == multiset(Rows(values, probabilities)) && k < |rows|
    ensures forall i, j :: 0 <= i < j < |rows| ==>
              || rows[i].value < rows[j].value
              || (rows[i].value == rows[j].value && rows[i].weight < rows[j].weight)
              || (rows[i].value == rows[j].value && rows[i].weight == rows[j].weight && rows[i].index <= rows[j].index)
    ensures PickIdx(values, probabilities) == rows[k].index
    ensures (k == |rows| - 1 || Running(rows, k + 1) >= 0.5) && forall i :: 0 < i <= k ==> Running(rows, i) < 0.5
  {
    rows := Sort(Rows(values, probabilities));
    SortSorts(Rows(values, probabilities));
    k := HalfPoint(rows, 0);
    FirstHalf(rows, 0);
    assert forall i, j :: 0 <= i < j < |rows| ==> Precedes(rows[i], rows[j]);
  }

  lemma {:induction false} FirstHalf(rows: seq<Row>, from: nat)
    requires from < |rows|
    ensures var k := HalfPoint(rows, from);
            (k == |rows| - 1 || Running(rows, k + 1) >= 0.5) && forall i :: from < i <= k ==> Running(rows, i) < 0.5
    decreases |rows| - from
  {
    if from < |rows| - 1 && Running(rows, from + 1) < 0.5 {
      FirstHalf(rows, from + 1);
    }
  }

  function MedianIdx(values: seq<real>, weights: seq<real>): (idx: nat)
    requires |values| == |weights| > 0 && Sum(weights) != 0.0
    ensures idx < |values|
  {
    PickIdx(values, Mapped(weights, DivideBy(Sum(weights))))
  }

  lemma RowFromInput(values: seq<real>, probabilities: seq<real>, k: nat)
    requires |values| == |probabilities| && k < |values|
    ensures var row := Sort(Rows(values, probabilities))[k];
            row.index < |values| && row.value == values[row.index] && row.weight == probabilities[row.index]
  {
    assert Sort(Rows(values, probabilities))[k] in multiset(Rows(values, probabilities));
  }

  method WeightedMedianIdx(values: seq<real>, weights: seq<real>) returns (r: Result<nat, MedianError>)
    requires |values| == |weights|
    ensures r == if values == [] then Err(EmptyList)
                 else if Sum(weights) == 0.0 then Err(ZeroDivision)
                 else Ok(MedianIdx(values, weights))
  {
    var sumWeights := 0.0;
    for i := 0 to |weights|
      invariant sumWeights == Sum(weights[..i])
    {
      assert weights[..i + 1][..i] == weights[..i];
      sumWeights := sumWeights + weights[i];
    }
    assert weights[..|weights|] == weights;
    if values == [] {
      return Err(EmptyList);
    }
    if sumWeights == 0.0 {
      return Err(ZeroDivision);
    }
    var sortedTuples := Sort(Rows(values, Mapped(weights, DivideBy(sumWeights))));
    var cumulativeProbability := 0.0;
    var i := 0;
    while i < |sortedTuples|
      invariant 0 <= i <= |sortedTuples|
      invariant cumulativeProbability == Running(sortedTuples, i)
      invariant i < |sortedTuples| ==> HalfPoint(sortedTuples, 0) == HalfPoint(sortedTuples, i)
      invariant i == |sortedTuples| ==> HalfPoint(sortedTuples, 0) == |sortedTuples| - 1
    {
      cumulativeProbability := cumulativeProbability + sortedTuples[i].weight;
      if cumulativeProbability > 0.5 {
        return Ok(sortedTuples[i].index);
      } else if cumulativeProbability == 0.5 {
        return Ok(sortedTuples[i].index);
      }
      i := i + 1;
    }
    r := Ok(sortedTuples[|sortedTuples| - 1].index);
  }

  // ----- Weights do not depend on the order of the entries

  lemma {:induction false} UpToAppend(a: seq<Entry>, b: seq<Entry>, v: real)
    ensures UpTo(a + b, v) == UpTo(a, v) + UpTo(b, v)
    ensures Below(a + b, v) == Below(a, v) + Below(b, v)
    ensures Total(a + b) == Total(a) + Total(b)
    decreases |b|
  {
    if b == [] {
      assert a + b == a;
    } else {
      assert (a + b)[..|a + b| - 1] == a + b[..|b| - 1];
      UpToAppend(a, b[..|b| - 1], v);
    }
  }

  lemma {:induction false} WeightsOfPermutation(a: seq<Entry>, b: seq<Entry>, v: real)
    requires multiset(a) == multiset(b)
    ensures UpTo(a, v) == UpTo(b, v) && Below(a, v) == Below(b, v) && Total(a) == Total(b)
    decreases |a|
  {
    if a == [] {
      assert |multiset(b)| == 0;
    } else {
      var k := PermutationStep(a, b);
      WeightsOfPermutation(a[..|a| - 1], RemoveAt(b, k), v);
      WeightsWithout(b, k, v);
    }
  }

  lemma {:induction false} WeightsWithout(b: seq<Entry>, k: nat, v: real)
    requires k < |b|
    ensures UpTo(b, v) == UpTo(RemoveAt(b, k), v) + (if b[k].value <= v then b[k].weight else 0.0)
    ensures Below(b, v) == Below(RemoveAt(b, k), v) + (if b[k].value < v then b[k].weight else 0.0)
    ensures Total(b) == Total(RemoveAt(b, k)) + b[k].weight
  {
    assert b == b[..k] + [b[k]] + b[k + 1..];
    UpToAppend(b[..k] + [b[k]], b[k + 1..], v);
    UpToAppend(b[..k], [b[k]], v);
    UpToAppend(b[..k], b[k + 1..], v);
    OneEntry(b[k], v);
  }

  lemma {:induction false} OneEntry(e: Entry, v: real)
    ensures UpTo([e], v) == if e.value <= v then e.weight else 0.0
    ensures Below([e], v) == if e.value < v then e.weight else 0.0
    ensures Total([e]) == e.weight
  {
    assert [e][..0] == [];
  }

  lemma {:induction false} EntriesPermutation(a: seq<Row>, b: seq<Row>)
    requires multiset(a) == multiset(b)
    ensures multiset(EntriesOf(a)) == multiset(EntriesOf(b))
    decreases |a|
  {
    if a == [] {
      assert |multiset(b)| == 0;
    } else {
      var k := PermutationStep(a, b);
      var init, rest := a[..|a| - 1], RemoveAt(b, k);
      EntriesPermutation(init, rest);
      var last := EntriesOf(b)[k];
      assert EntriesOf(a) == EntriesOf(init) + [last];
      RemoveAtMultiset(EntriesOf(b), k);
      assert RemoveAt(EntriesOf(b), k) == EntriesOf(rest);
    }
  }

  // ----- Sorted rows and running weights

  lemma {:induction false} AllBelow(es: seq<Entry>, v: real)
    ensures (forall i :: 0 <= i < |es| ==> es[i].value <= v) ==> UpTo(es, v) == Total(es)
    ensures (forall i :: 0 <= i < |es| ==> es[i].value > v) ==> UpTo(es, v) == 0.0
  {
    if es != [] {
      var init := es[..|es| - 1];
      assert forall i :: 0 <= i < |init| ==> init[i] == es[i];
      AllBelow(init, v);
    }
  }

  lemma {:induction false} UpToBounds(es: seq<Entry>, v: real)
    requires NonNegative(es)
    ensures 0.0 <= Below(es, v) <= UpTo(es, v) <= Total(es)
  {
    if es != [] {
      UpToBounds(es[..|es| - 1], v);
    }
  }

  lemma {:induction false} PrefixBelow(a: seq<Entry>, b: seq<Entry>, v: real)
    requires NonNegative(b) && forall i :: 0 <= i < |a| ==> a[i].value <= v
    ensures UpTo(a + b, v) >= Total(a)
  {
    UpToAppend(a, b, v);
    AllBelow(a, v);
    UpToBounds(b, v);
  }

  lemma {:induction false} SuffixAbove(a: seq<Entry>, b: seq<Entry>, u: real)
    requires NonNegative(a) && forall i :: 0 <= i < |b| ==> b[i].value > u
    ensures UpTo(a + b, u) <= Total(a)
  {
    UpToAppend(a, b, u);
    AllBelow(b, u);
    UpToBounds(a, u);
  }

  /** Around a position that splits the entries by value, the running weight up to it bounds the weight at
      or below any value on either side of it. */
  lemma {:induction false} RunningWeight(es: seq<Entry>, k: nat, u: real)
    requires NonNegative(es) && k < |es|
    requires forall i :: 0 <= i <= k ==> es[i].value <= es[k].value
    requires forall i :: k <= i < |es| ==> es[i].value >= es[k].value
    ensures UpTo(es, es[k].value) >= Total(es[..k + 1])
    ensures u < es[k].value ==> UpTo(es, u) <= Total(es[..k])
  {
    PrefixBelow(es[..k + 1], es[k + 1..], es[k].value);
    assert es[..k + 1] + es[k + 1..] == es;
    if u < es[k].value {
      SuffixAbove(es[..k], es[k..], u);
      assert es[..k] + es[k..] == es;
    }
  }

  /** The half point: the running weight reaches one half there and not one row earlier. */
  lemma {:induction false} HalfPointReached(rows: seq<Row>, from: nat)
    requires from < |rows|
    requires from > 0 ==> Running(rows, from) < 0.5
    requires Running(rows, |rows|) >= 0.5
    ensures var k := HalfPoint(rows, from);
            Running(rows, k + 1) >= 0.5 && (k > 0 ==> Running(rows, k) < 0.5)
    decreases |rows| - from
  {
    if from < |rows| - 1 && Running(rows, from + 1) < 0.5 {
      HalfPointReached(rows, from + 1);
    }
  }

  // ----- Rescaling

  ghost predicate AddsAt(f: real -> real, x: real, y: real) {
    f(x + y) == f(x) + f(y)
  }

  ghost predicate Additive(f: real -> real) {
    forall x, y :: AddsAt(f, x, y)
  }

  /** An order-preserving linear rescaling of weights, such as dividing by a positive total. */
  ghost predicate Rescaling(f: real -> real) {
    && Additive(f)
    && (forall x :: f(x) >= 0.0 <==> x >= 0.0)
  }

  function Rescaled(es: seq<Entry>, f: real -> real): (r: seq<Entry>)
    ensures |r| == |es|
    ensures forall i :: 0 <= i < |es| ==> r[i] == Entry(es[i].value, f(es[i].weight))
  {
    seq(|es|, i requires 0 <= i < |es| => Entry(es[i].value, f(es[i].weight)))
  }

  lemma {:induction false} RescaledWeights(es: seq<Entry>, f: real -> real, v: real)
    requires Additive(f)
    ensures UpTo(Rescaled(es, f), v) == f(UpTo(es, v))
    ensures Total(Rescaled(es, f)) == f(Total(es))
  {
    assert AddsAt(f, 0.0, 0.0);
    if es != [] {
      var init := es[..|es| - 1];
      RescaledWeights(init, f, v);
      var last := es[|es| - 1].weight;
      assert AddsAt(f, UpTo(init, v), last) && AddsAt(f, UpTo(init, v), 0.0) && AddsAt(f, Total(init), last);
      assert Rescaled(es, f)[..|es| - 1] == Rescaled(init, f);
    }
  }

  lemma HalfPreserved(f: real -> real, x: real, t: real)
    requires Rescaling(f)
    ensures 2.0 * f(x) >= f(t) <==> 2.0 * x >= t
  {
    assert AddsAt(f, x, x) && AddsAt(f, x + x - t, t);
    assert (x + x - t) + t == x + x;
  }

  lemma MedianOfRescaled(es: seq<Entry>, f: real -> real, v: real)
    requires Rescaling(f)
    ensures IsMedian(Rescaled(es, f), v) <==> IsMedian(es, v)
  {
    var es' := Rescaled(es, f);
    forall u ensures 2.0 * UpTo(es', u) >= Total(es') <==> 2.0 * UpTo(es, u) >= Total(es) {
      RescaledWeights(es, f, u);
      HalfPreserved(f, UpTo(es, u), Total(es));
    }
    assert forall i :: 0 <= i < |es| ==> es'[i].value == es[i].value;
  }

  lemma {:induction false} TotalIsSum(values: seq<real>, weights: seq<real>)
    requires |values| == |weights|
    ensures Total(Entries(values, weights)) == Sum(weights)
  {
    if weights != [] {
      var n := |weights| - 1;
      assert Entries(values, weights)[..n] == Entries(values[..n], weights[..n]);
      TotalIsSum(values[..n], weights[..n]);
    }
  }

  lemma DivideByAdds(total: real)
    requires total != 0.0
    ensures Additive(DivideBy(total))
    ensures DivideBy(total)(total) == 1.0
  {
    forall x, y ensures AddsAt(DivideBy(total), x, y) {
      QuotientOfSum(x, y, total);
    }
    assert total / total == 1.0;
  }

  lemma QuotientOfSum(x: real, y: real, t: real)
    requires t != 0.0
    ensures (x + y) / t == x / t + y / t
  {}

  lemma DivideByRescales(total: real)
    requires total > 0.0
    ensures Rescaling(DivideBy(total)) && DivideBy(total)(total) == 1.0
  {
    DivideByAdds(total);
    forall x ensures DivideBy(total)(x) >= 0.0 <==> x >= 0.0 {
      SignOfQuotient(x, total);
    }
  }

  lemma SignOfQuotient(x: real, t: real)
    requires t > 0.0
    ensures x / t >= 0.0 <==> x >= 0.0
  {}

  /** Probabilities made by a linear map sending the sum of the weights to one. */
  lemma {:induction false} Normalised(values: seq<real>, weights: seq<real>, f: real -> real)
    requires |values| == |weights| && f(Sum(weights)) == 1.0
    requires Additive(f)
    ensures Entries(values, Mapped(weights, f)) == Rescaled(Entries(values, weights), f)
    ensures Total(Entries(values, Mapped(weights, f))) == 1.0
  {
    RescaledWeights(Entries(values, weights), f, 0.0);
    TotalIsSum(values, weights);
  }

  // ----- The median

  lemma SortedEntries(values: seq<real>, probabilities: seq<real>)
    requires |values| == |probabilities|
    ensures multiset(EntriesOf(Sort(Rows(values, probabilities)))) == multiset(Entries(values, probabilities))
  {
    EntriesPermutation(Sort(Rows(values, probabilities)), Rows(values, probabilities));
    assert EntriesOf(Rows(values, probabilities)) == Entries(values, probabilities);
  }

  /** The trailing return is never reached: whatever the signs of the weights, the running weight of
      the last row is one. */
  lemma {:induction false} FallThroughUnreachable(values: seq<real>, weights: seq<real>)
    requires |values| == |weights| > 0 && Sum(weights) != 0.0
    ensures SomeRowReachesHalf(Sort(Rows(values, Mapped(weights, DivideBy(Sum(weights))))))
  {
    var f := DivideBy(Sum(weights));
    assert Additive(f) && f(Sum(weights)) == 1.0 by {
      DivideByAdds(Sum(weights));
    }
    LinearMapReachesHalf(values, weights, f);
  }

  ghost predicate SomeRowReachesHalf(rows: seq<Row>)
    requires |rows| > 0
  {
    Running(rows, HalfPoint(rows, 0) + 1) >= 0.5
  }

  lemma {:induction false} LinearMapReachesHalf(values: seq<real>, weights: seq<real>, f: real -> real)
    requires |values| == |weights| > 0 && f(Sum(weights)) == 1.0
    requires Additive(f)
    ensures SomeRowReachesHalf(Sort(Rows(values, Mapped(weights, f))))
  {
    var probabilities := Mapped(weights, f);
    assert Total(Entries(values, probabilities)) == 1.0 by {
      Normalised(values, weights, f);
    }
    ReachesHalf(values, probabilities);
  }

  lemma ReachesHalf(values: seq<real>, probabilities: seq<real>)
    requires |values| == |probabilities| > 0 && Total(Entries(values, probabilities)) == 1.0
    ensures var rows := Sort(Rows(values, probabilities));
            var k := HalfPoint(rows, 0);
            && Total(EntriesOf(rows)) == 1.0 && Running(rows, k + 1) >= 0.5
            && (k > 0 ==> Running(rows, k) < 0.5)
  {
    var rows := Sort(Rows(values, probabilities));
    SortedEntries(values, probabilities);
    WeightsOfPermutation(EntriesOf(rows), Entries(values, probabilities), 0.0);
    RunningIsTotal(rows, |rows|);
    assert EntriesOf(rows)[..|rows|] == EntriesOf(rows);
    HalfPointReached(rows, 0);
  }

  /** Sorted probabilities: the row at the half point holds the median. */
  lemma HalfPointIsMedian(rows: seq<Row>, k: nat)
    requires k < |rows| && Sorted(rows) && NonNegative(EntriesOf(rows)) && Total(EntriesOf(rows)) == 1.0
    requires Running(rows, k + 1) >= 0.5 && (k > 0 ==> Running(rows, k) < 0.5)
    ensures IsMedian(EntriesOf(rows), rows[k].value)
  {
    var sorted := EntriesOf(rows);
    RunningIsTotal(rows, k + 1);
    RunningIsTotal(rows, k);
    assert forall i, j :: 0 <= i < j < |sorted| ==> sorted[i].value <= sorted[j].value by {
      forall i, j | 0 <= i < j < |sorted| ensures sorted[i].value <= sorted[j].value {
        assert Precedes(rows[i], rows[j]);
      }
    }
    RunningWeight(sorted, k, 0.0);
    assert sorted[k].value == rows[k].value;
    forall i | 0 <= i < |sorted| && sorted[i].value < rows[k].value
        ensures 2.0 * UpTo(sorted, sorted[i].value) < Total(sorted) {
      RunningWeight(sorted, k, sorted[i].value);
    }
  }

  lemma SortedNonNegative(values: seq<real>, probabilities: seq<real>)
    requires |values| == |probabilities| && NonNegative(Entries(values, probabilities))
    ensures NonNegative(EntriesOf(Sort(Rows(values, probabilities))))
  {
    forall i | 0 <= i < |values| ensures Sort(Rows(values, probabilities))[i].weight >= 0.0 {
      RowFromInput(values, probabilities, i);
      assert Entries(values, probabilities)[Sort(Rows(values, probabilities))[i].index].weight >= 0.0;
    }
  }

  /** For probabilities the picked value is the median. */
  lemma PickIsMedian(values: seq<real>, probabilities: seq<real>)
    requires |values| == |probabilities| > 0
    requires NonNegative(Entries(values, probabilities)) && Total(Entries(values, probabilities)) == 1.0
    ensures IsMedian(Entries(values, probabilities), values[PickIdx(values, probabilities)])
  {
    var rows := Sort(Rows(values, probabilities));
    var k := HalfPoint(rows, 0);
    SortedNonNegative(values, probabilities);
    SortSorts(Rows(values, probabilities));
    ReachesHalf(values, probabilities);
    HalfPointIsMedian(rows, k);
    SortedEntries(values, probabilities);
    PermutedMedian(EntriesOf(rows), Entries(values, probabilities), rows[k].value);
    RowFromInput(values, probabilities, k);
  }

  lemma {:induction false} MedianByRescaling(values: seq<real>, weights: seq<real>, f: real -> real)
    requires |values| == |weights| > 0 && NonNegative(Entries(values, weights))
    requires Rescaling(f) && f(Sum(weights)) == 1.0
    ensures IsMedian(Entries(values, weights), values[PickIdx(values, Mapped(weights, f))])
  {
    Normalised(values, weights, f);
    var es := Entries(values, Mapped(weights, f));
    forall i | 0 <= i < |es| ensures es[i].weight >= 0.0 {
      assert es[i].weight == f(Entries(values, weights)[i].weight);
    }
    PickIsMedian(values, Mapped(weights, f));
    MedianOfRescaled(Entries(values, weights), f, values[PickIdx(values, Mapped(weights, f))]);
  }

  /** For non-negative weights with a positive sum the result is the least listed value such that the
      weight at or below it reaches half the total. */
  lemma {:induction false} MedianIsLeastHalfValue(values: seq<real>, weights: seq<real>)
    requires |values| == |weights| && Sum(weights) > 0.0 && NonNegative(Entries(values, weights))
    ensures |values| > 0 && IsMedian(Entries(values, weights), values[MedianIdx(values, weights)])
  {
    assert weights != [];
    DivideByRescales(Sum(weights));
    MedianByRescaling(values, weights, DivideBy(Sum(weights)));
  }

  // ----- Consequences

  lemma {:induction false} BelowViaUpTo(es: seq<Entry>, v: real)
    ensures Below(es, v) == 0.0 || exists i :: 0 <= i < |es| && es[i].value < v && Below(es, v) == UpTo(es, es[i].value)
  {
    // the greatest listed value below v carries the same weight
    if i :| 0 <= i < |es| && es[i].value < v && forall j :: 0 <= j < |es| && es[j].value < v ==>
        es[j].value <= es[i].value {
      SameBelow(es, v, es[i].value);
    } else {
      NoGreatestBelow(es, v);
    }
  }

  lemma {:induction false} SameBelow(es: seq<Entry>, v: real, u: real)
    requires u < v && forall j :: 0 <= j < |es| && es[j].value < v ==> es[j].value <= u
    ensures Below(es, v) == UpTo(es, u)
  {
    if es != [] {
      var init := es[..|es| - 1];
      assert forall j :: 0 <= j < |init| ==> init[j] == es[j];
      SameBelow(init, v, u);
    }
  }

  lemma {:induction false} NoGreatestBelow(es: seq<Entry>, v: real)
    requires !exists i :: 0 <= i < |es| && es[i].value < v && forall j :: 0 <= j < |es| && es[j].value < v ==>
             es[j].value <= es[i].value
    ensures Below(es, v) == 0.0
  {
    var m := GreatestBelow(es, v);
    if m == |es| {
      NothingBelow(es, v);
    }
  }

  lemma {:induction false} NothingBelow(es: seq<Entry>, v: real)
    requires forall j :: 0 <= j < |es| ==> es[j].value >= v
    ensures Below(es, v) == 0.0
  {
    if es != [] {
      var init := es[..|es| - 1];
      assert forall j :: 0 <= j < |init| ==> init[j] == es[j];
      NothingBelow(init, v);
    }
  }

  lemma GreatestBelow(es: seq<Entry>, v: real) returns (m: nat)
    ensures m <= |es|
    ensures m == |es| ==> forall j :: 0 <= j < |es| ==> es[j].value >= v
    ensures m < |es| ==> es[m].value < v && forall j :: 0 <= j < |es| && es[j].value < v ==> es[j].value <= es[m].value
  {
    m := |es|;
    for i := 0 to |es|
      invariant m < i || m == |es|
      invariant m == |es| ==> forall j :: 0 <= j < i ==> es[j].value >= v
      invariant m < |es| ==> es[m].value < v && forall j :: 0 <= j < i && es[j].value < v ==> es[j].value <= es[m].value
    {
      if es[i].value < v && (m == |es| || es[m].value < es[i].value) {
        m := i;
      }
    }
  }

  /** Less than half the weight lies strictly below the median, and at most half strictly above. */
  lemma {:induction false} MedianSplitsWeight(es: seq<Entry>, v: real)
    requires IsMedian(es, v) && Total(es) > 0.0
    ensures 2.0 * Below(es, v) < Total(es)
    ensures 2.0 * (Total(es) - UpTo(es, v)) <= Total(es)
  {
    BelowViaUpTo(es, v);
  }

  /** There is only one such value. */
  lemma MedianUnique(es: seq<Entry>, u: real, v: real)
    requires IsMedian(es, u) && IsMedian(es, v)
    ensures u == v
  {}

  /** Permuting the (value, weight) pairs does not change the value. */
  lemma {:induction false} MedianOfPermutation(values: seq<real>, weights: seq<real>, values': seq<real>,
                                               weights': seq<real>)
    requires |values| == |weights| && |values'| == |weights'|
    requires multiset(Entries(values, weights)) == multiset(Entries(values', weights'))
    requires Sum(weights) > 0.0 && NonNegative(Entries(values, weights))
    ensures |values| > 0 && |values'| > 0 && Sum(weights') == Sum(weights)
    ensures values'[MedianIdx(values', weights')] == values[MedianIdx(values, weights)]
  {
    var es, es' := Entries(values, weights), Entries(values', weights');
    TotalIsSum(values, weights);
    TotalIsSum(values', weights');
    WeightsOfPermutation(es, es', 0.0);
    forall e ensures e in es <==> e in es' {
      assert e in multiset(es) <==> e in multiset(es');
    }
    assert forall i :: 0 <= i < |es'| ==> es'[i] in es;
    MedianIsLeastHalfValue(values, weights);
    MedianIsLeastHalfValue(values', weights');
    PermutedMedian(es, es', values[MedianIdx(values, weights)]);
    MedianUnique(es', values[MedianIdx(values, weights)], values'[MedianIdx(values', weights')]);
  }

  lemma PermutedMedian(es: seq<Entry>, es': seq<Entry>, v: real)
    requires multiset(es) == multiset(es') && IsMedian(es, v)
    ensures IsMedian(es', v)
  {
    forall e ensures e in es <==> e in es' {
      assert e in multiset(es) <==> e in multiset(es');
    }
    WeightsOfPermutation(es, es', v);
    var at :| 0 <= at < |es| && es[at].value == v;
    assert es[at] in es';
    forall i | 0 <= i < |es'| && es'[i].value < v ensures 2.0 * UpTo(es', es'[i].value) < Total(es') {
      WeightsOfPermutation(es, es', es'[i].value);
      assert es'[i] in es;
      var j :| 0 <= j < |es| && es[j] == es'[i];
    }
  }

  /** Scaling all weights by a positive factor does not change the value. */
  lemma {:induction false} MedianOfScaled(values: seq<real>, weights: seq<real>, scaled: seq<real>, c: real)
    requires |values| == |weights| == |scaled| && c > 0.0
    requires forall i :: 0 <= i < |weights| ==> scaled[i] == c * weights[i]
    requires Sum(weights) > 0.0 && NonNegative(Entries(values, weights))
    ensures |values| > 0 && Sum(scaled) > 0.0
    ensures values[MedianIdx(values, scaled)] == values[MedianIdx(values, weights)]
  {
    ScaleByRescales(c);
    MedianOfRescaledWeights(values, weights, scaled, ScaleBy(c));
  }

  function ScaleBy(c: real): real -> real {
    x => c * x
  }

  lemma ScaleByRescales(c: real)
    requires c > 0.0
    ensures Rescaling(ScaleBy(c))
  {
    forall x, y ensures AddsAt(ScaleBy(c), x, y) {
      Distribute(c, x, y);
    }
    forall x ensures ScaleBy(c)(x) >= 0.0 <==> x >= 0.0 {
      SignOfProduct(c, x);
    }
  }

  lemma SignOfProduct(c: real, x: real)
    requires c > 0.0
    ensures c * x >= 0.0 <==> x >= 0.0
  {}

  lemma {:induction false} MedianOfRescaledWeights(values: seq<real>, weights: seq<real>, scaled: seq<real>,
        f: real -> real)
    requires |values| == |weights| == |scaled| && Rescaling(f)
    requires forall i :: 0 <= i < |weights| ==> scaled[i] == f(weights[i])
    requires Sum(weights) > 0.0 && NonNegative(Entries(values, weights))
    ensures |values| > 0 && Sum(scaled) > 0.0
    ensures values[MedianIdx(values, scaled)] == values[MedianIdx(values, weights)]
  {
    var es, es' := Entries(values, weights), Entries(values, scaled);
    assert es' == Rescaled(es, f);
    TotalIsSum(values, weights);
    TotalIsSum(values, scaled);
    RescaledWeights(es, f, 0.0);
    PositiveKept(f, Sum(weights));
    forall i | 0 <= i < |es'| ensures es'[i].weight >= 0.0 {
      assert es[i].weight >= 0.0;
    }
    MedianIsLeastHalfValue(values, weights);
    MedianIsLeastHalfValue(values, scaled);
    MedianOfRescaled(es, f, values[MedianIdx(values, weights)]);
    MedianUnique(es', values[MedianIdx(values, weights)], values[MedianIdx(values, scaled)]);
  }

  lemma PositiveKept(f: real -> real, x: real)
    requires Rescaling(f) && x > 0.0
    ensures f(x) > 0.0
  {
    assert AddsAt(f, x, -x) && AddsAt(f, 0.0, 0.0);
    assert x + -x == 0.0;
  }

  // ----- Optimality

  function Distance(a: real, b: real): real {
    if a < b then b - a else a - b
  }

  function Summed(es: seq<Entry>, g: Entry -> real): real {
    if es == [] then 0.0 else Summed(es[..|es| - 1], g) + g(es[|es| - 1])
  }

  function Deviation(x: real): Entry -> real {
    (e: Entry) => e.weight * Distance(e.value, x)
  }

  /** Weighted sum of absolute deviations from x. */
  function Cost(es: seq<Entry>, x: real): real {
    Summed(es, Deviation(x))
  }

  /** The weight of an entry, negative when it lies ahead of one moving right, or left, from v. */
  function Side(v: real, right: bool): Entry -> real {
    (e: Entry) => if (if right then e.value <= v else e.value >= v) then e.weight else -e.weight
  }

  lemma {:induction false} BalanceIs(es: seq<Entry>, v: real)
    ensures Summed(es, Side(v, true)) == 2.0 * UpTo(es, v) - Total(es)
    ensures Summed(es, Side(v, false)) == Total(es) - 2.0 * Below(es, v)
  {
    if es != [] {
      BalanceIs(es[..|es| - 1], v);
    }
  }

  ghost predicate Dominates(g: Entry -> real, h: Entry -> real, b: Entry -> real, e: Entry) {
    g(e) - h(e) >= b(e)
  }

  lemma {:induction false} SummedBound(es: seq<Entry>, g: Entry -> real, h: Entry -> real, b: Entry -> real)
    requires forall i :: 0 <= i < |es| ==> Dominates(g, h, b, es[i])
    ensures Summed(es, g) - Summed(es, h) >= Summed(es, b)
  {
    if es != [] {
      SummedBound(es[..|es| - 1], g, h, b);
    }
  }

  function Times(d: real, g: Entry -> real): Entry -> real {
    (e: Entry) => d * g(e)
  }

  lemma {:induction false} SummedTimes(es: seq<Entry>, d: real, g: Entry -> real)
    ensures Summed(es, Times(d, g)) == d * Summed(es, g)
  {
    if es != [] {
      SummedTimes(es[..|es| - 1], d, g);
      Distribute(d, Summed(es[..|es| - 1], g), g(es[|es| - 1]));
    }
  }

  /** Moving from v to x costs at least the distance times the weight behind minus the weight ahead. */
  lemma {:induction false} CostOfMoving(es: seq<Entry>, v: real, x: real)
    requires NonNegative(es)
    ensures Cost(es, x) - Cost(es, v) >= Summed(es, Times(Distance(v, x), Side(v, v <= x)))
  {
    var there, here, bound := Deviation(x), Deviation(v), Times(Distance(v, x), Side(v, v <= x));
    forall i | 0 <= i < |es| ensures Dominates(there, here, bound, es[i]) {
      OneEntryCost(es[i], v, x);
    }
    SummedBound(es, there, here, bound);
  }

  lemma OneEntryCost(e: Entry, v: real, x: real)
    requires e.weight >= 0.0
    ensures Dominates(Deviation(x), Deviation(v), Times(Distance(v, x), Side(v, v <= x)), e)
  {
    var d := Distance(v, x);
    var near := if v <= x then e.value <= v else e.value >= v;
    WeightedLeq(e.weight, if near then d else -d, Distance(e.value, x) - Distance(e.value, v));
  }

  lemma WeightedLeq(w: real, a: real, b: real)
    requires w >= 0.0 && a <= b
    ensures w * a <= w * b
  {
    assert w * b - w * a == w * (b - a);
  }

  lemma Distribute(c: real, x: real, y: real)
    ensures c * (x + y) == c * x + c * y
  {}

  lemma NonNegativeProduct(a: real, b: real)
    requires a >= 0.0 && b >= 0.0
    ensures a * b >= 0.0
  {}

  /** The median minimises the weighted sum of absolute deviations over all reals. */
  lemma {:induction false} MedianIsOptimal(es: seq<Entry>, v: real, x: real)
    requires NonNegative(es) && IsMedian(es, v) && Total(es) > 0.0
    ensures Cost(es, v) <= Cost(es, x)
  {
    MedianSplitsWeight(es, v);
    BalanceIs(es, v);
    CostOfMoving(es, v, x);
    SummedTimes(es, Distance(v, x), Side(v, v <= x));
    NonNegativeProduct(Distance(v, x), Summed(es, Side(v, v <= x)));
  }

  // ----- Robustness

  /** Weight of the entries with a value in [lo, hi]. */
  function Within(es: seq<Entry>, lo: real, hi: real): real {
    if es == [] then 0.0 else
      Within(es[..|es| - 1], lo, hi) + (if lo <= es[|es| - 1].value <= hi then es[|es| - 1].weight else 0.0)
  }

  lemma {:induction false} WithinOutside(es: seq<Entry>, lo: real, hi: real, v: real)
    requires NonNegative(es)
    ensures v < lo ==> Within(es, lo, hi) + UpTo(es, v) <= Total(es)
    ensures v > hi ==> Within(es, lo, hi) <= Below(es, v)
  {
    if es != [] {
      WithinOutside(es[..|es| - 1], lo, hi, v);
    }
  }

  /** A majority of the weight inside a range pins the median into that range. */
  lemma {:induction false} MajorityPinsMedian(es: seq<Entry>, v: real, lo: real, hi: real)
    requires NonNegative(es) && IsMedian(es, v) && Total(es) > 0.0
    requires 2.0 * Within(es, lo, hi) > Total(es)
    ensures lo <= v <= hi
  {
    MedianSplitsWeight(es, v);
    WithinOutside(es, lo, hi, v);
  }
}
