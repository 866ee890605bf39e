/** The gas price for transactions (servers/common/services/blockchain.py: GasCalculator). The admitted
    percentage is applied exactly; Python computes it in floating point. */
module GasCalculator {
  import opened Prelude
  import Helpers

  datatype GasConfig = GasConfig(
    defaultGasPrice: int, gasPercentageAdmitted: int, hardLimitMin: int, hardLimitMax: int, hardLimitMultiplier: int)

  /** One refresh: the node's price (None if it has none, an error if asking raises) and the limit
      service's value (None without a service or with a value that is not an int). */
  datatype Reading = Reading(nodePrice: Result<Option<int>, ()>, serviceValue: Option<int>)

  /** `get_gas_price_plus_x_perc`. */
  function PlusPercentage(price: real, percentage: real): real {
    price + price * (percentage / 100.0)
  }

  /** `get_last_price`. */
  function LastPrice(cfg: GasConfig, last: Option<int>): int {
    match last
    case None => cfg.defaultGasPrice
    case Some(price) => Truncate(PlusPercentage(price as real, cfg.gasPercentageAdmitted as real))
  }

  /** The node's price, unless it is missing or above what the last price admits. */
  function Admitted(cfg: GasConfig, last: Option<int>, nodePrice: Option<int>): int {
    if nodePrice.None? || nodePrice.value > LastPrice(cfg, last) then LastPrice(cfg, last) else nodePrice.value
  }

  /** Raised to the hard minimum and to one above the service's value. */
  function Raised(cfg: GasConfig, price: int, serviceValue: Option<int>): int {
    var atLeastMin := if cfg.hardLimitMin > price then cfg.hardLimitMin else price;
    if serviceValue.Some? && serviceValue.value + 1 > atLeastMin then serviceValue.value + 1 else atLeastMin
  }

  /** Cut to the hard maximum, unless that is 0. */
  function Cut(cfg: GasConfig, price: int): int {
    if cfg.hardLimitMax != 0 && cfg.hardLimitMax < price then cfg.hardLimitMax else price
  }

  function Current(cfg: GasConfig, last: Option<int>, nodePrice: Option<int>, serviceValue: Option<int>): int {
    Cut(cfg, Raised(cfg, Admitted(cfg, last, nodePrice) * cfg.hardLimitMultiplier, serviceValue))
  }

  class GasCalculator {
    const cfg: GasConfig
    var lastPrice: Option<int>

    constructor (cfg: GasConfig)
      ensures this.cfg == cfg && lastPrice == None
    {
      this.cfg, lastPrice := cfg, None;
    }

    method GetCurrent(reading: Reading) returns (r: Result<int, ()>)
      modifies this
      ensures lastPrice == Refresh(cfg, old(lastPrice), reading)
      ensures if reading.nodePrice.Err? then r.Err? else lastPrice.Some? && r == Ok(lastPrice.value)
    {
      if reading.nodePrice.Err? {
        return Err(());
      }
      var node := reading.nodePrice.value;
      var limit := LastPrice(cfg, lastPrice);
      var gasPrice := if node.None? then limit else node.value;
      if gasPrice > limit {
        gasPrice := limit;
      }
      gasPrice := gasPrice * cfg.hardLimitMultiplier;
      if cfg.hardLimitMin > gasPrice {
        gasPrice := cfg.hardLimitMin;
      }
      if reading.serviceValue.Some? && reading.serviceValue.value + 1 > gasPrice {
        gasPrice := reading.serviceValue.value + 1;
      }
      if cfg.hardLimitMax != 0 && cfg.hardLimitMax < gasPrice {
        gasPrice := cfg.hardLimitMax;
      }
      if lastPrice != Some(gasPrice) {
        lastPrice := Some(gasPrice);
      }
      r := Ok(gasPrice);
    }
  }

  /** The stored price after one refresh; a failed one keeps it. */
  function Refresh(cfg: GasConfig, last: Option<int>, reading: Reading): Option<int> {
    match reading.nodePrice
    case Err(_) => last
    case Ok(node) => Some(Current(cfg, last, node, reading.serviceValue))
  }

  // ----- Over whole runs

  function Stored(cfg: GasConfig, readings: seq<Reading>): Option<int> {
    if readings == [] then None
    else Refresh(cfg, Stored(cfg, readings[..|readings| - 1]), readings[|readings| - 1])
  }

  /** The refreshes that got an answer from the node. */
  function AnsweredOf(readings: seq<Reading>): seq<Reading> {
    if readings == [] then [] else
      AnsweredOf(readings[..|readings| - 1])
      + if readings[|readings| - 1].nodePrice.Ok? then [readings[|readings| - 1]] else []
  }

  /** Failed refreshes leave no trace. */
  lemma {:induction false} FailedRefreshesDoNotCount(cfg: GasConfig, readings: seq<Reading>)
    ensures Stored(cfg, readings) == Stored(cfg, AnsweredOf(readings))
    ensures |AnsweredOf(readings)| == Refreshes(readings)
    ensures Stored(cfg, readings).Some? <==> AnsweredOf(readings) != []
  {
    if readings != [] {
      var init, last := readings[..|readings| - 1], readings[|readings| - 1];
      FailedRefreshesDoNotCount(cfg, init);
      var answered := AnsweredOf(init);
      assert (answered + [last])[..|answered|] == answered && answered + [] == answered;
    }
  }

  /** How many refreshes got an answer from the node. */
  function Refreshes(readings: seq<Reading>): nat {
    if readings == [] then 0
    else Refreshes(readings[..|readings| - 1]) + if readings[|readings| - 1].nodePrice.Ok? then 1 else 0
  }

  function Power(g: real, k: nat): real {
    if k == 0 then 1.0 else Power(g, k - 1) * g
  }

  /** 1 + p / 100. */
  function Percentage(cfg: GasConfig): real {
    1.0 + cfg.gasPercentageAdmitted as real / 100.0
  }

  /** One refresh may multiply the last price by at most this. */
  function Growth(cfg: GasConfig): real {
    (cfg.hardLimitMultiplier as real) * Percentage(cfg)
  }

  /** How far k refreshes can take the price. */
  function Ceiling(cfg: GasConfig, base: int, k: nat): real {
    if k == 0 then base as real else Ceiling(cfg, base, k - 1) * Percentage(cfg) * (cfg.hardLimitMultiplier as real)
  }

  /** What the price may reach without any growth: nothing configured or reported lies above. */
  ghost predicate IsBase(base: int, cfg: GasConfig, readings: seq<Reading>) {
    && base >= 0 && base >= cfg.defaultGasPrice && base >= cfg.hardLimitMin
    && forall i :: 0 <= i < |readings| && readings[i].serviceValue.Some? ==> base >= readings[i].serviceValue.value + 1
  }

  lemma TruncateBelow(x: real, bound: real)
    requires x <= bound && bound >= 0.0
    ensures Truncate(x) as real <= bound
  {}

  lemma PercentageBound(price: real, percentage: real, bound: real, grown: real)
    requires price <= bound && bound >= 0.0 && percentage >= 0.0 && grown == bound * (1.0 + percentage / 100.0)
    ensures PlusPercentage(price, percentage) <= grown && bound <= grown
  {
    var q := 1.0 + percentage / 100.0;
    assert price * q == PlusPercentage(price, percentage);
    Helpers.MulLeft(price, bound, q);
    Helpers.MulLeft(1.0, q, bound);
  }

  lemma LastPriceBound(cfg: GasConfig, last: Option<int>, bound: real, grown: real)
    requires cfg.gasPercentageAdmitted >= 0 && bound >= 0.0 && grown == bound * Percentage(cfg)
    requires (if last.None? then cfg.defaultGasPrice else last.value) as real <= bound
    ensures LastPrice(cfg, last) as real <= grown && bound <= grown
  {
    var p := cfg.gasPercentageAdmitted as real;
    var price := (if last.None? then cfg.defaultGasPrice else last.value) as real;
    PercentageBound(price, p, bound, grown);
    TruncateBelow(PlusPercentage(price, p), grown);
  }

  /** The admitted price grows by no more than the admitted percentage. */
  lemma AdmittedBound(cfg: GasConfig, last: Option<int>, nodePrice: Option<int>, grown: real)
    requires LastPrice(cfg, last) as real <= grown
    ensures Admitted(cfg, last, nodePrice) as real <= grown
  {}

  lemma TimesMultiplier(price: int, m: int, grown: real, next: real)
    requires m >= 1 && grown >= 0.0 && price as real <= grown && next == grown * (m as real)
    ensures (price * m) as real <= next && grown <= next
  {
    Helpers.MulLeft(price as real, grown, m as real);
    assert (price * m) as real == (price as real) * (m as real);
    Helpers.MulLeft(1.0, m as real, grown);
  }

  lemma RaisedAndCut(cfg: GasConfig, price: int, serviceValue: Option<int>, base: int, next: real)
    requires base as real <= next && base >= cfg.hardLimitMin && (serviceValue.Some? ==> base >= serviceValue.value + 1)
    requires price as real <= next
    ensures Cut(cfg, Raised(cfg, price, serviceValue)) as real <= next
  {}

  lemma OneRefresh(cfg: GasConfig, last: Option<int>, nodePrice: Option<int>, serviceValue: Option<int>, base: int,
                   bound: real, grown: real, next: real)
    requires cfg.gasPercentageAdmitted >= 0 && cfg.hardLimitMultiplier >= 1
    requires base >= 0 && base as real <= bound && base >= cfg.defaultGasPrice && base >= cfg.hardLimitMin
    requires serviceValue.Some? ==> base >= serviceValue.value + 1
    requires last.Some? ==> last.value as real <= bound
    requires grown == bound * Percentage(cfg) && next == grown * (cfg.hardLimitMultiplier as real)
    ensures Current(cfg, last, nodePrice, serviceValue) as real <= next && bound <= next
  {
    LastPriceBound(cfg, last, bound, grown);
    AdmittedBound(cfg, last, nodePrice, grown);
    var admitted := Admitted(cfg, last, nodePrice);
    TimesMultiplier(admitted, cfg.hardLimitMultiplier, grown, next);
    RaisedAndCut(cfg, admitted * cfg.hardLimitMultiplier, serviceValue, base, next);
  }

  lemma RefreshBelowCeiling(cfg: GasConfig, last: Option<int>, nodePrice: Option<int>, serviceValue: Option<int>,
                            base: int, k: nat)
    requires cfg.gasPercentageAdmitted >= 0 && cfg.hardLimitMultiplier >= 1
    requires base >= 0 && base as real <= Ceiling(cfg, base, k) && base >= cfg.defaultGasPrice
             && base >= cfg.hardLimitMin
    requires serviceValue.Some? ==> base >= serviceValue.value + 1
    requires last.Some? ==> last.value as real <= Ceiling(cfg, base, k)
    ensures Current(cfg, last, nodePrice, serviceValue) as real <= Ceiling(cfg, base, k + 1)
    ensures Ceiling(cfg, base, k) <= Ceiling(cfg, base, k + 1)
  {
    var bound, next := Ceiling(cfg, base, k), Ceiling(cfg, base, k + 1);
    OneRefresh(cfg, last, nodePrice, serviceValue, base, bound, bound * Percentage(cfg), next);
  }

  /** The ceiling in closed form: B * (m * (1 + p/100))^k. */
  lemma {:induction false} CeilingIsPower(cfg: GasConfig, base: int, k: nat)
    ensures Ceiling(cfg, base, k) == (base as real) * Power(Growth(cfg), k)
  {
    if k > 0 {
      CeilingIsPower(cfg, base, k - 1);
      Reassociate(base as real, Power(Growth(cfg), k - 1), Percentage(cfg), cfg.hardLimitMultiplier as real);
    }
  }

  lemma Reassociate(b: real, w: real, q: real, m: real)
    ensures b * w * q * m == b * (w * (m * q))
  {
    assert b * w * q * m == (b * w) * (q * m);
  }

  /** Over any run, whatever the node says: after k answered refreshes the stored price is at most
      B * (m * (1 + p/100))^k, where B is the default, the minimum or a service value plus one. */
  lemma {:induction false} PriceGrowsAtMostGeometrically(cfg: GasConfig, readings: seq<Reading>, base: int)
    requires cfg.gasPercentageAdmitted >= 0 && cfg.hardLimitMultiplier >= 1 && IsBase(base, cfg, readings)
    ensures Stored(cfg, readings).Some? ==>
            Stored(cfg, readings).value as real <= Ceiling(cfg, base, Refreshes(readings))
    ensures base as real <= Ceiling(cfg, base, Refreshes(readings))
  {
    if readings != [] {
      var init, reading := readings[..|readings| - 1], readings[|readings| - 1];
      assert IsBase(base, cfg, init) by {
        assert forall i :: 0 <= i < |init| ==> init[i] == readings[i];
      }
      PriceGrowsAtMostGeometrically(cfg, init, base);
      if reading.nodePrice.Ok? {
        RefreshBelowCeiling(cfg, Stored(cfg, init), reading.nodePrice.value, reading.serviceValue, base,
                            Refreshes(init));
      }
    }
  }

  /** The stored price never exceeds a hard maximum that is set. */
  lemma {:induction false} NeverAboveHardMax(cfg: GasConfig, readings: seq<Reading>)
    requires cfg.hardLimitMax != 0
    ensures Stored(cfg, readings).Some? ==> Stored(cfg, readings).value <= cfg.hardLimitMax
  {
    if readings != [] {
      NeverAboveHardMax(cfg, readings[..|readings| - 1]);
    }
  }

  /** Every stored price respects the hard minimum exactly when the limits are consistent; with a hard
      maximum below it, even the first price falls short. */
  lemma {:induction false} NeverBelowHardMinIff(cfg: GasConfig)
    ensures (forall readings :: Stored(cfg, readings).Some? ==> Stored(cfg, readings).value >= cfg.hardLimitMin)
            <==> (cfg.hardLimitMax == 0 || cfg.hardLimitMax >= cfg.hardLimitMin)
  {
    if cfg.hardLimitMax == 0 || cfg.hardLimitMax >= cfg.hardLimitMin {
      forall readings ensures Stored(cfg, readings).Some? ==> Stored(cfg, readings).value >= cfg.hardLimitMin {
        AboveHardMin(cfg, readings);
      }
    } else {
      var readings := [Reading(Ok(None), None)];
      assert Stored(cfg, readings).value == Current(cfg, Stored(cfg, readings[..0]), None, None);
      assert Stored(cfg, readings).value <= cfg.hardLimitMax;
    }
  }

  lemma {:induction false} AboveHardMin(cfg: GasConfig, readings: seq<Reading>)
    requires cfg.hardLimitMax == 0 || cfg.hardLimitMax >= cfg.hardLimitMin
    ensures Stored(cfg, readings).Some? ==> Stored(cfg, readings).value >= cfg.hardLimitMin
  {
    if readings != [] {
      AboveHardMin(cfg, readings[..|readings| - 1]);
    }
  }

  /** The price beats the limit service's value unless the hard maximum forbids it. */
  lemma BeatsServiceValueIff(cfg: GasConfig, last: Option<int>, nodePrice: Option<int>, serviceValue: int)
    ensures Current(cfg, last, nodePrice, Some(serviceValue)) > serviceValue
            <==> cfg.hardLimitMax == 0 || cfg.hardLimitMax > serviceValue
  {}

  /** What the last price admits: the default before any price is known; afterwards, in whole units, the last price
      and the admitted percentage of it, rounded down. */
  lemma LastPriceIs(cfg: GasConfig, last: int)
    ensures LastPrice(cfg, None) == cfg.defaultGasPrice
    ensures last >= 0 && cfg.gasPercentageAdmitted >= 0 ==>
              var limit := LastPrice(cfg, Some(last));
              limit * 100 <= last * (100 + cfg.gasPercentageAdmitted) < (limit + 1) * 100
  {
    if last >= 0 && cfg.gasPercentageAdmitted >= 0 {
      var p, limit := cfg.gasPercentageAdmitted, LastPrice(cfg, Some(last));
      var x := PlusPercentage(last as real, p as real);
      PercentOf(last, p);
      Helpers.MulLeft(0.0, last as real, (100 + p) as real);
      assert limit as real <= x < (limit + 1) as real;
    }
  }

  lemma PercentOf(price: int, p: int)
    ensures PlusPercentage(price as real, p as real) * 100.0 == (price * (100 + p)) as real
  {
    assert (price as real) * (p as real / 100.0) * 100.0 == (price as real) * (p as real);
    assert (price as real) * (p as real) == (price * p) as real;
    assert price * (100 + p) == price * 100 + price * p;
  }

  /** The price in full: the node's, where it is known and admitted, times the multiplier, but no less than the hard
      minimum and one above the service's value, and no more than a hard maximum that is set. */
  lemma CurrentIs(cfg: GasConfig, last: Option<int>, nodePrice: Option<int>, serviceValue: Option<int>)
    ensures var limit := LastPrice(cfg, last);
            var admitted := if nodePrice.None? then limit else Helpers.Min(nodePrice.value, limit);
            var least := if serviceValue.None? then cfg.hardLimitMin
                         else Helpers.Max(cfg.hardLimitMin, serviceValue.value + 1);
            var raised := Helpers.Max(admitted * cfg.hardLimitMultiplier, least);
            Current(cfg, last, nodePrice, serviceValue)
            == if cfg.hardLimitMax == 0 then raised else Helpers.Min(raised, cfg.hardLimitMax)
  {}
}
