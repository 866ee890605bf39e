/** Price distance (servers/common/helpers.py). */
module Helpers {
  import opened Prelude

  function Abs(x: int): nat {
    if x < 0 then -x else x
  }

  function Min(x: int, y: int): int {
    if x < y then x else y
  }

  function Max(x: int, y: int): int {
    if x < y then y else x
  }

  /** `price_delta`: distance as a percentage of the smaller price; None is a ZeroDivisionError. */
  function PriceDelta(price1: int, price2: int): Option<real> {
    if Min(price1, price2) == 0 then None
    else Some((Abs(price1 - price2) as real) / (Abs(Min(price1, price2)) as real) * 100.0)
  }

  /** For positive prices the delta is within d percent exactly when the larger price is at most
      (1 + d/100) times the smaller. */
  lemma DeltaWithinIff(p: int, q: int, d: real)
    requires p > 0 && q > 0
    ensures PriceDelta(p, q).value <= d <==>
            p as real <= (1.0 + d / 100.0) * (q as real) && q as real <= (1.0 + d / 100.0) * (p as real)
  {
    var lo, hi := Min(p, q) as real, (if p < q then q else p) as real;
    var k := 1.0 + d / 100.0;
    assert Abs(p - q) as real == hi - lo;
    RatioWithin(hi - lo, lo, d);
    assert k * lo == lo + d / 100.0 * lo;
    if hi <= k * lo {
      LargerFactor(lo, hi, k);
    }
  }

  /** There is no delta exactly when the smaller price is zero. */
  lemma DeltaUndefinedIff(p: int, q: int)
    ensures PriceDelta(p, q).None? <==> (p == 0 && q >= 0) || (q == 0 && p >= 0)
  {}

  /** And it reaches t percent exactly when the distance, times 100, is at least t times the smaller price. */
  lemma DeltaReachesIff(p: int, q: int, t: real)
    requires p > 0 && q > 0
    ensures PriceDelta(p, q).value >= t <==>
            (if p < q then q - p else p - q) as real * 100.0 >= t * ((if p < q then p else q) as real)
  {
    var a, b := Abs(p - q) as real, Min(p, q) as real;
    var ratio := a / b;
    assert ratio * b == a;
    if ratio * 100.0 >= t {
      MulLeft(t, ratio * 100.0, b);
      assert ratio * 100.0 * b == ratio * b * 100.0;
    } else {
      MulLess(ratio * 100.0, t, b);
      assert ratio * 100.0 * b == ratio * b * 100.0;
    }
  }

  /** a / b * 100 <= d, cleared of its division. */
  lemma RatioWithin(a: real, b: real, d: real)
    requires b > 0.0
    ensures a / b * 100.0 <= d <==> a <= d / 100.0 * b
  {
    var q := a / b;
    assert q * b == a;
    if q * 100.0 <= d {
      assert q <= d / 100.0;
      MulLeft(q, d / 100.0, b);
    } else {
      assert q > d / 100.0;
      MulLess(d / 100.0, q, b);
    }
  }

  lemma MulLeft(x: real, y: real, b: real)
    requires x <= y && b >= 0.0
    ensures x * b <= y * b
  {
    assert y * b - x * b == (y - x) * b;
  }

  lemma MulLess(x: real, y: real, b: real)
    requires x < y && b > 0.0
    ensures x * b < y * b
  {
    assert y * b - x * b == (y - x) * b;
  }

  /** If the larger price is within a factor k of the smaller, so is the smaller of the larger. */
  lemma LargerFactor(lo: real, hi: real, k: real)
    requires 0.0 < lo <= hi && hi <= k * lo
    ensures lo <= k * hi
  {
    if k < 1.0 {
      MulLess(k, 1.0, lo);
    } else {
      MulLeft(1.0, k, hi);
    }
  }
}
