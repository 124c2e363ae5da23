/** Percentages as the application reports them: `((part / whole) * 100).toFixed(1)`,
    the ratio in percent with one decimal. Here a rate is a whole number of
    tenths of a percent (733 stands for "73.3"). */
module Rates {
  /** `((part / whole) * 100).toFixed(1)` read back as a number, in tenths of a
      percent. `toFixed` picks the nearest value with one decimal and, of two
      equally near ones, the larger. */
  function RoundedTenths(part: nat, whole: nat): (r: nat)
    requires whole > 0
    ensures 2000 * part - whole < 2 * whole * r <= 2000 * part + whole
  {
    (2000 * part + whole) / (2 * whole)
  }

  /** A share of a whole is a rate between 0.0 and 100.0: nothing gives
      exactly 0.0 and everything exactly 100.0. */
  lemma RateBounds(part: nat, whole: nat)
    requires whole > 0 && part <= whole
    ensures RoundedTenths(part, whole) <= 1000
    ensures part == 0 ==> RoundedTenths(part, whole) == 0
    ensures part == whole ==> RoundedTenths(part, whole) == 1000
  {
    var r := RoundedTenths(part, whole);
    assert 2 * whole * r < 2 * whole * 1001;
    ProductCancel(r, 1001, 2 * whole);
    if part == 0 {
      assert 2 * whole * r < 2 * whole * 1;
      ProductCancel(r, 1, 2 * whole);
    }
    if part == whole {
      assert 2 * whole * 999 < 2 * whole * r;
      ProductCancel(999, r, 2 * whole);
    }
  }

  /** Dividing both sides of a strict inequality by a positive factor. */
  lemma ProductCancel(x: int, y: int, z: int)
    requires z > 0 && z * x < z * y
    ensures x < y
  {
  }

  /** More of the same whole never gives a lower rate. */
  lemma RateMonotone(p: nat, q: nat, whole: nat)
    requires whole > 0 && p <= q
    ensures RoundedTenths(p, whole) <= RoundedTenths(q, whole)
  {
    var a, b := RoundedTenths(p, whole), RoundedTenths(q, whole);
    assert 2 * whole * a < 2 * whole * (b + 1);
    ProductCancel(a, b + 1, 2 * whole);
  }

  /** The label of a projected rate: `rate > 70 ? 'high' : rate > 40 ?
      'medium' : 'low'`, compared after rounding to one decimal. */
  datatype Likelihood = High | Medium | Low

  function LikelihoodOf(tenths: nat): Likelihood {
    if tenths > 700 then High else if tenths > 400 then Medium else Low
  }

  /** Over a 30-day window the label depends on the record count k alone:
      "high" from 22 records (73.3), "medium" from 13 (43.3); 21 records give
      exactly 70.0 and 12 exactly 40.0, which are not above the thresholds. */
  lemma {:induction false} LikelihoodOfThirtyDays(k: nat)
    ensures LikelihoodOf(RoundedTenths(k, 30)) == High <==> k >= 22
    ensures LikelihoodOf(RoundedTenths(k, 30)) == Medium <==> 13 <= k <= 21
    ensures LikelihoodOf(RoundedTenths(k, 30)) == Low <==> k <= 12
  {
    assert RoundedTenths(12, 30) == 400;
    assert RoundedTenths(13, 30) == 433;
    assert RoundedTenths(21, 30) == 700;
    assert RoundedTenths(22, 30) == 733;
    if k >= 22 {
      RateMonotone(22, k, 30);
    } else if k >= 13 {
      RateMonotone(13, k, 30);
      RateMonotone(k, 21, 30);
    } else {
      RateMonotone(k, 12, 30);
    }
  }
}
