/**
 * The vendor score: unit price plus the reciprocal of the payment term in
 * days, so that lower is better and, at equal price, a longer term wins.
 * A row without a positive term gets a fixed, very large score.
 */
module Scoring {

  /** The score of a row whose payment term is not a positive number of days. */
  const NoTermScore: real := 9999.0

  function VendorScore(price: real, termsDays: int): (s: real)
    ensures termsDays <= 0 ==> s == NoTermScore
    ensures termsDays > 0 ==> (s - price) * termsDays as real == 1.0
    ensures termsDays > 0 ==> price < s <= price + 1.0
  {
    if termsDays > 0 then price + 1.0 / termsDays as real else NoTermScore
  }

  /** At equal price, a longer payment term gives a strictly lower score. */
  lemma LongerTermsScoreLower(price: real, d1: int, d2: int)
    requires 0 < d1 < d2
    ensures VendorScore(price, d2) < VendorScore(price, d1)
  {
    var r1, r2 := d1 as real, d2 as real;
    var x1, x2 := VendorScore(price, d1) - price, VendorScore(price, d2) - price;
    assert x1 * r1 == 1.0 && x2 * r2 == 1.0 && x2 > 0.0;
    assert x2 * r1 < x2 * r2;
    assert (x1 - x2) * r1 > 0.0;
  }

  /** With the same positive term, a lower price gives a strictly lower
      score. */
  lemma LowerPriceScoresLower(p1: real, p2: real, days: int)
    requires p1 < p2 && days > 0
    ensures VendorScore(p1, days) < VendorScore(p2, days)
  {
    var s1, s2 := VendorScore(p1, days), VendorScore(p2, days);
    assert (s1 - p1) * days as real == (s2 - p2) * days as real;
  }

  /** 10.00 on 30-day terms scores 10 + 1/30. */
  lemma ThirtyDayExample()
    ensures VendorScore(10.0, 30) * 30.0 == 301.0
  {
  }
}
