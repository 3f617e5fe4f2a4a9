/** The deal filter `is_data_as_needed`: a fixed-threshold test on the number
    of users who want a release, the lowest and median listed prices, and the
    cheapest of the individual listing prices. */
module Deal {

  const WantAbove: real := 200.0
  const MedianAbove: real := 20.0
  const LeastAtLeast: real := 15.0

  /** `min(prices)`; the source raises on an empty list, hence the precondition. */
  function Min(prices: seq<real>): (m: real)
    requires |prices| > 0
    ensures m in prices
    ensures forall i :: 0 <= i < |prices| ==> m <= prices[i]
  {
    if |prices| == 1 then prices[0]
    else
      var rest := Min(prices[1..]);
      if rest < prices[0] then rest else prices[0]
  }

  /** `is_data_as_needed(want, least, median, prices)`. The `have` count is
      not an argument: it plays no part in the decision. */
  predicate IsDataAsNeeded(want: real, least: real, median: real, prices: seq<real>)
    requires |prices| > 0
  {
    want > WantAbove && median > MedianAbove && Min(prices) < least && least >= LeastAtLeast
  }

  /** The filter without `min`: a page is a deal exactly when enough users want
      it, the median is high enough, the lowest price is at least 15, and some
      listing is cheaper than that lowest price. */
  lemma DealIffSomeListingBelowLeast(want: real, least: real, median: real, prices: seq<real>)
    requires |prices| > 0
    ensures IsDataAsNeeded(want, least, median, prices) <==>
      && want > 200.0 && median > 20.0 && least >= 15.0
      && exists i :: 0 <= i < |prices| && prices[i] < least
  {
    if exists i :: 0 <= i < |prices| && prices[i] < least {
      var i :| 0 <= i < |prices| && prices[i] < least;
      assert Min(prices) <= prices[i];
    }
  }

  /** The thresholds at their boundaries: 200 wants is not enough, a lowest
      price of exactly 15 can pass, and one just below 15 never does. */
  lemma Boundaries(want: real, least: real, median: real, prices: seq<real>)
    requires |prices| > 0
    ensures !IsDataAsNeeded(200.0, least, median, prices)
    ensures IsDataAsNeeded(201.0, 15.0, 21.0, [14.0])
    ensures !IsDataAsNeeded(want, 14.999, median, prices)
  {
  }
}
