/**
  Summary statistics over the price snapshot of the crypto-tracker example:
  count, total, average, and the highest and lowest price with the symbol of
  the first entry that carries it. Prices are exact reals.
*/
module PriceStatistics {
  import opened Wrappers

  /** One entry of the `prices` list, as far as the statistics read it. */
  datatype PriceRecord = PriceRecord(symbol: string, price: real)

  /** The `highest` / `lowest` part of the result. */
  datatype Extreme = Extreme(symbol: string, price: real)

  datatype Statistics = Statistics(
    totalCryptocurrencies: nat,
    totalMarketValue: real,
    averagePrice: real,
    highest: Extreme,
    lowest: Extreme)

  /** An empty list has no average (`ZeroDivisionError`) and no maximum (`ValueError`). */
  datatype StatisticsError = EmptyPriceList

  /** `[p["price"] for p in prices]`. */
  function Prices(records: seq<PriceRecord>): (values: seq<real>)
    ensures |values| == |records|
    ensures forall i :: 0 <= i < |records| ==> values[i] == records[i].price
  {
    seq(|records|, i requires 0 <= i < |records| => records[i].price)
  }

  /** `sum`: the values added from the left, starting at zero. */
  function Sum(values: seq<real>): real {
    if values == [] then 0.0 else Sum(values[..|values| - 1]) + values[|values| - 1]
  }

  /** `max`: the largest value. */
  function Max(values: seq<real>): (m: real)
    requires values != []
    ensures m in values
    ensures forall i :: 0 <= i < |values| ==> values[i] <= m
  {
    if |values| == 1 then values[0]
    else
      var front := Max(values[..|values| - 1]);
      assert forall i :: 0 <= i < |values| - 1 ==> values[i] == values[..|values| - 1][i];
      if values[|values| - 1] > front then values[|values| - 1] else front
  }

  /** `min`: the smallest value. */
  function Min(values: seq<real>): (m: real)
    requires values != []
    ensures m in values
    ensures forall i :: 0 <= i < |values| ==> m <= values[i]
  {
    if |values| == 1 then values[0]
    else
      var front := Min(values[..|values| - 1]);
      assert forall i :: 0 <= i < |values| - 1 ==> values[i] == values[..|values| - 1][i];
      if values[|values| - 1] < front then values[|values| - 1] else front
  }

  /** `next(p for p in prices if p["price"] == v)`: the index of the first record priced `v`. */
  function FirstPriced(records: seq<PriceRecord>, v: real): (i: nat)
    requires v in Prices(records)
    ensures i < |records| && records[i].price == v
    ensures forall k :: 0 <= k < i ==> records[k].price != v
  {
    if records[0].price == v then 0
    else
      assert v in Prices(records[1..]) by {
        var j :| 0 <= j < |records| && Prices(records)[j] == v;
        assert Prices(records[1..])[j - 1] == v;
      }
      1 + FirstPriced(records[1..], v)
  }

  /** `calculate_statistics`. */
  function CalculateStatistics(records: seq<PriceRecord>): (r: Result<Statistics, StatisticsError>)
    ensures r.Failure? <==> records == []
  {
    if records == [] then Failure(EmptyPriceList)
    else
      var values := Prices(records);
      var total := Sum(values);
      var average := Mean(total, |values|);
      var highest := Max(values);
      var lowest := Min(values);
      var maxCrypto := records[FirstPriced(records, highest)];
      var minCrypto := records[FirstPriced(records, lowest)];
      Success(Statistics(
        |records|, total, average,
        Extreme(maxCrypto.symbol, highest),
        Extreme(minCrypto.symbol, lowest)))
  }

  /** The total lies between the count times the smallest and the count times the largest value. */
  lemma {:induction false} SumBounds(values: seq<real>, lo: real, hi: real)
    requires forall i :: 0 <= i < |values| ==> lo <= values[i] <= hi
    ensures |values| as real * lo <= Sum(values) <= |values| as real * hi
  {
    if values != [] {
      var front := values[..|values| - 1];
      assert forall i :: 0 <= i < |front| ==> front[i] == values[i];
      SumBounds(front, lo, hi);
      assert |values| as real * lo == |front| as real * lo + lo;
      assert |values| as real * hi == |front| as real * hi + hi;
    }
  }

  /** `total / len(values)`: the quotient times the count gives back the total. */
  function Mean(total: real, count: nat): (a: real)
    requires count > 0
    ensures a * count as real == total
  {
    total / count as real
  }

  /** Bounds on a total carry over to its mean. */
  lemma MeanBounds(total: real, count: nat, lo: real, hi: real)
    requires count > 0
    requires count as real * lo <= total <= count as real * hi
    ensures lo <= Mean(total, count) <= hi
  {
  }

  /** The mean of a non-empty list lies between its minimum and its maximum. */
  lemma {:induction false} MeanBetweenExtremes(values: seq<real>)
    requires values != []
    ensures Min(values) <= Mean(Sum(values), |values|) <= Max(values)
  {
    SumBounds(values, Min(values), Max(values));
    MeanBounds(Sum(values), |values|, Min(values), Max(values));
  }

  /** Count, total and average: the count is the number of records, the total
      the sum of their prices, and the average that sum divided by the count. */
  lemma {:induction false} CountTotalAverage(records: seq<PriceRecord>)
    requires records != []
    ensures var s := CalculateStatistics(records).value;
      && s.totalCryptocurrencies == |records|
      && s.totalMarketValue == Sum(Prices(records))
      && s.averagePrice == s.totalMarketValue / |records| as real
  {
    var s := CalculateStatistics(records).value;
    assert s.totalMarketValue == Sum(Prices(records));
    assert s.averagePrice == Mean(s.totalMarketValue, |records|);
  }

  /** The highest price is at least every price and is the price of some record;
      likewise the lowest is at most every price. */
  lemma {:induction false} Extremes(records: seq<PriceRecord>)
    requires records != []
    ensures var s := CalculateStatistics(records).value;
      && (forall i :: 0 <= i < |records| ==> records[i].price <= s.highest.price)
      && (exists i :: 0 <= i < |records| && records[i].price == s.highest.price)
      && (forall i :: 0 <= i < |records| ==> s.lowest.price <= records[i].price)
      && (exists i :: 0 <= i < |records| && records[i].price == s.lowest.price)
  {
    var s := CalculateStatistics(records).value;
    var values := Prices(records);
    assert s.highest.price == Max(values) && s.lowest.price == Min(values);
    var i := FirstPriced(records, s.highest.price);
    var j := FirstPriced(records, s.lowest.price);
  }

  /** The average lies between the lowest and the highest price. */
  lemma {:induction false} AverageBetweenExtremes(records: seq<PriceRecord>)
    requires records != []
    ensures var s := CalculateStatistics(records).value;
      s.lowest.price <= s.averagePrice <= s.highest.price
  {
    var s := CalculateStatistics(records).value;
    var values := Prices(records);
    assert s.highest.price == Max(values) && s.lowest.price == Min(values);
    assert s.averagePrice == Mean(Sum(values), |values|);
    MeanBetweenExtremes(values);
  }

  /** The symbols reported are those of the first record at the highest and at
      the lowest price. */
  lemma {:induction false} ExtremeSymbols(records: seq<PriceRecord>)
    requires records != []
    ensures var s := CalculateStatistics(records).value;
      && (exists i :: 0 <= i < |records| && records[i].price == s.highest.price
            && records[i].symbol == s.highest.symbol
            && forall k :: 0 <= k < i ==> records[k].price != s.highest.price)
      && (exists i :: 0 <= i < |records| && records[i].price == s.lowest.price
            && records[i].symbol == s.lowest.symbol
            && forall k :: 0 <= k < i ==> records[k].price != s.lowest.price)
  {
    var s := CalculateStatistics(records).value;
    var i := FirstPriced(records, s.highest.price);
    var j := FirstPriced(records, s.lowest.price);
  }
}
