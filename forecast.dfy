/**
  The depreciation forecast of app.py (`calculate_future_prices`): the base
  record is re-priced for its own year and each of the five years after it.
  The regression model is an abstract deterministic function from a record to
  a price already rounded to hundredths of a lakh.
 */
module Forecast {
  import opened Wrappers
  import opened Records

  /** `range(6)`: the forecast covers the given year and the five following ones. */
  const Horizon: nat := 6

  /** The record priced at `offset`: a copy of `base` whose "Year" is `year + offset`. */
  function ForecastRecord(base: Record, year: int, offset: int): Record {
    SetField(base, "Year", Int(year + offset))
  }

  /**
    The loop of `calculate_future_prices`: each step copies the base record,
    overwrites its year, prices the copy and appends year and price. The base
    record is a value, so it is the same after the call.
   */
  method CalculateFuturePrices(base: Record, year: int, predict: Record -> int)
    returns (years: seq<int>, prices: seq<int>)
    ensures |years| == Horizon && |prices| == Horizon
    ensures forall i :: 0 <= i < Horizon ==> years[i] == year + i
    ensures forall i, j :: 0 <= i < j < Horizon ==> years[i] < years[j]
    ensures forall i :: 0 <= i < Horizon ==> prices[i] == predict(ForecastRecord(base, year, i))
  {
    years, prices := [], [];
    for i := 0 to Horizon
      invariant |years| == i && |prices| == i
      invariant forall j :: 0 <= j < i ==> years[j] == year + j
      invariant forall j :: 0 <= j < i ==> prices[j] == predict(ForecastRecord(base, year, j))
    {
      var temp := base;
      temp := SetField(temp, "Year", Int(year + i));
      var price := predict(temp);
      years := years + [year + i];
      prices := prices + [price];
    }
  }

  /**
    The record priced at each offset differs from the base only in "Year": that
    key holds `year + offset`, every other key holds what it held in the base,
    and when the base has a year the keys keep their order.
   */
  lemma ForecastRecordOnlyYearChanges(base: Record, year: int, offset: int, k: string)
    ensures Lookup(ForecastRecord(base, year, offset), "Year") == Some(Int(year + offset))
    ensures k != "Year" ==> Lookup(ForecastRecord(base, year, offset), k) == Lookup(base, k)
    ensures "Year" in Keys(base) ==> Keys(ForecastRecord(base, year, offset)) == Keys(base)
  {
    LookupSetField(base, "Year", Int(year + offset), "Year");
    LookupSetField(base, "Year", Int(year + offset), k);
  }

  /**
    When the year passed in is the record's own year, as on the page, the
    record priced at offset 0 is the base record, so the first forecast price
    is the top-level predicted price.
   */
  lemma FirstForecastIsPrediction(base: Record, year: int, predict: Record -> int)
    requires Lookup(base, "Year") == Some(Int(year))
    ensures ForecastRecord(base, year, 0) == base
    ensures predict(ForecastRecord(base, year, 0)) == predict(base)
  {
    SetFieldSameValue(base, "Year", Int(year));
  }
}
