/**
  The "best time to sell" advice of app.py: `future_prices.index(min(future_prices))`
  picks the position of the cheapest forecast price, and the advised year is the
  forecast year at that position.
 */
module Advisory {
  import opened Wrappers

  /** Python's `min` on a list: a left-to-right scan that replaces the running minimum only by a smaller item. */
  function MinOf(s: seq<int>): (m: int)
    requires |s| > 0
    ensures m in s
    ensures forall i :: 0 <= i < |s| ==> m <= s[i]
  {
    if |s| == 1 then s[0]
    else
      var m := MinOf(s[..|s| - 1]);
      if s[|s| - 1] < m then s[|s| - 1] else m
  }

  /** Python's `list.index(x)`: the first position holding `x`, `None` where Python raises ValueError. */
  function IndexOf(s: seq<int>, x: int): (r: Option<nat>)
    ensures r.None? <==> x !in s
    ensures r.Some? ==> r.value < |s| && s[r.value] == x
    ensures r.Some? ==> forall j :: 0 <= j < r.value ==> s[j] != x
  {
    if s == [] then None
    else if s[0] == x then Some(0)
    else match IndexOf(s[1..], x)
      case None => None
      case Some(i) => Some(i + 1)
  }

  /** Position `k` holds a minimum of `s`, and every earlier position holds a larger value. */
  ghost predicate IsFirstMinimum(s: seq<int>, k: int) {
    0 <= k < |s| &&
    (forall j :: 0 <= j < |s| ==> s[k] <= s[j]) &&
    (forall j :: 0 <= j < k ==> s[k] < s[j])
  }

  /** `future_prices.index(min(future_prices))`: the first position of the cheapest price. */
  function SellIndex(prices: seq<int>): (idx: nat)
    requires |prices| > 0
    ensures idx < |prices|
    ensures forall j :: 0 <= j < |prices| ==> prices[idx] <= prices[j]
    ensures forall j :: 0 <= j < idx ==> prices[idx] < prices[j]
  {
    IndexOf(prices, MinOf(prices)).value
  }

  /** The first minimum is unique: `SellIndex` is the only position with that property. */
  lemma SellIndexIsTheFirstMinimum(prices: seq<int>, k: int)
    requires |prices| > 0
    ensures IsFirstMinimum(prices, k) <==> k == SellIndex(prices)
  {
  }

  /** `future_years[idx]`: the advised sell year. */
  function SellYear(years: seq<int>, prices: seq<int>): int
    requires 0 < |prices| <= |years|
  {
    years[SellIndex(prices)]
  }

  /**
    For a forecast whose years run from `year` upwards one by one, the advised
    year lies in the forecast window, is the year of a cheapest price, and every
    earlier year of the window is strictly more expensive.
   */
  lemma SellYearInWindow(year: int, years: seq<int>, prices: seq<int>)
    requires 0 < |prices| == |years|
    requires forall i :: 0 <= i < |years| ==> years[i] == year + i
    ensures year <= SellYear(years, prices) < year + |years|
    ensures IsFirstMinimum(prices, SellYear(years, prices) - year)
  {
  }
}
