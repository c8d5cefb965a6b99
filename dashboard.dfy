/**
 * The page script: the year range and country selection applied to the
 * loaded table, the latest-year snapshot and its category order
 * (`plot_gdps_by_group`), the year-over-year change of a metric card
 * (`show_metric`) and the loop that fills one card per country.
 */
module Dashboard {
  import opened Wrappers
  import opened Table
  import opened GdpData
  import Rounding

  // ---------------------------------------------------------------------------
  // Selection and filtering

  /**
   * `df[df['Year'] == year].sort_values(by='GDP', ascending=False)`: every row
   * of that year, as often as in `df`, largest GDP first and NaN last.
   */
  function RowsAtYear(df: seq<Record>, year: int): (rs: seq<Record>)
    ensures forall r {:trigger multiset(rs)[r]} :: multiset(rs)[r] == if r.year == year then multiset(df)[r] else 0
    ensures forall i :: 0 <= i < |rs| ==> rs[i].year == year && rs[i] in df
    ensures SortedDesc(rs, GdpColumn)
  {
    var at := Where(df, YearIs(year));
    var rs := SortDesc(at, GdpColumn);
    assert forall i :: 0 <= i < |rs| ==> rs[i] in multiset(at);
    rs
  }

  /**
   * `countries`: the options of the country picker, one per row at `to_year`,
   * in the order of those rows by GDP descending.
   */
  function CountryOptions(df: seq<Record>, toYear: int): (cs: seq<string>)
    ensures |cs| == |Where(df, YearIs(toYear))|
    ensures |cs| == |RowsAtYear(df, toYear)|
    ensures forall i :: 0 <= i < |cs| ==> cs[i] == RowsAtYear(df, toYear)[i].country
    ensures forall c :: c in cs <==> exists r :: r in df && r.year == toYear && r.country == c
  {
    var rs := RowsAtYear(df, toYear);
    var cs := Countries(rs);
    assert |rs| == |Where(df, YearIs(toYear))| by {
      assert multiset(rs) == multiset(Where(df, YearIs(toYear)));
    }
    forall c | c in cs ensures exists r :: r in df && r.year == toYear && r.country == c {
      var i :| 0 <= i < |cs| && cs[i] == c;
      assert rs[i] in df;
    }
    forall r | r in df && r.year == toYear ensures r.country in cs {
      assert r in multiset(rs);
      var i :| 0 <= i < |rs| && rs[i] == r;
      assert cs[i] == r.country;
    }
    cs
  }

  /** `filtered_gdp_df`: the rows of the selected countries between `from_year` and `to_year`. */
  function Filtered(df: seq<Record>, selected: seq<string>, fromYear: int, toYear: int): (f: seq<Record>)
    ensures forall r {:trigger multiset(f)[r]} :: multiset(f)[r] ==
                (if r.country in selected && fromYear <= r.year <= toYear then multiset(df)[r] else 0)
    ensures forall r {:trigger r in f} :: r in f <==> r in df && r.country in selected && fromYear <= r.year <= toYear
  {
    Where(df, Window(selected, fromYear, toYear))
  }

  /**
   * Widening the year range or the selection never drops a row: the narrower
   * table is the wider one filtered again.
   */
  lemma FilteredMonotone(df: seq<Record>, sel: seq<string>, fromYear: int, toYear: int,
                         wideSel: seq<string>, wideFrom: int, wideTo: int)
    requires forall c :: c in sel ==> c in wideSel
    requires wideFrom <= fromYear && toYear <= wideTo
    ensures multiset(Filtered(df, sel, fromYear, toYear)) <= multiset(Filtered(df, wideSel, wideFrom, wideTo))
    ensures Filtered(Filtered(df, wideSel, wideFrom, wideTo), sel, fromYear, toYear) == Filtered(df, sel, fromYear, toYear)
  {
    WhereNarrower(df, Window(sel, fromYear, toYear), Window(wideSel, wideFrom, wideTo));
  }

  /** An empty selection, or a range with `from_year > to_year`, keeps nothing. */
  lemma FilteredEmpty(df: seq<Record>, sel: seq<string>, fromYear: int, toYear: int)
    requires sel == [] || fromYear > toYear
    ensures Filtered(df, sel, fromYear, toYear) == []
  {
    var f := Filtered(df, sel, fromYear, toYear);
    forall r ensures multiset(f)[r] == 0 {
    }
    assert multiset(f) == multiset{};
  }

  /** Filtering keeps the loaded table's order: Year descending. */
  lemma FilteredSortedByYear(df: seq<Record>, sel: seq<string>, fromYear: int, toYear: int)
    requires SortedDesc(df, YearColumn)
    ensures SortedDesc(Filtered(df, sel, fromYear, toYear), YearColumn)
  {
    WhereKeepsSorted(df, Window(sel, fromYear, toYear), YearColumn);
  }

  /** `max_year_filtered_df`: the filtered rows at `to_year`, largest GDP first. */
  function MaxYearRows(filtered: seq<Record>, toYear: int): (rs: seq<Record>)
    ensures forall r {:trigger multiset(rs)[r]} :: multiset(rs)[r] == if r.year == toYear then multiset(filtered)[r] else 0
    ensures forall i :: 0 <= i < |rs| ==> rs[i].year == toYear && rs[i] in filtered
    ensures SortedDesc(rs, GdpColumn)
  {
    RowsAtYear(filtered, toYear)
  }

  /**
   * With each (Country, Year) pair loaded once, there are at most as many
   * metric cards as selected countries, so `cols[i]` is always a column.
   */
  lemma CardsFitColumns(df: seq<Record>, sel: seq<string>, fromYear: int, toYear: int)
    requires UniqueCountryYear(df)
    ensures |MaxYearRows(Filtered(df, sel, fromYear, toYear), toYear)| <= |sel|
  {
    var f := Filtered(df, sel, fromYear, toYear);
    var rs := MaxYearRows(f, toYear);
    assert multiset(rs) <= multiset(df) by {
      assert multiset(rs) <= multiset(f);
      assert multiset(f) <= multiset(df);
    }
    UniqueSubBag(df, rs);
    forall i | 0 <= i < |rs| ensures rs[i].year == toYear && rs[i].country in sel {
      assert rs[i] in rs;
    }
    CountedBySelection(rs, sel, toYear);
  }

  // ---------------------------------------------------------------------------
  // plot_gdps_by_group: the snapshot and the shared category order

  /**
   * `bar_metric_df['Year'].max()` after dropping rows whose metric is NaN:
   * the latest year with a value, None (NaN) when there is none.
   */
  function LatestYearWithValue(df: seq<Record>, metric: Column): (y: Option<int>)
    ensures y.None? <==> forall r :: r in df ==> Value(r, metric).None?
    ensures y.Some? ==> exists r :: r in df && Value(r, metric).Some? && r.year == y.value
    ensures y.Some? ==> forall r :: r in df && Value(r, metric).Some? ==> r.year <= y.value
  {
    PresentYears(df, metric);
    MaxYear(Where(df, NotNull(metric)))
  }

  lemma PresentYears(df: seq<Record>, metric: Column)
    ensures var y := MaxYear(Where(df, NotNull(metric)));
      && (y.None? <==> forall r :: r in df ==> Value(r, metric).None?)
      && (y.Some? ==> exists r :: r in df && Value(r, metric).Some? && r.year == y.value)
      && (y.Some? ==> forall r :: r in df && Value(r, metric).Some? ==> r.year <= y.value)
  {
    var present := Where(df, NotNull(metric));
    assert forall r {:trigger r in present} :: r in present <==> r in df && Value(r, metric).Some?;
    LatestOfPresent(df, metric, present);
  }

  /** The max Year of the rows with a value, from which rows those are. */
  lemma LatestOfPresent(df: seq<Record>, metric: Column, present: seq<Record>)
    requires forall r {:trigger r in present} :: r in present <==> r in df && Value(r, metric).Some?
    ensures var y := MaxYear(present);
      && (y.None? <==> forall r :: r in df ==> Value(r, metric).None?)
      && (y.Some? ==> exists r :: r in df && Value(r, metric).Some? && r.year == y.value)
      && (y.Some? ==> forall r :: r in df && Value(r, metric).Some? ==> r.year <= y.value)
  {
    var y := MaxYear(present);
    if y.Some? {
      var i :| 0 <= i < |present| && present[i].year == y.value;
      assert present[i] in present;
      forall r | r in df && Value(r, metric).Some? ensures r.year <= y.value {
        assert r in present;
        var k :| 0 <= k < |present| && present[k] == r;
      }
    } else {
      forall r | r in df ensures Value(r, metric).None? {
        assert r !in present;
      }
    }
  }

  /**
   * The bar chart's table: the rows of the latest year with a value, each as
   * often as in `df`, sorted descending by the metric.
   */
  function Snapshot(df: seq<Record>, metric: Column): (s: seq<Record>)
    ensures forall r {:trigger multiset(s)[r]} :: multiset(s)[r] ==
                (if Value(r, metric).Some? && Some(r.year) == LatestYearWithValue(df, metric) then multiset(df)[r] else 0)
    ensures forall i :: 0 <= i < |s| ==> Value(s[i], metric).Some?
    ensures forall i :: 0 <= i < |s| ==> Some(s[i].year) == LatestYearWithValue(df, metric)
    ensures SortedDesc(s, metric)
  {
    match LatestYearWithValue(df, metric)
    case None => []
    case Some(y) =>
      var s := SortDesc(Where(Where(df, NotNull(metric)), YearIs(y)), metric);
      SnapshotRows(df, metric, y, s);
      s
  }

  lemma SnapshotRows(df: seq<Record>, metric: Column, y: int, s: seq<Record>)
    requires multiset(s) == multiset(Where(Where(df, NotNull(metric)), YearIs(y)))
    ensures forall r {:trigger multiset(s)[r]} :: multiset(s)[r] ==
                (if Value(r, metric).Some? && r.year == y then multiset(df)[r] else 0)
    ensures forall i :: 0 <= i < |s| ==> Value(s[i], metric).Some? && s[i].year == y
  {
    var present := Where(df, NotNull(metric));
    forall r ensures multiset(s)[r] == (if Value(r, metric).Some? && r.year == y then multiset(df)[r] else 0) {
      assert multiset(s)[r] == (if r.year == y then multiset(present)[r] else 0);
    }
    forall i | 0 <= i < |s| ensures Value(s[i], metric).Some? && s[i].year == y {
      assert s[i] in multiset(s);
    }
  }

  /** `category_orders[var]`: the Country column of the snapshot, in its order. */
  function CategoryOrder(df: seq<Record>, metric: Column): (co: seq<string>)
    ensures |co| == |Snapshot(df, metric)|
    ensures forall i :: 0 <= i < |co| ==> co[i] == Snapshot(df, metric)[i].country
  {
    Countries(Snapshot(df, metric))
  }

  /** With each (Country, Year) pair once in `df`, the category order names each country once. */
  lemma CategoryOrderDistinct(df: seq<Record>, metric: Column)
    requires UniqueCountryYear(df)
    ensures forall i, j :: 0 <= i < j < |CategoryOrder(df, metric)| ==>
      CategoryOrder(df, metric)[i] != CategoryOrder(df, metric)[j]
  {
    var s := Snapshot(df, metric);
    var co := CategoryOrder(df, metric);
    assert multiset(s) <= multiset(df);
    UniqueSubBag(df, s);
    forall i, j | 0 <= i < j < |co| ensures co[i] != co[j] {
      assert s[i].year == s[j].year;
    }
  }

  /** Every country with a value in the latest year is in the category order. */
  lemma CategoryOrderComplete(df: seq<Record>, metric: Column, r: Record)
    requires r in df && Value(r, metric).Some? && Some(r.year) == LatestYearWithValue(df, metric)
    ensures r.country in CategoryOrder(df, metric)
  {
    var s := Snapshot(df, metric);
    InSnapshot(df, metric, r);
    var k :| 0 <= k < |s| && s[k] == r;
    assert CategoryOrder(df, metric)[k] == r.country;
  }

  lemma InSnapshot(df: seq<Record>, metric: Column, r: Record)
    requires r in df && Value(r, metric).Some? && Some(r.year) == LatestYearWithValue(df, metric)
    ensures r in Snapshot(df, metric)
  {
    assert multiset(df)[r] > 0;
    assert multiset(Snapshot(df, metric))[r] == multiset(df)[r];
  }

  // ---------------------------------------------------------------------------
  // show_metric: the year-over-year change

  /** The `delta` of a card: none, or a change in percent where None stands for a non-finite float. */
  datatype Delta = NoDelta | Change(percent: Option<real>)

  /** What `st.metric` is given: the title, the value and the delta. */
  datatype Card = Card(title: string, value: Option<real>, delta: Delta)

  /** The exceptions that end the page script. */
  datatype ScriptError =
    | HandlerRaises                              // `print.error` in the except clause raises AttributeError
    | ColumnOutOfRange(index: nat, count: nat)   // `cols[i]` with `i >= len(cols)`

  /**
   * `round(100 * (current / prior - 1), 2)`. A NaN operand, or a zero prior
   * (numpy gives inf or nan rather than raising), yields None.
   */
  function PercentChange(current: Option<real>, prior: Option<real>): (p: Option<real>)
    ensures p.Some? <==> current.Some? && prior.Some? && prior.value != 0.0
    ensures p.Some? ==> Rounding.Abs(p.value - 100.0 * (current.value / prior.value - 1.0)) <= 0.005
    ensures p.Some? ==> (p.value * 100.0).Floor as real == p.value * 100.0
  {
    if current.Some? && prior.Some? && prior.value != 0.0 then
      Some(Rounding.RoundHundredths(100.0 * (current.value / prior.value - 1.0)))
    else None
  }

  /** For positive values, the change is positive when the value grew and negative when it fell. */
  lemma PercentChangeSign(current: real, prior: real)
    requires current > 0.0 && prior > 0.0
    ensures current >= prior ==> PercentChange(Some(current), Some(prior)).value >= 0.0
    ensures current <= prior ==> PercentChange(Some(current), Some(prior)).value <= 0.0
  {
    var x := 100.0 * (current / prior - 1.0);
    if current >= prior {
      DivAtLeastOne(current, prior);
      Rounding.RoundHalfEvenMonotone(0.0, x * 100.0);
      Rounding.RoundHalfEvenOfInteger(0);
    }
    if current <= prior {
      DivAtMostOne(current, prior);
      Rounding.RoundHalfEvenMonotone(x * 100.0, 0.0);
      Rounding.RoundHalfEvenOfInteger(0);
    }
  }

  lemma DivAtMostOne(a: real, b: real)
    requires 0.0 < b && a <= b
    ensures a / b <= 1.0
  {
  }

  lemma DivAtLeastOne(a: real, b: real)
    requires 0.0 < b && a >= b
    ensures a / b >= 1.0
  {
  }

  /** 0.55 trillion after 0.5 trillion is a change of 10%. */
  lemma PercentChangeExample()
    ensures PercentChange(Some(0.55), Some(0.5)) == Some(10.0)
  {
  }

  /**
   * `show_metric` as written: with fewer than two rows the `iloc[1]` (or
   * `iloc[0]`) raises, and the except clause's `print.error` raises again.
   */
  function ShowMetricAsWritten(df: seq<Record>, column: Column, title: string): (c: Result<Card, ScriptError>)
    ensures c.Err? <==> |df| < 2
    ensures c.Err? ==> c.error == HandlerRaises
    ensures c.Ok? ==> c.value.title == title && c.value.value == Value(df[0], column)
    ensures c.Ok? ==> c.value.delta == Change(PercentChange(Value(df[0], column), Value(df[1], column)))
  {
    if |df| < 2 then Err(HandlerRaises)
    else
      var current, prior := Value(df[0], column), Value(df[1], column);
      Ok(Card(title, current, Change(PercentChange(current, prior))))
  }

  /**
   * `show_metric` as its except clause intends (`delta = None`): a card
   * without a delta when there is no prior row. The value is the first row's.
   */
  function ShowMetric(df: seq<Record>, column: Column, title: string): (c: Card)
    requires |df| >= 1
    ensures c.title == title && c.value == Value(df[0], column)
    ensures c.delta == NoDelta <==> |df| < 2
    ensures |df| >= 2 ==> c.delta == Change(PercentChange(Value(df[0], column), Value(df[1], column)))
  {
    var current := Value(df[0], column);
    if |df| < 2 then Card(title, current, NoDelta)
    else Card(title, current, Change(PercentChange(current, Value(df[1], column))))
  }

  /** Where the program as written shows a card, the corrected one shows the same card. */
  lemma ShowMetricAgrees(df: seq<Record>, column: Column, title: string)
    requires ShowMetricAsWritten(df, column, title).Ok?
    ensures ShowMetric(df, column, title) == ShowMetricAsWritten(df, column, title).value
  {
  }

  /** The rows of one country, in table order. */
  function CountryRows(filtered: seq<Record>, country: string): (rs: seq<Record>)
    ensures forall r {:trigger r in rs} :: r in rs <==> r in filtered && r.country == country
    ensures forall i :: 0 <= i < |rs| ==> rs[i].country == country
  {
    Where(filtered, CountryIs(country))
  }

  /**
   * On a Year-descending table with each (Country, Year) pair once, the card
   * of a country shown at `to_year` takes its value from `to_year` and
   * compares it with the latest earlier year of the window.
   */
  lemma CardComparesWithEarlierYear(df: seq<Record>, sel: seq<string>, fromYear: int, toYear: int, r: Record)
    requires SortedDesc(df, YearColumn) && UniqueCountryYear(df)
    requires r in MaxYearRows(Filtered(df, sel, fromYear, toYear), toYear)
    ensures CountryRows(Filtered(df, sel, fromYear, toYear), r.country) != []
    ensures CountryRows(Filtered(df, sel, fromYear, toYear), r.country)[0] == r
    ensures |CountryRows(Filtered(df, sel, fromYear, toYear), r.country)| >= 2 ==>
      fromYear <= CountryRows(Filtered(df, sel, fromYear, toYear), r.country)[1].year < toYear
    ensures forall x :: x in CountryRows(Filtered(df, sel, fromYear, toYear), r.country) && x.year < toYear ==>
      |CountryRows(Filtered(df, sel, fromYear, toYear), r.country)| >= 2 &&
      x.year <= CountryRows(Filtered(df, sel, fromYear, toYear), r.country)[1].year
  {
    var f := Filtered(df, sel, fromYear, toYear);
    var rs := CountryRows(f, r.country);
    assert r in rs by {
      assert r in f && r.year == toYear;
    }
    WindowCountryRows(df, sel, fromYear, toYear, r.country);
    LatestFirst(rs, r);
  }

  /** One country's rows of the window: Year descending, no year twice, all inside the window. */
  lemma WindowCountryRows(df: seq<Record>, sel: seq<string>, fromYear: int, toYear: int, country: string)
    requires SortedDesc(df, YearColumn) && UniqueCountryYear(df)
    ensures var rs := CountryRows(Filtered(df, sel, fromYear, toYear), country);
      && SortedDesc(rs, YearColumn) && UniqueCountryYear(rs)
      && forall i :: 0 <= i < |rs| ==> fromYear <= rs[i].year <= toYear && rs[i].country == country
  {
    var f := Filtered(df, sel, fromYear, toYear);
    var rs := CountryRows(f, country);
    FilteredSortedByYear(df, sel, fromYear, toYear);
    WhereKeepsSorted(f, CountryIs(country), YearColumn);
    assert multiset(rs) <= multiset(df) by {
      assert multiset(rs) <= multiset(f);
    }
    UniqueSubBag(df, rs);
    forall i | 0 <= i < |rs| ensures fromYear <= rs[i].year <= toYear && rs[i].country == country {
      assert rs[i] in rs;
    }
  }

  /**
   * In a Year-descending table of one country's rows with no year twice, a
   * row from the latest year comes first and the next row is from an earlier year.
   */
  lemma LatestFirst(rs: seq<Record>, r: Record)
    requires SortedDesc(rs, YearColumn) && UniqueCountryYear(rs)
    requires forall i :: 0 <= i < |rs| ==> rs[i].year <= r.year && rs[i].country == r.country
    requires r in rs
    ensures rs[0] == r
    ensures |rs| >= 2 ==> rs[1].year < r.year
    ensures forall x :: x in rs && x.year < r.year ==> |rs| >= 2 && x.year <= rs[1].year
  {
    forall x | x in rs && x.year < r.year ensures |rs| >= 2 && x.year <= rs[1].year {
      var m :| 0 <= m < |rs| && rs[m] == x;
      if m > 1 {
        assert InOrder(Value(rs[1], YearColumn), Value(rs[m], YearColumn));
      }
    }
  }

  /**
   * The defect: in a one-year window (`from_year == to_year`) every country
   * has a single row, so the first card as written raises and the page stops.
   */
  lemma SingleYearWindowRaises(df: seq<Record>, sel: seq<string>, year: int, r: Record)
    requires UniqueCountryYear(df)
    requires r in MaxYearRows(Filtered(df, sel, year, year), year)
    ensures ShowMetricAsWritten(CountryRows(Filtered(df, sel, year, year), r.country), GdpTColumn, r.country).Err?
  {
    var f := Filtered(df, sel, year, year);
    var rs := CountryRows(f, r.country);
    assert multiset(rs) <= multiset(df) by {
      assert multiset(rs) <= multiset(f);
    }
    UniqueSubBag(df, rs);
    forall i | 0 <= i < |rs| ensures rs[i].year == year && rs[i].country in [r.country] {
      assert rs[i] in rs;
    }
    CountedBySelection(rs, [r.country], year);
  }

  /** The card of the country of row `r` of `max_year_filtered_df`. */
  function CardFor(filtered: seq<Record>, r: Record): (c: Card)
    requires r in filtered
    ensures c.title == r.country
    ensures CountryRows(filtered, r.country) != []
    ensures c.value == Value(CountryRows(filtered, r.country)[0], GdpTColumn)
    ensures c.delta == NoDelta <==> |CountryRows(filtered, r.country)| < 2
    ensures |CountryRows(filtered, r.country)| >= 2 ==>
      c.delta == Change(PercentChange(Value(CountryRows(filtered, r.country)[0], GdpTColumn),
                                      Value(CountryRows(filtered, r.country)[1], GdpTColumn)))
  {
    assert r in CountryRows(filtered, r.country);
    ShowMetric(CountryRows(filtered, r.country), GdpTColumn, r.country)
  }

  // ---------------------------------------------------------------------------
  // The metric-card loop

  /**
   * `for country in max_year_filtered_df['Country']: with cols[i]: show_metric(...); i += 1`
   * over `columnCount` columns: the cards in table order, or the `IndexError`
   * of the first `cols[i]` past the last column. The script takes `rows`
   * from `filtered` (`MaxYearRows`), so each of them is a row of `filtered`.
   */
  method ShowMetricCards(filtered: seq<Record>, rows: seq<Record>, columnCount: nat)
    returns (r: Result<seq<Card>, ScriptError>)
    requires forall k :: 0 <= k < |rows| ==> rows[k] in filtered
    ensures r.Ok? <==> |rows| <= columnCount
    ensures r.Err? ==> r.error == ColumnOutOfRange(columnCount, columnCount)
    ensures r.Ok? ==> |r.value| == |rows|
    ensures r.Ok? ==> forall k :: 0 <= k < |rows| ==> r.value[k] == CardFor(filtered, rows[k])
  {
    var cards: seq<Card> := [];
    var i := 0;
    while i < |rows|
      invariant i <= |rows| && i <= columnCount
      invariant cards == CardsFor(filtered, rows[..i])
    {
      if i >= columnCount {
        return Err(ColumnOutOfRange(i, columnCount));
      }
      assert rows[..i + 1][..i] == rows[..i];
      cards := cards + [CardFor(filtered, rows[i])];
      i := i + 1;
    }
    assert rows[..i] == rows;
    return Ok(cards);
  }

  /** The card of each row of `rows`, in order. */
  function CardsFor(filtered: seq<Record>, rows: seq<Record>): (cards: seq<Card>)
    requires forall k :: 0 <= k < |rows| ==> rows[k] in filtered
    ensures |cards| == |rows|
    ensures forall k :: 0 <= k < |rows| ==> cards[k] == CardFor(filtered, rows[k])
  {
    if rows == [] then []
    else CardsFor(filtered, rows[..|rows| - 1]) + [CardFor(filtered, rows[|rows| - 1])]
  }

  /** The page's cards never run out of columns when the loaded table holds each pair once. */
  lemma LoadedCardsFitColumns(L: seq<Record>, t: WideTable, sel: seq<string>, fromYear: int, toYear: int)
    requires LoadedFrom(L, t) && DistinctCodes(t)
    ensures |MaxYearRows(Filtered(L, sel, fromYear, toYear), toYear)| <= |sel|
  {
    LoadedUnique(L, t);
    CardsFitColumns(L, sel, fromYear, toYear);
  }
}
