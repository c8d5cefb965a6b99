/**
 * `get_gdp_data`: the wide World Bank table (one row per country code, one
 * column per year) melted into the long table of the dashboard, relabelled,
 * given a numeric Year, a `GDP (T)` column and a GDP rounded to billions, and
 * sorted by Year descending.
 */
module GdpData {
  import opened Wrappers
  import opened Table
  import Decimal
  import Rounding

  /** `MIN_YEAR` and `MAX_YEAR`: the year columns melted, both included. */
  const FirstYear: int := 1960
  const LastYear: int := 2022
  const YearCount: nat := LastYear - FirstYear + 1

  /** The identifier column of the wide table, renamed to `Country` by the melt. */
  const IdColumn: string := "Country Code"

  const Billion: real := 1_000_000_000.0
  const Trillion: real := 1_000_000_000_000.0

  /** `country_codes_w_flags`: the codes shown with their flag. */
  const CountryCodesWithFlags: map<string, string> := map[
    "USA" := "USA \U{1F1FA}\U{1F1F8}",
    "CAN" := "CAN \U{1F1E8}\U{1F1E6}",
    "CHN" := "CHN \U{1F1E8}\U{1F1F3}",
    "IND" := "IND \U{1F1EE}\U{1F1F3}",
    "JPN" := "JPN \U{1F1EF}\U{1F1F5}",
    "RUS" := "RUS \U{1F1F7}\U{1F1FA}",
    "GBR" := "GBR \U{1F1EC}\U{1F1E7}",
    "BRA" := "BRA \U{1F1E7}\U{1F1F7}"
  ]

  /** A regional indicator symbol, two of which make a flag. */
  predicate RegionalIndicator(c: char)
  {
    '\U{1F1E6}' <= c <= '\U{1F1FF}'
  }

  /**
   * The eight flagged codes, each shown as itself, a space and a two-symbol
   * flag; no label is itself a code.
   */
  lemma FlagLabels()
    ensures CountryCodesWithFlags.Keys == {"USA", "CAN", "CHN", "IND", "JPN", "RUS", "GBR", "BRA"}
    ensures forall c :: c in CountryCodesWithFlags ==>
      var shown := CountryCodesWithFlags[c];
      && |shown| == 6 && shown[..3] == c && shown[3] == ' '
      && RegionalIndicator(shown[4]) && RegionalIndicator(shown[5])
    ensures forall c :: c in CountryCodesWithFlags ==> CountryCodesWithFlags[c] !in CountryCodesWithFlags
  {
  }

  /** `Series.replace(m)` on one value: a key of `m` becomes its value, anything else stays. */
  function Substitute(m: map<string, string>, v: string): (r: string)
    ensures v in m ==> r == m[v]
    ensures v !in m ==> r == v
  {
    if v in m then m[v] else v
  }

  /** The display label of a country code. */
  function Relabel(code: string): (shown: string)
    ensures code in CountryCodesWithFlags ==> shown == CountryCodesWithFlags[code]
    ensures code !in CountryCodesWithFlags ==> shown == code
  {
    Substitute(CountryCodesWithFlags, code)
  }

  /** A code is changed by relabelling exactly when it is one of the flagged codes. */
  lemma RelabelChangesExactlyFlagged(code: string)
    ensures Relabel(code) != code <==> code in CountryCodesWithFlags
    ensures code in CountryCodesWithFlags ==> Relabel(code) == CountryCodesWithFlags[code]
  {
  }

  /** Relabelling a label again changes nothing. */
  lemma RelabelIdempotent(code: string)
    ensures Relabel(Relabel(code)) == Relabel(code)
  {
  }

  /** Two distinct codes that are not themselves flagged labels keep distinct labels. */
  lemma RelabelKeepsDistinct(a: string, b: string)
    requires a !in CountryCodesWithFlags.Values && b !in CountryCodesWithFlags.Values
    requires a != b
    ensures Relabel(a) != Relabel(b)
  {
  }

  /** `GDP (T)`: GDP in trillions, NaN staying NaN. */
  function Trillions(g: Option<real>): (t: Option<real>)
    ensures t.Some? <==> g.Some?
    ensures t.Some? ==> t.value * Trillion == g.value
  {
    if g.Some? then Some(g.value / Trillion) else None
  }

  /** `(GDP / 1e9).round(0) * 1e9`: GDP to the nearest billion, NaN staying NaN. */
  function Billions(g: Option<real>): (b: Option<real>)
    ensures b.Some? <==> g.Some?
    ensures b.Some? ==> g.value - Billion / 2.0 <= b.value <= g.value + Billion / 2.0
    ensures b.Some? ==> (b.value / Billion).Floor as real == b.value / Billion
  {
    if g.Some? then
      var n := Rounding.RoundHalfEven(g.value / Billion);
      assert n as real * Billion / Billion == n as real;
      assert (n as real).Floor == n;
      Some(n as real * Billion)
    else None
  }

  /** No whole number of billions is closer to the GDP than its rounding. */
  lemma BillionsIsNearest(g: real, m: int)
    ensures Rounding.Abs(Billions(Some(g)).value - g) <= Rounding.Abs(m as real * Billion - g)
  {
    var x := g / Billion;
    Rounding.RoundHalfEvenIsNearest(x, m);
    var n := Rounding.RoundHalfEven(x);
    assert Billions(Some(g)).value - g == (n as real - x) * Billion;
    assert m as real * Billion - g == (m as real - x) * Billion;
  }

  /** Rounding a rounded GDP again changes nothing. */
  lemma BillionsIdempotent(g: Option<real>)
    ensures Billions(Billions(g)) == Billions(g)
  {
  }

  /**
   * `GDP (T)` is derived before `GDP` is overwritten: deriving it from the
   * rounded GDP would give another figure (0.0014 against 0.001 for 1.4e9).
   */
  lemma DerivationOrderMatters()
    ensures Trillions(Billions(Some(1_400_000_000.0))) != Trillions(Some(1_400_000_000.0))
  {
  }

  /** One row of the CSV: its `Country Code` and its other cells by column name. */
  datatype WideRow = WideRow(code: string, cells: map<string, Option<real>>)

  /** The CSV as `pd.read_csv` gives it: the header and the rows. */
  datatype WideTable = WideTable(columns: set<string>, rows: seq<WideRow>)

  /** Every row has a cell in every column but the identifier. */
  predicate Rectangular(t: WideTable)
  {
    forall i :: 0 <= i < |t.rows| ==> t.rows[i].cells.Keys == t.columns - {IdColumn}
  }

  /** `str(x)` for the `j`-th melted year. */
  function YearLabel(j: nat): (s: string)
    ensures s != [] && Decimal.IsDigits(s) && s[0] != '0'
    ensures Decimal.ToNumeric(s) == Some(FirstYear + j)
  {
    Decimal.ToNumericOfNatToString(FirstYear + j);
    Decimal.NatToString(FirstYear + j)
  }

  predicate HasRequiredColumns(t: WideTable)
  {
    IdColumn in t.columns && forall j :: 0 <= j < YearCount ==> YearLabel(j) in t.columns
  }

  /** The `KeyError` of `melt`: the identifier column if it is absent, otherwise the missing year columns. */
  datatype LoadError = MissingColumns(names: set<string>)

  function Missing(t: WideTable): (names: set<string>)
    ensures names == {} <==> HasRequiredColumns(t)
    ensures IdColumn !in t.columns ==> names == {IdColumn}
    ensures IdColumn in t.columns ==>
      forall j :: 0 <= j < YearCount ==> (YearLabel(j) in names <==> YearLabel(j) !in t.columns)
  {
    if IdColumn !in t.columns then {IdColumn}
    else
      var names := set j | 0 <= j < YearCount && YearLabel(j) !in t.columns :: YearLabel(j);
      assert (forall j :: 0 <= j < YearCount ==> YearLabel(j) in t.columns) ==> names == {};
      assert !(forall j :: 0 <= j < YearCount ==> YearLabel(j) in t.columns) ==> names != {} by {
        if exists j :: 0 <= j < YearCount && YearLabel(j) !in t.columns {
          var j :| 0 <= j < YearCount && YearLabel(j) !in t.columns;
          assert YearLabel(j) in names;
        }
      }
      names
  }

  /** The cell of input row `i` in the column of the `j`-th year. */
  function Cell(t: WideTable, i: nat, j: nat): Option<real>
    requires Rectangular(t) && HasRequiredColumns(t)
    requires i < |t.rows| && j < YearCount
  {
    t.rows[i].cells[YearLabel(j)]
  }

  // `melt(['Country Code'], value_vars, 'Year', 'GDP')` lays its output out
  // year column by year column, each column in row order: output row k holds
  // input row k % n under the year k / n.

  function MeltedCountry(t: WideTable): (cs: seq<string>)
    ensures |cs| == |t.rows| * YearCount
  {
    var n := |t.rows|;
    seq(n * YearCount, k requires 0 <= k < n * YearCount => t.rows[k % n].code)
  }

  function MeltedYear(t: WideTable): (ys: seq<string>)
    ensures |ys| == |t.rows| * YearCount
  {
    var n := |t.rows|;
    seq(n * YearCount, k requires 0 <= k < n * YearCount => YearLabel(k / n))
  }

  function MeltedGdp(t: WideTable): (gs: seq<Option<real>>)
    requires Rectangular(t) && HasRequiredColumns(t)
    ensures |gs| == |t.rows| * YearCount
  {
    var n := |t.rows|;
    seq(n * YearCount, k requires 0 <= k < n * YearCount => Cell(t, k % n, k / n))
  }

  /**
   * The long table row by row, as the whole of `get_gdp_data` defines it
   * before the final sort: input row k % n under year `FirstYear + k / n`,
   * relabelled, with `GDP (T)` from the raw cell and `GDP` rounded.
   */
  function Reshaped(t: WideTable): (rs: seq<Record>)
    requires Rectangular(t) && HasRequiredColumns(t)
    ensures |rs| == |MeltedGdp(t)|
    ensures forall k :: 0 <= k < |rs| ==>
      && rs[k].country == Relabel(MeltedCountry(t)[k])
      && Some(rs[k].year) == Decimal.ToNumeric(MeltedYear(t)[k])
      && rs[k].gdp == Billions(MeltedGdp(t)[k])
      && rs[k].gdpT == Trillions(MeltedGdp(t)[k])
  {
    var n := |t.rows|;
    seq(n * YearCount, k requires 0 <= k < n * YearCount =>
      var cell := Cell(t, k % n, k / n);
      Record(Relabel(t.rows[k % n].code), FirstYear + k / n, Billions(cell), Trillions(cell)))
  }

  lemma MulAtLeast(x: int, n: nat)
    requires x >= 1
    ensures x * n >= n
  {
  }

  lemma DivModOfIndex(n: nat, i: nat, j: nat)
    requires i < n
    ensures (j * n + i) / n == j && (j * n + i) % n == i
  {
    var k := j * n + i;
    var q, r := k / n, k % n;
    assert k == q * n + r;
    assert (j - q) * n == r - i;
    if q < j {
      MulAtLeast(j - q, n);
    } else if q > j {
      MulAtLeast(q - j, n);
    }
  }

  /**
   * The melt's layout: the value of input row `i` in the `j`-th year column
   * lands at index `j * n + i`, beside that row's code and that year's label.
   */
  lemma MeltLayout(t: WideTable, i: nat, j: nat)
    requires Rectangular(t) && HasRequiredColumns(t)
    requires i < |t.rows| && j < YearCount
    ensures j * |t.rows| + i < |t.rows| * YearCount
    ensures MeltedCountry(t)[j * |t.rows| + i] == t.rows[i].code
    ensures MeltedYear(t)[j * |t.rows| + i] == YearLabel(j)
    ensures MeltedGdp(t)[j * |t.rows| + i] == Cell(t, i, j)
  {
    var n := |t.rows|;
    DivModOfIndex(n, i, j);
    var k := j * n + i;
    assert k < n * YearCount by {
      MulAtLeast(YearCount - j, n);
      assert (YearCount - j) * n == n * YearCount - j * n;
    }
    assert k / n == j && k % n == i;
  }

  /** The reshape has one row per input row and year, carrying that row's code and that year's cell. */
  lemma ReshapedAt(t: WideTable, i: nat, j: nat)
    requires Rectangular(t) && HasRequiredColumns(t)
    requires i < |t.rows| && j < YearCount
    ensures |Reshaped(t)| == |t.rows| * YearCount
    ensures j * |t.rows| + i < |Reshaped(t)|
    ensures Reshaped(t)[j * |t.rows| + i] ==
      Record(Relabel(t.rows[i].code), FirstYear + j, Billions(Cell(t, i, j)), Trillions(Cell(t, i, j)))
  {
    MeltLayout(t, i, j);
    var k := j * |t.rows| + i;
    var rs := Reshaped(t);
    assert rs[k].country == Relabel(MeltedCountry(t)[k]);
    assert Some(rs[k].year) == Decimal.ToNumeric(YearLabel(j));
    assert rs[k].gdp == Billions(Cell(t, i, j)) && rs[k].gdpT == Trillions(Cell(t, i, j));
  }

  /** Input row and year of a reshaped row. */
  lemma ReshapedSource(t: WideTable, k: nat) returns (i: nat, j: nat)
    requires Rectangular(t) && HasRequiredColumns(t)
    requires k < |Reshaped(t)|
    ensures i < |t.rows| && j < YearCount && k == j * |t.rows| + i
    ensures Reshaped(t)[k].year == FirstYear + j
    ensures Reshaped(t)[k].country == Relabel(t.rows[i].code)
  {
    i, j := IndexSplit(k, |t.rows|);
    ReshapedAt(t, i, j);
  }

  /** Splitting an index below `n * YearCount` into a row below `n` and a year below `YearCount`. */
  lemma IndexSplit(k: nat, n: nat) returns (i: nat, j: nat)
    requires k < n * YearCount
    ensures i < n && j < YearCount && k == j * n + i
  {
    i, j := k % n, k / n;
  }

  /** Distinct codes, none of them a flagged label. */
  predicate DistinctCodes(t: WideTable)
  {
    && (forall i, j :: 0 <= i < j < |t.rows| ==> t.rows[i].code != t.rows[j].code)
    && (forall i :: 0 <= i < |t.rows| ==> t.rows[i].code !in CountryCodesWithFlags.Values)
  }

  /** With distinct codes, the reshape holds each (Country, Year) pair once. */
  lemma ReshapedUnique(t: WideTable)
    requires Rectangular(t) && HasRequiredColumns(t)
    requires DistinctCodes(t)
    ensures UniqueCountryYear(Reshaped(t))
  {
    var s := Reshaped(t);
    forall k1, k2 | 0 <= k1 < k2 < |s| ensures s[k1].country != s[k2].country || s[k1].year != s[k2].year {
      var i1, j1 := ReshapedSource(t, k1);
      var i2, j2 := ReshapedSource(t, k2);
      if j1 == j2 {
        assert i1 != i2;
        var c1, c2 := t.rows[i1].code, t.rows[i2].code;
        assert i1 < i2;
        RelabelKeepsDistinct(c1, c2);
      }
    }
  }

  /** The Year column before and after `pd.to_numeric`. */
  datatype YearCells = Text(labels: seq<string>) | Numeric(values: seq<int>)

  function YearCellCount(y: YearCells): nat
  {
    match y
    case Text(ls) => |ls|
    case Numeric(vs) => |vs|
  }

  /**
   * The DataFrame `gdp_df` of `get_gdp_data`, one field per column; each
   * method is one column assignment of the source.
   */
  class GdpFrame {
    var country: seq<string>
    var year: YearCells
    var gdp: seq<Option<real>>
    /** The `GDP (T)` column; None until it is added. */
    var gdpT: Option<seq<Option<real>>>

    ghost predicate Valid()
      reads this
    {
      && |country| == |gdp|
      && YearCellCount(year) == |gdp|
      && (gdpT.Some? ==> |gdpT.value| == |gdp|)
    }

    /** `raw.melt(['Country Code'], year labels, 'Year', 'GDP').rename(columns={'Country Code': 'Country'})`. */
    constructor Melt(t: WideTable)
      requires Rectangular(t) && HasRequiredColumns(t)
      ensures Valid()
      ensures country == MeltedCountry(t) && year == Text(MeltedYear(t))
      ensures gdp == MeltedGdp(t) && gdpT == None
    {
      country := MeltedCountry(t);
      year := Text(MeltedYear(t));
      gdp := MeltedGdp(t);
      gdpT := None;
    }

    /** `gdp_df['Country'] = gdp_df['Country'].replace(m)`. */
    method ReplaceCountries(m: map<string, string>)
      requires Valid()
      modifies this
      ensures Valid()
      ensures |country| == |old(country)|
      ensures forall k :: 0 <= k < |country| ==> country[k] == Substitute(m, old(country)[k])
      ensures year == old(year) && gdp == old(gdp) && gdpT == old(gdpT)
    {
      var cs := country;
      country := seq(|cs|, k requires 0 <= k < |cs| => Substitute(m, cs[k]));
    }

    /** `gdp_df['Year'] = pd.to_numeric(gdp_df['Year'])`; pandas raises on text that is not a number. */
    method YearToNumeric()
      requires Valid()
      requires year.Text? ==> forall k :: 0 <= k < |year.labels| ==> Decimal.ToNumeric(year.labels[k]).Some?
      modifies this
      ensures Valid() && year.Numeric?
      ensures old(year).Numeric? ==> year == old(year)
      ensures old(year).Text? ==> |year.values| == |old(year).labels|
      ensures old(year).Text? ==>
        forall k :: 0 <= k < |year.values| ==> Some(year.values[k]) == Decimal.ToNumeric(old(year).labels[k])
      ensures country == old(country) && gdp == old(gdp) && gdpT == old(gdpT)
    {
      if year.Text? {
        var ls := year.labels;
        year := Numeric(seq(|ls|, k requires 0 <= k < |ls| => Decimal.ToNumeric(ls[k]).value));
      }
    }

    /** `gdp_df['GDP (T)'] = gdp_df['GDP'] / 1e12`. */
    method AddTrillions()
      requires Valid()
      modifies this
      ensures Valid() && gdpT.Some?
      ensures forall k :: 0 <= k < |gdp| ==> gdpT.value[k] == Trillions(gdp[k])
      ensures country == old(country) && year == old(year) && gdp == old(gdp)
    {
      var gs := gdp;
      gdpT := Some(seq(|gs|, k requires 0 <= k < |gs| => Trillions(gs[k])));
    }

    /** `gdp_df['GDP'] = (gdp_df['GDP'] / 1e9).round(0) * 1e9`. */
    method RoundToBillions()
      requires Valid()
      modifies this
      ensures Valid()
      ensures |gdp| == |old(gdp)|
      ensures forall k :: 0 <= k < |gdp| ==> gdp[k] == Billions(old(gdp)[k])
      ensures country == old(country) && year == old(year) && gdpT == old(gdpT)
    {
      var gs := gdp;
      gdp := seq(|gs|, k requires 0 <= k < |gs| => Billions(gs[k]));
    }

    /** The frame's rows, once Year is numeric and `GDP (T)` exists. */
    function Rows(): (rs: seq<Record>)
      reads this
      requires Valid() && year.Numeric? && gdpT.Some?
      ensures |rs| == |gdp|
      ensures forall k :: 0 <= k < |rs| ==>
        rs[k] == Record(country[k], year.values[k], gdp[k], gdpT.value[k])
    {
      var cs, ys, gs, ts := country, year.values, gdp, gdpT.value;
      seq(|gs|, k requires 0 <= k < |gs| => Record(cs[k], ys[k], gs[k], ts[k]))
    }
  }

  /**
   * `get_gdp_data` on the table `pd.read_csv` returned: the `KeyError` of the
   * melt when a required column is missing, otherwise a permutation of the
   * reshaped rows sorted by Year descending.
   */
  method GetGdpData(t: WideTable) returns (r: Result<seq<Record>, LoadError>)
    requires Rectangular(t)
    ensures r.Err? <==> !HasRequiredColumns(t)
    ensures r.Err? ==> r.error == MissingColumns(Missing(t))
    ensures r.Ok? ==> |r.value| == |t.rows| * YearCount
    ensures r.Ok? ==> multiset(r.value) == multiset(Reshaped(t))
    ensures r.Ok? ==> SortedDesc(r.value, YearColumn)
  {
    var missing := Missing(t);
    if missing != {} {
      return Err(MissingColumns(missing));
    }
    var n := |t.rows|;
    var df := new GdpFrame.Melt(t);
    df.ReplaceCountries(CountryCodesWithFlags);
    forall k | 0 <= k < |df.year.labels|
      ensures Decimal.ToNumeric(df.year.labels[k]) == Some(FirstYear + k / n)
    {
      Decimal.ToNumericOfNatToString(FirstYear + k / n);
    }
    df.YearToNumeric();
    df.AddTrillions();
    df.RoundToBillions();
    var rows := df.Rows();
    assert rows == Reshaped(t);
    r := Ok(SortDesc(rows, YearColumn));
  }

  /** `L` is what `get_gdp_data` may return for `t`. */
  predicate LoadedFrom(L: seq<Record>, t: WideTable)
  {
    && Rectangular(t) && HasRequiredColumns(t)
    && multiset(L) == multiset(Reshaped(t))
    && SortedDesc(L, YearColumn)
  }

  /** Each (input row, year) has its row in the loaded table. */
  lemma LoadedContains(L: seq<Record>, t: WideTable, i: nat, j: nat)
    requires LoadedFrom(L, t)
    requires i < |t.rows| && j < YearCount
    ensures Record(Relabel(t.rows[i].code), FirstYear + j, Billions(Cell(t, i, j)), Trillions(Cell(t, i, j))) in L
  {
    ReshapedAt(t, i, j);
    assert Reshaped(t)[j * |t.rows| + i] in multiset(L);
  }

  /** The slider bounds: for a nonempty CSV, the smallest and largest Year are 1960 and 2022. */
  lemma LoadedYearBounds(L: seq<Record>, t: WideTable)
    requires LoadedFrom(L, t)
    requires |t.rows| > 0
    ensures MinYear(L) == Some(FirstYear)
    ensures MaxYear(L) == Some(LastYear)
  {
    LoadedHasYear(L, t, 0);
    LoadedHasYear(L, t, YearCount - 1);
    LoadedYearsInRange(L, t);
    MinYearIs(L, FirstYear);
    MaxYearIs(L, LastYear);
  }

  /** For a nonempty CSV, every melted year has a row in the loaded table. */
  lemma LoadedHasYear(L: seq<Record>, t: WideTable, j: nat)
    requires LoadedFrom(L, t)
    requires |t.rows| > 0 && j < YearCount
    ensures exists k :: 0 <= k < |L| && L[k].year == FirstYear + j
  {
    LoadedContains(L, t, 0, j);
    var x := Record(Relabel(t.rows[0].code), FirstYear + j, Billions(Cell(t, 0, j)), Trillions(Cell(t, 0, j)));
    var k :| 0 <= k < |L| && L[k] == x;
  }

  lemma LoadedYearsInRange(L: seq<Record>, t: WideTable)
    requires LoadedFrom(L, t)
    ensures forall k :: 0 <= k < |L| ==> FirstYear <= L[k].year <= LastYear
  {
    forall k | 0 <= k < |L| ensures FirstYear <= L[k].year <= LastYear {
      assert L[k] in multiset(Reshaped(t));
      var m :| 0 <= m < |Reshaped(t)| && Reshaped(t)[m] == L[k];
      var i, j := ReshapedSource(t, m);
    }
  }

  /** With distinct codes, the loaded table holds each (Country, Year) pair once. */
  lemma LoadedUnique(L: seq<Record>, t: WideTable)
    requires LoadedFrom(L, t)
    requires DistinctCodes(t)
    ensures UniqueCountryYear(L)
  {
    ReshapedUnique(t);
    UniqueSubBag(Reshaped(t), L);
  }
}
