/**
 * The long GDP table as a sequence of rows, and the pandas primitives the
 * dashboard applies to it: boolean masks (`df[mask]`), `sort_values`
 * descending, `min`/`max` of the Year column and `tolist` of the Country
 * column.
 */
module Table {
  import opened Wrappers

  /** One row of the long table: its `Country`, `Year`, `GDP` and `GDP (T)` cells. */
  datatype Record = Record(country: string, year: int, gdp: Option<real>, gdpT: Option<real>)

  /** The columns a row can be sorted or tested on. */
  datatype Column = YearColumn | GdpColumn | GdpTColumn

  /** The cell of `r` in column `c`, None when it is NaN. */
  function Value(r: Record, c: Column): Option<real>
  {
    match c
    case YearColumn => Some(r.year as real)
    case GdpColumn => r.gdp
    case GdpTColumn => r.gdpT
  }

  /** The boolean masks the dashboard indexes its tables with. */
  datatype Mask =
    | NotNull(column: Column)                                   // df[col].isnull() == False
    | YearIs(year: int)                                         // df['Year'] == year
    | CountryIs(country: string)                                // df['Country'] == country
    | Window(selected: seq<string>, fromYear: int, toYear: int) // isin(selected) & Year <= to & from <= Year

  predicate Holds(m: Mask, r: Record)
  {
    match m
    case NotNull(c) => Value(r, c).Some?
    case YearIs(y) => r.year == y
    case CountryIs(c) => r.country == c
    case Window(sel, lo, hi) => r.country in sel && r.year <= hi && lo <= r.year
  }

  /** `df[mask]`: the rows where the mask holds, in table order. */
  function Where(s: seq<Record>, m: Mask): (w: seq<Record>)
    ensures forall r {:trigger multiset(w)[r]} :: multiset(w)[r] == if Holds(m, r) then multiset(s)[r] else 0
    ensures forall r {:trigger r in w} :: r in w <==> r in s && Holds(m, r)
    ensures forall i :: 0 <= i < |w| ==> Holds(m, w[i])
    ensures multiset(w) <= multiset(s)
    ensures (forall i :: 0 <= i < |s| ==> Holds(m, s[i])) ==> w == s
  {
    if s == [] then []
    else
      var rest := Where(s[1..], m);
      var w := (if Holds(m, s[0]) then [s[0]] else []) + rest;
      WhereStep(s, m, rest);
      KeptRows(s, m, w);
      w
  }

  /** One step of `Where`: the head's count joins the counts kept from the tail. */
  lemma WhereStep(s: seq<Record>, m: Mask, rest: seq<Record>)
    requires s != []
    requires forall r {:trigger multiset(rest)[r]} :: multiset(rest)[r] == if Holds(m, r) then multiset(s[1..])[r] else 0
    ensures forall r {:trigger multiset((if Holds(m, s[0]) then [s[0]] else []) + rest)[r]} ::
      multiset((if Holds(m, s[0]) then [s[0]] else []) + rest)[r] == if Holds(m, r) then multiset(s)[r] else 0
    ensures s == [s[0]] + s[1..]
  {
    assert s == [s[0]] + s[1..];
    assert multiset(s) == multiset{s[0]} + multiset(s[1..]);
  }

  /** A table that keeps each row where `m` holds as often as `s`, and no other row. */
  lemma KeptRows(s: seq<Record>, m: Mask, w: seq<Record>)
    requires forall r {:trigger multiset(w)[r]} :: multiset(w)[r] == if Holds(m, r) then multiset(s)[r] else 0
    ensures forall r {:trigger r in w} :: r in w <==> r in s && Holds(m, r)
    ensures forall i :: 0 <= i < |w| ==> Holds(m, w[i])
    ensures multiset(w) <= multiset(s)
  {
    forall r ensures r in w <==> r in s && Holds(m, r) {
      assert r in w <==> r in multiset(w);
      assert r in s <==> r in multiset(s);
    }
    forall i | 0 <= i < |w| ensures Holds(m, w[i]) {
      assert w[i] in multiset(w);
    }
  }

  /** Every row that mask `p` keeps, mask `q` keeps too. */
  ghost predicate Narrower(p: Mask, q: Mask)
  {
    forall r :: Holds(p, r) ==> Holds(q, r)
  }

  /**
   * Applying a narrower mask to what a wider one kept is applying the narrower
   * mask alone, so the wider mask keeps every row the narrower one does.
   */
  lemma {:induction false} WhereNarrower(s: seq<Record>, p: Mask, q: Mask)
    requires Narrower(p, q)
    ensures Where(Where(s, q), p) == Where(s, p)
    ensures multiset(Where(s, p)) <= multiset(Where(s, q))
  {
    WhereOfWhere(s, p, q);
    assert multiset(Where(Where(s, q), p)) <= multiset(Where(s, q));
  }

  lemma {:induction false} WhereOfWhere(s: seq<Record>, p: Mask, q: Mask)
    requires Narrower(p, q)
    ensures Where(Where(s, q), p) == Where(s, p)
  {
    if s != [] {
      WhereOfWhere(s[1..], p, q);
      var rest := Where(s[1..], q);
      if Holds(q, s[0]) {
        var w := [s[0]] + rest;
        assert Where(s, q) == w;
        assert w[0] == s[0] && w[1..] == rest;
        assert Where(w, p) == (if Holds(p, s[0]) then [s[0]] else []) + Where(rest, p);
      } else {
        assert !Holds(p, s[0]);
        assert Where(s, q) == rest;
      }
    }
  }

  /** Masking keeps the relative order of rows, so a sorted table stays sorted. */
  lemma {:induction false} WhereKeepsSorted(s: seq<Record>, m: Mask, c: Column)
    requires SortedDesc(s, c)
    ensures SortedDesc(Where(s, m), c)
  {
    if s != [] {
      WhereKeepsSorted(s[1..], m, c);
      var rest := Where(s[1..], m);
      forall j | 0 <= j < |rest| ensures InOrder(Value(s[0], c), Value(rest[j], c)) {
        assert rest[j] in rest;
      }
    }
  }

  /**
   * Whether `a` may stand before `b` in a descending sort: the larger value
   * first, and missing values last (pandas' default `na_position='last'`).
   */
  predicate InOrder(a: Option<real>, b: Option<real>)
  {
    b.None? || (a.Some? && a.value >= b.value)
  }

  /** `s` is sorted descending by column `c`, missing values last. */
  predicate SortedDesc(s: seq<Record>, c: Column)
  {
    forall i, j :: 0 <= i < j < |s| ==> InOrder(Value(s[i], c), Value(s[j], c))
  }

  /** Inserts `x` into a sorted table ahead of the first row it may precede. */
  function Insert(x: Record, s: seq<Record>, c: Column): (t: seq<Record>)
    requires SortedDesc(s, c)
    ensures SortedDesc(t, c)
    ensures multiset(t) == multiset(s) + multiset{x}
  {
    if s == [] then [x]
    else if InOrder(Value(x, c), Value(s[0], c)) then [x] + s
    else
      assert s == [s[0]] + s[1..];
      var rest := Insert(x, s[1..], c);
      var t := [s[0]] + rest;
      forall j | 0 <= j < |rest| ensures InOrder(Value(s[0], c), Value(rest[j], c)) {
        assert rest[j] in multiset(rest);
        assert rest[j] == x || rest[j] in multiset(s[1..]);
      }
      t
  }

  /**
   * `sort_values(by=c, ascending=False)`: a permutation of `s` sorted
   * descending by `c`. pandas' default sort is not stable, so which of two
   * rows with equal keys comes first is left open by this contract.
   */
  function SortDesc(s: seq<Record>, c: Column): (t: seq<Record>)
    ensures SortedDesc(t, c)
    ensures multiset(t) == multiset(s)
    ensures |t| == |s|
  {
    if s == [] then []
    else
      assert s == [s[0]] + s[1..];
      Insert(s[0], SortDesc(s[1..], c), c)
  }

  /** `df['Year'].max()`: None (NaN) for an empty table. */
  function MaxYear(s: seq<Record>): (m: Option<int>)
    ensures m.None? <==> s == []
    ensures m.Some? ==> (exists i :: 0 <= i < |s| && s[i].year == m.value)
    ensures m.Some? ==> forall i :: 0 <= i < |s| ==> s[i].year <= m.value
  {
    if s == [] then None
    else match MaxYear(s[1..])
      case None => Some(s[0].year)
      case Some(y) => Some(if s[0].year >= y then s[0].year else y)
  }

  /** `df['Year'].min()`: None (NaN) for an empty table. */
  function MinYear(s: seq<Record>): (m: Option<int>)
    ensures m.None? <==> s == []
    ensures m.Some? ==> (exists i :: 0 <= i < |s| && s[i].year == m.value)
    ensures m.Some? ==> forall i :: 0 <= i < |s| ==> m.value <= s[i].year
  {
    if s == [] then None
    else match MinYear(s[1..])
      case None => Some(s[0].year)
      case Some(y) => Some(if s[0].year <= y then s[0].year else y)
  }

  /** A Year that occurs and that no row is below is the minimum. */
  lemma MinYearIs(s: seq<Record>, y: int)
    requires exists k :: 0 <= k < |s| && s[k].year == y
    requires forall k :: 0 <= k < |s| ==> y <= s[k].year
    ensures MinYear(s) == Some(y)
  {
    var k :| 0 <= k < |s| && s[k].year == y;
    assert s != [];
    var m := MinYear(s);
    assert m.Some? && m.value <= s[k].year;
    var i :| 0 <= i < |s| && s[i].year == m.value;
    assert m.value == y;
  }

  /** A Year that occurs and that no row exceeds is the maximum. */
  lemma MaxYearIs(s: seq<Record>, y: int)
    requires exists k :: 0 <= k < |s| && s[k].year == y
    requires forall k :: 0 <= k < |s| ==> s[k].year <= y
    ensures MaxYear(s) == Some(y)
  {
    var k :| 0 <= k < |s| && s[k].year == y;
    assert s != [];
    var m := MaxYear(s);
    assert m.Some? && s[k].year <= m.value;
    var i :| 0 <= i < |s| && s[i].year == m.value;
    assert m.value == y;
  }

  /** `df['Country'].tolist()`. */
  function Countries(s: seq<Record>): (cs: seq<string>)
    ensures |cs| == |s|
    ensures forall i :: 0 <= i < |s| ==> cs[i] == s[i].country
  {
    seq(|s|, i requires 0 <= i < |s| => s[i].country)
  }

  /** No two rows share a (Country, Year) pair. */
  predicate UniqueCountryYear(s: seq<Record>)
  {
    forall i, j :: 0 <= i < j < |s| ==> s[i].country != s[j].country || s[i].year != s[j].year
  }

  /** A value that occurs twice in a sequence occurs at two positions. */
  lemma TwoPositions(s: seq<Record>, x: Record) returns (a: nat, b: nat)
    requires multiset(s)[x] >= 2
    ensures a < b < |s| && s[a] == x && s[b] == x
  {
    assert x in multiset(s);
    a :| 0 <= a < |s| && s[a] == x;
    assert s == s[..a] + [x] + s[a + 1..];
    assert multiset(s) == multiset(s[..a]) + multiset{x} + multiset(s[a + 1..]);
    if x in s[a + 1..] {
      var k :| 0 <= k < |s[a + 1..]| && s[a + 1..][k] == x;
      b := a + 1 + k;
    } else {
      assert x in multiset(s[..a]);
      var k :| 0 <= k < a && s[..a][k] == x;
      a, b := k, a;
    }
  }

  /** Two positions of a sub-bag `t` of `s` come from two different positions of `s`. */
  lemma DistinctOrigins(s: seq<Record>, t: seq<Record>, i: nat, j: nat) returns (a: nat, b: nat)
    requires multiset(t) <= multiset(s)
    requires i < j < |t|
    ensures a < |s| && b < |s| && a != b && s[a] == t[i] && s[b] == t[j]
  {
    if t[i] == t[j] {
      assert t == t[..j] + t[j..];
      assert t[i] in t[..j] && t[j] in t[j..];
      assert multiset(t) == multiset(t[..j]) + multiset(t[j..]);
      a, b := TwoPositions(s, t[i]);
    } else {
      assert t[i] in multiset(s) && t[j] in multiset(s);
      a :| 0 <= a < |s| && s[a] == t[i];
      b :| 0 <= b < |s| && s[b] == t[j];
    }
  }

  /** Taking rows out of a table (or reordering it) keeps (Country, Year) pairs unique. */
  lemma UniqueSubBag(s: seq<Record>, t: seq<Record>)
    requires UniqueCountryYear(s)
    requires multiset(t) <= multiset(s)
    ensures UniqueCountryYear(t)
  {
    forall i, j | 0 <= i < j < |t| ensures t[i].country != t[j].country || t[i].year != t[j].year {
      var a, b := DistinctOrigins(s, t, i, j);
      if a > b { a, b := b, a; }
    }
  }

  /** The elements of a sequence of countries, as a set. */
  function Elements(xs: seq<string>): set<string>
  {
    set x | x in xs
  }

  lemma {:induction false} ElementsAtMostLength(xs: seq<string>)
    ensures |Elements(xs)| <= |xs|
  {
    if xs != [] {
      ElementsAtMostLength(xs[1..]);
      assert Elements(xs) == {xs[0]} + Elements(xs[1..]);
    }
  }

  lemma {:induction false} ElementsOfDistinct(xs: seq<string>)
    requires forall i, j :: 0 <= i < j < |xs| ==> xs[i] != xs[j]
    ensures |Elements(xs)| == |xs|
  {
    if xs != [] {
      ElementsOfDistinct(xs[1..]);
      assert Elements(xs) == {xs[0]} + Elements(xs[1..]);
      assert xs[0] !in Elements(xs[1..]);
    }
  }

  /**
   * A table of rows from one year, each country from `sel`, and no
   * (Country, Year) pair twice, has at most as many rows as `sel` has entries.
   */
  lemma CountedBySelection(s: seq<Record>, sel: seq<string>, y: int)
    requires UniqueCountryYear(s)
    requires forall i :: 0 <= i < |s| ==> s[i].year == y && s[i].country in sel
    ensures |s| <= |sel|
  {
    var cs := Countries(s);
    ElementsOfDistinct(cs);
    ElementsAtMostLength(sel);
    assert Elements(cs) <= Elements(sel);
    assert |Elements(cs)| <= |Elements(sel)| by {
      SubsetCardinality(Elements(cs), Elements(sel));
    }
  }

  lemma SubsetCardinality(a: set<string>, b: set<string>)
    requires a <= b
    ensures |a| <= |b|
  {
    assert b == a + (b - a);
  }
}
