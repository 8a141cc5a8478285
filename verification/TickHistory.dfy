/** The two parallel enumerations behind the tick-data history: titles and values of every market and
    region (cronjobs/hstrmon/TickHist.py). File sizes are an arbitrary function of market and view. */
module TickHistory {
  import opened Options

  /** A region of the catalogue with its markets. */
  datatype Region = Region(name: string, markets: seq<string>)

  type Catalogue = seq<Region>

  /** What a column is about: one market, or a region; the region "ALL" holds every market. */
  datatype Locale = OneMarket(market: string) | OneRegion(region: string)

  datatype View = Simple(name: string) | SumAll

  type Title = (Locale, View)

  const ALL := "ALL"

  /** `is_region()`: the names the code takes for regions. */
  predicate IsRegion(locale: string) {
    locale in {ALL, "EURO", "ASIA", "CAN", "MA"}
  }

  /** Region names are the keys of a dictionary; all are names the code knows, and none is "ALL". */
  ghost predicate WellFormed(cat: Catalogue) {
    && (forall i :: 0 <= i < |cat| ==> IsRegion(cat[i].name) && cat[i].name != ALL)
    && (forall i, j :: 0 <= i < j < |cat| ==> cat[i].name != cat[j].name)
  }

  /** `markets()`: the markets of all regions, region by region. */
  function Markets(cat: Catalogue): seq<string> {
    if cat == [] then [] else Markets(cat[..|cat| - 1]) + cat[|cat| - 1].markets
  }

  /** `markets(locale)`: what is no region stands for itself. */
  function MarketsOf(cat: Catalogue, locale: string): seq<string> {
    if locale == "" || locale == ALL then Markets(cat)
    else if IsRegion(locale) then Lookup(cat, locale)
    else [locale]
  }

  function Lookup(cat: Catalogue, region: string): seq<string> {
    if cat == [] then []
    else if cat[|cat| - 1].name == region then cat[|cat| - 1].markets
    else Lookup(cat[..|cat| - 1], region)
  }

  /** No name, and "ALL", stand for every market; a name that is no region stands for itself. */
  lemma MarketsOfLocale(cat: Catalogue, locale: string)
    ensures locale == "" || locale == "ALL" ==> MarketsOf(cat, locale) == Markets(cat)
    ensures locale != "" && !IsRegion(locale) ==> MarketsOf(cat, locale) == [locale]
  {
  }

  /** `regions()`: "ALL" first. */
  function Regions(cat: Catalogue): (names: seq<string>)
    ensures |names| == |cat| + 1 && names[0] == ALL
    ensures forall i :: 0 <= i < |cat| ==> names[i + 1] == cat[i].name
  {
    [ALL] + seq(|cat|, i requires 0 <= i < |cat| => cat[i].name)
  }

  /** The catalogue of the code. */
  const CATALOGUE := [
    Region("EURO", ["EA", "EB", "EI", "EP", "EF", "EL", "ED", "EM", "EZ", "EO", "EX", "EC", "EW", "EY", "EH", "EG", "ET"]),
    Region("ASIA", ["AT", "AH", "AS", "AK", "AQ", "AW", "AG"]),
    Region("CAN", ["CJ", "CL", "CC", "CO", "CP"]),
    Region("MA", ["MJ"])
  ]

  lemma CatalogueIsWellFormed()
    ensures WellFormed(CATALOGUE)
  {
    assert CATALOGUE[0].name[0] == 'E' && CATALOGUE[1].name[0] == 'A';
    assert CATALOGUE[2].name[0] == 'C' && CATALOGUE[3].name[0] == 'M';
    assert ALL[0] == 'A' && |CATALOGUE[1].name| == 4 && |ALL| == 3;
  }

  // -------------------------------------------------------------------- titles

  /** The columns of some views of a locale, in order, the sum last. */
  function SimpleTitles(l: Locale, views: seq<string>): seq<Title> {
    if views == [] then [] else SimpleTitles(l, views[..|views| - 1]) + [(l, Simple(views[|views| - 1]))]
  }

  function TitlesOf(l: Locale, views: seq<string>): seq<Title> {
    SimpleTitles(l, views) + [(l, SumAll)]
  }

  function MarketTitles(markets: seq<string>, views: seq<string>): seq<Title> {
    if markets == [] then []
    else MarketTitles(markets[..|markets| - 1], views) + TitlesOf(OneMarket(markets[|markets| - 1]), views)
  }

  function RegionTitles(regions: seq<string>, views: seq<string>): seq<Title> {
    if regions == [] then []
    else RegionTitles(regions[..|regions| - 1], views) + TitlesOf(OneRegion(regions[|regions| - 1]), views)
  }

  /** All columns: every market, then every region. */
  function AllTitles(cat: Catalogue, views: seq<string>): seq<Title> {
    MarketTitles(Markets(cat), views) + RegionTitles(Regions(cat), views)
  }

  lemma TakeOneMore<T>(s: seq<T>, i: int)
    requires 0 <= i < |s|
    ensures s[..i + 1][..i] == s[..i] && s[..i + 1][i] == s[i]
  {
  }

  method Titles(cat: Catalogue, views: seq<string>) returns (titles: seq<Title>)
    ensures titles == AllTitles(cat, views)
  {
    titles := [];
    var markets, regions := Markets(cat), Regions(cat);
    for i := 0 to |markets|
      invariant titles == MarketTitles(markets[..i], views)
    {
      titles := AppendTitles(titles, OneMarket(markets[i]), views);
      TakeOneMore(markets, i);
    }
    assert markets[..|markets|] == markets;
    ghost var before := titles;
    assert titles == before + RegionTitles(regions[..0], views);
    for i := 0 to |regions|
      invariant titles == before + RegionTitles(regions[..i], views)
    {
      var longer := AppendTitles(titles, OneRegion(regions[i]), views);
      TakeOneMore(regions, i);
      Reassociate(before, RegionTitles(regions[..i], views), TitlesOf(OneRegion(regions[i]), views));
      titles := longer;
    }
    assert regions[..|regions|] == regions;
  }

  lemma Reassociate<T>(a: seq<T>, b: seq<T>, c: seq<T>)
    ensures a + b + c == a + (b + c)
  {
  }

  method AppendTitles(titles0: seq<Title>, l: Locale, views: seq<string>) returns (titles: seq<Title>)
    ensures titles == titles0 + TitlesOf(l, views)
  {
    titles := titles0;
    for j := 0 to |views|
      invariant titles == titles0 + SimpleTitles(l, views[..j])
    {
      titles := titles + [(l, Simple(views[j]))];
      TakeOneMore(views, j);
    }
    assert views[..|views|] == views;
    titles := titles + [(l, SumAll)];
  }

  // -------------------------------------------------------------------- values

  /** File size of a market's view on the day. */
  type Sizes = (string, string) -> real

  function Sum(xs: seq<string>, f: string -> real): real {
    if xs == [] then 0.0 else Sum(xs[..|xs| - 1], f) + f(xs[|xs| - 1])
  }

  /** The size of one view over some markets. */
  function ViewTotal(markets: seq<string>, size: Sizes, view: string): real {
    Sum(markets, m => size(m, view))
  }

  /** What a column should show. */
  function ValueOf(cat: Catalogue, views: seq<string>, size: Sizes, t: Title): real {
    match t
    case (OneMarket(m), Simple(v)) => size(m, v)
    case (OneMarket(m), SumAll) => Sum(views, v => size(m, v))
    case (OneRegion(r), Simple(v)) => ViewTotal(MarketsOf(cat, r), size, v)
    case (OneRegion(r), SumAll) => Sum(views, v => ViewTotal(MarketsOf(cat, r), size, v))
  }

  /** Sums add up: one entry, and one list after another. */
  lemma SumIs(xs: seq<string>, x: string, f: string -> real)
    ensures Sum([], f) == 0.0 && Sum(xs + [x], f) == Sum(xs, f) + f(x)
  {
    assert (xs + [x])[..|xs|] == xs;
  }

  /** The columns of simple views: the size itself for a market, the total over its markets for a region. */
  lemma SimpleValues(cat: Catalogue, views: seq<string>, size: Sizes, name: string, view: string)
    ensures ValueOf(cat, views, size, (OneMarket(name), Simple(view))) == size(name, view)
    ensures MarketsOf(cat, name) == [] ==> ValueOf(cat, views, size, (OneRegion(name), Simple(view))) == 0.0
    ensures |MarketsOf(cat, name)| == 1 ==>
              ValueOf(cat, views, size, (OneRegion(name), Simple(view))) == size(MarketsOf(cat, name)[0], view)
  {
    var markets := MarketsOf(cat, name);
    if |markets| == 1 {
      assert markets == [] + [markets[0]];
      SumIs([], markets[0], m => size(m, view));
    }
  }

  /** The k-th value belongs to the k-th title, and there are as many of one as of the other. */
  ghost predicate Belong(values: seq<real>, titles: seq<Title>, cat: Catalogue, views: seq<string>, size: Sizes) {
    |values| == |titles| && forall k :: 0 <= k < |values| ==> values[k] == ValueOf(cat, views, size, titles[k])
  }

  /** The sizes read so far: all simple views of the given markets. */
  ghost predicate Recorded(mVal: map<string, map<string, real>>, markets: seq<string>, views: seq<string>, size: Sizes) {
    forall m, v :: m in markets && v in views ==> m in mVal && v in mVal[m] && mVal[m][v] == size(m, v)
  }

  lemma BelongConcat(a: seq<real>, b: seq<real>, s: seq<Title>, t: seq<Title>, cat: Catalogue, views: seq<string>, size: Sizes)
    requires Belong(a, s, cat, views, size) && Belong(b, t, cat, views, size)
    ensures Belong(a + b, s + t, cat, views, size)
  {
    forall k | 0 <= k < |a + b|
      ensures (a + b)[k] == ValueOf(cat, views, size, (s + t)[k])
    {
      if k >= |a| {
        assert (a + b)[k] == b[k - |a|] && (s + t)[k] == t[k - |s|];
      }
    }
  }

  lemma {:induction false} SimpleTitlesAt(l: Locale, views: seq<string>)
    ensures |SimpleTitles(l, views)| == |views|
    ensures forall j :: 0 <= j < |views| ==> SimpleTitles(l, views)[j] == (l, Simple(views[j]))
  {
    if views != [] {
      SimpleTitlesAt(l, views[..|views| - 1]);
    }
  }

  /** A row of simple views and their sum is what the columns of a locale should show. */
  lemma RowBelongs(row: seq<real>, cat: Catalogue, views: seq<string>, size: Sizes, l: Locale)
    requires |row| == |views| + 1
    requires forall j :: 0 <= j < |views| ==> row[j] == ValueOf(cat, views, size, (l, Simple(views[j])))
    requires row[|views|] == ValueOf(cat, views, size, (l, SumAll))
    ensures Belong(row, TitlesOf(l, views), cat, views, size)
  {
    SimpleTitlesAt(l, views);
  }

  /** Every market a region is said to have is one whose sizes were read. */
  ghost predicate Known(cat: Catalogue, views: seq<string>, region: string) {
    views == [] || forall m :: m in MarketsOf(cat, region) ==> m in Markets(cat)
  }

  ghost predicate KnownUpTo(cat: Catalogue, views: seq<string>, regions: seq<string>, n: int)
    requires n <= |regions|
  {
    forall i {:trigger Known(cat, views, regions[i])} :: 0 <= i < n ==> Known(cat, views, regions[i])
  }

  ghost predicate AllKnown(cat: Catalogue, views: seq<string>) {
    KnownUpTo(cat, views, Regions(cat), |cat| + 1)
  }

  /** `None` is the KeyError of a region that is neither known as one nor the name of a market. */
  method Values(cat: Catalogue, views: seq<string>, size: Sizes) returns (values: Option<seq<real>>)
    ensures values.Some? <==> AllKnown(cat, views)
    ensures values.Some? ==> Belong(values.value, AllTitles(cat, views), cat, views, size)
  {
    var marketValues, mVal := MarketValues(cat, views, size);
    values := RegionValues(cat, views, size, mVal);
    if values.Some? {
      BelongConcat(marketValues, values.value, MarketTitles(Markets(cat), views), RegionTitles(Regions(cat), views),
                   cat, views, size);
      values := Some(marketValues + values.value);
    }
  }

  /** The map has exactly these markets, with the sizes of their views. */
  ghost predicate Remembers(mVal: map<string, map<string, real>>, markets: seq<string>, views: seq<string>, size: Sizes) {
    Recorded(mVal, markets, views, size) && forall m :: m in mVal <==> m in markets
  }

  lemma RememberOneMore(mVal: map<string, map<string, real>>, markets: seq<string>, views: seq<string>, size: Sizes,
                        market: string, sizes: map<string, real>)
    requires Remembers(mVal, markets, views, size)
    requires forall v :: v in views ==> v in sizes && sizes[v] == size(market, v)
    ensures Remembers(mVal[market := sizes], markets + [market], views, size)
  {
  }

  /** The first loop: sizes are read, listed and remembered. */
  method MarketValues(cat: Catalogue, views: seq<string>, size: Sizes)
    returns (values: seq<real>, mVal: map<string, map<string, real>>)
    ensures Belong(values, MarketTitles(Markets(cat), views), cat, views, size)
    ensures Remembers(mVal, Markets(cat), views, size)
  {
    values, mVal := [], map[];
    var markets := Markets(cat);
    for i := 0 to |markets|
      invariant Remembers(mVal, markets[..i], views, size)
      invariant Belong(values, MarketTitles(markets[..i], views), cat, views, size)
    {
      var row, sizes := MarketRow(cat, views, size, markets[i]);
      TakeOneMore(markets, i);
      BelongConcat(values, row, MarketTitles(markets[..i], views), TitlesOf(OneMarket(markets[i]), views), cat, views, size);
      values := values + row;
      RememberOneMore(mVal, markets[..i], views, size, markets[i], sizes);
      assert markets[..i + 1] == markets[..i] + [markets[i]];
      mVal := mVal[markets[i] := sizes];
    }
    assert markets[..|markets|] == markets;
  }

  /** The second loop: regions add up what was remembered. */
  method RegionValues(cat: Catalogue, views: seq<string>, size: Sizes, mVal: map<string, map<string, real>>)
    returns (values: Option<seq<real>>)
    requires Remembers(mVal, Markets(cat), views, size)
    ensures values.Some? <==> AllKnown(cat, views)
    ensures values.Some? ==> Belong(values.value, RegionTitles(Regions(cat), views), cat, views, size)
  {
    var row := [];
    var regions := Regions(cat);
    for i := 0 to |regions|
      invariant Belong(row, RegionTitles(regions[..i], views), cat, views, size)
      invariant KnownUpTo(cat, views, regions, i)
    {
      var more := KnownRow(cat, views, size, regions[i], mVal);
      if more.None? {
        return None;
      }
      TakeOneMore(regions, i);
      BelongConcat(row, more.value, RegionTitles(regions[..i], views), TitlesOf(OneRegion(regions[i]), views),
                   cat, views, size);
      row := row + more.value;
    }
    assert regions[..|regions|] == regions;
    values := Some(row);
  }

  /** One region of the second loop; looking up a market whose sizes were not read fails. */
  method KnownRow(cat: Catalogue, views: seq<string>, size: Sizes, region: string, mVal: map<string, map<string, real>>)
    returns (row: Option<seq<real>>)
    requires Remembers(mVal, Markets(cat), views, size)
    ensures row.Some? <==> Known(cat, views, region)
    ensures row.Some? ==> Belong(row.value, TitlesOf(OneRegion(region), views), cat, views, size)
  {
    var markets := MarketsOf(cat, region);
    if views != [] && exists m :: m in markets && m !in mVal {
      return None;
    }
    var sums := RegionRow(cat, views, size, region, markets, mVal);
    row := Some(sums);
  }

  /** The values of one market and the sizes to remember for the regions. */
  method MarketRow(ghost cat: Catalogue, views: seq<string>, size: Sizes, market: string)
    returns (row: seq<real>, sizes: map<string, real>)
    ensures Belong(row, TitlesOf(OneMarket(market), views), cat, views, size)
    ensures forall v :: v in views ==> v in sizes && sizes[v] == size(market, v)
  {
    row, sizes := [], map[];
    var vsum := 0.0;
    ghost var f := v => size(market, v);
    for j := 0 to |views|
      invariant |row| == j && forall k :: 0 <= k < j ==> row[k] == size(market, views[k])
      invariant forall v :: v in views[..j] ==> v in sizes && sizes[v] == size(market, v)
      invariant vsum == Sum(views[..j], f)
    {
      var val := size(market, views[j]);
      row := row + [val];
      sizes := sizes[views[j] := val];
      vsum := vsum + val;
      TakeOneMore(views, j);
    }
    assert views[..|views|] == views;
    SumOfSame(views, f, v => size(market, v));
    row := row + [vsum];
    RowBelongs(row, cat, views, size, OneMarket(market));
  }

  /** The remembered sizes of one view added up over some markets. */
  method ViewSum(markets: seq<string>, view: string, ghost size: Sizes, mVal: map<string, map<string, real>>)
    returns (val: real)
    requires Recorded(mVal, markets, [view], size)
    ensures val == ViewTotal(markets, size, view)
  {
    val := 0.0;
    ghost var g := m => size(m, view);
    for i := 0 to |markets|
      invariant val == Sum(markets[..i], g)
    {
      assert markets[i] in markets && view in [view];
      val := val + mVal[markets[i]][view];
      TakeOneMore(markets, i);
    }
    assert markets[..|markets|] == markets;
    SumOfSame(markets, g, m => size(m, view));
  }

  /** The sums over some markets, view by view, and their total. */
  method ViewSums(markets: seq<string>, views: seq<string>, ghost size: Sizes, ghost f: string -> real,
                  mVal: map<string, map<string, real>>)
    returns (row: seq<real>)
    requires Recorded(mVal, markets, views, size) && forall v :: f(v) == ViewTotal(markets, size, v)
    ensures |row| == |views| + 1 && row[|views|] == Sum(views, f)
    ensures forall j :: 0 <= j < |views| ==> row[j] == f(views[j])
  {
    row := [];
    var vsum := 0.0;
    for j := 0 to |views|
      invariant |row| == j && forall k :: 0 <= k < j ==> row[k] == f(views[k])
      invariant vsum == Sum(views[..j], f)
    {
      assert views[j] in views;
      var val := ViewSum(markets, views[j], size, mVal);
      row := row + [val];
      vsum := vsum + val;
      TakeOneMore(views, j);
    }
    assert views[..|views|] == views;
    row := row + [vsum];
  }

  /** The values of one region, from the remembered sizes. */
  method RegionRow(ghost cat: Catalogue, views: seq<string>, ghost size: Sizes, ghost region: string,
                   markets: seq<string>, mVal: map<string, map<string, real>>)
    returns (row: seq<real>)
    requires markets == MarketsOf(cat, region) && Recorded(mVal, markets, views, size)
    ensures Belong(row, TitlesOf(OneRegion(region), views), cat, views, size)
  {
    ghost var f := v => ViewTotal(markets, size, v);
    row := ViewSums(markets, views, size, f, mVal);
    SumOfSame(views, f, v => ViewTotal(MarketsOf(cat, region), size, v));
    RowBelongs(row, cat, views, size, OneRegion(region));
  }

  lemma {:induction false} LookupInMarkets(cat: Catalogue, region: string)
    ensures forall m :: m in Lookup(cat, region) ==> m in Markets(cat)
  {
    if cat != [] {
      LookupInMarkets(cat[..|cat| - 1], region);
    }
  }

  /** With region names the code knows nothing fails. */
  lemma KnownRegionsHaveKnownMarkets(cat: Catalogue, views: seq<string>)
    requires WellFormed(cat)
    ensures AllKnown(cat, views)
  {
    forall i | 0 <= i < |cat| + 1
      ensures Known(cat, views, Regions(cat)[i])
    {
      LookupInMarkets(cat, Regions(cat)[i]);
      assert i > 0 ==> Regions(cat)[i] == cat[i - 1].name;
    }
  }

  // ----------------------------------------------------------------- the totals

  lemma {:induction false} SumOfSame(xs: seq<string>, f: string -> real, g: string -> real)
    requires forall x :: x in xs ==> f(x) == g(x)
    ensures Sum(xs, f) == Sum(xs, g)
  {
    if xs != [] {
      SumOfSame(xs[..|xs| - 1], f, g);
    }
  }

  lemma {:induction false} SumOfSums(xs: seq<string>, f: string -> real, g: string -> real)
    ensures Sum(xs, x => f(x) + g(x)) == Sum(xs, f) + Sum(xs, g)
  {
    if xs != [] {
      SumOfSums(xs[..|xs| - 1], f, g);
    }
  }

  lemma {:induction false} SumOfZeros(xs: seq<string>, f: string -> real)
    requires forall x :: x in xs ==> f(x) == 0.0
    ensures Sum(xs, f) == 0.0
  {
    if xs != [] {
      SumOfZeros(xs[..|xs| - 1], f);
    }
  }

  lemma {:induction false} SumOfConcat(xs: seq<string>, ys: seq<string>, f: string -> real)
    ensures Sum(xs + ys, f) == Sum(xs, f) + Sum(ys, f)
  {
    if ys == [] {
      assert xs + ys == xs;
    } else {
      SumOfConcat(xs, ys[..|ys| - 1], f);
      assert (xs + ys)[..|xs + ys| - 1] == xs + ys[..|ys| - 1];
    }
  }

  /** Rows first or columns first. */
  lemma {:induction false} SumsExchange(views: seq<string>, markets: seq<string>, size: Sizes)
    ensures Sum(views, v => Sum(markets, m => size(m, v))) == Sum(markets, m => Sum(views, v => size(m, v)))
  {
    if markets == [] {
      SumOfZeros(views, v => Sum(markets, m => size(m, v)));
    } else {
      var front, last := markets[..|markets| - 1], markets[|markets| - 1];
      var f, g := v => Sum(front, m => size(m, v)), v => size(last, v);
      SumsExchange(views, front, size);
      SumOfSame(views, v => Sum(markets, m => size(m, v)), v => f(v) + g(v));
      SumOfSums(views, f, g);
      SumOfSame(views, f, v => Sum(front, m => size(m, v)));
      SumOfSame(views, g, v => size(last, v));
    }
  }

  /** The sum of a region is the sum of its markets' sums. */
  lemma RegionSumsItsMarkets(cat: Catalogue, views: seq<string>, size: Sizes, region: string)
    ensures ValueOf(cat, views, size, (OneRegion(region), SumAll))
            == Sum(MarketsOf(cat, region), m => ValueOf(cat, views, size, (OneMarket(m), SumAll)))
  {
    var markets := MarketsOf(cat, region);
    SumOfSame(views, v => ViewTotal(MarketsOf(cat, region), size, v), v => Sum(markets, m => size(m, v)));
    SumsExchange(views, markets, size);
    SumOfSame(MarketsOf(cat, region), m => Sum(views, v => size(m, v)),
              m => ValueOf(cat, views, size, (OneMarket(m), SumAll)));
  }

  function MarketSum(cat: Catalogue, views: seq<string>, size: Sizes): string -> real {
    m => ValueOf(cat, views, size, (OneMarket(m), SumAll))
  }

  function RegionSum(cat: Catalogue, views: seq<string>, size: Sizes): string -> real {
    r => ValueOf(cat, views, size, (OneRegion(r), SumAll))
  }

  /** One region more: its total is the sum of its markets' sums. */
  lemma OneRegionMore(cat: Catalogue, r: Region, views: seq<string>, size: Sizes)
    requires MarketsOf(cat, r.name) == r.markets
    ensures Sum(r.markets, MarketSum(cat, views, size)) == RegionSum(cat, views, size)(r.name)
  {
    RegionSumsItsMarkets(cat, views, size, r.name);
    SumOfSame(r.markets, MarketSum(cat, views, size), m => ValueOf(cat, views, size, (OneMarket(m), SumAll)));
  }

  /** One region more on both sides of the total. */
  lemma TotalOfOneMore(markets: seq<string>, more: seq<string>, names: seq<string>, name: string,
                       f: string -> real, g: string -> real)
    requires Sum(markets, f) == Sum(names, g) && Sum(more, f) == g(name)
    ensures Sum(markets + more, f) == Sum(names + [name], g)
  {
    SumOfConcat(markets, more, f);
    assert (names + [name])[..|names|] == names;
  }

  lemma PrefixOfOneMore(cat: Catalogue, n: nat)
    requires 0 < n <= |cat|
    ensures Markets(cat[..n]) == Markets(cat[..n - 1]) + cat[n - 1].markets
    ensures Regions(cat)[1..n + 1] == Regions(cat)[1..n] + [cat[n - 1].name]
  {
    TakeOneMore(cat, n - 1);
  }

  lemma {:induction false} TotalsOfPrefix(cat: Catalogue, n: nat, f: string -> real, g: string -> real)
    requires n <= |cat|
    requires forall i :: 0 <= i < |cat| ==> Sum(cat[i].markets, f) == g(cat[i].name)
    ensures Sum(Markets(cat[..n]), f) == Sum(Regions(cat)[1..n + 1], g)
  {
    if n > 0 {
      TotalsOfPrefix(cat, n - 1, f, g);
      PrefixOfOneMore(cat, n);
      TotalOfOneMore(Markets(cat[..n - 1]), cat[n - 1].markets, Regions(cat)[1..n], cat[n - 1].name, f, g);
    }
  }

  lemma {:induction false} LookupFinds(cat: Catalogue, i: nat)
    requires WellFormed(cat) && i < |cat|
    ensures MarketsOf(cat, cat[i].name) == cat[i].markets
  {
    if i < |cat| - 1 {
      LookupFinds(cat[..|cat| - 1], i);
    }
  }

  /** The total over everything is the sum of the region totals. */
  lemma AllIsTheSumOfTheRegions(cat: Catalogue, views: seq<string>, size: Sizes)
    requires WellFormed(cat)
    ensures ValueOf(cat, views, size, (OneRegion(ALL), SumAll)) == Sum(Regions(cat)[1..], RegionSum(cat, views, size))
  {
    RegionSumsItsMarkets(cat, views, size, ALL);
    SumOfSame(Markets(cat), m => ValueOf(cat, views, size, (OneMarket(m), SumAll)), MarketSum(cat, views, size));
    forall i | 0 <= i < |cat|
      ensures Sum(cat[i].markets, MarketSum(cat, views, size)) == RegionSum(cat, views, size)(cat[i].name)
    {
      LookupFinds(cat, i);
      OneRegionMore(cat, cat[i], views, size);
    }
    TotalsOfPrefix(cat, |cat|, MarketSum(cat, views, size), RegionSum(cat, views, size));
    assert cat[..|cat|] == cat;
    assert Regions(cat)[1..|cat| + 1] == Regions(cat)[1..];
  }
}
