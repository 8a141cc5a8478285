/** The titles of the tick-data history by column number (cronjobs/hstrmon/TickHist.py). */
module TitleColumns {
  import opened TickHistory

  /** The j-th column of a locale. */
  function ColumnOf(l: Locale, views: seq<string>, j: nat): Title
    requires j <= |views|
  {
    if j < |views| then (l, Simple(views[j])) else (l, SumAll)
  }

  lemma {:induction false} ColumnsOf(l: Locale, views: seq<string>)
    ensures |TitlesOf(l, views)| == |views| + 1
    ensures forall j :: 0 <= j <= |views| ==> TitlesOf(l, views)[j] == ColumnOf(l, views, j)
  {
    if views != [] {
      ColumnsOf(l, views[..|views| - 1]);
      var front := views[..|views| - 1];
      assert SimpleTitles(l, front) == TitlesOf(l, front)[..|front|];
      forall j | 0 <= j < |front|
        ensures SimpleTitles(l, views)[j] == (l, Simple(views[j]))
      {
        assert SimpleTitles(l, views)[j] == SimpleTitles(l, front)[j] == TitlesOf(l, front)[j];
      }
    }
  }

  lemma BlockIndex(n: int, width: int, i: int, j: int)
    requires 0 <= i < n && 0 <= j < width
    ensures 0 <= i * width + j < n * width
    ensures i < n - 1 ==> i * width + j < (n - 1) * width
    ensures n * width == (n - 1) * width + width
  {
    assert (i + 1) * width <= n * width;
    if i < n - 1 {
      assert (i + 1) * width <= (n - 1) * width;
    }
  }

  /** The titles of the markets, block by block. */
  lemma {:induction false} MarketTitlesAt(markets: seq<string>, views: seq<string>, i: nat, j: nat)
    requires i < |markets| && j <= |views|
    ensures |MarketTitles(markets, views)| == |markets| * (|views| + 1)
    ensures i * (|views| + 1) + j < |MarketTitles(markets, views)|
    ensures MarketTitles(markets, views)[i * (|views| + 1) + j] == ColumnOf(OneMarket(markets[i]), views, j)
  {
    var n, front := |markets|, markets[..|markets| - 1];
    ColumnsOf(OneMarket(markets[n - 1]), views);
    BlockIndex(n, |views| + 1, i, j);
    if i < n - 1 {
      MarketTitlesAt(front, views, i, j);
    } else if n > 1 {
      MarketTitlesAt(front, views, 0, 0);
    }
  }

  lemma {:induction false} RegionTitlesAt(regions: seq<string>, views: seq<string>, i: nat, j: nat)
    requires i < |regions| && j <= |views|
    ensures |RegionTitles(regions, views)| == |regions| * (|views| + 1)
    ensures i * (|views| + 1) + j < |RegionTitles(regions, views)|
    ensures RegionTitles(regions, views)[i * (|views| + 1) + j] == ColumnOf(OneRegion(regions[i]), views, j)
  {
    var n, front := |regions|, regions[..|regions| - 1];
    ColumnsOf(OneRegion(regions[n - 1]), views);
    BlockIndex(n, |views| + 1, i, j);
    if i < n - 1 {
      RegionTitlesAt(front, views, i, j);
    } else if n > 1 {
      RegionTitlesAt(front, views, 0, 0);
    }
  }

  lemma ConcatAt<T>(a: seq<T>, b: seq<T>, k: nat)
    ensures k < |a| ==> (a + b)[k] == a[k]
    ensures k < |b| ==> (a + b)[|a| + k] == b[k]
  {
  }

  /** All columns: the markets come first, each with its views in order and then the sum. */
  lemma MarketColumn(cat: Catalogue, views: seq<string>, i: nat, j: nat, k: nat)
    requires i < |Markets(cat)| && j <= |views| && k == i * (|views| + 1) + j
    ensures k < |AllTitles(cat, views)| && AllTitles(cat, views)[k] == ColumnOf(OneMarket(Markets(cat)[i]), views, j)
  {
    MarketTitlesAt(Markets(cat), views, i, j);
    ConcatAt(MarketTitles(Markets(cat), views), RegionTitles(Regions(cat), views), k);
  }

  lemma TitlesLength(cat: Catalogue, views: seq<string>)
    ensures |MarketTitles(Markets(cat), views)| == |Markets(cat)| * (|views| + 1)
    ensures |AllTitles(cat, views)| == |Markets(cat)| * (|views| + 1) + (|cat| + 1) * (|views| + 1)
  {
    if Markets(cat) != [] {
      MarketTitlesAt(Markets(cat), views, 0, 0);
    }
    RegionTitlesAt(Regions(cat), views, 0, 0);
  }

  /** The regions follow likewise, "ALL" first, and nothing comes after them. */
  lemma RegionColumn(cat: Catalogue, views: seq<string>, r: nat, j: nat, k: nat)
    requires r <= |cat| && j <= |views| && k == r * (|views| + 1) + j
    ensures var before := |MarketTitles(Markets(cat), views)|;
            && before + k < |AllTitles(cat, views)|
            && AllTitles(cat, views)[before + k] == ColumnOf(OneRegion(if r == 0 then ALL else cat[r - 1].name), views, j)
  {
    RegionTitlesAt(Regions(cat), views, r, j);
    ConcatAt(MarketTitles(Markets(cat), views), RegionTitles(Regions(cat), views), k);
  }
}
