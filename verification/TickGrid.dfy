/** The tick interval and the bin grid derived from the resting prices
    (guis/orderBookSim/OrderBookSim.h, get_draw_param and the fill loops of draw_book). */
module TickGrid {
  import opened IntSets

  function Pow10(k: nat): (r: nat)
    ensures r >= 1
  {
    if k == 0 then 1 else 10 * Pow10(k - 1)
  }

  predicate AllMultiples(prices: set<int>, d: int)
    requires d > 0
  {
    forall p :: p in prices ==> p % d == 0
  }

  /** The scan met a price that the next power of ten does not divide and stepped back. */
  ghost predicate StoppedAt(prices: set<int>, k: nat)
    requires prices != {}
  {
    && AllMultiples(prices, Pow10(k))
    && !AllMultiples(prices, Pow10(k + 1))
    && Pow10(k + 1) < MaxOf(prices)
  }

  /** The scan ran past the greatest price without meeting such a price. */
  ghost predicate RanOut(prices: set<int>, k: nat)
    requires prices != {}
  {
    && MaxOf(prices) <= Pow10(k)
    && (k > 0 ==> Pow10(k - 1) < MaxOf(prices) && AllMultiples(prices, Pow10(k - 1)))
  }

  /** The scan ends at 10^k. */
  ghost predicate EndsAt(prices: set<int>, k: nat)
    requires prices != {}
  {
    StoppedAt(prices, k) || RanOut(prices, k)
  }

  ghost predicate IsTickInterval(prices: set<int>, interval: int)
    requires prices != {}
  {
    exists k: nat :: interval == Pow10(k) && EndsAt(prices, k)
  }

  // ---------------------------------------------------------- powers of ten

  lemma {:induction false} PowersGrow(j: nat, k: nat)
    requires j <= k
    ensures Pow10(j) <= Pow10(k)
    ensures j < k ==> Pow10(j) < Pow10(k)
    decreases k
  {
    if j < k {
      PowersGrow(j, k - 1);
    }
  }

  lemma MultipleOfTenfold(p: int, d: int)
    requires d > 0 && p % (10 * d) == 0
    ensures p % d == 0
  {
    var q := p / (10 * d);
    assert p == (10 * d) * q == d * (10 * q);
    DivisionIsUnique(p, d, 10 * q, 0);
  }

  lemma MultipleIsFar(d: int, c: int)
    requires d > 0
    ensures c >= 1 ==> d * c >= d
    ensures c <= -1 ==> d * c <= -d
  {
  }

  /** Quotient and remainder are the only decomposition of their kind. */
  lemma DivisionIsUnique(a: int, d: int, q: int, r: int)
    requires d > 0 && a == d * q + r && 0 <= r < d
    ensures a / d == q && a % d == r
  {
    assert a == d * (a / d) + a % d;
    assert d * (q - a / d) == a % d - r;
    MultipleIsFar(d, q - a / d);
  }

  lemma {:induction false} SmallerPowersDivide(prices: set<int>, j: nat, k: nat)
    requires j <= k && AllMultiples(prices, Pow10(k))
    ensures AllMultiples(prices, Pow10(j))
    decreases k
  {
    if j < k {
      forall p | p in prices
        ensures p % Pow10(k - 1) == 0
      {
        MultipleOfTenfold(p, Pow10(k - 1));
      }
      SmallerPowersDivide(prices, j, k - 1);
    }
  }

  // --------------------------------------------------- what the scan returns

  /** The two exits determine the interval. */
  lemma ScanEndsOnce(prices: set<int>, j: nat, k: nat)
    requires prices != {} && EndsAt(prices, j) && EndsAt(prices, k)
    ensures j == k
  {
    if j < k {
      NotBefore(prices, j, k);
    } else if k < j {
      NotBefore(prices, k, j);
    }
  }

  lemma NotBefore(prices: set<int>, j: nat, k: nat)
    requires prices != {} && j < k
    requires EndsAt(prices, k)
    ensures !EndsAt(prices, j)
  {
    PowersGrow(j, k - 1);
    PowersGrow(j, k + 1);
    if StoppedAt(prices, k) {
      SmallerPowersDivide(prices, j + 1, k);
    } else if j + 1 <= k - 1 {
      SmallerPowersDivide(prices, j + 1, k - 1);
    } else {
      assert j + 1 == k;
    }
  }

  /** A scan stopped by a price returns the largest power of ten dividing every price. */
  lemma StoppedIsLargestDivisor(prices: set<int>, k: nat, j: nat)
    requires prices != {} && StoppedAt(prices, k)
    ensures AllMultiples(prices, Pow10(j)) <==> j <= k
  {
    if j <= k {
      SmallerPowersDivide(prices, j, k);
    } else if AllMultiples(prices, Pow10(j)) {
      SmallerPowersDivide(prices, k + 1, j);
    }
  }

  /** A scan that ran out leaves every smaller power of ten a divisor of every price. */
  lemma RanOutDivisors(prices: set<int>, k: nat, j: nat)
    requires prices != {} && RanOut(prices, k) && j < k
    ensures AllMultiples(prices, Pow10(j))
  {
    SmallerPowersDivide(prices, j, k - 1);
  }

  /** The order of magnitude the scan cannot pass: the least k with maxPrice <= 10^k. */
  ghost predicate IsCeiling(maxPrice: int, k: nat) {
    maxPrice <= Pow10(k) && (k > 0 ==> Pow10(k - 1) < maxPrice)
  }

  /** Exactly when the returned interval divides every price: unless all prices are multiples of the
      power of ten just below the greatest price and not all of the one just above. */
  lemma IntervalDividesIff(prices: set<int>, j: nat, k: nat)
    requires prices != {} && EndsAt(prices, j) && IsCeiling(MaxOf(prices), k)
    ensures AllMultiples(prices, Pow10(j))
            <==> k == 0 || !AllMultiples(prices, Pow10(k - 1)) || AllMultiples(prices, Pow10(k))
  {
    if RanOut(prices, j) {
      SameCeiling(MaxOf(prices), j, k);
      if k == 0 {
        assert Pow10(0) == 1;
      }
    } else if k > 0 {
      if AllMultiples(prices, Pow10(k - 1)) {
        StoppedIsLargestDivisor(prices, j, k - 1);
        if j >= k {
          PowersGrow(k, j + 1);
        }
      }
    }
  }

  lemma SameCeiling(maxPrice: int, j: nat, k: nat)
    requires IsCeiling(maxPrice, j) && IsCeiling(maxPrice, k)
    ensures j == k
  {
    if j < k {
      PowersGrow(j, k - 1);
    } else if k < j {
      PowersGrow(k, j - 1);
    }
  }

  const TEN_TO_NINE := 1_000_000_000
  const INT32_MAX := 0x7fff_ffff

  lemma NinthPower()
    ensures Pow10(8) == 100_000_000 && Pow10(9) == TEN_TO_NINE && Pow10(10) == 10 * TEN_TO_NINE
  {
    assert Pow10(4) == 10_000;
    assert Pow10(8) == 100_000_000;
  }

  /** For 32-bit prices the scan overflows exactly when every price is a multiple of 10^9 and some
      price is greater than 10^9; below that the interval is at most 10^9. */
  lemma IntervalFitsIff(prices: set<int>, k: nat)
    requires prices != {} && EndsAt(prices, k) && MaxOf(prices) <= INT32_MAX
    ensures Pow10(k) > INT32_MAX
            <==> MaxOf(prices) > TEN_TO_NINE && AllMultiples(prices, TEN_TO_NINE)
    ensures MaxOf(prices) <= TEN_TO_NINE ==> Pow10(k) <= TEN_TO_NINE
  {
    NinthPower();
    if k >= 10 {
      PowersGrow(9, k - 1);
      PowersGrow(10, k);
      PowersGrow(k, k + 1);
      if RanOut(prices, k) {
        SmallerPowersDivide(prices, 9, k - 1);
      }
    } else {
      PowersGrow(k, 9);
      if MaxOf(prices) > TEN_TO_NINE && AllMultiples(prices, TEN_TO_NINE) {
        if StoppedAt(prices, k) {
          if k < 9 {
            SmallerPowersDivide(prices, k + 1, 9);
          }
        }
      }
    }
  }

  // ---------------------------------------------------------------- the grid

  datatype Grid = Grid(low: int, high: int, nbins: int)

  /** Two intervals below the lowest price and three above the highest. */
  function MakeGrid(xlow: int, xhigh: int, interval: int): Grid
    requires interval > 0
  {
    var low, high := xlow - interval * 2, xhigh + interval * 3;
    Grid(low, high, (high - low) / interval)
  }

  /** The bin a uniform axis assigns to a value, counted from one. */
  function BinOf(g: Grid, p: int): int
    requires g.low < g.high
  {
    1 + g.nbins * (p - g.low) / (g.high - g.low)
  }

  lemma MultiplesDiffer(a: int, b: int, d: int) returns (q: int)
    requires d > 0 && a % d == 0 && b % d == 0
    ensures a - b == d * q
  {
    q := a / d - b / d;
    assert a == d * (a / d) && b == d * (b / d);
  }

  /** The bins tile the drawn range without remainder exactly when the interval divides the price span. */
  lemma GridIsExactIff(xlow: int, xhigh: int, interval: int)
    requires interval > 0 && xlow <= xhigh
    ensures var g := MakeGrid(xlow, xhigh, interval);
            && g.low < g.high
            && g.nbins == (xhigh - xlow) / interval + 5
            && (g.nbins * interval == g.high - g.low <==> (xhigh - xlow) % interval == 0)
  {
    var q, r := (xhigh - xlow) / interval, (xhigh - xlow) % interval;
    var g := MakeGrid(xlow, xhigh, interval);
    assert g.high - g.low == interval * (q + 5) + r by {
      assert interval * (q + 5) == interval * q + interval * 5;
    }
    DivisionIsUnique(g.high - g.low, interval, q + 5, r);
  }

  /** On an exact grid a price on the tick lands in the bin that starts at it, two bins or more inside. */
  lemma BinOnTick(xlow: int, xhigh: int, interval: int, p: int)
    requires interval > 0 && xlow <= p <= xhigh
    requires (xhigh - xlow) % interval == 0 && (p - xlow) % interval == 0
    ensures var g := MakeGrid(xlow, xhigh, interval);
            && g.low < g.high
            && g.low + (BinOf(g, p) - 1) * interval == p
            && 3 <= BinOf(g, p) <= g.nbins - 2
  {
    var g := MakeGrid(xlow, xhigh, interval);
    GridIsExactIff(xlow, xhigh, interval);
    var q, n := (p - xlow) / interval, (xhigh - xlow) / interval;
    BinAfter(g, interval, q + 2, p);
    MultipleIsFar(interval, q);
    assert interval * (n - q) == xhigh - p;
    MultipleIsFar(interval, n - q);
  }

  lemma BinAfter(g: Grid, interval: int, q: int, p: int)
    requires g.low < g.high && g.nbins * interval == g.high - g.low && p - g.low == interval * q
    ensures BinOf(g, p) == 1 + q
  {
    assert g.nbins * (p - g.low) == g.nbins * (interval * q) == (g.nbins * interval) * q;
    DivisionIsUnique(g.nbins * (p - g.low), g.high - g.low, q, 0);
  }

  /** Prices that are all on the tick: exact tiling, distinct bins, all between bin 3 and nbins - 2. */
  lemma PricesGetTheirOwnBins(prices: set<int>, interval: int, a: int, b: int)
    requires prices != {} && interval > 0 && AllMultiples(prices, interval) && a in prices && b in prices
    ensures var g := MakeGrid(MinOf(prices), MaxOf(prices), interval);
            && g.low < g.high
            && g.nbins * interval == g.high - g.low
            && 3 <= BinOf(g, a) <= g.nbins - 2
            && (BinOf(g, a) == BinOf(g, b) <==> a == b)
  {
    var xlow, xhigh := MinOf(prices), MaxOf(prices);
    var s := MultiplesDiffer(xhigh, xlow, interval);
    DivisionIsUnique(xhigh - xlow, interval, s, 0);
    GridIsExactIff(xlow, xhigh, interval);
    var qa := MultiplesDiffer(a, xlow, interval);
    DivisionIsUnique(a - xlow, interval, qa, 0);
    BinOnTick(xlow, xhigh, interval, a);
    var qb := MultiplesDiffer(b, xlow, interval);
    DivisionIsUnique(b - xlow, interval, qb, 0);
    BinOnTick(xlow, xhigh, interval, b);
  }

  // ------------------------------------------------------- prices off the tick

  /** Positive prices that the interval does not all divide lie less than one interval apart. */
  lemma OffTickIsClose(prices: set<int>, k: nat)
    requires prices != {} && EndsAt(prices, k) && MinOf(prices) > 0
    ensures AllMultiples(prices, Pow10(k)) || MaxOf(prices) - MinOf(prices) < Pow10(k)
  {
  }

  /** Less than one interval apart there are five bins, and the price span decides between bin 2 and 3. */
  lemma CloseBins(xlow: int, xhigh: int, interval: int, p: int)
    requires xlow <= p <= xhigh && 0 < xhigh - xlow < interval
    ensures var g := MakeGrid(xlow, xhigh, interval);
            && g.low < g.high && g.nbins == 5 && g.nbins * interval != g.high - g.low
            && 2 <= BinOf(g, p) <= 3
            && (p == xlow ==> BinOf(g, p) == 2) && (p == xhigh ==> BinOf(g, p) == 3)
  {
    var g := MakeGrid(xlow, xhigh, interval);
    GridIsExactIff(xlow, xhigh, interval);
    DivisionIsUnique(xhigh - xlow, interval, 0, xhigh - xlow);
    var n, d := 5 * (p - g.low), g.high - g.low;
    if n < 2 * d {
      DivisionIsUnique(n, d, 1, n - d);
    } else {
      DivisionIsUnique(n, d, 2, n - 2 * d);
    }
  }

  ghost predicate DistinctBins(prices: set<int>, g: Grid)
    requires g.low < g.high
  {
    forall a, b :: a in prices && b in prices && BinOf(g, a) == BinOf(g, b) ==> a == b
  }

  ghost predicate InnerBins(prices: set<int>, g: Grid)
    requires g.low < g.high
  {
    forall a :: a in prices ==> 3 <= BinOf(g, a) <= g.nbins - 2
  }

  /** The grid drawn for a set of prices when the scan ends at 10^k. */
  ghost function GridFor(prices: set<int>, k: nat): (g: Grid)
    requires prices != {}
    ensures g.low < g.high
  {
    GridIsExactIff(MinOf(prices), MaxOf(prices), Pow10(k));
    MakeGrid(MinOf(prices), MaxOf(prices), Pow10(k))
  }

  lemma OnTickBins(prices: set<int>, k: nat)
    requires prices != {} && AllMultiples(prices, Pow10(k))
    ensures var g := GridFor(prices, k);
            DistinctBins(prices, g) && InnerBins(prices, g) && g.nbins * Pow10(k) == g.high - g.low
  {
    forall a, b | a in prices && b in prices
      ensures var g := GridFor(prices, k);
              3 <= BinOf(g, a) <= g.nbins - 2 && (BinOf(g, a) == BinOf(g, b) ==> a == b)
              && g.nbins * Pow10(k) == g.high - g.low
    {
      PricesGetTheirOwnBins(prices, Pow10(k), a, b);
    }
    assert MinOf(prices) in prices;
  }

  lemma SinglePriceBins(prices: set<int>, k: nat)
    requires prices != {} && MinOf(prices) == MaxOf(prices)
    ensures var g := GridFor(prices, k);
            DistinctBins(prices, g) && InnerBins(prices, g) && g.nbins * Pow10(k) == g.high - g.low
  {
    var x := MinOf(prices);
    GridIsExactIff(x, x, Pow10(k));
    BinOnTick(x, x, Pow10(k), x);
    assert forall a :: a in prices ==> a == x;
  }

  lemma ClosePricesBins(prices: set<int>, k: nat)
    requires prices != {} && 0 < MaxOf(prices) - MinOf(prices) < Pow10(k)
    ensures var g := GridFor(prices, k);
            && (DistinctBins(prices, g) <==> prices == {MinOf(prices), MaxOf(prices)})
            && !InnerBins(prices, g) && g.nbins * Pow10(k) != g.high - g.low
  {
    var g, xlow, xhigh := GridFor(prices, k), MinOf(prices), MaxOf(prices);
    forall a | a in prices
      ensures 2 <= BinOf(g, a) <= 3 && (a == xlow ==> BinOf(g, a) == 2) && (a == xhigh ==> BinOf(g, a) == 3)
    {
      CloseBins(xlow, xhigh, Pow10(k), a);
    }
    CloseBins(xlow, xhigh, Pow10(k), xlow);
    if DistinctBins(prices, g) {
      forall a | a in prices
        ensures a == xlow || a == xhigh
      {
        assert BinOf(g, a) == BinOf(g, xlow) || BinOf(g, a) == BinOf(g, xhigh);
      }
    }
  }

  /** Distinct positive prices land in distinct bins exactly when the interval divides them all or there
      are at most two of them. */
  lemma DistinctBinsIff(prices: set<int>, k: nat)
    requires prices != {} && EndsAt(prices, k) && MinOf(prices) > 0
    ensures DistinctBins(prices, GridFor(prices, k))
            <==> AllMultiples(prices, Pow10(k)) || prices == {MinOf(prices), MaxOf(prices)}
  {
    OffTickIsClose(prices, k);
    if AllMultiples(prices, Pow10(k)) {
      OnTickBins(prices, k);
    } else if MinOf(prices) == MaxOf(prices) {
      SinglePriceBins(prices, k);
      assert prices == {MinOf(prices), MaxOf(prices)};
    } else {
      ClosePricesBins(prices, k);
    }
  }

  /** The bins tile the drawn range, with every positive price in bin 3 to nbins - 2, exactly when the
      interval divides all prices or there is only one; each half alone has the same condition. */
  lemma InnerBinsIff(prices: set<int>, k: nat)
    requires prices != {} && EndsAt(prices, k) && MinOf(prices) > 0
    ensures var (g, onTick) := (GridFor(prices, k), AllMultiples(prices, Pow10(k)) || MinOf(prices) == MaxOf(prices));
            (InnerBins(prices, g) <==> onTick) && (g.nbins * Pow10(k) == g.high - g.low <==> onTick)
  {
    OffTickIsClose(prices, k);
    if AllMultiples(prices, Pow10(k)) {
      OnTickBins(prices, k);
    } else if MinOf(prices) == MaxOf(prices) {
      SinglePriceBins(prices, k);
    } else {
      ClosePricesBins(prices, k);
    }
  }

  /** A single price of 500 runs the scan out at 1000. */
  lemma OnePriceCanBeOffTick()
    ensures IsTickInterval({500}, 1000) && !AllMultiples({500}, 1000)
  {
    assert Pow10(2) == 100 && Pow10(3) == 1000;
    MaxIs({500}, 500);
    assert RanOut({500}, 3) && EndsAt({500}, 3);
  }

  /** Off the tick the bins collide: 700, 800 and 900 run the scan out at 1000, which divides none of
      them, and two of the three prices share a bin. */
  lemma OffTickPricesCollide()
    ensures var prices := {700, 800, 900};
            && IsTickInterval(prices, 1000)
            && var g := MakeGrid(700, 900, 1000);
               BinOf(g, 800) == BinOf(g, 900) && g.nbins * 1000 != g.high - g.low
  {
    var prices := {700, 800, 900};
    assert Pow10(2) == 100 && Pow10(3) == 1000;
    MaxIs(prices, 900);
    assert RanOut(prices, 3) && EndsAt(prices, 3);
  }
}
