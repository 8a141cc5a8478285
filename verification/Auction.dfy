/** The auction price of a crossed book: a scan over all prices that stops early
    (source/src/jl_lib/Book.cpp, get_auction). */
module Auction {
  import opened IntSets
  import opened OrderBook
  import opened BookUpdate

  // ------------------------------------------------- supply and demand in general

  /** Volume sold and volume bought at each price. */
  datatype Curves = Curves(sell: int -> int, buy: int -> int)

  /** The higher the price, the more is sold and the less is bought. */
  ghost predicate Economic(c: Curves) {
    && (forall p, q :: p <= q ==> 0 <= c.sell(p) <= c.sell(q))
    && (forall p, q :: p <= q ==> c.buy(p) >= c.buy(q) >= 0)
  }

  function Min(x: int, y: int): int { if x <= y then x else y }

  function Max(x: int, y: int): int { if x >= y then x else y }

  function Tradable(c: Curves, q: int): int {
    Min(c.sell(q), c.buy(q))
  }

  function Surplus(c: Curves, q: int): int {
    Max(c.sell(q), c.buy(q)) - Tradable(c, q)
  }

  /** Price q trades less than price p, or as much with a greater surplus. */
  ghost predicate Worse(c: Curves, q: int, p: int) {
    Tradable(c, q) < Tradable(c, p) || (Tradable(c, q) == Tradable(c, p) && Surplus(c, q) > Surplus(c, p))
  }

  /** The auction outcome over a set of prices: the most volume, then the least surplus, then the
      lowest price; with nothing to trade, price zero. */
  ghost predicate BestAmong(c: Curves, prices: set<int>, price: int, size: int) {
    if size == 0 then price == 0 && forall q :: q in prices ==> Tradable(c, q) == 0
    else
      && price in prices && Tradable(c, price) == size
      && forall q :: q in prices ==>
           Worse(c, q, price) || (Tradable(c, q) == size && Surplus(c, q) == Surplus(c, price) && price <= q)
  }

  /** Past the best price things only get worse, which is what lets the scan stop early. */
  lemma OnceWorseAlwaysWorse(c: Curves, best: int, p: int, q: int)
    requires Economic(c) && best <= p <= q && Worse(c, p, best)
    ensures Worse(c, q, best)
  {
    assert c.sell(best) <= c.sell(p) <= c.sell(q);
    assert c.buy(best) >= c.buy(p) >= c.buy(q);
  }

  /** What the scan knows after the prices in `done`. */
  ghost predicate Scanned(c: Curves, done: set<int>, price: int, size: int, surplus: int) {
    && BestAmong(c, done, price, size) && size >= 0
    && surplus == if size == 0 then 0 else Surplus(c, price)
  }

  lemma ScanOne(c: Curves, done: set<int>, price: int, size: int, surplus: int, p: int)
    requires Economic(c) && Scanned(c, done, price, size, surplus)
    requires forall q :: q in done ==> q < p
    ensures var (t, s) := (Tradable(c, p), Surplus(c, p));
            if t > size || (t == size && s < surplus) then Scanned(c, done + {p}, p, t, s)
            else if t < size || (t != 0 && t == size && s > surplus) then size != 0 && Worse(c, p, price) && price < p
            else Scanned(c, done + {p}, price, size, surplus)
  {
    assert c.sell(p) >= 0 && c.buy(p) >= 0;
  }

  lemma RestIsWorse(c: Curves, done: set<int>, price: int, size: int, todo: set<int>, p: int)
    requires Economic(c) && BestAmong(c, done, price, size) && size != 0
    requires price < p && Worse(c, p, price) && forall q :: q in todo ==> p <= q
    ensures BestAmong(c, done + todo, price, size)
  {
    forall q | q in todo
      ensures Worse(c, q, price)
    {
      OnceWorseAlwaysWorse(c, price, p, q);
    }
  }

  datatype Outcome = Outcome(price: int, size: int, surplus: int)

  const NOTHING := Outcome(0, 0, 0)

  /** The scan from the lowest price up: it stops at the first price that is worse than the best so far. */
  function Scan(c: Curves, todo: set<int>, best: Outcome): Outcome {
    if todo == {} then best
    else
      var p := MinOf(todo);
      var (t, s) := (Tradable(c, p), Surplus(c, p));
      if t > best.size || (t == best.size && s < best.surplus) then Scan(c, todo - {p}, Outcome(p, t, s))
      else if t < best.size || (t != 0 && t == best.size && s > best.surplus) then best
      else Scan(c, todo - {p}, best)
  }

  /** Although it does not look at all prices, the scan of economic curves finds the best of them. */
  lemma {:induction false} ScanFindsBest(c: Curves, done: set<int>, todo: set<int>, best: Outcome)
    requires Economic(c) && Scanned(c, done, best.price, best.size, best.surplus)
    requires forall p, q :: p in done && q in todo ==> p < q
    ensures var r := Scan(c, todo, best);
            BestAmong(c, done + todo, r.price, r.size) && r.size >= 0
    decreases todo
  {
    if todo == {} {
      assert done + todo == done;
    } else {
      var p := MinOf(todo);
      var (t, s) := (Tradable(c, p), Surplus(c, p));
      ScanOne(c, done, best.price, best.size, best.surplus, p);
      assert done + {p} + (todo - {p}) == done + todo;
      if t > best.size || (t == best.size && s < best.surplus) {
        ScanFindsBest(c, done + {p}, todo - {p}, Outcome(p, t, s));
      } else if t < best.size || (t != 0 && t == best.size && s > best.surplus) {
        RestIsWorse(c, done, best.price, best.size, todo, p);
      } else {
        ScanFindsBest(c, done + {p}, todo - {p}, best);
      }
    }
  }

  /** Two pairs of curves quote alike at a price: the same trades and, where something trades, the same
      surplus. */
  ghost predicate QuoteAlike(c: Curves, w: Curves, p: int) {
    && Tradable(w, p) == Tradable(c, p) >= 0
    && (Tradable(c, p) > 0 ==> Surplus(w, p) == Surplus(c, p))
  }

  /** The scan depends on the quotes at its prices alone, and on the surplus only where something trades. */
  lemma {:induction false} SameTradesSameScan(c: Curves, w: Curves, todo: set<int>, best: Outcome)
    requires forall p :: p in todo ==> QuoteAlike(c, w, p)
    requires best.size >= 0 && best.surplus >= 0 && (best.size == 0 ==> best.surplus == 0)
    ensures Scan(w, todo, best) == Scan(c, todo, best)
    decreases todo
  {
    if todo != {} {
      var p := MinOf(todo);
      assert QuoteAlike(c, w, p);
      if Tradable(c, p) > 0 {
        SameTradesSameScan(c, w, todo - {p}, Outcome(p, Tradable(c, p), Surplus(c, p)));
      }
      SameTradesSameScan(c, w, todo - {p}, best);
    }
  }

  /** A scan reports a quote it has seen, or what it started from. */
  lemma {:induction false} ScanReportsAQuote(c: Curves, todo: set<int>, best: Outcome)
    ensures var r := Scan(c, todo, best); r == best || (r.price in todo && r.size == Tradable(c, r.price))
    decreases todo
  {
    if todo != {} {
      var p := MinOf(todo);
      ScanReportsAQuote(c, todo - {p}, Outcome(p, Tradable(c, p), Surplus(c, p)));
      ScanReportsAQuote(c, todo - {p}, best);
    }
  }

  // ------------------------------------------------------------ curves of a book

  function Sum(levels: Levels, prices: set<int>): int
    requires prices <= levels.Keys
  {
    if prices == {} then 0
    else var p := MinOf(prices); levels[p] + Sum(levels, prices - {p})
  }

  lemma {:induction false} SumSplit(levels: Levels, prices: set<int>, p: int)
    requires p in prices && prices <= levels.Keys
    ensures Sum(levels, prices) == levels[p] + Sum(levels, prices - {p})
  {
    var m := MinOf(prices);
    if m != p {
      SumSplit(levels, prices - {m}, p);
      MinIs(prices - {p}, m);
      assert prices - {m} - {p} == prices - {p} - {m};
    }
  }

  lemma {:induction false} SumOfSubset(levels: Levels, some: set<int>, all: set<int>)
    requires Unsigned(levels) && some <= all <= levels.Keys
    ensures 0 <= Sum(levels, some) <= Sum(levels, all)
    decreases all
  {
    if all == {} {
      assert some == {};
    } else {
      var m := MinOf(all);
      SumOfSubset(levels, some - {m}, all - {m});
      if m in some {
        SumSplit(levels, some, m);
      } else {
        assert some - {m} == some;
      }
    }
  }

  function UpTo(prices: set<int>, q: int): set<int> {
    set p | p in prices && p <= q
  }

  function From(prices: set<int>, q: int): set<int> {
    set p | p in prices && p >= q
  }

  /** What would be sold and bought at a price. */
  function SellVolume(b: Book, q: int): int {
    Sum(b.ask, UpTo(b.ask.Keys, q))
  }

  function BuyVolume(b: Book, q: int): int {
    Sum(b.bid, From(b.bid.Keys, q))
  }

  function CurvesOf(b: Book): Curves {
    Curves(q => SellVolume(b, q), q => BuyVolume(b, q))
  }

  lemma SupplyAndDemand(b: Book, p: int, q: int)
    requires UnsignedBook(b) && p <= q
    ensures 0 <= SellVolume(b, p) <= SellVolume(b, q) <= Sum(b.ask, b.ask.Keys)
    ensures Sum(b.bid, b.bid.Keys) >= BuyVolume(b, p) >= BuyVolume(b, q) >= 0
  {
    SumOfSubset(b.ask, UpTo(b.ask.Keys, p), UpTo(b.ask.Keys, q));
    SumOfSubset(b.ask, UpTo(b.ask.Keys, q), b.ask.Keys);
    SumOfSubset(b.bid, From(b.bid.Keys, q), From(b.bid.Keys, p));
    SumOfSubset(b.bid, From(b.bid.Keys, p), b.bid.Keys);
  }

  ghost predicate PairIsEconomic(c: Curves, p: int, q: int) {
    0 <= c.sell(p) <= c.sell(q) && c.buy(p) >= c.buy(q) >= 0
  }

  lemma EconomicByPairs(c: Curves)
    requires forall p, q :: p <= q ==> PairIsEconomic(c, p, q)
    ensures Economic(c)
  {
    forall p, q | p <= q
      ensures 0 <= c.sell(p) <= c.sell(q) && c.buy(p) >= c.buy(q) >= 0
    {
      assert PairIsEconomic(c, p, q);
    }
  }

  lemma BooksAreEconomic(b: Book)
    requires UnsignedBook(b)
    ensures Economic(CurvesOf(b))
  {
    var c := CurvesOf(b);
    forall p, q | p <= q
      ensures PairIsEconomic(c, p, q)
    {
      SupplyAndDemand(b, p, q);
    }
    EconomicByPairs(c);
  }

  /** What is sold up to the best bid and bought down to the best ask fits in 32 bits. */
  ghost predicate CrossedFits(b: Book) {
    Crossed(b) ==>
      (BestAreSets(b);
       SellVolume(b, MaxOf(b.bid.Keys)) < TWO_TO_32 && BuyVolume(b, MinOf(b.ask.Keys)) < TWO_TO_32)
  }

  function AllPrices(b: Book): set<int> {
    b.bid.Keys + b.ask.Keys
  }

  /** Between levels supply is that of the next lower ask and demand that of the next higher bid. */
  lemma SellVolumeAtLevel(b: Book, p: int, q: int)
    requires IsFloorKey(b.ask.Keys, q, p)
    ensures SellVolume(b, q) == SellVolume(b, p)
  {
    assert UpTo(b.ask.Keys, p) == UpTo(b.ask.Keys, q);
  }

  lemma BuyVolumeAtLevel(b: Book, p: int, q: int)
    requires IsCeilingKey(b.bid.Keys, q, p)
    ensures BuyVolume(b, q) == BuyVolume(b, p)
  {
    assert From(b.bid.Keys, p) == From(b.bid.Keys, q);
  }

  /** An uncrossed book trades nothing at any price. */
  lemma NothingTradesUncrossed(b: Book)
    requires UnsignedBook(b) && !Crossed(b)
    ensures forall q :: Tradable(CurvesOf(b), q) == 0
  {
    var c := CurvesOf(b);
    forall q
      ensures Tradable(c, q) == 0
    {
      OneSideIsEmpty(b, q);
      SupplyAndDemand(b, q, q);
    }
  }

  lemma OneSideIsEmpty(b: Book, q: int)
    requires !Crossed(b)
    ensures UpTo(b.ask.Keys, q) == {} || From(b.bid.Keys, q) == {}
  {
    CrossedMeans(b);
    if UpTo(b.ask.Keys, q) != {} {
      var p := MinOf(UpTo(b.ask.Keys, q));
      assert forall r :: r in From(b.bid.Keys, q) ==> r in b.bid && p <= r;
      assert (forall r :: r !in From(b.bid.Keys, q)) ==> From(b.bid.Keys, q) == {};
    }
  }

  // --------------------------------------------------------------- the algorithm

  /** Reduction to 32 bits. */
  function Wrap(x: int): int {
    x % TWO_TO_32
  }

  lemma WrapAdd(x: int, y: int)
    ensures Wrap(Wrap(x) + y) == Wrap(x + y)
  {
  }

  /** The curves of a book as 32-bit sums give them. */
  function WrappedSell(b: Book): int -> int {
    q => Wrap(SellVolume(b, q))
  }

  function WrappedBuy(b: Book): int -> int {
    q => Wrap(BuyVolume(b, q))
  }

  /** `cum` holds a curve at its prices. */
  ghost predicate Tabulates(cum: Levels, f: int -> int) {
    forall p {:trigger cum[p]} :: p in cum ==> cum[p] == f(p)
  }

  /** Running 32-bit sums from the best bid down. */
  method CumulateBids(b: Book) returns (cum: Levels)
    ensures cum.Keys == b.bid.Keys && Tabulates(cum, WrappedBuy(b))
  {
    cum := map[];
    var bidsum := 0;
    var todo := b.bid.Keys;
    ghost var done: set<int> := {};
    while todo != {}
      invariant todo <= b.bid.Keys && done == b.bid.Keys - todo && cum.Keys == done
      invariant forall p, q :: p in done && q in todo ==> q < p
      invariant bidsum == Wrap(Sum(b.bid, done))
      invariant forall p :: p in cum ==> cum[p] == Wrap(BuyVolume(b, p))
    {
      var p := MaxOf(todo);
      assert From(b.bid.Keys, p) == done + {p};
      SumSplit(b.bid, done + {p}, p);
      assert done + {p} - {p} == done;
      WrapAdd(Sum(b.bid, done), b.bid[p]);
      bidsum := Wrap(bidsum + b.bid[p]);
      cum := cum[p := bidsum];
      todo := todo - {p};
      done := done + {p};
    }
  }

  /** Running 32-bit sums from the best ask up. */
  method CumulateAsks(b: Book) returns (cum: Levels)
    ensures cum.Keys == b.ask.Keys && Tabulates(cum, WrappedSell(b))
  {
    cum := map[];
    var asksum := 0;
    var todo := b.ask.Keys;
    ghost var done: set<int> := {};
    while todo != {}
      invariant todo <= b.ask.Keys && done == b.ask.Keys - todo && cum.Keys == done
      invariant forall p, q :: p in done && q in todo ==> p < q
      invariant asksum == Wrap(Sum(b.ask, done))
      invariant forall p :: p in cum ==> cum[p] == Wrap(SellVolume(b, p))
    {
      var p := MinOf(todo);
      assert UpTo(b.ask.Keys, p) == done + {p};
      SumSplit(b.ask, done + {p}, p);
      assert done + {p} - {p} == done;
      WrapAdd(Sum(b.ask, done), b.ask[p]);
      asksum := Wrap(asksum + b.ask[p]);
      cum := cum[p := asksum];
      todo := todo - {p};
      done := done + {p};
    }
  }

  /** p is the greatest key up to q. */
  ghost predicate IsFloorKey(keys: set<int>, q: int, p: int) {
    p in keys && p <= q && forall r :: r in keys && r <= q ==> r <= p
  }

  /** p is the least key from q on. */
  ghost predicate IsCeilingKey(keys: set<int>, q: int, p: int) {
    p in keys && q <= p && forall r :: r in keys && q <= r ==> p <= r
  }

  /** `f` is constant from each key up to the next one, and zero below the first. */
  ghost predicate StepsUpAt(keys: set<int>, f: int -> int) {
    && (forall q, p {:trigger IsFloorKey(keys, q, p)} :: IsFloorKey(keys, q, p) ==> f(q) == f(p))
    && (forall q {:trigger UpTo(keys, q)} :: UpTo(keys, q) == {} ==> f(q) == 0)
  }

  /** `f` is constant from each key down to the previous one, and zero above the last. */
  ghost predicate StepsDownAt(keys: set<int>, f: int -> int) {
    && (forall q, p {:trigger IsCeilingKey(keys, q, p)} :: IsCeilingKey(keys, q, p) ==> f(q) == f(p))
    && (forall q {:trigger From(keys, q)} :: From(keys, q) == {} ==> f(q) == 0)
  }

  /** No price at all, tabulated or between the tabulated ones, trades more than the best one. */
  lemma NoPriceTradesMore(c: Curves, asks: set<int>, prices: set<int>, price: int, size: int, q: int)
    requires Economic(c) && StepsUpAt(asks, c.sell) && asks <= prices && BestAmong(c, prices, price, size)
    ensures Tradable(c, q) <= size
  {
    assert c.sell(price) >= 0 && c.buy(price) >= 0;
    if UpTo(asks, q) != {} {
      var p := MaxOf(UpTo(asks, q));
      assert forall r :: r in asks && r <= q ==> r in UpTo(asks, q);
      assert IsFloorKey(asks, q, p);
      assert c.buy(p) >= c.buy(q);
      assert p in prices && Tradable(c, p) <= size;
    }
  }

  /** The table entry at the greatest key not above the price, found by walking up. */
  method TradableAsk(cum: Levels, price: int, ghost sell: int -> int) returns (volume: int)
    requires Tabulates(cum, sell) && StepsUpAt(cum.Keys, sell)
    ensures volume == sell(price)
  {
    volume := 0;
    var todo := cum.Keys;
    ghost var found, best := false, price;
    while todo != {}
      invariant todo <= cum.Keys
      invariant !found ==> volume == 0 && todo == cum.Keys
      invariant found ==> best in cum && best <= price && volume == cum[best]
      invariant found ==> forall r :: r in cum.Keys ==> (r in todo <==> best < r)
    {
      var p := MinOf(todo);
      if p > price {
        break;
      }
      volume := cum[p];
      found, best := true, p;
      todo := todo - {p};
    }
    assert found ==> IsFloorKey(cum.Keys, price, best);
    assert !found ==> UpTo(cum.Keys, price) == {};
  }

  /** The table entry at the least key not below the price (`lower_bound`). */
  method TradableBid(cum: Levels, price: int, ghost buy: int -> int) returns (volume: int)
    requires Tabulates(cum, buy) && StepsDownAt(cum.Keys, buy)
    ensures volume == buy(price)
  {
    var above := From(cum.Keys, price);
    volume := 0;
    if above != {} {
      var p := MinOf(above);
      assert forall r :: r in cum.Keys && price <= r ==> r in above;
      assert IsCeilingKey(cum.Keys, price, p);
      volume := cum[p];
    }
  }

  /** Tradable volume and surplus at one price, from the tables. */
  method QuoteAt(p: int, cumBidvol: Levels, cumAskvol: Levels, ghost c: Curves)
    returns (tradable: int, surplus: int)
    requires Tabulates(cumBidvol, c.buy) && StepsDownAt(cumBidvol.Keys, c.buy)
    requires Tabulates(cumAskvol, c.sell) && StepsUpAt(cumAskvol.Keys, c.sell)
    ensures tradable == Tradable(c, p) && surplus == Surplus(c, p)
  {
    var ask := TradableAsk(cumAskvol, p, c.sell);
    var bid := TradableBid(cumBidvol, p, c.buy);
    tradable := Min(ask, bid);
    surplus := Max(ask, bid) - tradable;
  }

  /** The scan loop. */
  method ScanPrices(prices: set<int>, cumBidvol: Levels, cumAskvol: Levels, ghost c: Curves)
    returns (price: int, size: int)
    requires Tabulates(cumBidvol, c.buy) && StepsDownAt(cumBidvol.Keys, c.buy)
    requires Tabulates(cumAskvol, c.sell) && StepsUpAt(cumAskvol.Keys, c.sell)
    ensures var r := Scan(c, prices, NOTHING); price == r.price && size == r.size
  {
    price, size := 0, 0;
    var surplus := 0;
    var todo := prices;
    while todo != {}
      invariant Scan(c, todo, Outcome(price, size, surplus)) == Scan(c, prices, NOTHING)
    {
      var p := MinOf(todo);
      var tradable, thisSurplus := QuoteAt(p, cumBidvol, cumAskvol, c);
      if tradable > size || (tradable == size && thisSurplus < surplus) {
        price, size, surplus := p, tradable, thisSurplus;
      } else if tradable < size || (tradable != 0 && tradable == size && thisSurplus > surplus) {
        return;
      }
      todo := todo - {p};
    }
  }

  lemma BookCurvesStep(b: Book)
    ensures StepsUpAt(b.ask.Keys, WrappedSell(b)) && StepsUpAt(b.ask.Keys, CurvesOf(b).sell)
    ensures StepsDownAt(b.bid.Keys, WrappedBuy(b))
  {
    forall q, p | IsFloorKey(b.ask.Keys, q, p)
      ensures SellVolume(b, q) == SellVolume(b, p)
    {
      SellVolumeAtLevel(b, p, q);
    }
    forall q, p | IsCeilingKey(b.bid.Keys, q, p)
      ensures BuyVolume(b, q) == BuyVolume(b, p)
    {
      BuyVolumeAtLevel(b, p, q);
    }
  }

  /** The curves as 32-bit sums give them. */
  function WrappedCurves(b: Book): Curves {
    Curves(WrappedSell(b), WrappedBuy(b))
  }

  /** What get_auction works out: the best price in ticks and its volume, both 0 when the book does not
      look inverted. */
  function AuctionOf(b: Book): Outcome {
    if Inverted(b) then Scan(WrappedCurves(b), AllPrices(b), NOTHING) else NOTHING
  }

  /** The volume is handed out as a signed integer. */
  method GetAuction(b: Book) returns (price: real, size: int)
    ensures price == AuctionOf(b).price as real / 10000.0 && size == ToInt(AuctionOf(b).size)
  {
    price, size := 0.0, 0;
    if Inverted(b) {
      BookCurvesStep(b);
      var cumBidvol := CumulateBids(b);
      var cumAskvol := CumulateAsks(b);
      var ticks, volume := ScanPrices(AllPrices(b), cumBidvol, cumAskvol, WrappedCurves(b));
      price, size := ticks as real / 10000.0, ToInt(volume);
    }
  }

  // ------------------------------------------------------------- what it is worth

  lemma WrapFits(x: int)
    ensures 0 <= Wrap(x) < TWO_TO_32
    ensures 0 <= x ==> Wrap(x) <= x
    ensures 0 <= x < TWO_TO_32 ==> Wrap(x) == x
  {
  }

  lemma BestOfScan(c: Curves, prices: set<int>)
    requires Economic(c)
    ensures var r := Scan(c, prices, NOTHING); BestAmong(c, prices, r.price, r.size) && r.size >= 0
  {
    ScanFindsBest(c, {}, prices, NOTHING);
    assert {} + prices == prices;
  }

  /** Outside the crossed prices nothing trades, whatever wraps; inside them nothing wraps. */
  lemma CrossedPartDecides(b: Book, c: Curves, w: Curves, p: int)
    requires UnsignedBook(b) && CrossedFits(b) && c == CurvesOf(b) && w == WrappedCurves(b)
    ensures QuoteAlike(c, w, p)
  {
    SupplyAndDemand(b, p, p);
    WrapFits(SellVolume(b, p));
    WrapFits(BuyVolume(b, p));
    BestAreSets(b);
    if UpTo(b.ask.Keys, p) == {} || From(b.bid.Keys, p) == {} {
      assert c.sell(p) == w.sell(p) == 0 || c.buy(p) == w.buy(p) == 0;
    } else {
      var q, r := MinOf(UpTo(b.ask.Keys, p)), MaxOf(From(b.bid.Keys, p));
      CrossedMeans(b);
      assert q in b.ask && r in b.bid && q <= p <= r;
      SupplyAndDemand(b, p, MaxOf(b.bid.Keys));
      SupplyAndDemand(b, MinOf(b.ask.Keys), p);
      assert c.sell(p) == w.sell(p) && c.buy(p) == w.buy(p);
    }
  }

  /** The outcome for a pair of curves: best of the listed prices, and no price at all trades more. */
  ghost predicate IsAuction(c: Curves, prices: set<int>, r: Outcome) {
    BestAmong(c, prices, r.price, r.size) && forall q :: Tradable(c, q) <= r.size
  }

  lemma ScanIsAuction(c: Curves, w: Curves, asks: set<int>, prices: set<int>)
    requires Economic(c) && StepsUpAt(asks, c.sell) && asks <= prices
    requires forall p :: p in prices ==> QuoteAlike(c, w, p)
    ensures IsAuction(c, prices, Scan(w, prices, NOTHING))
  {
    var r := Scan(w, prices, NOTHING);
    SameTradesSameScan(c, w, prices, NOTHING);
    BestOfScan(c, prices);
    forall q
      ensures Tradable(c, q) <= r.size
    {
      NoPriceTradesMore(c, asks, prices, r.price, r.size, q);
    }
  }

  lemma CrossedAuction(b: Book)
    requires UnsignedBook(b) && CrossedFits(b)
    ensures IsAuction(CurvesOf(b), AllPrices(b), Scan(WrappedCurves(b), AllPrices(b), NOTHING))
  {
    forall p | p in AllPrices(b)
      ensures QuoteAlike(CurvesOf(b), WrappedCurves(b), p)
    {
      CrossedPartDecides(b, CurvesOf(b), WrappedCurves(b), p);
    }
    BooksAreEconomic(b);
    BookCurvesStep(b);
    ScanIsAuction(CurvesOf(b), WrappedCurves(b), b.ask.Keys, AllPrices(b));
  }

  /** Nothing trades exactly when the outcome is nothing. */
  lemma NothingIsAuctionIff(c: Curves, prices: set<int>)
    requires Economic(c)
    ensures IsAuction(c, prices, NOTHING) <==> forall q :: Tradable(c, q) == 0
  {
    assert forall q :: c.sell(q) >= 0 && c.buy(q) >= 0;
  }

  lemma {:induction false} SomeVolume(levels: Levels, prices: set<int>) returns (p: int)
    requires Unsigned(levels) && prices <= levels.Keys && Sum(levels, prices) > 0
    ensures p in prices && levels[p] > 0
    decreases prices
  {
    p := MinOf(prices);
    if levels[p] == 0 {
      p := SomeVolume(levels, prices - {p});
    }
  }

  lemma TradesOnlyIfCrossed(b: Book, q: int)
    requires UnsignedBook(b) && Tradable(CurvesOf(b), q) != 0
    ensures Crossed(Sweep(b))
  {
    SupplyAndDemand(b, q, q);
    var p := SomeVolume(b.ask, UpTo(b.ask.Keys, q));
    var r := SomeVolume(b.bid, From(b.bid.Keys, q));
    assert p in Sweep(b).ask && r in Sweep(b).bid && p <= r;
    CrossedMeans(Sweep(b));
  }

  /** Nothing trades at any price exactly when the levels with volume are not crossed. */
  lemma NothingTradesIff(b: Book)
    requires UnsignedBook(b)
    ensures (forall q :: Tradable(CurvesOf(b), q) == 0) <==> !Crossed(Sweep(b))
  {
    if Crossed(Sweep(b)) {
      var q := CrossedBookTrades(b);
    } else {
      forall q
        ensures Tradable(CurvesOf(b), q) == 0
      {
        if Tradable(CurvesOf(b), q) != 0 {
          TradesOnlyIfCrossed(b, q);
        }
      }
    }
  }

  /** While the crossed volumes fit in 32 bits the auction finds the best price, although it does not look
      at all of them, exactly when the book looks inverted or its levels with volume are not crossed. */
  lemma AuctionFindsBestIff(b: Book)
    requires UnsignedBook(b) && CrossedFits(b)
    ensures IsAuction(CurvesOf(b), AllPrices(b), AuctionOf(b)) <==> Inverted(b) || !Crossed(Sweep(b))
  {
    if Inverted(b) {
      CrossedAuction(b);
    } else {
      BooksAreEconomic(b);
      NothingIsAuctionIff(CurvesOf(b), AllPrices(b));
      NothingTradesIff(b);
    }
  }

  /** With prices below 2^31 that is always so, and something trades exactly in a crossed book. */
  lemma AuctionFindsBest(b: Book)
    requires UnsignedBook(b) && CrossedFits(b) && LowPrices(b)
    ensures IsAuction(CurvesOf(b), AllPrices(b), AuctionOf(b))
    ensures AuctionOf(b).size > 0 <==> Crossed(Sweep(b))
  {
    LowPricesAreSeen(b);
    SweepCrosses(b);
    AuctionFindsBestIff(b);
    NothingTradesIff(b);
    BooksAreEconomic(b);
    SizeTellsTrade(CurvesOf(b), AllPrices(b), AuctionOf(b));
  }

  /** The outcome has a volume exactly when something trades at some price. */
  lemma SizeTellsTrade(c: Curves, prices: set<int>, r: Outcome)
    requires Economic(c) && IsAuction(c, prices, r)
    ensures r.size > 0 <==> !forall q :: Tradable(c, q) == 0
  {
    assert forall q :: c.sell(q) >= 0 && c.buy(q) >= 0;
    assert Tradable(c, r.price) >= 0;
  }

  lemma SweepCrosses(b: Book)
    ensures Crossed(Sweep(b)) ==> Crossed(b)
  {
    CrossedMeans(b);
    CrossedMeans(Sweep(b));
  }

  /** No book with 2^32 or more tradable at some price has its best outcome reported: a necessary half of
      the 32-bit condition. */
  lemma AuctionNeedsFit(b: Book)
    requires UnsignedBook(b) && IsAuction(CurvesOf(b), AllPrices(b), AuctionOf(b))
    ensures forall q :: Tradable(CurvesOf(b), q) < TWO_TO_32
  {
    AuctionNeverOverstates(b);
  }

  /** x is the lesser of two volumes. */
  predicate IsLesser(x: int, sold: int, bought: int) {
    (x == sold && sold <= bought) || (x == bought && bought <= sold)
  }

  /** x is what is left over of two volumes. */
  predicate IsLeftOver(x: int, sold: int, bought: int) {
    x >= 0 && (x == sold - bought || x == bought - sold)
  }

  lemma QuoteInPlainTerms(c: Curves, q: int)
    ensures IsLesser(Tradable(c, q), c.sell(q), c.buy(q)) && IsLeftOver(Surplus(c, q), c.sell(q), c.buy(q))
  {
  }

  lemma BestInPlainTerms(c: Curves, prices: set<int>, price: int, size: int, left: int, q: int, traded: int, leftAtQ: int)
    requires BestAmong(c, prices, price, size) && size != 0 && q in prices
    requires IsLeftOver(left, c.sell(price), c.buy(price))
    requires IsLesser(traded, c.sell(q), c.buy(q)) && IsLeftOver(leftAtQ, c.sell(q), c.buy(q))
    ensures price in prices && IsLesser(size, c.sell(price), c.buy(price))
    ensures traded <= size
    ensures traded == size ==> left <= leftAtQ && (q < price ==> left < leftAtQ)
  {
    QuoteInPlainTerms(c, q);
    QuoteInPlainTerms(c, price);
  }

  /** The reported price, from what is sold and bought alone, for prices below 2^31 and crossed volumes that
      fit: the lesser of the two is reported, no listed price trades more, none that trades as much leaves
      less over, and a lower one that trades as much leaves more. */
  lemma ReportedPriceIsBest(b: Book, q: int, left: int, traded: int, leftAtQ: int)
    requires UnsignedBook(b) && CrossedFits(b) && LowPrices(b) && AuctionOf(b).size > 0
    requires (q in b.bid || q in b.ask) && IsLeftOver(left, SellVolume(b, AuctionOf(b).price), BuyVolume(b, AuctionOf(b).price))
    requires IsLesser(traded, SellVolume(b, q), BuyVolume(b, q)) && IsLeftOver(leftAtQ, SellVolume(b, q), BuyVolume(b, q))
    ensures var r := AuctionOf(b);
            && (r.price in b.bid || r.price in b.ask)
            && IsLesser(r.size, SellVolume(b, r.price), BuyVolume(b, r.price))
            && traded <= r.size
            && (traded == r.size ==> left <= leftAtQ && (q < r.price ==> left < leftAtQ))
  {
    AuctionFindsBest(b);
    var r := AuctionOf(b);
    assert CurvesOf(b).sell(r.price) == SellVolume(b, r.price) && CurvesOf(b).buy(r.price) == BuyVolume(b, r.price);
    assert CurvesOf(b).sell(q) == SellVolume(b, q) && CurvesOf(b).buy(q) == BuyVolume(b, q);
    BestInPlainTerms(CurvesOf(b), AllPrices(b), r.price, r.size, left, q, traded, leftAtQ);
  }

  /** What is sold rises from price to price by the volume asked there, and nothing is sold below all asks. */
  lemma SellVolumeStep(b: Book, p: int)
    ensures SellVolume(b, p) == SellVolume(b, p - 1) + Volume(b.ask, p)
    ensures (forall q :: q in b.ask ==> p < q) ==> SellVolume(b, p) == 0
  {
    var before, now := UpTo(b.ask.Keys, p - 1), UpTo(b.ask.Keys, p);
    if p in b.ask {
      assert now - {p} == before;
      SumSplit(b.ask, now, p);
    } else {
      assert now == before;
    }
    if forall q :: q in b.ask ==> p < q {
      assert now == {};
    }
  }

  /** What is bought rises from price to lower price by the volume bid there. */
  lemma BuyVolumeStep(b: Book, p: int)
    ensures BuyVolume(b, p) == BuyVolume(b, p + 1) + Volume(b.bid, p)
    ensures (forall q :: q in b.bid ==> q < p) ==> BuyVolume(b, p) == 0
  {
    var before, now := From(b.bid.Keys, p + 1), From(b.bid.Keys, p);
    if p in b.bid {
      assert now - {p} == before;
      SumSplit(b.bid, now, p);
    } else {
      assert now == before;
    }
    if forall q :: q in b.bid ==> q < p {
      assert now == {};
    }
  }

  /** Both prices trade 10; at 100 twenty are left over, at 101 none, so 101 is reported. */
  lemma LeastIsLeftOver(b: Book)
    requires b == Book(map[100 := 20, 101 := 10], map[100 := 10])
    ensures AuctionOf(b).price == 101 && AuctionOf(b).size == 10
  {
    VolumesOfTwo(b);
    assert b.bid.Keys == {100, 101} && b.ask.Keys == {100};
    assert AllPrices(b) == {100, 101};
    MinIs({100}, 100);
    MaxIs({100, 101}, 101);
    ScanOfTwo(WrappedCurves(b));
  }

  lemma VolumesOfTwo(b: Book)
    requires b == Book(map[100 := 20, 101 := 10], map[100 := 10])
    ensures SellVolume(b, 100) == SellVolume(b, 101) == 10
    ensures BuyVolume(b, 100) == 30 && BuyVolume(b, 101) == 10
  {
    SellVolumeStep(b, 101);
    SellVolumeStep(b, 100);
    SellVolumeStep(b, 99);
    BuyVolumeStep(b, 100);
    BuyVolumeStep(b, 101);
    BuyVolumeStep(b, 102);
  }

  lemma ScanOfTwo(w: Curves)
    requires w.sell(100) == w.sell(101) == 10 && w.buy(100) == 30 && w.buy(101) == 10
    ensures Scan(w, {100, 101}, NOTHING).price == 101 && Scan(w, {100, 101}, NOTHING).size == 10
  {
    MinIs({100, 101}, 100);
    MinIs({101}, 101);
    assert {100, 101} - {100} == {101};
    assert {101} - {101} == {};
    assert Scan(w, {101}, Outcome(100, 10, 20)) == Scan(w, {}, Outcome(101, 10, 0));
  }

  /** Whatever wraps, the reported volume can be traded at the reported price. */
  lemma AuctionNeverOverstates(b: Book)
    requires UnsignedBook(b)
    ensures var r := AuctionOf(b);
            && 0 <= r.size < TWO_TO_32
            && r.size <= Tradable(CurvesOf(b), r.price)
            && (r.size > 0 ==> r.price in AllPrices(b))
  {
    var r := AuctionOf(b);
    ScanReportsAQuote(WrappedCurves(b), AllPrices(b), NOTHING);
    WrappingLowersQuotes(b, r.price);
  }

  lemma WrappingLowersQuotes(b: Book, p: int)
    requires UnsignedBook(b)
    ensures 0 <= Tradable(WrappedCurves(b), p) <= Tradable(CurvesOf(b), p)
    ensures Tradable(WrappedCurves(b), p) < TWO_TO_32
  {
    SupplyAndDemand(b, p, p);
    WrapFits(SellVolume(b, p));
    WrapFits(BuyVolume(b, p));
  }

  /** At the best bid of a crossed book something is sold and something is bought. */
  lemma CrossedBookTrades(b: Book) returns (q: int)
    requires UnsignedBook(b) && Crossed(Sweep(b))
    ensures q in b.bid && Tradable(CurvesOf(b), q) > 0
  {
    CrossedMeans(Sweep(b));
    var p;
    p, q :| p in Sweep(b).ask && q in Sweep(b).bid && p <= q;
    LevelCounts(b.ask, UpTo(b.ask.Keys, q), p);
    LevelCounts(b.bid, From(b.bid.Keys, q), q);
    assert p in NonZero(b.ask) && q in NonZero(b.bid);
    assert Tradable(CurvesOf(b), q) > 0;
  }

  lemma LevelCounts(levels: Levels, prices: set<int>, p: int)
    requires Unsigned(levels) && p in prices && prices <= levels.Keys
    ensures Sum(levels, prices) >= levels[p]
  {
    SumSplit(levels, prices, p);
    SumOfSubset(levels, prices - {p}, prices - {p});
  }

  // ------------------------------------------------- two books whose sums wrap

  /** The quotes at prices 1 and 3 of a book with asks at both and one bid at 3. */
  lemma QuotesOfThree(b: Book, x: int, y: int, v: int)
    requires b == Book(map[3 := v], map[1 := x, 3 := y])
    ensures SellVolume(b, 1) == x && SellVolume(b, 3) == x + y
    ensures BuyVolume(b, 1) == BuyVolume(b, 3) == v
    ensures AllPrices(b) == {1, 3} && Crossed(b) && Inverted(b)
  {
    assert b.bid.Keys == {3} && b.ask.Keys == {1, 3};
    assert UpTo(b.ask.Keys, 1) == {1} && UpTo(b.ask.Keys, 3) == {1, 3};
    assert From(b.bid.Keys, 1) == {3} && From(b.bid.Keys, 3) == {3};
    SumOfTwo(b.ask, 1, 3);
    SumOfOne(b.ask, 1);
    SumOfOne(b.bid, 3);
    assert MinOf({1, 3}) == 1 && MaxOf({3}) == 3;
  }

  lemma ScanStopsAtThree(w: Curves)
    requires 0 <= Tradable(w, 3) < Tradable(w, 1)
    ensures Scan(w, {1, 3}, NOTHING) == Outcome(1, Tradable(w, 1), Surplus(w, 1))
  {
    MinIs({1, 3}, 1);
    MinIs({3}, 3);
    assert {1, 3} - {1} == {3};
    var first := Outcome(1, Tradable(w, 1), Surplus(w, 1));
    assert Scan(w, {3}, first) == first;
  }

  lemma AuctionOfThree(b: Book, x: int, y: int, v: int)
    requires b == Book(map[3 := v], map[1 := x, 3 := y]) && UnsignedBook(b)
    requires Min(Wrap(x + y), v) < Min(x, v)
    ensures AuctionOf(b).price == 1 && AuctionOf(b).size == Min(x, v)
  {
    QuotesOfThree(b, x, y, v);
    WrapFits(x);
    WrapFits(v);
    WrapFits(x + y);
    var w := WrappedCurves(b);
    assert b.ask[1] == x && b.bid[3] == v;
    assert w.sell(1) == x && w.sell(3) == Wrap(x + y) && w.buy(1) == w.buy(3) == v;
    ScanStopsAtThree(w);
  }

  const ASKS_TOO_MUCH := Book(map[3 := TWO_TO_32 - 1], map[1 := HALF, 3 := HALF])
  const ASKS_TOO_MUCH_TOO := Book(map[3 := 5], map[1 := 10, 3 := TWO_TO_32 - 6])

  lemma TheyAreBooks()
    ensures UnsignedBook(ASKS_TOO_MUCH) && LowPrices(ASKS_TOO_MUCH)
    ensures UnsignedBook(ASKS_TOO_MUCH_TOO) && LowPrices(ASKS_TOO_MUCH_TOO)
  {
  }

  /** Asks of 2^31 at two prices sum to 0 in 32 bits: the scan settles for half of what would trade. */
  lemma WrappedSumsMissTheBest()
    ensures UnsignedBook(ASKS_TOO_MUCH) && LowPrices(ASKS_TOO_MUCH)
    ensures AuctionOf(ASKS_TOO_MUCH).size == HALF && Tradable(CurvesOf(ASKS_TOO_MUCH), 3) == TWO_TO_32 - 1
  {
    TheyAreBooks();
    QuotesOfThree(ASKS_TOO_MUCH, HALF, HALF, TWO_TO_32 - 1);
    AuctionOfThree(ASKS_TOO_MUCH, HALF, HALF, TWO_TO_32 - 1);
  }

  lemma BestOfThree(c: Curves)
    requires c.sell(1) == 10 && c.sell(3) == TWO_TO_32 + 4 && c.buy(1) == c.buy(3) == 5
    ensures BestAmong(c, {1, 3}, 1, 5)
  {
    assert Worse(c, 3, 1);
  }

  /** A sum that wraps need not mislead the scan, so the condition is not necessary. */
  lemma WrappedSumsCanBeRight()
    ensures UnsignedBook(ASKS_TOO_MUCH_TOO) && LowPrices(ASKS_TOO_MUCH_TOO)
    ensures var b := ASKS_TOO_MUCH_TOO; IsAuction(CurvesOf(b), AllPrices(b), AuctionOf(b))
  {
    TheyAreBooks();
    WrappedButRight(ASKS_TOO_MUCH_TOO);
  }

  lemma WrappedButRight(b: Book)
    requires b == Book(map[3 := 5], map[1 := 10, 3 := TWO_TO_32 - 6]) && UnsignedBook(b)
    ensures IsAuction(CurvesOf(b), AllPrices(b), AuctionOf(b))
  {
    QuotesOfThree(b, 10, TWO_TO_32 - 6, 5);
    AuctionOfThree(b, 10, TWO_TO_32 - 6, 5);
    BestOfThree(CurvesOf(b));
    ListedIsEnough(b, AuctionOf(b));
  }

  lemma ListedIsEnough(b: Book, r: Outcome)
    requires UnsignedBook(b) && BestAmong(CurvesOf(b), AllPrices(b), r.price, r.size)
    ensures IsAuction(CurvesOf(b), AllPrices(b), r)
  {
    BooksAreEconomic(b);
    BookCurvesStep(b);
    forall q
      ensures Tradable(CurvesOf(b), q) <= r.size
    {
      NoPriceTradesMore(CurvesOf(b), b.ask.Keys, AllPrices(b), r.price, r.size, q);
    }
  }

  lemma TheirSumsWrap()
    ensures !CrossedFits(ASKS_TOO_MUCH) && !CrossedFits(ASKS_TOO_MUCH_TOO)
  {
    QuotesOfThree(ASKS_TOO_MUCH, HALF, HALF, TWO_TO_32 - 1);
    QuotesOfThree(ASKS_TOO_MUCH_TOO, 10, TWO_TO_32 - 6, 5);
    assert ASKS_TOO_MUCH.bid.Keys == {3} && ASKS_TOO_MUCH_TOO.bid.Keys == {3};
    MaxIs({3}, 3);
  }

  lemma SumOfOne(levels: Levels, p: int)
    requires p in levels
    ensures Sum(levels, {p}) == levels[p]
  {
    MinIs({p}, p);
    assert {p} - {p} == {};
  }

  lemma SumOfTwo(levels: Levels, p: int, q: int)
    requires p in levels && q in levels && p != q
    ensures Sum(levels, {p, q}) == levels[p] + levels[q]
  {
    SumSplit(levels, {p, q}, p);
    assert {p, q} - {p} == {q};
    SumOfOne(levels, q);
  }
}
