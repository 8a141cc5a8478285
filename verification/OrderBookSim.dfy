/** The order-book viewer: a log, a cursor into it, two price-to-volume maps and the drawing
    parameters (guis/orderBookSim/OrderBookSim.h). */
module OrderBookSim {
  import opened Options
  import opened IntSets
  import opened OrderBook
  import opened OrderReplay
  import opened TickGrid

  /** The sweep of one side: visit every level and erase the dead ones. */
  method EraseDead(levels: Levels) returns (swept: Levels)
    ensures swept == Live(levels)
  {
    swept := levels;
    var todo := levels.Keys;
    while todo != {}
      invariant todo <= levels.Keys
      invariant todo <= swept.Keys <= levels.Keys
      invariant forall p :: p in swept ==> swept[p] == levels[p]
      invariant forall p :: p in levels && p !in todo ==> (p in swept <==> p in Live(levels))
    {
      var p := MinOf(todo);
      todo := todo - {p};
      if p == 0 || swept[p] == 0 {
        swept := swept - {p};
      }
    }
    assert swept.Keys == Live(levels).Keys;
  }

  /** The level an order names, before the sweep; reading an absent level creates it with volume zero. */
  method TouchLevel(levels: Levels, e: Event, addDel: int) returns (touched: Levels)
    requires addDel == e.kind % 2
    ensures touched.Keys == levels.Keys + {e.price}
    ensures forall p :: p in levels && p != e.price ==> touched[p] == levels[p]
    ensures var v := Volume(levels, e.price);
            touched[e.price] == if IsDelete(e) then Max(v - e.size, 0) else v + e.size
    ensures touched == levels[e.price := Touched(levels, e)]
  {
    var thevol := Volume(levels, e.price);
    if addDel == 0 {
      touched := levels[e.price := thevol + e.size];
    } else if e.size > thevol {
      touched := levels[e.price := 0];
    } else {
      touched := levels[e.price := thevol - e.size];
    }
  }

  /** One order's effect on both sides. */
  method UpdateSides(bidvol: Levels, askvol: Levels, e: Event) returns (bids: Levels, asks: Levels)
    ensures Book(bids, asks) == Step(Book(bidvol, askvol), e)
  {
    bids, asks := bidvol, askvol;
    var bidAsk := (e.kind / 2) % 2;
    var addDel := e.kind % 2;
    if bidAsk == 0 {
      bids := TouchLevel(bids, e, addDel);
    } else {
      asks := TouchLevel(asks, e, addDel);
    }
    bids := EraseDead(bids);
    asks := EraseDead(asks);
  }

  /** The price range over both sides. The first and last price of an empty side are whatever the memory
      behind the container holds; a first ask price of zero is ignored, but the sweep leaves none. */
  method PriceRange(bids: set<int>, asks: set<int>) returns (xlow: int, xhigh: int)
    requires 0 !in asks
    ensures xlow <= xhigh
    ensures bids != {} && asks != {} ==> xlow == MinOf(bids + asks) && xhigh == MaxOf(bids + asks)
  {
    var firstBid, lastBid, firstAsk, lastAsk: int := *, *, *, *;
    if bids != {} {
      firstBid, lastBid := MinOf(bids), MaxOf(bids);
    }
    if asks != {} {
      firstAsk, lastAsk := MinOf(asks), MaxOf(asks);
    }
    xlow := firstBid;
    if xlow > firstAsk && firstAsk != 0 {
      xlow := firstAsk;
    }
    xhigh := lastAsk;
    if xhigh < lastBid {
      xhigh := lastBid;
    }
    if xlow >= xhigh {
      xlow, xhigh := xhigh, xlow;
    }
  }

  /** The interval scan: try 1, 10, 100, ... below the greatest price until some price is off the tick. */
  method ScanInterval(prices: set<int>) returns (interval: int)
    requires prices != {}
    ensures IsTickInterval(prices, interval)
  {
    var maxPrice := MaxOf(prices);
    ghost var k: nat := 0;
    interval := 1;
    while interval < maxPrice
      invariant interval == Pow10(k)
      invariant k > 0 ==> Pow10(k - 1) < maxPrice && AllMultiples(prices, Pow10(k - 1))
      decreases maxPrice - interval
    {
      var todo := prices;
      while todo != {}
        invariant todo <= prices
        invariant forall p :: p in prices && p !in todo ==> p % interval == 0
      {
        var p := MinOf(todo);
        if p % interval != 0 {
          assert k > 0 && StoppedAt(prices, k - 1) && EndsAt(prices, k - 1);
          if interval > 1 {
            interval := interval / 10;
          }
          return;
        }
        todo := todo - {p};
      }
      interval := interval * 10;
      k := k + 1;
    }
    assert RanOut(prices, k) && EndsAt(prices, k);
  }

  /** Interval and grid from the prices of both sides; without any price the interval is kept. */
  method DrawParameters(bids: set<int>, asks: set<int>, oldInterval: int) returns (interval: int, grid: Grid)
    requires 0 !in asks && (bids + asks != {} || oldInterval > 0)
    ensures interval > 0 && grid.low < grid.high && grid.nbins >= 5
    ensures bids + asks != {} ==> IsTickInterval(bids + asks, interval)
    ensures bids + asks == {} ==> interval == oldInterval
    ensures bids != {} && asks != {} ==> grid == MakeGrid(MinOf(bids + asks), MaxOf(bids + asks), interval)
  {
    var xlow, xhigh := PriceRange(bids, asks);
    interval := oldInterval;
    if bids + asks != {} {
      interval := ScanInterval(bids + asks);
      IntervalIsPositive(bids + asks, interval);
    }
    GridIsExactIff(xlow, xhigh, interval);
    AtLeastFiveBins(xlow, xhigh, interval);
    grid := MakeGrid(xlow, xhigh, interval);
  }

  lemma IntervalIsPositive(prices: set<int>, interval: int)
    requires prices != {} && IsTickInterval(prices, interval)
    ensures interval > 0
  {
  }

  lemma PricesOfBook(bidvol: Levels, askvol: Levels)
    ensures HasPrice(Book(bidvol, askvol)) <==> bidvol.Keys + askvol.Keys != {}
  {
    assert bidvol != map[] ==> bidvol.Keys != {};
    assert askvol != map[] ==> askvol.Keys != {};
  }

  lemma AtLeastFiveBins(xlow: int, xhigh: int, interval: int)
    requires interval > 0 && xlow <= xhigh
    ensures (xhigh - xlow) / interval >= 0
  {
  }

  class OrderBookSim {
    var vMsecs: seq<int>
    var vPrice: seq<int>
    var vSize: seq<int>
    var vType: seq<int>
    var fNent: nat
    var fMsecs: int
    var bidvol: map<int, int>
    var askvol: map<int, int>
    var interval: int
    var histLow: int
    var histHigh: int
    var nbins: int

    ghost predicate Loaded()
      reads `vMsecs, `vPrice, `vSize, `vType
    {
      |vMsecs| == |vPrice| == |vSize| == |vType|
    }

    ghost function Log(): (log: seq<Event>)
      requires Loaded()
      reads `vMsecs, `vPrice, `vSize, `vType
      ensures |log| == |vMsecs|
    {
      Records(vMsecs, vPrice, vSize, vType)
    }

    ghost function State(): Snapshot
      reads `fNent, `fMsecs, `bidvol, `askvol
    {
      Snapshot(fNent, fMsecs, Book(bidvol, askvol))
    }

    /** The interval is zero until a redraw has seen a price. */
    ghost function Shown(): Screen
      reads `fNent, `fMsecs, `bidvol, `askvol, `interval
    {
      Screen(State(), interval > 0)
    }

    /** The class invariant: what is shown is the replay of the log up to the cursor. */
    ghost predicate Valid()
      reads `vMsecs, `vPrice, `vSize, `vType, `fNent, `fMsecs, `bidvol, `askvol
    {
      Loaded() && OnReplay(Log(), State())
    }

    ghost function Prices(): set<int>
      reads `bidvol, `askvol
    {
      bidvol.Keys + askvol.Keys
    }

    constructor ()
      ensures Valid() && |vMsecs| == 0 && Shown() == Screen(START, false)
    {
      vMsecs, vPrice, vSize, vType := [], [], [], [];
      fNent, fMsecs, bidvol, askvol := 0, 0, map[], map[];
      interval, histLow, histHigh, nbins := 0, 0, 0, 0;
    }

    /** InitVars with the columns of an order file already read. */
    method InitVars(msecs: seq<int>, price: seq<int>, size: seq<int>, kind: seq<int>)
      requires |msecs| == |price| == |size| == |kind|
      modifies this
      ensures Valid() && Shown() == Screen(START, false)
      ensures vMsecs == msecs && vPrice == price && vSize == size && vType == kind
    {
      vMsecs, vPrice, vSize, vType := msecs, price, size, kind;
      Clear();
      histLow, histHigh, interval, nbins := 0, 0, 0, 0;
    }

    /** reset() */
    method Clear()
      requires Loaded()
      modifies `fNent, `fMsecs, `bidvol, `askvol
      ensures Valid() && State() == START
    {
      fNent := 0;
      fMsecs := 0;
      bidvol := map[];
      askvol := map[];
    }

    method ReadAnOrder()
      requires Valid() && fNent < |vMsecs|
      modifies `fNent, `fMsecs, `bidvol, `askvol
      ensures Valid()
      ensures Exec(Log(), old(State()), Next) == Some(State())
    {
      ghost var log, before := Log(), State();
      var e := Event(vMsecs[fNent], vPrice[fNent], vSize[fNent], vType[fNent]);
      fMsecs := e.msecs;
      fNent := fNent + 1;
      bidvol, askvol := UpdateSides(bidvol, askvol, e);
      assert State() == Read(log, before);
    }

    method NextOrder()
      requires Valid() && ExecShown(Log(), Shown(), Next).Some?
      modifies `fNent, `fMsecs, `bidvol, `askvol, `interval, `histLow, `histHigh, `nbins
      ensures Valid()
      ensures Exec(Log(), old(State()), Next) == Some(State())
      ensures ExecShown(Log(), old(Shown()), Next) == Some(Shown())
    {
      ReadAnOrder();
      Redraw();
    }

    /** Stepping back replays the log from its start. */
    method PrevOrder()
      requires Valid() && ExecShown(Log(), Shown(), Prev).Some?
      modifies `fNent, `fMsecs, `bidvol, `askvol, `interval, `histLow, `histHigh, `nbins
      ensures Valid()
      ensures Exec(Log(), old(State()), Prev) == Some(State())
      ensures ExecShown(Log(), old(Shown()), Prev) == Some(Shown())
    {
      ReplayOneLess();
      Redraw();
    }

    /** prev_order() without the redraw. */
    method ReplayOneLess()
      requires Valid()
      modifies `fNent, `fMsecs, `bidvol, `askvol
      ensures Valid()
      ensures Exec(Log(), old(State()), Prev) == Some(State())
    {
      var nent2go := fNent - 1;
      ghost var log := Log();
      Clear();
      while fNent < nent2go
        invariant Valid() && Log() == log
        invariant ReadUpTo(log, State(), nent2go) == ReadUpTo(log, START, nent2go)
        decreases nent2go - fNent
      {
        ReadAnOrder();
      }
    }

    /** The redraw is repeated after every order; the state reached is that of JumptoMsecs. */
    method GotoMsecs(msecs2go: int)
      requires Valid() && Exec(Log(), State(), Goto(msecs2go)).Some?
      requires ExecShown(Log(), Shown(), Goto(msecs2go)).Some?
      modifies `fNent, `fMsecs, `bidvol, `askvol, `interval, `histLow, `histHigh, `nbins
      ensures Valid()
      ensures Exec(Log(), old(State()), Goto(msecs2go)) == Some(State())
      ensures ExecShown(Log(), old(Shown()), Goto(msecs2go)) == Some(Shown())
    {
      ghost var goal := AdvanceShown(Log(), Shown(), msecs2go);
      ExecShownIff(Log(), Shown(), Goto(msecs2go));
      while fMsecs < msecs2go
        invariant Valid() && AdvanceShown(Log(), Shown(), msecs2go) == goal
        decreases |vMsecs| - fNent
      {
        NextOrder();
      }
    }

    method JumptoMsecs(msecs2go: int)
      requires Valid() && ExecShown(Log(), Shown(), Jumpto(msecs2go)).Some?
      modifies `fNent, `fMsecs, `bidvol, `askvol, `interval, `histLow, `histHigh, `nbins
      ensures Valid()
      ensures Exec(Log(), old(State()), Jumpto(msecs2go)) == Some(State())
      ensures ExecShown(Log(), old(Shown()), Jumpto(msecs2go)) == Some(Shown())
    {
      ReadUntil(msecs2go);
      Redraw();
    }

    /** The reading loop of jumpto_msecs(). */
    method ReadUntil(msecs2go: int)
      requires Valid() && Advance(Log(), State(), msecs2go).Some?
      modifies `fNent, `fMsecs, `bidvol, `askvol
      ensures Valid() && Advance(Log(), old(State()), msecs2go) == Some(State())
    {
      ghost var goal := Advance(Log(), State(), msecs2go);
      while fMsecs < msecs2go
        invariant Valid() && Advance(Log(), State(), msecs2go) == goal
        decreases |vMsecs| - fNent
      {
        ReadAnOrder();
      }
    }

    /** What the commands rely on in a redraw. */
    method Redraw()
      requires Valid() && Show(Shown()).Some?
      modifies `interval, `histLow, `histHigh, `nbins
      ensures Show(old(Shown())) == Some(Shown())
    {
      DrawBook();
    }

    /** Redrawing recomputes the drawing parameters and touches nothing else. It needs a price that rests
        or has been drawn since loading: without one the code divides by an interval of zero. */
    method DrawBook()
      requires Valid() && Show(Shown()).Some?
      modifies `interval, `histLow, `histHigh, `nbins
      ensures Show(old(Shown())) == Some(Shown())
      ensures Prices() != {} ==> IsTickInterval(Prices(), interval)
      ensures Prices() == {} ==> interval == old(interval)
      ensures bidvol != map[] && askvol != map[] ==>
                Grid(histLow, histHigh, nbins) == MakeGrid(MinOf(Prices()), MaxOf(Prices()), interval)
    {
      PricesOfBook(bidvol, askvol);
      var drawn := GetDrawParam();
    }

    /** The interval is that of the resting prices as soon as there is one; the grid is theirs when both
        sides have one. */
    method GetDrawParam() returns (drawn: bool)
      requires Valid() && (Prices() != {} || interval > 0)
      modifies `interval, `histLow, `histHigh, `nbins
      ensures drawn <==> Prices() != {}
      ensures Prices() != {} ==> IsTickInterval(Prices(), interval)
      ensures Prices() == {} ==> interval == old(interval)
      ensures interval > 0 && histLow < histHigh && nbins >= 5
      ensures bidvol != map[] && askvol != map[] ==>
                Grid(histLow, histHigh, nbins) == MakeGrid(MinOf(Prices()), MaxOf(Prices()), interval)
    {
      ReplayIsClean(Log(), fNent);
      var grid;
      interval, grid := DrawParameters(bidvol.Keys, askvol.Keys, interval);
      histLow, histHigh, nbins := grid.low, grid.high, grid.nbins;
      drawn := bidvol.Keys + askvol.Keys != {};
    }
  }
}
