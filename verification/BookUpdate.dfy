/** The order book of the signal library as values: one order's effect with and without uncrossing,
    and a trading day of orders (source/src/jl_lib/Book.cpp). */
module BookUpdate {
  import opened IntSets
  import opened OrderBook

  const TWO_TO_32 := 0x1_0000_0000
  const HALF := 0x8000_0000

  /** Prices and volumes are 32-bit unsigned. */
  ghost predicate Unsigned(levels: Levels) {
    forall p :: p in levels ==> 0 <= p < TWO_TO_32 && 0 <= levels[p] < TWO_TO_32
  }

  ghost predicate UnsignedBook(b: Book) {
    Unsigned(b.bid) && Unsigned(b.ask)
  }

  predicate UnsignedOrder(o: Event) {
    0 <= o.price < TWO_TO_32 && 0 <= o.size < TWO_TO_32
  }

  /** remove_zeros() on one side. */
  function NonZero(levels: Levels): Levels {
    map p | p in levels && levels[p] != 0 :: levels[p]
  }

  /** The volume an order leaves at its level: a wrapping add or a delete clamped at zero. */
  function LevelAfter(v: int, o: Event): int {
    if !IsDelete(o) then (v + o.size) % TWO_TO_32 else if v >= o.size then v - o.size else 0
  }

  /** An unsigned number read as a signed one. */
  function ToInt(x: int): int {
    if x < HALF then x else x - TWO_TO_32
  }

  /** The best ask is at or below the best bid. */
  predicate Crossed(b: Book) {
    b.bid != map[] && b.ask != map[] && (BestAreSets(b); MinOf(b.ask.Keys) <= MaxOf(b.bid.Keys))
  }

  /** The comparison the code makes: of the best prices read as signed numbers. */
  predicate Inverted(b: Book) {
    b.bid != map[] && b.ask != map[] && (BestAreSets(b); ToInt(MinOf(b.ask.Keys)) <= ToInt(MaxOf(b.bid.Keys)))
  }

  lemma BestAreSets(b: Book)
    ensures b.bid != map[] ==> b.bid.Keys != {}
    ensures b.ask != map[] ==> b.ask.Keys != {}
  {
  }

  lemma CrossedMeans(b: Book)
    ensures Crossed(b) <==> exists p, q :: p in b.ask && q in b.bid && p <= q
  {
    BestAreSets(b);
    if Crossed(b) {
      assert MinOf(b.ask.Keys) in b.ask && MaxOf(b.bid.Keys) in b.bid;
    }
    if p, q :| p in b.ask && q in b.bid && p <= q {
      assert MinOf(b.ask.Keys) <= p && q <= MaxOf(b.bid.Keys);
    }
  }

  /** The code sees a crossed book for what it is exactly when both best prices, or neither, are at or
      above 2^31; otherwise it sees the opposite. */
  lemma InvertedIff(b: Book)
    requires UnsignedBook(b)
    ensures (Inverted(b) <==> Crossed(b))
            <==> b.bid == map[] || b.ask == map[] ||
                 (BestAreSets(b); MinOf(b.ask.Keys) < HALF <==> MaxOf(b.bid.Keys) < HALF)
  {
    BestAreSets(b);
    if b.bid != map[] && b.ask != map[] {
      assert MinOf(b.ask.Keys) in b.ask && MaxOf(b.bid.Keys) in b.bid;
    }
  }

  /** No price is at or above 2^31. */
  ghost predicate LowPrices(b: Book) {
    (forall p :: p in b.bid ==> 0 <= p < HALF) && (forall p :: p in b.ask ==> 0 <= p < HALF)
  }

  lemma LowPricesAreSeen(b: Book)
    requires LowPrices(b)
    ensures Inverted(b) <==> Crossed(b)
  {
    BestAreSets(b);
    if b.bid != map[] && b.ask != map[] {
      assert MinOf(b.ask.Keys) in b.ask && MaxOf(b.bid.Keys) in b.bid;
    }
  }

  /** Some ask up to p does not reach the bid. */
  predicate AskClear(asks: set<int>, p: int, bid: int) {
    exists q :: q in asks && q <= p && ToInt(q) > ToInt(bid)
  }

  /** Some bid from p on does not reach the ask. */
  predicate BidClear(bids: set<int>, p: int, ask: int) {
    exists q :: q in bids && q >= p && ToInt(q) < ToInt(ask)
  }

  /** What is left after a bid or an ask was added and the best levels of the other side were erased
      while the book looked inverted: everything behind the first level that does not. */
  function Uncross(b: Book, added: Side): Book {
    if b.bid == map[] || b.ask == map[] then b
    else
      BestAreSets(b);
      if added == Bid
      then b.(ask := map p | p in b.ask && AskClear(b.ask.Keys, p, MaxOf(b.bid.Keys)) :: b.ask[p])
      else b.(bid := map p | p in b.bid && BidClear(b.bid.Keys, p, MinOf(b.ask.Keys)) :: b.bid[p])
  }

  lemma LeastClearAsk(asks: set<int>, clear: set<int>, bid: int)
    requires clear <= asks && forall p :: p in asks ==> (p in clear <==> AskClear(asks, p, bid))
    ensures clear != {} ==> ToInt(MinOf(clear)) > ToInt(bid)
    ensures asks != {} && ToInt(MinOf(asks)) > ToInt(bid) ==> clear == asks
  {
    if clear != {} {
      var p := MinOf(clear);
      assert AskClear(asks, p, bid);
      var q :| q in asks && q <= p && ToInt(q) > ToInt(bid);
      assert AskClear(asks, q, bid);
    }
    if asks != {} && ToInt(MinOf(asks)) > ToInt(bid) {
      forall p | p in asks
        ensures p in clear
      {
        assert MinOf(asks) <= p;
      }
    }
  }

  lemma GreatestClearBid(bids: set<int>, clear: set<int>, ask: int)
    requires clear <= bids && forall p :: p in bids ==> (p in clear <==> BidClear(bids, p, ask))
    ensures clear != {} ==> ToInt(MaxOf(clear)) < ToInt(ask)
    ensures bids != {} && ToInt(MaxOf(bids)) < ToInt(ask) ==> clear == bids
  {
    if clear != {} {
      var p := MaxOf(clear);
      assert BidClear(bids, p, ask);
      var q :| q in bids && q >= p && ToInt(q) < ToInt(ask);
      assert BidClear(bids, q, ask);
    }
    if bids != {} && ToInt(MaxOf(bids)) < ToInt(ask) {
      forall p | p in bids
        ensures p in clear
      {
        assert MaxOf(bids) >= p;
      }
    }
  }

  lemma SameMap(a: Levels, b: Levels)
    requires a.Keys == b.Keys && forall p :: p in a ==> a[p] == b[p]
    ensures a == b
  {
    forall p
      ensures p in a <==> p in b
      ensures p in a ==> a[p] == b[p]
    {
      assert p in a.Keys <==> p in b.Keys;
    }
    assert a == b;
  }

  lemma AsksAreClear(b: Book)
    requires b.bid != map[] && b.ask != map[]
    ensures !Inverted(Uncross(b, Bid)) && (!Inverted(b) ==> Uncross(b, Bid) == b)
  {
    var u := Uncross(b, Bid);
    BestAreSets(b);
    BestAreSets(u);
    LeastClearAsk(b.ask.Keys, u.ask.Keys, MaxOf(b.bid.Keys));
    if !Inverted(b) {
      SameMap(u.ask, b.ask);
    }
  }

  lemma BidsAreClear(b: Book)
    requires b.bid != map[] && b.ask != map[]
    ensures !Inverted(Uncross(b, Ask)) && (!Inverted(b) ==> Uncross(b, Ask) == b)
  {
    var u := Uncross(b, Ask);
    BestAreSets(b);
    BestAreSets(u);
    GreatestClearBid(b.bid.Keys, u.bid.Keys, MinOf(b.ask.Keys));
    if !Inverted(b) {
      SameMap(u.bid, b.bid);
    }
  }

  /** Uncrossing leaves a book that does not look inverted, and one that did not look so alone. */
  lemma UncrossedLooksIt(b: Book, added: Side)
    ensures !Inverted(Uncross(b, added))
    ensures !Inverted(b) ==> Uncross(b, added) == b
  {
    if b.bid != map[] && b.ask != map[] {
      AsksAreClear(b);
      BidsAreClear(b);
    }
  }

  lemma UncrossOnly(b: Book, added: Side)
    ensures var u := Uncross(b, added);
            && u.On(added) == b.On(added) && u.bid.Keys <= b.bid.Keys && u.ask.Keys <= b.ask.Keys
            && (forall p :: p in u.bid ==> u.bid[p] == b.bid[p])
            && (forall p :: p in u.ask ==> u.ask[p] == b.ask[p])
  {
  }

  /** The book is crossed and does not look inverted. */
  predicate Deceives(b: Book) {
    Crossed(b) && !Inverted(b)
  }

  /** The best ask lies below 2^31 and the best bid does not. */
  predicate Straddles(b: Book) {
    b.bid != map[] && b.ask != map[] && (BestAreSets(b); MinOf(b.ask.Keys) < HALF <= MaxOf(b.bid.Keys))
  }

  /** A crossing escapes the comparison exactly in a book whose best prices straddle 2^31. */
  lemma DeceivesIff(b: Book)
    requires UnsignedBook(b)
    ensures Deceives(b) <==> Straddles(b)
  {
    BestAreSets(b);
    if b.bid != map[] && b.ask != map[] {
      assert MinOf(b.ask.Keys) in b.ask && MaxOf(b.bid.Keys) in b.bid;
    }
  }

  lemma CrossedAsksGo(b: Book)
    requires UnsignedBook(b) && Inverted(b)
    ensures !Crossed(Uncross(b, Bid))
  {
    var u := Uncross(b, Bid);
    BestAreSets(b);
    CrossedMeans(u);
    var bid := MaxOf(b.bid.Keys);
    assert MinOf(b.ask.Keys) in b.ask && bid in b.bid;
    forall a, q | a in u.ask && q in u.bid
      ensures a > q
    {
      var c :| c in b.ask.Keys && c <= a && ToInt(c) > ToInt(bid);
      assert MinOf(b.ask.Keys) <= c && q <= bid;
    }
  }

  lemma CrossedBidsGo(b: Book)
    requires UnsignedBook(b) && Inverted(b)
    ensures !Crossed(Uncross(b, Ask))
  {
    var u := Uncross(b, Ask);
    BestAreSets(b);
    CrossedMeans(u);
    var ask := MinOf(b.ask.Keys);
    assert MaxOf(b.bid.Keys) in b.bid && ask in b.ask;
    forall a, q | a in u.ask && q in u.bid
      ensures a > q
    {
      var c :| c in b.bid.Keys && c >= q && ToInt(c) < ToInt(ask);
      assert MaxOf(b.bid.Keys) >= c && a >= ask;
    }
  }

  /** Cutting leaves a book crossed exactly when it was and did not look so. */
  lemma CutLeavesCrossedIff(b: Book, added: Side)
    requires UnsignedBook(b)
    ensures Crossed(Uncross(b, added)) <==> Deceives(b)
  {
    if Inverted(b) {
      CrossedAsksGo(b);
      CrossedBidsGo(b);
    } else {
      UncrossedLooksIt(b, added);
    }
  }

  /** Below 2^31 uncrossing removes no more than it must: whatever other part of the side is not crossed
      is kept, with its volumes. */
  lemma UncrossRemovesLeast(b: Book, added: Side, r: Book)
    requires LowPrices(b) && !Crossed(r) && r.On(added) == b.On(added)
    requires r.bid.Keys <= b.bid.Keys && r.ask.Keys <= b.ask.Keys
    ensures var u := Uncross(b, added);
            && !Crossed(u) && u.On(added) == b.On(added)
            && r.bid.Keys <= u.bid.Keys <= b.bid.Keys && r.ask.Keys <= u.ask.Keys <= b.ask.Keys
            && (forall p :: p in u.bid ==> u.bid[p] == b.bid[p])
            && (forall p :: p in u.ask ==> u.ask[p] == b.ask[p])
  {
    BestAreSets(b);
    CrossedMeans(r);
    UncrossOnly(b, added);
    UncrossedLooksIt(b, added);
    LowPricesAreSeen(Uncross(b, added));
    if b.bid != map[] && b.ask != map[] {
      if added == Bid {
        forall p | p in r.ask
          ensures AskClear(b.ask.Keys, p, MaxOf(b.bid.Keys))
        {
          assert p in b.ask && MaxOf(b.bid.Keys) in r.bid;
        }
      } else {
        forall p | p in r.bid
          ensures BidClear(b.bid.Keys, p, MinOf(b.ask.Keys))
        {
          assert p in b.bid && MinOf(b.ask.Keys) in r.ask;
        }
      }
    }
  }

  function Opposite(side: Side): Side {
    if side == Bid then Ask else Bid
  }

  function SetLevel(b: Book, side: Side, price: int, v: int): Book {
    if side == Bid then b.(bid := b.bid[price := v]) else b.(ask := b.ask[price := v])
  }

  function Sweep(b: Book): Book {
    Book(NonZero(b.bid), NonZero(b.ask))
  }

  /** The effect of one order; `cut` tells whether a crossing add removes the levels it crosses. */
  function Updated(b: Book, o: Event, cut: bool): Book {
    var side := SideOf(o);
    var touched := SetLevel(b, side, o.price, LevelAfter(Volume(b.On(side), o.price), o));
    Sweep(if cut && !IsDelete(o) then Uncross(touched, side) else touched)
  }

  // ------------------------------------------------------- what one order amounts to

  /** The type word of a logged order. */
  lemma TypeWords(o: Event)
    ensures o.kind == 0 ==> SideOf(o) == Bid && !IsDelete(o)
    ensures o.kind == 1 ==> SideOf(o) == Bid && IsDelete(o)
    ensures o.kind == 2 ==> SideOf(o) == Ask && !IsDelete(o)
    ensures o.kind == 3 ==> SideOf(o) == Ask && IsDelete(o)
  {
  }

  predicate LowOrder(o: Event) {
    UnsignedOrder(o) && o.price < HALF
  }

  lemma ThirtyTwoBits()
    ensures TWO_TO_32 == 4_294_967_296 && HALF == 2_147_483_648 && ToInt(HALF) == -2_147_483_648 && ToInt(HALF - 1) == HALF - 1
  {
  }

  /** Price p lies strictly beyond a price and all levels of a side. */
  ghost predicate Beyond(side: Side, levels: Levels, price: int, p: int) {
    if side == Bid then p > price && forall q :: q in levels ==> p > q
    else p < price && forall q :: q in levels ==> p < q
  }

  lemma BeyondAlike(side: Side, levels: Levels, more: Levels, price: int, p: int)
    requires more.Keys == levels.Keys + {price}
    ensures Beyond(side, more, price, p) <==> Beyond(side, levels, price, p)
  {
    assert forall q :: q in more.Keys <==> q in levels.Keys || q == price;
    assert forall q :: q in more <==> q in more.Keys;
    assert forall q :: q in levels <==> q in levels.Keys;
  }

  lemma SweepKeepsVolumes(b: Book)
    ensures forall p :: Volume(Sweep(b).bid, p) == Volume(b.bid, p)
    ensures forall p :: Volume(Sweep(b).ask, p) == Volume(b.ask, p)
  {
  }

  /** An order that does not cut changes the volume at its own price and no other. */
  lemma PlainOrderVolumes(b: Book, o: Event, cut: bool)
    requires IsDelete(o) || !cut
    ensures var (u, side) := (Updated(b, o, cut), SideOf(o));
            && (forall p :: p != o.price ==> Volume(u.On(side), p) == Volume(b.On(side), p))
            && (forall p :: Volume(u.On(Opposite(side)), p) == Volume(b.On(Opposite(side)), p))
            && (var v := Volume(b.On(side), o.price);
                Volume(u.On(side), o.price)
                == if IsDelete(o) then (if v >= o.size then v - o.size else 0) else (v + o.size) % TWO_TO_32)
  {
    var side := SideOf(o);
    SweepKeepsVolumes(SetLevel(b, side, o.price, LevelAfter(Volume(b.On(side), o.price), o)));
  }

  lemma LowAskClear(asks: set<int>, p: int, bid: int)
    requires (forall q :: q in asks ==> 0 <= q < HALF) && 0 <= bid < HALF && p in asks
    ensures AskClear(asks, p, bid) <==> p > bid
  {
  }

  lemma LowBidClear(bids: set<int>, p: int, ask: int)
    requires (forall q :: q in bids ==> 0 <= q < HALF) && 0 <= ask < HALF && p in bids
    ensures BidClear(bids, p, ask) <==> p < ask
  {
  }

  /** Uncrossing keeps the volumes strictly beyond all levels of the side added to, and only those. */
  lemma LowUncrossVolumes(b: Book, added: Side, price: int)
    requires LowPrices(b) && price in b.On(added)
    ensures var (u, other) := (Uncross(b, added), Opposite(added));
            && u.On(added) == b.On(added)
            && forall p :: Volume(u.On(other), p)
                           == if Beyond(added, b.On(added), price, p) then Volume(b.On(other), p) else 0
  {
    var (u, other) := (Uncross(b, added), Opposite(added));
    BestAreSets(b);
    if b.bid != map[] && b.ask != map[] {
      assert MinOf(b.ask.Keys) in b.ask && MaxOf(b.bid.Keys) in b.bid;
      forall p
        ensures Volume(u.On(other), p) == if Beyond(added, b.On(added), price, p) then Volume(b.On(other), p) else 0
      {
        if p in b.On(other) {
          if added == Bid {
            LowAskClear(b.ask.Keys, p, MaxOf(b.bid.Keys));
          } else {
            LowBidClear(b.bid.Keys, p, MinOf(b.ask.Keys));
          }
        }
      }
    }
  }

  /** An add with cutting on, for prices below 2^31: its own side keeps every level and gains the size at
      the price; the other side keeps exactly the levels strictly beyond the best price of the own side. */
  lemma CuttingAddVolumes(b: Book, o: Event)
    requires !IsDelete(o) && LowPrices(b) && LowOrder(o)
    ensures var (u, side) := (Updated(b, o, true), SideOf(o));
            && (forall p :: Volume(u.On(side), p)
                            == if p == o.price then (Volume(b.On(side), p) + o.size) % TWO_TO_32
                               else Volume(b.On(side), p))
            && (forall p :: Volume(u.On(Opposite(side)), p)
                            == if Beyond(side, b.On(side), o.price, p) then Volume(b.On(Opposite(side)), p) else 0)
  {
    var side := SideOf(o);
    var touched := SetLevel(b, side, o.price, LevelAfter(Volume(b.On(side), o.price), o));
    LowUncrossVolumes(touched, side, o.price);
    SweepKeepsVolumes(Uncross(touched, side));
    forall p
      ensures Beyond(side, touched.On(side), o.price, p) <==> Beyond(side, b.On(side), o.price, p)
    {
      BeyondAlike(side, b.On(side), touched.On(side), o.price, p);
    }
  }

  /** A bid of 3 at 101 takes out the ask at 100 and stays. */
  lemma BidTakesOutAsk()
    ensures Updated(Book(map[], map[100 := 5]), Event(1, 101, 3, 0), true) == Book(map[101 := 3], map[])
  {
    var b, o := Book(map[], map[100 := 5]), Event(1, 101, 3, 0);
    var u := Updated(b, o, true);
    CuttingAddVolumes(b, o);
    assert forall p :: Volume(u.bid, p) == if p == 101 then 3 else 0;
    assert forall p :: Volume(u.ask, p) == 0 by {
      assert forall p :: Beyond(Bid, b.bid, 101, p) ==> p !in b.ask;
    }
    VolumesAreBook(u, Book(map[101 := 3], map[]));
  }

  lemma VolumesAreBook(a: Book, b: Book)
    requires NonZero(a.bid) == a.bid && NonZero(a.ask) == a.ask && NonZero(b.bid) == b.bid && NonZero(b.ask) == b.ask
    requires forall p :: Volume(a.bid, p) == Volume(b.bid, p)
    requires forall p :: Volume(a.ask, p) == Volume(b.ask, p)
    ensures a == b
  {
    VolumesAreLevels(a.bid, b.bid);
    VolumesAreLevels(a.ask, b.ask);
  }

  lemma VolumesAreLevels(a: Levels, b: Levels)
    requires NonZero(a) == a && NonZero(b) == b && forall p :: Volume(a, p) == Volume(b, p)
    ensures a == b
  {
    forall p
      ensures p in a <==> p in b
      ensures p in a ==> a[p] == b[p]
    {
      assert Volume(a, p) == Volume(b, p);
      assert p in a <==> p in NonZero(a);
      assert p in b <==> p in NonZero(b);
    }
  }

  // ------------------------------------------------------ uncrossing over a day

  /** Book and the flag raised when trading has shown an uncrossed book once. */
  datatype DayState = DayState(book: Book, uncrossedAfterOpen: bool)

  datatype Session = Session(open: int, close: int) {
    predicate Trading(msecs: int) {
      open < msecs < close
    }
  }

  function DayStep(s: DayState, o: Event, session: Session): DayState {
    var book := Updated(s.book, o, s.uncrossedAfterOpen && session.Trading(o.msecs));
    DayState(book, s.uncrossedAfterOpen || (session.Trading(o.msecs) && !Inverted(book)))
  }

  function Day(orders: seq<Event>, session: Session): DayState {
    if orders == [] then DayState(EMPTY_BOOK, false)
    else DayStep(Day(orders[..|orders| - 1], session), orders[|orders| - 1], session)
  }

  /** Trading lies strictly between open and close. */
  lemma TradingHours(s: Session, msecs: int)
    ensures s.Trading(msecs) <==> s.open + 1 <= msecs <= s.close - 1
  {
  }

  /** Uncrossing is switched on by an order of the trading hours that leaves an empty side or, below 2^31,
      every ask above every bid. */
  lemma UncrossingStartsIff(s: DayState, o: Event, session: Session)
    requires LowPrices(Updated(s.book, o, false)) && !s.uncrossedAfterOpen
    ensures var t := DayStep(s, o, session);
            && t.book == Updated(s.book, o, false)
            && (t.uncrossedAfterOpen
                <==> session.open < o.msecs < session.close
                     && forall p, q :: p in t.book.ask && q in t.book.bid ==> p > q)
  {
    LowPricesAreSeen(Updated(s.book, o, false));
    CrossedMeans(Updated(s.book, o, false));
  }

  /** Before uncrossing is on, and outside trading, an order changes the volume at its own price only. */
  lemma NoCutOutsideTrading(s: DayState, o: Event, session: Session, side: Side, p: int)
    requires !s.uncrossedAfterOpen || o.msecs <= session.open || o.msecs >= session.close
    requires side != SideOf(o) || p != o.price
    ensures Volume(DayStep(s, o, session).book.On(side), p) == Volume(s.book.On(side), p)
    ensures o.msecs <= session.open || o.msecs >= session.close ==>
              DayStep(s, o, session).uncrossedAfterOpen == s.uncrossedAfterOpen
  {
    PlainOrderVolumes(s.book, o, false);
  }

  ghost predicate InTimeOrder(orders: seq<Event>) {
    forall i, j :: 0 <= i < j < |orders| ==> orders[i].msecs <= orders[j].msecs
  }

  lemma UpdatedIsLow(b: Book, o: Event, cut: bool)
    requires LowPrices(b) && LowOrder(o)
    ensures LowPrices(Updated(b, o, cut))
  {
    var side := SideOf(o);
    UncrossOnly(SetLevel(b, side, o.price, LevelAfter(Volume(b.On(side), o.price), o)), side);
  }

  lemma PartOfUncrossed(b: Book, r: Book)
    requires !Crossed(b) && r.bid.Keys <= b.bid.Keys && r.ask.Keys <= b.ask.Keys
    ensures !Crossed(r)
  {
    CrossedMeans(b);
    CrossedMeans(r);
  }

  lemma SweptLevel(b: Book, side: Side, price: int, v: int)
    requires Sweep(b) == b && v != 0
    ensures Sweep(SetLevel(b, side, price, v)) == SetLevel(b, side, price, v)
  {
    var t := SetLevel(b, side, price, v);
    assert forall p :: p in b.bid ==> p in NonZero(b.bid);
    assert forall p :: p in b.ask ==> p in NonZero(b.ask);
    SameMap(NonZero(t.bid), t.bid);
    SameMap(NonZero(t.ask), t.ask);
  }

  /** A price of one side and the best price of the other straddle 2^31. */
  predicate Across(b: Book, side: Side, price: int) {
    BestAreSets(b);
    if side == Bid then b.ask != map[] && MinOf(b.ask.Keys) < HALF <= price
    else b.bid != map[] && price < HALF <= MaxOf(b.bid.Keys)
  }

  /** The order leaves volume at a price across 2^31 from the best price of the other side. */
  predicate Hides(b: Book, o: Event) {
    && !IsDelete(o)
    && LevelAfter(Volume(b.On(SideOf(o)), o.price), o) != 0
    && Across(b, SideOf(o), o.price)
  }

  /** A changed level makes the best prices straddle exactly when it is across 2^31 from the best price of
      the other side. */
  lemma LevelStraddlesIff(b: Book, side: Side, price: int, v: int)
    requires UnsignedBook(b) && !Straddles(b)
    ensures Straddles(SetLevel(b, side, price, v)) <==> Across(b, side, price)
  {
    var t := SetLevel(b, side, price, v);
    BestAreSets(b);
    BestAreSets(t);
    if side == Bid {
      BestBidWith(b.bid.Keys, t.bid.Keys, price);
    } else {
      BestAskWith(b.ask.Keys, t.ask.Keys, price);
    }
  }

  lemma BestBidWith(bids: set<int>, more: set<int>, price: int)
    requires more == bids + {price}
    ensures MaxOf(more) == if bids != {} && MaxOf(bids) > price then MaxOf(bids) else price
  {
    MaxIs(more, if bids != {} && MaxOf(bids) > price then MaxOf(bids) else price);
  }

  lemma BestAskWith(asks: set<int>, more: set<int>, price: int)
    requires more == asks + {price}
    ensures MinOf(more) == if asks != {} && MinOf(asks) < price then MinOf(asks) else price
  {
    MinIs(more, if asks != {} && MinOf(asks) < price then MinOf(asks) else price);
  }

  lemma AddCrossesIff(b: Book, o: Event)
    requires !IsDelete(o) && UnsignedBook(b) && UnsignedOrder(o) && Sweep(b) == b && !Crossed(b)
    ensures Crossed(Updated(b, o, true)) <==> Hides(b, o)
  {
    var side := SideOf(o);
    var v := LevelAfter(Volume(b.On(side), o.price), o);
    var touched := SetLevel(b, side, o.price, v);
    UncrossOnly(touched, side);
    DeceivesIff(b);
    LevelStraddlesIff(b, side, o.price, v);
    DeceivesIff(touched);
    if v == 0 {
      PartOfUncrossed(b, Updated(b, o, true));
    } else if Deceives(touched) {
      UncrossedLooksIt(touched, side);
      SweptLevel(b, side, o.price, v);
    } else {
      CutLeavesCrossedIff(touched, side);
      PartOfUncrossed(Uncross(touched, side), Updated(b, o, true));
    }
  }

  /** A delete keeps an uncrossed book uncrossed; an add that may cut crosses it exactly when it leaves
      volume at a price across 2^31 from the best price of the other side. */
  lemma UpdatedStaysUncrossedIff(b: Book, o: Event, cut: bool)
    requires (cut || IsDelete(o)) && UnsignedBook(b) && UnsignedOrder(o) && Sweep(b) == b && !Crossed(b)
    ensures Crossed(Updated(b, o, cut)) <==> Hides(b, o)
  {
    if IsDelete(o) {
      PartOfUncrossed(b, Updated(b, o, cut));
    } else {
      AddCrossesIff(b, o);
    }
  }

  /** At 2^31 a price reads as negative: the best bid hides that the book is crossed, and deleting it
      makes an order book look inverted that did not before. */
  lemma HighPricesDeceive()
    ensures var b := Book(map[200 := 1, HALF := 1], map[150 := 1]);
            && UnsignedBook(b) && Crossed(b) && !Inverted(b)
            && Inverted(Updated(b, Event(0, HALF, 1, 1), true))
  {
    var b := Book(map[200 := 1, HALF := 1], map[150 := 1]);
    assert b.bid.Keys == {200, HALF} && b.ask.Keys == {150};
    MaxIs({200, HALF}, HALF);
    MinIs({150}, 150);
    var u := Updated(b, Event(0, HALF, 1, 1), true);
    assert u.bid.Keys == {200} && u.ask.Keys == {150};
    MaxIs({200}, 200);
  }

  ghost predicate AllUnsigned(orders: seq<Event>) {
    forall i :: 0 <= i < |orders| ==> UnsignedOrder(orders[i])
  }

  ghost predicate AllLow(orders: seq<Event>) {
    forall i :: 0 <= i < |orders| ==> LowOrder(orders[i])
  }

  lemma UpdatedIsUnsigned(b: Book, o: Event, cut: bool)
    requires UnsignedBook(b) && UnsignedOrder(o)
    ensures UnsignedBook(Updated(b, o, cut)) && Sweep(Updated(b, o, cut)) == Updated(b, o, cut)
  {
    var side := SideOf(o);
    var touched := SetLevel(b, side, o.price, LevelAfter(Volume(b.On(side), o.price), o));
    UncrossOnly(touched, side);
    var u := Updated(b, o, cut);
    SameMap(NonZero(u.bid), u.bid);
    SameMap(NonZero(u.ask), u.ask);
  }

  lemma {:induction false} DayIsSwept(orders: seq<Event>, session: Session)
    requires AllUnsigned(orders)
    ensures var b := Day(orders, session).book; UnsignedBook(b) && Sweep(b) == b
    ensures AllLow(orders) ==> LowPrices(Day(orders, session).book)
  {
    if orders != [] {
      var s, o := Day(orders[..|orders| - 1], session), orders[|orders| - 1];
      var cut := s.uncrossedAfterOpen && session.Trading(o.msecs);
      DayIsSwept(orders[..|orders| - 1], session);
      UpdatedIsUnsigned(s.book, o, cut);
      if AllLow(orders) {
        UpdatedIsLow(s.book, o, cut);
      }
    }
  }

  /** Uncrossing is on and the close has not been reached by the last of these orders. */
  ghost predicate Watched(orders: seq<Event>, session: Session) {
    Day(orders, session).uncrossedAfterOpen && orders != [] && orders[|orders| - 1].msecs < session.close
  }

  ghost predicate UncrossedAt(orders: seq<Event>, session: Session, n: nat)
    requires n <= |orders|
  {
    Watched(orders[..n], session) ==> !Crossed(Day(orders[..n], session).book)
  }

  /** Before an order: while uncrossing is on it does not hide a crossing, and at the order that may switch
      it on the best prices it leads to do not straddle 2^31. */
  predicate SafeOrder(s: DayState, o: Event, session: Session) {
    if s.uncrossedAfterOpen then o.msecs < session.close ==> !Hides(s.book, o)
    else session.Trading(o.msecs) ==> !Straddles(Updated(s.book, o, false))
  }

  ghost predicate SafeAt(orders: seq<Event>, session: Session, n: nat)
    requires n < |orders|
  {
    SafeOrder(Day(orders[..n], session), orders[n], session)
  }

  /** Uncrossing starts after the open and, in time order, goes on until the close. */
  lemma {:induction false} WatchedSinceOpen(orders: seq<Event>, session: Session)
    requires InTimeOrder(orders)
    ensures Day(orders, session).uncrossedAfterOpen ==> orders != [] && orders[|orders| - 1].msecs > session.open
  {
    if orders != [] {
      var front := orders[..|orders| - 1];
      WatchedSinceOpen(front, session);
      if Day(front, session).uncrossedAfterOpen {
        assert orders[|front| - 1].msecs <= orders[|orders| - 1].msecs;
      }
    }
  }

  lemma OneOrderOfTheDayIff(front: seq<Event>, o: Event, session: Session)
    requires AllUnsigned(front) && UnsignedOrder(o) && InTimeOrder(front + [o])
    requires Watched(front, session) ==> !Crossed(Day(front, session).book)
    ensures (Watched(front + [o], session) ==> !Crossed(Day(front + [o], session).book))
            <==> SafeOrder(Day(front, session), o, session)
  {
    var orders, s := front + [o], Day(front, session);
    assert orders[..|orders| - 1] == front && orders[|orders| - 1] == o;
    WatchedSinceOpen(orders, session);
    WatchedSinceOpen(front, session);
    DayIsSwept(front, session);
    if s.uncrossedAfterOpen {
      assert front[|front| - 1] == orders[|front| - 1];
      if o.msecs < session.close {
        UpdatedStaysUncrossedIff(s.book, o, true);
      }
    } else {
      UpdatedIsUnsigned(s.book, o, false);
      DeceivesIff(Updated(s.book, o, false));
    }
  }

  ghost predicate AllUncrossed(orders: seq<Event>, session: Session, n: nat)
    requires n <= |orders|
  {
    forall k: nat {:trigger UncrossedAt(orders, session, k)} :: k <= n ==> UncrossedAt(orders, session, k)
  }

  ghost predicate AllSafe(orders: seq<Event>, session: Session, n: nat)
    requires n <= |orders|
  {
    forall k: nat {:trigger SafeAt(orders, session, k)} :: k < n ==> SafeAt(orders, session, k)
  }

  lemma OneMoreOfBoth(orders: seq<Event>, session: Session, n: nat)
    requires 0 < n <= |orders|
    ensures AllUncrossed(orders, session, n) <==> AllUncrossed(orders, session, n - 1) && UncrossedAt(orders, session, n)
    ensures AllSafe(orders, session, n) <==> AllSafe(orders, session, n - 1) && SafeAt(orders, session, n - 1)
  {
  }

  lemma NextOrderIff(orders: seq<Event>, session: Session, n: nat)
    requires InTimeOrder(orders) && AllUnsigned(orders) && 0 < n <= |orders| && UncrossedAt(orders, session, n - 1)
    ensures UncrossedAt(orders, session, n) <==> SafeAt(orders, session, n - 1)
  {
    assert orders[..n] == orders[..n - 1] + [orders[n - 1]];
    OneOrderOfTheDayIff(orders[..n - 1], orders[n - 1], session);
  }

  /** Over every day in time order: from the first moment after the open at which the book does not look
      inverted until the close no book is crossed, exactly when every order is safe when it arrives. */
  lemma {:induction false} NeverCrossedIff(orders: seq<Event>, session: Session, n: nat)
    requires InTimeOrder(orders) && AllUnsigned(orders) && n <= |orders|
    ensures AllUncrossed(orders, session, n) <==> AllSafe(orders, session, n)
  {
    if n == 0 {
      assert UncrossedAt(orders, session, 0);
    } else {
      NeverCrossedIff(orders, session, n - 1);
      OneMoreOfBoth(orders, session, n);
      if AllUncrossed(orders, session, n - 1) {
        assert UncrossedAt(orders, session, n - 1);
        NextOrderIff(orders, session, n);
      }
    }
  }

  lemma LowOrderIsSafe(s: DayState, o: Event, session: Session)
    requires LowPrices(s.book) && LowOrder(o)
    ensures SafeOrder(s, o, session)
  {
    BestAreSets(s.book);
    var u := Updated(s.book, o, false);
    UpdatedIsLow(s.book, o, false);
    BestAreSets(u);
    assert s.book.bid != map[] ==> MaxOf(s.book.bid.Keys) in s.book.bid;
    assert u.bid != map[] ==> MaxOf(u.bid.Keys) in u.bid;
  }

  /** With prices below 2^31 that is every day. */
  lemma NeverCrossedWhileTrading(orders: seq<Event>, session: Session)
    requires InTimeOrder(orders) && AllLow(orders)
    ensures Watched(orders, session) ==> !Crossed(Day(orders, session).book)
  {
    forall k: nat | k < |orders|
      ensures SafeAt(orders, session, k)
    {
      DayIsSwept(orders[..k], session);
      LowOrderIsSafe(Day(orders[..k], session), orders[k], session);
    }
    NeverCrossedIff(orders, session, |orders|);
    assert UncrossedAt(orders, session, |orders|);
    assert orders[..|orders|] == orders;
  }

  /** An ask at 150 and a bid at 2^31: uncrossing is switched on by a crossed book. */
  lemma HighPricesHideADay()
    ensures var (orders, session) := ([Event(1, 150, 1, 2), Event(2, HALF, 1, 0)], Session(0, 10));
            InTimeOrder(orders) && AllUnsigned(orders) && Watched(orders, session) && Crossed(Day(orders, session).book)
  {
    var ask, bid, session := Event(1, 150, 1, 2), Event(2, HALF, 1, 0), Session(0, 10);
    assert [ask, bid][..1] == [ask] && [ask][..0] == [];
    var first := Book(map[], map[150 := 1]);
    assert SetLevel(EMPTY_BOOK, Ask, 150, 1) == first && Sweep(first) == first;
    assert Updated(EMPTY_BOOK, ask, false) == first;
    assert Day([ask], session).book == first;
    CrossedAtHalf(Updated(first, bid, Day([ask], session).uncrossedAfterOpen));
  }

  lemma CrossedAtHalf(b: Book)
    requires b.ask.Keys == {150} && b.bid.Keys == {HALF}
    ensures Crossed(b) && !Inverted(b)
  {
    MinIs({150}, 150);
    MaxIs({HALF}, HALF);
  }
}
