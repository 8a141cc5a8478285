/** The order book of the signal library as an object (source/src/jl_lib/Book.cpp). */
module MatchingBook {
  import opened IntSets
  import opened OrderBook
  import opened BookUpdate
  import opened BookDiff
  import CrossRemoval

  method EraseZeros(levels: Levels) returns (swept: Levels)
    ensures swept == NonZero(levels)
  {
    swept := levels;
    var todo := levels.Keys;
    while todo != {}
      invariant todo <= levels.Keys && todo <= swept.Keys <= levels.Keys
      invariant forall p :: p in swept ==> swept[p] == levels[p]
      invariant forall p :: p in levels && p !in todo ==> (p in swept <==> p in NonZero(levels))
    {
      var p := MinOf(todo);
      todo := todo - {p};
      if swept[p] == 0 {
        swept := swept - {p};
      }
    }
    ghost var live := NonZero(levels);
    assert forall p :: p in swept <==> p in live;
    assert swept.Keys == live.Keys;
    assert forall p :: p in swept ==> swept[p] == live[p];
  }

  /** The level an order names: a wrapping add, or a delete that tells whether there was enough. */
  method ChangeLevel(levels: Levels, order: Event) returns (changed: Levels, enough: bool)
    requires UnsignedOrder(order)
    ensures changed.Keys == levels.Keys + {order.price}
    ensures forall p :: p in levels && p != order.price ==> changed[p] == levels[p]
    ensures var v := Volume(levels, order.price);
            && (IsDelete(order) && v >= order.size ==> changed[order.price] == v - order.size)
            && (IsDelete(order) && v < order.size ==> changed[order.price] == 0)
            && (!IsDelete(order) && 0 <= v < TWO_TO_32 - order.size ==> changed[order.price] == v + order.size)
    ensures changed == levels[order.price := LevelAfter(Volume(levels, order.price), order)]
    ensures enough <==> !IsDelete(order) || order.size <= Volume(levels, order.price)
  {
    var thevol := Volume(levels, order.price);
    if order.kind % 2 == 0 {
      changed, enough := levels[order.price := (thevol + order.size) % TWO_TO_32], true;
    } else {
      enough := order.size <= thevol;
      changed := levels[order.price := if thevol >= order.size then thevol - order.size else 0];
    }
  }

  // ------------------------------------------------- the loops that uncross a book

  ghost predicate PartOf(levels: Levels, all: Levels) {
    levels.Keys <= all.Keys && forall p :: p in levels ==> levels[p] == all[p]
  }

  /** `left` are the asks behind some point, and those before it all reach the bid. */
  ghost predicate OnlyBehind(asks: set<int>, left: set<int>, bid: int) {
    && left <= asks
    && (forall p, q :: p in left && q in asks && p <= q ==> q in left)
    && (forall p :: p in asks && p !in left ==> ToInt(p) <= ToInt(bid))
  }

  ghost predicate OnlyBefore(bids: set<int>, left: set<int>, ask: int) {
    && left <= bids
    && (forall p, q :: p in left && q in bids && p >= q ==> q in left)
    && (forall p :: p in bids && p !in left ==> ToInt(p) >= ToInt(ask))
  }

  lemma OneAskLess(asks: set<int>, left: set<int>, bid: int)
    requires OnlyBehind(asks, left, bid) && left != {} && ToInt(MinOf(left)) <= ToInt(bid)
    ensures OnlyBehind(asks, left - {MinOf(left)}, bid)
  {
  }

  lemma OneBidLess(bids: set<int>, left: set<int>, ask: int)
    requires OnlyBefore(bids, left, ask) && left != {} && ToInt(MaxOf(left)) >= ToInt(ask)
    ensures OnlyBefore(bids, left - {MaxOf(left)}, ask)
  {
  }

  lemma AsksLeft(asks: set<int>, left: set<int>, bid: int)
    requires OnlyBehind(asks, left, bid) && (left != {} ==> ToInt(MinOf(left)) > ToInt(bid))
    ensures forall p :: p in asks ==> (p in left <==> AskClear(asks, p, bid))
  {
    if left != {} {
      var m := MinOf(left);
      assert forall p :: p in left ==> m in asks && m <= p;
    }
  }

  lemma BidsLeft(bids: set<int>, left: set<int>, ask: int)
    requires OnlyBefore(bids, left, ask) && (left != {} ==> ToInt(MaxOf(left)) < ToInt(ask))
    ensures forall p :: p in bids ==> (p in left <==> BidClear(bids, p, ask))
  {
    if left != {} {
      var m := MaxOf(left);
      assert forall p :: p in left ==> m in bids && m >= p;
    }
  }

  /** Best asks go while they reach the bid; what stays is what lies behind the first that does not. */
  method EraseAsks(asks: Levels, bid: int) returns (left: Levels)
    ensures PartOf(left, asks)
    ensures forall p :: p in asks ==> (p in left.Keys <==> AskClear(asks.Keys, p, bid))
  {
    left := asks;
    while left.Keys != {} && ToInt(MinOf(left.Keys)) <= ToInt(bid)
      invariant PartOf(left, asks) && OnlyBehind(asks.Keys, left.Keys, bid)
      decreases left.Keys
    {
      var best := MinOf(left.Keys);
      OneAskLess(asks.Keys, left.Keys, bid);
      left := left - {best};
    }
    AsksLeft(asks.Keys, left.Keys, bid);
  }

  method EraseBids(bids: Levels, ask: int) returns (left: Levels)
    ensures PartOf(left, bids)
    ensures forall p :: p in bids ==> (p in left.Keys <==> BidClear(bids.Keys, p, ask))
  {
    left := bids;
    while left.Keys != {} && ToInt(MaxOf(left.Keys)) >= ToInt(ask)
      invariant PartOf(left, bids) && OnlyBefore(bids.Keys, left.Keys, ask)
      decreases left.Keys
    {
      var best := MaxOf(left.Keys);
      OneBidLess(bids.Keys, left.Keys, ask);
      left := left - {best};
    }
    BidsLeft(bids.Keys, left.Keys, ask);
  }

  lemma AsksOfUncross(b: Book, left: Levels)
    requires b.bid != map[] && b.bid.Keys != {} && PartOf(left, b.ask)
    requires forall p :: p in b.ask ==> (p in left.Keys <==> AskClear(b.ask.Keys, p, MaxOf(b.bid.Keys)))
    ensures Book(b.bid, left) == Uncross(b, Bid)
  {
    var u := Uncross(b, Bid);
    assert left.Keys == u.ask.Keys;
    SameMap(left, u.ask);
  }

  lemma BidsOfUncross(b: Book, left: Levels)
    requires b.ask != map[] && b.ask.Keys != {} && PartOf(left, b.bid)
    requires forall p :: p in b.bid ==> (p in left.Keys <==> BidClear(b.bid.Keys, p, MinOf(b.ask.Keys)))
    ensures Book(left, b.ask) == Uncross(b, Ask)
  {
    var u := Uncross(b, Ask);
    assert left.Keys == u.bid.Keys;
    SameMap(left, u.bid);
  }

  class BookOfOrders {
    const uncross: bool
    const session: Session
    var uncrossedAfterOpen: bool
    var msec: int
    var bidvol: Levels
    var askvol: Levels

    constructor (uncross: bool, session: Session)
      ensures this.uncross == uncross && this.session == session
      ensures Contents() == EMPTY_BOOK && !uncrossedAfterOpen
    {
      this.uncross, this.session := uncross, session;
      uncrossedAfterOpen, msec, bidvol, askvol := false, 0, map[], map[];
    }

    ghost function Contents(): Book
      reads `bidvol, `askvol
    {
      Book(bidvol, askvol)
    }

    /** is_inverted(): below 2^31 it tells whether some ask is at or below some bid. */
    method IsInverted() returns (inverted: bool)
      ensures inverted == Inverted(Contents())
      ensures LowPrices(Contents()) ==> (inverted <==> exists p, q :: p in askvol && q in bidvol && p <= q)
    {
      BestAreSets(Contents());
      inverted := bidvol != map[] && askvol != map[] && ToInt(MinOf(askvol.Keys)) <= ToInt(MaxOf(bidvol.Keys));
      CrossedMeans(Contents());
      if LowPrices(Contents()) {
        LowPricesAreSeen(Contents());
      }
    }

    /** One order of the log; the result tells whether a delete asked for more than there was. */
    method Update(order: Event) returns (enough: bool)
      requires UnsignedOrder(order)
      modifies this
      ensures msec == order.msecs
      ensures Contents() == Updated(old(Contents()), order,
                                    uncross && old(uncrossedAfterOpen) && session.Trading(order.msecs))
      ensures uncrossedAfterOpen
              == (old(uncrossedAfterOpen) || (session.Trading(order.msecs) && !Inverted(Contents())))
      ensures uncross ==> DayState(Contents(), uncrossedAfterOpen)
                          == DayStep(DayState(old(Contents()), old(uncrossedAfterOpen)), order, session)
      ensures enough <==> !IsDelete(order) ||
                          order.size <= Volume(old(Contents()).On(SideOf(order)), order.price)
    {
      msec := order.msecs;
      var trading := session.Trading(order.msecs);
      if (order.kind / 2) % 2 == 0 {
        bidvol, enough := ChangeLevel(bidvol, order);
        if order.kind % 2 == 0 && uncross && uncrossedAfterOpen && trading {
          CutAsks();
        }
      } else {
        askvol, enough := ChangeLevel(askvol, order);
        if order.kind % 2 == 0 && uncross && uncrossedAfterOpen && trading {
          CutBids();
        }
      }
      RemoveZeros();
      if !uncrossedAfterOpen && trading {
        var inverted := IsInverted();
        uncrossedAfterOpen := !inverted;
      }
    }

    /** Erase the best ask while the book looks inverted. */
    method CutAsks()
      modifies `askvol
      ensures Contents() == Uncross(old(Contents()), Bid)
    {
      BestAreSets(Contents());
      if bidvol != map[] {
        var left := EraseAsks(askvol, MaxOf(bidvol.Keys));
        AsksOfUncross(Contents(), left);
        askvol := left;
      }
    }

    /** Erase the best bid while the book looks inverted. */
    method CutBids()
      modifies `bidvol
      ensures Contents() == Uncross(old(Contents()), Ask)
    {
      BestAreSets(Contents());
      if askvol != map[] {
        var left := EraseBids(bidvol, MinOf(askvol.Keys));
        BidsOfUncross(Contents(), left);
        bidvol := left;
      }
    }

    /** remove_crosses(): rewrite a log with deletes for the levels that new orders cross. */
    method RemoveCrosses(orders: seq<Event>) returns (written: seq<Event>)
      requires forall o :: o in orders ==> UnsignedOrder(o)
      modifies `bidvol, `askvol, `msec
      ensures written == CrossRemoval.Run(orders, session).written
      ensures Contents() == CrossRemoval.Run(orders, session).book && msec == 0
    {
      bidvol, askvol, msec := map[], map[], 0;
      var state := CrossRemoval.FRESH;
      for i := 0 to |orders|
        invariant state == CrossRemoval.Run(orders[..i], session) && Contents() == state.book && msec == 0
      {
        assert orders[i] in orders;
        state := CrossRemoval.OneOrder(state, orders[i], session);
        bidvol, askvol := state.book.bid, state.book.ask;
        assert orders[..i + 1][..i] == orders[..i] && orders[..i + 1][i] == orders[i];
      }
      assert orders[..|orders|] == orders;
      written := state.written;
    }

    /** The orders that turn this book into newBook, all stamped with the given time. Looking a price
        up creates an empty level in the book asked, on either side of the comparison. */
    method GetBookDiff(newBook: BookOfOrders, msecs: int) returns (orders: seq<Event>)
      requires UnsignedBook(Contents()) && UnsignedBook(newBook.Contents())
      modifies `bidvol, `askvol, newBook`bidvol, newBook`askvol
      ensures Contents() == Sweep(old(Contents()))
      ensures newBook.Contents() == Sweep(old(newBook.Contents()))
      ensures ApplyAll(Contents(), orders) == newBook.Contents()
      ensures IsDiff(orders, Contents(), newBook.Contents(), msecs)
      ensures InListing(Contents(), orders)
      ensures forall o :: o in orders ==> Worth(Contents(), old(if newBook == this then Sweep(Contents()) else newBook.Contents()), o)
    {
      RemoveZeros();
      ghost var b, t := Contents(), newBook.Contents();
      assert Sweep(b) == b by { SweepTwice(old(Contents())); }
      var own, other;
      orders, own, other := DiffBooks(Book(bidvol, askvol), Book(newBook.bidvol, newBook.askvol), msecs);
      bidvol, askvol := own.bid, own.ask;
      newBook.bidvol, newBook.askvol := other.bid, other.ask;
      RemoveZeros();
      newBook.RemoveZeros();
      SameNonZero(own.bid, b.bid);
      SameNonZero(own.ask, b.ask);
      SameNonZero(other.bid, t.bid);
      SameNonZero(other.ask, t.ask);
    }

    method RemoveZeros()
      modifies `bidvol, `askvol
      ensures Contents() == Sweep(old(Contents()))
    {
      bidvol := EraseZeros(bidvol);
      askvol := EraseZeros(askvol);
    }
  }
}
