/** What one order of the cross removal cuts, generates, writes and holds back (source/src/jl_lib/Book.cpp,
    remove_crosses). */
module CrossCuts {
  import opened IntSets
  import opened OrderBook
  import opened BookUpdate
  import opened BookDiff
  import opened CrossRemoval

  // ------------------------------------------------------------- which levels are cut

  /** No level of a side lies on the wrong side of price p. */
  ghost predicate AtOrBeyond(side: Side, levels: Levels, p: int) {
    if side == Bid then forall q :: q in levels ==> p >= q else forall q :: q in levels ==> p <= q
  }

  /** Below 2^31 the next level cut is the most crossed one, and it is not at or beyond the other side. */
  lemma BestIsCrossed(b: Book, added: Side)
    requires LowPrices(b) && NegativeSpread(b)
    ensures var p := Best(b, added);
            && !AtOrBeyond(added, b.On(added), p)
            && forall q :: q in b.On(Opposite(added)) ==> if added == Bid then p <= q else p >= q
  {
    BestAreSets(b);
    assert MinOf(b.ask.Keys) in b.ask && MaxOf(b.bid.Keys) in b.bid;
  }

  lemma NothingCrossedLeft(b: Book, added: Side)
    requires LowPrices(b) && !NegativeSpread(b)
    ensures forall p :: p in b.On(Opposite(added)) ==> AtOrBeyond(added, b.On(added), p)
  {
    BestAreSets(b);
    if b.bid != map[] && b.ask != map[] {
      assert MinOf(b.ask.Keys) in b.ask && MaxOf(b.bid.Keys) in b.bid;
    }
  }

  /** The smallest cut, for prices below 2^31: the side added to keeps everything, the other side exactly the
      levels at or beyond the best price of the side added to, with their volumes. */
  lemma {:induction false} CutIsSmallest(b: Book, added: Side)
    requires LowPrices(b)
    ensures var (c, other) := (CutBook(b, added), Opposite(added));
            && c.On(added) == b.On(added)
            && (forall p :: p in c.On(other) <==> p in b.On(other) && AtOrBeyond(added, b.On(added), p))
            && (forall p :: p in c.On(other) ==> c.On(other)[p] == b.On(other)[p])
    decreases b.On(Opposite(added)).Keys
  {
    if NegativeSpread(b) {
      BestIsCrossed(b, added);
      CutIsSmallest(WithoutLevel(b, Opposite(added), Best(b, added)), added);
    } else {
      NothingCrossedLeft(b, added);
    }
  }

  /** A delete for the whole of a level of the side. */
  ghost predicate DeletesLevel(o: Event, side: Side, levels: Levels, msecs: int) {
    && o.msecs == msecs && o.kind == (if side == Bid then 1 else 3)
    && o.price in levels && o.size == levels[o.price]
  }

  /** Asks ascend, bids descend. */
  ghost predicate BestFirst(side: Side, orders: seq<Event>) {
    forall i, j :: 0 <= i < j < |orders| ==>
      if side == Bid then orders[i].price > orders[j].price else orders[i].price < orders[j].price
  }

  ghost predicate Names(orders: seq<Event>, p: int) {
    exists i :: 0 <= i < |orders| && orders[i].price == p
  }

  /** The deletes generated: one for the whole of each level that goes, best level first. */
  lemma {:induction false} CutOrdersAre(b: Book, added: Side, msecs: int)
    requires LowPrices(b)
    ensures var (orders, other) := (CutOrders(b, added, msecs), Opposite(added));
            && (forall i :: 0 <= i < |orders| ==> DeletesLevel(orders[i], other, b.On(other), msecs))
            && BestFirst(other, orders)
            && (forall p :: Names(orders, p) <==> p in b.On(other) && !AtOrBeyond(added, b.On(added), p))
    decreases b.On(Opposite(added)).Keys
  {
    var other := Opposite(added);
    if NegativeSpread(b) {
      var o, b' := CutOrder(b, added, msecs), WithoutLevel(b, other, Best(b, added));
      BestIsCrossed(b, added);
      CutOrdersAre(b', added, msecs);
      var rest := CutOrders(b', added, msecs);
      FirstOfCut(o, rest, b, b', added, msecs);
    } else {
      NothingCrossedLeft(b, added);
    }
  }

  lemma FirstOfCut(o: Event, rest: seq<Event>, b: Book, b': Book, added: Side, msecs: int)
    requires var other := Opposite(added);
             && DeletesLevel(o, other, b.On(other), msecs) && b'.On(other) == b.On(other) - {o.price}
             && (forall q :: q in b.On(other) ==> if added == Bid then o.price <= q else o.price >= q)
             && (forall i :: 0 <= i < |rest| ==> DeletesLevel(rest[i], other, b'.On(other), msecs))
             && BestFirst(other, rest)
    ensures var (orders, other) := ([o] + rest, Opposite(added));
            && (forall i :: 0 <= i < |orders| ==> DeletesLevel(orders[i], other, b.On(other), msecs))
            && BestFirst(other, orders)
            && (forall p :: Names(orders, p) <==> p == o.price || Names(rest, p))
  {
    var orders, other := [o] + rest, Opposite(added);
    forall i | 0 < i < |orders|
      ensures DeletesLevel(orders[i], other, b.On(other), msecs)
      ensures if other == Bid then o.price > orders[i].price else o.price < orders[i].price
    {
      assert orders[i] == rest[i - 1] && DeletesLevel(rest[i - 1], other, b'.On(other), msecs);
    }
    forall p
      ensures Names(orders, p) <==> p == o.price || Names(rest, p)
    {
      if p == o.price {
        assert orders[0].price == p;
      }
      if Names(rest, p) {
        var i :| 0 <= i < |rest| && rest[i].price == p;
        assert orders[i + 1].price == p;
      }
      if Names(orders, p) && p != o.price {
        var i :| 0 <= i < |orders| && orders[i].price == p;
        assert rest[i - 1].price == p;
      }
    }
  }

  lemma {:induction false} UncoveredOfConcat(a: seq<Event>, b: seq<Event>, o: Event)
    ensures Uncovered(a + b, o) == Uncovered(a, o) + Uncovered(b, o)
  {
    if a == [] {
      assert a + b == b;
    } else {
      assert (a + b)[1..] == a[1..] + b;
      UncoveredOfConcat(a[1..], b, o);
    }
  }

  /** What an order writes: what was held back, in order, if time has moved on, and then itself; it holds back
      what it does not cover otherwise, followed by what it generates. */
  lemma TakeWrites(s: State, o: Event, session: Session)
    ensures var (t, flushed) := (Take(s, o, session), s.pending != [] && o.msecs > s.last);
            && t.written == s.written + (if flushed then s.pending else []) + [o]
            && (flushed ==> t.pending <= CutOrders(Changed(s.book, o), SideOf(o), o.msecs))
            && (s.pending != [] && o.msecs == s.last ==> Uncovered(s.pending, o) <= t.pending)
            && (o.msecs < s.last ==> s.pending <= t.pending)
  {
    assert s.written + [] == s.written;
  }

  lemma PositiveMeans(b: Book)
    requires LowPrices(b)
    ensures PositiveSpread(b)
            <==> b.bid != map[] && b.ask != map[] && forall p, q :: p in b.ask && q in b.bid ==> p > q
  {
    BestAreSets(b);
    if b.bid != map[] && b.ask != map[] {
      assert MinOf(b.ask.Keys) in b.ask && MaxOf(b.bid.Keys) in b.bid;
    }
  }

  /** Uncrossing is switched on by an order of the trading hours that leaves levels on both sides and, below
      2^31, every ask above every bid; the level just changed counts even if it is empty. */
  lemma UncrossingStartsIff(s: State, o: Event, session: Session)
    requires LowPrices(Changed(s.book, o)) && !s.uncrossed
    ensures var b := Changed(s.book, o);
            Take(s, o, session).uncrossed
            <==> session.open < o.msecs < session.close && b.bid != map[] && b.ask != map[]
                 && forall p, q :: p in b.ask && q in b.bid ==> p > q
  {
    PositiveMeans(Changed(s.book, o));
  }

  /** Before uncrossing is on, and outside trading, an order is written, changes the volume at its own price
      only, and generates nothing. */
  lemma NoCutOutsideTrading(s: State, o: Event, session: Session, side: Side, p: int)
    requires !s.uncrossed || o.msecs <= session.open || o.msecs >= session.close
    requires side != SideOf(o) || p != o.price
    ensures var t := Take(s, o, session);
            && t.pending == Prepare(s, o).pending && t.written == Prepare(s, o).written + [o] && t.last == o.msecs
            && Volume(t.book.On(side), p) == Volume(s.book.On(side), p)
  {
    SweepKeepsVolumes(Changed(s.book, o));
  }

  /** A bid of 1 at 103 cuts the ask at 102 and leaves the one at 110. */
  lemma OnlyTheCrossedAskGoes()
    ensures var b := Book(map[100 := 5, 103 := 1], map[102 := 5, 110 := 7]);
            CutBook(b, Bid) == Book(map[100 := 5, 103 := 1], map[110 := 7]) && CutOrders(b, Bid, 20) == [C1]
  {
    var b, after := Book(map[100 := 5, 103 := 1], map[102 := 5, 110 := 7]), Book(map[100 := 5, 103 := 1], map[110 := 7]);
    assert b.bid.Keys == after.bid.Keys == {100, 103} && b.ask.Keys == {102, 110} && after.ask.Keys == {110};
    MaxIs({100, 103}, 103);
    MinIs({102, 110}, 102);
    MinIs({110}, 110);
    assert WithoutLevel(b, Ask, 102) == after;
    assert CutBook(after, Bid) == after && CutOrders(after, Bid, 20) == [];
  }

  /** What covers a generated delete: the same level and kind, and at least its size. */
  lemma CoveredBy()
    ensures forall o, u :: Covers(o, u) <==> o.price == u.price && o.kind == u.kind && u.size - o.size <= 0
    ensures Uncovered([C1], Event(20, 102, 7, 3)) == [] && Uncovered([C1], Event(20, 102, 3, 3)) == [C1]
  {
  }
}
