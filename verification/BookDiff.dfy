/** The orders that turn one book into another (source/src/jl_lib/Book.cpp, get_book_diff). */
module BookDiff {
  import opened IntSets
  import opened OrderBook
  import opened BookUpdate

  // --------------------------------------------------------- applying a list of orders

  function ApplyAll(b: Book, orders: seq<Event>): Book {
    if orders == [] then b
    else Updated(ApplyAll(b, orders[..|orders| - 1]), orders[|orders| - 1], false)
  }

  /** The volume v of one level after the orders that hit it. */
  function LevelAfterAll(v: int, orders: seq<Event>, side: Side, price: int): int {
    if orders == [] then v
    else
      var o := orders[|orders| - 1];
      var before := LevelAfterAll(v, orders[..|orders| - 1], side, price);
      if Hits(o, side, price) then LevelAfter(before, o) else before
  }

  lemma LevelAfterOneMore(v: int, orders: seq<Event>, o: Event, side: Side, price: int)
    ensures var before := LevelAfterAll(v, orders, side, price);
            LevelAfterAll(v, orders + [o], side, price)
            == if Hits(o, side, price) then LevelAfter(before, o) else before
  {
    assert (orders + [o])[..|orders|] == orders;
  }

  lemma {:induction false} ApplyAllByLevel(b: Book, orders: seq<Event>, side: Side, price: int)
    requires Sweep(b) == b
    ensures Sweep(ApplyAll(b, orders)) == ApplyAll(b, orders)
    ensures Volume(ApplyAll(b, orders).On(side), price)
            == LevelAfterAll(Volume(b.On(side), price), orders, side, price)
  {
    if orders != [] {
      ApplyAllByLevel(b, orders[..|orders| - 1], side, price);
      SweepTwice(ApplyAll(b, orders));
    }
  }

  lemma SweepTwice(b: Book)
    ensures Sweep(Sweep(b)) == Sweep(b)
  {
    assert NonZero(NonZero(b.bid)) == NonZero(b.bid);
    assert NonZero(NonZero(b.ask)) == NonZero(b.ask);
  }

  lemma SameNonZero(a: Levels, b: Levels)
    requires forall p :: Volume(a, p) == Volume(b, p)
    ensures NonZero(a) == NonZero(b)
  {
    forall p
      ensures p in NonZero(a) <==> p in NonZero(b)
      ensures p in NonZero(a) ==> NonZero(a)[p] == NonZero(b)[p]
    {
      assert Volume(a, p) == Volume(b, p);
    }
  }

  function Touch(levels: Levels, p: int): Levels {
    if p in levels then levels else levels[p := 0]
  }

  function Abs(x: int): int {
    if x < 0 then -x else x
  }

  /** No two orders are for the same level. */
  ghost predicate OnePerLevel(orders: seq<Event>) {
    forall i, j :: 0 <= i < j < |orders| ==>
      SideOf(orders[i]) != SideOf(orders[j]) || orders[i].price != orders[j].price
  }

  ghost predicate SameLevels(a: Levels, b: Levels) {
    forall p :: Volume(a, p) == Volume(b, p)
  }

  /** The orders bring the levels in `done` to their target volume and leave the others alone. */
  ghost predicate Moves(orders: seq<Event>, side: Side, levels: Levels, target: Levels, done: set<int>) {
    forall p :: LevelAfterAll(Volume(levels, p), orders, side, p)
                == if p in done then Volume(target, p) else Volume(levels, p)
  }

  /** Two lists act alike on one side. */
  ghost predicate AlikeOn(side: Side, a: seq<Event>, b: seq<Event>) {
    forall v, p :: LevelAfterAll(v, a, side, p) == LevelAfterAll(v, b, side, p)
  }

  ghost predicate OrdersFit(orders: seq<Event>, side: Side, levels: Levels, target: Levels, prices: set<int>, msecs: int) {
    forall o :: o in orders && SideOf(o) == side ==>
      o.price in prices && o.msecs == msecs && o.size == Abs(Volume(levels, o.price) - Volume(target, o.price))
  }

  /** The type word of an order. */
  function KindOf(side: Side, delete: bool): (kind: int)
    ensures forall e: Event :: e.kind == kind ==> SideOf(e) == side && IsDelete(e) == delete
  {
    (if side == Bid then 0 else 2) + if delete then 1 else 0
  }

  /** At most one order a level, each for the difference at its level. */
  ghost predicate IsDiff(orders: seq<Event>, before: Book, after: Book, msecs: int) {
    && OnePerLevel(orders)
    && forall o :: o in orders ==>
         && o.msecs == msecs
         && o.size == Abs(Volume(before.On(SideOf(o)), o.price) - Volume(after.On(SideOf(o)), o.price))
  }

  /** A pass over one side: from which levels to which, and the prices dealt with. */
  datatype Pass = Pass(side: Side, levels: Levels, target: Levels, done: set<int>)

  /** What a pass has achieved: the levels in `done` are settled by one order each, and the orders listed
      before the pass are all that concerns the other side. */
  ghost predicate Progress(orders0: seq<Event>, orders: seq<Event>, pass: Pass, msecs: int) {
    && Moves(orders, pass.side, pass.levels, pass.target, pass.done)
    && OrdersFit(orders, pass.side, pass.levels, pass.target, pass.done, msecs)
    && OnePerLevel(orders)
    && AlikeOn(Opposite(pass.side), orders, orders0)
    && (forall o :: o in orders && SideOf(o) != pass.side ==> o in orders0)
  }

  lemma MovesOneMore(orders: seq<Event>, o: Event, side: Side, levels: Levels, target: Levels, done: set<int>)
    requires Moves(orders, side, levels, target, done) && o.price !in done && SideOf(o) == side
    requires LevelAfter(Volume(levels, o.price), o) == Volume(target, o.price)
    ensures Moves(orders + [o], side, levels, target, done + {o.price})
  {
    forall p
      ensures LevelAfterAll(Volume(levels, p), orders + [o], side, p)
              == if p in done + {o.price} then Volume(target, p) else Volume(levels, p)
    {
      LevelAfterOneMore(Volume(levels, p), orders, o, side, p);
    }
  }

  lemma AlikeOneMore(orders0: seq<Event>, orders: seq<Event>, o: Event, side: Side)
    requires AlikeOn(side, orders, orders0) && SideOf(o) != side
    ensures AlikeOn(side, orders + [o], orders0)
  {
    forall v, p
      ensures LevelAfterAll(v, orders + [o], side, p) == LevelAfterAll(v, orders0, side, p)
    {
      LevelAfterOneMore(v, orders, o, side, p);
    }
  }

  lemma OnePerLevelMore(orders: seq<Event>, o: Event)
    requires OnePerLevel(orders) && forall u :: u in orders ==> SideOf(u) != SideOf(o) || u.price != o.price
    ensures OnePerLevel(orders + [o])
  {
    forall i | 0 <= i < |orders|
      ensures SideOf(orders[i]) != SideOf(o) || orders[i].price != o.price
    {
      assert orders[i] in orders;
    }
  }

  /** Adding one order for a level that no earlier order hit. */
  lemma OrderSettles(orders0: seq<Event>, orders: seq<Event>, o: Event, pass: Pass, msecs: int)
    requires Progress(orders0, orders, pass, msecs)
    requires o.price !in pass.done && SideOf(o) == pass.side && o.msecs == msecs
    requires LevelAfter(Volume(pass.levels, o.price), o) == Volume(pass.target, o.price)
    requires o.size == Abs(Volume(pass.levels, o.price) - Volume(pass.target, o.price))
    ensures Progress(orders0, orders + [o], pass.(done := pass.done + {o.price}), msecs)
  {
    MovesOneMore(orders, o, pass.side, pass.levels, pass.target, pass.done);
    AlikeOneMore(orders0, orders, o, Opposite(pass.side));
    OnePerLevelMore(orders, o);
  }

  lemma LevelIsSettled(orders0: seq<Event>, orders: seq<Event>, p: int, pass: Pass, msecs: int)
    requires Progress(orders0, orders, pass, msecs)
    requires Volume(pass.levels, p) == Volume(pass.target, p)
    ensures Progress(orders0, orders, pass.(done := pass.done + {p}), msecs)
  {
  }

  /** A pass over one side leaves what an earlier pass achieved on the other. */
  lemma EarlierPass(orders0: seq<Event>, orders1: seq<Event>, orders2: seq<Event>, earlier: Pass, pass: Pass,
                    touched: Levels, msecs: int)
    requires Progress(orders0, orders1, earlier, msecs) && SameLevels(earlier.target, touched)
    requires Progress(orders1, orders2, pass, msecs) && pass.side == Opposite(earlier.side)
    ensures Progress(orders2, orders2, earlier.(target := touched), msecs)
  {
  }

  // ------------------------------------------------------------ the order of the list

  /** Which of the four passes lists a level: first the levels of the book, then those only the new one has. */
  function PassOf(b: Book, side: Side, price: int): int {
    (if price in b.On(side) then 0 else 2) + if side == Bid then 0 else 1
  }

  function RankOf(b: Book, o: Event): int {
    PassOf(b, SideOf(o), o.price)
  }

  /** Earlier passes first; within a pass the greater price, but the asks of the book from the least up. */
  predicate PrecedesLevel(b: Book, o: Event, side: Side, price: int) {
    RankOf(b, o) < PassOf(b, side, price) ||
    (RankOf(b, o) == PassOf(b, side, price) && if RankOf(b, o) == 1 then o.price < price else o.price > price)
  }

  ghost predicate InListing(b: Book, orders: seq<Event>) {
    forall i, j :: 0 <= i < j < |orders| ==> PrecedesLevel(b, orders[i], SideOf(orders[j]), orders[j].price)
  }

  /** An order of size zero is listed only for an empty level that the new book has and this one has not. */
  predicate Worth(b: Book, t: Book, o: Event) {
    o.size > 0 || (!IsDelete(o) && o.price in t.On(SideOf(o)) && o.price !in b.On(SideOf(o)))
  }

  /** A list as the passes up to number r leave it. */
  ghost predicate Tidy(b: Book, t: Book, orders: seq<Event>, r: int) {
    InListing(b, orders) && forall o :: o in orders ==> RankOf(b, o) <= r && Worth(b, t, o)
  }

  ghost predicate AllBefore(b: Book, orders: seq<Event>, side: Side, prices: set<int>) {
    forall o, p :: o in orders && p in prices ==> PrecedesLevel(b, o, side, p)
  }

  lemma TidyOneMore(b: Book, t: Book, orders: seq<Event>, o: Event, r: int)
    requires Tidy(b, t, orders, r) && RankOf(b, o) <= r && Worth(b, t, o)
    requires forall u :: u in orders ==> PrecedesLevel(b, u, SideOf(o), o.price)
    ensures Tidy(b, t, orders + [o], r)
  {
    forall i | 0 <= i < |orders|
      ensures PrecedesLevel(b, orders[i], SideOf(o), o.price)
    {
      assert orders[i] in orders;
    }
  }

  lemma BeforeTheRest(b: Book, orders: seq<Event>, o: Event, side: Side, prices: set<int>, rest: set<int>)
    requires AllBefore(b, orders, side, prices) && rest <= prices
    requires forall p :: p in rest ==> PrecedesLevel(b, o, side, p)
    ensures AllBefore(b, orders, side, rest) && AllBefore(b, orders + [o], side, rest)
  {
  }

  lemma OwnLevelListed(b: Book, t: Book, orders: seq<Event>, o: Event, side: Side, todo: set<int>)
    requires todo <= b.On(side).Keys && o.price in todo && SideOf(o) == side && o.size > 0
    requires forall p :: p in todo ==> if side == Bid then p <= o.price else p >= o.price
    requires Tidy(b, t, orders, if side == Bid then 0 else 1) && AllBefore(b, orders, side, todo)
    ensures Tidy(b, t, orders + [o], if side == Bid then 0 else 1)
    ensures AllBefore(b, orders + [o], side, todo - {o.price})
  {
    TidyOneMore(b, t, orders, o, if side == Bid then 0 else 1);
    BeforeTheRest(b, orders, o, side, todo, todo - {o.price});
  }

  lemma NewLevelListed(b: Book, t: Book, orders: seq<Event>, o: Event, side: Side, todo: set<int>)
    requires o.price in todo && o.price !in b.On(side) && SideOf(o) == side && Worth(b, t, o)
    requires forall p :: p in todo ==> p <= o.price
    requires Tidy(b, t, orders, if side == Bid then 2 else 3) && AllBefore(b, orders, side, todo - b.On(side).Keys)
    ensures Tidy(b, t, orders + [o], if side == Bid then 2 else 3)
    ensures AllBefore(b, orders + [o], side, todo - {o.price} - b.On(side).Keys)
  {
    TidyOneMore(b, t, orders, o, if side == Bid then 2 else 3);
    BeforeTheRest(b, orders, o, side, todo - b.On(side).Keys, todo - {o.price} - b.On(side).Keys);
  }

  /** One level of the book compared with the new book. */
  method DiffLevel(ghost orders0: seq<Event>, orders: seq<Event>, side: Side, price: int, size: int, newSize: int,
                   msecs: int, ghost pass: Pass, ghost todo: set<int>, ghost b: Book, ghost t: Book)
    returns (longer: seq<Event>)
    requires Progress(orders0, orders, pass, msecs) && pass.side == side && price !in pass.done && price in todo
    requires todo <= pass.levels.Keys && pass.levels == b.On(pass.side)
    requires size == Volume(pass.levels, price) && newSize == Volume(pass.target, price)
    requires 0 <= size < TWO_TO_32 && 0 <= newSize < TWO_TO_32
    requires forall p :: p in todo ==> if pass.side == Bid then p <= price else p >= price
    requires Tidy(b, t, orders, if pass.side == Bid then 0 else 1) && AllBefore(b, orders, pass.side, todo)
    ensures Progress(orders0, longer, pass.(done := pass.done + {price}), msecs)
    ensures Tidy(b, t, longer, if pass.side == Bid then 0 else 1) && AllBefore(b, longer, pass.side, todo - {price})
  {
    if size > newSize {
      var o := Event(msecs, price, size - newSize, KindOf(side, true));
      OrderSettles(orders0, orders, o, pass, msecs);
      OwnLevelListed(b, t, orders, o, pass.side, todo);
      longer := orders + [o];
    } else if size < newSize {
      var o := Event(msecs, price, newSize - size, KindOf(side, false));
      OrderSettles(orders0, orders, o, pass, msecs);
      OwnLevelListed(b, t, orders, o, pass.side, todo);
      longer := orders + [o];
    } else {
      LevelIsSettled(orders0, orders, price, pass, msecs);
      longer := orders;
    }
  }

  /** One pass over the levels of a side, bids from the best down, asks from the best up. */
  method DiffLevels(side: Side, levels: Levels, target: Levels, msecs: int, orders0: seq<Event>, ghost b: Book, ghost t: Book)
    returns (orders: seq<Event>, touched: Levels)
    requires Unsigned(levels) && Unsigned(target)
    requires Progress(orders0, orders0, Pass(side, levels, target, {}), msecs)
    requires levels == b.On(side) && Tidy(b, t, orders0, if side == Bid then -1 else 0)
    ensures SameLevels(touched, target) && Unsigned(touched) && touched.Keys == target.Keys + levels.Keys
    ensures Tidy(b, t, orders, if side == Bid then 0 else 1)
    ensures Progress(orders0, orders, Pass(side, levels, target, levels.Keys), msecs)
  {
    orders, touched := orders0, target;
    var todo := levels.Keys;
    ghost var done: set<int> := {};
    while todo != {}
      invariant todo <= levels.Keys && done == levels.Keys - todo
      invariant SameLevels(touched, target) && Unsigned(touched) && touched.Keys == target.Keys + done
      invariant Progress(orders0, orders, Pass(side, levels, target, done), msecs)
      invariant Tidy(b, t, orders, if side == Bid then 0 else 1) && AllBefore(b, orders, side, todo)
    {
      var price := if side == Bid then MaxOf(todo) else MinOf(todo);
      var size, newSize := levels[price], Volume(touched, price);
      touched := Touch(touched, price);
      assert newSize == Volume(target, price);
      orders := DiffLevel(orders0, orders, side, price, size, newSize, msecs, Pass(side, levels, target, done), todo, b, t);
      todo := todo - {price};
      done := done + {price};
    }
    assert done == levels.Keys;
  }

  /** One pass over the levels of the new book, from the greatest price down, for those absent here. */
  method DiffNewLevels(side: Side, levels: Levels, target: Levels, msecs: int, ghost orders0: seq<Event>, orders1: seq<Event>,
                       ghost b: Book, ghost t: Book)
    returns (orders: seq<Event>, touched: Levels)
    requires Unsigned(target) && NonZero(levels) == levels
    requires Progress(orders0, orders1, Pass(side, levels, target, levels.Keys), msecs)
    requires levels == b.On(side) && target.Keys <= t.On(side).Keys + levels.Keys
    requires Tidy(b, t, orders1, if side == Bid then 1 else 2)
    ensures SameLevels(touched, levels)
    ensures Tidy(b, t, orders, if side == Bid then 2 else 3)
    ensures Progress(orders0, orders, Pass(side, levels, target, levels.Keys + target.Keys), msecs)
  {
    orders, touched := orders1, levels;
    var todo := target.Keys;
    ghost var done := levels.Keys;
    while todo != {}
      invariant todo <= target.Keys
      invariant done == levels.Keys + (target.Keys - todo)
      invariant SameLevels(touched, levels)
      invariant Progress(orders0, orders, Pass(side, levels, target, done), msecs)
      invariant Tidy(b, t, orders, if side == Bid then 2 else 3) && AllBefore(b, orders, side, todo - levels.Keys)
    {
      var price := MaxOf(todo);
      var newSize, size := target[price], Volume(touched, price);
      touched := Touch(touched, price);
      assert size == Volume(levels, price);
      if size == 0 {
        assert price !in levels;
        var o := Event(msecs, price, newSize, KindOf(side, false));
        OrderSettles(orders0, orders, o, Pass(side, levels, target, done), msecs);
        NewLevelListed(b, t, orders, o, side, todo);
        orders := orders + [o];
      } else {
        assert done + {price} == done;
      }
      todo := todo - {price};
      done := done + {price};
    }
    assert done == levels.Keys + target.Keys;
  }

  lemma OwnPass(orders0: seq<Event>, orders: seq<Event>, pass: Pass, touched: Levels, msecs: int)
    requires Progress(orders0, orders, pass, msecs) && SameLevels(pass.target, touched)
    ensures Progress(orders, orders, pass.(target := touched), msecs)
  {
  }

  /** Both passes over a side together settle every price. */
  lemma EveryLevelMoved(levels: Levels, touched: Levels, target: Levels, orders: seq<Event>, side: Side,
                        done: set<int>, msecs: int)
    requires Moves(orders, side, levels, touched, done) && OrdersFit(orders, side, levels, touched, done, msecs)
    requires SameLevels(touched, target) && done == levels.Keys + touched.Keys
    ensures forall p :: LevelAfterAll(Volume(levels, p), orders, side, p) == Volume(target, p)
    ensures forall o :: o in orders && SideOf(o) == side ==>
              o.msecs == msecs && o.size == Abs(Volume(levels, o.price) - Volume(target, o.price))
  {
  }

  /** The orders of all four passes carry the one book to the other. */
  lemma Settled(b: Book, touched: Book, t: Book, orders: seq<Event>, msecs: int)
    requires Sweep(b) == b && SameLevels(touched.bid, t.bid) && SameLevels(touched.ask, t.ask)
    requires Progress(orders, orders, Pass(Bid, b.bid, touched.bid, b.bid.Keys + touched.bid.Keys), msecs)
    requires Progress(orders, orders, Pass(Ask, b.ask, touched.ask, b.ask.Keys + touched.ask.Keys), msecs)
    ensures ApplyAll(b, orders) == Sweep(t)
    ensures IsDiff(orders, b, Sweep(t), msecs)
  {
    EveryLevelMoved(b.bid, touched.bid, t.bid, orders, Bid, b.bid.Keys + touched.bid.Keys, msecs);
    EveryLevelMoved(b.ask, touched.ask, t.ask, orders, Ask, b.ask.Keys + touched.ask.Keys, msecs);
    AppliedBook(b, t, orders);
    forall o | o in orders
      ensures o.msecs == msecs
      ensures o.size == Abs(Volume(b.On(SideOf(o)), o.price) - Volume(Sweep(t).On(SideOf(o)), o.price))
    {
      assert Volume(NonZero(t.bid), o.price) == Volume(t.bid, o.price);
      assert Volume(NonZero(t.ask), o.price) == Volume(t.ask, o.price);
    }
  }

  lemma AppliedBook(b: Book, t: Book, orders: seq<Event>)
    requires Sweep(b) == b
    requires forall p :: LevelAfterAll(Volume(b.bid, p), orders, Bid, p) == Volume(t.bid, p)
    requires forall p :: LevelAfterAll(Volume(b.ask, p), orders, Ask, p) == Volume(t.ask, p)
    ensures ApplyAll(b, orders) == Sweep(t)
  {
    var r := ApplyAll(b, orders);
    ApplyAllByLevel(b, orders, Bid, 0);
    forall p
      ensures Volume(r.bid, p) == Volume(t.bid, p) && Volume(r.ask, p) == Volume(t.ask, p)
    {
      ApplyAllByLevel(b, orders, Bid, p);
      ApplyAllByLevel(b, orders, Ask, p);
    }
    SameNonZero(r.bid, t.bid);
    SameNonZero(r.ask, t.ask);
  }

  /** The four passes: first the levels of this book on both sides, then those only the new book has.
      `own` and `other` are the two books with the empty levels the lookups created. */
  method DiffBooks(b: Book, t: Book, msecs: int) returns (orders: seq<Event>, own: Book, other: Book)
    requires UnsignedBook(b) && UnsignedBook(t) && Sweep(b) == b
    ensures SameLevels(own.bid, b.bid) && SameLevels(own.ask, b.ask)
    ensures SameLevels(other.bid, t.bid) && SameLevels(other.ask, t.ask)
    ensures ApplyAll(b, orders) == Sweep(t)
    ensures IsDiff(orders, b, Sweep(t), msecs)
    ensures Tidy(b, t, orders, 3)
  {
    var orders2, newBids, newAsks := DiffOwnLevels(b, t, msecs);
    var bids, asks;
    orders, bids, asks := DiffOtherLevels(b, Book(newBids, newAsks), msecs, orders2, t);
    own, other := Book(bids, asks), Book(newBids, newAsks);
    Settled(b, other, t, orders, msecs);
  }

  method DiffOwnLevels(b: Book, t: Book, msecs: int) returns (orders: seq<Event>, bids: Levels, asks: Levels)
    requires UnsignedBook(b) && UnsignedBook(t)
    ensures SameLevels(bids, t.bid) && SameLevels(asks, t.ask) && UnsignedBook(Book(bids, asks))
    ensures Progress(orders, orders, Pass(Bid, b.bid, bids, b.bid.Keys), msecs)
    ensures Progress(orders, orders, Pass(Ask, b.ask, asks, b.ask.Keys), msecs)
    ensures bids.Keys == t.bid.Keys + b.bid.Keys && asks.Keys == t.ask.Keys + b.ask.Keys && Tidy(b, t, orders, 1)
  {
    var orders1;
    orders1, bids := DiffLevels(Bid, b.bid, t.bid, msecs, [], b, t);
    ghost var bidPass, askPass := Pass(Bid, b.bid, t.bid, b.bid.Keys), Pass(Ask, b.ask, t.ask, b.ask.Keys);
    EarlierPass([], [], orders1, askPass.(done := {}), bidPass, t.ask, msecs);
    orders, asks := DiffLevels(Ask, b.ask, t.ask, msecs, orders1, b, t);
    EarlierPass([], orders1, orders, bidPass, askPass, bids, msecs);
    OwnPass(orders1, orders, askPass, asks, msecs);
  }

  method DiffOtherLevels(b: Book, t: Book, msecs: int, orders0: seq<Event>, ghost t0: Book)
    returns (orders: seq<Event>, bids: Levels, asks: Levels)
    requires UnsignedBook(t) && Sweep(b) == b
    requires Progress(orders0, orders0, Pass(Bid, b.bid, t.bid, b.bid.Keys), msecs)
    requires Progress(orders0, orders0, Pass(Ask, b.ask, t.ask, b.ask.Keys), msecs)
    requires t.bid.Keys <= t0.bid.Keys + b.bid.Keys && t.ask.Keys <= t0.ask.Keys + b.ask.Keys && Tidy(b, t0, orders0, 1)
    ensures Tidy(b, t0, orders, 3)
    ensures SameLevels(bids, b.bid) && SameLevels(asks, b.ask)
    ensures Progress(orders, orders, Pass(Bid, b.bid, t.bid, b.bid.Keys + t.bid.Keys), msecs)
    ensures Progress(orders, orders, Pass(Ask, b.ask, t.ask, b.ask.Keys + t.ask.Keys), msecs)
  {
    var orders1;
    ghost var bidPass := Pass(Bid, b.bid, t.bid, b.bid.Keys + t.bid.Keys);
    ghost var askPass := Pass(Ask, b.ask, t.ask, b.ask.Keys + t.ask.Keys);
    orders1, bids := DiffNewLevels(Bid, b.bid, t.bid, msecs, orders0, orders0, b, t0);
    EarlierPass(orders0, orders0, orders1, askPass.(done := b.ask.Keys), bidPass, t.ask, msecs);
    orders, asks := DiffNewLevels(Ask, b.ask, t.ask, msecs, orders1, orders1, b, t0);
    EarlierPass(orders0, orders1, orders, bidPass, askPass, t.bid, msecs);
    OwnPass(orders1, orders, askPass, t.ask, msecs);
  }
}
