/** Rewriting an order log so that its book is not crossed: deletes are generated for crossed levels, held
    back until time moves on, and dropped when a logged delete covers them (source/src/jl_lib/Book.cpp,
    remove_crosses). */
module CrossRemoval {
  import opened IntSets
  import opened OrderBook
  import opened BookUpdate
  import opened BookDiff

  /** The book held, the orders written so far, the deletes held back, the time of the last order, and
      whether trading has shown a positive spread. */
  datatype State = State(book: Book, written: seq<Event>, pending: seq<Event>, last: int, uncrossed: bool)

  const FRESH := State(EMPTY_BOOK, [], [], 0, false)

  predicate NegativeSpread(b: Book) {
    b.bid != map[] && b.ask != map[] && (BestAreSets(b); ToInt(MinOf(b.ask.Keys)) < ToInt(MaxOf(b.bid.Keys)))
  }

  predicate PositiveSpread(b: Book) {
    b.bid != map[] && b.ask != map[] && (BestAreSets(b); ToInt(MinOf(b.ask.Keys)) > ToInt(MaxOf(b.bid.Keys)))
  }

  // ------------------------------------------------------------------- cutting

  /** The level that is cut next: the best one of the side that was not added to. */
  function Best(b: Book, added: Side): (p: int)
    requires NegativeSpread(b)
    ensures p in b.On(Opposite(added))
  {
    BestAreSets(b);
    if added == Bid then MinOf(b.ask.Keys) else MaxOf(b.bid.Keys)
  }

  function WithoutLevel(b: Book, side: Side, p: int): Book {
    if side == Bid then b.(bid := b.bid - {p}) else b.(ask := b.ask - {p})
  }

  /** The delete generated for a level. */
  function CutOrder(b: Book, added: Side, msecs: int): Event
    requires NegativeSpread(b)
  {
    Event(msecs, Best(b, added), b.On(Opposite(added))[Best(b, added)], KindOf(Opposite(added), true))
  }

  function CutBook(b: Book, added: Side): Book
    decreases b.On(Opposite(added)).Keys
  {
    if NegativeSpread(b) then CutBook(WithoutLevel(b, Opposite(added), Best(b, added)), added) else b
  }

  function CutOrders(b: Book, added: Side, msecs: int): seq<Event>
    decreases b.On(Opposite(added)).Keys
  {
    if !NegativeSpread(b) then []
    else
      [CutOrder(b, added, msecs)]
      + CutOrders(WithoutLevel(b, Opposite(added), Best(b, added)), added, msecs)
  }

  // --------------------------------------------------------------- one log order

  /** A logged delete of the same kind and price that is at least as large. */
  predicate Covers(o: Event, u: Event) {
    u.price == o.price && u.size <= o.size && u.kind == o.kind
  }

  function Uncovered(pending: seq<Event>, o: Event): seq<Event> {
    if pending == [] then []
    else (if Covers(o, pending[0]) then [] else [pending[0]]) + Uncovered(pending[1..], o)
  }

  /** Before an order is looked at: overlapping deletes are dropped, or all are written out. */
  function Prepare(s: State, o: Event): State {
    if s.pending == [] then s
    else if o.msecs == s.last then s.(pending := Uncovered(s.pending, o))
    else if o.msecs > s.last then s.(written := s.written + s.pending, pending := [])
    else s
  }

  function Changed(b: Book, o: Event): Book {
    SetLevel(b, SideOf(o), o.price, LevelAfter(Volume(b.On(SideOf(o)), o.price), o))
  }

  /** Whether an order makes the book cut. */
  predicate Cuts(s: State, o: Event, session: Session) {
    !IsDelete(o) && s.uncrossed && NegativeSpread(Changed(s.book, o)) && session.Trading(o.msecs)
  }

  function Take(s: State, o: Event, session: Session): State {
    var ready, touched := Prepare(s, o), Changed(s.book, o);
    var after := if Cuts(s, o, session) then CutBook(touched, SideOf(o)) else touched;
    var more := if Cuts(s, o, session) then CutOrders(touched, SideOf(o), o.msecs) else [];
    State(Sweep(after), ready.written + [o], ready.pending + more, o.msecs,
          s.uncrossed || (session.Trading(o.msecs) && PositiveSpread(after)))
  }

  function Run(orders: seq<Event>, session: Session): State {
    if orders == [] then FRESH else Take(Run(orders[..|orders| - 1], session), orders[|orders| - 1], session)
  }

  // ------------------------------------------------------------------ the loops

  /** Deletes that a logged one covers are erased one by one. */
  method EraseCovered(pending: seq<Event>, o: Event) returns (left: seq<Event>)
    ensures left == Uncovered(pending, o)
  {
    left := pending;
    var i := 0;
    while i < |left|
      invariant 0 <= i <= |left|
      invariant left[..i] + Uncovered(left[i..], o) == Uncovered(pending, o)
      decreases |left| - i
    {
      assert left[i..][1..] == left[i + 1..];
      if Covers(o, left[i]) {
        ghost var before := left;
        left := left[..i] + left[i + 1..];
        assert left[..i] == before[..i] && left[i..] == before[i + 1..];
      } else {
        assert left[..i + 1] == left[..i] + [left[i]];
        i := i + 1;
      }
    }
    assert left[i..] == [] && left[..i] == left;
  }

  /** Best levels are erased while the spread is negative, and a delete is generated for each. */
  method CutLevels(b: Book, added: Side, msecs: int, pending: seq<Event>) returns (cut: Book, more: seq<Event>)
    ensures cut == CutBook(b, added) && more == pending + CutOrders(b, added, msecs)
  {
    cut, more := b, pending;
    while NegativeSpread(cut)
      invariant CutBook(cut, added) == CutBook(b, added)
      invariant more + CutOrders(cut, added, msecs) == pending + CutOrders(b, added, msecs)
      decreases cut.On(Opposite(added)).Keys
    {
      var o := CutOrder(cut, added, msecs);
      more := more + [o];
      cut := WithoutLevel(cut, Opposite(added), o.price);
    }
  }

  /** One order of the log: prepare, change its level, cut, look at the spread, write, sweep. */
  method OneOrder(s: State, o: Event, session: Session) returns (t: State)
    requires UnsignedOrder(o)
    ensures t == Take(s, o, session)
  {
    var written, pending := s.written, s.pending;
    if |pending| > 0 {
      if o.msecs == s.last {
        pending := EraseCovered(pending, o);
      } else if o.msecs > s.last {
        written := written + pending;
        pending := [];
      }
    }
    var book := Changed(s.book, o);
    if !IsDelete(o) && s.uncrossed && NegativeSpread(book) {
      if session.Trading(o.msecs) {
        book, pending := CutLevels(book, SideOf(o), o.msecs, pending);
      }
    }
    var uncrossed := s.uncrossed;
    if !uncrossed && session.Trading(o.msecs) && PositiveSpread(book) {
      uncrossed := true;
    }
    t := State(Sweep(book), written + [o], pending, o.msecs, uncrossed);
  }

  // ------------------------------------------------------- replaying what was written

  /** The volume a list of orders builds up at one level. */
  function Replayed(orders: seq<Event>, side: Side, price: int): int {
    LevelAfterAll(0, orders, side, price)
  }

  ghost predicate MatchesAt(s: State, side: Side, price: int) {
    Replayed(s.written + s.pending, side, price) == Volume(s.book.On(side), price)
  }

  /** Replaying what is written and held back gives the volume held, at every level. */
  ghost predicate InStep(s: State) {
    forall side, price {:trigger MatchesAt(s, side, price)} :: MatchesAt(s, side, price)
  }

  /** What every state of a run has: deletes held back, orders with unsigned fields, a swept book. */
  ghost predicate Sound(s: State) {
    && (forall u :: u in s.pending ==> IsDelete(u) && UnsignedOrder(u))
    && (forall u :: u in s.written ==> UnsignedOrder(u))
    && UnsignedBook(s.book) && Sweep(s.book) == s.book
  }

  lemma {:induction false} ConcatReplays(v: int, a: seq<Event>, b: seq<Event>, side: Side, price: int)
    ensures LevelAfterAll(v, a + b, side, price) == LevelAfterAll(LevelAfterAll(v, a, side, price), b, side, price)
  {
    if b == [] {
      assert a + b == a;
    } else {
      assert (a + b)[..|a + b| - 1] == a + b[..|b| - 1];
      ConcatReplays(v, a, b[..|b| - 1], side, price);
    }
  }

  /** A state in step is one whose book the written and pending orders rebuild. */
  lemma InStepMeans(s: State)
    requires Sound(s)
    ensures InStep(s) <==> ApplyAll(EMPTY_BOOK, s.written + s.pending) == s.book
  {
    var r := ApplyAll(EMPTY_BOOK, s.written + s.pending);
    assert Sweep(EMPTY_BOOK) == EMPTY_BOOK;
    forall side, price
      ensures Volume(r.On(side), price) == Replayed(s.written + s.pending, side, price)
    {
      ApplyAllByLevel(EMPTY_BOOK, s.written + s.pending, side, price);
    }
    ApplyAllByLevel(EMPTY_BOOK, s.written + s.pending, Bid, 0);
    if InStep(s) {
      forall price
        ensures Volume(r.bid, price) == Volume(s.book.bid, price) && Volume(r.ask, price) == Volume(s.book.ask, price)
      {
        assert MatchesAt(s, Bid, price) && MatchesAt(s, Ask, price);
        assert r.On(Bid) == r.bid && r.On(Ask) == r.ask;
      }
      SameNonZero(r.bid, s.book.bid);
      SameNonZero(r.ask, s.book.ask);
    }
    if r == s.book {
      assert forall side, price :: MatchesAt(s, side, price);
    }
  }

  // ------------------------------------------------------------ what the cuts amount to

  lemma {:induction false} CutsReplay(b: Book, added: Side, msecs: int, side: Side, price: int)
    ensures LevelAfterAll(Volume(b.On(side), price), CutOrders(b, added, msecs), side, price)
            == Volume(CutBook(b, added).On(side), price)
    decreases b.On(Opposite(added)).Keys
  {
    if NegativeSpread(b) {
      var o, b' := CutOrder(b, added, msecs), WithoutLevel(b, Opposite(added), Best(b, added));
      CutsReplay(b', added, msecs, side, price);
      ConcatReplays(Volume(b.On(side), price), [o], CutOrders(b', added, msecs), side, price);
      OneReplayed(Volume(b.On(side), price), o, side, price);
      assert Volume(b'.On(side), price) == if Hits(o, side, price) then 0 else Volume(b.On(side), price);
    }
  }

  lemma OneReplayed(v: int, o: Event, side: Side, price: int)
    ensures LevelAfterAll(v, [o], side, price) == if Hits(o, side, price) then LevelAfter(v, o) else v
  {
    assert [o][..0] == [];
  }

  /** Cuts are deletes on the side that was not added to. */
  lemma {:induction false} CutsElsewhere(b: Book, added: Side, msecs: int)
    requires UnsignedBook(b)
    ensures forall u :: u in CutOrders(b, added, msecs) ==>
              IsDelete(u) && SideOf(u) == Opposite(added) && UnsignedOrder(u)
    ensures UnsignedBook(CutBook(b, added))
    decreases b.On(Opposite(added)).Keys
  {
    if NegativeSpread(b) {
      CutsElsewhere(WithoutLevel(b, Opposite(added), Best(b, added)), added, msecs);
    }
  }

  lemma {:induction false} NotHit(v: int, orders: seq<Event>, side: Side, price: int)
    requires forall u :: u in orders ==> !Hits(u, side, price)
    ensures LevelAfterAll(v, orders, side, price) == v
  {
    if orders != [] {
      NotHit(v, orders[..|orders| - 1], side, price);
    }
  }

  // -------------------------------------------------------------- what is still due

  /** The volume the deletes held back take from one level. */
  function Due(pending: seq<Event>, side: Side, price: int): int {
    if pending == [] then 0
    else
      var u := pending[|pending| - 1];
      Due(pending[..|pending| - 1], side, price) + if Hits(u, side, price) then u.size else 0
  }

  function Positive(x: int): int {
    if x < 0 then 0 else x
  }

  ghost predicate AreDeletes(pending: seq<Event>) {
    forall u :: u in pending ==> IsDelete(u) && UnsignedOrder(u)
  }

  lemma {:induction false} DeletesSubtract(v: int, pending: seq<Event>, side: Side, price: int)
    requires v >= 0 && AreDeletes(pending)
    ensures Due(pending, side, price) >= 0
    ensures LevelAfterAll(v, pending, side, price) == Positive(v - Due(pending, side, price))
  {
    if pending != [] {
      assert pending[|pending| - 1] in pending;
      DeletesSubtract(v, pending[..|pending| - 1], side, price);
    }
  }

  lemma {:induction false} DueOfConcat(a: seq<Event>, b: seq<Event>, side: Side, price: int)
    ensures Due(a + b, side, price) == Due(a, side, price) + Due(b, side, price)
  {
    if b == [] {
      assert a + b == a;
    } else {
      assert (a + b)[..|a + b| - 1] == a + b[..|b| - 1];
      DueOfConcat(a, b[..|b| - 1], side, price);
    }
  }

  /** Dropping covered deletes leaves other levels alone and never raises what is due. */
  lemma {:induction false} UncoveredDue(pending: seq<Event>, o: Event, side: Side, price: int)
    requires AreDeletes(pending)
    ensures AreDeletes(Uncovered(pending, o))
    ensures Due(Uncovered(pending, o), side, price) <= Due(pending, side, price)
    ensures !IsDelete(o) || !Hits(o, side, price) ==> Due(Uncovered(pending, o), side, price) == Due(pending, side, price)
  {
    if pending != [] {
      var u, rest := pending[0], pending[1..];
      UncoveredDue(rest, o, side, price);
      assert pending == [u] + rest;
      assert u in pending;
      assert forall x :: x in rest ==> x in pending;
      DueOfConcat([u], rest, side, price);
      DueOfConcat([u], Uncovered(rest, o), side, price);
      DueOfOne(u, side, price);
      assert Covers(o, u) ==> Uncovered(pending, o) == Uncovered(rest, o);
      assert !Covers(o, u) ==> Uncovered(pending, o) == [u] + Uncovered(rest, o);
    }
  }

  lemma DueOfOne(u: Event, side: Side, price: int)
    ensures Due([u], side, price) == if Hits(u, side, price) then u.size else 0
  {
    assert [u][..0] == [];
  }

  /** Whether an order keeps one level in step: `written` was replayed for it, `due` is held back before
      the order and `left` after dropping what the order covers. */
  predicate KeepsLevel(written: int, due: int, left: int, o: Event) {
    if IsDelete(o) then left == due || written <= o.size + left
    else o.size == 0 ||
         (due <= written && (written + o.size < TWO_TO_32 || written + o.size - due >= TWO_TO_32))
  }

  lemma LevelIff(written: int, due: int, left: int, o: Event)
    requires 0 <= written < TWO_TO_32 && 0 <= left <= due && UnsignedOrder(o)
    requires !IsDelete(o) ==> left == due
    ensures Positive(LevelAfter(written, o) - left) == LevelAfter(Positive(written - due), o)
            <==> KeepsLevel(written, due, left, o)
  {
    if !IsDelete(o) {
      var sum := written + o.size;
      assert sum % TWO_TO_32 == if sum < TWO_TO_32 then sum else sum - TWO_TO_32;
      var held := Positive(written - due) + o.size;
      assert held % TWO_TO_32 == if held < TWO_TO_32 then held else held - TWO_TO_32;
    }
  }

  lemma {:induction false} ReplayedFits(orders: seq<Event>, side: Side, price: int)
    requires forall u :: u in orders ==> UnsignedOrder(u)
    ensures 0 <= Replayed(orders, side, price) < TWO_TO_32
  {
    if orders != [] {
      assert orders[|orders| - 1] in orders;
      ReplayedFits(orders[..|orders| - 1], side, price);
    }
  }

  // ------------------------------------------------------------- when a run is in step

  /** An order keeps the log in step: time has moved on, or nothing is held back, or it agrees with what is
      held back at its own level. */
  predicate KeepsStep(s: State, o: Event) {
    s.pending == [] || o.msecs > s.last ||
    KeepsLevel(Replayed(s.written, SideOf(o), o.price), Due(s.pending, SideOf(o), o.price),
               Due(Prepare(s, o).pending, SideOf(o), o.price), o)
  }

  /** The volume written and held back at a level once the order is written, before any cut. */
  function Rebuilt(s: State, o: Event, side: Side, price: int): int {
    LevelAfterAll(LevelAfterAll(Replayed(Prepare(s, o).written, side, price), [o], side, price),
                  Prepare(s, o).pending, side, price)
  }

  lemma RebuiltWhenFlushed(s: State, o: Event, side: Side, price: int)
    requires MatchesAt(s, side, price) && (s.pending == [] || o.msecs > s.last)
    ensures Rebuilt(s, o, side, price) == Volume(Changed(s.book, o).On(side), price)
  {
    assert Prepare(s, o).written == s.written + s.pending && Prepare(s, o).pending == [];
    OneReplayed(Volume(s.book.On(side), price), o, side, price);
  }

  /** The comparison at one level in terms of what was written, what is due and what is left of that. */
  lemma VolumesWhenHeld(s: State, o: Event, side: Side, price: int)
    requires Sound(s) && UnsignedOrder(o) && MatchesAt(s, side, price)
    requires s.pending != [] && o.msecs <= s.last
    ensures var w, due := Replayed(s.written, side, price), Due(s.pending, side, price);
            var left := Due(Prepare(s, o).pending, side, price);
            && 0 <= w < TWO_TO_32 && 0 <= left <= due
            && (!IsDelete(o) || !Hits(o, side, price) ==> left == due)
            && Volume(s.book.On(side), price) == Positive(w - due)
            && Rebuilt(s, o, side, price) == Positive((if Hits(o, side, price) then LevelAfter(w, o) else w) - left)
  {
    DueWhenHeld(s, o, side, price);
    ReplayedFits(s.written, side, price);
    VolumeHeld(s, side, price);
    VolumeRebuilt(s.written, Prepare(s, o).pending, o, side, price);
  }

  lemma DueWhenHeld(s: State, o: Event, side: Side, price: int)
    requires Sound(s) && s.pending != [] && o.msecs <= s.last
    ensures var (ready, due) := (Prepare(s, o), Due(s.pending, side, price));
            && ready.written == s.written && AreDeletes(ready.pending)
            && 0 <= Due(ready.pending, side, price) <= due
            && (!IsDelete(o) || !Hits(o, side, price) ==> Due(ready.pending, side, price) == due)
  {
    UncoveredDue(s.pending, o, side, price);
    DeletesSubtract(0, Prepare(s, o).pending, side, price);
  }

  lemma VolumeHeld(s: State, side: Side, price: int)
    requires Sound(s) && MatchesAt(s, side, price)
    ensures Volume(s.book.On(side), price) == Positive(Replayed(s.written, side, price) - Due(s.pending, side, price))
  {
    ReplayedFits(s.written, side, price);
    ConcatReplays(0, s.written, s.pending, side, price);
    DeletesSubtract(Replayed(s.written, side, price), s.pending, side, price);
  }

  lemma VolumeRebuilt(written: seq<Event>, pending: seq<Event>, o: Event, side: Side, price: int)
    requires AreDeletes(pending) && UnsignedOrder(o) && forall u :: u in written ==> UnsignedOrder(u)
    ensures var w := Replayed(written, side, price);
            LevelAfterAll(LevelAfterAll(w, [o], side, price), pending, side, price)
            == Positive((if Hits(o, side, price) then LevelAfter(w, o) else w) - Due(pending, side, price))
  {
    var w := Replayed(written, side, price);
    ReplayedFits(written, side, price);
    OneReplayed(w, o, side, price);
    DeletesSubtract(LevelAfterAll(w, [o], side, price), pending, side, price);
  }

  lemma RebuiltWhenHeld(s: State, o: Event, side: Side, price: int)
    requires Sound(s) && UnsignedOrder(o) && MatchesAt(s, side, price)
    requires s.pending != [] && o.msecs <= s.last
    ensures !Hits(o, side, price) ==> Rebuilt(s, o, side, price) == Volume(Changed(s.book, o).On(side), price)
    ensures Hits(o, side, price) ==>
              (Rebuilt(s, o, side, price) == Volume(Changed(s.book, o).On(side), price) <==> KeepsStep(s, o))
  {
    VolumesWhenHeld(s, o, side, price);
    ChangedAt(s.book, o, side, price);
    if Hits(o, side, price) {
      LevelIff(Replayed(s.written, side, price), Due(s.pending, side, price),
               Due(Prepare(s, o).pending, side, price), o);
    }
  }

  lemma ChangedAt(b: Book, o: Event, side: Side, price: int)
    ensures var v := Volume(b.On(side), price);
            Volume(Changed(b, o).On(side), price) == if Hits(o, side, price) then LevelAfter(v, o) else v
  {
  }

  /** The order and the cuts it makes act alike on both sides of the comparison. */
  lemma AfterTake(s: State, o: Event, session: Session, side: Side, price: int)
    ensures var t := Take(s, o, session);
            var more := if Cuts(s, o, session) then CutOrders(Changed(s.book, o), SideOf(o), o.msecs) else [];
            && Replayed(t.written + t.pending, side, price)
               == LevelAfterAll(Rebuilt(s, o, side, price), more, side, price)
            && Volume(t.book.On(side), price)
               == LevelAfterAll(Volume(Changed(s.book, o).On(side), price), more, side, price)
  {
    var t, ready := Take(s, o, session), Prepare(s, o);
    var more := if Cuts(s, o, session) then CutOrders(Changed(s.book, o), SideOf(o), o.msecs) else [];
    assert t.written + t.pending == ready.written + [o] + ready.pending + more;
    ConcatReplays(0, ready.written + [o] + ready.pending, more, side, price);
    ConcatReplays(0, ready.written + [o], ready.pending, side, price);
    ConcatReplays(0, ready.written, [o], side, price);
    if Cuts(s, o, session) {
      CutsReplay(Changed(s.book, o), SideOf(o), o.msecs, side, price);
    }
  }

  lemma ChangedIsUnsigned(b: Book, o: Event)
    requires UnsignedBook(b) && UnsignedOrder(o)
    ensures UnsignedBook(Changed(b, o))
  {
  }

  lemma MatchesAfterIff(s: State, o: Event, session: Session, side: Side, price: int)
    requires Sound(s) && UnsignedOrder(o) && MatchesAt(s, side, price)
    ensures !Hits(o, side, price) ==> MatchesAt(Take(s, o, session), side, price)
    ensures Hits(o, side, price) ==> (MatchesAt(Take(s, o, session), side, price) <==> KeepsStep(s, o))
  {
    AfterTake(s, o, session, side, price);
    if s.pending == [] || o.msecs > s.last {
      RebuiltWhenFlushed(s, o, side, price);
    } else {
      RebuiltWhenHeld(s, o, side, price);
    }
    if Hits(o, side, price) && Cuts(s, o, session) {
      var touched := Changed(s.book, o);
      ChangedIsUnsigned(s.book, o);
      CutsElsewhere(touched, SideOf(o), o.msecs);
      NotHit(Rebuilt(s, o, side, price), CutOrders(touched, SideOf(o), o.msecs), side, price);
      NotHit(Volume(touched.On(side), price), CutOrders(touched, SideOf(o), o.msecs), side, price);
    }
  }

  /** From a state in step the next one is in step exactly when the order keeps its own level in step. */
  lemma StaysInStepIff(s: State, o: Event, session: Session)
    requires Sound(s) && UnsignedOrder(o) && InStep(s)
    ensures InStep(Take(s, o, session)) <==> KeepsStep(s, o)
  {
    var t := Take(s, o, session);
    forall side, price
      ensures !Hits(o, side, price) || KeepsStep(s, o) ==> MatchesAt(t, side, price)
    {
      assert MatchesAt(s, side, price);
      MatchesAfterIff(s, o, session, side, price);
    }
    assert MatchesAt(s, SideOf(o), o.price);
    MatchesAfterIff(s, o, session, SideOf(o), o.price);
    assert InStep(t) ==> MatchesAt(t, SideOf(o), o.price);
  }

  lemma {:induction false} UncoveredAreSome(pending: seq<Event>, o: Event)
    ensures forall u :: u in Uncovered(pending, o) ==> u in pending
  {
    if pending != [] {
      UncoveredAreSome(pending[1..], o);
    }
  }

  lemma OrdersAreSound(s: State, o: Event, session: Session)
    requires Sound(s) && UnsignedOrder(o)
    ensures var t := Take(s, o, session);
            AreDeletes(t.pending) && forall u :: u in t.written ==> UnsignedOrder(u)
  {
    ChangedIsUnsigned(s.book, o);
    CutsElsewhere(Changed(s.book, o), SideOf(o), o.msecs);
    UncoveredAreSome(s.pending, o);
  }

  lemma SweepIsUnsigned(b: Book)
    requires UnsignedBook(b)
    ensures UnsignedBook(Sweep(b)) && Sweep(Sweep(b)) == Sweep(b)
  {
    SweepTwice(b);
  }

  lemma TakeIsSound(s: State, o: Event, session: Session)
    requires Sound(s) && UnsignedOrder(o)
    ensures Sound(Take(s, o, session))
  {
    var touched := Changed(s.book, o);
    OrdersAreSound(s, o, session);
    ChangedIsUnsigned(s.book, o);
    CutsElsewhere(touched, SideOf(o), o.msecs);
    SweepIsUnsigned(if Cuts(s, o, session) then CutBook(touched, SideOf(o)) else touched);
  }

  lemma {:induction false} RunIsSound(orders: seq<Event>, session: Session)
    requires forall o :: o in orders ==> UnsignedOrder(o)
    ensures Sound(Run(orders, session))
  {
    if orders != [] {
      RunIsSound(orders[..|orders| - 1], session);
      assert orders[|orders| - 1] in orders;
      TakeIsSound(Run(orders[..|orders| - 1], session), orders[|orders| - 1], session);
    }
  }

  ghost predicate KeepsStepAt(orders: seq<Event>, session: Session, n: nat)
    requires n < |orders|
  {
    KeepsStep(Run(orders[..n], session), orders[n])
  }

  ghost predicate InStepAt(orders: seq<Event>, session: Session, n: nat)
    requires n <= |orders|
  {
    InStep(Run(orders[..n], session))
  }

  ghost predicate AllInStep(orders: seq<Event>, session: Session, n: nat)
    requires n <= |orders|
  {
    forall k: nat {:trigger InStepAt(orders, session, k)} :: k <= n ==> InStepAt(orders, session, k)
  }

  ghost predicate AllKeepStep(orders: seq<Event>, session: Session, n: nat)
    requires n <= |orders|
  {
    forall k: nat {:trigger KeepsStepAt(orders, session, k)} :: k < n ==> KeepsStepAt(orders, session, k)
  }

  lemma OneMore(orders: seq<Event>, session: Session, n: nat)
    requires 0 < n <= |orders|
    ensures AllInStep(orders, session, n) <==> AllInStep(orders, session, n - 1) && InStepAt(orders, session, n)
    ensures AllKeepStep(orders, session, n)
            <==> AllKeepStep(orders, session, n - 1) && KeepsStepAt(orders, session, n - 1)
  {
  }

  /** Over a whole log: it is in step after every order exactly when every order keeps it there. */
  lemma {:induction false} InStepThroughoutIff(orders: seq<Event>, session: Session, n: nat)
    requires n <= |orders| && forall o :: o in orders ==> UnsignedOrder(o)
    ensures AllInStep(orders, session, n) <==> AllKeepStep(orders, session, n)
  {
    if n == 0 {
      assert orders[..0] == [];
      assert InStepAt(orders, session, 0);
    } else {
      InStepThroughoutIff(orders, session, n - 1);
      OneMore(orders, session, n);
      if AllInStep(orders, session, n - 1) {
        assert InStepAt(orders, session, n - 1);
        OneOrderMoreIff(orders, session, n);
      }
    }
  }

  lemma OneOrderMoreIff(orders: seq<Event>, session: Session, n: nat)
    requires 0 < n <= |orders| && (forall o :: o in orders ==> UnsignedOrder(o)) && InStepAt(orders, session, n - 1)
    ensures InStepAt(orders, session, n) <==> KeepsStepAt(orders, session, n - 1)
  {
    RunIsSound(orders[..n - 1], session);
    assert orders[..n][..n - 1] == orders[..n - 1] && orders[..n][n - 1] == orders[n - 1];
    StaysInStepIff(Run(orders[..n - 1], session), orders[n - 1], session);
  }

  /** When the deletes held back have been written out, the written orders rebuild the book held exactly
      when the state was in step. */
  lemma FlushRebuildsIff(s: State, o: Event)
    requires Sound(s) && (s.pending == [] || o.msecs > s.last)
    ensures ApplyAll(EMPTY_BOOK, Prepare(s, o).written) == s.book <==> InStep(s)
  {
    InStepMeans(s);
    assert Prepare(s, o).written == s.written + s.pending;
  }

  /** What is held back when the log ends is never written: a log in step rebuilds the book exactly when
      nothing is due at a level where volume was written. */
  lemma EndOfLogRebuildsIff(s: State)
    requires Sound(s) && InStep(s)
    ensures ApplyAll(EMPTY_BOOK, s.written) == s.book
            <==> forall side, price :: Due(s.pending, side, price) == 0 || Replayed(s.written, side, price) == 0
  {
    var t := s.(pending := []);
    assert t.written + t.pending == s.written;
    InStepMeans(t);
    forall side, price
      ensures MatchesAt(t, side, price)
              <==> Due(s.pending, side, price) == 0 || Replayed(s.written, side, price) == 0
    {
      assert MatchesAt(s, side, price);
      ReplayedFits(s.written, side, price);
      ConcatReplays(0, s.written, s.pending, side, price);
      DeletesSubtract(Replayed(s.written, side, price), s.pending, side, price);
    }
  }

  // ------------------------------------------------------------- what the cuts achieve

  /** The best ask is below the best bid, as numbers. */
  predicate Negative(b: Book) {
    b.bid != map[] && b.ask != map[] && (BestAreSets(b); MinOf(b.ask.Keys) < MaxOf(b.bid.Keys))
  }

  lemma NegativeMeans(b: Book)
    ensures Negative(b) <==> exists p, q :: p in b.ask && q in b.bid && p < q
  {
    BestAreSets(b);
    if Negative(b) {
      assert MinOf(b.ask.Keys) in b.ask && MaxOf(b.bid.Keys) in b.bid;
    }
    if p, q :| p in b.ask && q in b.bid && p < q {
      assert MinOf(b.ask.Keys) <= p && q <= MaxOf(b.bid.Keys);
    }
  }

  /** The comparison of signed prices misses a negative spread exactly when the best prices straddle 2^31. */
  lemma MissedIff(b: Book)
    requires UnsignedBook(b)
    ensures Negative(b) && !NegativeSpread(b) <==> Straddles(b)
  {
    BestAreSets(b);
    if b.bid != map[] && b.ask != map[] {
      assert MinOf(b.ask.Keys) in b.ask && MaxOf(b.bid.Keys) in b.bid;
    }
  }

  ghost predicate PartOfBook(r: Book, b: Book) {
    r.bid.Keys <= b.bid.Keys && r.ask.Keys <= b.ask.Keys
  }

  lemma PartIsNotNegative(b: Book, r: Book)
    requires !Negative(b) && PartOfBook(r, b)
    ensures !Negative(r)
  {
    NegativeMeans(b);
    NegativeMeans(r);
  }

  /** Without its best level a side only gets worse, so the best prices do not come to straddle. */
  lemma WorseDoesNotStraddle(b: Book, added: Side)
    requires UnsignedBook(b) && NegativeSpread(b)
    ensures !Straddles(WithoutLevel(b, Opposite(added), Best(b, added)))
  {
    var r := WithoutLevel(b, Opposite(added), Best(b, added));
    BestAreSets(b);
    BestAreSets(r);
    MissedIff(b);
    assert r.ask != map[] ==> MinOf(r.ask.Keys) in b.ask;
    assert r.bid != map[] ==> MaxOf(r.bid.Keys) in b.bid;
  }

  lemma {:induction false} CutIsNotNegative(b: Book, added: Side)
    requires UnsignedBook(b) && !Straddles(b)
    ensures PartOfBook(CutBook(b, added), b) && !Negative(CutBook(b, added))
    decreases b.On(Opposite(added)).Keys
  {
    if NegativeSpread(b) {
      WorseDoesNotStraddle(b, added);
      CutIsNotNegative(WithoutLevel(b, Opposite(added), Best(b, added)), added);
    } else {
      MissedIff(b);
    }
  }

  lemma AddIsNegativeIff(s: State, o: Event, session: Session)
    requires Sound(s) && UnsignedOrder(o) && !Negative(s.book)
    requires !IsDelete(o) && s.uncrossed && session.Trading(o.msecs)
    ensures Negative(Take(s, o, session).book) <==> Hides(s.book, o)
  {
    var side := SideOf(o);
    var changed, v := Changed(s.book, o), LevelAfter(Volume(s.book.On(side), o.price), o);
    MissedIff(s.book);
    LevelStraddlesIff(s.book, side, o.price, v);
    ChangedIsUnsigned(s.book, o);
    MissedIff(changed);
    var t := Take(s, o, session);
    if v == 0 {
      assert PartOfBook(Sweep(changed), s.book);
      if Cuts(s, o, session) {
        CutIsNotNegative(changed, side);
        PartIsNotNegative(CutBook(changed, side), t.book);
      } else {
        PartIsNotNegative(s.book, t.book);
      }
    } else if Straddles(changed) {
      SweptLevel(s.book, side, o.price, v);
    } else {
      CutIsNotNegative(changed, side);
      PartIsNotNegative(CutBook(changed, side), t.book);
    }
  }

  /** With uncrossing on, an order keeps the spread from being negative unless it leaves volume at a price
      across 2^31 from the best price of the other side; a delete always does. */
  lemma TakeIsNegativeIff(s: State, o: Event, session: Session)
    requires Sound(s) && UnsignedOrder(o) && !Negative(s.book)
    requires IsDelete(o) || (s.uncrossed && session.Trading(o.msecs))
    ensures Negative(Take(s, o, session).book) <==> Hides(s.book, o)
  {
    if IsDelete(o) {
      PartIsNotNegative(s.book, Take(s, o, session).book);
    } else {
      AddIsNegativeIff(s, o, session);
    }
  }

  /** Uncrossing is on and the close has not been reached by the last of these orders. */
  ghost predicate Guarded(orders: seq<Event>, session: Session) {
    Run(orders, session).uncrossed && orders != [] && orders[|orders| - 1].msecs < session.close
  }

  ghost predicate NotNegativeAt(orders: seq<Event>, session: Session, n: nat)
    requires n <= |orders|
  {
    Guarded(orders[..n], session) ==> !Negative(Run(orders[..n], session).book)
  }

  /** Before an order: while uncrossing is on it does not hide a negative spread, and an order that switches
      it on does not do so over one. */
  predicate SafeOrder(s: State, o: Event, session: Session) {
    if s.uncrossed then o.msecs < session.close ==> !Hides(s.book, o)
    else session.Trading(o.msecs) && PositiveSpread(Changed(s.book, o)) ==> !Negative(Sweep(Changed(s.book, o)))
  }

  ghost predicate SafeAt(orders: seq<Event>, session: Session, n: nat)
    requires n < |orders|
  {
    SafeOrder(Run(orders[..n], session), orders[n], session)
  }

  lemma {:induction false} GuardedSinceOpen(orders: seq<Event>, session: Session)
    requires InTimeOrder(orders)
    ensures Run(orders, session).uncrossed ==> orders != [] && orders[|orders| - 1].msecs > session.open
  {
    if orders != [] {
      var front := orders[..|orders| - 1];
      GuardedSinceOpen(front, session);
      if Run(front, session).uncrossed {
        assert orders[|front| - 1].msecs <= orders[|orders| - 1].msecs;
      }
    }
  }

  lemma OneOrderIff(front: seq<Event>, o: Event, session: Session)
    requires (forall u :: u in front ==> UnsignedOrder(u)) && UnsignedOrder(o) && InTimeOrder(front + [o])
    requires Guarded(front, session) ==> !Negative(Run(front, session).book)
    ensures (Guarded(front + [o], session) ==> !Negative(Run(front + [o], session).book))
            <==> SafeOrder(Run(front, session), o, session)
  {
    var orders, s := front + [o], Run(front, session);
    assert orders[..|orders| - 1] == front && orders[|orders| - 1] == o;
    GuardedSinceOpen(orders, session);
    GuardedSinceOpen(front, session);
    RunIsSound(front, session);
    if s.uncrossed {
      assert front[|front| - 1] == orders[|front| - 1];
      if o.msecs < session.close {
        TakeIsNegativeIff(s, o, session);
      }
    }
  }

  ghost predicate AllNotNegative(orders: seq<Event>, session: Session, n: nat)
    requires n <= |orders|
  {
    forall k: nat {:trigger NotNegativeAt(orders, session, k)} :: k <= n ==> NotNegativeAt(orders, session, k)
  }

  ghost predicate AllSafe(orders: seq<Event>, session: Session, n: nat)
    requires n <= |orders|
  {
    forall k: nat {:trigger SafeAt(orders, session, k)} :: k < n ==> SafeAt(orders, session, k)
  }

  lemma OneMoreOfEach(orders: seq<Event>, session: Session, n: nat)
    requires 0 < n <= |orders|
    ensures AllNotNegative(orders, session, n)
            <==> AllNotNegative(orders, session, n - 1) && NotNegativeAt(orders, session, n)
    ensures AllSafe(orders, session, n) <==> AllSafe(orders, session, n - 1) && SafeAt(orders, session, n - 1)
  {
  }

  lemma NextOrderIff(orders: seq<Event>, session: Session, n: nat)
    requires InTimeOrder(orders) && 0 < n <= |orders| && forall o :: o in orders ==> UnsignedOrder(o)
    requires NotNegativeAt(orders, session, n - 1)
    ensures NotNegativeAt(orders, session, n) <==> SafeAt(orders, session, n - 1)
  {
    assert orders[..n] == orders[..n - 1] + [orders[n - 1]];
    OneOrderIff(orders[..n - 1], orders[n - 1], session);
  }

  /** Over every log in time order: from the first positive spread after the open until the close the
      spread of the book held is never negative, exactly when every order is safe when it arrives. */
  lemma {:induction false} CrossesAreRemovedIff(orders: seq<Event>, session: Session, n: nat)
    requires InTimeOrder(orders) && n <= |orders| && forall o :: o in orders ==> UnsignedOrder(o)
    ensures AllNotNegative(orders, session, n) <==> AllSafe(orders, session, n)
  {
    if n == 0 {
      assert NotNegativeAt(orders, session, 0);
    } else {
      CrossesAreRemovedIff(orders, session, n - 1);
      OneMoreOfEach(orders, session, n);
      if AllNotNegative(orders, session, n - 1) {
        assert NotNegativeAt(orders, session, n - 1);
        NextOrderIff(orders, session, n);
      }
    }
  }

  lemma {:induction false} RunIsLow(orders: seq<Event>, session: Session)
    requires forall o :: o in orders ==> LowOrder(o)
    ensures LowPrices(Run(orders, session).book)
  {
    if orders != [] {
      var s, o := Run(orders[..|orders| - 1], session), orders[|orders| - 1];
      RunIsLow(orders[..|orders| - 1], session);
      assert o in orders;
      CutIsPart(Changed(s.book, o), SideOf(o));
    }
  }

  lemma {:induction false} CutIsPart(b: Book, added: Side)
    ensures PartOfBook(CutBook(b, added), b)
    decreases b.On(Opposite(added)).Keys
  {
    if NegativeSpread(b) {
      CutIsPart(WithoutLevel(b, Opposite(added), Best(b, added)), added);
    }
  }

  lemma LowOrderIsSafe(s: State, o: Event, session: Session)
    requires Sound(s) && LowPrices(s.book) && LowOrder(o)
    ensures SafeOrder(s, o, session)
  {
    var changed := Changed(s.book, o);
    ChangedIsUnsigned(s.book, o);
    MissedIff(changed);
    NotAcross(s.book, SideOf(o), o.price);
    LowDoesNotStraddle(changed);
    if PositiveSpread(changed) {
      PartIsNotNegative(changed, Sweep(changed));
    }
  }

  lemma NotAcross(b: Book, side: Side, price: int)
    requires LowPrices(b) && price < HALF
    ensures !Across(b, side, price)
  {
    BestAreSets(b);
    assert b.bid != map[] ==> MaxOf(b.bid.Keys) in b.bid;
  }

  lemma LowDoesNotStraddle(b: Book)
    requires LowPrices(b)
    ensures !Straddles(b)
  {
    BestAreSets(b);
    assert b.bid != map[] ==> MaxOf(b.bid.Keys) in b.bid;
  }

  /** With prices below 2^31 that is every log. */
  lemma CrossesAreRemoved(orders: seq<Event>, session: Session)
    requires InTimeOrder(orders) && forall o :: o in orders ==> LowOrder(o)
    ensures Guarded(orders, session) ==> !Negative(Run(orders, session).book)
  {
    forall k: nat | k < |orders|
      ensures SafeAt(orders, session, k)
    {
      assert forall o :: o in orders[..k] ==> o in orders && LowOrder(o);
      RunIsSound(orders[..k], session);
      RunIsLow(orders[..k], session);
      assert orders[k] in orders;
      LowOrderIsSafe(Run(orders[..k], session), orders[k], session);
    }
    CrossesAreRemovedIff(orders, session, |orders|);
    assert NotNegativeAt(orders, session, |orders|);
    assert orders[..|orders|] == orders;
  }

  /** So is the book that the written log rebuilds whenever the deletes held back have been written out,
      if the log has stayed in step. */
  lemma FlushedLogIsNotNegative(orders: seq<Event>, session: Session, next: Event)
    requires InTimeOrder(orders) && forall o :: o in orders ==> LowOrder(o)
    requires AllKeepStep(orders, session, |orders|) && Guarded(orders, session)
    requires var s := Run(orders, session); s.pending == [] || next.msecs > s.last
    ensures !Negative(ApplyAll(EMPTY_BOOK, Prepare(Run(orders, session), next).written))
  {
    InStepThroughoutIff(orders, session, |orders|);
    assert InStepAt(orders, session, |orders|);
    assert orders[..|orders|] == orders;
    RunIsSound(orders, session);
    FlushRebuildsIff(Run(orders, session), next);
    CrossesAreRemoved(orders, session);
  }

  // ----------------------------------------------------------------- a log that loses step

  const DAY := Session(0, 1000)
  const O1 := Event(10, 100, 5, 0)
  const O2 := Event(10, 102, 5, 2)
  const O3 := Event(20, 103, 1, 0)
  const O4 := Event(20, 102, 7, 2)
  const O5 := Event(20, 102, 5, 3)
  const C1 := Event(20, 102, 5, 3)
  const C2 := Event(20, 103, 1, 1)

  lemma FirstTwo()
    ensures Take(FRESH, O1, DAY) == State(Book(map[100 := 5], map[]), [O1], [], 10, false)
    ensures Take(State(Book(map[100 := 5], map[]), [O1], [], 10, false), O2, DAY)
            == State(Book(map[100 := 5], map[102 := 5]), [O1, O2], [], 10, true)
  {
    var b := Book(map[100 := 5], map[102 := 5]);
    assert Changed(Book(map[100 := 5], map[]), O2) == b && Sweep(b) == b;
    assert b.bid.Keys == {100} && b.ask.Keys == {102};
    MaxIs({100}, 100);
    MinIs({102}, 102);
  }

  /** The bid at 103 cuts the ask at 102. */
  lemma Third()
    ensures Take(State(Book(map[100 := 5], map[102 := 5]), [O1, O2], [], 10, true), O3, DAY)
            == State(Book(map[100 := 5, 103 := 1], map[]), [O1, O2, O3], [C1], 20, true)
  {
    var b, after := Book(map[100 := 5, 103 := 1], map[102 := 5]), Book(map[100 := 5, 103 := 1], map[]);
    assert Changed(Book(map[100 := 5], map[102 := 5]), O3) == b && Sweep(after) == after;
    assert b.bid.Keys == {100, 103} && b.ask.Keys == {102};
    MaxIs({100, 103}, 103);
    MinIs({102}, 102);
    assert Best(b, Bid) == 102 && WithoutLevel(b, Ask, 102) == after;
    assert CutBook(after, Bid) == after && CutOrders(after, Bid, 20) == [];
    assert CutOrders(b, Bid, 20) == [C1];
  }

  /** The ask at 102 that is added anew cuts the bid at 103. */
  lemma Fourth()
    ensures Take(State(Book(map[100 := 5, 103 := 1], map[]), [O1, O2, O3], [C1], 20, true), O4, DAY)
            == State(Book(map[100 := 5], map[102 := 7]), [O1, O2, O3, O4], [C1, C2], 20, true)
  {
    var b, after := Book(map[100 := 5, 103 := 1], map[102 := 7]), Book(map[100 := 5], map[102 := 7]);
    assert Changed(Book(map[100 := 5, 103 := 1], map[]), O4) == b && Sweep(after) == after;
    assert b.bid.Keys == {100, 103} && b.ask.Keys == {102} == after.ask.Keys && after.bid.Keys == {100};
    MaxIs({100, 103}, 103);
    MaxIs({100}, 100);
    MinIs({102}, 102);
    assert Best(b, Ask) == 103 && WithoutLevel(b, Bid, 103) == after;
    assert CutBook(after, Ask) == after && CutOrders(after, Ask, 20) == [];
    assert CutOrders(b, Ask, 20) == [C2];
    assert Uncovered([C1], O4) == [C1];
  }

  /** The logged delete takes the place of the one held back, but the book held no longer has that volume. */
  lemma Fifth()
    ensures Take(State(Book(map[100 := 5], map[102 := 7]), [O1, O2, O3, O4], [C1, C2], 20, true), O5, DAY)
            == State(Book(map[100 := 5], map[102 := 2]), [O1, O2, O3, O4, O5], [C2], 20, true)
  {
    var after := Book(map[100 := 5], map[102 := 2]);
    assert Changed(Book(map[100 := 5], map[102 := 7]), O5) == after && Sweep(after) == after;
    assert Uncovered([C2], O5) == [C2] && [C1, C2][1..] == [C2];
  }

  lemma ReplayOfFive()
    ensures Replayed([O1, O2, O3, O4, O5] + [C2], Ask, 102) == 7
  {
    LevelAfterOneMore(0, [], O1, Ask, 102);
    LevelAfterOneMore(0, [O1], O2, Ask, 102);
    LevelAfterOneMore(0, [O1, O2], O3, Ask, 102);
    LevelAfterOneMore(0, [O1, O2, O3], O4, Ask, 102);
    LevelAfterOneMore(0, [O1, O2, O3, O4], O5, Ask, 102);
    LevelAfterOneMore(0, [O1, O2, O3, O4, O5], C2, Ask, 102);
    assert [] + [O1] == [O1] && [O1] + [O2] == [O1, O2] && [O1, O2] + [O3] == [O1, O2, O3];
    assert [O1, O2, O3] + [O4] == [O1, O2, O3, O4] && [O1, O2, O3, O4] + [O5] == [O1, O2, O3, O4, O5];
  }

  /** Five orders after which the written log rebuilds 7 at a level where the book holds 2. */
  lemma OverlapLosesStep()
    ensures var s := Run([O1, O2, O3, O4, O5], DAY);
            && Volume(s.book.ask, 102) == 2 && Replayed(s.written + s.pending, Ask, 102) == 7
            && !InStep(s)
  {
    FirstTwo();
    Third();
    Fourth();
    Fifth();
    ReplayOfFive();
    assert [O1, O2, O3, O4, O5][..4] == [O1, O2, O3, O4] && [O1, O2, O3, O4][..3] == [O1, O2, O3];
    assert [O1, O2, O3][..2] == [O1, O2] && [O1, O2][..1] == [O1] && [O1][..0] == [];
    assert Run([], DAY) == FRESH;
    var s1 := Run([O1], DAY);
    var s2 := Run([O1, O2], DAY);
    var s3 := Run([O1, O2, O3], DAY);
    var s4 := Run([O1, O2, O3, O4], DAY);
    var s := Run([O1, O2, O3, O4, O5], DAY);
    assert !MatchesAt(s, Ask, 102);
  }

  /** When the log ends after the third order the delete held back is never written: five remain at a level
      the book no longer has. */
  lemma EndOfLogLosesADelete()
    ensures var s := Run([O1, O2, O3], DAY);
            && s.pending == [C1] && Volume(s.book.ask, 102) == 0
            && Volume(ApplyAll(EMPTY_BOOK, s.written).ask, 102) == 5
  {
    FirstTwo();
    Third();
    assert [O1, O2, O3][..2] == [O1, O2] && [O1, O2][..1] == [O1] && [O1][..0] == [];
    assert Run([], DAY) == FRESH;
    var s1 := Run([O1], DAY);
    var s2 := Run([O1, O2], DAY);
    ReplayOfThree();
    assert Sweep(EMPTY_BOOK) == EMPTY_BOOK;
    ApplyAllByLevel(EMPTY_BOOK, [O1, O2, O3], Ask, 102);
  }

  lemma ReplayOfThree()
    ensures Replayed([O1, O2, O3], Ask, 102) == 5
  {
    LevelAfterOneMore(0, [], O1, Ask, 102);
    LevelAfterOneMore(0, [O1], O2, Ask, 102);
    LevelAfterOneMore(0, [O1, O2], O3, Ask, 102);
    assert [] + [O1] == [O1] && [O1] + [O2] == [O1, O2] && [O1, O2] + [O3] == [O1, O2, O3];
  }
}
