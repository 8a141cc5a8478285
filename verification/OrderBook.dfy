/** Price levels of one book side and the effect of a logged order on them
    (guis/orderBookSim/OrderBookSim.h), with the closed form of a replayed book. */
module OrderBook {

  /** One record of the order log; `kind` is the packed type word. */
  datatype Event = Event(msecs: int, price: int, size: int, kind: int)

  datatype Side = Bid | Ask

  /** Resting volume by price. */
  type Levels = map<int, int>

  datatype Book = Book(bid: Levels, ask: Levels) {
    function On(side: Side): Levels {
      if side == Bid then bid else ask
    }
  }

  const EMPTY_BOOK := Book(map[], map[])

  /** The log as records: the columns are filled together and have one length. */
  function Records(msecs: seq<int>, price: seq<int>, size: seq<int>, kind: seq<int>): (log: seq<Event>)
    requires |msecs| == |price| == |size| == |kind|
    ensures |log| == |msecs|
    ensures forall i :: 0 <= i < |log| ==> log[i] == Event(msecs[i], price[i], size[i], kind[i])
  {
    seq(|msecs|, i requires 0 <= i < |msecs| => Event(msecs[i], price[i], size[i], kind[i]))
  }

  // ---------------------------------------------------------------- decoding

  /** Bit 1 of the type word; Euclidean division by two is the arithmetic shift. */
  function SideOf(e: Event): Side {
    if (e.kind / 2) % 2 == 0 then Bid else Ask
  }

  /** Bit 0 of the type word. */
  predicate IsDelete(e: Event) {
    e.kind % 2 == 1
  }

  // ------------------------------------------------------------------- steps

  function Volume(levels: Levels, price: int): int {
    if price in levels then levels[price] else 0
  }

  /** What the sweep keeps: levels with a non-zero price and a non-zero volume. */
  function Live(levels: Levels): Levels {
    map p | p in levels && p != 0 && levels[p] != 0 :: levels[p]
  }

  ghost predicate Clean(levels: Levels) {
    forall p :: p in levels ==> p != 0 && levels[p] != 0
  }

  /** The volume an order leaves at its own price, before the sweep. */
  function Touched(levels: Levels, e: Event): int {
    var v := Volume(levels, e.price);
    if !IsDelete(e) then v + e.size else if e.size > v then 0 else v - e.size
  }

  function Step(book: Book, e: Event): Book {
    if SideOf(e) == Bid
    then Book(Live(book.bid[e.price := Touched(book.bid, e)]), Live(book.ask))
    else Book(Live(book.bid), Live(book.ask[e.price := Touched(book.ask, e)]))
  }

  /** The book after the first n orders. */
  function Replay(log: seq<Event>, n: nat): Book
    requires n <= |log|
  {
    if n == 0 then EMPTY_BOOK else Step(Replay(log, n - 1), log[n - 1])
  }

  lemma {:induction false} ReplayIsClean(log: seq<Event>, n: nat)
    requires n <= |log|
    ensures Clean(Replay(log, n).bid) && Clean(Replay(log, n).ask)
  {
    if n > 0 {
      ReplayIsClean(log, n - 1);
    }
  }

  /** Two swept sides that show the same volume at every price are the same map. */
  lemma SameVolumes(a: Levels, b: Levels)
    requires Clean(a) && Clean(b)
    requires forall p :: Volume(a, p) == Volume(b, p)
    ensures a == b
  {
    forall p
      ensures p in a <==> p in b
      ensures p in a ==> a[p] == b[p]
    {
      assert Volume(a, p) == Volume(b, p);
    }
  }

  // ------------------------------------------------------- the reflected sum

  predicate Hits(e: Event, side: Side, price: int) {
    SideOf(e) == side && e.price == price
  }

  /** Adds minus deletes at one level over the first n orders. */
  function Net(log: seq<Event>, side: Side, price: int, n: nat): int
    requires n <= |log|
  {
    if n == 0 then 0
    else
      var e := log[n - 1];
      Net(log, side, price, n - 1)
      + if !Hits(e, side, price) then 0 else if IsDelete(e) then -e.size else e.size
  }

  /** A point where the clamp at zero can act: the start, or just after a delete at the level. */
  predicate ClampPoint(log: seq<Event>, side: Side, price: int, k: nat)
    requires k <= |log|
  {
    k == 0 || (Hits(log[k - 1], side, price) && IsDelete(log[k - 1]))
  }

  /** `low` is the least running sum over the clamp points of the first n orders. */
  ghost predicate IsFloor(log: seq<Event>, side: Side, price: int, n: nat, low: int)
    requires n <= |log|
  {
    && (forall k: nat :: k <= n && ClampPoint(log, side, price, k) ==> low <= Net(log, side, price, k))
    && (exists k: nat :: k <= n && ClampPoint(log, side, price, k) && low == Net(log, side, price, k))
  }

  /** `low` is the least of all running sums S_0 .. S_n. */
  ghost predicate IsMinimum(log: seq<Event>, side: Side, price: int, n: nat, low: int)
    requires n <= |log|
  {
    && (forall k: nat :: k <= n ==> low <= Net(log, side, price, k))
    && (exists k: nat :: k <= n && low == Net(log, side, price, k))
  }

  ghost predicate NonNegativeSizes(log: seq<Event>) {
    forall i :: 0 <= i < |log| ==> log[i].size >= 0
  }

  /** For every log, also one with negative sizes: the self-erasing, clamped level is the running
      sum reflected at the least value it had at a clamp point. */
  lemma {:induction false} VolumeIsReflectedSum(log: seq<Event>, side: Side, price: int, n: nat)
    requires n <= |log| && price != 0
    ensures IsFloor(log, side, price, n,
                    Net(log, side, price, n) - Volume(Replay(log, n).On(side), price))
  {
    if n == 0 {
      assert ClampPoint(log, side, price, 0) && Net(log, side, price, 0) == 0;
    } else {
      VolumeIsReflectedSum(log, side, price, n - 1);
      ReplayIsClean(log, n - 1);
      var e := log[n - 1];
      var before := Replay(log, n - 1).On(side);
      var after := Replay(log, n).On(side);
      if Hits(e, side, price) {
        assert Volume(after, price) == Touched(before, e);
        var k: nat :| k <= n - 1 && ClampPoint(log, side, price, k)
                      && Net(log, side, price, n - 1) - Volume(before, price) == Net(log, side, price, k);
        if IsDelete(e) {
          assert ClampPoint(log, side, price, n);
        }
      } else {
        assert Volume(after, price) == Volume(before, price);
      }
    }
  }

  /** Some clamp point of the first n orders has a running sum no greater than S_k. */
  ghost predicate ClampedBelow(log: seq<Event>, side: Side, price: int, n: nat, k: nat)
    requires n <= |log| && k <= |log|
  {
    exists c: nat :: c <= n && ClampPoint(log, side, price, c) && Net(log, side, price, c) <= Net(log, side, price, k)
  }

  /** No running sum goes below all those at clamp points. */
  ghost predicate AllClampedBelow(log: seq<Event>, side: Side, price: int, n: nat)
    requires n <= |log|
  {
    forall k: nat {:trigger ClampedBelow(log, side, price, n, k)} :: k <= n ==> ClampedBelow(log, side, price, n, k)
  }

  /** The resting volume is S_n minus the plain minimum of S_0 .. S_n exactly when no running sum goes
      below all those at clamp points. */
  lemma MinimumFormIff(log: seq<Event>, side: Side, price: int, n: nat, low: int)
    requires n <= |log| && price != 0
    requires low == Net(log, side, price, n) - Volume(Replay(log, n).On(side), price)
    ensures IsMinimum(log, side, price, n, low) <==> AllClampedBelow(log, side, price, n)
  {
    VolumeIsReflectedSum(log, side, price, n);
    FloorIsMinimumIff(log, side, price, n, low);
  }

  lemma FloorIsMinimumIff(log: seq<Event>, side: Side, price: int, n: nat, low: int)
    requires n <= |log| && IsFloor(log, side, price, n, low)
    ensures IsMinimum(log, side, price, n, low) <==> AllClampedBelow(log, side, price, n)
  {
    var c: nat :| c <= n && ClampPoint(log, side, price, c) && low == Net(log, side, price, c);
    if IsMinimum(log, side, price, n, low) {
      forall k: nat | k <= n
        ensures ClampedBelow(log, side, price, n, k)
      {
        assert low <= Net(log, side, price, k);
      }
    } else {
      var k: nat :| k <= n && Net(log, side, price, k) < low;
      assert !ClampedBelow(log, side, price, n, k);
    }
  }

  /** With sizes that are not negative the resting volume is S_n minus the minimum of S_0 .. S_n. */
  lemma VolumeIsSumMinusMinimum(log: seq<Event>, side: Side, price: int, n: nat)
    requires n <= |log| && price != 0 && NonNegativeSizes(log)
    ensures IsMinimum(log, side, price, n,
                      Net(log, side, price, n) - Volume(Replay(log, n).On(side), price))
  {
    VolumeIsReflectedSum(log, side, price, n);
    var low := Net(log, side, price, n) - Volume(Replay(log, n).On(side), price);
    forall k: nat | k <= n
      ensures low <= Net(log, side, price, k)
    {
      var c := LastClampPoint(log, side, price, k);
    }
  }

  /** A log the condition of MinimumFormIff fails for: an add of a negative size is not clamped. */
  lemma NegativeAddIsNotClamped()
    ensures var log := [Event(0, 5, -3, 0)];
            && Volume(Replay(log, 1).On(Bid), 5) == Net(log, Bid, 5, 1) == -3
            && !IsMinimum(log, Bid, 5, 1, Net(log, Bid, 5, 1) - Volume(Replay(log, 1).On(Bid), 5))
  {
    var log := [Event(0, 5, -3, 0)];
    assert Net(log, Bid, 5, 1) == Net(log, Bid, 5, 0) - 3 == -3;
    assert Replay(log, 1) == Step(EMPTY_BOOK, log[0]);
  }

  /** Between clamp points the running sum only grows. */
  lemma {:induction false} LastClampPoint(log: seq<Event>, side: Side, price: int, k: nat) returns (c: nat)
    requires k <= |log| && NonNegativeSizes(log)
    ensures c <= k && ClampPoint(log, side, price, c)
    ensures Net(log, side, price, c) <= Net(log, side, price, k)
  {
    if ClampPoint(log, side, price, k) {
      c := k;
    } else {
      c := LastClampPoint(log, side, price, k - 1);
    }
  }

  /** The orders among the first n that touch one level. */
  function Own(log: seq<Event>, side: Side, price: int, n: nat): seq<Event>
    requires n <= |log|
  {
    if n == 0 then []
    else Own(log, side, price, n - 1) + if Hits(log[n - 1], side, price) then [log[n - 1]] else []
  }

  lemma {:induction false} ReplayOfPrefix(log: seq<Event>, longer: seq<Event>, n: nat)
    requires n <= |log| && log <= longer
    ensures Replay(log, n) == Replay(longer, n)
  {
    if n > 0 {
      ReplayOfPrefix(log, longer, n - 1);
    }
  }

  lemma StepOnLevel(book: Book, e: Event, side: Side, price: int)
    requires price != 0 && Clean(book.On(side))
    ensures Volume(Step(book, e).On(side), price)
            == if Hits(e, side, price) then Touched(book.On(side), e) else Volume(book.On(side), price)
  {
  }

  /** The volume at a level after the first n orders. */
  function VolumeAfter(log: seq<Event>, side: Side, price: int, n: nat): int
    requires n <= |log|
  {
    Volume(Replay(log, n).On(side), price)
  }

  lemma OneOrderMore(log: seq<Event>, side: Side, price: int, n: nat, v: int)
    requires 0 < n <= |log| && price != 0 && v == VolumeAfter(log, side, price, n - 1)
    ensures VolumeAfter(log, side, price, n)
            == var e := log[n - 1];
               if !Hits(e, side, price) then v
               else if !IsDelete(e) then v + e.size else if e.size > v then 0 else v - e.size
  {
    ReplayIsClean(log, n - 1);
    StepOnLevel(Replay(log, n - 1), log[n - 1], side, price);
  }

  /** A level depends on its own orders alone: the rest of the log can be dropped or reordered freely. */
  lemma {:induction false} LevelsAreIndependent(log: seq<Event>, side: Side, price: int, n: nat)
    requires n <= |log| && price != 0
    ensures var own := Own(log, side, price, n);
            VolumeAfter(log, side, price, n) == VolumeAfter(own, side, price, |own|)
  {
    if n > 0 {
      LevelsAreIndependent(log, side, price, n - 1);
      var shorter, own, e := Own(log, side, price, n - 1), Own(log, side, price, n), log[n - 1];
      OneOrderMore(log, side, price, n, VolumeAfter(log, side, price, n - 1));
      if Hits(e, side, price) {
        ReplayOfPrefix(shorter, own, |shorter|);
        OneOrderMore(own, side, price, |own|, VolumeAfter(shorter, side, price, |shorter|));
      } else {
        assert own == shorter;
      }
    }
  }

  /** Volume added at one level over the first n orders. */
  function Added(log: seq<Event>, side: Side, price: int, n: nat): int
    requires n <= |log|
  {
    if n == 0 then 0
    else
      Added(log, side, price, n - 1)
      + if Hits(log[n - 1], side, price) && !IsDelete(log[n - 1]) then log[n - 1].size else 0
  }

  /** Volumes never leave 0 .. the volume added, so 32-bit levels are exact while the adds fit. */
  lemma {:induction false} VolumeWithinAdds(log: seq<Event>, side: Side, price: int, n: nat)
    requires n <= |log| && NonNegativeSizes(log)
    ensures 0 <= Volume(Replay(log, n).On(side), price) <= Added(log, side, price, n)
  {
    if n > 0 {
      VolumeWithinAdds(log, side, price, n - 1);
      ReplayIsClean(log, n - 1);
    }
  }
}
