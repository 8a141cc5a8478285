/** Joining two nested tables while erasing from the second one (source/bin/compPred.cpp and
    source/bin/compSig.cpp). Floating-point sums are taken over the reals. */
module SignalJoin {
  import opened Options
  import opened IntSets

  /** Rows by ticker and by time of day. */
  type Table<R> = map<string, map<int, R>>

  type Key = (string, int)

  predicate Has<R>(t: Table<R>, k: Key) {
    k.0 in t && k.1 in t[k.0]
  }

  function RowAt<R>(t: Table<R>, k: Key): R
    requires Has(t, k)
  {
    t[k.0][k.1]
  }

  function Keys<R>(t: Table<R>): (keys: set<Key>)
    ensures forall k :: k in keys <==> Has(t, k)
  {
    var keys := set uid, time | uid in t && time in t[uid] :: (uid, time);
    assert forall k :: k in keys ==> Has(t, k);
    assert forall k :: Has(t, k) ==> k in keys by {
      forall k | Has(t, k)
        ensures k in keys
      {
        var (uid, time) := k;
        assert uid in t && time in t[uid];
        assert (uid, time) in keys;
      }
    }
    keys
  }

  function CommonKeys<R, S>(t: Table<R>, u: Table<S>): set<Key> {
    Keys(t) * Keys(u)
  }

  /** The table without some keys; tickers stay, also those left without rows. */
  function Without<R>(t: Table<R>, keys: set<Key>): Table<R> {
    map uid | uid in t :: map time | time in t[uid] && (uid, time) !in keys :: t[uid][time]
  }

  /** Erasing one row; its ticker stays. */
  function EraseKey<R>(t: Table<R>, k: Key): Table<R>
    requires Has(t, k)
  {
    t[k.0 := t[k.0] - {k.1}]
  }

  /** Exactly the given keys are missing, all other rows are as before, and all tickers are still there. */
  lemma WithoutIs<R>(t: Table<R>, keys: set<Key>)
    ensures Without(t, keys).Keys == t.Keys
    ensures forall k :: Has(Without(t, keys), k) <==> Has(t, k) && k !in keys
    ensures forall k :: Has(Without(t, keys), k) ==> RowAt(Without(t, keys), k) == RowAt(t, k)
  {
  }

  lemma EraseOneMore<R>(t: Table<R>, keys: set<Key>, k: Key)
    requires Has(t, k) && k !in keys
    ensures Has(Without(t, keys), k) && RowAt(Without(t, keys), k) == RowAt(t, k)
    ensures EraseKey(Without(t, keys), k) == Without(t, keys + {k})
  {
    var a, b := EraseKey(Without(t, keys), k), Without(t, keys + {k});
    forall uid | uid in t
      ensures a[uid] == b[uid]
    {
      assert forall time :: time in a[uid] <==> time in b[uid];
    }
  }

  // --------------------------------------------------------------- accumulators

  datatype Sums = Sums(n: int, sum: real, sum2: real) {
    function Add(x: real): Sums {
      Sums(n + 1, sum + x, sum2 + x * x)
    }
  }

  datatype Corr = Corr(accX: Sums, accY: Sums, accXY: Sums) {
    function Add(p: (real, real)): Corr {
      Corr(accX.Add(p.0), accY.Add(p.1), accXY.Add(p.0 * p.1))
    }
  }

  /** A correlator after adding one point for every key of a set; the order does not matter. */
  ghost function AddAll(c: Corr, keys: set<Key>, point: Key -> (real, real)): Corr {
    if keys == {} then c
    else
      var k :| k in keys;
      AddAll(c, keys - {k}, point).Add(point(k))
  }

  lemma AddCommutes(c: Corr, p: (real, real), q: (real, real))
    ensures c.Add(p).Add(q) == c.Add(q).Add(p)
  {
  }

  lemma {:induction false} AddAllSplit(c: Corr, keys: set<Key>, point: Key -> (real, real), k: Key)
    requires k in keys
    ensures AddAll(c, keys, point) == AddAll(c, keys - {k}, point).Add(point(k))
  {
    var first :| first in keys && AddAll(c, keys, point) == AddAll(c, keys - {first}, point).Add(point(first));
    if first != k {
      AddAllSplit(c, keys - {first}, point, k);
      AddAllSplit(c, keys - {k}, point, first);
      assert keys - {first} - {k} == keys - {k} - {first};
      AddCommutes(AddAll(c, keys - {k} - {first}, point), point(first), point(k));
    }
  }

  lemma AddOneMore(c: Corr, keys: set<Key>, point: Key -> (real, real), k: Key)
    requires k !in keys
    ensures AddAll(c, keys + {k}, point) == AddAll(c, keys, point).Add(point(k))
  {
    AddAllSplit(c, keys + {k}, point, k);
    assert keys + {k} - {k} == keys;
  }

  // ------------------------------------------------------- what a correlator holds

  /** A sum over a set of keys. */
  ghost function SumOver(keys: set<Key>, f: Key -> real): real {
    if keys == {} then 0.0
    else
      var k :| k in keys;
      SumOver(keys - {k}, f) + f(k)
  }

  lemma {:induction false} SumOverSplit(keys: set<Key>, f: Key -> real, k: Key)
    requires k in keys
    ensures SumOver(keys, f) == SumOver(keys - {k}, f) + f(k)
  {
    var first :| first in keys && SumOver(keys, f) == SumOver(keys - {first}, f) + f(first);
    if first != k {
      SumOverSplit(keys - {first}, f, k);
      SumOverSplit(keys - {k}, f, first);
      assert keys - {first} - {k} == keys - {k} - {first};
    }
  }

  /** Count, sum and sum of squares have grown by those of one quantity over some keys. */
  ghost predicate SumsGrew(before: Sums, after: Sums, keys: set<Key>, x: Key -> real) {
    && after.n == before.n + |keys|
    && after.sum == before.sum + SumOver(keys, x)
    && after.sum2 == before.sum2 + SumOver(keys, k => x(k) * x(k))
  }

  /** A correlator has taken in the pairs (x, y) of some keys. */
  ghost predicate Correlates(before: Corr, after: Corr, keys: set<Key>, x: Key -> real, y: Key -> real) {
    && SumsGrew(before.accX, after.accX, keys, x)
    && SumsGrew(before.accY, after.accY, keys, y)
    && SumsGrew(before.accXY, after.accXY, keys, k => x(k) * y(k))
  }

  lemma SumsGrowByOne(before: Sums, middle: Sums, keys: set<Key>, x: Key -> real, k: Key, v: real)
    requires k !in keys && SumsGrew(before, middle, keys, x) && v == x(k)
    ensures SumsGrew(before, middle.Add(v), keys + {k}, x)
  {
    assert keys + {k} - {k} == keys;
    SumOverSplit(keys + {k}, x, k);
    SumOverSplit(keys + {k}, k => x(k) * x(k), k);
  }

  lemma OnePairMore(c: Corr, middle: Corr, keys: set<Key>, x: Key -> real, y: Key -> real, k: Key)
    requires k !in keys && Correlates(c, middle, keys, x, y)
    ensures Correlates(c, middle.Add((x(k), y(k))), keys + {k}, x, y)
  {
    SumsGrowByOne(c.accX, middle.accX, keys, x, k, x(k));
    SumsGrowByOne(c.accY, middle.accY, keys, y, k, y(k));
    SumsGrowByOne(c.accXY, middle.accXY, keys, k => x(k) * y(k), k, x(k) * y(k));
  }

  lemma NoPairs(c: Corr, x: Key -> real, y: Key -> real)
    ensures Correlates(c, c, {}, x, y)
  {
  }

  lemma {:induction false} AddAllCorrelates(c: Corr, keys: set<Key>, point: Key -> (real, real), x: Key -> real, y: Key -> real)
    requires forall k :: point(k) == (x(k), y(k))
    ensures Correlates(c, AddAll(c, keys, point), keys, x, y)
  {
    if keys == {} {
      NoPairs(c, x, y);
    } else {
      var k :| k in keys;
      var rest := keys - {k};
      AddAllCorrelates(c, rest, point, x, y);
      OnePairMore(c, AddAll(c, rest, point), rest, x, y, k);
      AddAllSplit(c, keys, point, k);
      assert rest + {k} == keys;
    }
  }

  // ------------------------------------------------------------ compPred: comp

  datatype Signal = Signal(pred: real, target: real)

  /** corrPreds and the four entries of vCorrTar. */
  datatype Correlators = Correlators(preds: Corr, tar0: Corr, tar1: Corr, tar2: Corr, tar3: Corr) {
    function Add(s1: Signal, s2: Signal): Correlators {
      Correlators(preds.Add((s1.pred, s2.pred)), tar0.Add((s1.pred, s1.target)), tar1.Add((s1.pred, s2.target)),
                  tar2.Add((s2.pred, s1.target)), tar3.Add((s2.pred, s2.target)))
    }
  }

  function SignalAt(t: Table<Signal>, k: Key): Signal {
    if Has(t, k) then RowAt(t, k) else Signal(0.0, 0.0)
  }

  /** All five correlators fed with both tables' rows at every key of a set. */
  ghost function Fed(c: Correlators, t1: Table<Signal>, t2: Table<Signal>, keys: set<Key>): Correlators {
    Correlators(AddAll(c.preds, keys, k => (SignalAt(t1, k).pred, SignalAt(t2, k).pred)),
                AddAll(c.tar0, keys, k => (SignalAt(t1, k).pred, SignalAt(t1, k).target)),
                AddAll(c.tar1, keys, k => (SignalAt(t1, k).pred, SignalAt(t2, k).target)),
                AddAll(c.tar2, keys, k => (SignalAt(t2, k).pred, SignalAt(t1, k).target)),
                AddAll(c.tar3, keys, k => (SignalAt(t2, k).pred, SignalAt(t2, k).target)))
  }

  function PredOf(t: Table<Signal>): Key -> real {
    k => SignalAt(t, k).pred
  }

  function TargetOf(t: Table<Signal>): Key -> real {
    k => SignalAt(t, k).target
  }

  /** What the five correlators of the comparison correlate. */
  ghost predicate Compared(before: Correlators, after: Correlators, t1: Table<Signal>, t2: Table<Signal>, keys: set<Key>) {
    && Correlates(before.preds, after.preds, keys, PredOf(t1), PredOf(t2))
    && Correlates(before.tar0, after.tar0, keys, PredOf(t1), TargetOf(t1))
    && Correlates(before.tar1, after.tar1, keys, PredOf(t1), TargetOf(t2))
    && Correlates(before.tar2, after.tar2, keys, PredOf(t2), TargetOf(t1))
    && Correlates(before.tar3, after.tar3, keys, PredOf(t2), TargetOf(t2))
  }

  lemma FedIsCompared(c: Correlators, t1: Table<Signal>, t2: Table<Signal>, keys: set<Key>)
    ensures Compared(c, Fed(c, t1, t2, keys), t1, t2, keys)
  {
    AddAllCorrelates(c.preds, keys, k => (SignalAt(t1, k).pred, SignalAt(t2, k).pred), PredOf(t1), PredOf(t2));
    AddAllCorrelates(c.tar0, keys, k => (SignalAt(t1, k).pred, SignalAt(t1, k).target), PredOf(t1), TargetOf(t1));
    AddAllCorrelates(c.tar1, keys, k => (SignalAt(t1, k).pred, SignalAt(t2, k).target), PredOf(t1), TargetOf(t2));
    AddAllCorrelates(c.tar2, keys, k => (SignalAt(t2, k).pred, SignalAt(t1, k).target), PredOf(t2), TargetOf(t1));
    AddAllCorrelates(c.tar3, keys, k => (SignalAt(t2, k).pred, SignalAt(t2, k).target), PredOf(t2), TargetOf(t2));
  }

  /** One common key with predictions 2 and 3 adds 6 to the cross sum. */
  lemma CrossSumOfOne()
    ensures var (t1, t2) := (map["A" := map[1 := Signal(2.0, 0.5)]], map["A" := map[1 := Signal(3.0, 0.25)]]);
            var zero := Corr(Sums(0, 0.0, 0.0), Sums(0, 0.0, 0.0), Sums(0, 0.0, 0.0));
            var fed := Fed(Correlators(zero, zero, zero, zero, zero), t1, t2, {("A", 1)});
            && fed.preds == Corr(Sums(1, 2.0, 4.0), Sums(1, 3.0, 9.0), Sums(1, 6.0, 36.0))
            && fed.tar1.accXY.sum == 0.5 && fed.tar2.accXY.sum == 1.5
  {
    var k: Key := ("A", 1);
    assert {k} - {k} == {};
  }

  lemma FeedOneMore(c: Correlators, t1: Table<Signal>, t2: Table<Signal>, keys: set<Key>, k: Key)
    requires k !in keys && Has(t1, k) && Has(t2, k)
    ensures Fed(c, t1, t2, keys + {k}) == Fed(c, t1, t2, keys).Add(RowAt(t1, k), RowAt(t2, k))
  {
    AddOneMore(c.preds, keys, k => (SignalAt(t1, k).pred, SignalAt(t2, k).pred), k);
    AddOneMore(c.tar0, keys, k => (SignalAt(t1, k).pred, SignalAt(t1, k).target), k);
    AddOneMore(c.tar1, keys, k => (SignalAt(t1, k).pred, SignalAt(t2, k).target), k);
    AddOneMore(c.tar2, keys, k => (SignalAt(t2, k).pred, SignalAt(t1, k).target), k);
    AddOneMore(c.tar3, keys, k => (SignalAt(t2, k).pred, SignalAt(t2, k).target), k);
  }

  /** The join: every common key feeds each correlator exactly once, no other key does, and the second
      table loses exactly the common keys. */
  method CompPred(t1: Table<Signal>, t2: Table<Signal>, corrs0: Correlators)
    returns (corrs: Correlators, rest: Table<Signal>)
    ensures corrs == Fed(corrs0, t1, t2, CommonKeys(t1, t2))
    ensures Compared(corrs0, corrs, t1, t2, CommonKeys(t1, t2))
    ensures rest == Without(t2, Keys(t1))
  {
    corrs, rest := corrs0, t2;
    ghost var seen: set<Key> := {};
    WithoutNothing(t2);
    var uids := t1.Keys;
    while uids != {}
      invariant uids <= t1.Keys
      invariant forall k :: k in seen <==> Has(t1, k) && k.0 !in uids
      invariant rest == Without(t2, seen)
      invariant corrs == Fed(corrs0, t1, t2, seen * Keys(t2))
    {
      var uid :| uid in uids;
      var times := t1[uid].Keys;
      while times != {}
        invariant times <= t1[uid].Keys
        invariant forall k :: k in seen <==> Has(t1, k) && (k.0 !in uids || (k.0 == uid && k.1 !in times))
        invariant rest == Without(t2, seen)
        invariant corrs == Fed(corrs0, t1, t2, seen * Keys(t2))
      {
        var time := MinOf(times);
        corrs, rest := VisitKey(t1, t2, corrs0, corrs, rest, (uid, time), seen);
        times := times - {time};
        seen := seen + {(uid, time)};
      }
      uids := uids - {uid};
    }
    assert seen == Keys(t1);
    FedIsCompared(corrs0, t1, t2, CommonKeys(t1, t2));
  }

  /** The body of the join for one key of the first table. */
  method VisitKey(t1: Table<Signal>, ghost t2: Table<Signal>, ghost corrs0: Correlators, corrs: Correlators,
                  rest: Table<Signal>, k: Key, ghost seen: set<Key>)
    returns (corrs': Correlators, rest': Table<Signal>)
    requires Has(t1, k) && k !in seen
    requires rest == Without(t2, seen) && corrs == Fed(corrs0, t1, t2, seen * Keys(t2))
    ensures rest' == Without(t2, seen + {k}) && corrs' == Fed(corrs0, t1, t2, (seen + {k}) * Keys(t2))
  {
    corrs', rest' := corrs, rest;
    if k.0 in rest && k.1 in rest[k.0] {
      EraseOneMore(t2, seen, k);
      FeedOneMore(corrs0, t1, t2, seen * Keys(t2), k);
      assert (seen + {k}) * Keys(t2) == seen * Keys(t2) + {k};
      corrs' := corrs.Add(t1[k.0][k.1], rest[k.0][k.1]);
      rest' := EraseKey(rest, k);
    } else {
      AbsentKey(t2, seen, k);
      assert (seen + {k}) * Keys(t2) == seen * Keys(t2);
    }
  }

  lemma AbsentKey<R>(t: Table<R>, keys: set<Key>, k: Key)
    requires k !in keys && !Has(Without(t, keys), k)
    ensures !Has(t, k) && Without(t, keys + {k}) == Without(t, keys)
  {
    var a, b := Without(t, keys + {k}), Without(t, keys);
    assert !Has(t, k);
    forall uid | uid in t
      ensures a[uid] == b[uid]
    {
      assert forall time :: time in a[uid] <==> time in b[uid];
    }
  }

  // -------------------------------------------------------- compPred: get_data

  datatype PredRow = PredRow(uid: string, time: int, signal: Signal)

  const MIN_TIME := 0

  predicate Loads(r: PredRow) {
    r.uid != "uid" && r.time > MIN_TIME
  }

  /** The header and rows at or before time zero are not accepted. */
  lemma LoadsIff(r: PredRow)
    ensures Loads(r) <==> r.uid != "uid" && r.time >= 1
  {
  }

  /** The first accepted row for a key. */
  function FirstRow(rows: seq<PredRow>, k: Key): Option<Signal> {
    if rows == [] then None
    else if Loads(rows[0]) && (rows[0].uid, rows[0].time) == k then Some(rows[0].signal)
    else FirstRow(rows[1..], k)
  }

  predicate Accepts(r: PredRow, k: Key) {
    Loads(r) && r.uid == k.0 && r.time == k.1
  }

  /** The row found is accepted for the key, and none before it is; without such a row there is none. */
  lemma {:induction false} FirstRowIs(rows: seq<PredRow>, k: Key) returns (i: nat)
    ensures i <= |rows| && (forall j :: 0 <= j < i ==> !Accepts(rows[j], k))
    ensures if i < |rows| then Accepts(rows[i], k) && FirstRow(rows, k) == Some(rows[i].signal)
            else FirstRow(rows, k) == None
  {
    i := 0;
    if rows != [] && !Accepts(rows[0], k) {
      var rest := FirstRowIs(rows[1..], k);
      i := rest + 1;
      forall j | 0 <= j < i
        ensures !Accepts(rows[j], k)
      {
        if j > 0 {
          assert rows[j] == rows[1..][j - 1];
        }
      }
    }
  }

  function Lookup<R>(t: Table<R>, k: Key): Option<R> {
    if Has(t, k) then Some(RowAt(t, k)) else None
  }

  lemma {:induction false} FirstRowSnoc(rows: seq<PredRow>, r: PredRow, k: Key)
    ensures FirstRow(rows + [r], k)
            == if FirstRow(rows, k).Some? then FirstRow(rows, k)
               else if Loads(r) && (r.uid, r.time) == k then Some(r.signal) else None
  {
    if rows != [] {
      assert (rows + [r])[1..] == rows[1..] + [r];
      FirstRowSnoc(rows[1..], r, k);
    }
  }

  /** `insert` keeps what is there: the table holds the first accepted row of every key and nothing else. */
  method GetData(rows: seq<PredRow>) returns (t: Table<Signal>)
    ensures forall k :: Lookup(t, k) == FirstRow(rows, k)
  {
    t := map[];
    for i := 0 to |rows|
      invariant forall k :: Lookup(t, k) == FirstRow(rows[..i], k)
    {
      var r := rows[i];
      ghost var before := t;
      if Loads(r) {
        var times := if r.uid in t then t[r.uid] else map[];
        if r.time !in times {
          times := times[r.time := r.signal];
        }
        t := t[r.uid := times];
      }
      forall k
        ensures Lookup(t, k) == FirstRow(rows[..i + 1], k)
      {
        assert rows[..i + 1] == rows[..i] + [r];
        FirstRowSnoc(rows[..i], r, k);
        assert Lookup(before, k) == FirstRow(rows[..i], k);
      }
    }
    assert rows[..|rows|] == rows;
  }

  // ------------------------------------------------------------- compSig: comp

  /** The order the first table's tickers are visited in. */
  ghost predicate Lists<R>(order: seq<string>, t: Table<R>) {
    && (forall i :: 0 <= i < |order| ==> order[i] in t)
    && (forall uid :: uid in t ==> uid in order)
    && (forall i, j :: 0 <= i < j < |order| ==> order[i] != order[j])
  }

  /** The time left in `time_prev` when ticker number i is reached: it is not reset between tickers. */
  function Carried<R>(t: Table<R>, order: seq<string>, i: nat): int
    requires i <= |order| && forall j :: 0 <= j < |order| ==> order[j] in t
  {
    if i == 0 then 0
    else if t[order[i - 1]].Keys == {} then Carried(t, order, i - 1)
    else MaxOf(t[order[i - 1]].Keys)
  }

  /** The first row of a ticker is passed over when its time is the carried one. */
  predicate Skips<R>(t: Table<R>, order: seq<string>, i: nat)
    requires i < |order| && forall j :: 0 <= j < |order| ==> order[j] in t
  {
    var times := t[order[i]].Keys;
    times != {} && MinOf(times) == Carried(t, order, i)
  }

  ghost predicate IsSkipped<R>(t: Table<R>, order: seq<string>, k: Key)
    requires Lists(order, t)
  {
    exists i :: 0 <= i < |order| && k.0 == order[i] && Skips(t, order, i) && k.1 == Carried(t, order, i)
  }

  ghost predicate NoRepeats(keys: seq<Key>) {
    forall i, j :: 0 <= i < j < |keys| ==> keys[i] != keys[j]
  }

  /** What the comparison has done after visiting some rows of the first table. */
  ghost predicate FedSoFar<R, S>(t1: Table<R>, t2: Table<S>, order: seq<string>, seen: set<Key>,
                                 fed: seq<Key>, rest: Table<S>)
    requires Lists(order, t1)
  {
    && NoRepeats(fed)
    && (forall k :: k in fed <==> k in seen && Has(t2, k) && !IsSkipped(t1, order, k))
    && rest == Without(t2, set k | k in fed)
  }

  /** One row of the first table, at its turn. */
  method VisitRow<R, S>(ghost t1: Table<R>, ghost t2: Table<S>, ghost order: seq<string>, fed: seq<Key>, rest: Table<S>,
                        k: Key, timePrev: int, ghost seen: set<Key>)
    returns (fed': seq<Key>, rest': Table<S>)
    requires Lists(order, t1) && FedSoFar(t1, t2, order, seen, fed, rest) && k !in seen
    requires IsSkipped(t1, order, k) <==> k.1 == timePrev
    ensures FedSoFar(t1, t2, order, seen + {k}, fed', rest')
  {
    fed', rest' := fed, rest;
    ghost var done := set k | k in fed;
    assert k !in done;
    if k.1 != timePrev {
      if k.0 in rest && k.1 in rest[k.0] {
        EraseOneMore(t2, done, k);
        fed' := fed + [k];
        rest' := EraseKey(rest, k);
        assert (set j | j in fed') == done + {k};
      } else {
        AbsentKey(t2, done, k);
      }
    }
  }

  /** The keys handed to fill_stat, in order: each at most once, and exactly the common keys that are not
      the passed-over first row of their ticker. The second table loses exactly those. */
  method CompSig<R, S>(t1: Table<R>, t2: Table<S>, order: seq<string>) returns (fed: seq<Key>, rest: Table<S>)
    requires Lists(order, t1)
    ensures NoRepeats(fed)
    ensures forall k :: k in fed <==> k in CommonKeys(t1, t2) && !IsSkipped(t1, order, k)
    ensures rest == Without(t2, set k | k in fed)
  {
    fed, rest := [], t2;
    ghost var seen: set<Key> := {};
    WithoutNothing(t2);
    assert (set k | k in fed) == {};
    var timePrev := 0;
    for i := 0 to |order|
      invariant timePrev == Carried(t1, order, i)
      invariant FedSoFar(t1, t2, order, seen, fed, rest)
      invariant forall k :: k in seen <==> Has(t1, k) && k.0 in order[..i]
    {
      var uid := order[i];
      assert uid !in order[..i];
      var times := t1[uid].Keys;
      while times != {}
        invariant Midway(t1[uid].Keys, times, timePrev, Carried(t1, order, i))
        invariant FedSoFar(t1, t2, order, seen, fed, rest)
        invariant forall k :: k in seen <==>
                    Has(t1, k) && (k.0 in order[..i] || (k.0 == uid && k.1 !in times))
      {
        var time := MinOf(times);
        NextTime(t1[uid].Keys, times, timePrev, Carried(t1, order, i));
        SkippedIff(t1, order, i, times, timePrev);
        fed, rest := VisitRow(t1, t2, order, fed, rest, (uid, time), timePrev, seen);
        timePrev := time;
        times := times - {time};
        seen := seen + {(uid, time)};
      }
      AllVisited(t1[uid].Keys, timePrev, Carried(t1, order, i));
      assert order[..i + 1] == order[..i] + [uid];
    }
    assert order[..|order|] == order;
  }

  lemma WithoutNothing<R>(t: Table<R>)
    ensures Without(t, {}) == t
  {
    assert forall uid :: uid in t ==> t[uid] == Without(t, {})[uid];
  }

  /** The times of a ticker are visited in ascending order: `times` are left, `prev` was the last one,
      or the carried one before the first. */
  ghost predicate Midway(all: set<int>, times: set<int>, prev: int, carried: int) {
    && times <= all
    && (times == all ==> prev == carried)
    && (times != all ==> IsGreatest(all - times, prev) && forall b :: b in times ==> prev < b)
  }

  lemma NextTime(all: set<int>, times: set<int>, prev: int, carried: int)
    requires Midway(all, times, prev, carried) && times != {}
    ensures var time := MinOf(times);
            && Midway(all, times - {time}, time, carried)
            && (time == prev <==> times == all && time == carried)
  {
    var time := MinOf(times);
    assert all - (times - {time}) == all - times + {time};
    assert time in all && time !in times - {time};
  }

  lemma AllVisited(all: set<int>, prev: int, carried: int)
    requires Midway(all, {}, prev, carried)
    ensures prev == if all == {} then carried else MaxOf(all)
  {
    if all != {} {
      assert all - {} == all;
      MaxIs(all, prev);
    }
  }

  /** Only the first row of a ticker can meet its own time in `time_prev`. */
  lemma SkippedIff<R>(t: Table<R>, order: seq<string>, i: nat, times: set<int>, timePrev: int)
    requires Lists(order, t) && i < |order| && times != {}
    requires Midway(t[order[i]].Keys, times, timePrev, Carried(t, order, i))
    ensures IsSkipped(t, order, (order[i], MinOf(times))) <==> MinOf(times) == timePrev
  {
    var time, all := MinOf(times), t[order[i]].Keys;
    NextTime(all, times, timePrev, Carried(t, order, i));
    if times == all {
      if time == timePrev {
        assert Skips(t, order, i);
      }
    } else {
      assert MinOf(all) <= timePrev < time;
    }
  }

  /** The comparison covers the whole join exactly when no passed-over first row is a common key. */
  lemma JoinIsCompleteIff<R, S>(t1: Table<R>, t2: Table<S>, order: seq<string>)
    requires Lists(order, t1)
    ensures (forall k :: k in CommonKeys(t1, t2) ==> !IsSkipped(t1, order, k))
            <==> forall i :: 0 <= i < |order| && Skips(t1, order, i) ==>
                   !Has(t2, (order[i], Carried(t1, order, i)))
  {
    if forall k :: k in CommonKeys(t1, t2) ==> !IsSkipped(t1, order, k) {
      forall i | 0 <= i < |order| && Skips(t1, order, i)
        ensures !Has(t2, (order[i], Carried(t1, order, i)))
      {
        var k := (order[i], Carried(t1, order, i));
        assert Has(t1, k) && IsSkipped(t1, order, k);
      }
    }
  }

  /** The first ticker loses its first row exactly when that is at time zero. */
  lemma FirstTickerSkipsIff<R>(t: Table<R>, order: seq<string>, time: int)
    requires Lists(order, t) && order != [] && time in t[order[0]]
    ensures IsSkipped(t, order, (order[0], time)) <==> time == 0 && IsLeast(t[order[0]].Keys, 0)
  {
    assert Carried(t, order, 0) == 0;
    if IsSkipped(t, order, (order[0], time)) {
      var i :| 0 <= i < |order| && order[0] == order[i] && Skips(t, order, i) && time == Carried(t, order, i);
      assert i == 0;
    }
    if time == 0 && IsLeast(t[order[0]].Keys, 0) {
      MinIs(t[order[0]].Keys, 0);
      assert Skips(t, order, 0);
    }
  }

  /** A later ticker with rows loses its first row exactly when that is at the last time of the one before. */
  lemma NextTickerSkipsIff<R>(t: Table<R>, order: seq<string>, i: nat, time: int)
    requires Lists(order, t) && 0 < i < |order| && t[order[i - 1]].Keys != {} && time in t[order[i]]
    ensures IsSkipped(t, order, (order[i], time))
            <==> IsGreatest(t[order[i - 1]].Keys, time) && IsLeast(t[order[i]].Keys, time)
  {
    if IsSkipped(t, order, (order[i], time)) {
      var j :| 0 <= j < |order| && order[i] == order[j] && Skips(t, order, j) && time == Carried(t, order, j);
      assert j == i;
    }
    if IsGreatest(t[order[i - 1]].Keys, time) && IsLeast(t[order[i]].Keys, time) {
      MaxIs(t[order[i - 1]].Keys, time);
      MinIs(t[order[i]].Keys, time);
      assert Skips(t, order, i);
    }
  }

  /** Two tickers with one row each at the same time: the second row is lost. */
  lemma CarriedTimeLosesARow()
    ensures var t := map["A" := map[34200000 := 1.0], "B" := map[34200000 := 2.0]];
            Lists(["A", "B"], t) && IsSkipped(t, ["A", "B"], ("B", 34200000)) && ("B", 34200000) in CommonKeys(t, t)
  {
    var t := map["A" := map[34200000 := 1.0], "B" := map[34200000 := 2.0]];
    var order := ["A", "B"];
    assert t["A"].Keys == {34200000} && t["B"].Keys == {34200000};
    assert order[0] == "A" && order[1] == "B";
    assert Skips(t, order, 1);
  }
}
