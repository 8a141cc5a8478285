/** The job-wide store of typed objects under (ticker, description) and the ownership of the copies it
    makes (source/include/MFramework/MEvent.h, source/src/MFramework/MEvent.cpp). */
module EventStore {

  type Key = (string, string)

  /** `mp_`: a map of maps. */
  type Nested<P> = map<string, map<string, P>>

  predicate Has<P>(mp: Nested<P>, k: Key) {
    k.0 in mp && k.1 in mp[k.0]
  }

  function At<P>(mp: Nested<P>, k: Key): P
    requires Has(mp, k)
  {
    mp[k.0][k.1]
  }

  /** Storing a pointer under a key, creating the ticker if need be. */
  function Put<P>(mp: Nested<P>, k: Key, p: P): Nested<P> {
    mp[k.0 := (if k.0 in mp then mp[k.0] else map[])[k.1 := p]]
  }

  /** Erase the entry if it is there, and its ticker when nothing is left under it. */
  function Drop<P>(mp: Nested<P>, k: Key): Nested<P> {
    if !Has(mp, k) then mp
    else
      var inner := mp[k.0] - {k.1};
      if inner == map[] then mp - {k.0} else mp[k.0 := inner]
  }

  ghost predicate NoEmptyTicker<P>(mp: Nested<P>) {
    forall t :: t in mp ==> mp[t] != map[]
  }

  ghost predicate MirrorsAt<P>(mp: Nested<P>, flat: map<Key, P>, k: Key) {
    (k in flat <==> Has(mp, k)) && (k in flat ==> flat[k] == At(mp, k))
  }

  /** The store as one flat map. */
  ghost predicate Mirrors<P>(mp: Nested<P>, flat: map<Key, P>) {
    forall k {:trigger MirrorsAt(mp, flat, k)} :: MirrorsAt(mp, flat, k)
  }

  lemma PutAt<P>(mp: Nested<P>, k: Key, p: P, j: Key)
    ensures Has(Put(mp, k, p), j) <==> j == k || Has(mp, j)
    ensures j == k ==> At(Put(mp, k, p), j) == p
    ensures j != k && Has(mp, j) ==> At(Put(mp, k, p), j) == At(mp, j)
  {
    assert j != k ==> j.0 != k.0 || j.1 != k.1;
  }

  /** Storing is updating one key of the flat map. */
  lemma PutIsUpdate<P>(mp: Nested<P>, flat: map<Key, P>, k: Key, p: P)
    requires Mirrors(mp, flat) && NoEmptyTicker(mp)
    ensures Mirrors(Put(mp, k, p), flat[k := p]) && NoEmptyTicker(Put(mp, k, p))
  {
    var mp', flat' := Put(mp, k, p), flat[k := p];
    forall j
      ensures MirrorsAt(mp', flat', j)
    {
      assert MirrorsAt(mp, flat, j);
      PutAt(mp, k, p, j);
    }
    assert k.1 in Put(mp, k, p)[k.0];
  }

  /** Erasing is removing one key of the flat map, whether or not its ticker goes too. */
  lemma DropIsRemoval<P>(mp: Nested<P>, flat: map<Key, P>, k: Key)
    requires Mirrors(mp, flat) && NoEmptyTicker(mp) && Has(mp, k)
    ensures Mirrors(Drop(mp, k), flat - {k}) && NoEmptyTicker(Drop(mp, k))
  {
    var inner := mp[k.0] - {k.1};
    var mp', flat' := Drop(mp, k), flat - {k};
    forall j
      ensures MirrorsAt(mp', flat', j)
    {
      assert MirrorsAt(mp, flat, j);
      assert j != k ==> j.0 != k.0 || j.1 != k.1;
      if j != k && Has(mp, j) && j.0 == k.0 {
        assert j.1 in inner;
      }
    }
  }

  /** Removing a newly added key gives back the map there was, tickers included. */
  lemma DropUndoesPut<P>(mp: Nested<P>, k: Key, p: P)
    requires NoEmptyTicker(mp) && !Has(mp, k)
    ensures Has(Put(mp, k, p), k) && Drop(Put(mp, k, p), k) == mp
  {
    var inner := Put(mp, k, p)[k.0] - {k.1};
    if k.0 in mp {
      assert inner == mp[k.0];
      assert Drop(Put(mp, k, p), k) == mp;
    } else {
      assert inner == map[];
    }
  }

  // ---------------------------------------------------------------- ownership

  ghost predicate KeyOwns<K, P>(flat: map<K, P>, owner: map<P, K>, k: K)
    requires k in flat
  {
    flat[k] in owner && owner[flat[k]] == k
  }

  ghost predicate ObjectIsOwned<K, P>(flat: map<K, P>, owner: map<P, K>, lost: set<P>, c: P)
    requires c in owner
  {
    owner[c] in flat && flat[owner[c]] == c && c !in lost
  }

  /** `owner` sends every stored object back to the one key it is stored under; `lost` are the objects
      that no key leads to any more; `balance` counts what was made and not deleted. */
  ghost predicate Owned<K, P>(flat: map<K, P>, owner: map<P, K>, lost: set<P>, balance: int) {
    && (forall k {:trigger KeyOwns(flat, owner, k)} :: k in flat ==> KeyOwns(flat, owner, k))
    && (forall c {:trigger ObjectIsOwned(flat, owner, lost, c)} :: c in owner ==> ObjectIsOwned(flat, owner, lost, c))
    && balance == |flat| + |lost|
  }

  lemma DeletedObjectKeepsOwners<K, P>(flat: map<K, P>, owner: map<P, K>, lost: set<P>, balance: int, k: K)
    requires Owned(flat, owner, lost, balance) && k in flat
    ensures flat[k] in owner && Owned(flat - {k}, owner - {flat[k]}, lost, balance - 1)
  {
    assert KeyOwns(flat, owner, k);
    var flat', owner' := flat - {k}, owner - {flat[k]};
    forall j | j in flat'
      ensures KeyOwns(flat', owner', j)
    {
      assert KeyOwns(flat, owner, j);
    }
    forall c | c in owner'
      ensures ObjectIsOwned(flat', owner', lost, c)
    {
      assert ObjectIsOwned(flat, owner, lost, c);
    }
    assert flat'.Keys == flat.Keys - {k};
  }

  lemma NewObjectIsOwned<K, P>(flat: map<K, P>, owner: map<P, K>, lost: set<P>, balance: int, k: K, p: P)
    requires Owned(flat, owner, lost, balance) && p !in owner && p !in lost && k !in flat
    ensures Owned(flat[k := p], owner[p := k], lost, balance + 1)
  {
    var flat', owner' := flat[k := p], owner[p := k];
    forall j | j in flat'
      ensures KeyOwns(flat', owner', j)
    {
      assert j in flat ==> KeyOwns(flat, owner, j);
    }
    forall c | c in owner'
      ensures ObjectIsOwned(flat', owner', lost, c)
    {
      assert c in owner ==> ObjectIsOwned(flat, owner, lost, c);
    }
    assert flat'.Keys == flat.Keys + {k};
  }

  lemma NewObjectKeepsOwners<K, P>(flat: map<K, P>, owner: map<P, K>, lost: set<P>, balance: int, k: K, p: P)
    requires Owned(flat, owner, lost, balance) && p !in owner && p !in lost
    ensures k !in flat ==> Owned(flat[k := p], owner[p := k], lost, balance + 1)
    ensures k in flat ==> flat[k] in owner && Owned(flat[k := p], (owner - {flat[k]})[p := k], lost, balance)
  {
    if k in flat {
      DeletedObjectKeepsOwners(flat, owner, lost, balance, k);
      NewObjectIsOwned(flat - {k}, owner - {flat[k]}, lost, balance - 1, k, p);
      assert (flat - {k})[k := p] == flat[k := p];
    } else {
      NewObjectIsOwned(flat, owner, lost, balance, k, p);
    }
  }

  /** One owner each: distinct keys hold distinct objects, and there are as many objects as keys. */
  lemma {:induction false} OneOwnerEach<K, P>(flat: map<K, P>, owner: map<P, K>, lost: set<P>, balance: int)
    requires Owned(flat, owner, lost, balance)
    ensures forall j, k :: j in flat && k in flat && j != k ==> flat[j] != flat[k]
    ensures |owner| == |flat| && lost !! owner.Keys
    decreases |flat|
  {
    forall j, k | j in flat && k in flat && j != k
      ensures flat[j] != flat[k]
    {
      assert KeyOwns(flat, owner, j) && KeyOwns(flat, owner, k);
    }
    assert forall c :: c in owner ==> ObjectIsOwned(flat, owner, lost, c);
    if flat.Keys == {} {
      assert owner.Keys == {};
    } else {
      var k :| k in flat;
      DeletedObjectKeepsOwners(flat, owner, lost, balance, k);
      assert (flat - {k}).Keys == flat.Keys - {k};
      OneOwnerEach(flat - {k}, owner - {flat[k]}, lost, balance - 1);
      assert (owner - {flat[k]}).Keys == owner.Keys - {flat[k]};
    }
  }

  /** Emptying the map without deleting keeps the balance and loses every stored object. */
  lemma ClearLosesAll<K, P>(flat: map<K, P>, owner: map<P, K>, lost: set<P>, balance: int)
    requires Owned(flat, owner, lost, balance)
    ensures Owned<K, P>(map[], map[], lost + owner.Keys, balance)
    ensures |lost + owner.Keys| == |lost| + |flat|
  {
    OneOwnerEach(flat, owner, lost, balance);
    assert |lost + owner.Keys| == |lost| + |owner.Keys|;
  }

  // ---------------------------------------------------------------- the object

  /** An object made by copying. */
  class Cell<T> {
    const value: T

    constructor (v: T)
      ensures value == v
    {
      value := v;
    }
  }

  /** What the objects hold. */
  function Held<T>(flat: map<Key, Cell<T>>): map<Key, T> {
    map k | k in flat :: flat[k].value
  }

  lemma HeldAfterPut<T>(flat: map<Key, Cell<T>>, k: Key, p: Cell<T>)
    ensures Held(flat[k := p]) == Held(flat)[k := p.value]
  {
  }

  lemma NothingHeld<T>(flat: map<Key, Cell<T>>, k: Key)
    requires k !in flat
    ensures Held(flat) - {k} == Held(flat)
  {
  }

  lemma HeldSize<T>(flat: map<Key, Cell<T>>)
    ensures |Held(flat)| == |flat|
  {
    assert Held(flat).Keys == flat.Keys;
  }

  lemma EmptyStore<T>()
    ensures NoEmptyTicker<Cell<T>>(map[]) && Mirrors<Cell<T>>(map[], map[]) && Held<T>(map[]) == map[]
  {
    forall k
      ensures MirrorsAt<Cell<T>>(map[], map[], k)
    {
    }
  }

  lemma HeldAfterDrop<T>(flat: map<Key, Cell<T>>, k: Key)
    ensures Held(flat - {k}) == Held(flat) - {k}
  {
  }

  /** Erase the entry first and its ticker afterwards if that left it empty. */
  method EraseEntry<P>(mp: Nested<P>, ticker: string, desc: string) returns (erased: Nested<P>)
    requires Has(mp, (ticker, desc))
    ensures erased == Drop(mp, (ticker, desc))
  {
    erased := mp[ticker := mp[ticker] - {desc}];
    if |erased[ticker]| == 0 {
      erased := erased - {ticker};
    }
  }

  class MEvent<T> {
    var mp: Nested<Cell<T>>
    ghost var flat: map<Key, Cell<T>>
    ghost var owner: map<Cell<T>, Key>
    ghost var lost: set<Cell<T>>
    ghost var allocs: nat
    ghost var frees: nat

    /** Objects made and not deleted yet. */
    ghost function Live(): set<Cell<T>>
      reads this
    {
      owner.Keys + lost
    }

    ghost predicate Valid()
      reads this
    {
      NoEmptyTicker(mp) && Mirrors(mp, flat) && Owned(flat, owner, lost, allocs - frees)
    }

    /** What the callers see. */
    ghost function Contents(): map<Key, T>
      reads this
    {
      Held(flat)
    }

    constructor ()
      ensures Valid() && Contents() == map[] && allocs == frees == 0
    {
      mp, flat, owner, lost, allocs, frees := map[], map[], map[], {}, 0, 0;
    }

    /** The pointer stored under a key, or null. */
    method Get(ticker: string, desc: string) returns (p: Cell?<T>)
      requires Valid()
      ensures p != null <==> (ticker, desc) in Contents()
      ensures p != null ==> p in Live() && p.value == Contents()[(ticker, desc)]
    {
      p := null;
      assert MirrorsAt(mp, flat, (ticker, desc));
      if ticker in mp && desc in mp[ticker] {
        p := mp[ticker][desc];
        assert KeyOwns(flat, owner, (ticker, desc));
      }
    }

    /** add() with a copy. The copied object must not be the one it replaces: that one is deleted first. */
    method Add(ticker: string, desc: string, v: Cell<T>)
      requires Valid()
      requires Has(mp, (ticker, desc)) ==> v != At(mp, (ticker, desc))
      modifies this
      ensures Valid()
      ensures Contents() == old(Contents())[(ticker, desc) := v.value]
      ensures (ticker, desc) in flat && fresh(flat[(ticker, desc)])
      ensures mp == Put(old(mp), (ticker, desc), flat[(ticker, desc)])
      ensures allocs == old(allocs) + 1 && lost == old(lost)
      ensures frees == old(frees) + (if (ticker, desc) in old(flat) then 1 else 0)
    {
      ghost var k := (ticker, desc);
      assert MirrorsAt(mp, flat, k);
      var p: Cell<T> := Renew(ticker, desc, v);
      PutIsUpdate(mp, flat, k, p);
      HeldAfterPut(flat, k, p);
      var inner: map<string, Cell<T>> := if ticker in mp then mp[ticker] else map[];
      mp := mp[ticker := inner[desc := p]];
      flat := flat[k := p];
    }

    /** The delete of the old object and the new copy; the map still holds the old pointer. */
    method Renew(ticker: string, desc: string, v: Cell<T>) returns (p: Cell<T>)
      requires Valid() && MirrorsAt(mp, flat, (ticker, desc))
      modifies this`owner, this`allocs, this`frees
      ensures fresh(p) && p.value == v.value
      ensures Owned(flat[(ticker, desc) := p], owner, lost, allocs - frees)
      ensures allocs == old(allocs) + 1
      ensures frees == old(frees) + (if (ticker, desc) in flat then 1 else 0)
    {
      ghost var k := (ticker, desc);
      ghost var owner0, balance := owner, allocs - frees;
      if ticker in mp && desc in mp[ticker] {
        var oldp := mp[ticker][desc];
        owner, frees := owner - {oldp}, frees + 1;
      }
      p := new Cell(v.value);
      allocs, owner := allocs + 1, owner[p := k];
      NewObjectKeepsOwners(flat, owner0, lost, balance, k, p);
    }

    method Remove(ticker: string, desc: string)
      requires Valid()
      modifies this
      ensures Valid()
      ensures Contents() == old(Contents()) - {(ticker, desc)}
      ensures mp == Drop(old(mp), (ticker, desc))
      ensures allocs == old(allocs) && lost == old(lost)
      ensures frees == old(frees) + (if (ticker, desc) in old(flat) then 1 else 0)
    {
      ghost var k := (ticker, desc);
      assert MirrorsAt(mp, flat, k);
      HeldAfterDrop(flat, k);
      if ticker in mp && desc in mp[ticker] {
        Release(ticker, desc);
      } else {
        NothingHeld(flat, k);
      }
    }

    /** Delete the object, then erase its entry. */
    method Release(ticker: string, desc: string)
      requires Valid() && MirrorsAt(mp, flat, (ticker, desc)) && (ticker, desc) in flat
      modifies `mp, `flat, `owner, `frees
      ensures Valid()
      ensures flat == old(flat) - {(ticker, desc)}
      ensures mp == Drop(old(mp), (ticker, desc))
      ensures frees == old(frees) + 1
    {
      DropIsRemoval(mp, flat, (ticker, desc));
      Discard(ticker, desc);
      mp := EraseEntry(mp, ticker, desc);
      flat := flat - {(ticker, desc)};
    }

    /** The delete of an object about to be erased from the map. */
    method Discard(ticker: string, desc: string)
      requires Valid() && MirrorsAt(mp, flat, (ticker, desc)) && (ticker, desc) in flat
      modifies this`owner, this`frees
      ensures Owned(flat - {(ticker, desc)}, owner, lost, allocs - frees)
      ensures frees == old(frees) + 1
    {
      DeletedObjectKeepsOwners(flat, owner, lost, allocs - frees, (ticker, desc));
      var oldp := mp[ticker][desc];
      owner, frees := owner - {oldp}, frees + 1;
    }

    /** clear() empties the map without deleting anything: every stored object is lost. */
    method Clear()
      requires Valid()
      modifies this
      ensures Valid()
      ensures Contents() == map[] && mp == map[]
      ensures |lost| == old(|lost|) + old(|Contents()|)
      ensures allocs == old(allocs) && frees == old(frees)
    {
      ClearLosesAll(flat, owner, lost, allocs - frees);
      HeldSize(flat);
      EmptyStore<T>();
      lost := lost + owner.Keys;
      mp, flat, owner := map[], map[], map[];
    }
  }
}
