/** Heap sort of an index array by the data it points to, and ranks (source/include/jl_lib/sort_util.h).
    The children of node k are 2k and 2k + 1, so node 0 has the one child 1. */
module HeapSortIndex {

  /** `s` and `inv` are permutations of 0 .. |s| - 1 and undo each other. */
  ghost predicate Inverse(s: seq<int>, inv: seq<int>) {
    && |s| == |inv|
    && (forall i {:trigger s[i]} :: 0 <= i < |s| ==> 0 <= s[i] < |s| && inv[s[i]] == i)
    && (forall x {:trigger inv[x]} :: 0 <= x < |inv| ==> 0 <= inv[x] < |s| && s[inv[x]] == x)
  }

  ghost predicate Indexes(s: seq<int>, data: seq<real>) {
    |s| == |data| && forall i :: 0 <= i < |s| ==> 0 <= s[i] < |data|
  }

  /** No node from `from` on is less than a child of it, among the first N + 1 entries. */
  ghost predicate HeapFrom(s: seq<int>, data: seq<real>, from: int, N: int)
    requires Indexes(s, data) && N < |s|
  {
    forall j :: 1 <= j <= N && from <= j / 2 ==> data[s[j]] <= data[s[j / 2]]
  }

  /** As HeapFrom, except between node k and its children. */
  ghost predicate HeapExcept(s: seq<int>, data: seq<real>, from: int, N: int, k: int)
    requires Indexes(s, data) && N < |s|
  {
    && (forall j :: 1 <= j <= N && from <= j / 2 != k ==> data[s[j]] <= data[s[j / 2]])
    && (k > from >= 0 ==> k <= N && forall j :: 1 <= j <= N && j / 2 == k ==> data[s[j]] <= data[s[k / 2]])
  }

  function Swap(s: seq<int>, i: int, j: int): seq<int>
    requires 0 <= i < |s| && 0 <= j < |s|
  {
    s[i := s[j]][j := s[i]]
  }

  lemma SwapInverse(s: seq<int>, inv: seq<int>, i: int, j: int)
    requires Inverse(s, inv) && 0 <= i < |s| && 0 <= j < |s|
    ensures Inverse(Swap(s, i, j), inv[s[i] := j][s[j] := i])
  {
  }

  /** Node 0 of a heap holds a greatest element. */
  lemma {:induction false} RootIsGreatest(s: seq<int>, data: seq<real>, N: int, j: int)
    requires Indexes(s, data) && 0 <= j <= N < |s| && HeapFrom(s, data, 0, N)
    ensures data[s[j]] <= data[s[0]]
    decreases j
  {
    if j > 0 {
      RootIsGreatest(s, data, N, j / 2);
    }
  }

  /** Moving the greater child up moves the one possible violation down to it. */
  lemma MoveUp(s: seq<int>, data: seq<real>, from: int, N: int, k: int, j: int)
    requires Indexes(s, data) && 0 <= from <= k < j <= N < |s| && j / 2 == k
    requires HeapExcept(s, data, from, N, k)
    requires data[s[k]] < data[s[j]]
    requires forall c :: 1 <= c <= N && c / 2 == k ==> data[s[c]] <= data[s[j]]
    ensures Indexes(Swap(s, k, j), data)
    ensures HeapExcept(Swap(s, k, j), data, from, N, j)
  {
    var t := Swap(s, k, j);
    forall c | 1 <= c <= N && from <= c / 2 != j
      ensures data[t[c]] <= data[t[c / 2]]
    {
      if c / 2 == k {
      } else if c == k {
        assert data[s[j]] <= data[s[k / 2]];
      } else {
        assert data[s[c]] <= data[s[c / 2]];
      }
    }
    forall c | 1 <= c <= N && c / 2 == j
      ensures data[t[c]] <= data[t[j / 2]]
    {
      assert data[s[c]] <= data[s[c / 2]];
    }
  }

  ghost predicate Bounded(s: seq<int>, data: seq<real>, N: int, bound: real)
    requires Indexes(s, data) && N < |s|
  {
    forall i :: 0 <= i <= N ==> data[s[i]] <= bound
  }

  /** The array with the sifted entry imagined back in its hole at k, starting from s0. */
  ghost predicate Sifting(s0: seq<int>, s: seq<int>, inv: seq<int>, data: seq<real>,
                          k0: int, N: int, k: int, bound: real)
  {
    && 0 <= k0 <= k <= N < |s| == |s0|
    && Inverse(s, inv) && Indexes(s, data)
    && HeapExcept(s, data, k0, N, k) && Bounded(s, data, N, bound)
    && s[N + 1..] == s0[N + 1..]
  }

  /** No child of node k exceeds the entry at j. */
  ghost predicate NoChildAbove(s: seq<int>, data: seq<real>, N: int, k: int, j: int)
    requires Indexes(s, data) && N < |s| && 0 <= j < |s|
  {
    forall c :: 1 <= c <= N && c / 2 == k ==> data[s[c]] <= data[s[j]]
  }

  /** The two candidates the loop compares are all the children there are. */
  lemma ChildChosen(s: seq<int>, data: seq<real>, N: int, k: int)
    requires Indexes(s, data) && 0 <= k <= N / 2 && N < |s|
    ensures 2 * k < N && data[s[2 * k]] < data[s[2 * k + 1]] ==> NoChildAbove(s, data, N, k, 2 * k + 1)
    ensures !(2 * k < N && data[s[2 * k]] < data[s[2 * k + 1]]) ==> NoChildAbove(s, data, N, k, 2 * k)
  {
    assert forall c :: 1 <= c <= N && c / 2 == k ==> c == 2 * k || c == 2 * k + 1;
  }

  lemma SiftStep(s0: seq<int>, s: seq<int>, inv: seq<int>, data: seq<real>, k0: int, N: int, k: int, j: int, bound: real)
    requires Sifting(s0, s, inv, data, k0, N, k, bound)
    requires k < j <= N && j / 2 == k && data[s[k]] < data[s[j]] && NoChildAbove(s, data, N, k, j)
    ensures Sifting(s0, Swap(s, k, j), inv[s[k] := j][s[j] := k], data, k0, N, j, bound)
  {
    MoveUp(s, data, k0, N, k, j);
    SwapInverse(s, inv, k, j);
  }

  lemma SiftDone(s0: seq<int>, s: seq<int>, inv: seq<int>, data: seq<real>, k0: int, N: int, k: int, bound: real)
    requires Sifting(s0, s, inv, data, k0, N, k, bound)
    requires NoChildAbove(s, data, N, k, k)
    ensures HeapFrom(s, data, k0, N)
  {
  }

  /** The greater child the sift compares with; node 0 may be its own candidate. */
  function Child(s: seq<int>, data: seq<real>, N: int, k: int): (j: int)
    requires Indexes(s, data) && 0 <= k <= N / 2 && N < |s|
    ensures 2 * k <= j <= N && j <= 2 * k + 1
  {
    if 2 * k < N && data[s[2 * k]] < data[s[2 * k + 1]] then 2 * k + 1 else 2 * k
  }

  /** The sift by exchanges: what the sift through a hole leaves in the array. */
  function SiftDown(s: seq<int>, data: seq<real>, N: int, k: int): (t: seq<int>)
    requires Indexes(s, data) && 0 <= k <= N < |s|
    ensures |t| == |s|
    decreases N - k
  {
    if k > N / 2 then s
    else
      var j := Child(s, data, N, k);
      if !(data[s[k]] < data[s[j]]) then s else SiftDown(Swap(s, k, j), data, N, j)
  }

  lemma {:induction false} SiftDownMakesHeap(s0: seq<int>, s: seq<int>, inv: seq<int>, data: seq<real>,
                                             k0: int, N: int, k: int, bound: real)
    returns (inv': seq<int>)
    requires Sifting(s0, s, inv, data, k0, N, k, bound)
    ensures var t := SiftDown(s, data, N, k);
            Inverse(t, inv') && Indexes(t, data) && HeapFrom(t, data, k0, N) && Bounded(t, data, N, bound)
            && t[N + 1..] == s0[N + 1..]
    decreases N - k
  {
    inv' := inv;
    if k <= N / 2 {
      var j := Child(s, data, N, k);
      ChildChosen(s, data, N, k);
      if data[s[k]] < data[s[j]] {
        SiftStep(s0, s, inv, data, k0, N, k, j, bound);
        inv' := SiftDownMakesHeap(s0, Swap(s, k, j), inv[s[k] := j][s[j] := k], data, k0, N, j, bound);
      } else {
        SiftDone(s0, s, inv, data, k0, N, k, bound);
      }
    } else {
      SiftDone(s0, s, inv, data, k0, N, k, bound);
    }
  }

  /** The hole does not hide a child. */
  lemma ChildSeen(q: seq<int>, s: seq<int>, data: seq<real>, N: int, k: int)
    requires Indexes(q, data) && Indexes(s, data) && 0 <= k <= N / 2 && N < |s|
    requires q[k := s[k]] == s && (k == 0 ==> q == s)
    ensures Child(q, data, N, k) == Child(s, data, N, k)
    ensures var j := Child(s, data, N, k); q[j] == s[j]
  {
    assert forall i :: 0 <= i < |s| && i != k ==> q[i] == q[k := s[k]][i] == s[i];
  }

  /** Copying the child into the hole moves the hole to the child. */
  lemma HoleMoves(q: seq<int>, s: seq<int>, k: int, j: int, entry: int)
    requires |q| == |s| && 0 <= k < |s| && 0 <= j < |s| && k != j
    requires q[k := entry] == s
    ensures q[k := q[j]][j := entry] == Swap(s, k, j)
  {
    assert forall i :: 0 <= i < |s| && i != k ==> q[i] == q[k := entry][i] == s[i];
  }

  /** The sift as the loop runs it: the entry stays out of the array until its place is found. */
  function SiftHole(q: seq<int>, data: seq<real>, N: int, k: int, entry: int): (t: seq<int>)
    requires Indexes(q, data) && 0 <= k <= N < |q| && 0 <= entry < |data| && (k == 0 ==> q[0] == entry)
    ensures |t| == |q|
    decreases N - k
  {
    if k > N / 2 then q[k := entry]
    else
      var j := Child(q, data, N, k);
      if !(data[entry] < data[q[j]]) then q[k := entry] else SiftHole(q[k := q[j]], data, N, j, entry)
  }

  lemma {:induction false} HoleIsExchange(q: seq<int>, s: seq<int>, data: seq<real>, N: int, k: int, entry: int)
    requires Indexes(q, data) && Indexes(s, data) && 0 <= k <= N < |q| && 0 <= entry < |data|
    requires q[k := entry] == s && (k == 0 ==> q == s)
    ensures SiftHole(q, data, N, k, entry) == SiftDown(s, data, N, k)
    decreases N - k
  {
    if k <= N / 2 {
      ChildSeen(q, s, data, N, k);
      var j := Child(s, data, N, k);
      if data[s[k]] < data[s[j]] {
        HoleMoves(q, s, k, j, entry);
        HoleIsExchange(q[k := q[j]], Swap(s, k, j), data, N, j, entry);
      }
    }
  }

  /** Sift the entry at k0 down: children move up into the hole, the entry is written once at the end. */
  method DownHeap(p: array<int>, data: seq<real>, N: int, k0: int)
    requires Indexes(p[..], data) && 0 <= k0 <= N < p.Length
    modifies p
    ensures p[..] == SiftDown(old(p[..]), data, N, k0)
  {
    var k := k0;
    var pki := p[k];
    ghost var q := p[..];
    ghost var goal := SiftHole(q, data, N, k, pki);
    HoleIsExchange(q, q, data, N, k, pki);
    while k <= N / 2
      invariant 0 <= k <= N && q == p[..] && Indexes(q, data) && (k == 0 ==> q[0] == pki)
      invariant SiftHole(q, data, N, k, pki) == goal
      decreases N - k
    {
      var j := 2 * k;
      if j < N && data[p[j]] < data[p[j + 1]] {
        j := j + 1;
      }
      assert j == Child(q, data, N, k);
      if !(data[pki] < data[p[j]]) {
        assert goal == q[k := pki];
        break;
      }
      assert goal == SiftHole(q[k := q[j]], data, N, j, pki);
      p[k] := p[j];
      q := q[k := q[j]];
      k := j;
    }
    assert goal == q[k := pki];
    p[k] := pki;
    assert p[..] == goal;
  }

  /** A sift of the whole method, with the permutation it leaves. */
  lemma DownHeapEffect(s: seq<int>, inv: seq<int>, data: seq<real>, N: int, k: int, bound: real)
    returns (inv': seq<int>)
    requires Inverse(s, inv) && Indexes(s, data) && 0 <= k <= N < |s|
    requires HeapFrom(s, data, k + 1, N) && Bounded(s, data, N, bound)
    ensures var t := SiftDown(s, data, N, k);
            Inverse(t, inv') && Indexes(t, data) && HeapFrom(t, data, k, N) && Bounded(t, data, N, bound)
            && t[N + 1..] == s[N + 1..]
  {
    inv' := SiftDownMakesHeap(s, s, inv, data, k, N, k, bound);
  }

  /** First half of the sort: from the identity to a heap. */
  method MakeHeap(p: array<int>, data: seq<real>) returns (ghost inv: seq<int>)
    requires p.Length == |data| > 0
    modifies p
    ensures Inverse(p[..], inv) && Indexes(p[..], data) && HeapFrom(p[..], data, 0, p.Length - 1)
  {
    for i := 0 to p.Length
      invariant forall x :: 0 <= x < i ==> p[x] == x
    {
      p[i] := i;
    }
    inv := p[..];
    var N := p.Length - 1;
    ghost var top := Greatest(data);
    var k := N / 2 + 1;
    while k > 0
      invariant 0 <= k <= N / 2 + 1
      invariant Inverse(p[..], inv) && Indexes(p[..], data)
      invariant HeapFrom(p[..], data, k, N) && Bounded(p[..], data, N, top)
    {
      k := k - 1;
      inv := DownHeapEffect(p[..], inv, data, N, k, top);
      DownHeap(p, data, N, k);
    }
  }

  /** The entries after N are in place: ascending, and none less than an entry before them. */
  ghost predicate SortedAfter(s: seq<int>, data: seq<real>, N: int)
    requires Indexes(s, data)
  {
    forall i, j :: 0 <= i <= j < |s| && N < j ==> data[s[i]] <= data[s[j]]
  }

  /** Exchanging root and last entry of the heap puts one more entry in place. */
  lemma RootToEnd(s: seq<int>, data: seq<real>, N: int)
    requires Indexes(s, data) && 0 < N < |s| && HeapFrom(s, data, 0, N) && SortedAfter(s, data, N)
    ensures var t := Swap(s, 0, N);
            Indexes(t, data) && HeapFrom(t, data, 1, N - 1) && SortedAfter(t, data, N - 1)
            && Bounded(t, data, N - 1, data[s[0]])
  {
    var t := Swap(s, 0, N);
    forall i | 0 <= i <= N
      ensures data[s[i]] <= data[s[0]]
    {
      RootIsGreatest(s, data, N, i);
    }
    forall i, j | 0 <= i <= j < |t| && N - 1 < j
      ensures data[t[i]] <= data[t[j]]
    {
    }
  }

  /** Sifting within the first N entries keeps the later ones in place. */
  lemma StillSorted(s: seq<int>, t: seq<int>, data: seq<real>, N: int, bound: real)
    requires Indexes(s, data) && Indexes(t, data) && 0 <= N < |s| - 1
    requires SortedAfter(s, data, N) && s[N + 1..] == t[N + 1..] && bound == data[s[N + 1]]
    requires Bounded(t, data, N, bound)
    ensures SortedAfter(t, data, N)
  {
    assert forall j :: N < j < |s| ==> s[j] == s[N + 1..][j - N - 1] == t[N + 1..][j - N - 1] == t[j];
  }

  /** Afterwards `p` is a permutation (undone by `inv`) that reads the data in ascending order. */
  method HeapSort(p: array<int>, data: seq<real>) returns (ghost inv: seq<int>)
    requires p.Length == |data|
    modifies p
    ensures Inverse(p[..], inv)
    ensures forall i, j :: 0 <= i <= j < p.Length ==> data[p[i]] <= data[p[j]]
  {
    inv := [];
    if p.Length == 0 {
      return;
    }
    inv := MakeHeap(p, data);
    var N := p.Length - 1;
    while N > 0
      invariant 0 <= N < p.Length
      invariant Inverse(p[..], inv) && Indexes(p[..], data)
      invariant HeapFrom(p[..], data, 0, N) && SortedAfter(p[..], data, N)
    {
      ghost var s := p[..];
      RootToEnd(s, data, N);
      SwapInverse(s, inv, 0, N);
      p[0], p[N] := p[N], p[0];
      ghost var t := p[..];
      assert t == Swap(s, 0, N);
      inv := inv[s[0] := N][s[N] := 0];
      N := N - 1;
      inv := DownHeapEffect(t, inv, data, N, 0, data[s[0]]);
      DownHeap(p, data, N, 0);
      StillSorted(t, p[..], data, N, data[s[0]]);
    }
    assert SortedAfter(p[..], data, 0);
  }

  ghost function Greatest(data: seq<real>): (top: real)
    ensures forall i :: 0 <= i < |data| ==> data[i] <= top
  {
    if data == [] then 0.0
    else
      var rest := Greatest(data[..|data| - 1]);
      if data[|data| - 1] > rest then data[|data| - 1] else rest
  }

  /** The overload on vectors does nothing when the lengths differ. */
  method HeapSortVector(p: array<int>, data: seq<real>) returns (ghost inv: seq<int>)
    modifies p
    ensures p.Length != |data| ==> p[..] == old(p[..])
    ensures p.Length == |data| ==> Inverse(p[..], inv) &&
                                   forall i, j :: 0 <= i <= j < p.Length ==> data[p[i]] <= data[p[j]]
  {
    inv := [];
    if p.Length == |data| {
      inv := HeapSort(p, data);
    }
  }

  /** Ranks: a permutation that orders the elements as their data does. */
  method Rank(p: array<int>, data: seq<real>) returns (ghost order: seq<int>)
    requires p.Length == |data|
    modifies p
    ensures Inverse(p[..], order)
    ensures forall a, b :: 0 <= a < p.Length && 0 <= b < p.Length && data[a] < data[b] ==> p[a] < p[b]
  {
    var vindx := new int[p.Length];
    ghost var inv := HeapSort(vindx, data);
    order := vindx[..];
    for i := 0 to p.Length
      invariant vindx[..] == order
      invariant forall x :: 0 <= x < p.Length && inv[x] < i ==> p[x] == inv[x]
    {
      p[vindx[i]] := i;
    }
    assert p[..] == inv;
    forall a, b | 0 <= a < p.Length && 0 <= b < p.Length && data[a] < data[b]
      ensures p[a] < p[b]
    {
      assert vindx[p[a]] == a && vindx[p[b]] == b;
    }
  }
}
