/** Index arithmetic of the model fitters (scripts/python/Fitters.py): the windows of the one-dimensional
    convolution and the tree counts a boosted model is evaluated at. */
module ConvWindows {

  /** How many numbers a range from 0 up to and not including `stop` has. */
  function ArangeLength(stop: int, step: int): nat
    requires step > 0
  {
    if stop <= 0 then 0 else (stop + step - 1) / step
  }

  lemma ArangeEnds(stop: int, step: int)
    requires step > 0
    ensures var n := ArangeLength(stop, step);
            step * n >= stop && (n > 0 ==> step * (n - 1) < stop)
  {
    var n := ArangeLength(stop, step);
    if stop > 0 {
      var r := (stop + step - 1) % step;
      assert stop + step - 1 == step * n + r;
      assert step * (n - 1) == step * n - step;
    }
  }

  datatype Window = Window(low: int, high: int)

  function NWindows(total: int, kernel: int, stride: int): nat
    requires stride > 0
  {
    ArangeLength(total - kernel, stride) + 1
  }

  function LowIndex(total: int, kernel: int, stride: int, i: nat): int {
    if total - kernel - stride * i > 0 then total - kernel - stride * i else 0
  }

  /** The slices of the input, latest first. */
  method Windows(total: int, kernel: int, stride: int) returns (windows: seq<Window>)
    requires stride > 0
    ensures |windows| == NWindows(total, kernel, stride)
    ensures forall i :: 0 <= i < |windows| ==>
              windows[i] == Window(LowIndex(total, kernel, stride, i), LowIndex(total, kernel, stride, i) + kernel)
  {
    var n1 := ArangeLength(total - kernel, stride) + 1;
    windows := [];
    for i := 0 to n1
      invariant |windows| == i
      invariant forall j :: 0 <= j < i ==>
                  windows[j] == Window(LowIndex(total, kernel, stride, j), LowIndex(total, kernel, stride, j) + kernel)
    {
      var lowIndex := total - kernel - stride * i;
      if lowIndex <= 0 {
        lowIndex := 0;
      }
      windows := windows + [Window(lowIndex, lowIndex + kernel)];
    }
  }

  /** Multiples are ordered as their factors and lie a whole stride apart. */
  lemma Multiples(stride: int, i: int, j: int)
    requires stride > 0
    ensures i < j <==> stride * i < stride * j
    ensures i < j ==> stride * i + stride <= stride * j
    ensures stride * (j - 1) == stride * j - stride
    ensures stride * 0 == 0
  {
    assert stride * (j - i) == stride * j - stride * i;
    assert j - i >= 1 ==> stride * (j - i) >= stride;
    assert j - i <= 0 ==> stride * (j - i) <= 0;
  }

  /** Windows lie in the input, their starts descend strictly, the first one ends the input and the
      last one starts it. */
  lemma WindowsDescend(total: int, kernel: int, stride: int, i: nat, j: nat)
    requires stride > 0 && 0 < kernel <= total
    requires i < j < NWindows(total, kernel, stride)
    ensures 0 <= LowIndex(total, kernel, stride, j) < LowIndex(total, kernel, stride, i) <= total - kernel
    ensures LowIndex(total, kernel, stride, 0) == total - kernel
    ensures LowIndex(total, kernel, stride, NWindows(total, kernel, stride) - 1) == 0
  {
    var n := NWindows(total, kernel, stride) - 1;
    ArangeEnds(total - kernel, stride);
    Multiples(stride, i, j);
    Multiples(stride, i, n - 1);
    Multiples(stride, 0, i);
  }

  /** Column c is seen by window i. */
  predicate Sees(total: int, kernel: int, stride: int, i: nat, c: int) {
    LowIndex(total, kernel, stride, i) <= c < LowIndex(total, kernel, stride, i) + kernel
  }

  ghost predicate Covered(total: int, kernel: int, stride: int, c: int)
    requires stride > 0
  {
    exists i: nat :: i < NWindows(total, kernel, stride) && Sees(total, kernel, stride, i, c)
  }

  lemma ShortStrideCovers(total: int, kernel: int, stride: int, c: int)
    requires 0 < stride <= kernel <= total && 0 <= c < total
    ensures Covered(total, kernel, stride, c)
  {
    var i: int := ArangeLength(total - kernel - c, stride);
    var n := ArangeLength(total - kernel, stride);
    ArangeEnds(total - kernel - c, stride);
    ArangeEnds(total - kernel, stride);
    Multiples(stride, n, i - 1);
    Multiples(stride, n, i);
    assert Sees(total, kernel, stride, i, c);
  }

  lemma TwoWindowsCover(total: int, kernel: int, stride: int, c: int)
    requires stride > 0 && 0 < kernel <= total <= 2 * kernel && 0 <= c < total
    ensures Covered(total, kernel, stride, c)
  {
    var n := NWindows(total, kernel, stride) - 1;
    ArangeEnds(total - kernel, stride);
    Multiples(stride, 0, 0);
    if c >= total - kernel {
      assert Sees(total, kernel, stride, 0, c);
    } else {
      assert LowIndex(total, kernel, stride, n) == 0;
      assert Sees(total, kernel, stride, n, c);
    }
  }

  lemma LongStrideMisses(total: int, kernel: int, stride: int)
    requires 0 < kernel < stride && 2 * kernel < total
    ensures !Covered(total, kernel, stride, total - kernel - 1)
  {
    var c := total - kernel - 1;
    forall i: nat | i < NWindows(total, kernel, stride)
      ensures !Sees(total, kernel, stride, i, c)
    {
      Multiples(stride, 0, i);
    }
  }

  /** The windows see every time column exactly when the stride does not exceed the kernel or two
      kernels span the input. */
  lemma CoverageIff(total: int, kernel: int, stride: int)
    requires stride > 0 && 0 < kernel <= total
    ensures (forall c :: 0 <= c < total ==> Covered(total, kernel, stride, c)) <==> stride <= kernel || total <= 2 * kernel
  {
    if stride <= kernel {
      forall c | 0 <= c < total
        ensures Covered(total, kernel, stride, c)
      {
        ShortStrideCovers(total, kernel, stride, c);
      }
    } else if total <= 2 * kernel {
      forall c | 0 <= c < total
        ensures Covered(total, kernel, stride, c)
      {
        TwoWindowsCover(total, kernel, stride, c);
      }
    } else {
      LongStrideMisses(total, kernel, stride);
    }
  }

  // ------------------------------------------------------------- tree counts

  function Interval(ntrees: nat): nat {
    if ntrees / 8 > 1 then ntrees / 8 else 1
  }

  /** The tree counts: from the remainder and one interval on, one interval apart, up to the full model. */
  function NtreeList(ntrees: nat): (counts: seq<int>)
    ensures |counts| == ArangeLength(ntrees - ntrees % Interval(ntrees), Interval(ntrees))
    ensures forall i :: 0 <= i < |counts| ==>
              counts[i] == ntrees % Interval(ntrees) + Interval(ntrees) + i * Interval(ntrees)
  {
    var interval := Interval(ntrees);
    var from := ntrees % interval + interval;
    seq(ArangeLength(ntrees + interval - from, interval), i => from + i * interval)
  }

  /** The list ends with the full model, every entry is a positive number of trees of the model, and from
      eight trees on there are 8 to 15 entries. */
  lemma NtreeListReachesTheModel(ntrees: nat)
    requires ntrees > 0
    ensures var counts := NtreeList(ntrees);
            && |counts| == ntrees / Interval(ntrees) > 0
            && counts[|counts| - 1] == ntrees
            && (forall i :: 0 <= i < |counts| ==> 0 < counts[i] <= ntrees)
            && (ntrees >= 8 ==> 8 <= |counts| <= 15)
  {
    var d := Interval(ntrees);
    var q, r := ntrees / d, ntrees % d;
    assert ntrees == d * q + r;
    CountsExactly(d, q);
    Multiples(d, 0, q);
    var counts := NtreeList(ntrees);
    forall i | 0 <= i < |counts|
      ensures 0 < counts[i] <= ntrees && (i == |counts| - 1 ==> counts[i] == ntrees)
    {
      CountAt(d, q, r, i);
    }
    if ntrees >= 8 {
      BetweenEightAndFifteen(ntrees);
    }
  }

  lemma CountAt(d: int, q: int, r: int, i: int)
    requires 0 <= r < d && 0 <= i < q
    ensures 0 < r + d + i * d <= d * q + r
    ensures i == q - 1 ==> r + d + i * d == d * q + r
  {
    Multiples(d, i, q);
    Multiples(d, 0, i);
    assert i * d == d * i;
  }

  lemma CountsExactly(d: int, q: int)
    requires d > 0 && q >= 0
    ensures ArangeLength(d * q, d) == q
  {
    ArangeEnds(d * q, d);
    var n: int := ArangeLength(d * q, d);
    Multiples(d, n, q);
    Multiples(d, q, n);
    Multiples(d, q, n - 1);
    Multiples(d, 0, q);
  }

  lemma BetweenEightAndFifteen(ntrees: nat)
    requires ntrees >= 8
    ensures 8 <= ntrees / Interval(ntrees) <= 15
  {
    var d := ntrees / 8;
    assert 8 * d <= ntrees < 16 * d;
    var q := ntrees / d;
    assert ntrees == d * q + ntrees % d;
    Multiples(d, q, 8);
    Multiples(d, 15, q);
  }
}
