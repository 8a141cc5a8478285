/** Marking the gaps of a daily histogram (cronjobs/webmon/DrawNquotes.h). Bins count from 0 here. */
module GapMarks {

  /** An empty bin with activity before and after it. */
  ghost predicate IsGap(hist: seq<real>, b: int)
    requires 0 <= b < |hist|
  {
    && hist[b] <= 0.0
    && (exists a :: 0 <= a < b && hist[a] > 0.0)
    && (exists c :: b < c < |hist| && hist[c] > 0.0)
  }

  /** Of these bins the second and the third are gaps; the last one has no activity after it. */
  lemma GapsOfFive(hist: seq<real>, b: int)
    requires hist == [0.5, 0.0, -1.0, 0.25, 0.0] && 0 <= b < 5
    ensures IsGap(hist, b) <==> b == 1 || b == 2
  {
    assert hist[0] > 0.0 && hist[3] > 0.0;
  }

  /** The state between the passes: empty bins from `first` to `last` are marked, all others are 0. */
  ghost predicate Marked(gap: seq<real>, hist: seq<real>, first: int, last: int, mark: real) {
    |gap| == |hist| && forall i :: 0 <= i < |gap| ==>
      gap[i] == if first <= i <= last && hist[i] <= 0.0 then mark else 0.0
  }

  method MarkEmpty(hist: array<real>, gap: array<real>)
    requires gap.Length == hist.Length && gap != hist
    modifies gap
    ensures Marked(gap[..], hist[..], 0, hist.Length - 1, -999.0)
  {
    for b := 0 to hist.Length
      invariant forall i :: 0 <= i < b ==> gap[i] == if hist[i] <= 0.0 then -999.0 else 0.0
    {
      if hist[b] > 0.0 {
        gap[b] := 0.0;
      } else {
        gap[b] := -999.0;
      }
    }
  }

  /** Remove the leading block: afterwards `first` is the first active bin, if there is one. */
  method UnmarkLeading(hist: array<real>, gap: array<real>) returns (first: nat)
    requires gap != hist && Marked(gap[..], hist[..], 0, hist.Length - 1, -999.0)
    modifies gap
    ensures first <= hist.Length && (first < hist.Length ==> hist[first] > 0.0)
    ensures forall i :: 0 <= i < first ==> hist[i] <= 0.0
    ensures Marked(gap[..], hist[..], first, hist.Length - 1, -999.0)
  {
    first := 0;
    assert forall i :: 0 <= i < gap.Length ==> gap[i] == gap[..][i] && hist[i] == hist[..][i];
    while first < gap.Length
      invariant first <= gap.Length == hist.Length
      invariant forall i :: 0 <= i < first ==> hist[i] <= 0.0 && gap[i] == 0.0
      invariant forall i :: first <= i < gap.Length ==> gap[i] == if hist[i] <= 0.0 then -999.0 else 0.0
    {
      if gap[first] < 0.0 {
        gap[first] := 0.0;
      } else {
        break;
      }
      first := first + 1;
    }
  }

  /** Remove the trailing block: afterwards `last` is the last active bin, if there is one. */
  method UnmarkTrailing(hist: array<real>, gap: array<real>, ghost first: nat) returns (last: int)
    requires gap != hist && first <= hist.Length && (first < hist.Length ==> hist[first] > 0.0)
    requires Marked(gap[..], hist[..], first, hist.Length - 1, -999.0)
    modifies gap
    ensures -1 <= last < hist.Length
    ensures first < hist.Length ==> first <= last && hist[last] > 0.0
    ensures forall i :: last < i < hist.Length && first <= i ==> hist[i] <= 0.0
    ensures Marked(gap[..], hist[..], first, last, -999.0)
  {
    last := gap.Length - 1;
    assert forall i :: 0 <= i < gap.Length ==> gap[i] == gap[..][i] && hist[i] == hist[..][i];
    while last >= 0
      invariant -1 <= last < gap.Length == hist.Length
      invariant first < hist.Length ==> first <= last
      invariant forall i :: last < i < gap.Length && first <= i ==> hist[i] <= 0.0
      invariant forall i :: 0 <= i < gap.Length ==>
                  gap[i] == if first <= i <= last && hist[i] <= 0.0 then -999.0 else 0.0
    {
      if gap[last] < 0.0 {
        gap[last] := 0.0;
      } else {
        break;
      }
      last := last - 1;
    }
  }

  method MarksToOnes(hist: array<real>, gap: array<real>, ghost first: int, ghost last: int)
    requires gap != hist && Marked(gap[..], hist[..], first, last, -999.0)
    modifies gap
    ensures Marked(gap[..], hist[..], first, last, 1.0)
  {
    assert forall i :: 0 <= i < gap.Length ==> gap[i] == gap[..][i] && hist[i] == hist[..][i];
    for b := 0 to gap.Length
      invariant gap.Length == hist.Length
      invariant forall i :: 0 <= i < b ==> gap[i] == if first <= i <= last && hist[i] <= 0.0 then 1.0 else 0.0
      invariant forall i :: b <= i < gap.Length ==> gap[i] == if first <= i <= last && hist[i] <= 0.0 then -999.0 else 0.0
    {
      if gap[b] < 0.0 {
        gap[b] := 1.0;
      }
    }
  }

  /** Between the first and the last active bin the empty bins are exactly the gaps. */
  lemma EmptyInsideIsGap(hist: seq<real>, first: nat, last: int, b: nat)
    requires first <= |hist| && -1 <= last < |hist| && b < |hist|
    requires first < |hist| ==> hist[first] > 0.0 && first <= last && hist[last] > 0.0
    requires forall i :: 0 <= i < first ==> hist[i] <= 0.0
    requires forall i :: last < i < |hist| && first <= i ==> hist[i] <= 0.0
    ensures first <= b <= last && hist[b] <= 0.0 <==> IsGap(hist, b)
  {
  }

  /** The four passes over a copy of the histogram. */
  method MarkGaps(hist: array<real>) returns (gap: array<real>)
    ensures fresh(gap) && gap.Length == hist.Length
    ensures forall b :: 0 <= b < gap.Length ==> gap[b] == if IsGap(hist[..], b) then 1.0 else 0.0
  {
    gap := new real[hist.Length];
    MarkEmpty(hist, gap);
    ghost var first := UnmarkLeading(hist, gap);
    ghost var last := UnmarkTrailing(hist, gap, first);
    MarksToOnes(hist, gap, first, last);
    forall b | 0 <= b < gap.Length
      ensures gap[b] == if IsGap(hist[..], b) then 1.0 else 0.0
    {
      EmptyInsideIsGap(hist[..], first, last, b);
      assert gap[..][b] == gap[b];
    }
  }
}
