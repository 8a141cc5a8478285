/** The window of past returns at a sample point (scripts/python/NpReader.py, getRetSeriesSimple), over
    the reals. */
module ReturnSeries {

  const LEN_OUT := 20

  function Min(a: int, b: int): int { if a <= b then a else b }

  function NData(iP: nat): nat { Min(LEN_OUT, iP) }

  /** The return from one point to the next in units of 1/10000, or 0 where data is missing. */
  function ReturnAt(vMid: seq<real>, vGptOK: seq<int>, i: nat): real
    requires i + 1 < |vMid| && i + 1 < |vGptOK|
  {
    if vMid[i] > 0.01 && vGptOK[i + 1] == 1 && vGptOK[i] == 1
    then (vMid[i + 1] - vMid[i]) / vMid[i] * 10000.0
    else 0.0
  }

  /** Zeros up front, then the returns of the last points up to iP. */
  ghost predicate IsSeries(ser: seq<real>, vMid: seq<real>, vGptOK: seq<int>, iP: nat)
    requires iP == 0 || (iP < |vMid| && iP < |vGptOK|)
  {
    var n := NData(iP);
    && |ser| == LEN_OUT
    && (forall k :: 0 <= k < LEN_OUT - n ==> ser[k] == 0.0)
    && (forall k :: LEN_OUT - n <= k < LEN_OUT ==> ser[k] == ReturnAt(vMid, vGptOK, iP - LEN_OUT + k))
  }

  method GetRetSeriesSimple(vMid: seq<real>, vGptOK: seq<int>, iP: nat) returns (ser: seq<real>)
    requires iP == 0 || (iP < |vMid| && iP < |vGptOK|)
    ensures IsSeries(ser, vMid, vGptOK, iP)
  {
    var nData := NData(iP);
    var nZeros := if LEN_OUT - nData > 0 then LEN_OUT - nData else 0;
    var retSeries := new real[nData](_ => 0.0);
    for i := 0 to nData
      invariant forall j :: 0 <= j < i ==> retSeries[j] == ReturnAt(vMid, vGptOK, iP - nData + j)
    {
      var indx := iP - nData + i;
      var rtn := 0.0;
      if vMid[indx] > 0.01 && vGptOK[indx + 1] == 1 && vGptOK[indx] == 1 {
        rtn := (vMid[indx + 1] - vMid[indx]) / vMid[indx] * 10000.0;
      }
      retSeries[i] := rtn;
    }
    ser := seq(nZeros, _ => 0.0) + retSeries[..];
  }

  /** Where a price or a flag is missing the return is zero. */
  lemma MissingIsZero(ser: seq<real>, vMid: seq<real>, vGptOK: seq<int>, iP: nat, i: nat)
    requires iP < |vMid| && iP < |vGptOK| && IsSeries(ser, vMid, vGptOK, iP) && iP - NData(iP) <= i < iP
    requires vMid[i] <= 0.01 || vGptOK[i] != 1 || vGptOK[i + 1] != 1
    ensures ser[20 - iP + i] == 0.0
  {
    assert ser[LEN_OUT - iP + i] == ReturnAt(vMid, vGptOK, i);
  }

  /** No look-ahead: series that agree up to iP give the same window. */
  lemma NoLookAhead(a: seq<real>, aOK: seq<int>, b: seq<real>, bOK: seq<int>, iP: nat, s: seq<real>, t: seq<real>)
    requires iP < |a| && iP < |aOK| && iP < |b| && iP < |bOK|
    requires a[..iP + 1] == b[..iP + 1] && aOK[..iP + 1] == bOK[..iP + 1]
    requires IsSeries(s, a, aOK, iP) && IsSeries(t, b, bOK, iP)
    ensures s == t
  {
    forall k | 0 <= k < LEN_OUT
      ensures s[k] == t[k]
    {
      var i := iP - LEN_OUT + k;
      if k >= LEN_OUT - NData(iP) {
        assert a[i] == a[..iP + 1][i] == b[i] && a[i + 1] == a[..iP + 1][i + 1] == b[i + 1];
        assert aOK[i] == aOK[..iP + 1][i] == bOK[i] && aOK[i + 1] == aOK[..iP + 1][i + 1] == bOK[i + 1];
      }
    }
  }

  /** Growth over a list of returns. */
  function Growth(ser: seq<real>): real {
    if ser == [] then 1.0 else Growth(ser[..|ser| - 1]) * (1.0 + ser[|ser| - 1] / 10000.0)
  }

  /** Points without a hole have their plain return. */
  function Return(a: real, b: real): real
    requires a > 0.0
  {
    (b - a) / a * 10000.0
  }

  lemma OneStep(start: real, growth: real, a: real, b: real)
    requires a > 0.0 && start * growth == a
    ensures start * (growth * (1.0 + Return(a, b) / 10000.0)) == b
  {
    var q := (b - a) / a;
    assert q * 10000.0 / 10000.0 == q;
    assert a * q == b - a;
    assert start * (growth * (1.0 + q)) == (start * growth) * (1.0 + q);
  }

  lemma {:induction false} ZerosDoNotGrow(ser: seq<real>)
    requires forall k :: 0 <= k < |ser| ==> ser[k] == 0.0
    ensures Growth(ser) == 1.0
  {
    if ser != [] {
      ZerosDoNotGrow(ser[..|ser| - 1]);
    }
  }

  /** The last returns of the series are those along the path. */
  ghost predicate Follows(ser: seq<real>, path: seq<real>, i: nat)
    requires i + 1 < |path| <= |ser| + 1
  {
    path[i] > 0.0 && ser[|ser| - |path| + 1 + i] == Return(path[i], path[i + 1])
  }

  ghost predicate FollowsAll(ser: seq<real>, path: seq<real>)
    requires 1 <= |path| <= |ser| + 1
  {
    && (forall i :: 0 <= i < |ser| - |path| + 1 ==> ser[i] == 0.0)
    && (forall i: nat {:trigger Follows(ser, path, i)} :: i + 1 < |path| ==> Follows(ser, path, i))
  }

  /** After leading zeros the returns of a price path multiply up to the ratio of its ends. */
  lemma {:induction false} GrowthTelescopes(ser: seq<real>, path: seq<real>)
    requires 1 <= |path| <= |ser| + 1 && FollowsAll(ser, path)
    ensures path[0] * Growth(ser) == path[|path| - 1]
  {
    var n, m := |ser|, |path|;
    if m == 1 {
      ZerosDoNotGrow(ser);
    } else {
      FollowsShorter(ser, path);
      GrowthTelescopes(ser[..n - 1], path[..m - 1]);
      assert Follows(ser, path, m - 2);
      OneStep(path[0], Growth(ser[..n - 1]), path[m - 2], path[m - 1]);
    }
  }

  lemma FollowsShorter(ser: seq<real>, path: seq<real>)
    requires 1 < |path| <= |ser| + 1 && FollowsAll(ser, path)
    ensures FollowsAll(ser[..|ser| - 1], path[..|path| - 1])
  {
    var s, p := ser[..|ser| - 1], path[..|path| - 1];
    forall i: nat | i + 1 < |p|
      ensures Follows(s, p, i)
    {
      assert Follows(ser, path, i);
    }
  }

  /** No price or flag is missing where the window at iP looks. */
  ghost predicate Complete(vMid: seq<real>, vGptOK: seq<int>, iP: nat)
    requires iP < |vMid| && iP < |vGptOK|
  {
    && (forall i :: iP - NData(iP) <= i < iP ==> vMid[i] > 0.01)
    && (forall i :: iP - NData(iP) <= i <= iP ==> vGptOK[i] == 1)
  }

  /** Inside a complete window no return is left out. */
  lemma NoReturnMissing(ser: seq<real>, vMid: seq<real>, vGptOK: seq<int>, iP: nat, i: nat)
    requires iP < |vMid| && iP < |vGptOK| && IsSeries(ser, vMid, vGptOK, iP) && Complete(vMid, vGptOK, iP)
    requires iP - NData(iP) <= i < iP
    ensures vMid[i] > 0.0 && ser[LEN_OUT - iP + i] == Return(vMid[i], vMid[i + 1])
  {
    assert ser[LEN_OUT - iP + i] == ReturnAt(vMid, vGptOK, i);
  }

  lemma WindowFollows(ser: seq<real>, vMid: seq<real>, vGptOK: seq<int>, iP: nat)
    requires iP < |vMid| && iP < |vGptOK| && IsSeries(ser, vMid, vGptOK, iP) && Complete(vMid, vGptOK, iP)
    ensures FollowsAll(ser, vMid[iP - NData(iP)..iP + 1])
  {
    var path := vMid[iP - NData(iP)..iP + 1];
    forall i: nat | i + 1 < |path|
      ensures Follows(ser, path, i)
    {
      NoReturnMissing(ser, vMid, vGptOK, iP, iP - NData(iP) + i);
    }
  }

  /** Over a window without missing data the compounded returns are the ratio of its end prices. */
  lemma CompoundedReturn(ser: seq<real>, vMid: seq<real>, vGptOK: seq<int>, iP: nat)
    requires iP < |vMid| && iP < |vGptOK| && IsSeries(ser, vMid, vGptOK, iP)
    requires Complete(vMid, vGptOK, iP) && vMid[iP - NData(iP)] != 0.0
    ensures Growth(ser) == vMid[iP] / vMid[iP - NData(iP)]
  {
    var path := vMid[iP - NData(iP)..iP + 1];
    WindowFollows(ser, vMid, vGptOK, iP);
    GrowthTelescopes(ser, path);
    Quotient(path[0], Growth(ser), path[|path| - 1]);
  }

  lemma Quotient(a: real, g: real, b: real)
    requires a != 0.0 && a * g == b
    ensures g == b / a
  {
  }
}
