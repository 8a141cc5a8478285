/** Counting rows per ticker from a file that is expected to be grouped (source/bin/compSig.cpp,
    cnt_data). */
module RunCounts {

  /** Length of the run the list ends with. */
  function TailRun(s: seq<string>): (n: nat)
    ensures n <= |s| && (s != [] ==> n > 0)
  {
    if s == [] then 0
    else if |s| > 1 && s[|s| - 2] == s[|s| - 1] then TailRun(s[..|s| - 1]) + 1
    else 1
  }

  /** Length of the last run of a ticker, 0 when it does not occur. */
  function LastRun(s: seq<string>, uid: string): nat {
    if s == [] then 0
    else if s[|s| - 1] == uid then TailRun(s)
    else LastRun(s[..|s| - 1], uid)
  }

  function Occurrences(s: seq<string>, uid: string): nat {
    if s == [] then 0 else Occurrences(s[..|s| - 1], uid) + if s[|s| - 1] == uid then 1 else 0
  }

  /** The table entry of a ticker, 0 when absent. */
  function CountOf(counts: map<string, int>, uid: string): int {
    if uid in counts then counts[uid] else 0
  }

  /** The ticker column of the file, row by row; the count of a finished run overwrites an earlier one. */
  method CntData(uids: seq<string>) returns (mUidCnt: map<string, int>)
    ensures forall u :: CountOf(mUidCnt, u) == LastRun(uids, u)
    ensures forall u :: u in mUidCnt <==> u in uids
  {
    mUidCnt := map[];
    var lastUid := "";
    var cnt := 0;
    for i := 0 to |uids|
      invariant cnt == TailRun(uids[..i])
      invariant i > 0 ==> lastUid == uids[i - 1]
      invariant forall u :: u in mUidCnt || (i > 0 && u == lastUid) <==> u in uids[..i]
      invariant forall u :: (i == 0 || u != lastUid) ==> CountOf(mUidCnt, u) == LastRun(uids[..i], u)
    {
      var uid := uids[i];
      ghost var seen, next := uids[..i], uids[..i + 1];
      assert next[..i] == seen && next[i] == uid;
      if uid != lastUid && cnt > 0 {
        mUidCnt := mUidCnt[lastUid := cnt];
        cnt := 0;
      }
      lastUid := uid;
      cnt := cnt + 1;
    }
    assert uids[..|uids|] == uids;
    if cnt > 0 {
      mUidCnt := mUidCnt[lastUid := cnt];
    }
  }

  /** The last run: it ends with the last row of the ticker and begins after a row of another one. */
  lemma {:induction false} LastRunIs(s: seq<string>, uid: string) returns (end: nat)
    requires uid in s
    ensures LastRun(s, uid) <= end <= |s| && LastRun(s, uid) > 0
    ensures forall i :: end - LastRun(s, uid) <= i < end ==> s[i] == uid
    ensures forall i :: end <= i < |s| ==> s[i] != uid
    ensures end - LastRun(s, uid) > 0 ==> s[end - LastRun(s, uid) - 1] != uid
  {
    if s[|s| - 1] == uid {
      end := |s|;
      BeforeTheRun(s);
    } else {
      var front := s[..|s| - 1];
      assert s == front + [s[|s| - 1]];
      end := LastRunIs(front, uid);
    }
  }

  /** All rows of a ticker stand together. */
  ghost predicate Together(s: seq<string>, uid: string) {
    forall i, j, k :: 0 <= i < j < k < |s| && s[i] == uid && s[k] == uid ==> s[j] == uid
  }

  lemma {:induction false} OccursOrNot(s: seq<string>, uid: string)
    ensures Occurrences(s, uid) > 0 <==> uid in s
  {
    if s != [] {
      OccursOrNot(s[..|s| - 1], uid);
      assert s == s[..|s| - 1] + [s[|s| - 1]];
    }
  }

  /** What the last run misses is what occurs before it. */
  lemma {:induction false} BeforeTheRun(s: seq<string>)
    requires s != []
    ensures var (n, uid) := (|s| - TailRun(s), s[|s| - 1]);
            && Occurrences(s, uid) == Occurrences(s[..n], uid) + TailRun(s)
            && (forall i :: n <= i < |s| ==> s[i] == uid)
            && (n > 0 ==> s[n - 1] != uid)
  {
    if |s| > 1 && s[|s| - 2] == s[|s| - 1] {
      var front := s[..|s| - 1];
      BeforeTheRun(front);
      assert front[..|front| - TailRun(front)] == s[..|s| - TailRun(s)];
    } else {
      assert s[..|s| - 1] == s[..|s| - TailRun(s)];
    }
  }

  /** The count is the number of rows of the ticker exactly when its rows stand together. */
  lemma {:induction false} CountIsExactIff(s: seq<string>, uid: string)
    ensures LastRun(s, uid) <= Occurrences(s, uid)
    ensures LastRun(s, uid) == Occurrences(s, uid) <==> Together(s, uid)
  {
    if s != [] {
      var front, last := s[..|s| - 1], s[|s| - 1];
      if last != uid {
        CountIsExactIff(front, uid);
        assert Together(front, uid) <==> Together(s, uid);
      } else {
        BeforeTheRun(s);
        var n := |s| - TailRun(s);
        OccursOrNot(s[..n], uid);
        if uid in s[..n] {
          var i :| 0 <= i < n && s[..n][i] == uid;
          assert s[i] == uid && s[n - 1] != uid && s[|s| - 1] == uid;
          assert i < n - 1 < |s| - 1;
        } else {
          assert forall x :: 0 <= x < n ==> s[..n][x] == s[x] != uid;
        }
      }
    }
  }
}
