/** Stepping over weekdays and listing weekdays or weekends (source/bin/get_idate.cpp). The walk is on
    day numbers; day 1 of the calendar is a Monday and weekday 0 is Sunday. */
module WeekdayWalk {
  import opened Calendar

  function WeekDay(day: int): int {
    day % 7
  }

  predicate IsWeekend(day: int) {
    WeekDay(day) == 0 || WeekDay(day) == 6
  }

  /** One direction of travel. */
  type Direction = i: int | i == 1 || i == -1 witness 1

  function Reverse(incr: Direction): Direction {
    if incr == 1 then -1 else 1
  }

  /** The first weekday from `day` on in the given direction. */
  function Settle(day: int, incr: Direction): int {
    if !IsWeekend(day) then day
    else if incr == 1 then (if WeekDay(day) == 6 then day + 2 else day + 1)
    else (if WeekDay(day) == 6 then day - 1 else day - 2)
  }

  function Step(day: int, incr: Direction): int {
    Settle(day + incr, incr)
  }

  function Walk(day: int, incr: Direction, n: nat): int {
    if n == 0 then day else Step(Walk(day, incr, n - 1), incr)
  }

  function DirectionOf(dd: int): Direction {
    if dd > 0 then 1 else -1
  }

  function Abs(dd: int): nat {
    if dd < 0 then -dd else dd
  }

  /** The walk by dd weekdays. */
  function WalkBy(day: int, dd: int): int {
    Walk(day, DirectionOf(dd), Abs(dd))
  }

  method StepWeekdays(idate: int, dd: int) returns (retDate: int)
    ensures retDate == WalkBy(idate, dd)
  {
    retDate := idate;
    var incr: Direction := -1;
    if dd > 0 {
      incr := 1;
    }
    for i := 0 to Abs(dd)
      invariant retDate == Walk(idate, incr, i)
    {
      retDate := KeepStepping(retDate + incr, incr);
    }
  }

  /** Keep adding or subtracting until a weekday. */
  method KeepStepping(day: int, incr: Direction) returns (retDate: int)
    ensures retDate == Settle(day, incr)
  {
    retDate := day;
    while IsWeekend(retDate)
      invariant Settle(retDate, incr) == Settle(day, incr)
      decreases Abs(Settle(day, incr) - retDate)
    {
      retDate := retDate + incr;
    }
  }

  /** Weekdays from lo up to and not including hi. */
  function Weekdays(lo: int, hi: int): nat
    decreases hi - lo
  {
    if hi <= lo then 0 else Weekdays(lo, hi - 1) + if IsWeekend(hi - 1) then 0 else 1
  }

  lemma {:induction false} WeekdaysSplit(lo: int, mid: int, hi: int)
    requires lo <= mid <= hi
    ensures Weekdays(lo, hi) == Weekdays(lo, mid) + Weekdays(mid, hi)
    decreases hi - mid
  {
    if mid < hi {
      WeekdaysSplit(lo, mid, hi - 1);
    }
  }

  lemma StepOverOne(day: int, incr: Direction)
    ensures !IsWeekend(Step(day, incr))
    ensures incr == 1 ==> day < Step(day, incr) && Weekdays(day + 1, Step(day, incr) + 1) == 1
    ensures incr == -1 ==> Step(day, incr) < day && Weekdays(Step(day, incr), day) == 1
  {
    var s := Step(day, incr);
    if incr == 1 {
      assert Weekdays(day + 1, day + 1) == 0;
      assert Weekdays(day + 1, day + 2) == if IsWeekend(day + 1) then 0 else 1;
      assert Weekdays(day + 1, s) == 0;
      assert Weekdays(day + 1, s + 1) == Weekdays(day + 1, s) + 1;
    } else {
      WeekdaysSplit(s, s + 1, day);
      assert Weekdays(s, s + 1) == 1;
      assert Weekdays(s + 1, day) == 0;
    }
  }

  /** A walk ends on a weekday with exactly |dd| weekdays stepped over; a walk by zero stays. */
  lemma {:induction false} WalkCounts(day: int, incr: Direction, n: nat)
    ensures var end := Walk(day, incr, n);
            && (!IsWeekend(end) <==> n > 0 || !IsWeekend(day))
            && (incr == 1 ==> day <= end && Weekdays(day + 1, end + 1) == n)
            && (incr == -1 ==> end <= day && Weekdays(end, day) == n)
  {
    if n > 0 {
      WalkCounts(day, incr, n - 1);
      var before := Walk(day, incr, n - 1);
      StepOverOne(before, incr);
      if incr == 1 {
        WeekdaysSplit(day + 1, before + 1, Step(before, incr) + 1);
      } else {
        WeekdaysSplit(Step(before, incr), before, day);
      }
    }
  }

  /** The count fixes the end: no other weekday has as many weekdays in between. */
  lemma WalkEndIsUnique(day: int, incr: Direction, n: nat, end: int)
    requires n > 0 && !IsWeekend(end)
    requires incr == 1 ==> day < end && Weekdays(day + 1, end + 1) == n
    requires incr == -1 ==> end < day && Weekdays(end, day) == n
    ensures end == Walk(day, incr, n)
  {
    var w := Walk(day, incr, n);
    WalkCounts(day, incr, n);
    if incr == 1 {
      if end < w {
        WeekdaysSplit(day + 1, end + 1, w + 1);
        WeekdaysSplit(end + 1, w, w + 1);
      } else if w < end {
        WeekdaysSplit(day + 1, w + 1, end + 1);
        WeekdaysSplit(w + 1, end, end + 1);
      }
    } else {
      if end < w {
        WeekdaysSplit(end, w, day);
        WeekdaysSplit(end, end + 1, w);
      } else if w < end {
        WeekdaysSplit(w, end, day);
        WeekdaysSplit(w, w + 1, end);
      }
    }
  }

  /** Position in the week with Monday as 0. */
  function FromMonday(day: int): int {
    (day + 6) % 7
  }

  lemma {:induction false} ForwardFromWeekday(day: int, n: nat)
    requires FromMonday(day) <= 4
    ensures var k := FromMonday(day) + n;
            && Walk(day, 1, n) == day + n + 2 * (k / 5)
            && FromMonday(Walk(day, 1, n)) == k % 5
  {
    if n > 0 {
      ForwardFromWeekday(day, n - 1);
      NextInWeek(Walk(day, 1, n - 1), FromMonday(day) + n - 1);
    }
  }

  lemma NextInWeek(day: int, k: int)
    requires FromMonday(day) == k % 5
    ensures Step(day, 1) == day + 1 + 2 * ((k + 1) / 5 - k / 5)
    ensures FromMonday(Step(day, 1)) == (k + 1) % 5
  {
    assert (k + 1) / 5 == if k % 5 == 4 then k / 5 + 1 else k / 5;
  }

  lemma {:induction false} BackwardFromWeekday(day: int, n: nat)
    requires FromMonday(day) <= 4
    ensures var k := 4 - FromMonday(day) + n;
            && Walk(day, -1, n) == day - n - 2 * (k / 5)
            && FromMonday(Walk(day, -1, n)) == 4 - k % 5
  {
    if n > 0 {
      BackwardFromWeekday(day, n - 1);
      PrevInWeek(Walk(day, -1, n - 1), 4 - FromMonday(day) + n - 1);
    }
  }

  lemma PrevInWeek(day: int, k: int)
    requires FromMonday(day) == 4 - k % 5
    ensures Step(day, -1) == day - 1 - 2 * ((k + 1) / 5 - k / 5)
    ensures FromMonday(Step(day, -1)) == 4 - (k + 1) % 5
  {
    assert (k + 1) / 5 == if k % 5 == 4 then k / 5 + 1 else k / 5;
  }

  /** A walk from a weekend is the walk from the weekday behind it. */
  lemma {:induction false} FromWeekend(day: int, incr: Direction, n: nat)
    requires IsWeekend(day) && n > 0
    ensures Walk(day, incr, n) == Walk(Settle(day, Reverse(incr)), incr, n)
  {
    if n > 1 {
      FromWeekend(day, incr, n - 1);
    } else {
      assert Walk(day, incr, 0) == day;
      assert Step(day, incr) == Step(Settle(day, Reverse(incr)), incr);
    }
  }

  /** Where a walk by dd effectively starts: a weekend counts as the weekday behind it. */
  function StartOf(day: int, dd: int): int {
    if dd == 0 then day else Settle(day, Reverse(DirectionOf(dd)))
  }

  /** Closed form of the walk in both directions. */
  lemma ClosedForm(day: int, dd: int)
    ensures var start := StartOf(day, dd);
            WalkBy(day, dd) == if dd == 0 then day
                               else if dd > 0 then start + dd + 2 * ((FromMonday(start) + dd) / 5)
                               else start + dd - 2 * ((4 - FromMonday(start) - dd) / 5)
  {
    var start := StartOf(day, dd);
    if dd != 0 {
      SettledIsWeekday(day, Reverse(DirectionOf(dd)));
      if IsWeekend(day) {
        FromWeekend(day, DirectionOf(dd), Abs(dd));
      }
      if dd > 0 {
        ForwardFromWeekday(start, dd);
      } else {
        BackwardFromWeekday(start, -dd);
      }
    }
  }

  lemma SettledIsWeekday(day: int, incr: Direction)
    ensures FromMonday(Settle(day, incr)) <= 4
  {
  }

  lemma {:induction false} StepFirst(day: int, incr: Direction, n: nat)
    ensures Walk(Step(day, incr), incr, n) == Step(Walk(day, incr, n), incr)
  {
    if n > 0 {
      StepFirst(day, incr, n - 1);
    }
  }

  lemma StepThereAndBack(day: int, incr: Direction)
    ensures Step(Step(day, incr), Reverse(incr)) == day <==> !IsWeekend(day)
  {
  }

  /** Walking n weekdays and then back is the identity exactly when nothing was walked or the start was
      a weekday; this holds in both directions. */
  lemma {:induction false} ThereAndBack(day: int, incr: Direction, n: nat)
    ensures Walk(Walk(day, incr, n), Reverse(incr), n) == day <==> n == 0 || !IsWeekend(day)
  {
    if n == 1 {
      StepThereAndBack(day, incr);
      assert Walk(day, incr, 0) == day && Walk(Step(day, incr), Reverse(incr), 0) == Step(day, incr);
    } else if n > 1 {
      var y := Walk(day, incr, n - 1);
      WalkCounts(day, incr, n - 1);
      StepThereAndBack(y, incr);
      StepFirst(Step(y, incr), Reverse(incr), n - 1);
      ThereAndBack(day, incr, n - 1);
      assert Walk(Step(y, incr), Reverse(incr), n) == Walk(y, Reverse(incr), n - 1);
    }
  }

  // --------------------------------------------------------------- which day is which

  function After(d: Date, n: nat): (r: Date)
    requires Valid(d)
    ensures Valid(r)
  {
    if n == 0 then d
    else
      NextDayIsOneLater(After(d, n - 1));
      NextDay(After(d, n - 1))
  }

  function Before(d: Date, n: nat): (r: Date)
    requires Valid(d)
    ensures Valid(r)
  {
    if n == 0 then d
    else
      PrevDayIsOneEarlier(Before(d, n - 1));
      PrevDay(Before(d, n - 1))
  }

  lemma January(d: Date)
    requires d.month == 1 && 1 <= d.day <= 31
    ensures Valid(d) && Ordinal(d) == DaysBeforeYear(d.year) + d.day
  {
  }

  lemma YearsBefore(y: int)
    ensures y == 1 ==> DaysBeforeYear(y) == 0
    ensures y == 2024 ==> DaysBeforeYear(y) == 738885
  {
  }

  /** The first of January of the year 1 is day 1, and that of 2024 is a Monday. */
  lemma Epoch(d: Date)
    requires d.month == 1 && d.day == 1
    ensures Valid(d)
    ensures d.year == 1 ==> Ordinal(d) == 1
    ensures d.year == 2024 ==> Ordinal(d) == 738886 && WeekDay(Ordinal(d)) == 1 && FromMonday(Ordinal(d)) == 0
  {
    January(d);
    YearsBefore(d.year);
  }

  lemma {:induction false} AfterAndBefore(d: Date, n: nat)
    requires Valid(d)
    ensures Ordinal(After(d, n)) == Ordinal(d) + n && Ordinal(Before(d, n)) == Ordinal(d) - n
  {
    if n > 0 {
      AfterAndBefore(d, n - 1);
      NextDayIsOneLater(After(d, n - 1));
      PrevDayIsOneEarlier(Before(d, n - 1));
    }
  }

  /** Weekends, counted in calendar days from the first of January of 2024 in both directions. */
  lemma WeekendsFrom2024(d: Date, n: nat)
    requires d.year == 2024 && d.month == 1 && d.day == 1
    ensures Valid(d)
    ensures IsWeekend(Ordinal(After(d, n))) <==> n % 7 == 5 || n % 7 == 6
    ensures IsWeekend(Ordinal(Before(d, n))) <==> n % 7 == 1 || n % 7 == 2
  {
    Epoch(d);
    AfterAndBefore(d, n);
    SevenDays(Ordinal(d), n);
  }

  lemma SevenDays(monday: int, n: nat)
    requires monday % 7 == 1
    ensures IsWeekend(monday + n) <==> n % 7 == 5 || n % 7 == 6
    ensures IsWeekend(monday - n) <==> n % 7 == 1 || n % 7 == 2
  {
    var a, w, r := monday / 7, n / 7, n % 7;
    assert monday == 7 * a + 1 && n == 7 * w + r;
    if r < 6 {
      QuotientIs(monday + n, 7, a + w, 1 + r);
    } else {
      QuotientIs(monday + n, 7, a + w + 1, 0);
    }
    if r <= 1 {
      QuotientIs(monday - n, 7, a - w, 1 - r);
    } else {
      QuotientIs(monday - n, 7, a - w - 1, 8 - r);
    }
  }

  /** In the first week of 2024 the 6th and the 7th are the weekend. */
  lemma FirstWeekendOf2024(d: Date)
    requires d.year == 2024 && d.month == 1 && 1 <= d.day <= 7
    ensures Valid(d) && (IsWeekend(Ordinal(d)) <==> d.day == 6 || d.day == 7)
    ensures Yyyymmdd(d) == 20240100 + d.day
  {
    January(d);
    YearsBefore(d.year);
  }

  // ---------------------------------------------------------- listing a date range

  predicate InRange(d: Date, d1: Date, d2: int) {
    Yyyymmdd(d1) <= Yyyymmdd(d) <= d2
  }

  /** The "lh" and "lt" listings: from date d1 while the yyyymmdd integer does not exceed d2, which need
      not be a date. What is printed is each weekend day (or each weekday) of the range, once, in order. */
  method ListDays(d1: Date, d2: int, weekends: bool) returns (printed: seq<Date>)
    requires Valid(d1)
    ensures forall i :: 0 <= i < |printed| ==> Valid(printed[i])
    ensures forall i, j :: 0 <= i < j < |printed| ==> Yyyymmdd(printed[i]) < Yyyymmdd(printed[j])
    ensures forall d :: Valid(d) ==>
              (d in printed <==> Yyyymmdd(d1) <= Yyyymmdd(d) <= d2 && IsWeekend(Ordinal(d)) == weekends)
  {
    printed := [];
    var idate := d1;
    while Yyyymmdd(idate) <= d2
      invariant Valid(idate) && Yyyymmdd(d1) <= Yyyymmdd(idate)
      invariant forall i :: 0 <= i < |printed| ==> Valid(printed[i]) && Yyyymmdd(printed[i]) < Yyyymmdd(idate)
      invariant forall i, j :: 0 <= i < j < |printed| ==> Yyyymmdd(printed[i]) < Yyyymmdd(printed[j])
      invariant forall d :: d in printed ==> InRange(d, d1, d2) && IsWeekend(Ordinal(d)) == weekends
      invariant forall d :: Valid(d) && InRange(d, d1, d2) && Yyyymmdd(d) < Yyyymmdd(idate) ==>
                  (IsWeekend(Ordinal(d)) == weekends ==> d in printed)
      decreases d2 - Yyyymmdd(idate)
    {
      if IsWeekend(Ordinal(idate)) == weekends {
        printed := printed + [idate];
      }
      NextDayIsOneLater(idate);
      forall d | Valid(d) && Yyyymmdd(d) < Yyyymmdd(NextDay(idate))
        ensures d == idate || Yyyymmdd(d) < Yyyymmdd(idate)
      {
        NothingBetween(idate, d);
      }
      EncodingKeepsOrder(idate, NextDay(idate));
      idate := NextDay(idate);
    }
  }

  lemma NothingBetween(a: Date, d: Date)
    requires Valid(a) && Valid(d) && Valid(NextDay(a)) && Yyyymmdd(d) < Yyyymmdd(NextDay(a))
    ensures d == a || Yyyymmdd(d) < Yyyymmdd(a)
  {
    NextDayIsOneLater(a);
    EncodingKeepsOrder(d, NextDay(a));
    EncodingKeepsOrder(d, a);
    if Ordinal(d) == Ordinal(a) {
      OrdinalIsInjective(d, a);
    }
  }
}
