/** The list of months a report covers (scripts/oosMon/oosTool.py). `None` is Python's OverflowError for
    a date before the year 1. */
module MonthList {
  import opened Options
  import opened Calendar

  /** `day - timedelta(days = k)` */
  function Earlier(d: Date, k: nat): Option<Date>
    requires Valid(d)
  {
    if Ordinal(d) > k then Some(MinusDays(d, k)) else None
  }

  /** `day.replace(day = 1)` */
  function FirstOfMonth(d: Date): (r: Date)
    requires Valid(d)
    ensures Valid(r)
  {
    d.(day := 1)
  }

  function GetLastDay(today: Date): Option<Date>
    requires Valid(today)
  {
    match Earlier(today, 40)
    case None => None
    case Some(d) => Some(FirstOfMonth(d))
  }

  function GetFirstDay(lastDay: Date, nYear: nat): Option<Date>
    requires Valid(lastDay)
  {
    match Earlier(lastDay, 365 * nYear)
    case None => None
    case Some(d) => Some(FirstOfMonth(d))
  }

  function GetFirstDayOfNextMonth(d: Date): (r: Date)
    requires Valid(d)
    ensures Valid(r)
  {
    if d.month == 12 then Date(d.year + 1, 1, 1) else Date(d.year, d.month + 1, 1)
  }

  // -------------------------------------------------------------- leap days

  /** Leap years among the n years before y. */
  function LeapYears(y: int, n: nat): nat {
    if n == 0 then 0 else LeapYears(y, n - 1) + if IsLeap(y - n) then 1 else 0
  }

  /** Leap days between the first of month m of year y - n and of year y. */
  function LeapDays(y: int, m: int, n: nat): nat {
    LeapYears(if m <= 2 then y else y + 1, n)
  }

  lemma {:induction false} YearsBack(y: int, n: nat)
    ensures DaysBeforeYear(y) - DaysBeforeYear(y - n) == 365 * n + LeapYears(y, n)
  {
    if n > 0 {
      YearsBack(y, n - 1);
      YearsAddUp(y - n);
    }
  }

  lemma MonthStart(y: int, m: int)
    requires 1 <= m <= 12
    ensures DaysBeforeMonth(y, m) - DaysBeforeMonth(1, m) == if m > 2 && IsLeap(y) then 1 else 0
  {
    assert !IsLeap(1);
    if m > 2 {
      MonthStartFrom(y, m);
    }
  }

  lemma {:induction false} MonthStartFrom(y: int, m: int)
    requires 3 <= m <= 12
    ensures DaysBeforeMonth(y, m) - DaysBeforeMonth(1, m) == if IsLeap(y) then 1 else 0
  {
    if m == 3 {
      assert DaysBeforeMonth(y, 3) == DaysBeforeMonth(y, 2) + DaysInMonth(y, 2);
      assert DaysBeforeMonth(1, 3) == DaysBeforeMonth(1, 2) + DaysInMonth(1, 2);
    } else {
      MonthStartFrom(y, m - 1);
    }
  }

  lemma {:induction false} ShiftYears(y: int, n: nat)
    ensures LeapYears(y + 1, n) + (if IsLeap(y - n) then 1 else 0)
            == LeapYears(y, n) + (if IsLeap(y) then 1 else 0)
  {
    if n > 0 {
      ShiftYears(y, n - 1);
    }
  }

  /** From the first of a month to the same first n years earlier: 365 days a year and the leap days. */
  lemma DaysBetweenYears(y: int, m: int, n: nat)
    requires 1 <= m <= 12
    ensures Ordinal(Date(y, m, 1)) - Ordinal(Date(y - n, m, 1)) == 365 * n + LeapDays(y, m, n)
  {
    YearsBack(y, n);
    MonthStart(y, m);
    MonthStart(y - n, m);
    ShiftYears(y, n);
  }

  /** Leap years are among the multiples of four. */
  lemma {:induction false} OneYearInFour(y: int, n: nat)
    ensures LeapYears(y, n) <= (y - 1) / 4 - (y - n - 1) / 4
  {
    if n > 0 {
      OneYearInFour(y, n - 1);
      FourthYears(y - n);
    }
  }

  /** A century holds at most 25 leap days. */
  lemma AtMostTwentyFive(y: int, m: int, n: nat)
    requires n <= 100
    ensures LeapDays(y, m, n) <= 25
  {
    OneYearInFour(if m <= 2 then y else y + 1, n);
  }

  /** A day some days after a first of month is in that month while they are fewer than its days. */
  lemma MonthOfDay(d: Date, first: Date, days: nat)
    requires Valid(d) && Valid(first) && first.day == 1 && Ordinal(d) == Ordinal(first) + days
    ensures FirstOfMonth(d) == first <==> days < DaysInMonth(first.year, first.month)
  {
    if days < DaysInMonth(first.year, first.month) {
      OrdinalIsInjective(d, first.(day := 1 + days));
    }
  }

  /** What getFirstDay returns: the month n years back exactly when the leap days fit in that month. */
  lemma FirstDayIff(lastDay: Date, nYear: nat)
    requires Valid(lastDay) && lastDay.day == 1 && GetFirstDay(lastDay, nYear).Some?
    ensures var (y, m) := (lastDay.year, lastDay.month);
            && (GetFirstDay(lastDay, nYear) == Some(Date(y - nYear, m, 1))
                <==> LeapDays(y, m, nYear) < DaysInMonth(y - nYear, m))
            && (nYear <= 100 ==> LeapDays(y, m, nYear) < DaysInMonth(y - nYear, m))
  {
    var (y, m) := (lastDay.year, lastDay.month);
    var leaps, d := LeapDays(y, m, nYear), MinusDays(lastDay, 365 * nYear);
    DaysBetweenYears(y, m, nYear);
    MonthOfDay(d, Date(y - nYear, m, 1), leaps);
    if nYear <= 100 {
      AtMostTwentyFive(y, m, nYear);
    }
  }

  // ------------------------------------------------------------ the month list

  /** Months counted from the year 0. */
  function MonthNumber(d: Date): int {
    12 * d.year + d.month - 1
  }

  function Yyyymm(month: int): int {
    month / 12 * 100 + month % 12 + 1
  }

  predicate NotAfter(a: Date, b: Date) {
    a.year < b.year || (a.year == b.year && (a.month < b.month || (a.month == b.month && a.day <= b.day)))
  }

  /** The consecutive months from one to another, both included. */
  function Months(from: int, to: int): (r: seq<int>)
    ensures |r| == if to < from then 0 else to - from + 1
    ensures forall i :: 0 <= i < |r| ==> r[i] == Yyyymm(from + i)
  {
    if to < from then [] else seq(to - from + 1, i => Yyyymm(from + i))
  }

  lemma DateOrderIsMonthOrder(a: Date, b: Date)
    requires Valid(a) && Valid(b) && a.day == b.day == 1
    ensures NotAfter(a, b) <==> MonthNumber(a) <= MonthNumber(b)
    ensures Yyyymm(MonthNumber(a)) == a.year * 100 + a.month
  {
    assert MonthNumber(a) / 12 == a.year && MonthNumber(a) % 12 == a.month - 1;
  }

  method GetYYYYMMs(today: Date, nYear: nat) returns (yyyymms: Option<seq<int>>)
    requires Valid(today)
    ensures yyyymms.None? <==> GetLastDay(today).None? || GetFirstDay(GetLastDay(today).value, nYear).None?
    ensures yyyymms.Some? ==>
              var last := GetLastDay(today).value;
              yyyymms.value == Months(MonthNumber(GetFirstDay(last, nYear).value), MonthNumber(last))
  {
    var last := GetLastDay(today);
    if last.None? {
      return None;
    }
    var first := GetFirstDay(last.value, nYear);
    if first.None? {
      return None;
    }
    var list := MonthsBetween(first.value, last.value);
    yyyymms := Some(list);
  }

  /** The loop of getYYYYMMs. */
  method MonthsBetween(firstDay: Date, lastDay: Date) returns (yyyymms: seq<int>)
    requires Valid(firstDay) && Valid(lastDay) && firstDay.day == lastDay.day == 1
    ensures yyyymms == Months(MonthNumber(firstDay), MonthNumber(lastDay))
  {
    var day := firstDay;
    yyyymms := [];
    while NotAfter(day, lastDay)
      invariant Valid(day) && day.day == 1
      invariant MonthNumber(day) == MonthNumber(firstDay) + |yyyymms|
      invariant yyyymms == Months(MonthNumber(firstDay), MonthNumber(day) - 1)
      invariant yyyymms != [] ==> MonthNumber(day) <= MonthNumber(lastDay) + 1
      decreases MonthNumber(lastDay) + 1 - MonthNumber(day)
    {
      DateOrderIsMonthOrder(day, lastDay);
      yyyymms := yyyymms + [day.year * 100 + day.month];
      day := GetFirstDayOfNextMonth(day);
    }
    DateOrderIsMonthOrder(day, lastDay);
  }

  lemma MonthNumberIsInjective(a: Date, b: Date)
    requires 1 <= a.month <= 12 && 1 <= b.month <= 12 && a.day == b.day && MonthNumber(a) == MonthNumber(b)
    ensures a == b
  {
    assert a.year == b.year;
  }

  /** The list from 12n months before the last one. */
  lemma ListOfYears(last: Date, from: int, n: nat)
    requires 1 <= last.month <= 12
    ensures var list := Months(from, MonthNumber(last));
            && (|list| == 12 * n + 1 <==> from == MonthNumber(last) - 12 * n)
            && (|list| == 12 * n + 1 ==>
                  list[0] == (last.year - n) * 100 + last.month && list[12 * n] == last.year * 100 + last.month)
  {
    YyyymmOf(last.year - n, last.month);
    YyyymmOf(last.year, last.month);
    assert MonthNumber(last) - 12 * n == 12 * (last.year - n) + last.month - 1;
  }

  lemma YyyymmOf(y: int, m: int)
    requires 1 <= m <= 12
    ensures Yyyymm(12 * y + m - 1) == y * 100 + m
  {
    assert (12 * y + m - 1) / 12 == y && (12 * y + m - 1) % 12 == m - 1;
  }

  /** Over up to a hundred years the list has 12 entries a year and one more, from the month n years
      before the last one on; for any n it has 12n + 1 entries exactly when the leap days fit in that month. */
  lemma ListCoversTheYears(last: Date, nYear: nat)
    requires Valid(last) && last.day == 1 && GetFirstDay(last, nYear).Some?
    ensures var list := Months(MonthNumber(GetFirstDay(last, nYear).value), MonthNumber(last));
            && (|list| == 12 * nYear + 1
                <==> LeapDays(last.year, last.month, nYear) < DaysInMonth(last.year - nYear, last.month))
            && (nYear <= 100 ==>
                  && |list| == 12 * nYear + 1
                  && list[0] == (last.year - nYear) * 100 + last.month
                  && list[12 * nYear] == last.year * 100 + last.month)
  {
    FirstDayIff(last, nYear);
    var first, ideal := GetFirstDay(last, nYear).value, Date(last.year - nYear, last.month, 1);
    ListOfYears(last, MonthNumber(first), nYear);
    if MonthNumber(first) == MonthNumber(ideal) {
      MonthNumberIsInjective(first, ideal);
    }
  }

  /** Each entry is the calendar successor of the one before. */
  lemma ListIsConsecutive(from: int, to: int, i: int)
    requires 0 < i < |Months(from, to)|
    ensures var list := Months(from, to);
            list[i] == if list[i - 1] % 100 == 12 then list[i - 1] + 89 else list[i - 1] + 1
  {
    Successor(from + i - 1);
  }

  lemma Successor(month: int)
    ensures var a := Yyyymm(month); Yyyymm(month + 1) == if a % 100 == 12 then a + 89 else a + 1
  {
    var y, m := month / 12, month % 12;
    assert (month + 1) / 12 == if m == 11 then y + 1 else y;
    assert Yyyymm(month) % 100 == m + 1;
  }

  lemma NextMonthIsNear(d: Date)
    requires Valid(d)
    ensures Ordinal(GetFirstDayOfNextMonth(FirstOfMonth(d))) <= Ordinal(d) + 31
  {
    if d.month == 12 {
      MonthsAddUp(d.year);
      YearsAddUp(d.year);
    }
  }

  /** The last month is the one that holds the day forty days ago, and the list starts from its first. */
  lemma LastDayIs(today: Date)
    requires Valid(today)
    ensures GetLastDay(today).None? <==> Ordinal(today) <= 40
    ensures GetLastDay(today).Some? ==>
              var last := GetLastDay(today).value;
              && last.day == 1 && Valid(last)
              && Ordinal(last) <= Ordinal(today) - 40 < Ordinal(GetFirstDayOfNextMonth(last))
  {
    if GetLastDay(today).Some? {
      var d := MinusDays(today, 40);
      MonthHolds(d);
    }
  }

  lemma MonthHolds(d: Date)
    requires Valid(d)
    ensures Ordinal(FirstOfMonth(d)) <= Ordinal(d) < Ordinal(GetFirstDayOfNextMonth(FirstOfMonth(d)))
  {
    if d.month == 12 {
      MonthsAddUp(d.year);
      YearsAddUp(d.year);
    }
  }

  /** The month after the last one has begun by today, so the loop stays within Python's years. */
  lemma LoopEndsBeforeToday(today: Date)
    requires Valid(today) && GetLastDay(today).Some?
    ensures Ordinal(GetFirstDayOfNextMonth(GetLastDay(today).value)) <= Ordinal(today) - 9
  {
    NextMonthIsNear(Earlier(today, 40).value);
  }
}
