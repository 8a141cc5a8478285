/** The proleptic Gregorian calendar: dates, day numbers and the yyyymmdd integers the tools pass around. */
module Calendar {

  datatype Date = Date(year: int, month: int, day: int)

  predicate IsLeap(y: int) {
    y % 4 == 0 && (y % 100 != 0 || y % 400 == 0)
  }

  function DaysInMonth(y: int, m: int): int
    requires 1 <= m <= 12
  {
    if m == 2 then (if IsLeap(y) then 29 else 28)
    else if m in {4, 6, 9, 11} then 30 else 31
  }

  /** Centuries are leap years every fourth time only. */
  lemma LeapYearsAre(y: int)
    ensures y in {1996, 2000, 2004, 2024, 2400} ==> IsLeap(y)
    ensures y in {1900, 2001, 2023, 2100, 2200} ==> !IsLeap(y)
  {
  }

  lemma MonthLengths(y: int)
    ensures DaysInMonth(y, 1) == DaysInMonth(y, 3) == DaysInMonth(y, 5) == DaysInMonth(y, 7) == 31
    ensures DaysInMonth(y, 8) == DaysInMonth(y, 10) == DaysInMonth(y, 12) == 31
    ensures DaysInMonth(y, 4) == DaysInMonth(y, 6) == DaysInMonth(y, 9) == DaysInMonth(y, 11) == 30
    ensures DaysInMonth(y, 2) == if IsLeap(y) then 29 else 28
  {
  }

  predicate Valid(d: Date) {
    1 <= d.month <= 12 && 1 <= d.day <= DaysInMonth(d.year, d.month)
  }

  function NextDay(d: Date): Date
    requires Valid(d)
  {
    if d.day < DaysInMonth(d.year, d.month) then d.(day := d.day + 1)
    else if d.month < 12 then Date(d.year, d.month + 1, 1)
    else Date(d.year + 1, 1, 1)
  }

  function PrevDay(d: Date): Date
    requires Valid(d)
  {
    if d.day > 1 then d.(day := d.day - 1)
    else if d.month > 1 then Date(d.year, d.month - 1, DaysInMonth(d.year, d.month - 1))
    else Date(d.year - 1, 12, 31)
  }

  // ------------------------------------------------------------- day numbers

  function DaysBeforeYear(y: int): int {
    365 * (y - 1) + (y - 1) / 4 - (y - 1) / 100 + (y - 1) / 400
  }

  function DaysBeforeMonth(y: int, m: int): int
    requires 1 <= m <= 12
  {
    if m == 1 then 0 else DaysBeforeMonth(y, m - 1) + DaysInMonth(y, m - 1)
  }

  /** Day 1 is Monday, the first of January of year 1. */
  function Ordinal(d: Date): int
    requires Valid(d)
  {
    DaysBeforeYear(d.year) + DaysBeforeMonth(d.year, d.month) + d.day
  }

  function YearLength(y: int): int {
    if IsLeap(y) then 366 else 365
  }

  /** Quotient and remainder by n are the only decomposition of their kind. */
  lemma QuotientIs(a: int, n: int, q: int, r: int)
    requires n > 0 && a == n * q + r && 0 <= r < n
    ensures a / n == q && a % n == r
  {
    var d := q - a / n;
    assert n * d == a % n - r;
    assert d >= 1 ==> n * d >= n;
    assert d <= -1 ==> n * d <= -n;
  }

  /** A period ends in year y exactly when it divides y. */
  lemma PeriodsBefore(y: int, n: int)
    requires n > 1
    ensures y / n == (y - 1) / n + if y % n == 0 then 1 else 0
  {
    var q, r := y / n, y % n;
    assert y == n * q + r;
    if r == 0 {
      assert n * (q - 1) == n * q - n;
      QuotientIs(y - 1, n, q - 1, n - 1);
    } else {
      QuotientIs(y - 1, n, q, r - 1);
    }
  }

  lemma FourthYears(y: int)
    ensures y / 4 == (y - 1) / 4 + if y % 4 == 0 then 1 else 0
  {
    PeriodsBefore(y, 4);
  }

  lemma Centuries(y: int)
    ensures y / 100 == (y - 1) / 100 + if y % 100 == 0 then 1 else 0
    ensures y % 100 == 0 ==> y % 4 == 0
  {
    PeriodsBefore(y, 100);
    if y % 100 == 0 {
      assert y == 4 * (25 * (y / 100));
    }
  }

  lemma FourthCenturies(y: int)
    ensures y / 400 == (y - 1) / 400 + if y % 400 == 0 then 1 else 0
    ensures y % 400 == 0 ==> y % 100 == 0
  {
    PeriodsBefore(y, 400);
    if y % 400 == 0 {
      assert y == 100 * (4 * (y / 400));
    }
  }

  lemma YearsAddUp(y: int)
    ensures DaysBeforeYear(y + 1) == DaysBeforeYear(y) + YearLength(y)
  {
    FourthYears(y);
    Centuries(y);
    FourthCenturies(y);
  }

  lemma MonthsAddUp(y: int)
    ensures DaysBeforeMonth(y, 12) + 31 == YearLength(y)
  {
    var leap := YearLength(y) - 365;
    assert DaysBeforeMonth(y, 2) == 31;
    assert DaysBeforeMonth(y, 3) == 59 + leap;
    assert DaysBeforeMonth(y, 5) == 120 + leap;
    assert DaysBeforeMonth(y, 7) == 181 + leap;
    assert DaysBeforeMonth(y, 9) == 243 + leap;
    assert DaysBeforeMonth(y, 11) == 304 + leap;
  }

  lemma {:induction false} YearsGrow(y: int, z: int)
    requires y < z
    ensures DaysBeforeYear(y) + YearLength(y) <= DaysBeforeYear(z)
    decreases z - y
  {
    YearsAddUp(y);
    if y + 1 < z {
      YearsGrow(y + 1, z);
    }
  }

  lemma {:induction false} MonthsGrow(y: int, m: int, n: int)
    requires 1 <= m < n <= 12
    ensures DaysBeforeMonth(y, m) + DaysInMonth(y, m) <= DaysBeforeMonth(y, n)
    decreases n - m
  {
    if m + 1 < n {
      MonthsGrow(y, m + 1, n);
    }
  }

  lemma NextDayIsOneLater(d: Date)
    requires Valid(d)
    ensures Valid(NextDay(d)) && Ordinal(NextDay(d)) == Ordinal(d) + 1
  {
    if d.day == DaysInMonth(d.year, d.month) && d.month == 12 {
      MonthsAddUp(d.year);
      YearsAddUp(d.year);
    }
  }

  lemma PrevDayIsOneEarlier(d: Date)
    requires Valid(d)
    ensures Valid(PrevDay(d)) && Ordinal(PrevDay(d)) == Ordinal(d) - 1
  {
    if d.day == 1 && d.month == 1 {
      MonthsAddUp(d.year - 1);
      YearsAddUp(d.year - 1);
    }
  }

  function Yyyymmdd(d: Date): int {
    d.year * 10000 + d.month * 100 + d.day
  }

  lemma LaterYearLaterDay(a: Date, b: Date)
    requires Valid(a) && Valid(b) && a.year < b.year
    ensures Ordinal(a) < Ordinal(b)
  {
    YearsGrow(a.year, b.year);
    MonthsAddUp(a.year);
    if a.month < 12 {
      MonthsGrow(a.year, a.month, 12);
    }
    if b.month > 1 {
      MonthsGrow(b.year, 1, b.month);
    }
  }

  lemma SameYearOrder(a: Date, b: Date)
    requires Valid(a) && Valid(b) && a.year == b.year
    ensures Ordinal(a) < Ordinal(b) <==> a.month < b.month || (a.month == b.month && a.day < b.day)
  {
    if a.month < b.month {
      MonthsGrow(a.year, a.month, b.month);
    } else if b.month < a.month {
      MonthsGrow(a.year, b.month, a.month);
    }
  }

  /** Comparing yyyymmdd integers is comparing days. */
  lemma EncodingKeepsOrder(a: Date, b: Date)
    requires Valid(a) && Valid(b)
    ensures Yyyymmdd(a) < Yyyymmdd(b) <==> Ordinal(a) < Ordinal(b)
  {
    if a.year < b.year {
      LaterYearLaterDay(a, b);
    } else if b.year < a.year {
      LaterYearLaterDay(b, a);
    } else {
      SameYearOrder(a, b);
    }
  }

  /** A day number belongs to one date only. */
  lemma OrdinalIsInjective(a: Date, b: Date)
    requires Valid(a) && Valid(b) && Ordinal(a) == Ordinal(b)
    ensures a == b
  {
    EncodingKeepsOrder(a, b);
    EncodingKeepsOrder(b, a);
    DayFits(a);
    DayFits(b);
    EncodingIsInjective(a, b);
  }

  predicate Fits(d: Date) {
    1 <= d.month <= 12 && 1 <= d.day <= 31
  }

  lemma DayFits(d: Date)
    requires Valid(d)
    ensures Fits(d)
  {
  }

  /** Month and day have two digits each. */
  lemma EncodingIsInjective(a: Date, b: Date)
    requires Fits(a) && Fits(b) && Yyyymmdd(a) == Yyyymmdd(b)
    ensures a == b
  {
    assert 10000 * (a.year - b.year) == 100 * (b.month - a.month) + (b.day - a.day);
    assert a.year == b.year;
    assert a.month == b.month;
  }

  /** The date k days earlier. */
  function MinusDays(d: Date, k: nat): (r: Date)
    requires Valid(d)
    ensures Valid(r) && Ordinal(r) == Ordinal(d) - k
    decreases k
  {
    if k == 0 then d
    else
      PrevDayIsOneEarlier(d);
      MinusDays(PrevDay(d), k - 1)
  }
}
