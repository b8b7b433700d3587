/** The proleptic Gregorian calendar by counting days: the reference that both
    timekeeping paths are measured against.  It stands for GLib's GDate, whose
    day 1 is 1 January of year 1. */
module Calendar {

  datatype Date = Date(day: int, month: int, year: int)

  predicate IsLeap(year: int) {
    year % 4 == 0 && (year % 100 != 0 || year % 400 == 0)
  }

  function YearLength(year: int): nat {
    if IsLeap(year) then 366 else 365
  }

  function MonthLength(month: int, year: int): nat {
    if month == 2 then (if IsLeap(year) then 29 else 28)
    else if month == 4 || month == 6 || month == 9 || month == 11 then 30
    else 31
  }

  predicate Valid(d: Date) {
    && 1 <= d.year
    && 1 <= d.month <= 12
    && 1 <= d.day <= MonthLength(d.month, d.year)
  }

  function DaysBeforeYear(year: int): nat
    decreases year
  {
    if year <= 1 then 0 else DaysBeforeYear(year - 1) + YearLength(year - 1)
  }

  function DaysBeforeMonth(month: int, year: int): nat
    decreases month
  {
    if month <= 1 then 0 else DaysBeforeMonth(month - 1, year) + MonthLength(month - 1, year)
  }

  /** The number of days from 31 December of year 0 up to the date. */
  function DayNumber(d: Date): int {
    DaysBeforeYear(d.year) + DaysBeforeMonth(d.month, d.year) + d.day
  }

  predicate Earlier(a: Date, b: Date) {
    || a.year < b.year
    || (a.year == b.year && a.month < b.month)
    || (a.year == b.year && a.month == b.month && a.day < b.day)
  }

  lemma QuotientSteps(y: int)
    requires 1 <= y
    ensures y / 4 == (y - 1) / 4 + (if y % 4 == 0 then 1 else 0)
    ensures y / 100 == (y - 1) / 100 + (if y % 100 == 0 then 1 else 0)
    ensures y / 400 == (y - 1) / 400 + (if y % 400 == 0 then 1 else 0)
  {
  }

  lemma MultipleOf4(k: int)
    ensures 4 * k % 4 == 0
  {
  }

  lemma MultipleOf100(k: int)
    ensures 100 * k % 100 == 0
  {
  }

  lemma LeapRulesNest(y: int)
    ensures y % 400 == 0 ==> y % 100 == 0
    ensures y % 100 == 0 ==> y % 4 == 0
  {
    if y % 100 == 0 {
      MultipleOf4(25 * (y / 100));
    }
    if y % 400 == 0 {
      MultipleOf100(4 * (y / 400));
    }
  }

  lemma {:induction false} DaysBeforeYearClosed(year: int)
    requires 1 <= year
    ensures DaysBeforeYear(year) == 365 * (year - 1) + (year - 1) / 4 - (year - 1) / 100 + (year - 1) / 400
    decreases year
  {
    if year > 1 {
      DaysBeforeYearClosed(year - 1);
      QuotientSteps(year - 1);
      LeapRulesNest(year - 1);
    }
  }

  /** The month table that the recursion adds up to. */
  lemma {:induction false} DaysBeforeMonthTable(month: int, year: int)
    requires 1 <= month <= 13
    ensures DaysBeforeMonth(month, year) ==
            (if month <= 2 then 31 * (month - 1)
             else (if IsLeap(year) then 1 else 0)
                  + [59, 90, 120, 151, 181, 212, 243, 273, 304, 334, 365][month - 3])
    decreases month
  {
    if month > 1 {
      DaysBeforeMonthTable(month - 1, year);
    }
  }

  lemma {:induction false} YearsAccumulate(a: int, b: int)
    requires 1 <= a < b
    ensures DaysBeforeYear(a) + YearLength(a) <= DaysBeforeYear(b)
    decreases b
  {
    if a + 1 < b {
      YearsAccumulate(a, b - 1);
    }
  }

  lemma {:induction false} MonthsAccumulate(a: int, b: int, year: int)
    requires 1 <= a < b
    ensures DaysBeforeMonth(a, year) + MonthLength(a, year) <= DaysBeforeMonth(b, year)
    decreases b
  {
    if a + 1 < b {
      MonthsAccumulate(a, b - 1, year);
    }
  }

  lemma WithinYear(d: Date)
    requires Valid(d)
    ensures 1 <= DaysBeforeMonth(d.month, d.year) + d.day <= YearLength(d.year)
  {
    DaysBeforeMonthTable(d.month, d.year);
    DaysBeforeMonthTable(13, d.year);
    MonthsAccumulate(d.month, 13, d.year);
  }

  /** Day numbers follow the order of dates, in both directions. */
  lemma DayNumberOrders(a: Date, b: Date)
    requires Valid(a) && Valid(b)
    ensures Earlier(a, b) <==> DayNumber(a) < DayNumber(b)
    ensures a == b <==> DayNumber(a) == DayNumber(b)
  {
    if Earlier(a, b) {
      EarlierCounts(a, b);
    } else if Earlier(b, a) {
      EarlierCounts(b, a);
    } else {
      assert a == b;
    }
  }

  lemma EarlierCounts(a: Date, b: Date)
    requires Valid(a) && Valid(b) && Earlier(a, b)
    ensures DayNumber(a) < DayNumber(b)
  {
    if a.year < b.year {
      WithinYear(a);
      WithinYear(b);
      YearsAccumulate(a.year, b.year);
    } else if a.month < b.month {
      MonthsAccumulate(a.month, b.month, a.year);
    }
  }

  /** The next calendar day, written out without day numbers. */
  function NextDay(d: Date): Date {
    if d.day < MonthLength(d.month, d.year) then Date(d.day + 1, d.month, d.year)
    else if d.month < 12 then Date(1, d.month + 1, d.year)
    else Date(1, 1, d.year + 1)
  }

  lemma NextDayCounts(d: Date)
    requires Valid(d)
    ensures Valid(NextDay(d))
    ensures DayNumber(NextDay(d)) == DayNumber(d) + 1
  {
    if d.day == MonthLength(d.month, d.year) && d.month == 12 {
      DaysBeforeMonthTable(12, d.year);
      assert DaysBeforeMonth(1, d.year + 1) == 0;
    }
  }
}
