/** The Julian day to calendar date conversion of the Garmin path
    (src/gypsy-garmin-parser.c), with each double expression replaced by the
    exact rational floor it stands for. */
module JulianDay {
  import opened Calendar

  // Julian day of 1 March 400, the first day for which w is not negative.
  const FIRST_JD := 1867217
  // Julian day of 31 December of year 0.
  const JD_OF_DAY_ZERO := 1721425

  function ToDate(jd: int): Date
    requires FIRST_JD <= jd
  {
    var w := (4 * jd - 7468865) / 146097;
    var x := w / 4;
    var a := jd + 1 + w - x;
    var b := a + 1524;
    var c := (20 * b - 2442) / 7305;
    var d := 1461 * c / 4;
    var e := 10000 * (b - d) / 306001;
    var f := 306001 * e / 10000;
    var month := if e - 1 > 12 then e - 13 else e - 1;
    var year := if month == 1 || month == 2 then c - 4715 else c - 4716;
    Date(b - d - f, month, year)
  }

  /** Splits the days since 1 March 400 into whole centuries and a rest; only
      every fourth century reaches the day 36524. */
  lemma Centuries(n: int) returns (w: int, r: int)
    requires 0 <= n
    ensures w == (4 * n + 3) / 146097 && 0 <= w
    ensures n == 36524 * w + w / 4 + r
    ensures 0 <= r <= 36524
    ensures r == 36524 ==> w % 4 == 3
  {
    w := (4 * n + 3) / 146097;
    r := n - 36524 * w - w / 4;
    assert 146097 * w <= 4 * n + 3 < 146097 * w + 146097;
    assert w == 4 * (w / 4) + w % 4;
  }

  /** Splits the days of a century into years that begin on 1 March. */
  lemma Years(r: int) returns (k: int, s: int)
    requires 0 <= r <= 36524
    ensures k == (20 * r + 18) / 7305 && 0 <= k <= 99
    ensures r == 365 * k + k / 4 + s
    ensures 0 <= s <= 365
    ensures s == 365 ==> k % 4 == 3
    ensures s == 365 && k == 99 ==> r == 36524
  {
    k := (20 * r + 18) / 7305;
    s := r - 365 * k - k / 4;
    assert 7305 * k <= 20 * r + 18 < 7305 * k + 7305;
    assert k == 4 * (k / 4) + k % 4;
  }

  /** The month arithmetic in closed form: a year that begins in March. */
  function MarchMonth(s: int): int
  {
    10000 * (s + 123) / 306001
  }

  const MARCH_TABLE := [0, 31, 61, 92, 122, 153, 184, 214, 245, 275, 306, 337, 366]

  lemma Months(s: int)
    requires 0 <= s <= 365
    ensures var e := MarchMonth(s);
            4 <= e <= 15
            && MARCH_TABLE[e - 4] <= s < MARCH_TABLE[e - 3]
            && 306001 * e / 10000 == MARCH_TABLE[e - 4] + 122
  {
  }

  /** What the chain w, x, a, b, c, d computes. */
  lemma Chain(jd: int, w: int, r: int, k: int, s: int)
    requires FIRST_JD <= jd
    requires w == (4 * (jd - FIRST_JD) + 3) / 146097 && 0 <= w
    requires jd - FIRST_JD == 36524 * w + w / 4 + r
    requires k == (20 * r + 18) / 7305
    requires r == 365 * k + k / 4 + s
    ensures w == (4 * jd - 7468865) / 146097
    ensures var b := jd + 1 + w - w / 4 + 1524;
            var c := (20 * b - 2442) / 7305;
            var d := 1461 * c / 4;
            c == 100 * w + k + 5116 && b - d == s + 123
  {
    var b := jd + 1 + w - w / 4 + 1524;
    assert b == 36525 * w + r + 1868742;
    assert 20 * b - 2442 == 7305 * (100 * w + 5116) + (20 * r + 18);
    var c := (20 * b - 2442) / 7305;
    assert c == 100 * w + k + 5116;
    assert 1461 * c == 4 * (36525 * w + 1868619 + 365 * k) + k;
    assert 1461 * c / 4 == 36525 * w + 1868619 + 365 * k + k / 4;
  }

  /** The days before 1 March of year y + 1 counted from the calendar. */
  lemma CalendarOfMarchYear(w: int, k: int)
    requires 0 <= w && 0 <= k <= 99
    ensures var y := 400 + 100 * w + k;
            DaysBeforeYear(y + 1) == 146097 + 36524 * w + w / 4 + 365 * k + k / 4
  {
    var y := 400 + 100 * w + k;
    DaysBeforeYearClosed(y + 1);
    assert y / 4 == 100 + 25 * w + k / 4;
    assert y / 100 == 4 + w;
    assert y / 400 == 1 + w / 4;
  }

  /** The rule for leap years by century and year of the century. */
  lemma LeapByCentury(c: int, n: int)
    requires 1 <= n <= 100 && n % 4 == 0 && (n == 100 ==> c % 4 == 3)
    ensures IsLeap(100 * c + n)
  {
    if n == 100 {
      assert 100 * c + n == 400 * ((c + 1) / 4);
    } else {
      assert (100 * c + n) % 100 == n;
    }
  }

  lemma LeapOfMarchYear(w: int, k: int, s: int)
    requires 0 <= w && 0 <= k <= 99 && s == 365
    requires k % 4 == 3 && (k == 99 ==> w % 4 == 3)
    ensures IsLeap(400 + 100 * w + k + 1)
  {
    LeapByCentury(4 + w, k + 1);
  }

  /** The date in terms of the March year and the day within it. */
  function MarchDate(y: int, s: int): Date {
    var e := MarchMonth(s);
    if 4 <= e <= 15 then
      Date(s - MARCH_TABLE[e - 4] + 1, if e <= 13 then e - 1 else e - 13, if e <= 13 then y else y + 1)
    else Date(0, 0, 0)
  }

  lemma MarchDateCounts(y: int, s: int)
    requires 1 <= y && 0 <= s <= 365 && (s == 365 ==> IsLeap(y + 1))
    ensures Valid(MarchDate(y, s))
    ensures DayNumber(MarchDate(y, s)) == DaysBeforeYear(y + 1) - 306 + s + 1
  {
    Months(s);
    var date := MarchDate(y, s);
    DaysBeforeMonthTable(date.month, date.year);
    assert DaysBeforeYear(y + 1) == DaysBeforeYear(y) + YearLength(y);
  }

  /** The day number of a day of a March year from the year 400 on. */
  lemma MarchDayNumber(w: int, k: int, s: int)
    requires 0 <= w && 0 <= k <= 99 && 0 <= s <= 365
    requires s == 365 ==> IsLeap(400 + 100 * w + k + 1)
    ensures Valid(MarchDate(400 + 100 * w + k, s))
    ensures DayNumber(MarchDate(400 + 100 * w + k, s)) == 145792 + 36524 * w + w / 4 + 365 * k + k / 4 + s
  {
    CalendarOfMarchYear(w, k);
    MarchDateCounts(400 + 100 * w + k, s);
  }

  lemma ToDateIsMarchDate(jd: int) returns (w: int, k: int, s: int)
    requires FIRST_JD <= jd
    ensures 0 <= w && 0 <= k <= 99 && 0 <= s <= 365
    ensures s == 365 ==> IsLeap(400 + 100 * w + k + 1)
    ensures jd - FIRST_JD == 36524 * w + w / 4 + 365 * k + k / 4 + s
    ensures ToDate(jd) == MarchDate(400 + 100 * w + k, s)
  {
    var r;
    w, r := Centuries(jd - FIRST_JD);
    k, s := Years(r);
    Chain(jd, w, r, k, s);
    Months(s);
    if s == 365 {
      LeapOfMarchYear(w, k, s);
    }
  }

  /** The date is a valid calendar date and its day number is the Julian day
      that went in, so nothing is skipped and nothing repeats. */
  lemma ToDateCounts(jd: int)
    requires FIRST_JD <= jd
    ensures Valid(ToDate(jd))
    ensures DayNumber(ToDate(jd)) == jd - JD_OF_DAY_ZERO
  {
    var w, k, s := ToDateIsMarchDate(jd);
    MarchDayNumber(w, k, s);
  }

  /** Consecutive Julian days give consecutive calendar days. */
  lemma ToDateSteps(jd: int)
    requires FIRST_JD <= jd
    ensures ToDate(jd + 1) == NextDay(ToDate(jd))
  {
    ToDateCounts(jd);
    ToDateCounts(jd + 1);
    NextDayCounts(ToDate(jd));
    DayNumberOrders(ToDate(jd + 1), NextDay(ToDate(jd)));
  }

  /** Every valid date from 1 March 400 on comes back from its Julian day. */
  lemma ToDateInverts(d: Date)
    requires Valid(d) && FIRST_JD <= DayNumber(d) + JD_OF_DAY_ZERO
    ensures ToDate(DayNumber(d) + JD_OF_DAY_ZERO) == d
  {
    var jd := DayNumber(d) + JD_OF_DAY_ZERO;
    ToDateCounts(jd);
    DayNumberOrders(ToDate(jd), d);
  }
}
