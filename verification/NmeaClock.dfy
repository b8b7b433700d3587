/** Date and time of the NMEA path (src/nmea-parser.c), and its agreement with
    the Garmin path. */
module NmeaClock {
  import opened Options
  import opened Text
  import opened Calendar
  import opened Integers
  import GarminParser

  const BASE_CENTURY := 2000
  const SECONDS_PER_DAY := 86400

  /** Two characters as the code combines them: a character that is no digit
      counts as -1. */
  function TwoDigits(s: string, i: nat): (n: int)
    ensures -11 <= n <= 99
  {
    DigitValue(CharAt(s, i)) * 10 + DigitValue(CharAt(s, i + 1))
  }

  /** The date that g_date_set_dmy is asked to store. */
  function DateOf(s: string): Date {
    Date(TwoDigits(s, 0), TwoDigits(s, 2), BASE_CENTURY + TwoDigits(s, 4))
  }

  /** A date that is not in the calendar leaves the stored one as it was. */
  function StoreDate(date: Option<Date>, d: Date): Option<Date> {
    if Valid(d) then Some(d) else date
  }

  /** Seconds up to the stored date, in the unsigned 32 bits of datestamp. */
  function Datestamp(date: Option<Date>): (d: int)
    ensures 0 <= d < TWO_32
  {
    if date.None? then 0
    else (DayNumber(date.value) - DayNumber(GarminParser.EPOCH)) * SECONDS_PER_DAY % TWO_32
  }

  /** calculate_timestamp: zero until an RMC has been seen. */
  function Timestamp(datestamp: int, clock: string): int {
    if datestamp == 0 then 0
    else AsInt32(datestamp + TwoDigits(clock, 0) * 3600 + TwoDigits(clock, 2) * 60 + TwoDigits(clock, 4))
  }

  // -------------------------------------------------------------- agreement

  function Digits(n: nat): (s: string)
    requires n < 100
    ensures |s| == 2
  {
    ['0' + (n / 10) as char, '0' + (n % 10) as char]
  }

  /** ddmmyy */
  function PrintDate(d: Date): (s: string)
    requires Valid(d) && BASE_CENTURY <= d.year < BASE_CENTURY + 100
    ensures |s| == 6
  {
    Digits(d.day) + Digits(d.month) + Digits(d.year - BASE_CENTURY)
  }

  /** hhmmss */
  function PrintTime(seconds: nat): (s: string)
    requires seconds < SECONDS_PER_DAY
    ensures |s| == 6
  {
    Digits(seconds / 3600) + Digits(seconds / 60 % 60) + Digits(seconds % 60)
  }

  lemma DigitsRead(n: nat, s: string, i: nat)
    requires n < 100 && i + 2 <= |s| && s[i..i + 2] == Digits(n)
    ensures TwoDigits(s, i) == n
  {
    assert s[i] == s[i..i + 2][0] && s[i + 1] == s[i..i + 2][1];
  }

  lemma PrintedDateReads(d: Date, more: string)
    requires Valid(d) && BASE_CENTURY <= d.year < BASE_CENTURY + 100
    ensures DateOf(PrintDate(d) + more) == d
  {
    var s := PrintDate(d) + more;
    assert s[0..2] == Digits(d.day) && s[2..4] == Digits(d.month) && s[4..6] == Digits(d.year - BASE_CENTURY);
    DigitsRead(d.day, s, 0);
    DigitsRead(d.month, s, 2);
    DigitsRead(d.year - BASE_CENTURY, s, 4);
  }

  lemma PrintedTimeReads(seconds: nat, more: string)
    requires seconds < SECONDS_PER_DAY
    ensures var s := PrintTime(seconds) + more;
            TwoDigits(s, 0) * 3600 + TwoDigits(s, 2) * 60 + TwoDigits(s, 4) == seconds
  {
    var s := PrintTime(seconds) + more;
    assert s[0..2] == Digits(seconds / 3600) && s[2..4] == Digits(seconds / 60 % 60) && s[4..6] == Digits(seconds % 60);
    DigitsRead(seconds / 3600, s, 0);
    DigitsRead(seconds / 60 % 60, s, 2);
    DigitsRead(seconds % 60, s, 4);
  }

  /** A moment of UTC, by the calendar. */
  datatype Instant = Instant(date: Date, seconds: nat)

  predicate IsInstant(t: Instant) {
    Valid(t.date) && t.seconds < SECONDS_PER_DAY
  }

  predicate Before(a: Instant, b: Instant) {
    Earlier(a.date, b.date) || (a.date == b.date && a.seconds < b.seconds)
  }

  /** The years that a date of six digits can name. */
  predicate InCentury(t: Instant) {
    IsInstant(t) && BASE_CENTURY <= t.date.year < BASE_CENTURY + 100
  }

  const FIRST := Instant(Date(1, 1, 2000), 0)
  const LAST := Instant(Date(19, 1, 2038), 11647)

  /** From the year 2000 to 2038-01-19 03:14:07. */
  predicate InService(t: Instant) {
    InCentury(t) && !Before(LAST, t)
  }

  function UnixTime(t: Instant): int {
    (DayNumber(t.date) - DayNumber(GarminParser.EPOCH)) * SECONDS_PER_DAY + t.seconds
  }

  /** The week, time of week and leap seconds of a PVT packet name the moment:
      GPS time counts from 31 December 1989 and runs ahead of UTC. */
  predicate Names(wnDays: int, tow: int, leapScnds: int, t: Instant) {
    (DayNumber(GarminParser.GARMIN_DAY_ZERO) + wnDays) * SECONDS_PER_DAY + tow
    == DayNumber(t.date) * SECONDS_PER_DAY + t.seconds + leapScnds
  }

  lemma UnixTimeOrders(a: Instant, b: Instant)
    requires IsInstant(a) && IsInstant(b)
    ensures Before(a, b) <==> UnixTime(a) < UnixTime(b)
  {
    DayNumberOrders(a.date, b.date);
  }

  lemma January(day: int, year: int)
    requires 1 <= year
    ensures DayNumber(Date(day, 1, year)) ==
            365 * (year - 1) + (year - 1) / 4 - (year - 1) / 100 + (year - 1) / 400 + day
  {
    DaysBeforeYearClosed(year);
  }

  lemma ServiceBounds()
    ensures UnixTime(FIRST) == 946684800
    ensures UnixTime(LAST) == 0x7FFF_FFFF
  {
    GarminParser.Epochs();
    January(1, 2000);
    January(19, 2038);
    assert DayNumber(FIRST.date) == 730120 && DayNumber(LAST.date) == 744018;
  }

  lemma CenturyBounds(t: Instant)
    requires InCentury(t)
    ensures 946684800 <= UnixTime(t) < TWO_32
    ensures InService(t) <==> UnixTime(t) < 0x8000_0000
  {
    ServiceBounds();
    UnixTimeOrders(LAST, t);
    UnixTimeOrders(t, FIRST);
    assert !Before(t, FIRST);
    var end := Instant(Date(1, 1, 2100), 0);
    assert Before(t, end);
    UnixTimeOrders(t, end);
    January(1, 2100);
    GarminParser.Epochs();
  }

  /** The timestamp that an RMC of the moment leads to: stored is the date from
      before, and anything may follow the digits of a field. */
  function NmeaTimestamp(t: Instant, stored: Option<Date>, afterDate: string, afterTime: string): int
    requires InCentury(t)
  {
    Timestamp(Datestamp(StoreDate(stored, DateOf(PrintDate(t.date) + afterDate))), PrintTime(t.seconds) + afterTime)
  }

  lemma TimestampOfParts(days: int, seconds: nat, clock: string)
    requires 0 < days && 0 <= seconds < SECONDS_PER_DAY && days * SECONDS_PER_DAY + seconds < TWO_32
    requires TwoDigits(clock, 0) * 3600 + TwoDigits(clock, 2) * 60 + TwoDigits(clock, 4) == seconds
    ensures Timestamp(days * SECONDS_PER_DAY % TWO_32, clock) == AsInt32(days * SECONDS_PER_DAY + seconds)
  {
  }

  lemma NmeaWraps(t: Instant, stored: Option<Date>, afterDate: string, afterTime: string)
    requires InCentury(t)
    ensures NmeaTimestamp(t, stored, afterDate, afterTime) == AsInt32(UnixTime(t))
  {
    CenturyBounds(t);
    PrintedDateReads(t.date, afterDate);
    PrintedTimeReads(t.seconds, afterTime);
    var days := DayNumber(t.date) - DayNumber(GarminParser.EPOCH);
    assert UnixTime(t) == days * SECONDS_PER_DAY + t.seconds;
    TimestampOfParts(days, t.seconds, PrintTime(t.seconds) + afterTime);
  }

  /** An RMC of any moment of the century gives its Unix time, as a signed
      32-bit int, exactly up to 2038-01-19 03:14:07. */
  lemma NmeaReadsInstant(t: Instant, stored: Option<Date>, afterDate: string, afterTime: string)
    requires InCentury(t)
    ensures NmeaTimestamp(t, stored, afterDate, afterTime) == UnixTime(t) <==> InService(t)
    ensures IsInt32(NmeaTimestamp(t, stored, afterDate, afterTime))
  {
    var n := NmeaTimestamp(t, stored, afterDate, afterTime);
    assert n == AsInt32(UnixTime(t)) by {
      NmeaWraps(t, stored, afterDate, afterTime);
    }
    CenturyBounds(t);
    WrapsExactly(UnixTime(t));
  }

  /** The two clocks agree: for a packet that names a moment, the 32 bits of
      its linear form are the timestamp of an RMC of that moment, unless the
      time of week lies past the end of its week. */
  lemma PathsAgree(wnDays: int, tow: int, leapScnds: int, t: Instant,
                   stored: Option<Date>, afterDate: string, afterTime: string)
    requires InCentury(t) && IsInt32(tow) && Names(wnDays, tow, leapScnds, t)
    ensures AsInt32(GarminParser.Utc(tow, wnDays, leapScnds)) == NmeaTimestamp(t, stored, afterDate, afterTime)
            <==> tow <= GarminParser.SECONDS_PER_WEEK
  {
    GarminParser.Epochs();
    NmeaWraps(t, stored, afterDate, afterTime);
    WrapSeparates(GarminParser.Utc(tow, wnDays, leapScnds), UnixTime(t));
  }

  /** The two device paths agree: what the Garmin parser calculates for a packet
      that names a moment is the timestamp of an RMC of that moment, exactly for
      a time of week up to the end of the week, and the Unix time exactly up to
      2038-01-19 03:14:07. */
  method GarminReadsInstant(parser: GarminParser.GarminParser, tow: int, wnDays: int, leapScnds: int,
                            ghost t: Instant, ghost stored: Option<Date>,
                            ghost afterDate: string, ghost afterTime: string)
    returns (timestamp: int)
    requires IsInt32(tow) && 0 <= wnDays && IsInt16(leapScnds)
    requires InCentury(t) && Names(wnDays, tow, leapScnds, t)
    modifies parser`date
    ensures timestamp == NmeaTimestamp(t, stored, afterDate, afterTime) <==> tow <= GarminParser.SECONDS_PER_WEEK
    ensures tow <= GarminParser.SECONDS_PER_WEEK ==> (timestamp == UnixTime(t) <==> InService(t))
  {
    timestamp := parser.CalculateUtc(tow, wnDays, leapScnds);
    PathsAgree(wnDays, tow, leapScnds, t, stored, afterDate, afterTime);
    NmeaReadsInstant(t, stored, afterDate, afterTime);
  }

  /** Timestamps order moments exactly as the calendar and the clock do. */
  lemma TimestampsOrder(a: Instant, b: Instant, stored: Option<Date>, afterDate: string, afterTime: string)
    requires InService(a) && InService(b)
    ensures Before(a, b) <==>
            NmeaTimestamp(a, stored, afterDate, afterTime) < NmeaTimestamp(b, stored, afterDate, afterTime)
  {
    NmeaReadsInstant(a, stored, afterDate, afterTime);
    NmeaReadsInstant(b, stored, afterDate, afterTime);
    UnixTimeOrders(a, b);
  }
}
