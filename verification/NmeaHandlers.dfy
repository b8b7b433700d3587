/** The four sentence handlers (src/nmea-parser.c) as functions of what was
    stored before and the fields of the sentence. */
module NmeaHandlers {
  import opened Options
  import opened Text
  import opened Numbers
  import opened ClientState
  import opened NmeaClock
  import opened Assembly
  import Calendar

  const RMC_FIELDS := 11
  const GGA_FIELDS := 14
  const GSA_FIELDS := 17
  const GSV_FIELDS := 19
  const GSV_FIRST_SAT := 3
  const GSV_LAST_SAT := 15
  const GSA_FIRST_SAT := 2
  const GSA_LAST_SAT := 13

  /** The C library's number readers, which are not part of this model: whatever
      atoi makes of a text, and the number at the start of a text that strtod and
      g_strtod convert, or None when they convert nothing. */
  datatype Libc = Libc(atoi: string -> int, strtod: string -> Option<Number>)

  /** What a sentence turns out to be.  Besides the fields, clock and date are
      the sentence text from the time field on and from the date field on. */
  datatype Event =
    | Rmc(fields: seq<string>, clock: string, date: string)
    | Gga(fields: seq<string>, clock: string)
    | Gsa(fields: seq<string>)
    | Gsv(fields: seq<string>)
    | Unknown
    | Rejected

  datatype Context = Context(
    datestamp: int,
    date: Option<Calendar.Date>,
    inUse: seq<int>,
    numberOfMessages: int,
    messageCount: int)

  datatype Parser = Parser(ctxt: Context, client: State)

  const START := Parser(Context(0, None, [], 0, 0), INITIAL)

  function Or(n: Option<Number>, default: Number): Number {
    if n.Some? then n.value else default
  }

  // ------------------------------------------------------------ coordinates

  /** Degrees in the first width digits, then decimal minutes; None unless all
      the degree characters are digits. */
  function Coordinate(value: string, width: nat, direction: string, negative: char, libc: Libc): Option<Number>
    requires width <= 3
  {
    if exists i :: 0 <= i < width && DigitValue(CharAt(value, i)) == -1 then None
    else
      var dd := Degrees(WholeDegrees(value, width), Or(libc.strtod(value[width..]), ZERO));
      Some(if CharAt(direction, 0) == negative then Negate(dd) else dd)
  }

  function WholeDegrees(value: string, width: nat): int {
    if width == 0 then 0 else 10 * WholeDegrees(value, width - 1) + DigitValue(CharAt(value, width - 1))
  }

  function Latitude(value: string, direction: string, libc: Libc): Option<Number> {
    Coordinate(value, 2, direction, 'S', libc)
  }

  function Longitude(value: string, direction: string, libc: Libc): Option<Number> {
    Coordinate(value, 3, direction, 'W', libc)
  }

  /** Degrees and sixtieths, with the sign that the direction letter gives. */
  function Sixtieths(degrees: nat, minutes: Number, direction: string, negative: char): Number {
    var positive := direction == "" || direction[0] != negative;
    if minutes.Finite? then
      var d := degrees as real + minutes.value / 60.0;
      Finite(if positive then d else -d)
    else if minutes.PlusInfinity? == positive then PlusInfinity
    else MinusInfinity
  }

  /** ddd */
  function ThreeDigits(n: nat): string
    requires n < 1000
  {
    ['0' + (n / 100) as char] + Digits(n % 100)
  }

  lemma DigitsAreRead(n: nat, s: string)
    requires n < 100 && |s| >= 2 && s[..2] == Digits(n)
    ensures DigitValue(CharAt(s, 0)) == n / 10 && DigitValue(CharAt(s, 1)) == n % 10
  {
    assert s[0] == s[..2][0] && s[1] == s[..2][1];
  }

  predicate IsDigit(c: char) {
    '0' <= c <= '9'
  }

  /** A latitude is reported exactly if two digits begin it: a blank one is not. */
  lemma LatitudeIsRead(value: string, direction: string, libc: Libc)
    ensures Latitude(value, direction, libc).Some? <==> |value| >= 2 && IsDigit(value[0]) && IsDigit(value[1])
  {
    var d0, d1 := DigitValue(CharAt(value, 0)), DigitValue(CharAt(value, 1));
    assert d0 == -1 || d1 == -1
           <==> !(|value| >= 2 && IsDigit(value[0]) && IsDigit(value[1]));
  }

  /** And a longitude exactly if three digits do. */
  lemma LongitudeIsRead(value: string, direction: string, libc: Libc)
    ensures Longitude(value, direction, libc).Some?
            <==> |value| >= 3 && IsDigit(value[0]) && IsDigit(value[1]) && IsDigit(value[2])
  {
    var d0, d1, d2 := DigitValue(CharAt(value, 0)), DigitValue(CharAt(value, 1)), DigitValue(CharAt(value, 2));
    assert d0 == -1 || d1 == -1 || d2 == -1
           <==> !(|value| >= 3 && IsDigit(value[0]) && IsDigit(value[1]) && IsDigit(value[2]));
  }

  /** ddmm.mmm is read as degrees and sixtieths, negative for S; no minutes are 0. */
  lemma LatitudeReads(degrees: nat, minutes: string, direction: string, libc: Libc)
    requires degrees < 100
    ensures Latitude(Digits(degrees) + minutes, direction, libc)
         == Some(Sixtieths(degrees, Or(libc.strtod(minutes), ZERO), direction, 'S'))
  {
    var value := Digits(degrees) + minutes;
    DigitsAreRead(degrees, value);
    assert value[2..] == minutes;
    assert WholeDegrees(value, 2) == 10 * WholeDegrees(value, 1) + degrees % 10;
    assert WholeDegrees(value, 1) == 10 * WholeDegrees(value, 0) + degrees / 10;
  }

  /** dddmm.mmm is read as degrees and sixtieths, negative for W; no minutes are 0. */
  lemma LongitudeReads(degrees: nat, minutes: string, direction: string, libc: Libc)
    requires degrees < 1000
    ensures Longitude(ThreeDigits(degrees) + minutes, direction, libc)
         == Some(Sixtieths(degrees, Or(libc.strtod(minutes), ZERO), direction, 'W'))
  {
    var value := ThreeDigits(degrees) + minutes;
    DigitsAreRead(degrees % 100, value[1..]);
    assert value[1] == value[1..][0] && value[2] == value[1..][1];
    assert value[3..] == minutes;
    assert WholeDegrees(value, 3) == 10 * WholeDegrees(value, 2) + degrees % 100 % 10;
    assert WholeDegrees(value, 2) == 10 * WholeDegrees(value, 1) + degrees % 100 / 10;
    assert WholeDegrees(value, 1) == 10 * WholeDegrees(value, 0) + degrees / 100;
  }

  // --------------------------------------------------------------- handlers

  function PositionReport(latitude: Option<Number>, longitude: Option<Number>, altitude: Option<Number>): Op {
    PositionOp(Mask(latitude.Some?, longitude.Some?, altitude.Some?),
               Or(latitude, ZERO), Or(longitude, ZERO), Or(altitude, ZERO))
  }

  function RmcContext(ctxt: Context, date: string): Context {
    var stored := StoreDate(ctxt.date, DateOf(date));
    ctxt.(date := stored, datestamp := Datestamp(stored))
  }

  function RmcTime(ctxt: Context, clock: string): Op {
    TimestampOp(Timestamp(ctxt.datestamp, clock))
  }

  function RmcPosition(libc: Libc, fields: seq<string>): Op
    requires RMC_FIELDS <= |fields|
  {
    PositionReport(Latitude(fields[2], fields[3], libc), Longitude(fields[4], fields[5], libc), None)
  }

  /** Status A only tells that there is a fix. */
  function RmcFix(fields: seq<string>): Op
    requires RMC_FIELDS <= |fields|
  {
    if CharAt(fields[1], 0) == 'A' then FixOp(FIX_2D, true) else FixOp(FIX_NONE, false)
  }

  function RmcCourse(libc: Libc, fields: seq<string>): Op
    requires RMC_FIELDS <= |fields|
  {
    var speed, direction := libc.strtod(fields[6]), libc.strtod(fields[7]);
    CourseOp(Mask(speed.Some?, direction.Some?, false), Or(speed, ZERO), Or(direction, ZERO), ZERO)
  }

  function ParseRmc(p: Parser, libc: Libc, fields: seq<string>, clock: string, date: string): Parser {
    if |fields| < RMC_FIELDS then p
    else
      var ctxt := RmcContext(p.ctxt, date);
      var c1 := Apply(p.client, RmcTime(ctxt, clock));
      var c2 := Apply(c1, RmcPosition(libc, fields));
      var c3 := Apply(c2, RmcFix(fields));
      var c4 := Apply(c3, RmcCourse(libc, fields));
      Parser(ctxt, c4)
  }

  /** The fix type faked from the position fields of a GGA. */
  function FakedFix(latitude: Option<Number>, longitude: Option<Number>, altitude: Option<Number>): int {
    if latitude.Some? && longitude.Some? then (if altitude.Some? then FIX_3D else FIX_2D) else FIX_NONE
  }

  function GgaPosition(libc: Libc, fields: seq<string>): Op
    requires GGA_FIELDS <= |fields|
  {
    PositionReport(Latitude(fields[1], fields[2], libc), Longitude(fields[3], fields[4], libc), libc.strtod(fields[8]))
  }

  function GgaFix(libc: Libc, fields: seq<string>): Op
    requires GGA_FIELDS <= |fields|
  {
    FixOp(FakedFix(Latitude(fields[1], fields[2], libc), Longitude(fields[3], fields[4], libc),
                   libc.strtod(fields[8])), false)
  }

  function GgaAccuracy(libc: Libc, fields: seq<string>): Op
    requires GGA_FIELDS <= |fields|
  {
    AccuracyOp(Mask(false, true, false), ZERO, Or(libc.strtod(fields[7]), ZERO), ZERO)
  }

  function ParseGga(p: Parser, libc: Libc, fields: seq<string>, clock: string): Parser {
    if |fields| < GGA_FIELDS then p
    else
      var time := Timestamp(p.ctxt.datestamp, clock);
      var c1 := if time > 0 then Apply(p.client, TimestampOp(time)) else p.client;
      var c2 := Apply(c1, GgaPosition(libc, fields));
      var c3 := Apply(c2, GgaFix(libc, fields));
      var c4 := Apply(c3, GgaAccuracy(libc, fields));
      p.(client := c4)
  }

  /** The ids from field i up to the first blank one. */
  function UsedIds(libc: Libc, fields: seq<string>, i: nat): (ids: seq<int>)
    requires GSA_LAST_SAT < |fields| && i <= GSA_LAST_SAT + 1
    ensures |ids| <= GSA_LAST_SAT + 1 - i
    decreases GSA_LAST_SAT + 1 - i
  {
    if i > GSA_LAST_SAT || fields[i] == "" then [] else [libc.atoi(fields[i])] + UsedIds(libc, fields, i + 1)
  }

  /** The mask that the nested choice selects: one bit, that of the first field
      of the three that is not blank. */
  function AccuracyMask(fields: seq<string>): Mask
    requires GSA_FIELDS <= |fields|
  {
    if fields[14] != "" then Mask(true, false, false)
    else if fields[15] != "" then Mask(false, true, false)
    else if fields[16] != "" then Mask(false, false, true)
    else NONE
  }

  function GsaFix(libc: Libc, fields: seq<string>): Op
    requires GSA_FIELDS <= |fields|
  {
    FixOp(libc.atoi(fields[1]), false)
  }

  function GsaAccuracy(libc: Libc, fields: seq<string>): Op
    requires GSA_FIELDS <= |fields|
  {
    AccuracyOp(AccuracyMask(fields), Or(libc.strtod(fields[14]), ZERO),
               Or(libc.strtod(fields[15]), ZERO), Or(libc.strtod(fields[16]), ZERO))
  }

  function ParseGsa(p: Parser, libc: Libc, fields: seq<string>): Parser {
    if |fields| < GSA_FIELDS then p
    else
      var c1 := Apply(p.client, GsaFix(libc, fields));
      var c2 := Apply(c1, GsaAccuracy(libc, fields));
      Parser(p.ctxt.(inUse := UsedIds(libc, fields, GSA_FIRST_SAT)), c2)
  }

  function AtoiOrZero(libc: Libc, s: string): int {
    if s == "" then 0 else libc.atoi(s)
  }

  function RowAt(libc: Libc, fields: seq<string>, i: nat): Row
    requires i + 3 < |fields|
  {
    Row(libc.atoi(fields[i]), AtoiOrZero(libc, fields[i + 1]),
        AtoiOrZero(libc, fields[i + 2]), AtoiOrZero(libc, fields[i + 3]))
  }

  /** The satellites that a message lists from the k-th on, up to a blank id or
      the end of the fields. */
  function RowsFrom(libc: Libc, fields: seq<string>, k: nat): (rows: seq<Row>)
    ensures k <= 4 ==> |rows| <= 4 - k
    decreases 4 - k
  {
    var i := GSV_FIRST_SAT + 4 * k;
    if i > GSV_LAST_SAT || i + 3 >= |fields| || fields[i] == "" then []
    else [RowAt(libc, fields, i)] + RowsFrom(libc, fields, k + 1)
  }

  /** With the right number of fields a row that begins is there completely. */
  lemma RowIsWhole(fields: seq<string>, k: nat, m: nat)
    requires |fields| == GSV_FIRST_SAT + 4 * m
    ensures GSV_FIRST_SAT + 4 * k < |fields| <==> GSV_FIRST_SAT + 4 * k + 3 < |fields|
  {
  }

  /** A GSV that gets past the field count. */
  predicate WellFormedGsv(fields: seq<string>) {
    |fields| % 4 == 3
  }

  function MessageOf(libc: Libc, fields: seq<string>): (m: Item)
    requires WellFormedGsv(fields)
    ensures m.Message? && |m.rows| <= 4
  {
    Message(libc.atoi(fields[1]), libc.atoi(fields[0]), RowsFrom(libc, fields, 0))
  }

  function StageOf(p: Parser): Stage {
    Stage(p.ctxt.inUse, p.ctxt.numberOfMessages, p.ctxt.messageCount, p.client.staged, p.client.published)
  }

  function ParseGsv(p: Parser, libc: Libc, fields: seq<string>): Parser {
    if !WellFormedGsv(fields) then p
    else
      var s, m := StageOf(p), MessageOf(libc, fields);
      if !Accepts(s, m) then
        Parser(p.ctxt.(messageCount := 0, numberOfMessages := 0), Apply(p.client, ClearOp))
      else
        var client := p.client.(staged := StagedWith(s, m));
        var total := TotalWith(s, m);
        if m.number == total
        then Parser(p.ctxt.(messageCount := 0, numberOfMessages := total), Apply(client, CommitOp))
        else Parser(p.ctxt.(messageCount := m.number, numberOfMessages := total), client)
  }

  function Step(p: Parser, libc: Libc, event: Event): Parser {
    match event
    case Rmc(fields, clock, date) => ParseRmc(p, libc, fields, clock, date)
    case Gga(fields, clock) => ParseGga(p, libc, fields, clock)
    case Gsa(fields) => ParseGsa(p, libc, fields)
    case Gsv(fields) => ParseGsv(p, libc, fields)
    case Unknown => p
    case Rejected => p
  }

  /** What nmea_parse_sentence returns: whether a known tag had enough fields, and
      for a GSV whether the message was expected. */
  predicate Accepted(p: Parser, libc: Libc, event: Event) {
    match event
    case Rmc(fields, _, _) => RMC_FIELDS <= |fields|
    case Gga(fields, _) => GGA_FIELDS <= |fields|
    case Gsa(fields) => GSA_FIELDS <= |fields|
    case Gsv(fields) => WellFormedGsv(fields) && Accepts(StageOf(p), MessageOf(libc, fields))
    case Unknown => true
    case Rejected => false
  }

  /** The parser after a run of sentences. */
  function Steps(p: Parser, libc: Libc, events: seq<Event>): Parser
    decreases |events|
  {
    if events == [] then p
    else Step(Steps(p, libc, events[..|events| - 1]), libc, events[|events| - 1])
  }

  function After(libc: Libc, events: seq<Event>): Parser {
    Steps(START, libc, events)
  }
}
