/** What each field of a printed sentence (src/nmea-parser.c) comes to be: a reading
    of the client, the time, the fix type, a used id or a row of satellites. */
module NmeaReports {
  import opened Options
  import opened Text
  import opened Numbers
  import opened Checksum
  import opened Fields
  import opened ClientState
  import opened Assembly
  import opened NmeaClock
  import opened NmeaHandlers
  import opened NmeaRuns
  import opened Sentence
  import Integers
  import R = ClientReports
  import ClientRuns

  /** A printed sentence, and the parser after it. */
  function Said(tag: string, fields: seq<string>): Event
    requires Sum(Body(tag, fields)) < 256
  {
    Interpret(Print(tag, fields))
  }

  /** Of the fields the first n are read, and too few stay too few. */
  predicate Reads(read: seq<string>, fields: seq<string>, n: nat) {
    && (|fields| < n ==> |read| < n)
    && (n <= |fields| ==> n <= |read| && forall i :: 0 <= i < n ==> read[i] == fields[i])
  }

  lemma FieldsAreRead(fields: seq<string>, n: nat)
    requires PlainFields(fields) && 1 < n
    ensures Reads(Split(Join(fields), n), fields, n)
  {
    PlainIsCommaFree(fields);
    var read := Split(Join(fields), n);
    if n <= |fields| {
      SplitAtOfJoin(fields, n, n - 1);
      forall i | 0 <= i < n
        ensures read[i] == fields[i]
      {
        SplitAtOfJoin(fields, n, i);
      }
    } else if fields != [] && fields != [""] {
      SplitOfJoin(fields, n);
    }
  }

  lemma ApplyLearns(s: State, op: Op, what: R.Reading)
    requires R.IsDirect(op, what)
    ensures R.Learns(s.readings, Apply(s, op).readings, what, R.Told(op, what))
  {
    R.SetLearns(s.readings, op, what);
  }

  // -------------------------------------------------------------------- RMC

  /** What an RMC says of each reading: nothing where a field is not a number. */
  function RmcTells(libc: Libc, fields: seq<string>, what: R.Reading): Option<Number>
    requires 11 <= |fields|
  {
    match what
    case Latitude => Latitude(fields[2], fields[3], libc)
    case Longitude => Longitude(fields[4], fields[5], libc)
    case Speed => libc.strtod(fields[6])
    case Direction => libc.strtod(fields[7])
    case _ => None
  }

  lemma RmcLearns(p: Parser, libc: Libc, fields: seq<string>, clock: string, date: string, what: R.Reading)
    requires 11 <= |fields|
    ensures R.Learns(p.client.readings, ParseRmc(p, libc, fields, clock, date).client.readings, what,
                     RmcTells(libc, fields, what))
  {
    var time := RmcTime(RmcContext(p.ctxt, date), clock);
    var c1 := Apply(p.client, time);
    var c2 := Apply(c1, RmcPosition(libc, fields));
    var c3 := Apply(c2, RmcFix(fields));
    ApplyLearns(p.client, time, what);
    ApplyLearns(c1, RmcPosition(libc, fields), what);
    ApplyLearns(c2, RmcFix(fields), what);
    ApplyLearns(c3, RmcCourse(libc, fields), what);
  }

  /** Status A keeps a 3D fix and otherwise is one of 2D; any other is none. */
  function FixOfStatus(status: string, fix: int): int {
    if status == "" || status[0] != 'A' then 1 else if fix == 3 then 3 else 2
  }

  /** The client after an RMC: latitude, longitude, speed and direction are those of
      its fields, or as before where a field says nothing; every other reading is as
      before, and so are the satellites; the fix type is that of the status. */
  predicate RmcIsReported(p: Parser, p': Parser, libc: Libc, fields: seq<string>)
    requires 11 <= |fields|
  {
    && (forall what :: R.Learns(p.client.readings, p'.client.readings, what, RmcTells(libc, fields, what)))
    && p'.client.readings.fixType == FixOfStatus(fields[1], p.client.readings.fixType)
    && StageOf(p') == StageOf(p)
  }

  lemma RmcReports(p: Parser, libc: Libc, fields: seq<string>, clock: string, date: string)
    requires 11 <= |fields|
    ensures RmcIsReported(p, ParseRmc(p, libc, fields, clock, date), libc, fields)
  {
    forall what
      ensures R.Learns(p.client.readings, ParseRmc(p, libc, fields, clock, date).client.readings, what,
                       RmcTells(libc, fields, what))
    {
      RmcLearns(p, libc, fields, clock, date, what);
    }
    RmcMovesFix(p, libc, fields, clock, date);
    RmcKeepsStage(p, libc, fields, clock, date);
  }

  lemma RmcOfSame(p: Parser, p': Parser, libc: Libc, read: seq<string>, fields: seq<string>)
    requires 11 <= |fields| && Reads(read, fields, 11) && RmcIsReported(p, p', libc, read)
    ensures RmcIsReported(p, p', libc, fields)
  {
    assert forall what :: RmcTells(libc, read, what) == RmcTells(libc, fields, what);
  }

  lemma RmcSteps(p: Parser, libc: Libc, event: Event, fields: seq<string>)
    requires event.Rmc? && Reads(event.fields, fields, 11)
    ensures Accepted(p, libc, event) <==> 11 <= |fields|
    ensures |fields| < 11 ==> Step(p, libc, event) == p
    ensures 11 <= |fields| ==> RmcIsReported(p, Step(p, libc, event), libc, fields)
  {
    if 11 <= |fields| {
      RmcReports(p, libc, event.fields, event.clock, event.date);
      RmcOfSame(p, Step(p, libc, event), libc, event.fields, fields);
    }
  }

  /** A printed RMC of 11 fields or more is reported field by field; with less it is
      refused and changes nothing. */
  lemma PrintedRmcReports(p: Parser, libc: Libc, fields: seq<string>)
    requires PlainFields(fields)
    ensures Sum(Body("GPRMC", fields)) < 128
    ensures Accepted(p, libc, Said("GPRMC", fields)) <==> 11 <= |fields|
    ensures |fields| < 11 ==> Step(p, libc, Said("GPRMC", fields)) == p
    ensures 11 <= |fields| ==> RmcIsReported(p, Step(p, libc, Said("GPRMC", fields)), libc, fields)
  {
    PrintedIsDispatched("GPRMC", fields);
    FieldsAreRead(fields, 11);
    RmcSteps(p, libc, Said("GPRMC", fields), fields);
  }

  // -------------------------------------------------------------------- GGA

  /** What a GGA says of each reading: the horizontal accuracy always, 0 if its field
      is not a number. */
  function GgaTells(libc: Libc, fields: seq<string>, what: R.Reading): Option<Number>
    requires 14 <= |fields|
  {
    match what
    case Latitude => Latitude(fields[1], fields[2], libc)
    case Longitude => Longitude(fields[3], fields[4], libc)
    case Altitude => libc.strtod(fields[8])
    case HorizontalAccuracy => Some(Or(libc.strtod(fields[7]), ZERO))
    case _ => None
  }

  lemma GgaLearns(p: Parser, libc: Libc, fields: seq<string>, clock: string, what: R.Reading)
    requires 14 <= |fields| && (what == R.Climb ==> libc.strtod(fields[8]).None?)
    ensures R.Learns(p.client.readings, ParseGga(p, libc, fields, clock).client.readings, what,
                     GgaTells(libc, fields, what))
  {
    var time := Timestamp(p.ctxt.datestamp, clock);
    var c1 := if time > 0 then Apply(p.client, TimestampOp(time)) else p.client;
    var c2 := Apply(c1, GgaPosition(libc, fields));
    var c3 := Apply(c2, GgaFix(libc, fields));
    ApplyLearns(p.client, TimestampOp(time), what);
    ApplyLearns(c1, GgaPosition(libc, fields), what);
    ApplyLearns(c2, GgaFix(libc, fields), what);
    ApplyLearns(c3, GgaAccuracy(libc, fields), what);
  }

  /** With altitude a position is 3D, without it 2D, and else there is none. */
  function FixOfPosition(libc: Libc, fields: seq<string>): int
    requires 14 <= |fields|
  {
    if GgaTells(libc, fields, R.Latitude).None? || GgaTells(libc, fields, R.Longitude).None? then 1
    else if GgaTells(libc, fields, R.Altitude).None? then 2
    else 3
  }

  /** The climb between two altitudes at two times. */
  predicate Climbs(r: Readings, r': Readings, altitude: Option<Number>) {
    var from := R.Known(r, R.Altitude);
    from.Some? && from.value.Finite? && altitude.Some? && altitude.value.Finite? && altitude != from
    && 0 < r.lastAltTimestamp != r'.timestamp ==>
      R.Known(r', R.Climb) == Some(Finite((altitude.value.value - from.value.value)
                                          / (r'.timestamp - r.lastAltTimestamp) as real))
  }

  /** The client after a GGA: latitude, longitude and altitude are those of its fields,
      or as before where a field says nothing; so is the horizontal accuracy, and every
      other reading is as before, but for the climb, which is that of the altitude since
      its last change; the fix type is that of the position. */
  predicate GgaIsReported(p: Parser, p': Parser, libc: Libc, fields: seq<string>)
    requires 14 <= |fields|
  {
    && (forall what :: what != R.Climb || libc.strtod(fields[8]).None? ==>
                         R.Learns(p.client.readings, p'.client.readings, what, GgaTells(libc, fields, what)))
    && Climbs(p.client.readings, p'.client.readings, libc.strtod(fields[8]))
    && p'.client.readings.fixType == FixOfPosition(libc, fields)
    && StageOf(p') == StageOf(p)
  }

  lemma LaterReportsKeepTimeAndClimb(s: State, op: Op)
    requires op.FixOp? || op.AccuracyOp?
    ensures var r, r' := s.readings, Apply(s, op).readings; r'.timestamp == r.timestamp && r'.course == r.course
  {
  }

  lemma PositionClimbs(r: Readings, op: Op)
    requires op.PositionOp?
    ensures Climbs(r, Set(r, op), if op.fields.third then Some(op.third) else None)
  {
  }

  lemma GgaClimbs(p: Parser, libc: Libc, fields: seq<string>, clock: string)
    requires 14 <= |fields|
    ensures Climbs(p.client.readings, ParseGga(p, libc, fields, clock).client.readings, libc.strtod(fields[8]))
  {
    var time := Timestamp(p.ctxt.datestamp, clock);
    var c1 := if time > 0 then Apply(p.client, TimestampOp(time)) else p.client;
    var c2 := Apply(c1, GgaPosition(libc, fields));
    var c3 := Apply(c2, GgaFix(libc, fields));
    PositionClimbs(c1.readings, GgaPosition(libc, fields));
    LaterReportsKeepTimeAndClimb(c2, GgaFix(libc, fields));
    LaterReportsKeepTimeAndClimb(c3, GgaAccuracy(libc, fields));
  }

  lemma GgaReports(p: Parser, libc: Libc, fields: seq<string>, clock: string)
    requires 14 <= |fields|
    ensures GgaIsReported(p, ParseGga(p, libc, fields, clock), libc, fields)
  {
    forall what: R.Reading | what != R.Climb || libc.strtod(fields[8]).None?
      ensures R.Learns(p.client.readings, ParseGga(p, libc, fields, clock).client.readings, what,
                       GgaTells(libc, fields, what))
    {
      GgaLearns(p, libc, fields, clock, what);
    }
    GgaClimbs(p, libc, fields, clock);
    GgaMovesFix(p, libc, fields, clock);
    GgaKeepsStage(p, libc, fields, clock);
  }

  lemma GgaOfSame(p: Parser, p': Parser, libc: Libc, read: seq<string>, fields: seq<string>)
    requires 14 <= |fields| && Reads(read, fields, 14) && GgaIsReported(p, p', libc, read)
    ensures GgaIsReported(p, p', libc, fields)
  {
    assert forall what :: GgaTells(libc, read, what) == GgaTells(libc, fields, what);
  }

  lemma GgaSteps(p: Parser, libc: Libc, event: Event, fields: seq<string>)
    requires event.Gga? && Reads(event.fields, fields, 14)
    ensures Accepted(p, libc, event) <==> 14 <= |fields|
    ensures |fields| < 14 ==> Step(p, libc, event) == p
    ensures 14 <= |fields| ==> GgaIsReported(p, Step(p, libc, event), libc, fields)
  {
    if 14 <= |fields| {
      GgaReports(p, libc, event.fields, event.clock);
      GgaOfSame(p, Step(p, libc, event), libc, event.fields, fields);
    }
  }

  /** A printed GGA of 14 fields or more is reported field by field; with less it is
      refused and changes nothing. */
  lemma PrintedGgaReports(p: Parser, libc: Libc, fields: seq<string>)
    requires PlainFields(fields)
    ensures Sum(Body("GPGGA", fields)) < 128
    ensures Accepted(p, libc, Said("GPGGA", fields)) <==> 14 <= |fields|
    ensures |fields| < 14 ==> Step(p, libc, Said("GPGGA", fields)) == p
    ensures 14 <= |fields| ==> GgaIsReported(p, Step(p, libc, Said("GPGGA", fields)), libc, fields)
  {
    PrintedIsDispatched("GPGGA", fields);
    FieldsAreRead(fields, 14);
    GgaSteps(p, libc, Said("GPGGA", fields), fields);
  }

  // -------------------------------------------------------------------- GSA

  /** What a GSA says of each reading: the first of the three accuracies that is not
      blank, and of the others nothing. */
  function GsaTells(libc: Libc, fields: seq<string>, what: R.Reading): Option<Number>
    requires 17 <= |fields|
  {
    match what
    case PositionAccuracy =>
      if fields[14] != "" then Some(Or(libc.strtod(fields[14]), ZERO)) else None
    case HorizontalAccuracy =>
      if fields[14] == "" && fields[15] != "" then Some(Or(libc.strtod(fields[15]), ZERO)) else None
    case VerticalAccuracy =>
      if fields[14] == "" && fields[15] == "" && fields[16] != "" then Some(Or(libc.strtod(fields[16]), ZERO)) else None
    case _ => None
  }

  lemma GsaLearns(p: Parser, libc: Libc, fields: seq<string>, what: R.Reading)
    requires 17 <= |fields|
    ensures R.Learns(p.client.readings, ParseGsa(p, libc, fields).client.readings, what, GsaTells(libc, fields, what))
  {
    ApplyLearns(p.client, GsaFix(libc, fields), what);
    ApplyLearns(Apply(p.client, GsaFix(libc, fields)), GsaAccuracy(libc, fields), what);
  }

  /** The ids are those of the fields from the third on, up to the first blank one of
      the twelve. */
  predicate Lists(libc: Libc, fields: seq<string>, ids: seq<int>)
    requires 17 <= |fields|
  {
    && |ids| <= 12
    && (forall i :: 2 <= i < 2 + |ids| ==> fields[i] != "" && ids[i - 2] == libc.atoi(fields[i]))
    && (|ids| < 12 ==> fields[2 + |ids|] == "")
  }

  lemma {:induction false} UsedIdsFrom(libc: Libc, fields: seq<string>, i: nat)
    requires 17 <= |fields| && 2 <= i <= 14
    ensures var ids := UsedIds(libc, fields, i);
            && |ids| <= 14 - i
            && (forall k :: i <= k < i + |ids| ==> fields[k] != "" && ids[k - i] == libc.atoi(fields[k]))
            && (|ids| < 14 - i ==> fields[i + |ids|] == "")
    decreases 14 - i
  {
    if i < 14 && fields[i] != "" {
      UsedIdsFrom(libc, fields, i + 1);
      var rest := UsedIds(libc, fields, i + 1);
      assert UsedIds(libc, fields, i) == [libc.atoi(fields[i])] + rest;
    }
  }

  /** The client after a GSA: the fix type is the number of the second field, one
      accuracy is known, the ids are listed; time, position and course are as before. */
  predicate GsaIsReported(p: Parser, p': Parser, libc: Libc, fields: seq<string>)
    requires 17 <= |fields|
  {
    && (forall what :: R.Learns(p.client.readings, p'.client.readings, what, GsaTells(libc, fields, what)))
    && p'.client.readings.fixType == libc.atoi(fields[1])
    && p'.client.readings.timestamp == p.client.readings.timestamp
    && Lists(libc, fields, p'.ctxt.inUse)
    && StageOf(p') == StageOf(p).(inUse := p'.ctxt.inUse)
  }

  lemma GsaKeepsTime(p: Parser, libc: Libc, fields: seq<string>)
    requires 17 <= |fields|
    ensures ParseGsa(p, libc, fields).client.readings.timestamp == p.client.readings.timestamp
  {
    LaterReportsKeepTimeAndClimb(p.client, GsaFix(libc, fields));
    LaterReportsKeepTimeAndClimb(Apply(p.client, GsaFix(libc, fields)), GsaAccuracy(libc, fields));
  }

  lemma GsaStages(p: Parser, libc: Libc, fields: seq<string>)
    requires 17 <= |fields|
    ensures var p' := ParseGsa(p, libc, fields);
            Lists(libc, fields, p'.ctxt.inUse) && StageOf(p') == StageOf(p).(inUse := p'.ctxt.inUse)
  {
    UsedIdsFrom(libc, fields, 2);
  }

  lemma GsaReports(p: Parser, libc: Libc, fields: seq<string>)
    requires 17 <= |fields|
    ensures GsaIsReported(p, ParseGsa(p, libc, fields), libc, fields)
  {
    forall what
      ensures R.Learns(p.client.readings, ParseGsa(p, libc, fields).client.readings, what, GsaTells(libc, fields, what))
    {
      GsaLearns(p, libc, fields, what);
    }
    assert ParseGsa(p, libc, fields).client.readings.fixType == libc.atoi(fields[1]) by {
      GsaMovesFix(p, libc, fields);
    }
    GsaKeepsTime(p, libc, fields);
    GsaStages(p, libc, fields);
  }

  lemma GsaOfSame(p: Parser, p': Parser, libc: Libc, read: seq<string>, fields: seq<string>)
    requires 17 <= |fields| && Reads(read, fields, 17) && GsaIsReported(p, p', libc, read)
    ensures GsaIsReported(p, p', libc, fields)
  {
    assert forall what :: GsaTells(libc, read, what) == GsaTells(libc, fields, what);
  }

  lemma GsaSteps(p: Parser, libc: Libc, event: Event, fields: seq<string>)
    requires event.Gsa? && Reads(event.fields, fields, 17)
    ensures Accepted(p, libc, event) <==> 17 <= |fields|
    ensures |fields| < 17 ==> Step(p, libc, event) == p
    ensures 17 <= |fields| ==> GsaIsReported(p, Step(p, libc, event), libc, fields)
  {
    if 17 <= |fields| {
      GsaReports(p, libc, event.fields);
      GsaOfSame(p, Step(p, libc, event), libc, event.fields, fields);
    }
  }

  /** A printed GSA of 17 fields or more is reported field by field; with less it is
      refused and changes nothing. */
  lemma PrintedGsaReports(p: Parser, libc: Libc, fields: seq<string>)
    requires PlainFields(fields)
    ensures Sum(Body("GPGSA", fields)) < 128
    ensures Accepted(p, libc, Said("GPGSA", fields)) <==> 17 <= |fields|
    ensures |fields| < 17 ==> Step(p, libc, Said("GPGSA", fields)) == p
    ensures 17 <= |fields| ==> GsaIsReported(p, Step(p, libc, Said("GPGSA", fields)), libc, fields)
  {
    PrintedIsDispatched("GPGSA", fields);
    FieldsAreRead(fields, 17);
    GsaSteps(p, libc, Said("GPGSA", fields), fields);
  }

  // ------------------------------------------------------------- time of GGA

  /** A printed GGA is read with its time field where the clock is expected. */
  lemma PrintedGga(fields: seq<string>) returns (afterTime: string)
    requires PlainFields(fields) && 14 <= |fields|
    ensures Sum(Body("GPGGA", fields)) < 128
    ensures Said("GPGGA", fields) == Gga(Split(Join(fields), 14), fields[0] + afterTime)
  {
    PrintedIsDispatched("GPGGA", fields);
    PlainIsCommaFree(fields);
    JoinNotEmpty(fields);
    var more := [NUL] + PrintSum(Sum(Body("GPGGA", fields)));
    var pre := "$" + "GPGGA" + [DELIMITER];
    afterTime := FromField(pre, 7, fields, more, 14, 0);
    FirstOffset(Join(fields), 7, 14);
    assert Memory("GPGGA", fields) == pre + Join(fields) + more;
  }

  lemma GgaTime(p: Parser, libc: Libc, fields: seq<string>, clock: string)
    requires 14 <= |fields|
    ensures var time := Timestamp(p.ctxt.datestamp, clock);
            ParseGga(p, libc, fields, clock).client.readings.timestamp
            == if time > 0 then time else p.client.readings.timestamp
  {
    var time := Timestamp(p.ctxt.datestamp, clock);
    var c1 := if time > 0 then Apply(p.client, TimestampOp(time)) else p.client;
    var c2 := Apply(c1, GgaPosition(libc, fields));
    var c3 := Apply(c2, GgaFix(libc, fields));
    LaterReportsKeepTime(c1, GgaPosition(libc, fields));
    LaterReportsKeepTime(c2, GgaFix(libc, fields));
    LaterReportsKeepTime(c3, GgaAccuracy(libc, fields));
  }

  lemma ClockOfDay(t: Instant, clock: string)
    requires InService(t) && PrintTime(t.seconds) <= clock
    ensures Timestamp(Datestamp(Some(t.date)), clock) == UnixTime(t) > 0
  {
    var after := clock[6..];
    assert clock == PrintTime(t.seconds) + after;
    NmeaReadsInstant(t, None, "", after);
    PrintedDateReads(t.date, "");
    CenturyBounds(t);
  }

  /** A printed GGA of a moment sets its Unix time when the day stored by an RMC is that
      of the moment; before there is a day it leaves the time as it was. */
  lemma PrintedGgaSetsTime(p: Parser, libc: Libc, fields: seq<string>, t: Instant)
    requires PlainFields(fields) && 14 <= |fields|
    requires InService(t) && PrintTime(t.seconds) <= fields[0]
    ensures Sum(Body("GPGGA", fields)) < 128
    ensures var time := Step(p, libc, Said("GPGGA", fields)).client.readings.timestamp;
            && (HasDay(p.ctxt, t.date) ==> time == UnixTime(t))
            && (p.ctxt.datestamp == 0 ==> time == p.client.readings.timestamp)
  {
    var after := PrintedGga(fields);
    FieldsAreRead(fields, 14);
    GgaTime(p, libc, Split(Join(fields), 14), fields[0] + after);
    assert PrintTime(t.seconds) <= fields[0] + after;
    ClockOfDay(t, fields[0] + after);
  }

  // -------------------------------------------------------------------- GSV

  /** A blank number is 0. */
  function NumberIn(libc: Libc, field: string): int {
    if field == "" then 0 else libc.atoi(field)
  }

  /** Four fields from i on are the numbers of a satellite whose id is not blank. */
  predicate IsRowAt(libc: Libc, fields: seq<string>, i: nat, id: int, elevation: int, azimuth: int, snr: int) {
    && i + 3 < |fields| && fields[i] != "" && id == libc.atoi(fields[i])
    && elevation == NumberIn(libc, fields[i + 1])
    && azimuth == NumberIn(libc, fields[i + 2])
    && snr == NumberIn(libc, fields[i + 3])
  }

  predicate RowReads(libc: Libc, fields: seq<string>, row: Row, i: nat) {
    IsRowAt(libc, fields, i, row.id, row.elevation, row.azimuth, row.snr)
  }

  /** The rows are those of the fields from the fourth on, four fields each, up to a
      blank id or the end. */
  predicate RowsRead(libc: Libc, fields: seq<string>, k: nat, rows: seq<Row>) {
    && k + |rows| <= 4
    && (forall m :: k <= m < k + |rows| ==> RowReads(libc, fields, rows[m - k], 3 + 4 * m))
    && (k + |rows| < 4 && 3 + 4 * (k + |rows|) < |fields| ==> fields[3 + 4 * (k + |rows|)] == "")
  }

  lemma RowsReadCons(libc: Libc, fields: seq<string>, k: nat, row: Row, rows: seq<Row>)
    requires RowReads(libc, fields, row, 3 + 4 * k) && RowsRead(libc, fields, k + 1, rows)
    ensures RowsRead(libc, fields, k, [row] + rows)
  {
    var all := [row] + rows;
    forall m | k <= m < k + |all|
      ensures RowReads(libc, fields, all[m - k], 3 + 4 * m)
    {
      if m > k {
        assert all[m - k] == rows[m - (k + 1)];
      }
    }
  }

  lemma RowsFromEnds(libc: Libc, fields: seq<string>, k: nat)
    requires k <= 4 && (k == 4 || 3 + 4 * k >= |fields| || fields[3 + 4 * k] == "")
    ensures RowsFrom(libc, fields, k) == [] && RowsRead(libc, fields, k, [])
  {
  }

  lemma RowFits(count: nat, k: nat)
    requires count % 4 == 3 && 3 + 4 * k < count
    ensures 3 + 4 * k + 3 < count
  {
  }

  lemma RowsFromGoesOn(libc: Libc, fields: seq<string>, k: nat)
    requires k < 4 && 3 + 4 * k + 3 < |fields| && fields[3 + 4 * k] != ""
    ensures RowsFrom(libc, fields, k) == [RowAt(libc, fields, 3 + 4 * k)] + RowsFrom(libc, fields, k + 1)
    ensures RowReads(libc, fields, RowAt(libc, fields, 3 + 4 * k), 3 + 4 * k)
  {
  }

  lemma {:induction false} RowsFromRead(libc: Libc, fields: seq<string>, k: nat)
    requires |fields| % 4 == 3 && k <= 4
    ensures RowsRead(libc, fields, k, RowsFrom(libc, fields, k))
    decreases 4 - k
  {
    var i := 3 + 4 * k;
    if k < 4 && i < |fields| && fields[i] != "" {
      RowFits(|fields|, k);
      RowsFromRead(libc, fields, k + 1);
      RowsFromGoesOn(libc, fields, k);
      RowsReadCons(libc, fields, k, RowAt(libc, fields, i), RowsFrom(libc, fields, k + 1));
    } else {
      RowsFromEnds(libc, fields, k);
    }
  }

  /** A GSV says, in this order, how many messages there are, which of them it is, and
      from the fourth field on its satellites. */
  lemma MessageReads(libc: Libc, fields: seq<string>)
    requires |fields| % 4 == 3
    ensures var m := MessageOf(libc, fields);
            && m.declared == libc.atoi(fields[0]) && m.number == libc.atoi(fields[1])
            && RowsRead(libc, fields, 0, m.rows)
  {
    RowsFromRead(libc, fields, 0);
  }

  /** The parser after a GSV with the right number of fields: it has received the
      message that the fields say. */
  predicate GsvIsReceived(p: Parser, p': Parser, libc: Libc, fields: seq<string>, m: Item) {
    && 2 < |fields| && m.Message? && m.declared == libc.atoi(fields[0]) && m.number == libc.atoi(fields[1])
    && RowsRead(libc, fields, 0, m.rows)
    && StageOf(p') == Receive(StageOf(p), m)
  }

  lemma GsvSteps(p: Parser, libc: Libc, event: Event, fields: seq<string>)
    requires event == Gsv(fields)
    ensures |fields| % 4 != 3 ==> Step(p, libc, event) == p && !Accepted(p, libc, event)
    ensures |fields| % 4 == 3 ==>
              var m := ItemOf(libc, event);
              GsvIsReceived(p, Step(p, libc, event), libc, fields, m)
              && (Accepted(p, libc, event) <==> Accepts(StageOf(p), m))
  {
    if |fields| % 4 == 3 {
      MessageReads(libc, fields);
      StepReceives(p, libc, event);
    }
  }

  lemma PrintedGsv(fields: seq<string>)
    requires PlainFields(fields) && |fields| <= 19
    ensures Sum(Body("GPGSV", fields)) < 128
    ensures Said("GPGSV", fields) == Gsv(if fields == [""] then [] else fields)
  {
    if fields == [] || fields == [""] {
      PrintedIsDispatched("GPGSV", fields);
    } else {
      RoundTrip("GPGSV", fields);
    }
  }

  /** A printed GSV of up to 19 fields is refused and changes nothing unless it has 3, 7,
      11, 15 or 19; then it is received as the message that its fields say, and accepted
      exactly if that one is expected. */
  lemma PrintedGsvReports(p: Parser, libc: Libc, fields: seq<string>)
    requires PlainFields(fields) && |fields| <= 19
    ensures Sum(Body("GPGSV", fields)) < 128
    ensures |fields| % 4 != 3 ==>
              Step(p, libc, Said("GPGSV", fields)) == p && !Accepted(p, libc, Said("GPGSV", fields))
    ensures |fields| % 4 == 3 ==>
              var m := ItemOf(libc, Said("GPGSV", fields));
              GsvIsReceived(p, Step(p, libc, Said("GPGSV", fields)), libc, fields, m)
              && (Accepted(p, libc, Said("GPGSV", fields)) <==> Accepts(StageOf(p), m))
  {
    PrintedGsv(fields);
    GsvSteps(p, libc, Said("GPGSV", fields), if fields == [""] then [] else fields);
  }

  /** A GSA that gets past the field count. */
  predicate IsGsa(event: Event) {
    event.Gsa? && 17 <= |event.fields|
  }

  /** An id stands in one of the twelve fields, before the first blank one. */
  predicate ListsId(libc: Libc, fields: seq<string>, id: int)
    requires 17 <= |fields|
  {
    exists i :: 2 <= i < 14 && libc.atoi(fields[i]) == id && forall m :: 2 <= m <= i ==> fields[m] != ""
  }

  /** The GSA that came last before n lists an id. */
  predicate LatestGsaLists(libc: Libc, events: seq<Event>, n: nat, id: int)
    requires n <= |events|
  {
    exists u :: 0 <= u < n && IsGsa(events[u]) && ListsId(libc, events[u].fields, id)
                && forall i :: u < i < n ==> !IsGsa(events[i])
  }

  lemma ListedIds(libc: Libc, fields: seq<string>, ids: seq<int>, id: int)
    requires 17 <= |fields| && Lists(libc, fields, ids)
    ensures id in ids <==> ListsId(libc, fields, id)
  {
    if id in ids {
      var k :| 0 <= k < |ids| && ids[k] == id;
      assert fields[k + 2] != "" && ids[k + 2 - 2] == libc.atoi(fields[k + 2]);
    }
  }

  lemma UsedItem(libc: Libc, events: seq<Event>, u: nat, id: int)
    requires u < |events|
    ensures Items(libc, events)[u].Used? <==> IsGsa(events[u])
    ensures IsGsa(events[u]) ==> (id in Items(libc, events)[u].ids <==> ListsId(libc, events[u].fields, id))
  {
    if IsGsa(events[u]) {
      UsedIdsFrom(libc, events[u].fields, 2);
      ListedIds(libc, events[u].fields, UsedIds(libc, events[u].fields, 2), id);
    }
  }

  lemma InUseByGsa(libc: Libc, events: seq<Event>, n: nat, id: int)
    requires n <= |events|
    ensures InUseAt(Items(libc, events), n, id) <==> LatestGsaLists(libc, events, n, id)
  {
    var run := Items(libc, events);
    forall u | 0 <= u < n
      ensures UsedLast(run, u, n) && id in run[u].ids
              <==> IsGsa(events[u]) && ListsId(libc, events[u].fields, id)
                   && forall i :: u < i < n ==> !IsGsa(events[i])
    {
      UsedItem(libc, events, u, id);
      assert (forall i :: u < i < n ==> !run[i].Used?) <==> (forall i :: u < i < n ==> !IsGsa(events[i])) by {
        forall i | u < i < n
          ensures run[i].Used? <==> IsGsa(events[i])
        {
          UsedItem(libc, events, i, id);
        }
      }
    }
  }

  /** The satellite published for the j-th row of the k-th message, and the fields that
      it comes from. */
  predicate ShowsFields(libc: Libc, events: seq<Event>, idx: seq<nat>, list: seq<Satellite>, k: nat, j: nat)
    requires IsGroup(Items(libc, events), idx) && k < |idx|
  {
    var i := RowsBefore(Items(libc, events), idx, k) + j;
    && events[idx[k]].Gsv? && i < |list|
    && IsRowAt(libc, events[idx[k]].fields, 3 + 4 * j, list[i].id, list[i].elevation, list[i].azimuth, list[i].snr)
    && (list[i].inUse <==> LatestGsaLists(libc, events, idx[k], list[i].id))
  }

  lemma RowShowsFields(libc: Libc, events: seq<Event>, idx: seq<nat>, list: seq<Satellite>, k: nat, j: nat)
    requires IsGroup(Items(libc, events), idx) && k < |idx| && j < |Items(libc, events)[idx[k]].rows|
    requires ShowsRow(Items(libc, events), idx, list, k, j)
    ensures ShowsFields(libc, events, idx, list, k, j)
  {
    var n := idx[k];
    assert Items(libc, events)[n] == ItemOf(libc, events[n]);
    MessageReads(libc, events[n].fields);
    var row := Items(libc, events)[n].rows[j];
    assert RowReads(libc, events[n].fields, row, 3 + 4 * j);
    InUseByGsa(libc, events, n, row.id);
  }

  /** From fields to the published list: when the last sentence of a run completes a
      group, the list has, message by message, the satellites of their fields, each
      marked if and only if the GSA that came last before the message lists its id. */
  lemma GroupIsPublished(libc: Libc, events: seq<Event>, idx: seq<nat>)
    requires events != [] && GroupsDeclareWell(libc, events) && Complete(Items(libc, events), idx)
    ensures var run, list := Items(libc, events), NmeaHandlers.After(libc, events).client.published;
            && |list| == RowsBefore(run, idx, |idx|)
            && forall k, j :: 0 <= k < |idx| && 0 <= j < |run[idx[k]].rows| ==>
                                ShowsFields(libc, events, idx, list, k, j)
  {
    var run, list := Items(libc, events), NmeaHandlers.After(libc, events).client.published;
    assert Shows(run, idx, list) by {
      RunReceives(libc, events);
      ItemsWellDeclared(libc, events);
      Publication(run);
    }
    forall k, j | 0 <= k < |idx| && 0 <= j < |run[idx[k]].rows|
      ensures ShowsFields(libc, events, idx, list, k, j)
    {
      assert ShowsRow(run, idx, list, k, j);
      RowShowsFields(libc, events, idx, list, k, j);
    }
  }
}
