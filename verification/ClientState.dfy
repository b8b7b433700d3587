/** What a client (src/gypsy-client.c) stores and emits, as a value, and the
    effect of each of its operations on it. */
module ClientState {
  import opened Numbers

  /** Three mask bits: latitude, longitude, altitude; speed, direction, climb;
      or position, horizontal, vertical accuracy. */
  datatype Mask = Mask(first: bool, second: bool, third: bool)

  const NONE := Mask(false, false, false)
  const CLIMB := Mask(false, false, true)

  function Union(a: Mask, b: Mask): Mask {
    Mask(a.first || b.first, a.second || b.second, a.third || b.third)
  }

  predicate Within(a: Mask, b: Mask) {
    (a.first ==> b.first) && (a.second ==> b.second) && (a.third ==> b.third)
  }

  /** A mask and the three values it qualifies. */
  datatype Group = Group(fields: Mask, first: Number, second: Number, third: Number)

  const UNSET := Group(NONE, ZERO, ZERO, ZERO)

  /** The group after the masked values have been reported. */
  function Merge(g: Group, fields: Mask, first: Number, second: Number, third: Number): Group {
    Group(Union(g.fields, fields),
          if fields.first then first else g.first,
          if fields.second then second else g.second,
          if fields.third then third else g.third)
  }

  /** A masked value is known afterwards as it was reported, and any other is as it
      was before. */
  predicate Takes(g: Group, g': Group, fields: Mask, first: Number, second: Number, third: Number) {
    && (if fields.first then g'.fields.first && g'.first == first
        else g'.fields.first == g.fields.first && g'.first == g.first)
    && (if fields.second then g'.fields.second && g'.second == second
        else g'.fields.second == g.fields.second && g'.second == g.second)
    && (if fields.third then g'.fields.third && g'.third == third
        else g'.fields.third == g.fields.third && g'.third == g.third)
  }

  datatype Satellite = Satellite(id: int, inUse: bool, elevation: int, azimuth: int, snr: int)

  const FIX_INVALID := 0
  const FIX_NONE := 1
  const FIX_2D := 2
  const FIX_3D := 3

  /** The signals on the bus, with their payloads. */
  datatype Signal =
    | PositionChanged(position: Group, at: int)
    | CourseChanged(course: Group, at: int)
    | AccuracyChanged(accuracy: Group)
    | FixStatusChanged(fix: int)
    | TimeChanged(time: int)
    | SatellitesChanged(satellites: seq<Satellite>)

  /** The readings of a device and the signals emitted so far. */
  datatype Readings = Readings(
    timestamp: int,
    fixType: int,
    position: Group,
    lastAltTimestamp: int,
    accuracy: Group,
    course: Group,
    signals: seq<Signal>)

  const NO_READINGS := Readings(0, FIX_INVALID, UNSET, 0, UNSET, UNSET, [])

  function Emit(r: Readings, signal: Signal): Readings {
    r.(signals := r.signals + [signal])
  }

  function SetTimestamp(r: Readings, time: int): Readings {
    if r.timestamp == time then r
    else Emit(r.(timestamp := time), TimeChanged(time))
  }

  function SetFixType(r: Readings, fix: int, weak: bool): Readings {
    var known := if weak && r.fixType == FIX_3D then FIX_2D else r.fixType;
    if known == fix then r
    else Emit(r.(fixType := fix), FixStatusChanged(fix))
  }

  function SetCourse(r: Readings, fields: Mask, speed: Number, direction: Number, climb: Number): Readings {
    var course := Merge(r.course, fields, speed, direction, climb);
    if course == r.course then r
    else Emit(r.(course := course), CourseChanged(course, r.timestamp))
  }

  function SetAccuracy(r: Readings, fields: Mask, pdop: Number, hdop: Number, vdop: Number): Readings {
    var accuracy := Merge(r.accuracy, fields, pdop, hdop, vdop);
    if accuracy == r.accuracy then r
    else Emit(r.(accuracy := accuracy), AccuracyChanged(accuracy))
  }

  predicate AltitudeMoves(r: Readings, fields: Mask, altitude: Number) {
    fields.third && (!r.position.fields.third || r.position.third != altitude)
  }

  /** The climb from the stored altitude to another one. */
  function ClimbTo(r: Readings, altitude: Number): Number {
    if r.position.third == altitude then ZERO
    else Quotient(Difference(altitude, r.position.third), r.timestamp - r.lastAltTimestamp)
  }

  /** The climb is reported if there is a time for the stored altitude. */
  function ReportClimb(r: Readings, climb: Number): Readings {
    if r.lastAltTimestamp > 0 then SetCourse(r, CLIMB, ZERO, ZERO, climb) else r
  }

  /** The climb and the altitude's time, both settled before the position. */
  function BeforePosition(r: Readings, fields: Mask, altitude: Number, climb: Number): Readings {
    if !AltitudeMoves(r, fields, altitude) then r
    else if r.position.fields.third then ReportClimb(r, climb).(lastAltTimestamp := r.timestamp)
    else r.(lastAltTimestamp := r.timestamp)
  }

  function Place(r: Readings, fields: Mask, latitude: Number, longitude: Number, altitude: Number): Readings {
    var position := Merge(r.position, fields, latitude, longitude, altitude);
    if position == r.position then r
    else Emit(r.(position := position), PositionChanged(position, r.timestamp))
  }

  function SetPosition(r: Readings, fields: Mask, latitude: Number, longitude: Number, altitude: Number): Readings {
    Place(BeforePosition(r, fields, altitude, ClimbTo(r, altitude)), fields, latitude, longitude, altitude)
  }

  /** Everything: the readings, the published satellites and the ones staged
      for the next publication. */
  datatype State = State(readings: Readings, published: seq<Satellite>, staged: seq<Satellite>)

  const INITIAL := State(NO_READINGS, [], [])

  function AddSatellite(s: State, satellite: Satellite): State {
    s.(staged := s.staged + [satellite])
  }

  function ClearSatellites(s: State): State {
    s.(staged := [])
  }

  /** Plain replacement of the published list by the staged one. */
  function SetSatellites(s: State): State {
    State(if s.published == s.staged then s.readings else Emit(s.readings, SatellitesChanged(s.staged)),
          s.staged, [])
  }

  datatype Op =
    | TimestampOp(time: int)
    | FixOp(fix: int, weak: bool)
    | PositionOp(fields: Mask, first: Number, second: Number, third: Number)
    | CourseOp(fields: Mask, first: Number, second: Number, third: Number)
    | AccuracyOp(fields: Mask, first: Number, second: Number, third: Number)
    | AddOp(satellite: Satellite)
    | ClearOp
    | CommitOp

  /** The setters, on readings alone. */
  function Set(r: Readings, op: Op): Readings {
    match op
    case TimestampOp(t) => SetTimestamp(r, t)
    case FixOp(f, w) => SetFixType(r, f, w)
    case PositionOp(m, a, b, c) => SetPosition(r, m, a, b, c)
    case CourseOp(m, a, b, c) => SetCourse(r, m, a, b, c)
    case AccuracyOp(m, a, b, c) => SetAccuracy(r, m, a, b, c)
    case _ => r
  }

  function Apply(s: State, op: Op): State {
    match op
    case AddOp(x) => AddSatellite(s, x)
    case ClearOp => ClearSatellites(s)
    case CommitOp => SetSatellites(s)
    case _ => s.(readings := Set(s.readings, op))
  }
}
