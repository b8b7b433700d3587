/** The client object: its fields are updated one by one and its satellites live
    in two fixed arrays.  Every method is proved against ClientState. */
module GypsyClient {
  import opened Numbers
  import opened ClientState

  const MAX_SAT_SVID := 32

  type Count = n: nat | n <= MAX_SAT_SVID

  class GypsyClient {
    var timestamp: int
    var fixType: int

    var position: Group
    var lastAltTimestamp: int
    var accuracy: Group
    var course: Group

    var satCount: Count
    const satellites: array<Satellite>
    var newSatCount: Count
    const newSatellites: array<Satellite>

    // The signals emitted so far.
    var signals: seq<Signal>

    ghost predicate Valid() {
      && satellites.Length == newSatellites.Length == MAX_SAT_SVID
      && satellites != newSatellites
    }

    ghost function Repr(): set<object> {
      {this, satellites, newSatellites}
    }

    ghost function Now(): Readings
      reads this
    {
      Readings(timestamp, fixType, position, lastAltTimestamp, accuracy, course, signals)
    }

    ghost function Published(): seq<Satellite>
      reads this`satCount, satellites
      requires Valid()
    {
      satellites[..satCount]
    }

    ghost function Staged(): seq<Satellite>
      reads this`newSatCount, newSatellites
      requires Valid()
    {
      newSatellites[..newSatCount]
    }

    ghost function Value(): State
      reads this, satellites, newSatellites
      requires Valid()
    {
      State(Now(), Published(), Staged())
    }

    constructor ()
      ensures Valid() && fresh(Repr())
      ensures Value() == INITIAL
    {
      timestamp, fixType := 0, FIX_INVALID;
      position, accuracy, course := UNSET, UNSET, UNSET;
      lastAltTimestamp := 0;
      satCount, newSatCount := 0, 0;
      satellites := new Satellite[MAX_SAT_SVID](_ => Satellite(0, false, 0, 0, 0));
      newSatellites := new Satellite[MAX_SAT_SVID](_ => Satellite(0, false, 0, 0, 0));
      signals := [];
    }

    /** One value of a group: stored when it is reported for the first time or
        differs from the stored one. */
    method Report(reported: bool, known: bool, stored: Number, value: Number)
      returns (known': bool, stored': Number, changed: bool)
      ensures known' <==> known || reported
      ensures stored' == if reported then value else stored
      ensures changed <==> known' != known || stored' != stored
    {
      known', stored', changed := known, stored, false;
      if reported {
        if known {
          if stored != value {
            stored', changed := value, true;
          }
        } else {
          known', stored', changed := true, value, true;
        }
      }
    }

    /** The three tests that every setter makes, one value after the other. */
    method ReportGroup(g: Group, fields: Mask, first: Number, second: Number, third: Number)
      returns (g': Group, changed: bool)
      ensures Takes(g, g', fields, first, second, third)
      ensures g' == Merge(g, fields, first, second, third)
      ensures changed <==> g' != g
    {
      g', changed := g, false;
      var known, value, news := Report(fields.first, g.fields.first, g.first, first);
      g', changed := g'.(first := value, fields := g'.fields.(first := known)), changed || news;
      known, value, news := Report(fields.second, g.fields.second, g.second, second);
      g', changed := g'.(second := value, fields := g'.fields.(second := known)), changed || news;
      known, value, news := Report(fields.third, g.fields.third, g.third, third);
      g', changed := g'.(third := value, fields := g'.fields.(third := known)), changed || news;
    }

    /** The altitude is about to change: with a time for the last one the climb
        can be calculated. */
    method ReportClimb(altitude: Number)
      requires position.third != altitude
      modifies this`course, this`signals
      ensures Now() == ClientState.ReportClimb(old(Now()), ClimbTo(old(Now()), altitude))
    {
      if lastAltTimestamp > 0 {
        var dt := timestamp - lastAltTimestamp;
        var da := Difference(altitude, position.third);
        SetCourse(CLIMB, ZERO, ZERO, Quotient(da, dt));
      }
    }

    /** The climb and the altitude's time, settled while the old altitude is
        still stored. */
    method BeforePosition(fields: Mask, altitude: Number)
      modifies this`lastAltTimestamp, this`course, this`signals
      ensures Now() == ClientState.BeforePosition(old(Now()), fields, altitude, ClimbTo(old(Now()), altitude))
    {
      if fields.third {
        if position.fields.third {
          if position.third != altitude {
            ReportClimb(altitude);
            lastAltTimestamp := timestamp;
          }
        } else {
          lastAltTimestamp := timestamp;
        }
      }
    }

    method SetPosition(fields: Mask, latitude: Number, longitude: Number, altitude: Number)
      modifies this`position, this`lastAltTimestamp, this`course, this`signals
      ensures Takes(old(position), position, fields, latitude, longitude, altitude)
      ensures Now() == ClientState.SetPosition(old(Now()), fields, latitude, longitude, altitude)
      ensures Valid() ==> Value() == Apply(old(Value()), PositionOp(fields, latitude, longitude, altitude))
    {
      BeforePosition(fields, altitude);
      var g, changed := ReportGroup(position, fields, latitude, longitude, altitude);
      position := g;
      if changed {
        signals := signals + [PositionChanged(position, timestamp)];
      }
    }

    method SetCourse(fields: Mask, speed: Number, direction: Number, climb: Number)
      modifies this`course, this`signals
      ensures Takes(old(course), course, fields, speed, direction, climb)
      ensures Now() == ClientState.SetCourse(old(Now()), fields, speed, direction, climb)
      ensures Valid() ==> Value() == Apply(old(Value()), CourseOp(fields, speed, direction, climb))
    {
      var g, changed := ReportGroup(course, fields, speed, direction, climb);
      course := g;
      if changed {
        signals := signals + [CourseChanged(course, timestamp)];
      }
    }

    method SetTimestamp(time: int)
      modifies this`timestamp, this`signals
      ensures Now() == ClientState.SetTimestamp(old(Now()), time)
      ensures Valid() ==> Value() == Apply(old(Value()), TimestampOp(time))
    {
      if timestamp != time {
        timestamp := time;
        signals := signals + [TimeChanged(time)];
      }
    }

    method SetFixType(fix: int, weak: bool)
      modifies this`fixType, this`signals
      ensures Now() == ClientState.SetFixType(old(Now()), fix, weak)
      ensures Valid() ==> Value() == Apply(old(Value()), FixOp(fix, weak))
    {
      var weakType;
      if weak && fixType == FIX_3D {
        weakType := FIX_2D;
      } else {
        weakType := fixType;
      }
      if weakType != fix {
        fixType := fix;
        signals := signals + [FixStatusChanged(fix)];
      }
    }

    method SetAccuracy(fields: Mask, pdop: Number, hdop: Number, vdop: Number)
      modifies this`accuracy, this`signals
      ensures Takes(old(accuracy), accuracy, fields, pdop, hdop, vdop)
      ensures Now() == ClientState.SetAccuracy(old(Now()), fields, pdop, hdop, vdop)
      ensures Valid() ==> Value() == Apply(old(Value()), AccuracyOp(fields, pdop, hdop, vdop))
    {
      var g, changed := ReportGroup(accuracy, fields, pdop, hdop, vdop);
      accuracy := g;
      if changed {
        signals := signals + [AccuracyChanged(accuracy)];
      }
    }

    /** The staging array has room for one more. */
    method AddSatellite(id: int, inUse: bool, elevation: int, azimuth: int, snr: int)
      requires Valid() && newSatCount < MAX_SAT_SVID
      modifies this`newSatCount, newSatellites
      ensures Value() == ClientState.AddSatellite(old(Value()), Satellite(id, inUse, elevation, azimuth, snr))
    {
      newSatellites[newSatCount] := Satellite(id, inUse, elevation, azimuth, snr);
      newSatCount := newSatCount + 1;
      assert newSatellites[..newSatCount - 1] == old(newSatellites[..newSatCount]);
    }

    method ClearSatellites()
      requires Valid()
      modifies this`newSatCount
      ensures Value() == ClientState.ClearSatellites(old(Value()))
    {
      newSatCount := 0;
    }

    /** The comparing copy, whatever the slots beyond satCount hold. */
    method SetSatellites()
      requires Valid()
      modifies this`satCount, this`newSatCount, this`signals, satellites
      ensures Value() == ClientState.SetSatellites(old(Value()))
    {
      var changed := false;
      ghost var was := satellites[..];
      for i := 0 to newSatCount
        modifies satellites
        invariant satellites[..i] == newSatellites[..i]
        invariant satellites[i..] == was[i..]
        invariant changed <==> was[..i] != newSatellites[..i]
      {
        var n, o := newSatellites[i], satellites[i];
        assert was[i] == o;
        assert was[..i + 1] == was[..i] + [o] && newSatellites[..i + 1] == newSatellites[..i] + [n];
        if n != o {
          changed := true;
          satellites[i] := n;
        }
        assert satellites[..i + 1] == satellites[..i] + [n];
      }
      assert was[..satCount] == old(Published());
      if newSatCount != satCount {
        changed := true;
        satCount := newSatCount;
      }
      if changed {
        signals := signals + [SatellitesChanged(satellites[..satCount])];
      }
      newSatCount := 0;
    }
  }
}
