/** The parse context (src/nmea-parser.h, src/nmea-parser.c): the handlers update
    its fields and drive the client.  Each is proved against NmeaHandlers. */
module NmeaContext {
  import opened Options
  import opened Text
  import opened Numbers
  import opened ClientState
  import opened Assembly
  import opened NmeaHandlers
  import NmeaClock
  import NmeaReports
  import Calendar
  import GypsyClient

  type Count = n: nat | n <= GypsyClient.MAX_SAT_SVID

  class NmeaParseContext {
    const client: GypsyClient.GypsyClient
    var date: Option<Calendar.Date>
    var datestamp: int
    var inUseCount: Count
    const inUse: array<int>
    var numberOfMessages: int
    var messageCount: int

    ghost predicate Valid() {
      client.Valid() && inUse.Length == GypsyClient.MAX_SAT_SVID
    }

    ghost function Repr(): set<object> {
      {this, inUse} + client.Repr()
    }

    ghost function Used(): seq<int>
      reads this`inUseCount, inUse
      requires Valid()
    {
      inUse[..inUseCount]
    }

    ghost function Ctxt(): Context
      reads this, inUse
      requires Valid()
    {
      Context(datestamp, date, Used(), numberOfMessages, messageCount)
    }

    ghost function Value(): Parser
      reads this, inUse, client, client.satellites, client.newSatellites
      requires Valid()
    {
      Parser(Ctxt(), client.Value())
    }

    constructor ()
      ensures Valid() && fresh(Repr())
      ensures Value() == START
    {
      client := new GypsyClient.GypsyClient();
      inUse := new int[GypsyClient.MAX_SAT_SVID](_ => 0);
      date, datestamp := None, 0;
      inUseCount, numberOfMessages, messageCount := 0, 0, 0;
    }

    method SetDate(d: Calendar.Date)
      modifies this`date
      ensures date == NmeaClock.StoreDate(old(date), d)
    {
      if Calendar.Valid(d) {
        date := Some(d);
      }
    }

    /** calculate_datestamp, stored */
    method ReadDate(dateText: string)
      requires Valid()
      modifies this`date, this`datestamp
      ensures Ctxt() == RmcContext(old(Ctxt()), dateText)
    {
      SetDate(NmeaClock.DateOf(dateText));
      datestamp := NmeaClock.Datestamp(date);
    }

    /** Latitude and longitude, as far as they are read. */
    method ReportPosition(libc: Libc, fields: seq<string>)
      requires Valid() && RMC_FIELDS <= |fields|
      modifies client
      ensures client.Value() == Apply(old(client.Value()), RmcPosition(libc, fields))
    {
      var latitude := Latitude(fields[2], fields[3], libc);
      var longitude := Longitude(fields[4], fields[5], libc);
      client.SetPosition(Mask(latitude.Some?, longitude.Some?, false), Or(latitude, ZERO), Or(longitude, ZERO), ZERO);
    }

    /** The fix type, as far as the status tells it. */
    method ReportStatus(fields: seq<string>)
      requires Valid() && RMC_FIELDS <= |fields|
      modifies client
      ensures client.Value() == Apply(old(client.Value()), RmcFix(fields))
    {
      if CharAt(fields[1], 0) == 'A' {
        client.SetFixType(FIX_2D, true);
      } else {
        client.SetFixType(FIX_NONE, false);
      }
    }

    /** Speed and direction, as far as they are read. */
    method ReportCourse(libc: Libc, fields: seq<string>)
      requires Valid() && RMC_FIELDS <= |fields|
      modifies client
      ensures client.Value() == Apply(old(client.Value()), RmcCourse(libc, fields))
    {
      var speed, direction := libc.strtod(fields[6]), libc.strtod(fields[7]);
      client.SetCourse(Mask(speed.Some?, direction.Some?, false), Or(speed, ZERO), Or(direction, ZERO), ZERO);
    }

    method HandleRmc(libc: Libc, fields: seq<string>, clock: string, dateText: string) returns (ok: bool)
      requires Valid()
      modifies this`date, this`datestamp, client
      ensures Value() == ParseRmc(old(Value()), libc, fields, clock, dateText)
      ensures RMC_FIELDS <= |fields| ==> NmeaReports.RmcIsReported(old(Value()), Value(), libc, fields)
      ensures ok <==> RMC_FIELDS <= |fields|
    {
      if |fields| < RMC_FIELDS {
        return false;
      }
      ReadDate(dateText);
      client.SetTimestamp(NmeaClock.Timestamp(datestamp, clock));
      assert client.Value() == Apply(old(client.Value()), RmcTime(Ctxt(), clock));
      ReportPosition(libc, fields);
      ReportStatus(fields);
      ReportCourse(libc, fields);
      NmeaReports.RmcReports(old(Value()), libc, fields, clock, dateText);
      ok := true;
    }

    method HandleGga(libc: Libc, fields: seq<string>, clock: string) returns (ok: bool)
      requires Valid()
      modifies client
      ensures Value() == ParseGga(old(Value()), libc, fields, clock)
      ensures GGA_FIELDS <= |fields| ==> NmeaReports.GgaIsReported(old(Value()), Value(), libc, fields)
      ensures ok <==> GGA_FIELDS <= |fields|
    {
      if |fields| < GGA_FIELDS {
        return false;
      }
      var timestamp := NmeaClock.Timestamp(datestamp, clock);
      if timestamp > 0 {
        client.SetTimestamp(timestamp);
      }
      ghost var c1 := client.Value();
      var latitude := Latitude(fields[1], fields[2], libc);
      var longitude := Longitude(fields[3], fields[4], libc);
      var altitude := libc.strtod(fields[8]);
      client.SetPosition(Mask(latitude.Some?, longitude.Some?, altitude.Some?),
                         Or(latitude, ZERO), Or(longitude, ZERO), Or(altitude, ZERO));
      ghost var c2 := client.Value();
      assert c2 == Apply(c1, GgaPosition(libc, fields));
      var fix := FIX_INVALID;
      if latitude.Some? && longitude.Some? {
        if altitude.Some? {
          fix := FIX_3D;
        } else {
          fix := FIX_2D;
        }
      } else {
        fix := FIX_NONE;
      }
      client.SetFixType(fix, false);
      ghost var c3 := client.Value();
      assert c3 == Apply(c2, GgaFix(libc, fields));
      client.SetAccuracy(Mask(false, true, false), ZERO, Or(libc.strtod(fields[7]), ZERO), ZERO);
      NmeaReports.GgaReports(old(Value()), libc, fields, clock);
      ok := true;
    }

    method HandleGsa(libc: Libc, fields: seq<string>) returns (ok: bool)
      requires Valid()
      modifies this`inUseCount, inUse, client
      ensures Value() == ParseGsa(old(Value()), libc, fields)
      ensures GSA_FIELDS <= |fields| ==> NmeaReports.GsaIsReported(old(Value()), Value(), libc, fields)
      ensures ok <==> GSA_FIELDS <= |fields|
    {
      if |fields| < GSA_FIELDS {
        return false;
      }
      client.SetFixType(libc.atoi(fields[1]), false);
      StoreUsed(libc, fields);
      client.SetAccuracy(AccuracyMask(fields), Or(libc.strtod(fields[14]), ZERO),
                         Or(libc.strtod(fields[15]), ZERO), Or(libc.strtod(fields[16]), ZERO));
      NmeaReports.GsaReports(old(Value()), libc, fields);
      ok := true;
    }

    lemma UsedStep(libc: Libc, before: seq<int>, after: seq<int>, count: nat, fields: seq<string>, i: nat)
      requires count < |before| && GSA_LAST_SAT < |fields| && i <= GSA_LAST_SAT && fields[i] != ""
      requires after == before[count := libc.atoi(fields[i])]
      ensures after[..count + 1] + UsedIds(libc, fields, i + 1) == before[..count] + UsedIds(libc, fields, i)
    {
      var x, rest := libc.atoi(fields[i]), UsedIds(libc, fields, i + 1);
      assert after[..count + 1] == before[..count] + [x];
      assert before[..count] + ([x] + rest) == before[..count] + [x] + rest;
    }

    /** The loop that stores the ids used for the fix. */
    method StoreUsed(libc: Libc, fields: seq<string>)
      requires Valid() && GSA_FIELDS <= |fields|
      modifies this`inUseCount, inUse
      ensures Used() == UsedIds(libc, fields, GSA_FIRST_SAT)
    {
      var satCount: nat, i: nat := 0, GSA_FIRST_SAT;
      while i <= GSA_LAST_SAT && fields[i] != ""
        invariant i <= GSA_LAST_SAT + 1 && satCount == i - GSA_FIRST_SAT
        invariant inUse[..satCount] + UsedIds(libc, fields, i) == UsedIds(libc, fields, GSA_FIRST_SAT)
      {
        ghost var before := inUse[..];
        inUse[satCount] := libc.atoi(fields[i]);
        UsedStep(libc, before, inUse[..], satCount, fields, i);
        satCount, i := satCount + 1, i + 1;
      }
      inUseCount := satCount;
    }

    /** The search for an id among those used for the fix. */
    method IsUsed(id: int) returns (used: bool)
      requires Valid()
      ensures used <==> id in Used()
    {
      used := false;
      for j := 0 to inUseCount
        invariant !used && id !in inUse[..j]
      {
        if id == inUse[j] {
          return true;
        }
      }
    }

    /** One satellite of a message. */
    method StageRow(row: Row, ghost used: seq<int>)
      requires Valid() && |client.Staged()| < GypsyClient.MAX_SAT_SVID && used == Used()
      modifies client`newSatCount, client.newSatellites
      ensures client.Staged() == old(client.Staged()) + [MarkRow(row, used)]
      ensures IsOf(client.Staged()[|old(client.Staged())|], row, row.id in used)
    {
      var isUsed := IsUsed(row.id);
      client.AddSatellite(row.id, isUsed, row.elevation, row.azimuth, row.snr);
    }

    /** What the loop has staged and has left makes the whole message. */
    ghost predicate Staging(libc: Libc, fields: seq<string>, k: nat, used: seq<int>, target: seq<Satellite>)
      reads client`newSatCount, client.newSatellites
      requires Valid()
    {
      client.Staged() + Mark(RowsFrom(libc, fields, k), used) == target
    }

    /** One round of the loop. */
    method StageNext(libc: Libc, fields: seq<string>, ghost m: nat, i: nat, ghost k: nat,
                     ghost used: seq<int>, ghost target: seq<Satellite>)
      requires Valid() && |fields| == GSV_FIRST_SAT + 4 * m && used == Used()
      requires i == GSV_FIRST_SAT + 4 * k <= GSV_LAST_SAT && i < |fields| && fields[i] != ""
      requires Staging(libc, fields, k, used, target) && |target| <= GypsyClient.MAX_SAT_SVID
      modifies client`newSatCount, client.newSatellites
      ensures Staging(libc, fields, k + 1, used, target)
    {
      RowIsWhole(fields, k, m);
      ghost var staged, rest := client.Staged(), RowsFrom(libc, fields, k + 1);
      var row := RowAt(libc, fields, i);
      StageRow(row, used);
      StagedMoves(staged, client.Staged(), row, rest, used);
    }

    lemma StagedMoves(before: seq<Satellite>, after: seq<Satellite>, row: Row, rest: seq<Row>, used: seq<int>)
      requires after == before + [MarkRow(row, used)]
      ensures after + Mark(rest, used) == before + Mark([row] + rest, used)
    {
      MarkCons(row, rest, used);
    }

    /** The loop over the satellites of one message. */
    method StageSatellites(libc: Libc, fields: seq<string>, ghost m: nat)
      requires Valid() && |fields| == GSV_FIRST_SAT + 4 * m
      requires |client.Staged()| + |RowsFrom(libc, fields, 0)| <= GypsyClient.MAX_SAT_SVID
      modifies client`newSatCount, client.newSatellites
      ensures client.Staged() == old(client.Staged()) + Mark(RowsFrom(libc, fields, 0), Used())
      ensures var n, rows := |old(client.Staged())|, RowsFrom(libc, fields, 0);
              && |client.Staged()| == n + |rows|
              && forall i :: 0 <= i < |rows| ==> IsOf(client.Staged()[n + i], rows[i], rows[i].id in Used())
    {
      ghost var used, target := Used(), client.Staged() + Mark(RowsFrom(libc, fields, 0), Used());
      ghost var k: nat := 0;
      var i: nat := GSV_FIRST_SAT;
      while i <= GSV_LAST_SAT && i < |fields| && fields[i] != ""
        invariant i == GSV_FIRST_SAT + 4 * k && Staging(libc, fields, k, used, target)
        decreases GSV_LAST_SAT + 4 - i
      {
        StageNext(libc, fields, m, i, k, used, target);
        k, i := k + 1, i + 4;
      }
      RowIsWhole(fields, k, m);
      assert Mark(RowsFrom(libc, fields, k), used) == [];
      AllMarked(RowsFrom(libc, fields, 0), used);
    }

    /** Message number against count; go tells that the message is to be read. */
    method Expect(number: int, declared: int) returns (go: bool)
      requires Valid()
      modifies this`messageCount, this`numberOfMessages, client`newSatCount
      ensures go <==> number == old(messageCount) + 1 || number == 1
      ensures !go ==> messageCount == numberOfMessages == 0 && client.Staged() == []
      ensures go ==>
                && messageCount == number - 1
                && numberOfMessages == (if number == 1 then declared else old(numberOfMessages))
                && client.Staged() == (if number == old(messageCount) + 1 then old(client.Staged()) else [])
    {
      if number != messageCount + 1 {
        client.ClearSatellites();
        messageCount := 0;
        numberOfMessages := 0;
        if number != 1 {
          return false;
        }
      }
      if number == 1 {
        numberOfMessages := declared;
      }
      go := true;
    }

    /** A message has been read; the last one publishes the group. */
    method CountMessage()
      requires Valid()
      modifies this`messageCount, client, client.satellites
      ensures if old(messageCount) + 1 == numberOfMessages
              then messageCount == 0 && client.Value() == Apply(old(client.Value()), CommitOp)
              else messageCount == old(messageCount) + 1 && client.Value() == old(client.Value())
    {
      messageCount := messageCount + 1;
      if messageCount == numberOfMessages {
        client.SetSatellites();
        messageCount := 0;
      }
    }

    /** An accepted message: its satellites are staged and it is counted. */
    method ReadMessage(libc: Libc, fields: seq<string>, ghost before: Parser)
      requires Valid() && WellFormedGsv(fields)
      requires Accepts(StageOf(before), MessageOf(libc, fields)) && HasRoom(StageOf(before), MessageOf(libc, fields))
      requires var m := MessageOf(libc, fields);
               Value() == Parser(before.ctxt.(messageCount := m.number - 1,
                                              numberOfMessages := TotalWith(StageOf(before), m)),
                                 before.client.(staged := KeptBy(StageOf(before), m)))
      modifies this`messageCount, client, client.satellites, client.newSatellites
      ensures Value() == ParseGsv(before, libc, fields)
    {
      StageSatellites(libc, fields, (|fields| - 3) / 4);
      assert client.Value() == before.client.(staged := StagedWith(StageOf(before), MessageOf(libc, fields)));
      CountMessage();
    }

    method HandleGsv(libc: Libc, fields: seq<string>) returns (ok: bool)
      requires Valid()
      requires WellFormedGsv(fields) ==> HasRoom(StageOf(Value()), MessageOf(libc, fields))
      modifies this`messageCount, this`numberOfMessages, client, client.satellites, client.newSatellites
      ensures Value() == ParseGsv(old(Value()), libc, fields)
      ensures ok <==> WellFormedGsv(fields) && Accepts(StageOf(old(Value())), MessageOf(libc, fields))
    {
      if (|fields| - 3) % 4 != 0 {
        return false;
      }
      ok := Expect(libc.atoi(fields[1]), libc.atoi(fields[0]));
      if ok {
        ReadMessage(libc, fields, old(Value()));
      }
    }
  }
}
