/** Runs of whole sentences: satellites, fix status and signals of a client that
    an NMEA parser drives. */
module NmeaRuns {
  import opened Text
  import opened Options
  import opened ClientState
  import opened ClientRuns
  import opened Assembly
  import opened NmeaHandlers
  import NmeaClock

  // -------------------------------------------------------------- satellites

  function ItemOf(libc: Libc, event: Event): Item {
    if event.Gsv? && WellFormedGsv(event.fields) then MessageOf(libc, event.fields)
    else if event.Gsa? && GSA_FIELDS <= |event.fields| then Used(UsedIds(libc, event.fields, GSA_FIRST_SAT))
    else Other
  }

  function Items(libc: Libc, events: seq<Event>): (items: seq<Item>)
    ensures |items| == |events|
    ensures forall i :: 0 <= i < |events| ==> items[i] == ItemOf(libc, events[i])
  {
    seq(|events|, i requires 0 <= i < |events| => ItemOf(libc, events[i]))
  }

  lemma RmcKeepsStage(p: Parser, libc: Libc, fields: seq<string>, clock: string, date: string)
    ensures StageOf(ParseRmc(p, libc, fields, clock, date)) == StageOf(p)
  {
  }

  lemma GgaKeepsStage(p: Parser, libc: Libc, fields: seq<string>, clock: string)
    ensures StageOf(ParseGga(p, libc, fields, clock)) == StageOf(p)
  {
  }

  lemma GsvReceives(p: Parser, libc: Libc, fields: seq<string>)
    requires WellFormedGsv(fields)
    ensures StageOf(ParseGsv(p, libc, fields)) == Receive(StageOf(p), MessageOf(libc, fields))
  {
  }

  /** One sentence acts on the satellites as its item does. */
  lemma StepReceives(p: Parser, libc: Libc, event: Event)
    ensures StageOf(Step(p, libc, event)) == Receive(StageOf(p), ItemOf(libc, event))
  {
    match event
    case Rmc(fields, clock, date) => RmcKeepsStage(p, libc, fields, clock, date);
    case Gga(fields, clock) => GgaKeepsStage(p, libc, fields, clock);
    case Gsv(fields) => if WellFormedGsv(fields) { GsvReceives(p, libc, fields); }
    case _ =>
  }

  /** Over any run of sentences of all kinds the satellites are those of the
      assembly, so its theorems hold of what the client publishes. */
  lemma {:induction false} RunReceives(libc: Libc, events: seq<Event>)
    ensures StageOf(After(libc, events)) == ReceiveAll(Items(libc, events))
    decreases |events|
  {
    if events != [] {
      var n := |events| - 1;
      RunReceives(libc, events[..n]);
      StepReceives(After(libc, events[..n]), libc, events[n]);
      assert Assembly.Init(Items(libc, events)) == Items(libc, events[..n]);
    }
  }

  /** Every group that a run of sentences begins declares 1 to 8 messages. */
  predicate GroupsDeclareWell(libc: Libc, events: seq<Event>) {
    forall i :: 0 <= i < |events| && events[i].Gsv? && WellFormedGsv(events[i].fields)
                && MessageOf(libc, events[i].fields).number == 1 ==>
                  1 <= MessageOf(libc, events[i].fields).declared <= 8
  }

  lemma ItemsWellDeclared(libc: Libc, events: seq<Event>)
    requires GroupsDeclareWell(libc, events)
    ensures WellDeclared(Items(libc, events))
  {
  }

  /** The staging array has room for everything the next sentence adds to it. */
  lemma SentenceHasRoom(libc: Libc, events: seq<Event>, next: Event)
    requires GroupsDeclareWell(libc, events + [next])
    ensures HasRoom(StageOf(After(libc, events)), ItemOf(libc, next))
  {
    RunReceives(libc, events);
    ItemsWellDeclared(libc, events + [next]);
    assert Items(libc, events + [next]) == Items(libc, events) + [ItemOf(libc, next)];
    StagingInvariant(Items(libc, events), ItemOf(libc, next));
  }

  // ------------------------------------------------------- signals and fixes

  /** A listener knows everything, and no fix signal repeated the one before. */
  predicate Heard(s: State) {
    KnowsAll(Listen(s.readings.signals), s) && Changing(Listen(s.readings.signals).fixes)
  }

  /** The reports of an NMEA sentence: a weak one is never of a 3D fix. */
  predicate FromParser(op: Op) {
    op.FixOp? && op.weak ==> op.fix == FIX_2D
  }

  /** Only fix reports are heard as fixes. */
  lemma ApplyKeepsFixes(s: State, op: Op)
    requires !op.FixOp?
    ensures Listen(Apply(s, op).readings.signals).fixes == Listen(s.readings.signals).fixes
    ensures Apply(s, op).readings.fixType == s.readings.fixType
  {
    if op.CommitOp? {
      ListenToMore(s.readings.signals, SatellitesChanged(s.staged));
    } else if !op.AddOp? && !op.ClearOp? {
      SetIsAside(s.readings, op);
    }
  }

  /** What one fix report does to the stored type and to what is heard. */
  lemma ApplyFix(s: State, op: Op)
    requires op.FixOp? && FromParser(op)
    ensures var f, f' := s.readings.fixType, Apply(s, op).readings.fixType;
            && f' == (if op.weak && f == FIX_3D then FIX_3D else op.fix)
            && Listen(Apply(s, op).readings.signals).fixes
               == Listen(s.readings.signals).fixes + (if f' == f then [] else [f'])
  {
    ListenToMore(s.readings.signals, FixStatusChanged(op.fix));
  }

  lemma ApplyKeepsHeard(s: State, op: Op)
    requires Heard(s) && FromParser(op)
    ensures Heard(Apply(s, op))
  {
    ApplyHeard(s, op);
    if op.FixOp? {
      ApplyFix(s, op);
    } else {
      ApplyKeepsFixes(s, op);
    }
  }

  lemma RmcKeepsHeard(p: Parser, libc: Libc, fields: seq<string>, clock: string, date: string)
    requires Heard(p.client) && RMC_FIELDS <= |fields|
    ensures Heard(ParseRmc(p, libc, fields, clock, date).client)
  {
    var c1 := Apply(p.client, RmcTime(RmcContext(p.ctxt, date), clock));
    var c2 := Apply(c1, RmcPosition(libc, fields));
    var c3 := Apply(c2, RmcFix(fields));
    ApplyKeepsHeard(p.client, RmcTime(RmcContext(p.ctxt, date), clock));
    ApplyKeepsHeard(c1, RmcPosition(libc, fields));
    ApplyKeepsHeard(c2, RmcFix(fields));
    ApplyKeepsHeard(c3, RmcCourse(libc, fields));
  }

  lemma GgaKeepsHeard(p: Parser, libc: Libc, fields: seq<string>, clock: string)
    requires Heard(p.client) && GGA_FIELDS <= |fields|
    ensures Heard(ParseGga(p, libc, fields, clock).client)
  {
    var time := NmeaClock.Timestamp(p.ctxt.datestamp, clock);
    var c1 := if time > 0 then Apply(p.client, TimestampOp(time)) else p.client;
    var c2 := Apply(c1, GgaPosition(libc, fields));
    var c3 := Apply(c2, GgaFix(libc, fields));
    ApplyKeepsHeard(p.client, TimestampOp(time));
    ApplyKeepsHeard(c1, GgaPosition(libc, fields));
    ApplyKeepsHeard(c2, GgaFix(libc, fields));
    ApplyKeepsHeard(c3, GgaAccuracy(libc, fields));
  }

  lemma GsaKeepsHeard(p: Parser, libc: Libc, fields: seq<string>)
    requires Heard(p.client) && GSA_FIELDS <= |fields|
    ensures Heard(ParseGsa(p, libc, fields).client)
  {
    ApplyKeepsHeard(p.client, GsaFix(libc, fields));
    ApplyKeepsHeard(Apply(p.client, GsaFix(libc, fields)), GsaAccuracy(libc, fields));
  }

  lemma GsvKeepsHeard(p: Parser, libc: Libc, fields: seq<string>)
    requires Heard(p.client) && WellFormedGsv(fields)
    ensures Heard(ParseGsv(p, libc, fields).client)
  {
    var s, m := StageOf(p), MessageOf(libc, fields);
    ApplyKeepsHeard(p.client, ClearOp);
    if Accepts(s, m) {
      var client := p.client.(staged := StagedWith(s, m));
      assert Heard(client);
      ApplyKeepsHeard(client, CommitOp);
    }
  }

  lemma StepKeepsHeard(p: Parser, libc: Libc, event: Event)
    requires Heard(p.client)
    ensures Heard(Step(p, libc, event).client)
  {
    match event
    case Rmc(fields, clock, date) => if RMC_FIELDS <= |fields| { RmcKeepsHeard(p, libc, fields, clock, date); }
    case Gga(fields, clock) => if GGA_FIELDS <= |fields| { GgaKeepsHeard(p, libc, fields, clock); }
    case Gsa(fields) => if GSA_FIELDS <= |fields| { GsaKeepsHeard(p, libc, fields); }
    case Gsv(fields) => if WellFormedGsv(fields) { GsvKeepsHeard(p, libc, fields); }
    case _ =>
  }

  /** Over every run of sentences a listener knows the client's masks, values,
      satellite list, time and fix type, and a signal of any kind fires only
      when its value changes: for fixes, exactly when the stored type does. */
  lemma {:induction false} RunHeard(libc: Libc, events: seq<Event>)
    ensures Heard(After(libc, events).client)
    decreases |events|
  {
    if events != [] {
      RunHeard(libc, events[..|events| - 1]);
      StepKeepsHeard(After(libc, events[..|events| - 1]), libc, events[|events| - 1]);
    }
  }

  // ------------------------------------------------------------- no flapping

  /** The fix report of a sentence, if it makes one. */
  function FixReport(libc: Libc, event: Event): Option<Op> {
    match event
    case Rmc(fields, _, _) => if RMC_FIELDS <= |fields| then Some(RmcFix(fields)) else None
    case Gga(fields, _) => if GGA_FIELDS <= |fields| then Some(GgaFix(libc, fields)) else None
    case Gsa(fields) => if GSA_FIELDS <= |fields| then Some(GsaFix(libc, fields)) else None
    case _ => None
  }

  function Fixes(p: Parser): seq<int> {
    Listen(p.client.readings.signals).fixes
  }

  function TypeAfter(fix: int, report: Option<Op>): int {
    if report.Some? && report.value.FixOp?
    then (if report.value.weak && fix == FIX_3D then FIX_3D else report.value.fix)
    else fix
  }

  /** The stored type moves to type, and this is heard if it is a change. */
  predicate FixMoves(before: State, after: State, fix: int) {
    && after.readings.fixType == fix
    && Listen(after.readings.signals).fixes
       == Listen(before.readings.signals).fixes + (if fix == before.readings.fixType then [] else [fix])
  }

  lemma RmcMovesFix(p: Parser, libc: Libc, fields: seq<string>, clock: string, date: string)
    requires RMC_FIELDS <= |fields|
    ensures FixMoves(p.client, ParseRmc(p, libc, fields, clock, date).client,
                     TypeAfter(p.client.readings.fixType, Some(RmcFix(fields))))
  {
    var c1 := Apply(p.client, RmcTime(RmcContext(p.ctxt, date), clock));
    var c2 := Apply(c1, RmcPosition(libc, fields));
    var c3 := Apply(c2, RmcFix(fields));
    ApplyKeepsFixes(p.client, RmcTime(RmcContext(p.ctxt, date), clock));
    ApplyKeepsFixes(c1, RmcPosition(libc, fields));
    ApplyFix(c2, RmcFix(fields));
    ApplyKeepsFixes(c3, RmcCourse(libc, fields));
  }

  lemma GgaMovesFix(p: Parser, libc: Libc, fields: seq<string>, clock: string)
    requires GGA_FIELDS <= |fields|
    ensures FixMoves(p.client, ParseGga(p, libc, fields, clock).client,
                     TypeAfter(p.client.readings.fixType, Some(GgaFix(libc, fields))))
  {
    var time := NmeaClock.Timestamp(p.ctxt.datestamp, clock);
    var c1 := if time > 0 then Apply(p.client, TimestampOp(time)) else p.client;
    var c2 := Apply(c1, GgaPosition(libc, fields));
    var c3 := Apply(c2, GgaFix(libc, fields));
    ApplyKeepsFixes(p.client, TimestampOp(time));
    ApplyKeepsFixes(c1, GgaPosition(libc, fields));
    ApplyFix(c2, GgaFix(libc, fields));
    ApplyKeepsFixes(c3, GgaAccuracy(libc, fields));
  }

  lemma GsaMovesFix(p: Parser, libc: Libc, fields: seq<string>)
    requires GSA_FIELDS <= |fields|
    ensures FixMoves(p.client, ParseGsa(p, libc, fields).client,
                     TypeAfter(p.client.readings.fixType, Some(GsaFix(libc, fields))))
  {
    ApplyFix(p.client, GsaFix(libc, fields));
    ApplyKeepsFixes(Apply(p.client, GsaFix(libc, fields)), GsaAccuracy(libc, fields));
  }

  lemma GsvKeepsFix(p: Parser, libc: Libc, fields: seq<string>)
    ensures FixMoves(p.client, ParseGsv(p, libc, fields).client, p.client.readings.fixType)
  {
    if WellFormedGsv(fields) {
      var client := p.client.(staged := StagedWith(StageOf(p), MessageOf(libc, fields)));
      ApplyKeepsFixes(client, CommitOp);
    }
  }

  /** A sentence moves the fix type by its one report and by nothing else. */
  lemma StepMovesFix(p: Parser, libc: Libc, event: Event)
    ensures FixMoves(p.client, Step(p, libc, event).client,
                     TypeAfter(p.client.readings.fixType, FixReport(libc, event)))
  {
    match event
    case Rmc(fields, clock, date) => if RMC_FIELDS <= |fields| { RmcMovesFix(p, libc, fields, clock, date); }
    case Gga(fields, clock) => if GGA_FIELDS <= |fields| { GgaMovesFix(p, libc, fields, clock); }
    case Gsa(fields) => if GSA_FIELDS <= |fields| { GsaMovesFix(p, libc, fields); }
    case Gsv(fields) => GsvKeepsFix(p, libc, fields);
    case _ =>
  }

  /** What a sentence must say for a 3D fix to last: status A in an RMC, all of
      latitude, longitude and altitude in a GGA, fix 3 in a GSA.  Sentences with
      too few fields and all others say nothing about the fix. */
  predicate Confirms(libc: Libc, event: Event) {
    match event
    case Rmc(fields, _, _) => RMC_FIELDS <= |fields| ==> CharAt(fields[1], 0) == 'A'
    case Gga(fields, _) =>
      GGA_FIELDS <= |fields| ==>
        && Latitude(fields[1], fields[2], libc).Some?
        && Longitude(fields[3], fields[4], libc).Some?
        && libc.strtod(fields[8]).Some?
    case Gsa(fields) => GSA_FIELDS <= |fields| ==> libc.atoi(fields[1]) == 3
    case _ => true
  }

  lemma ConfirmsKeepsType(libc: Libc, event: Event)
    ensures TypeAfter(FIX_3D, FixReport(libc, event)) == FIX_3D <==> Confirms(libc, event)
  {
  }

  lemma {:induction false} FixesGrow(p: Parser, libc: Libc, events: seq<Event>)
    ensures |Fixes(p)| <= |Fixes(Steps(p, libc, events))|
    decreases |events|
  {
    if events != [] {
      FixesGrow(p, libc, events[..|events| - 1]);
      StepMovesFix(Steps(p, libc, events[..|events| - 1]), libc, events[|events| - 1]);
    }
  }

  predicate AllConfirm(libc: Libc, events: seq<Event>) {
    forall i :: 0 <= i < |events| ==> Confirms(libc, events[i])
  }

  lemma AllConfirmInit(libc: Libc, events: seq<Event>)
    requires events != []
    ensures AllConfirm(libc, events) <==>
            AllConfirm(libc, events[..|events| - 1]) && Confirms(libc, events[|events| - 1])
  {
    assert events == events[..|events| - 1] + [events[|events| - 1]];
  }

  /** The history is that from the beginning exactly if it was before and the
      type does not move. */
  lemma MoveIsHeard(first: seq<int>, before: State, after: State, fix: int)
    requires FixMoves(before, after, fix)
    requires |first| <= |Listen(before.readings.signals).fixes|
    ensures Listen(after.readings.signals).fixes == first
            <==> Listen(before.readings.signals).fixes == first && fix == before.readings.fixType
  {
    var h, h' := Listen(before.readings.signals).fixes, Listen(after.readings.signals).fixes;
    assert fix != before.readings.fixType ==> |h'| == |h| + 1;
  }

  /** A 3D fix does not flap.  Once it is 3D, a run of sentences is heard as no
      fix change at all if and only if every sentence confirms it, and then it
      is still 3D. */
  lemma {:induction false} NoFlapping(p: Parser, libc: Libc, events: seq<Event>)
    requires p.client.readings.fixType == FIX_3D
    ensures Fixes(Steps(p, libc, events)) == Fixes(p) <==> AllConfirm(libc, events)
    ensures Fixes(Steps(p, libc, events)) == Fixes(p)
            ==> Steps(p, libc, events).client.readings.fixType == FIX_3D
    decreases |events|
  {
    if events != [] {
      var before, last := Steps(p, libc, events[..|events| - 1]), events[|events| - 1];
      NoFlapping(p, libc, events[..|events| - 1]);
      AllConfirmInit(libc, events);
      FixesGrow(p, libc, events[..|events| - 1]);
      StepMovesFix(before, libc, last);
      MoveIsHeard(Fixes(p), before.client, Step(before, libc, last).client,
                  TypeAfter(before.client.readings.fixType, FixReport(libc, last)));
      ConfirmsKeepsType(libc, last);
    }
  }
}
