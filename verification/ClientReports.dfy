/** What a client (src/gypsy-client.c) knows of what it has been told, reading by
    reading, and the times that its signals carry. */
module ClientReports {
  import opened Options
  import opened Numbers
  import opened ClientState
  import opened ClientRuns

  datatype Reading =
    | Latitude | Longitude | Altitude
    | Speed | Direction | Climb
    | PositionAccuracy | HorizontalAccuracy | VerticalAccuracy

  /** What an operation tells of a reading. */
  function Told(op: Op, what: Reading): Option<Number> {
    match what
    case Latitude => if op.PositionOp? && op.fields.first then Some(op.first) else None
    case Longitude => if op.PositionOp? && op.fields.second then Some(op.second) else None
    case Altitude => if op.PositionOp? && op.fields.third then Some(op.third) else None
    case Speed => if op.CourseOp? && op.fields.first then Some(op.first) else None
    case Direction => if op.CourseOp? && op.fields.second then Some(op.second) else None
    case Climb => if op.CourseOp? && op.fields.third then Some(op.third) else None
    case PositionAccuracy => if op.AccuracyOp? && op.fields.first then Some(op.first) else None
    case HorizontalAccuracy => if op.AccuracyOp? && op.fields.second then Some(op.second) else None
    case VerticalAccuracy => if op.AccuracyOp? && op.fields.third then Some(op.third) else None
  }

  /** A stored reading, None while its mask bit is not set. */
  function Known(r: Readings, what: Reading): Option<Number> {
    match what
    case Latitude => if r.position.fields.first then Some(r.position.first) else None
    case Longitude => if r.position.fields.second then Some(r.position.second) else None
    case Altitude => if r.position.fields.third then Some(r.position.third) else None
    case Speed => if r.course.fields.first then Some(r.course.first) else None
    case Direction => if r.course.fields.second then Some(r.course.second) else None
    case Climb => if r.course.fields.third then Some(r.course.third) else None
    case PositionAccuracy => if r.accuracy.fields.first then Some(r.accuracy.first) else None
    case HorizontalAccuracy => if r.accuracy.fields.second then Some(r.accuracy.second) else None
    case VerticalAccuracy => if r.accuracy.fields.third then Some(r.accuracy.third) else None
  }

  /** What has been told is known, and what has not is known as before. */
  predicate Learns(r: Readings, r': Readings, what: Reading, told: Option<Number>) {
    Known(r', what) == if told.Some? then told else Known(r, what)
  }

  /** Only a position with an altitude can change the climb besides its own report. */
  predicate IsDirect(op: Op, what: Reading) {
    what == Climb && op.PositionOp? ==> !op.fields.third
  }

  lemma CourseLearns(r: Readings, op: Op, what: Reading)
    requires op.CourseOp?
    ensures Learns(r, Set(r, op), what, Told(op, what))
  {
  }

  lemma AccuracyLearns(r: Readings, op: Op, what: Reading)
    requires op.AccuracyOp?
    ensures Learns(r, Set(r, op), what, Told(op, what))
  {
  }

  lemma ClimbLearns(r: Readings, m: Mask, c: Number, climb: Number, what: Reading)
    requires what == Climb ==> !m.third
    ensures Known(BeforePosition(r, m, c, climb), what) == Known(r, what)
  {
  }

  lemma PlaceLearns(r: Readings, op: Op, what: Reading)
    requires op.PositionOp?
    ensures Learns(r, Place(r, op.fields, op.first, op.second, op.third), what, Told(op, what))
  {
  }

  /** One operation: each reading that it tells is stored as it is told, and every
      other one stays. */
  lemma SetLearns(r: Readings, op: Op, what: Reading)
    requires IsDirect(op, what)
    ensures Learns(r, Set(r, op), what, Told(op, what))
  {
    match op
    case PositionOp(m, a, b, c) =>
      ClimbLearns(r, m, c, ClimbTo(r, c), what);
      PlaceLearns(BeforePosition(r, m, c, ClimbTo(r, c)), op, what);
    case CourseOp(_, _, _, _) => CourseLearns(r, op, what);
    case AccuracyOp(_, _, _, _) => AccuracyLearns(r, op, what);
    case _ =>
  }

  /** The operation at position i tells a reading, and none after it does. */
  predicate LastTold(ops: seq<Op>, what: Reading, i: nat) {
    i < |ops| && Told(ops[i], what).Some? && forall j :: i < j < |ops| ==> Told(ops[j], what).None?
  }

  lemma ApplyLearns(s: State, op: Op, what: Reading)
    requires what != Climb
    ensures Learns(s.readings, Apply(s, op).readings, what, Told(op, what))
  {
    SetLearns(s.readings, op, what);
  }

  lemma LastToldBefore(ops: seq<Op>, what: Reading, i: nat)
    requires LastTold(ops, what, i) && i < |ops| - 1
    ensures LastTold(ops[..|ops| - 1], what, i) && Told(ops[|ops| - 1], what) == None
  {
  }

  /** What was told of a reading last is known. */
  lemma {:induction false} LastIsKnown(ops: seq<Op>, what: Reading, i: nat)
    requires what != Climb && LastTold(ops, what, i)
    ensures Known(Run(INITIAL, ops).readings, what) == Told(ops[i], what)
    decreases |ops|
  {
    var n := |ops| - 1;
    ApplyLearns(Run(INITIAL, ops[..n]), ops[n], what);
    if i < n {
      LastToldBefore(ops, what, i);
      LastIsKnown(ops[..n], what, i);
    }
  }

  lemma {:induction false} UntoldIsUnknown(ops: seq<Op>, what: Reading)
    requires what != Climb && forall i :: 0 <= i < |ops| ==> Told(ops[i], what).None?
    ensures Known(Run(INITIAL, ops).readings, what) == None
    decreases |ops|
  {
    if ops != [] {
      UntoldIsUnknown(ops[..|ops| - 1], what);
      ApplyLearns(Run(INITIAL, ops[..|ops| - 1]), ops[|ops| - 1], what);
    }
  }

  /** After any run of operations each reading but the climb is what was told of it
      last, and unknown exactly if nothing ever was. */
  lemma LatestIsKnown(ops: seq<Op>, what: Reading)
    requires what != Climb
    ensures forall i: nat :: LastTold(ops, what, i) ==> Known(Run(INITIAL, ops).readings, what) == Told(ops[i], what)
    ensures Known(Run(INITIAL, ops).readings, what) == None
            <==> forall i :: 0 <= i < |ops| ==> Told(ops[i], what).None?
  {
    forall i: nat | LastTold(ops, what, i)
      ensures Known(Run(INITIAL, ops).readings, what) == Told(ops[i], what)
    {
      LastIsKnown(ops, what, i);
    }
    if forall i :: 0 <= i < |ops| ==> Told(ops[i], what).None? {
      UntoldIsUnknown(ops, what);
    } else {
      var i := FindLast(ops, what);
    }
  }

  lemma {:induction false} FindLast(ops: seq<Op>, what: Reading) returns (i: nat)
    requires exists j :: 0 <= j < |ops| && Told(ops[j], what).Some?
    ensures LastTold(ops, what, i)
    decreases |ops|
  {
    i := |ops| - 1;
    if Told(ops[i], what).None? {
      i := FindLast(ops[..i], what);
    }
  }

  // -------------------------------------------------------- time of the altitude

  /** The altitude becomes known, or another one. */
  predicate AltitudeMoves(ops: seq<Op>, i: nat)
    requires i < |ops|
  {
    Known(Run(INITIAL, ops[..i + 1]).readings, Altitude) != Known(Run(INITIAL, ops[..i]).readings, Altitude)
  }

  lemma ApplyTimesAltitude(s: State, op: Op)
    ensures var r, r' := s.readings, Apply(s, op).readings;
            r'.lastAltTimestamp == if Known(r', Altitude) != Known(r, Altitude) then r.timestamp else r.lastAltTimestamp
  {
  }

  /** At i the altitude moved, and not again since. */
  predicate MovedLast(ops: seq<Op>, i: nat) {
    i < |ops| && AltitudeMoves(ops, i) && forall j :: i < j < |ops| ==> !AltitudeMoves(ops, j)
  }

  lemma MovesBefore(ops: seq<Op>, i: nat)
    requires i < |ops| - 1
    ensures AltitudeMoves(ops[..|ops| - 1], i) <==> AltitudeMoves(ops, i)
  {
    var init := ops[..|ops| - 1];
    assert init[..i + 1] == ops[..i + 1] && init[..i] == ops[..i];
  }

  lemma RunTimesAltitude(ops: seq<Op>, n: nat)
    requires n == |ops| - 1
    ensures var r, r' := Run(INITIAL, ops[..n]).readings, Run(INITIAL, ops).readings;
            r'.lastAltTimestamp == if AltitudeMoves(ops, n) then r.timestamp else r.lastAltTimestamp
  {
    assert ops[..n + 1] == ops;
    ApplyTimesAltitude(Run(INITIAL, ops[..n]), ops[n]);
  }

  /** The time of the altitude, by which a climb is divided, is after any run the time
      that was stored when the altitude moved last. */
  lemma {:induction false} AltitudeIsTimed(ops: seq<Op>, i: nat)
    requires MovedLast(ops, i)
    ensures Run(INITIAL, ops).readings.lastAltTimestamp == Run(INITIAL, ops[..i]).readings.timestamp
    decreases |ops|
  {
    var n := |ops| - 1;
    RunTimesAltitude(ops, n);
    if i < n {
      MovesBefore(ops, i);
      forall j | i < j < n
        ensures !AltitudeMoves(ops[..n], j)
      {
        MovesBefore(ops, j);
      }
      AltitudeIsTimed(ops[..n], i);
      assert ops[..n][..i] == ops[..i];
    }
  }

  // ------------------------------------------------------------ times of signals

  /** A signal that carries a time carries the one heard last. */
  predicate IsTimely(heard: seq<int>, signal: Signal) {
    && (signal.PositionChanged? ==> EndsIn(heard, signal.at))
    && (signal.CourseChanged? ==> EndsIn(heard, signal.at))
  }

  predicate AllTimely(signals: seq<Signal>) {
    forall i :: 0 <= i < |signals| ==> IsTimely(Listen(signals[..i]).times, signals[i])
  }

  lemma TimelyWith(signals: seq<Signal>, signal: Signal)
    requires AllTimely(signals) && IsTimely(Listen(signals).times, signal)
    ensures AllTimely(signals + [signal])
  {
    var all := signals + [signal];
    forall i | 0 <= i < |all|
      ensures IsTimely(Listen(all[..i]).times, all[i])
    {
      assert all[..i] == if i < |signals| then signals[..i] else signals;
    }
  }

  predicate Punctual(r: Readings) {
    AllTimely(r.signals) && EndsIn(Listen(r.signals).times, r.timestamp)
  }

  lemma EmitPunctual(r: Readings, signal: Signal)
    requires Punctual(r) && IsTimely(Listen(r.signals).times, signal) && !signal.TimeChanged?
    ensures Punctual(Emit(r, signal))
  {
    TimelyWith(r.signals, signal);
    ListenToMore(r.signals, signal);
  }

  lemma CoursePunctual(r: Readings, m: Mask, a: Number, b: Number, c: Number)
    requires Punctual(r)
    ensures Punctual(SetCourse(r, m, a, b, c))
  {
    var course := Merge(r.course, m, a, b, c);
    EmitPunctual(r.(course := course), CourseChanged(course, r.timestamp));
  }

  lemma ClimbPunctual(r: Readings, m: Mask, c: Number, climb: Number)
    requires Punctual(r)
    ensures Punctual(BeforePosition(r, m, c, climb))
  {
    CoursePunctual(r, CLIMB, ZERO, ZERO, climb);
  }

  lemma PlacePunctual(r: Readings, m: Mask, a: Number, b: Number, c: Number)
    requires Punctual(r)
    ensures Punctual(Place(r, m, a, b, c))
  {
    var position := Merge(r.position, m, a, b, c);
    EmitPunctual(r.(position := position), PositionChanged(position, r.timestamp));
  }

  lemma SetPunctual(r: Readings, op: Op)
    requires Punctual(r)
    ensures Punctual(Set(r, op))
  {
    match op
    case TimestampOp(t) =>
      TimelyWith(r.signals, TimeChanged(t));
      ListenToMore(r.signals, TimeChanged(t));
    case FixOp(f, _) => EmitPunctual(r.(fixType := f), FixStatusChanged(f));
    case PositionOp(m, a, b, c) =>
      ClimbPunctual(r, m, c, ClimbTo(r, c));
      PlacePunctual(BeforePosition(r, m, c, ClimbTo(r, c)), m, a, b, c);
    case CourseOp(m, a, b, c) => CoursePunctual(r, m, a, b, c);
    case AccuracyOp(m, a, b, c) =>
      var accuracy := Merge(r.accuracy, m, a, b, c);
      EmitPunctual(r.(accuracy := accuracy), AccuracyChanged(accuracy));
    case _ =>
  }

  lemma ApplyPunctual(s: State, op: Op)
    requires Punctual(s.readings)
    ensures Punctual(Apply(s, op).readings)
  {
    match op
    case CommitOp => EmitPunctual(s.readings, SatellitesChanged(s.staged));
    case AddOp(_) =>
    case ClearOp =>
    case _ => SetPunctual(s.readings, op);
  }

  /** Over any run, the time in each position and course signal is the time that a
      listener has heard last. */
  lemma {:induction false} SignalsAreTimely(ops: seq<Op>)
    ensures Punctual(Run(INITIAL, ops).readings)
    decreases |ops|
  {
    if ops != [] {
      SignalsAreTimely(ops[..|ops| - 1]);
      ApplyPunctual(Run(INITIAL, ops[..|ops| - 1]), ops[|ops| - 1]);
    }
  }
}
