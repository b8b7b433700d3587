/** Runs of client operations: what a listener on the bus can rely on, and what
    the reported climbs add up to. */
module ClientRuns {
  import opened Numbers
  import opened ClientState

  function Run(s: State, ops: seq<Op>): State
    decreases |ops|
  {
    if ops == [] then s else Apply(Run(s, ops[..|ops| - 1]), ops[|ops| - 1])
  }

  // --------------------------------------------------------------- listener

  /** Every payload a listener has received of each kind, after the value that
      holds before anything is set. */
  datatype Listener = Listener(
    positions: seq<Group>,
    courses: seq<Group>,
    accuracies: seq<Group>,
    fixes: seq<int>,
    times: seq<int>,
    lists: seq<seq<Satellite>>)

  const SILENCE := Listener([UNSET], [UNSET], [UNSET], [FIX_INVALID], [0], [[]])

  function Hear(l: Listener, signal: Signal): Listener {
    match signal
    case PositionChanged(g, _) => l.(positions := l.positions + [g])
    case CourseChanged(g, _) => l.(courses := l.courses + [g])
    case AccuracyChanged(g) => l.(accuracies := l.accuracies + [g])
    case FixStatusChanged(f) => l.(fixes := l.fixes + [f])
    case TimeChanged(t) => l.(times := l.times + [t])
    case SatellitesChanged(xs) => l.(lists := l.lists + [xs])
  }

  function Listen(signals: seq<Signal>): Listener
    decreases |signals|
  {
    if signals == [] then SILENCE
    else Hear(Listen(signals[..|signals| - 1]), signals[|signals| - 1])
  }

  lemma ListenToMore(signals: seq<Signal>, signal: Signal)
    ensures Listen(signals + [signal]) == Hear(Listen(signals), signal)
  {
    assert (signals + [signal])[..|signals|] == signals;
  }

  /** The history ends in the current value. */
  predicate EndsIn<T(==)>(h: seq<T>, now: T) {
    h != [] && h[|h| - 1] == now
  }

  /** No payload repeats the one before it. */
  predicate Changing<T(==)>(h: seq<T>) {
    forall i, j :: 0 <= i && j == i + 1 < |h| ==> h[i] != h[j]
  }

  /** Mask bits are never lost. */
  predicate Growing(h: seq<Group>) {
    forall i, j :: 0 <= i && j == i + 1 < |h| ==> Within(h[i].fields, h[j].fields)
  }

  predicate Tracks(h: seq<Group>, now: Group) {
    EndsIn(h, now) && Changing(h) && Growing(h)
  }

  predicate Knows(l: Listener, r: Readings) {
    && Tracks(l.positions, r.position)
    && Tracks(l.courses, r.course)
    && Tracks(l.accuracies, r.accuracy)
    && EndsIn(l.fixes, r.fixType)
    && EndsIn(l.times, r.timestamp) && Changing(l.times)
  }

  predicate KnowsAll(l: Listener, s: State) {
    Knows(l, s.readings) && EndsIn(l.lists, s.published) && Changing(l.lists)
  }

  lemma MergeGrows(h: seq<Group>, g: Group, m: Mask, a: Number, b: Number, c: Number)
    requires Tracks(h, g) && Merge(g, m, a, b, c) != g
    ensures Tracks(h + [Merge(g, m, a, b, c)], Merge(g, m, a, b, c))
  {
    var h' := h + [Merge(g, m, a, b, c)];
    assert forall i :: 0 <= i < |h| ==> h'[i] == h[i];
  }

  lemma CourseHeard(r: Readings, m: Mask, a: Number, b: Number, c: Number)
    requires Knows(Listen(r.signals), r)
    ensures Knows(Listen(SetCourse(r, m, a, b, c).signals), SetCourse(r, m, a, b, c))
  {
    var course := Merge(r.course, m, a, b, c);
    if course != r.course {
      ListenToMore(r.signals, CourseChanged(course, r.timestamp));
      MergeGrows(Listen(r.signals).courses, r.course, m, a, b, c);
    }
  }

  lemma AccuracyHeard(r: Readings, m: Mask, a: Number, b: Number, c: Number)
    requires Knows(Listen(r.signals), r)
    ensures Knows(Listen(SetAccuracy(r, m, a, b, c).signals), SetAccuracy(r, m, a, b, c))
  {
    var accuracy := Merge(r.accuracy, m, a, b, c);
    if accuracy != r.accuracy {
      ListenToMore(r.signals, AccuracyChanged(accuracy));
      MergeGrows(Listen(r.signals).accuracies, r.accuracy, m, a, b, c);
    }
  }

  lemma ReportHeard(r: Readings, climb: Number)
    requires Knows(Listen(r.signals), r)
    ensures Knows(Listen(ReportClimb(r, climb).signals), ReportClimb(r, climb))
  {
    CourseHeard(r, CLIMB, ZERO, ZERO, climb);
  }

  /** The time of the altitude is not heard. */
  lemma AltitudeTimeIsSilent(l: Listener, r: Readings, time: int)
    requires Knows(l, r)
    ensures Knows(l, r.(lastAltTimestamp := time))
  {
  }

  lemma ClimbHeard(r: Readings, m: Mask, c: Number, climb: Number)
    requires Knows(Listen(r.signals), r)
    ensures var r' := BeforePosition(r, m, c, climb); Knows(Listen(r'.signals), r')
  {
    if AltitudeMoves(r, m, c) {
      if r.position.fields.third {
        ReportHeard(r, climb);
        AltitudeTimeIsSilent(Listen(ReportClimb(r, climb).signals), ReportClimb(r, climb), r.timestamp);
      } else {
        AltitudeTimeIsSilent(Listen(r.signals), r, r.timestamp);
      }
    }
  }

  lemma PlaceHeard(r: Readings, m: Mask, a: Number, b: Number, c: Number)
    requires Knows(Listen(r.signals), r)
    ensures Knows(Listen(Place(r, m, a, b, c).signals), Place(r, m, a, b, c))
  {
    var position := Merge(r.position, m, a, b, c);
    if position != r.position {
      ListenToMore(r.signals, PositionChanged(position, r.timestamp));
      MergeGrows(Listen(r.signals).positions, r.position, m, a, b, c);
    }
  }

  lemma TimeHeard(r: Readings, t: int)
    requires Knows(Listen(r.signals), r)
    ensures Knows(Listen(SetTimestamp(r, t).signals), SetTimestamp(r, t))
  {
    ListenToMore(r.signals, TimeChanged(t));
  }

  lemma FixHeard(r: Readings, fix: int, weak: bool)
    requires Knows(Listen(r.signals), r)
    ensures Knows(Listen(SetFixType(r, fix, weak).signals), SetFixType(r, fix, weak))
  {
    ListenToMore(r.signals, FixStatusChanged(fix));
  }

  lemma SetHeard(r: Readings, op: Op)
    requires Knows(Listen(r.signals), r)
    ensures Knows(Listen(Set(r, op).signals), Set(r, op))
  {
    match op
    case TimestampOp(t) => TimeHeard(r, t);
    case FixOp(f, w) => FixHeard(r, f, w);
    case PositionOp(m, a, b, c) =>
      ClimbHeard(r, m, c, ClimbTo(r, c));
      PlaceHeard(BeforePosition(r, m, c, ClimbTo(r, c)), m, a, b, c);
    case CourseOp(m, a, b, c) => CourseHeard(r, m, a, b, c);
    case AccuracyOp(m, a, b, c) => AccuracyHeard(r, m, a, b, c);
    case _ =>
  }

  /** What is heard of satellites and fixes. */
  predicate SameListsAndFixes(signals: seq<Signal>, signals': seq<Signal>) {
    && Listen(signals').lists == Listen(signals).lists
    && Listen(signals').fixes == Listen(signals).fixes
  }

  lemma CourseIsAside(r: Readings, m: Mask, a: Number, b: Number, c: Number)
    ensures SameListsAndFixes(r.signals, SetCourse(r, m, a, b, c).signals)
    ensures SetCourse(r, m, a, b, c).fixType == r.fixType
  {
    ListenToMore(r.signals, CourseChanged(Merge(r.course, m, a, b, c), r.timestamp));
  }

  lemma AccuracyIsAside(r: Readings, m: Mask, a: Number, b: Number, c: Number)
    ensures SameListsAndFixes(r.signals, SetAccuracy(r, m, a, b, c).signals)
    ensures SetAccuracy(r, m, a, b, c).fixType == r.fixType
  {
    ListenToMore(r.signals, AccuracyChanged(Merge(r.accuracy, m, a, b, c)));
  }

  lemma ClimbIsAside(r: Readings, m: Mask, c: Number, climb: Number)
    ensures SameListsAndFixes(r.signals, BeforePosition(r, m, c, climb).signals)
    ensures BeforePosition(r, m, c, climb).fixType == r.fixType
  {
    CourseIsAside(r, CLIMB, ZERO, ZERO, climb);
  }

  lemma PlaceIsAside(r: Readings, m: Mask, a: Number, b: Number, c: Number)
    ensures SameListsAndFixes(r.signals, Place(r, m, a, b, c).signals)
    ensures Place(r, m, a, b, c).fixType == r.fixType
  {
    ListenToMore(r.signals, PositionChanged(Merge(r.position, m, a, b, c), r.timestamp));
  }

  /** Reports of other things are not heard as satellites or fixes. */
  lemma SetIsAside(r: Readings, op: Op)
    requires !op.FixOp?
    ensures SameListsAndFixes(r.signals, Set(r, op).signals)
    ensures Set(r, op).fixType == r.fixType
  {
    match op
    case TimestampOp(t) => ListenToMore(r.signals, TimeChanged(t));
    case PositionOp(m, a, b, c) =>
      ClimbIsAside(r, m, c, ClimbTo(r, c));
      PlaceIsAside(BeforePosition(r, m, c, ClimbTo(r, c)), m, a, b, c);
    case CourseOp(m, a, b, c) => CourseIsAside(r, m, a, b, c);
    case AccuracyOp(m, a, b, c) => AccuracyIsAside(r, m, a, b, c);
    case _ =>
  }

  /** The setters emit no satellite lists. */
  lemma SetKeepsLists(r: Readings, op: Op)
    ensures Listen(Set(r, op).signals).lists == Listen(r.signals).lists
  {
    if op.FixOp? {
      ListenToMore(r.signals, FixStatusChanged(op.fix));
    } else {
      SetIsAside(r, op);
    }
  }

  lemma CommitHeard(s: State)
    requires KnowsAll(Listen(s.readings.signals), s)
    ensures KnowsAll(Listen(Apply(s, CommitOp).readings.signals), Apply(s, CommitOp))
  {
    ListenToMore(s.readings.signals, SatellitesChanged(s.staged));
  }

  lemma ApplyHeard(s: State, op: Op)
    requires KnowsAll(Listen(s.readings.signals), s)
    ensures KnowsAll(Listen(Apply(s, op).readings.signals), Apply(s, op))
  {
    match op
    case AddOp(_) =>
    case ClearOp =>
    case CommitOp => CommitHeard(s);
    case _ =>
      SetHeard(s.readings, op);
      SetKeepsLists(s.readings, op);
  }

  /** Signal replay.  After any run of operations a listener that keeps the last
      payload of each kind has the current masks, values and satellite list;
      payloads of one kind but fix status never repeat, and mask bits are never
      lost. */
  lemma {:induction false} SignalReplay(ops: seq<Op>)
    ensures KnowsAll(Listen(Run(INITIAL, ops).readings.signals), Run(INITIAL, ops))
    decreases |ops|
  {
    if ops != [] {
      SignalReplay(ops[..|ops| - 1]);
      ApplyHeard(Run(INITIAL, ops[..|ops| - 1]), ops[|ops| - 1]);
    }
  }

  // -------------------------------------------------------------- fix status

  /** A fix signal fires exactly on a change of the stored type, but for one
      call: a weak report of a 3D fix while it is 3D. */
  lemma FixSignal(r: Readings, fix: int, weak: bool)
    ensures var r' := SetFixType(r, fix, weak);
            && (r'.signals != r.signals <==> r'.fixType != r.fixType || (weak && fix == FIX_3D && r.fixType == FIX_3D))
            && (r'.signals != r.signals ==> r'.signals == r.signals + [FixStatusChanged(r'.fixType)])
  {
    var more := r.signals + [FixStatusChanged(fix)];
    assert |more| != |r.signals|;
  }

  /** Somewhere in the run a weak report of a 3D fix comes while it is 3D. */
  predicate RepeatsFix(ops: seq<Op>)
    decreases |ops|
  {
    ops != [] &&
    var init := ops[..|ops| - 1];
    RepeatsFix(init) || (ops[|ops| - 1] == FixOp(FIX_3D, true) && Run(INITIAL, init).readings.fixType == FIX_3D)
  }

  lemma ChangingWith(h: seq<int>, x: int)
    requires h != []
    ensures Changing(h + [x]) <==> Changing(h) && h[|h| - 1] != x
  {
    var h' := h + [x];
    assert forall i :: 0 <= i < |h| ==> h'[i] == h[i];
    if Changing(h') {
      assert h'[|h| - 1] != h'[|h|];
      forall i, j | 0 <= i && j == i + 1 < |h|
        ensures h[i] != h[j]
      {
        assert h'[i] != h'[j];
      }
    }
  }

  lemma FixHistory(s: State, op: Op)
    ensures var h, h' := Listen(s.readings.signals).fixes, Listen(Apply(s, op).readings.signals).fixes;
            if op.FixOp? && (if op.weak && s.readings.fixType == FIX_3D then FIX_2D else s.readings.fixType) != op.fix
            then h' == h + [op.fix] else h' == h
  {
    match op
    case FixOp(fix, _) => ListenToMore(s.readings.signals, FixStatusChanged(fix));
    case CommitOp => ListenToMore(s.readings.signals, SatellitesChanged(s.staged));
    case AddOp(_) =>
    case ClearOp =>
    case _ => SetIsAside(s.readings, op);
  }

  /** Fix signals repeat, over any run, if and only if there is such a report. */
  lemma {:induction false} FixesRepeatExactly(ops: seq<Op>)
    ensures Changing(Listen(Run(INITIAL, ops).readings.signals).fixes) <==> !RepeatsFix(ops)
    decreases |ops|
  {
    if ops != [] {
      var init, op := ops[..|ops| - 1], ops[|ops| - 1];
      var s := Run(INITIAL, init);
      FixesRepeatExactly(init);
      SignalReplay(init);
      FixHistory(s, op);
      if op.FixOp? {
        ChangingWith(Listen(s.readings.signals).fixes, op.fix);
      }
    }
  }

  // ------------------------------------------------------------------- climb

  /** A change of an altitude that was known before. */
  predicate AltitudeChange(r: Readings, op: Op) {
    op.PositionOp? && AltitudeMoves(r, op.fields, op.third) && r.position.fields.third
  }

  /** The altitude that the reported climb accounts for over one operation. */
  function Climbed(r: Readings, op: Op): real {
    var r' := Set(r, op);
    if AltitudeChange(r, op) && 0 < r.lastAltTimestamp && r'.course.third.Finite?
    then r'.course.third.value * (r'.lastAltTimestamp - r.lastAltTimestamp) as real
    else 0.0
  }

  function RunSet(r: Readings, ops: seq<Op>): Readings
    decreases |ops|
  {
    if ops == [] then r else RunSet(Set(r, ops[0]), ops[1..])
  }

  function TotalClimb(r: Readings, ops: seq<Op>): real
    decreases |ops|
  {
    if ops == [] then 0.0 else Climbed(r, ops[0]) + TotalClimb(Set(r, ops[0]), ops[1..])
  }

  /** Altitudes change from finite to finite ones. */
  predicate ChangesFinite(r: Readings, ops: seq<Op>)
    decreases |ops|
  {
    ops != [] ==> (AltitudeChange(r, ops[0]) ==> ops[0].third.Finite?) && ChangesFinite(Set(r, ops[0]), ops[1..])
  }

  /** The time since the altitude before is known and not zero. */
  predicate IsTimed(r: Readings) {
    0 < r.lastAltTimestamp && r.timestamp != r.lastAltTimestamp
  }

  /** What changes of altitude add up to that come without such a time. */
  function Missed(r: Readings, ops: seq<Op>): real
    decreases |ops|
  {
    if ops == [] then 0.0
    else
      (if AltitudeChange(r, ops[0]) && !IsTimed(r) && ops[0].third.Finite? && r.position.third.Finite?
       then ops[0].third.value - r.position.third.value else 0.0)
      + Missed(Set(r, ops[0]), ops[1..])
  }

  lemma SetKeepsAltitude(r: Readings, op: Op)
    requires r.position.fields.third && !AltitudeChange(r, op)
    ensures Set(r, op).position.fields.third && Set(r, op).position.third == r.position.third
  {
  }

  /** One change of altitude: the climb reported is finite, and accounts for the
      change, if and only if it is timed; with no time for the altitude before no
      climb is reported at all, and within the same second it is infinite. */
  lemma ClimbOfChange(r: Readings, op: Op)
    requires AltitudeChange(r, op) && r.position.third.Finite? && op.third.Finite?
    ensures var r' := Set(r, op);
            && r'.position.fields.third && r'.position.third == op.third
            && (IsTimed(r) <==> Climbed(r, op) == op.third.value - r.position.third.value)
            && (!IsTimed(r) ==> Climbed(r, op) == 0.0)
            && (0 < r.lastAltTimestamp ==> (r'.course.third.Finite? <==> IsTimed(r)))
            && (r.lastAltTimestamp <= 0 ==> r'.course == r.course)
  {
    if IsTimed(r) {
      QuotientMultiplies(op.third, r.position.third, r.timestamp - r.lastAltTimestamp);
    }
  }

  predicate Above(a: Number, b: Number) {
    match a
    case PlusInfinity => !b.PlusInfinity?
    case Finite(x) => b.MinusInfinity? || (b.Finite? && x > b.value)
    case MinusInfinity => false
  }

  /** Any climb that is reported: it is finite if and only if both altitudes are and
      there is time between them, and it is upwards if and only if the altitude has
      risen in time that has not gone back. */
  lemma ClimbHasSign(r: Readings, op: Op)
    requires AltitudeChange(r, op) && 0 < r.lastAltTimestamp
    ensures var from, climb := r.position.third, Set(r, op).course.third;
            && (climb.Finite? <==> from.Finite? && op.third.Finite? && IsTimed(r))
            && (Above(climb, ZERO) <==> (Above(op.third, from) <==> r.lastAltTimestamp <= r.timestamp))
  {
    if IsTimed(r) && r.position.third.Finite? && op.third.Finite? {
      var d, dt := op.third.value - r.position.third.value, r.timestamp - r.lastAltTimestamp;
      assert Set(r, op).course.third == Finite(d / dt as real);
      SignOfQuotient(d, dt);
    }
  }

  lemma SignOfQuotient(d: real, dt: int)
    requires d != 0.0 && dt != 0
    ensures d / dt as real > 0.0 <==> (d > 0.0 <==> dt > 0)
  {
    assert d / dt as real * dt as real == d;
  }

  /** Climb conserves altitude but for what is missed: climb times elapsed time,
      summed over any run, is the final altitude minus the first and minus the
      changes that come without a time, so it is the difference if and only if
      those add up to nothing. */
  lemma {:induction false} ClimbConservesAltitude(r: Readings, ops: seq<Op>)
    requires r.position.fields.third && r.position.third.Finite? && ChangesFinite(r, ops)
    ensures RunSet(r, ops).position.third.Finite?
    ensures TotalClimb(r, ops) + Missed(r, ops) == RunSet(r, ops).position.third.value - r.position.third.value
    decreases |ops|
  {
    if ops != [] {
      if AltitudeChange(r, ops[0]) {
        ClimbOfChange(r, ops[0]);
      } else {
        SetKeepsAltitude(r, ops[0]);
      }
      ClimbConservesAltitude(Set(r, ops[0]), ops[1..]);
    }
  }

  /** Changes that all come at new positive times miss nothing. */
  predicate AllTimed(r: Readings, ops: seq<Op>)
    decreases |ops|
  {
    ops != [] ==> (AltitudeChange(r, ops[0]) ==> IsTimed(r)) && AllTimed(Set(r, ops[0]), ops[1..])
  }

  lemma {:induction false} TimedMissesNothing(r: Readings, ops: seq<Op>)
    requires AllTimed(r, ops)
    ensures Missed(r, ops) == 0.0
    decreases |ops|
  {
    if ops != [] {
      TimedMissesNothing(Set(r, ops[0]), ops[1..]);
    }
  }
}
