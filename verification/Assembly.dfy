/** The assembly of satellite lists from numbered messages (section 6.3 of
    NMEA 0183 version 3.01), and the theorem about whole runs: what is published
    is always one complete group of messages, and every complete group is
    published. */
module Assembly {
  import opened ClientState

  /** One satellite of a message. */
  datatype Row = Row(id: int, elevation: int, azimuth: int, snr: int)

  /** A sentence as far as satellites go: message number k of a group that was
      declared to have so many, the ids used for the fix, or something else. */
  datatype Item = Message(number: int, declared: int, rows: seq<Row>) | Used(ids: seq<int>) | Other

  type Run = seq<Item>

  /** The rows as satellites, each marked when its id is used. */
  function Mark(rows: seq<Row>, inUse: seq<int>): (sats: seq<Satellite>)
    ensures |sats| == |rows|
  {
    if rows == [] then [] else [MarkRow(rows[0], inUse)] + Mark(rows[1..], inUse)
  }

  function MarkRow(row: Row, inUse: seq<int>): Satellite {
    Satellite(row.id, row.id in inUse, row.elevation, row.azimuth, row.snr)
  }

  /** A satellite is that of a row: its numbers are the row's, and it is marked if and
      only if the row's id is used. */
  predicate IsOf(x: Satellite, row: Row, used: bool) {
    && x.id == row.id && x.elevation == row.elevation && x.azimuth == row.azimuth && x.snr == row.snr
    && (x.inUse <==> used)
  }

  /** What marking means: row by row a satellite of the same numbers, marked exactly
      when its id is one of those in use. */
  lemma {:induction false} MarksExactly(rows: seq<Row>, inUse: seq<int>, i: nat)
    requires i < |rows|
    ensures IsOf(Mark(rows, inUse)[i], rows[i], exists j :: 0 <= j < |inUse| && inUse[j] == rows[i].id)
    decreases |rows|
  {
    if i > 0 {
      MarksExactly(rows[1..], inUse, i - 1);
    }
  }

  lemma AllMarked(rows: seq<Row>, inUse: seq<int>)
    ensures forall i :: 0 <= i < |rows| ==> IsOf(Mark(rows, inUse)[i], rows[i], rows[i].id in inUse)
  {
    forall i | 0 <= i < |rows|
      ensures IsOf(Mark(rows, inUse)[i], rows[i], rows[i].id in inUse)
    {
      MarksExactly(rows, inUse, i);
    }
  }

  lemma MarkCons(row: Row, rows: seq<Row>, inUse: seq<int>)
    ensures Mark([row] + rows, inUse) == [MarkRow(row, inUse)] + Mark(rows, inUse)
  {
    assert ([row] + rows)[1..] == rows;
  }

  /** The part of the parser and the client that satellites pass through. */
  datatype Stage = Stage(inUse: seq<int>, numberOfMessages: int, messageCount: int,
                         staged: seq<Satellite>, published: seq<Satellite>)

  const EMPTY := Stage([], 0, 0, [], [])

  predicate Accepts(s: Stage, m: Item)
    requires m.Message?
  {
    m.number == s.messageCount + 1 || m.number == 1
  }

  /** What an accepted message leaves staged before it is added. */
  function KeptBy(s: Stage, m: Item): seq<Satellite>
    requires m.Message?
  {
    if m.number == s.messageCount + 1 then s.staged else []
  }

  /** What is staged once the message has been added, before any publication. */
  function StagedWith(s: Stage, m: Item): seq<Satellite>
    requires m.Message?
  {
    KeptBy(s, m) + Mark(m.rows, s.inUse)
  }

  function TotalWith(s: Stage, m: Item): int
    requires m.Message?
  {
    if m.number == 1 then m.declared else s.numberOfMessages
  }

  function Receive(s: Stage, item: Item): Stage {
    match item
    case Other => s
    case Used(ids) => s.(inUse := ids)
    case Message(number, _, _) =>
      if !Accepts(s, item) then s.(numberOfMessages := 0, messageCount := 0, staged := [])
      else if number == TotalWith(s, item) then
        s.(numberOfMessages := number, messageCount := 0, staged := [], published := StagedWith(s, item))
      else
        s.(numberOfMessages := TotalWith(s, item), messageCount := number, staged := StagedWith(s, item))
  }

  function ReceiveAll(run: Run): Stage
    decreases |run|
  {
    if run == [] then EMPTY else Receive(ReceiveAll(Init(run)), Last(run))
  }

  function Init(run: Run): Run
    requires run != []
  {
    run[..|run| - 1]
  }

  function Last(run: Run): Item
    requires run != []
  {
    run[|run| - 1]
  }

  // ----------------------------------------------- the reference description

  /** Every group that is begun declares 1 to 8 messages of at most 4 rows. */
  predicate WellDeclared(run: Run) {
    forall i :: 0 <= i < |run| && run[i].Message? ==>
                  |run[i].rows| <= 4 && (run[i].number == 1 ==> 1 <= run[i].declared <= 8)
  }

  /** The latest list of used ids, [] before the first. */
  function LatestUsed(run: Run): seq<int>
    decreases |run|
  {
    if run == [] then []
    else if Last(run).Used? then Last(run).ids
    else LatestUsed(Init(run))
  }

  /** The satellites of the message at position i, marked by the latest list of
      used ids before it. */
  function Listed(run: Run, i: nat): seq<Satellite>
    requires i < |run| && run[i].Message?
  {
    Mark(run[i].rows, LatestUsed(run[..i]))
  }

  /** No message lies at the positions from a up to b. */
  predicate Quiet(run: Run, a: nat, b: nat) {
    forall i :: a <= i < b && i < |run| ==> !run[i].Message?
  }

  /** idx are the positions of messages 1, 2, ... that follow one another. */
  predicate IsGroup(run: Run, idx: seq<nat>) {
    && (forall k :: 0 <= k < |idx| ==> idx[k] < |run| && run[idx[k]].Message? && run[idx[k]].number == k + 1)
    && (forall k, m :: 0 <= k && m == k + 1 < |idx| ==> idx[k] < idx[m] && Quiet(run, idx[k] + 1, idx[m]))
  }

  function Listing(run: Run, idx: seq<nat>): seq<Satellite>
    requires IsGroup(run, idx)
    decreases |idx|
  {
    if idx == [] then []
    else Listing(run, idx[..|idx| - 1]) + Listed(run, idx[|idx| - 1])
  }

  /** A group with all the messages it declares, the last being the last event. */
  predicate Complete(run: Run, idx: seq<nat>) {
    && idx != [] && IsGroup(run, idx)
    && idx[|idx| - 1] == |run| - 1
    && run[idx[0]].declared == |idx|
  }

  // ------------------------------------------------------------ the open group

  /** A group that is not complete, with no message after it. */
  predicate IsOpen(run: Run, idx: seq<nat>) {
    && IsGroup(run, idx)
    && (idx != [] ==> |idx| < run[idx[0]].declared && Quiet(run, idx[|idx| - 1] + 1, |run|))
  }

  /** The stage is in the middle of the group idx and of nothing else. */
  predicate InGroup(s: Stage, run: Run, idx: seq<nat>) {
    && IsOpen(run, idx)
    && s.messageCount == |idx|
    && s.staged == Listing(run, idx)
    && (idx != [] ==> s.numberOfMessages == run[idx[0]].declared)
  }

  /** What holds of a prefix of the run still holds in the whole run. */
  lemma {:induction false} GroupExtends(run: Run, more: Run, idx: seq<nat>)
    requires IsGroup(run, idx) && run <= more
    ensures IsGroup(more, idx)
    ensures Listing(more, idx) == Listing(run, idx)
    decreases |idx|
  {
    if idx != [] {
      GroupExtends(run, more, idx[..|idx| - 1]);
      var i := idx[|idx| - 1];
      assert more[..i] == run[..i];
    }
  }

  lemma GroupGrows(run: Run, idx: seq<nat>, n: nat)
    requires IsGroup(run, idx) && n < |run| && run[n].Message? && run[n].number == |idx| + 1
    requires idx != [] ==> idx[|idx| - 1] < n && Quiet(run, idx[|idx| - 1] + 1, n)
    ensures IsGroup(run, idx + [n])
    ensures Listing(run, idx + [n]) == Listing(run, idx) + Listed(run, n)
  {
    GroupWith(run, idx, n);
    assert (idx + [n])[..|idx|] == idx;
  }

  lemma GroupWith(run: Run, idx: seq<nat>, n: nat)
    requires IsGroup(run, idx) && n < |run| && run[n].Message? && run[n].number == |idx| + 1
    requires idx != [] ==> idx[|idx| - 1] < n && Quiet(run, idx[|idx| - 1] + 1, n)
    ensures IsGroup(run, idx + [n])
  {
    var g := idx + [n];
    forall k, m | 0 <= k && m == k + 1 < |g|
      ensures g[k] < g[m] && Quiet(run, g[k] + 1, g[m])
    {
      assert g[k] == idx[k] && (m < |idx| ==> g[m] == idx[m]);
    }
  }

  lemma {:induction false} UsedIsLatest(run: Run)
    ensures ReceiveAll(run).inUse == LatestUsed(run)
    decreases |run|
  {
    if run != [] {
      UsedIsLatest(Init(run));
    }
  }

  /** The positions staged before the message at the end that it continues. */
  function Continued(idx: seq<nat>, number: int): seq<nat> {
    if number == |idx| + 1 then idx else []
  }

  lemma ContinuedStage(s: Stage, run: Run, idx: seq<nat>, m: Item)
    requires InGroup(s, run, idx) && m.Message? && Accepts(s, m)
    ensures var start := Continued(idx, m.number);
            && IsGroup(run, start) && m.number == |start| + 1 && Listing(run, start) == KeptBy(s, m)
            && (start != [] ==> TotalWith(s, m) == run[start[0]].declared)
  {
  }

  /** An accepted message completes or continues a group. */
  lemma Advance(s: Stage, run: Run, idx: seq<nat>) returns (g: seq<nat>)
    requires run != [] && Last(run).Message? && InGroup(s, Init(run), idx)
    requires s.inUse == LatestUsed(Init(run)) && Accepts(s, Last(run))
    ensures g != [] && IsGroup(run, g) && g[|g| - 1] == |run| - 1 && |g| == Last(run).number
    ensures Listing(run, g) == StagedWith(s, Last(run))
    ensures run[g[0]].declared == TotalWith(s, Last(run))
  {
    var start := Continued(idx, Last(run).number);
    ContinuedStage(s, Init(run), idx, Last(run));
    GroupExtends(Init(run), run, start);
    GroupGrows(run, start, |run| - 1);
    g := start + [|run| - 1];
  }

  lemma OpenStays(run: Run, idx: seq<nat>)
    requires run != [] && IsOpen(Init(run), idx) && !Last(run).Message?
    ensures IsOpen(run, idx)
    ensures Listing(run, idx) == Listing(Init(run), idx)
  {
    GroupExtends(Init(run), run, idx);
  }

  lemma InitDeclared(run: Run)
    requires run != [] && WellDeclared(run)
    ensures WellDeclared(Init(run))
  {
    assert forall i :: 0 <= i < |run| - 1 ==> Init(run)[i] == run[i];
  }

  lemma BetweenGroups(s: Stage, run: Run)
    requires s.messageCount == 0 && s.staged == []
    ensures InGroup(s, run, [])
  {
  }

  lemma GroupDeclared(run: Run, g: seq<nat>)
    requires WellDeclared(run) && g != [] && IsGroup(run, g)
    ensures 1 <= run[g[0]].declared <= 8
  {
    assert run[g[0]].number == 1;
  }

  /** An accepted message that is not the last of its group leaves it open. */
  lemma GroupStaysOpen(s: Stage, run: Run, idx: seq<nat>) returns (g: seq<nat>)
    requires run != [] && Last(run).Message? && InGroup(s, Init(run), idx) && s.inUse == LatestUsed(Init(run))
    requires WellDeclared(run) && Accepts(s, Last(run)) && Last(run).number != TotalWith(s, Last(run))
    ensures IsOpen(run, g) && g != [] && |g| <= 7 && |g| == Last(run).number
    ensures Listing(run, g) == StagedWith(s, Last(run)) && run[g[0]].declared == TotalWith(s, Last(run))
  {
    g := Advance(s, run, idx);
    GroupDeclared(run, g);
  }

  lemma TrackMessage(s: Stage, run: Run, idx: seq<nat>) returns (g: seq<nat>)
    requires run != [] && Last(run).Message? && InGroup(s, Init(run), idx)
    requires s.inUse == LatestUsed(Init(run)) && WellDeclared(run)
    ensures InGroup(Receive(s, Last(run)), run, g)
    ensures |g| <= 7
  {
    if Accepts(s, Last(run)) && Last(run).number != TotalWith(s, Last(run)) {
      g := GroupStaysOpen(s, run, idx);
    } else {
      g := [];
      BetweenGroups(Receive(s, Last(run)), run);
    }
  }

  /** At every moment of a run the stage is in the middle of one group. */
  lemma {:induction false} Tracking(run: Run) returns (idx: seq<nat>)
    requires WellDeclared(run)
    ensures InGroup(ReceiveAll(run), run, idx)
    ensures |idx| <= 7
    decreases |run|
  {
    if run == [] {
      idx := [];
    } else {
      InitDeclared(run);
      idx := Tracking(Init(run));
      UsedIsLatest(Init(run));
      if Last(run).Message? {
        idx := TrackMessage(ReceiveAll(Init(run)), run, idx);
      } else {
        OpenStays(run, idx);
      }
    }
  }

  lemma {:induction false} ListingBounded(run: Run, idx: seq<nat>)
    requires WellDeclared(run) && IsGroup(run, idx)
    ensures |Listing(run, idx)| <= 4 * |idx|
    decreases |idx|
  {
    if idx != [] {
      ListingBounded(run, idx[..|idx| - 1]);
    }
  }

  /** Room for what a message adds, at the moment it has added all its rows. */
  predicate HasRoom(s: Stage, item: Item) {
    item.Message? && Accepts(s, item) ==> |StagedWith(s, item)| <= 32
  }

  /** The staging invariant: nothing is staged between groups, the count stays
      below the number of messages, at most four satellites are staged per
      message, and the next message never finds the array full. */
  lemma StagingInvariant(run: Run, next: Item)
    requires WellDeclared(run + [next])
    ensures var s := ReceiveAll(run);
            && (s.messageCount == 0 ==> s.staged == [])
            && 0 <= s.messageCount && (s.messageCount == 0 || s.messageCount < s.numberOfMessages)
            && |s.staged| <= 4 * s.messageCount
            && HasRoom(s, next)
  {
    assert Init(run + [next]) == run;
    InitDeclared(run + [next]);
    var idx := Tracking(run);
    ListingBounded(run, idx);
    assert (run + [next])[|run|] == next;
  }

  lemma GroupInit(run: Run, idx: seq<nat>)
    requires run != [] && IsGroup(run, idx)
    requires idx != [] ==> idx[|idx| - 1] < |run| - 1
    ensures IsGroup(Init(run), idx)
    decreases |idx|
  {
    if idx != [] {
      GroupInit(run, idx[..|idx| - 1]);
    }
  }

  /** The open part of a group is what the stage holds. */
  lemma {:induction false} OpenIsStaged(run: Run, idx: seq<nat>)
    requires WellDeclared(run) && idx != [] && IsOpen(run, idx)
    ensures InGroup(ReceiveAll(run), run, idx)
    decreases |run|, 1
  {
    var n := |run| - 1;
    InitDeclared(run);
    UsedIsLatest(Init(run));
    if Last(run).Message? {
      assert idx[|idx| - 1] == n;
      var before := idx[..|idx| - 1];
      StageBefore(run, idx);
      assert idx == before + [n];
    } else {
      GroupInit(run, idx);
      assert IsOpen(Init(run), idx);
      OpenIsStaged(Init(run), idx);
      OpenStays(run, idx);
    }
  }

  /** Message 1 begins with nothing staged. */
  lemma NothingKept(run: Run)
    requires run != [] && WellDeclared(run) && Last(run).Message? && Last(run).number == 1
    ensures KeptBy(ReceiveAll(Init(run)), Last(run)) == []
  {
    InitDeclared(run);
    var open := Tracking(Init(run));
    assert |open| == 0 ==> Listing(Init(run), open) == [];
  }

  lemma StageBeforeFirst(run: Run)
    requires run != [] && WellDeclared(run) && Last(run).Message? && Last(run).number == 1
    ensures IsGroup(run, [|run| - 1])
    ensures StagedWith(ReceiveAll(Init(run)), Last(run)) == Listing(run, [|run| - 1])
  {
    NothingKept(run);
    UsedIsLatest(Init(run));
    GroupGrows(run, [], |run| - 1);
    assert [] + [|run| - 1] == [|run| - 1];
  }

  lemma StageBeforeNext(run: Run, before: seq<nat>)
    requires run != [] && WellDeclared(run) && before != [] && InGroup(ReceiveAll(Init(run)), Init(run), before)
    requires Last(run).Message? && Last(run).number == |before| + 1
    ensures IsGroup(run, before + [|run| - 1])
    ensures StagedWith(ReceiveAll(Init(run)), Last(run)) == Listing(run, before + [|run| - 1])
    ensures TotalWith(ReceiveAll(Init(run)), Last(run)) == run[before[0]].declared
  {
    UsedIsLatest(Init(run));
    GroupExtends(Init(run), run, before);
    GroupGrows(run, before, |run| - 1);
  }

  lemma OpenBefore(run: Run, idx: seq<nat>)
    requires WellDeclared(run) && |idx| > 1 && IsGroup(run, idx) && idx[|idx| - 1] == |run| - 1
    requires |idx| <= run[idx[0]].declared
    ensures WellDeclared(Init(run)) && IsOpen(Init(run), idx[..|idx| - 1])
  {
    InitDeclared(run);
    GroupInit(run, idx[..|idx| - 1]);
  }

  /** The stage that a group's last message meets. */
  lemma {:induction false} StageBefore(run: Run, idx: seq<nat>)
    requires WellDeclared(run) && idx != [] && IsGroup(run, idx) && idx[|idx| - 1] == |run| - 1
    requires |idx| <= run[idx[0]].declared
    ensures var s := ReceiveAll(Init(run));
            && Accepts(s, Last(run))
            && StagedWith(s, Last(run)) == Listing(run, idx)
            && TotalWith(s, Last(run)) == run[idx[0]].declared
    decreases |run|, 0
  {
    var before := idx[..|idx| - 1];
    assert idx == before + [|run| - 1];
    if before == [] {
      StageBeforeFirst(run);
    } else {
      OpenBefore(run, idx);
      OpenIsStaged(Init(run), before);
      StageBeforeNext(run, before);
    }
  }

  // ------------------------------------------------------- what is published

  /** At u ids were listed as used, and no others were before n. */
  predicate UsedLast(run: Run, u: nat, n: nat) {
    u < n <= |run| && run[u].Used? && forall i :: u < i < n ==> !run[i].Used?
  }

  /** An id is among those listed as used last before n. */
  predicate InUseAt(run: Run, n: nat, id: int) {
    exists u :: 0 <= u < n && UsedLast(run, u, n) && id in run[u].ids
  }

  lemma {:induction false} LatestIsLast(run: Run, n: nat, u: nat)
    requires UsedLast(run, u, n)
    ensures LatestUsed(run[..n]) == run[u].ids
    decreases n
  {
    assert Init(run[..n]) == run[..n - 1];
    if u < n - 1 {
      LatestIsLast(run, n - 1, u);
    }
  }

  lemma {:induction false} LatestWasListed(run: Run, n: nat)
    requires n <= |run| && LatestUsed(run[..n]) != []
    ensures exists u :: 0 <= u < n && UsedLast(run, u, n)
    decreases n
  {
    assert Init(run[..n]) == run[..n - 1];
    if run[n - 1].Used? {
      assert UsedLast(run, n - 1, n);
    } else {
      LatestWasListed(run, n - 1);
      var u :| 0 <= u < n - 1 && UsedLast(run, u, n - 1);
      assert UsedLast(run, u, n);
    }
  }

  lemma LatestDecides(run: Run, n: nat, id: int)
    requires n <= |run|
    ensures id in LatestUsed(run[..n]) <==> InUseAt(run, n, id)
  {
    if id in LatestUsed(run[..n]) {
      LatestWasListed(run, n);
      var u :| 0 <= u < n && UsedLast(run, u, n);
      LatestIsLast(run, n, u);
    }
    if InUseAt(run, n, id) {
      var u :| 0 <= u < n && UsedLast(run, u, n) && id in run[u].ids;
      LatestIsLast(run, n, u);
    }
  }

  /** The rows of the first k messages of a group. */
  function RowsBefore(run: Run, idx: seq<nat>, k: nat): nat
    requires IsGroup(run, idx) && k <= |idx|
  {
    if k == 0 then 0 else RowsBefore(run, idx, k - 1) + |run[idx[k - 1]].rows|
  }

  /** A list shows a group: its satellites are the rows of the messages in order,
      each marked if and only if its id is among those listed as used last before the
      message. */
  predicate Shows(run: Run, idx: seq<nat>, list: seq<Satellite>)
    requires IsGroup(run, idx)
  {
    && |list| == RowsBefore(run, idx, |idx|)
    && forall k, j :: 0 <= k < |idx| && 0 <= j < |run[idx[k]].rows| ==> ShowsRow(run, idx, list, k, j)
  }

  predicate ShowsRow(run: Run, idx: seq<nat>, list: seq<Satellite>, k: nat, j: nat)
    requires IsGroup(run, idx) && k < |idx| && j < |run[idx[k]].rows|
  {
    var row := run[idx[k]].rows[j];
    var i := RowsBefore(run, idx, k) + j;
    i < |list| && IsOf(list[i], row, InUseAt(run, idx[k], row.id))
  }

  lemma {:induction false} RowsBeforeInit(run: Run, idx: seq<nat>, k: nat)
    requires IsGroup(run, idx) && k < |idx|
    ensures RowsBefore(run, idx[..|idx| - 1], k) == RowsBefore(run, idx, k)
    decreases k
  {
    if k > 0 {
      RowsBeforeInit(run, idx, k - 1);
    }
  }

  lemma ListedShows(run: Run, n: nat, j: nat)
    requires n < |run| && run[n].Message? && j < |run[n].rows|
    ensures IsOf(Listed(run, n)[j], run[n].rows[j], InUseAt(run, n, run[n].rows[j].id))
  {
    var used := LatestUsed(run[..n]);
    MarksExactly(run[n].rows, used, j);
    LatestDecides(run, n, run[n].rows[j].id);
  }

  lemma RowStaysShown(run: Run, idx: seq<nat>, before: seq<Satellite>, more: seq<Satellite>, k: nat, j: nat)
    requires IsGroup(run, idx) && k < |idx| - 1 && j < |run[idx[k]].rows|
    requires ShowsRow(run, idx[..|idx| - 1], before, k, j)
    ensures ShowsRow(run, idx, before + more, k, j)
  {
    RowsBeforeInit(run, idx, k);
  }

  lemma LastRowsShown(run: Run, idx: seq<nat>, before: seq<Satellite>, j: nat)
    requires IsGroup(run, idx) && idx != [] && j < |run[idx[|idx| - 1]].rows|
    requires |before| == RowsBefore(run, idx, |idx| - 1)
    ensures ShowsRow(run, idx, before + Listed(run, idx[|idx| - 1]), |idx| - 1, j)
  {
    var n := |idx| - 1;
    ListedShows(run, idx[n], j);
    assert (before + Listed(run, idx[n]))[|before| + j] == Listed(run, idx[n])[j];
  }

  lemma {:induction false} ListingShows(run: Run, idx: seq<nat>)
    requires IsGroup(run, idx)
    ensures Shows(run, idx, Listing(run, idx))
    decreases |idx|
  {
    if idx != [] {
      var n := |idx| - 1;
      var before, more := Listing(run, idx[..n]), Listed(run, idx[n]);
      ListingShows(run, idx[..n]);
      RowsBeforeInit(run, idx, n);
      forall k, j | 0 <= k < |idx| && 0 <= j < |run[idx[k]].rows|
        ensures ShowsRow(run, idx, before + more, k, j)
      {
        if k < n {
          assert idx[..n][k] == idx[k];
          RowStaysShown(run, idx, before, more, k, j);
        } else {
          LastRowsShown(run, idx, before, j);
        }
      }
    }
  }

  /** An accepted message with the number of the last one. */
  predicate Finishes(s: Stage, item: Item) {
    item.Message? && Accepts(s, item) && item.number == TotalWith(s, item)
  }

  lemma CompleteIsPublished(run: Run, idx: seq<nat>)
    requires WellDeclared(run) && Complete(run, idx)
    ensures ReceiveAll(run).published == Listing(run, idx) && Shows(run, idx, Listing(run, idx))
    ensures Finishes(ReceiveAll(Init(run)), Last(run))
  {
    StageBefore(run, idx);
    ListingShows(run, idx);
  }

  lemma FinishedGroup(run: Run) returns (g: seq<nat>)
    requires WellDeclared(run) && run != [] && Finishes(ReceiveAll(Init(run)), Last(run))
    ensures Complete(run, g)
  {
    InitDeclared(run);
    UsedIsLatest(Init(run));
    var open := Tracking(Init(run));
    g := Advance(ReceiveAll(Init(run)), run, open);
  }

  /** The publication theorem.  Over every run whose groups declare 1 to 8
      messages, an event changes the published list only by being the last of a
      complete group, and then the list is the in-order concatenation of that
      group's satellites: row by row the same numbers, marked if and only if the
      id is among those listed as used last before the message.
      Every complete group is published in this way. */
  lemma Publication(run: Run)
    requires WellDeclared(run) && run != []
    ensures forall idx :: Complete(run, idx) ==>
                            ReceiveAll(run).published == Listing(run, idx) && Shows(run, idx, ReceiveAll(run).published)
    ensures (forall idx :: !Complete(run, idx)) ==> ReceiveAll(run).published == ReceiveAll(Init(run)).published
    ensures (exists idx :: Complete(run, idx)) <==> Finishes(ReceiveAll(Init(run)), Last(run))
  {
    forall idx | Complete(run, idx)
      ensures ReceiveAll(run).published == Listing(run, idx) && Shows(run, idx, ReceiveAll(run).published)
      ensures Finishes(ReceiveAll(Init(run)), Last(run))
    {
      CompleteIsPublished(run, idx);
    }
    if Finishes(ReceiveAll(Init(run)), Last(run)) {
      var g := FinishedGroup(run);
    }
  }
}
