/** From the text of a sentence to what it says, and back (src/nmea-parser.c). */
module Sentence {
  import opened Options
  import opened Seqs
  import opened Text
  import opened Checksum
  import opened Fields
  import opened ClientState
  import opened NmeaClock
  import opened NmeaHandlers
  import Calendar

  const TAG_LENGTH := 12

  /** The text that a handler reads a value from: it begins at an offset and runs
      on to the end of the sentence. */
  function From(memory: string, offset: nat): string {
    if offset <= |memory| then memory[offset..] else ""
  }

  /** The handler of a tag splits the data, which begins at the offset at of the
      sentence, into the fields it has room for.  memory is the sentence as the
      checksum test leaves it. */
  function Dispatch(tag: string, data: string, memory: string, at: nat): Event {
    if tag == "GPRMC" then
      var fields := Split(data, RMC_FIELDS);
      OffsetsCount(data, at, RMC_FIELDS);
      Rmc(fields, From(memory, at),
          if RMC_FIELDS <= |fields| then From(memory, Offsets(data, at, RMC_FIELDS)[8]) else "")
    else if tag == "GPGGA" then Gga(Split(data, GGA_FIELDS), From(memory, at))
    else if tag == "GPGSA" then Gsa(Split(data, GSA_FIELDS))
    else if tag == "GPGSV" then Gsv(Split(data, GSV_FIELDS))
    else Unknown
  }

  /** The length of the tag that is copied and compared. */
  function TagLength(body: string): nat {
    if |First(body)| < TAG_LENGTH then |First(body)| else TAG_LENGTH
  }

  /** What nmea_parse_sentence makes of a sentence. */
  function Interpret(s: string): Event {
    if s == "" || s[0] != '$' || !Passes(s[1..]) then Rejected
    else
      var star := Index(s[1..], '*');
      var body := s[1..][..star];
      if !HasComma(body) then Rejected
      else
        var n := TagLength(body);
        Dispatch(body[..n], body[n + 1..], s[star + 1 := NUL], n + 2)
  }

  /** The fields that the handler of a tag has room for; an unknown tag has no
      handler, and its data are not split. */
  function FieldRoom(tag: string): nat {
    if tag == "GPRMC" then RMC_FIELDS
    else if tag == "GPGGA" then GGA_FIELDS
    else if tag == "GPGSA" then GSA_FIELDS
    else if tag == "GPGSV" then GSV_FIELDS
    else 0
  }

  /** What nmea_parse_sentence leaves of a sentence: the '*' and the commas that
      it splits at have become NUL. */
  function Worked(s: string): (w: string)
    ensures |w| == |s|
  {
    if s == "" || s[0] != '$' then s
    else
      var star := 1 + Index(s[1..], '*');
      if star == |s| then s
      else
        var cut := s[star := NUL];
        var comma := 1 + Index(s[1..star], DELIMITER);
        if !Passes(s[1..]) || comma == star then cut
        else
          var n := if comma - 1 < TAG_LENGTH then comma - 1 else TAG_LENGTH;
          cut[..n + 2] + Blank(s[n + 2..star], FieldRoom(s[1..n + 1])) + cut[star..]
  }

  lemma PartsWriteNuls(s: string, cut: string, a: nat, b: nat, mid: string)
    requires a <= b <= |s| && OnlyNuls(cut, s) && OnlyNuls(mid, s[a..b])
    ensures OnlyNuls(cut[..a] + mid + cut[b..], s)
  {
    var w := cut[..a] + mid + cut[b..];
    forall i | 0 <= i < |s|
      ensures w[i] == s[i] || w[i] == NUL
    {
      if a <= i < b {
        assert w[i] == mid[i - a] && s[a..b][i - a] == s[i];
      }
    }
  }

  lemma StarWritesNul(s: string, star: nat)
    requires star < |s|
    ensures OnlyNuls(s[star := NUL], s)
  {
  }

  lemma SplitWritesNuls(s: string, star: nat, data: nat, room: nat)
    requires data <= star < |s|
    ensures OnlyNuls(s[star := NUL][..data] + Blank(s[data..star], room) + s[star := NUL][star..], s)
  {
    StarWritesNul(s, star);
    BlankWritesNuls(s[data..star], room);
    PartsWriteNuls(s, s[star := NUL], data, star, Blank(s[data..star], room));
  }

  /** Parsing writes nothing into a sentence but NULs. */
  lemma WorkedWritesNuls(s: string)
    ensures OnlyNuls(Worked(s), s)
  {
    if s != "" && s[0] == '$' {
      var star := 1 + Index(s[1..], '*');
      if star < |s| {
        StarWritesNul(s, star);
        var comma := 1 + Index(s[1..star], DELIMITER);
        if comma < star {
          var n := if comma - 1 < TAG_LENGTH then comma - 1 else TAG_LENGTH;
          SplitWritesNuls(s, star, n + 2, FieldRoom(s[1..n + 1]));
        }
      }
    }
  }

  // ----------------------------------------------------------- the round trip

  predicate KnownTag(tag: string) {
    tag == "GPRMC" || tag == "GPGGA" || tag == "GPGSA" || tag == "GPGSV"
  }

  function FieldCount(tag: string): nat
    requires KnownTag(tag)
  {
    if tag == "GPRMC" then RMC_FIELDS else if tag == "GPGGA" then GGA_FIELDS
    else if tag == "GPGSA" then GSA_FIELDS else GSV_FIELDS
  }

  /** A character that a field can hold. */
  predicate Plain(c: char) {
    c as int < 128 && c != NUL && c != CR && c != DELIMITER && c != '*'
  }

  predicate PlainText(s: string) {
    forall i :: 0 <= i < |s| ==> Plain(s[i])
  }

  predicate PlainFields(fields: seq<string>) {
    forall i :: 0 <= i < |fields| ==> PlainText(fields[i])
  }

  function Body(tag: string, fields: seq<string>): string {
    tag + [DELIMITER] + Join(fields)
  }

  function Print(tag: string, fields: seq<string>): string
    requires Sum(Body(tag, fields)) < 256
  {
    "$" + (Body(tag, fields) + "*" + PrintSum(Sum(Body(tag, fields))))
  }

  /** A character of joined plain fields is plain or a comma. */
  predicate Printable(s: string) {
    forall i :: 0 <= i < |s| ==> Plain(s[i]) || s[i] == DELIMITER
  }

  lemma {:induction false} JoinPrintable(fields: seq<string>)
    requires PlainFields(fields)
    ensures Printable(Join(fields))
    decreases |fields|
  {
    if |fields| > 1 {
      JoinPrintable(fields[1..]);
    }
  }

  lemma PlainIsCommaFree(fields: seq<string>)
    requires PlainFields(fields)
    ensures CommaFree(fields)
  {
    forall i | 0 <= i < |fields|
      ensures !HasComma(fields[i])
    {
      CommaIn(fields[i]);
    }
  }

  lemma TagIsPlain(tag: string)
    requires KnownTag(tag)
    ensures PlainText(tag) && |tag| == 5
  {
  }

  /** A printed sentence once its '*' has gone. */
  function Memory(tag: string, fields: seq<string>): string
    requires Sum(Body(tag, fields)) < 256
  {
    "$" + tag + [DELIMITER] + Join(fields) + ([NUL] + PrintSum(Sum(Body(tag, fields))))
  }

  lemma PrintedMemory(tag: string, fields: seq<string>)
    requires Sum(Body(tag, fields)) < 256
    ensures var s := Print(tag, fields);
            && s != "" && s[0] == '$'
            && s[1..] == Body(tag, fields) + "*" + PrintSum(Sum(Body(tag, fields)))
            && s[|Body(tag, fields)| + 1 := NUL] == Memory(tag, fields)
  {
    assert "$" + (tag + [DELIMITER] + Join(fields)) == "$" + tag + [DELIMITER] + Join(fields);
  }

  lemma BodyIsCut(s: string, body: string, check: string)
    requires s != "" && s[0] == '$' && s[1..] == body + "*" + check
    requires Passes(s[1..]) && '*' !in body && HasComma(body)
    ensures Interpret(s) == Dispatch(body[..TagLength(body)], body[TagLength(body) + 1..],
                                     s[|body| + 1 := NUL], TagLength(body) + 2)
  {
    StarSplits(body, check);
  }

  lemma TagIsCut(tag: string, data: string)
    requires DELIMITER !in tag
    ensures var body, n := tag + [DELIMITER] + data, if |tag| < TAG_LENGTH then |tag| else TAG_LENGTH;
            HasComma(body) && TagLength(body) == n && body[..n] == tag[..n]
  {
    CommaIn(tag);
    CutAt(tag, data);
  }

  lemma BodySums(tag: string, fields: seq<string>)
    requires PlainText(tag) && PlainFields(fields)
    ensures var body := Body(tag, fields); AllBelow(body, 128) && '*' !in body && Sum(body) < 128
  {
    JoinPrintable(fields);
    ByteSum(Body(tag, fields));
  }

  /** A printed sentence is cut behind as much of its tag as is compared. */
  lemma PrintedIsRead(tag: string, fields: seq<string>)
    requires PlainText(tag) && PlainFields(fields)
    ensures var body := Body(tag, fields);
            && Sum(body) < 128 && HasComma(body)
            && Interpret(Print(tag, fields)) == Dispatch(body[..TagLength(body)], body[TagLength(body) + 1..],
                                                         Memory(tag, fields), TagLength(body) + 2)
  {
    var body := Body(tag, fields);
    BodySums(tag, fields);
    PrintedPasses(body);
    PrintedMemory(tag, fields);
    TagIsCut(tag, Join(fields));
    BodyIsCut(Print(tag, fields), body, PrintSum(Sum(body)));
  }

  lemma KnownIsCut(tag: string, data: string)
    requires |tag| == 5
    ensures var body := tag + [DELIMITER] + data; body[..5] == tag && body[6..] == data
  {
  }

  /** The body of a printed sentence is found and cut at the tag. */
  lemma PrintedIsDispatched(tag: string, fields: seq<string>)
    requires KnownTag(tag) && PlainFields(fields)
    ensures Sum(Body(tag, fields)) < 128
    ensures Interpret(Print(tag, fields)) == Dispatch(tag, Join(fields), Memory(tag, fields), 7)
  {
    TagIsPlain(tag);
    PrintedIsRead(tag, fields);
    TagIsCut(tag, Join(fields));
    KnownIsCut(tag, Join(fields));
  }

  /** Sentence round trip: printing a known tag and fields it has room for and
      interpreting the result reaches that tag's handler with exactly those
      fields, in order.  One blank field alone is the only exception. */
  lemma RoundTrip(tag: string, fields: seq<string>)
    requires KnownTag(tag) && PlainFields(fields)
    requires 1 <= |fields| <= FieldCount(tag) && fields != [""]
    ensures Sum(Body(tag, fields)) < 128
    ensures var event := Interpret(Print(tag, fields));
            && (tag == "GPRMC" ==> event.Rmc? && event.fields == fields)
            && (tag == "GPGGA" ==> event.Gga? && event.fields == fields)
            && (tag == "GPGSA" ==> event == Gsa(fields))
            && (tag == "GPGSV" ==> event == Gsv(fields))
  {
    PrintedIsDispatched(tag, fields);
    PlainIsCommaFree(fields);
    SplitOfJoin(fields, FieldCount(tag));
  }

  lemma OnlyPassingIsRead(s: string)
    ensures Interpret(s) != Rejected ==> s != "" && s[0] == '$' && Passes(s[1..])
  {
  }

  lemma DamageIsSeen(s: string, i: nat, c: char)
    requires s != "" && s[0] == '$' && Passes(s[1..]) && AllBelow(s, 256)
    requires i <= Index(s[1..], '*') && c != s[i] && c != '*' && c != NUL && c as int < 256
    ensures s[i := c][0] == '$' ==> !Passes(s[i := c][1..])
  {
    if i > 0 {
      var body := s[1..];
      OneChangeDetected(body, i - 1, c);
      assert s[i := c][1..] == body[i - 1 := c];
    }
  }

  /** A damaged sentence is refused: when one is not, replacing its '$' or any one
      character up to the '*' by another byte but '*' and NUL makes it change nothing. */
  lemma DamageIsRefused(p: Parser, libc: Libc, s: string, i: nat, c: char)
    requires Interpret(s) != Rejected && AllBelow(s, 256)
    requires i <= Index(s[1..], '*') && c != s[i] && c != '*' && c != NUL && c as int < 256
    ensures Interpret(s[i := c]) == Rejected
    ensures Step(p, libc, Interpret(s[i := c])) == p && !Accepted(p, libc, Interpret(s[i := c]))
  {
    OnlyPassingIsRead(s);
    DamageIsSeen(s, i, c);
    OnlyPassingIsRead(s[i := c]);
  }

  lemma UnknownIsDispatched(tag: string, data: string, memory: string, at: nat)
    requires !KnownTag(tag)
    ensures Dispatch(tag, data, memory, at) == Unknown
  {
  }

  /** A printed sentence of any other tag, however long, is accepted and changes
      nothing. */
  lemma UnknownTagIsIgnored(p: Parser, libc: Libc, tag: string, fields: seq<string>)
    requires PlainText(tag) && !KnownTag(tag) && PlainFields(fields)
    ensures Sum(Body(tag, fields)) < 128
    ensures var event := Interpret(Print(tag, fields));
            event == Unknown && Step(p, libc, event) == p && Accepted(p, libc, event)
  {
    var body := Body(tag, fields);
    var n := TagLength(body);
    PrintedIsRead(tag, fields);
    TagIsCut(tag, Join(fields));
    UnknownIsDispatched(tag[..n], body[n + 1..], Memory(tag, fields), n + 2);
  }

  // -------------------------------------------------- the time of an RMC

  /** The text behind a field: a comma or a NUL ends it. */
  predicate IsBehind(after: string) {
    after != "" && (after[0] == DELIMITER || after[0] == NUL)
  }

  lemma FromStanding(t: string, more: string, o: nat, field: string) returns (after: string)
    requires StandsAt(t, o, field) && IsBehind(more)
    ensures From(t + more, o) == field + after && IsBehind(after)
  {
    after := t[o + |field|..] + more;
    assert t[o..] == field + t[o + |field|..];
  }

  /** The text from a field on is that field and what ends it. */
  lemma FromField(pre: string, base: nat, fields: seq<string>, more: string, n: nat, i: nat) returns (after: string)
    requires base == |pre| && CommaFree(fields) && fields != [""] && i < |fields| && i < n && IsBehind(more)
    ensures i < |Offsets(Join(fields), base, n)|
    ensures From(pre + Join(fields) + more, Offsets(Join(fields), base, n)[i]) == fields[i] + after && IsBehind(after)
  {
    SplitAtOfJoin(fields, n, i);
    FieldsStand(pre, base, Join(fields), n, i);
    after := FromStanding(pre + Join(fields), more, Offsets(Join(fields), base, n)[i], fields[i]);
  }

  lemma FirstOffset(t: string, base: nat, n: nat)
    requires t != "" && n > 0
    ensures Offsets(t, base, n) != [] && Offsets(t, base, n)[0] == base
  {
  }

  lemma LaterReportsKeepTime(s: State, op: Op)
    requires !op.TimestampOp?
    ensures Apply(s, op).readings.timestamp == s.readings.timestamp
  {
  }

  lemma RmcSetsTime(p: Parser, libc: Libc, fields: seq<string>, clock: string, date: string)
    requires RMC_FIELDS <= |fields|
    ensures ParseRmc(p, libc, fields, clock, date).client.readings.timestamp
         == Timestamp(RmcContext(p.ctxt, date).datestamp, clock)
  {
    var c1 := Apply(p.client, RmcTime(RmcContext(p.ctxt, date), clock));
    var c2 := Apply(c1, RmcPosition(libc, fields));
    var c3 := Apply(c2, RmcFix(fields));
    LaterReportsKeepTime(c1, RmcPosition(libc, fields));
    LaterReportsKeepTime(c2, RmcFix(fields));
    LaterReportsKeepTime(c3, RmcCourse(libc, fields));
  }

  /** A printed RMC, with all the fields that are parsed and any more behind them, is
      read with its time field and its date field where the clock and the date are
      expected. */
  lemma PrintedRmc(fields: seq<string>) returns (afterTime: string, afterDate: string)
    requires PlainFields(fields) && RMC_FIELDS <= |fields|
    ensures Sum(Body("GPRMC", fields)) < 128
    ensures RMC_FIELDS <= |Split(Join(fields), RMC_FIELDS)|
    ensures Interpret(Print("GPRMC", fields))
         == Rmc(Split(Join(fields), RMC_FIELDS), fields[0] + afterTime, fields[8] + afterDate)
    ensures IsBehind(afterTime) && IsBehind(afterDate)
  {
    PrintedIsDispatched("GPRMC", fields);
    PlainIsCommaFree(fields);
    SplitAtOfJoin(fields, RMC_FIELDS, RMC_FIELDS - 1);
    JoinNotEmpty(fields);
    var more := [NUL] + PrintSum(Sum(Body("GPRMC", fields)));
    var pre := "$" + "GPRMC" + [DELIMITER];
    afterTime := FromField(pre, 7, fields, more, RMC_FIELDS, 0);
    afterDate := FromField(pre, 7, fields, more, RMC_FIELDS, 8);
    FirstOffset(Join(fields), 7, RMC_FIELDS);
    assert Memory("GPRMC", fields) == pre + Join(fields) + more;
  }

  lemma RmcAtInstant(p: Parser, libc: Libc, fields: seq<string>, clock: string, date: string, t: Instant, event: Event)
    requires InService(t) && RMC_FIELDS <= |fields| && event == Rmc(fields, clock, date)
    requires PrintTime(t.seconds) <= clock && PrintDate(t.date) <= date
    ensures Step(p, libc, event).client.readings.timestamp == UnixTime(t)
    ensures HasDay(Step(p, libc, event).ctxt, t.date)
  {
    var afterTime, afterDate := clock[|PrintTime(t.seconds)|..], date[|PrintDate(t.date)|..];
    assert clock == PrintTime(t.seconds) + afterTime && date == PrintDate(t.date) + afterDate;
    RmcSetsTime(p, libc, fields, clock, date);
    NmeaReadsInstant(t, p.ctxt.date, afterDate, afterTime);
    PrintedDateReads(t.date, afterDate);
  }

  /** The day that is stored, for the clock of later sentences. */
  predicate HasDay(ctxt: Context, date: Calendar.Date) {
    ctxt.date == Some(date) && ctxt.datestamp == Datestamp(Some(date))
  }

  /** The whole NMEA path: a printed RMC that carries a moment's date and time, with
      or without a fraction of the second and with or without a twelfth field,
      leaves the client at that moment's Unix time, as a Garmin packet of the
      moment does by NmeaClock.GarminReadsInstant, and the day is stored. */
  lemma PrintedRmcSetsTime(p: Parser, libc: Libc, fields: seq<string>, t: Instant)
    requires InService(t) && PlainFields(fields) && RMC_FIELDS <= |fields|
    requires PrintTime(t.seconds) <= fields[0] && PrintDate(t.date) <= fields[8]
    ensures Sum(Body("GPRMC", fields)) < 128
    ensures var p' := Step(p, libc, Interpret(Print("GPRMC", fields)));
            p'.client.readings.timestamp == UnixTime(t) && HasDay(p'.ctxt, t.date)
  {
    var afterTime, afterDate := PrintedRmc(fields);
    RmcAtInstant(p, libc, Split(Join(fields), RMC_FIELDS), fields[0] + afterTime, fields[8] + afterDate, t,
                 Interpret(Print("GPRMC", fields)));
  }

  /** Where there is no digit there is no date. */
  lemma NoDateIsRead(date: string)
    requires IsBehind(date)
    ensures !Calendar.Valid(DateOf(date))
  {
    assert TwoDigits(date, 0) < 0;
  }

  lemma RmcWithoutDate(p: Parser, libc: Libc, fields: seq<string>, clock: string, date: string, t: Instant,
                       event: Event)
    requires InService(t) && RMC_FIELDS <= |fields| && event == Rmc(fields, clock, date)
    requires PrintTime(t.seconds) <= clock && p.ctxt.date == Some(t.date) && !Calendar.Valid(DateOf(date))
    ensures Step(p, libc, event).client.readings.timestamp == UnixTime(t)
    ensures HasDay(Step(p, libc, event).ctxt, t.date)
  {
    var afterTime := clock[|PrintTime(t.seconds)|..];
    assert clock == PrintTime(t.seconds) + afterTime;
    RmcSetsTime(p, libc, fields, clock, date);
    NmeaReadsInstant(t, None, "", afterTime);
    PrintedDateReads(t.date, "");
  }

  /** A printed RMC without a date keeps the day that is stored. */
  lemma PrintedRmcKeepsDay(p: Parser, libc: Libc, fields: seq<string>, t: Instant)
    requires InService(t) && PlainFields(fields) && RMC_FIELDS <= |fields|
    requires PrintTime(t.seconds) <= fields[0] && fields[8] == "" && p.ctxt.date == Some(t.date)
    ensures Sum(Body("GPRMC", fields)) < 128
    ensures var p' := Step(p, libc, Interpret(Print("GPRMC", fields)));
            p'.client.readings.timestamp == UnixTime(t) && HasDay(p'.ctxt, t.date)
  {
    var afterTime, afterDate := PrintedRmc(fields);
    assert fields[8] + afterDate == afterDate && PrintTime(t.seconds) <= fields[0] + afterTime;
    NoDateIsRead(afterDate);
    RmcWithoutDate(p, libc, Split(Join(fields), RMC_FIELDS), fields[0] + afterTime, afterDate, t,
                   Interpret(Print("GPRMC", fields)));
  }
}
