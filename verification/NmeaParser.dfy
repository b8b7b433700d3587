/** nmea_parse_sentence on a sentence in its buffer (src/nmea-parser.c): checked,
    cut, split and handed to the handler of its tag, all in place.  Proved to be
    one Step on what Interpret makes of the text, and to leave Worked of it. */
module NmeaParser {
  import opened Seqs
  import opened Text
  import opened Fields
  import opened Scanner
  import opened Checksum
  import opened NmeaHandlers
  import opened Sentence
  import Assembly
  import NmeaContext

  /** No field pointer lies outside the union of the four field arrays.  The
      largest is that of GSV, and behind the union lies the stored date. */
  predicate InUnion(event: Event) {
    match event
    case Rmc(fields, _, _) => |fields| <= GSV_FIELDS
    case Gga(fields, _) => |fields| <= GSV_FIELDS
    case Gsa(fields) => |fields| <= GSV_FIELDS
    case Gsv(fields) => |fields| <= GSV_FIELDS
    case _ => true
  }

  /** There is room for what the sentence adds: in the union of field arrays, and
      in the staging array. */
  predicate HasRoomFor(p: Parser, libc: Libc, event: Event) {
    && InUnion(event)
    && (event.Gsv? && WellFormedGsv(event.fields) ==> Assembly.HasRoom(StageOf(p), MessageOf(libc, event.fields)))
  }

  /** The fields leave the union for exactly one kind of sentence: a GSV of 19
      commas, the last at the end. */
  lemma LeavesUnion(tag: string, data: string, memory: string, at: nat)
    ensures InUnion(Dispatch(tag, data, memory, at))
            <==> !(tag == "GPGSV" && Commas(data) == GSV_FIELDS && EndsInComma(data))
  {
    if tag == "GPRMC" {
      SplitRoom(data, RMC_FIELDS);
    } else if tag == "GPGGA" {
      SplitRoom(data, GGA_FIELDS);
    } else if tag == "GPGSA" {
      SplitRoom(data, GSA_FIELDS);
    } else if tag == "GPGSV" {
      SplitRoom(data, GSV_FIELDS);
    }
  }

  /** Of a buffer, the cells from data up to stop have been split at their first
      n commas; all others are as they were. */
  ghost predicate Blanked(buf: array<char>, was: string, data: nat, stop: nat, n: nat)
    reads buf
  {
    && buf.Length == |was| && data <= stop <= |was|
    && buf[..data] == was[..data] && buf[data..stop] == Blank(was[data..stop], n) && buf[stop..] == was[stop..]
  }

  /** The splitting that each handler begins with. */
  method SplitData(buf: array<char>, data: nat, numFields: nat, ghost stop: nat)
    returns (offsets: seq<nat>, fields: seq<string>)
    requires IsString(buf, data, stop)
    modifies buf
    ensures fields == Split(old(buf[data..stop]), numFields)
    ensures offsets == Offsets(old(buf[data..stop]), data, numFields)
    ensures |offsets| == |fields|
    ensures Blanked(buf, old(buf[..]), data, stop, numFields)
  {
    ghost var t, was := buf[data..stop], buf[..];
    assert buf[stop] == NUL && NUL !in t && was[data..stop] == t;
    assert was[..data] == buf[..data] && was[stop..] == buf[stop..];
    offsets := SplitSentence(buf, data, numFields, stop);
    assert buf[stop] == buf[stop..][0];
    fields := FieldTexts(buf, offsets, t, data, stop, numFields);
    OffsetsCount(t, data, numFields);
  }

  /** An unknown tag has nothing split. */
  lemma NothingBlanked(buf: array<char>, data: nat, stop: nat)
    requires data <= stop <= buf.Length
    ensures Blanked(buf, buf[..], data, stop, 0)
  {
    assert buf[..][data..stop] == buf[data..stop];
  }

  /** parse_tag: the handler of the tag, or nothing for an unknown one.  memory is
      the sentence before it is split. */
  method ParseTag(ctxt: NmeaContext.NmeaParseContext, libc: Libc, buf: array<char>, tag: string, memory: string,
                  data: nat, ghost stop: nat)
    returns (ok: bool)
    requires ctxt.Valid() && IsString(buf, data, stop)
    requires HasRoomFor(ctxt.Value(), libc, Dispatch(tag, buf[data..stop], memory, data))
    modifies buf, ctxt.Repr()
    ensures ctxt.Value() == Step(old(ctxt.Value()), libc, Dispatch(tag, old(buf[data..stop]), memory, data))
    ensures ok == Accepted(old(ctxt.Value()), libc, Dispatch(tag, old(buf[data..stop]), memory, data))
    ensures Blanked(buf, old(buf[..]), data, stop, FieldRoom(tag))
  {
    var offsets, fields;
    if tag == "GPRMC" {
      offsets, fields := SplitData(buf, data, RMC_FIELDS, stop);
      ok := ctxt.HandleRmc(libc, fields, From(memory, data),
                           if RMC_FIELDS <= |fields| then From(memory, offsets[8]) else "");
    } else if tag == "GPGGA" {
      offsets, fields := SplitData(buf, data, GGA_FIELDS, stop);
      ok := ctxt.HandleGga(libc, fields, From(memory, data));
    } else if tag == "GPGSA" {
      offsets, fields := SplitData(buf, data, GSA_FIELDS, stop);
      ok := ctxt.HandleGsa(libc, fields);
    } else if tag == "GPGSV" {
      offsets, fields := SplitData(buf, data, GSV_FIELDS, stop);
      ok := ctxt.HandleGsv(libc, fields);
    } else {
      NothingBlanked(buf, data, stop);
      ok := true;
    }
  }

  /** The sentence text as a handler can read it once the '*' has become NUL. */
  lemma MemoryReads(was: string, star: nat, stop: nat)
    requires 1 <= star < stop && IsText(was, 0, stop)
    ensures var now := was[star := NUL];
            now[..star] + [NUL] + CStr(now[star + 1..]) == was[..stop][star := NUL]
  {
    var now := was[star := NUL];
    CheckText(was, 0, star, stop);
    assert now[star + 1..] == was[star + 1..];
    assert now[..star] == was[..star];
    assert was[0..stop] == was[..stop];
  }

  /** A sentence cut at its '*' is left like this when its data are split. */
  function Left(cut: string, data: nat, star: nat, tag: string): string
    requires data <= star <= |cut|
  {
    cut[..data] + Blank(cut[data..star], FieldRoom(tag)) + cut[star..]
  }

  /** The parts that Interpret finds in the text, by position. */
  lemma Parts(s: string, star: nat, comma: nat)
    requires s != "" && s[0] == '$' && Passes(s[1..])
    requires star == 1 + Index(s[1..], '*') && comma == 1 + Index(s[1..star], DELIMITER)
    ensures star < |s|
    ensures comma == star <==> !HasComma(s[1..][..star - 1])
    ensures comma < star ==>
              var n := if comma - 1 < TAG_LENGTH then comma - 1 else TAG_LENGTH;
              n + 2 <= star && Interpret(s) == Dispatch(s[1..n + 1], s[n + 2..star], s[star := NUL], n + 2)
    ensures comma == star ==> Interpret(s) == Rejected
  {
    var body := s[1..][..star - 1];
    assert body == s[1..star];
    if comma < star {
      var n := TagLength(body);
      assert body[..n] == s[1..n + 1] && body[n + 1..] == s[n + 2..star];
    }
  }

  lemma CutSlice(s: string, star: nat, i: nat, j: nat)
    requires i <= j <= star < |s|
    ensures s[star := NUL][i..j] == s[i..j]
  {
  }

  lemma WorkedIs(s: string, star: nat, comma: nat, n: nat)
    requires s != "" && s[0] == '$' && Passes(s[1..]) && star == 1 + Index(s[1..], '*') < |s|
    requires comma == 1 + Index(s[1..star], DELIMITER) && n == if comma - 1 < TAG_LENGTH then comma - 1 else TAG_LENGTH
    ensures comma == star ==> Worked(s) == s[star := NUL]
    ensures comma < star ==>
              var cut := s[star := NUL];
              n + 2 <= star && Worked(s) == cut[..n + 2] + Blank(s[n + 2..star], FieldRoom(s[1..n + 1])) + cut[star..]
  {
  }

  /** What is left of the same parts. */
  lemma WorkedParts(s: string, star: nat, comma: nat)
    requires s != "" && s[0] == '$' && Passes(s[1..])
    requires star == 1 + Index(s[1..], '*') && comma == 1 + Index(s[1..star], DELIMITER)
    ensures star < |s|
    ensures comma < star ==>
              var n := if comma - 1 < TAG_LENGTH then comma - 1 else TAG_LENGTH;
              n + 2 <= star && Worked(s) == Left(s[star := NUL], n + 2, star, s[1..n + 1])
    ensures comma == star ==> Worked(s) == s[star := NUL]
  {
    var n := if comma - 1 < TAG_LENGTH then comma - 1 else TAG_LENGTH;
    WorkedIs(s, star, comma, n);
    if comma < star {
      CutSlice(s, star, n + 2, star);
    }
  }

  lemma SamePart(s: string, now: string, star: nat, i: nat, j: nat)
    requires i <= j <= star < |s| <= |now| && now[..|s|] == s[star := NUL]
    ensures now[i..j] == s[i..j]
  {
    var cut := now[..|s|];
    assert now[i..j] == cut[i..j];
    assert cut[i..j] == s[i..j];
  }

  lemma SameParts(s: string, now: string, star: nat, n: nat)
    requires star < |s| <= |now| && now[..|s|] == s[star := NUL] && n + 2 <= star
    ensures now[1..star] == s[1..star] && now[1..n + 1] == s[1..n + 1] && now[n + 2..star] == s[n + 2..star]
  {
    SamePart(s, now, star, 1, star);
    SamePart(s, now, star, 1, n + 1);
    SamePart(s, now, star, n + 2, star);
  }

  /** The parts as the code finds them in the cells, from which the '*' has gone. */
  lemma PartsInCells(s: string, now: string, star: nat, comma: nat, n: nat, memory: string)
    requires s != "" && s[0] == '$' && Passes(s[1..]) && star == 1 + Index(s[1..], '*') < |s|
    requires |s| <= |now| && now[..|s|] == s[star := NUL] && memory == s[star := NUL]
    requires comma == 1 + Index(s[1..star], DELIMITER) && comma < star
    requires n == if comma - 1 < TAG_LENGTH then comma - 1 else TAG_LENGTH
    ensures n + 2 <= star && Interpret(s) == Dispatch(now[1..n + 1], now[n + 2..star], memory, n + 2)
    ensures Worked(s) == Left(s[star := NUL], n + 2, star, now[1..n + 1])
  {
    Parts(s, star, comma);
    WorkedParts(s, star, comma);
    SameParts(s, now, star, n);
  }

  /** The tag of a sentence whose checksum is right, and where its data begin. */
  method CutTag(buf: array<char>, star: nat, ghost s: string)
    returns (ok: bool, tag: string, data: nat, memory: string)
    requires s != "" && s[0] == '$' && Passes(s[1..]) && star == 1 + Index(s[1..], '*') < |s| <= buf.Length
    requires buf[..|s|] == s[star := NUL] && buf[1..star] == s[1..star] && IsString(buf, 1, star)
    requires buf[..star] + [NUL] + CStr(buf[star + 1..]) == s[star := NUL]
    ensures !ok ==> Interpret(s) == Rejected && Worked(s) == s[star := NUL]
    ensures ok ==> 1 <= data <= star && Interpret(s) == Dispatch(tag, buf[data..star], memory, data)
    ensures ok ==> Worked(s) == Left(s[star := NUL], data, star, tag)
  {
    ghost var now := buf[..];
    assert now[..|s|] == buf[..|s|];
    var comma := Find(buf, 1, DELIMITER, star);
    if buf[comma] == NUL {
      Parts(s, star, star);
      WorkedParts(s, star, star);
      return false, "", 0, "";
    }
    var tagLength := if comma - 1 < TAG_LENGTH then comma - 1 else TAG_LENGTH;
    ok, tag, data := true, buf[1..tagLength + 1], tagLength + 2;
    memory := buf[..star] + [NUL] + CStr(buf[star + 1..]);
    PartsInCells(s, now, star, comma, tagLength, memory);
    assert tag == now[1..tagLength + 1] && buf[data..star] == now[data..star];
  }

  /** A text that is not begun or not checked right is left with its '*' gone. */
  lemma RejectedIsWorked(s: string, star: nat)
    requires s != "" && s[0] == '$' && !Passes(s[1..]) && star == 1 + Index(s[1..], '*')
    ensures star <= |s| && Worked(s) == if star < |s| then s[star := NUL] else s
  {
  }

  /** The part of nmea_parse_sentence before the handlers: the '$', the checksum,
      the tag and where the data begin. */
  method CutSentence(buf: array<char>, ghost stop: nat)
    returns (ok: bool, tag: string, data: nat, memory: string, star: nat)
    requires IsString(buf, 0, stop)
    modifies buf
    ensures !ok ==> Interpret(old(buf[..stop])) == Rejected && buf[..stop] == Worked(old(buf[..stop]))
    ensures ok ==> IsString(buf, data, star) && star <= stop
                   && Interpret(old(buf[..stop])) == Dispatch(tag, buf[data..star], memory, data)
                   && Left(buf[..stop], data, star, tag) == Worked(old(buf[..stop]))
    ensures buf[stop..] == old(buf[stop..])
  {
    tag, data, memory, star := "", 0, "", 0;
    if buf[0] != '$' {
      return false, tag, data, memory, star;
    }
    ghost var was := buf[..];
    assert was[1..stop] == buf[1..stop] == buf[..stop][1..];
    ok, star := CheckChecksum(buf, 1, stop);
    CutCells(was, star, buf[..], stop);
    assert buf[..][..stop] == buf[..stop];
    if ok {
      CheckedCells(was, star, buf[..], stop);
      assert buf[..][1..star] == buf[1..star] && buf[..][..star] == buf[..star];
      assert buf[..][star + 1..] == buf[star + 1..];
      ok, tag, data, memory := CutTag(buf, star, was[..stop]);
    } else {
      RejectedIsWorked(was[..stop], star);
    }
  }

  lemma CutCells(was: string, star: nat, now: string, stop: nat)
    requires star <= stop < |was| && was[stop] == NUL && now == was[star := NUL]
    ensures now[stop..] == was[stop..]
    ensures now[..stop] == if star < stop then was[..stop][star := NUL] else was[..stop]
  {
  }

  lemma CheckedCells(was: string, star: nat, now: string, stop: nat)
    requires IsText(was, 0, stop) && 1 <= star < stop && now == was[star := NUL]
    ensures now[1..star] == was[..stop][1..star] && was[..stop][1..] == was[1..stop]
    ensures now[..star] + [NUL] + CStr(now[star + 1..]) == was[..stop][star := NUL]
  {
    MemoryReads(was, star, stop);
  }

  lemma LeftTogether(cut: string, now: string, data: nat, star: nat, stop: nat, tag: string)
    requires data <= star <= stop <= |cut| == |now|
    requires now[..data] == cut[..data] && now[star..] == cut[star..]
    requires now[data..star] == Blank(cut[data..star], FieldRoom(tag))
    ensures now[..stop] == Left(cut[..stop], data, star, tag)
    ensures now[stop..] == cut[stop..]
  {
    assert cut[..stop][..data] == cut[..data] && cut[..stop][data..star] == cut[data..star];
    assert now[..stop] == now[..data] + now[data..star] + now[star..stop];
    assert now[star..stop] == now[star..][..stop - star] && cut[..stop][star..] == cut[star..][..stop - star];
    assert now[stop..] == now[star..][stop - star..] && cut[stop..] == cut[star..][stop - star..];
  }

  /** nmea_parse_sentence */
  method ParseSentence(ctxt: NmeaContext.NmeaParseContext, libc: Libc, buf: array<char>, ghost stop: nat)
    returns (ok: bool)
    requires ctxt.Valid() && IsString(buf, 0, stop)
    requires HasRoomFor(ctxt.Value(), libc, Interpret(buf[..stop]))
    modifies buf, ctxt.Repr()
    ensures ctxt.Value() == Step(old(ctxt.Value()), libc, Interpret(old(buf[..stop])))
    ensures ok == Accepted(old(ctxt.Value()), libc, Interpret(old(buf[..stop])))
    ensures buf[..stop] == Worked(old(buf[..stop])) && buf[stop..] == old(buf[stop..])
  {
    var tag, data, memory, star;
    ok, tag, data, memory, star := CutSentence(buf, stop);
    if ok {
      ghost var cut := buf[..];
      assert cut[..stop] == buf[..stop] && cut[stop..] == buf[stop..];
      ok := ParseTag(ctxt, libc, buf, tag, memory, data, star);
      ghost var now := buf[..];
      assert now[..data] == buf[..data] && now[data..star] == buf[data..star] && now[star..] == buf[star..];
      LeftTogether(cut, now, data, star, stop, tag);
      assert now[..stop] == buf[..stop] && now[stop..] == buf[stop..];
    }
  }
}
