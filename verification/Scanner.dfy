/** The loops over a sentence in its buffer (src/nmea-parser.c): the checksum
    test and the splitting, both of which overwrite the text they read. */
module Scanner {
  import opened Seqs
  import opened Text
  import opened Checksum
  import opened Fields

  /** A C string occupies the cells from start up to the NUL at stop. */
  ghost predicate IsString(buf: array<char>, start: nat, stop: nat)
    reads buf
  {
    && start <= stop < buf.Length
    && buf[stop] == NUL
    && forall k :: start <= k < stop ==> buf[k] != NUL
  }

  ghost predicate IsText(mem: string, start: nat, stop: nat) {
    && start <= stop < |mem|
    && mem[stop] == NUL
    && forall k :: start <= k < stop ==> mem[k] != NUL
  }

  /** strchr: the first c of the string, or its end when there is none. */
  method Find(buf: array<char>, start: nat, c: char, ghost stop: nat) returns (at: nat)
    requires IsString(buf, start, stop) && c != NUL
    ensures at == start + Index(buf[start..stop], c)
  {
    at := start;
    while buf[at] != NUL && buf[at] != c
      invariant start <= at <= stop
      invariant forall k :: start <= k < at ==> buf[k] != c
      decreases stop - at
    {
      at := at + 1;
    }
    IndexOfFirst(buf[start..stop], c, at - start);
  }

  /** check_checksum on the string at start; returns where it stopped. */
  method CheckChecksum(buf: array<char>, start: nat, ghost stop: nat) returns (ok: bool, star: nat)
    requires IsString(buf, start, stop)
    modifies buf
    ensures ok <==> Passes(old(buf[start..stop]))
    ensures star == start + Index(old(buf[start..stop]), '*') <= stop
    ensures buf[..] == old(buf[..])[star := NUL]
  {
    ghost var t := buf[start..stop];
    var s := start;
    var sum := 0;
    while buf[s] != NUL && buf[s] != '*'
      invariant start <= s <= stop
      invariant buf[..] == old(buf[..])
      invariant forall k :: start <= k < s ==> buf[k] != '*'
      invariant sum == Sum(t[..s - start])
      decreases stop - s
    {
      SumStep(t, s - start);
      sum := Xor(sum, buf[s] as int);
      s := s + 1;
    }
    star := s;
    IndexOfFirst(t, '*', s - start);
    if buf[s] == NUL {
      return false, star;
    }
    buf[s] := NUL;
    var number := buf[s + 1..];
    CheckText(old(buf[..]), start, s, stop);
    ok := AsInt(sum) == StrtolHex(CStr(number));
    assert number == old(buf[..])[s + 1..];
  }

  lemma SumStep(t: string, i: nat)
    requires i < |t|
    ensures Sum(t[..i + 1]) == Xor(Sum(t[..i]), t[i] as int)
  {
    assert t[..i + 1][..i] == t[..i];
  }

  /** What strtol reads is the rest of the string after the '*'. */
  lemma CheckText(mem: string, start: nat, star: nat, stop: nat)
    requires start <= star < stop < |mem| && mem[stop] == NUL
    requires forall k :: start <= k < stop ==> mem[k] != NUL
    ensures CStr(mem[star + 1..]) == mem[start..stop][star - start + 1..]
  {
    var tail := mem[star + 1..];
    IndexOfFirst(tail, NUL, stop - star - 1);
  }

  // ----------------------------------------------------------- split_sentence

  /** Where the field at begin ends: at its comma or at the NUL. */
  function FieldEnd(mem: string, begin: nat, stop: nat): (end: nat)
    requires begin <= stop <= |mem|
    ensures begin <= end <= stop
  {
    begin + Index(mem[begin..stop], DELIMITER)
  }

  /** One round of split_sentence: the field at begin, and the blank one that may
      end the text.  last tells that the loop is left. */
  method TakeOne(buf: array<char>, begin: nat, ghost stop: nat)
    returns (next: nat, last: bool, blank: bool)
    requires IsString(buf, begin, stop)
    modifies buf
    ensures var end := FieldEnd(old(buf[..]), begin, stop);
            && blank == (last && end < stop)
            && (end == stop ==> last && next == end && buf[..] == old(buf[..]))
            && (end < stop ==>
                  && buf[..] == old(buf[..])[end := NUL]
                  && next == end + 1 && last == (next == stop))
  {
    assert buf[..][begin..stop] == buf[begin..stop];
    var end := Find(buf, begin, DELIMITER, stop);
    next, last, blank := end, true, false;
    if buf[end] != NUL {
      buf[end] := NUL;
      next := end + 1;
      last := buf[next] == NUL;
      blank := last;
    }
  }

  /** The text of memory before and after a round. */
  lemma RoundMemory(mem: string, mem': string, start: nat, begin: nat, stop: nat, next: nat)
    requires start <= begin <= stop < |mem|
    requires var end := FieldEnd(mem, begin, stop);
             if end == stop then mem' == mem && next == end else mem' == mem[end := NUL] && next == end + 1
    ensures var u, done := mem[begin..stop], mem[start..begin];
            && mem'[..start] == mem[..start] && mem'[stop..] == mem[stop..] &&
            if !HasComma(u) then next == stop && mem'[start..stop] == done + u
            else && FieldEnd(mem, begin, stop) < stop && next == begin + |First(u)| + 1 <= stop
                 && mem'[next..stop] == After(u)
                 && mem'[start..next] == done + First(u) + [NUL]
                 && mem'[start..next] + mem'[next..stop] == mem'[start..stop]
  {
  }

  /** The loop as it shows in the text: done is the blanked text before begin,
      rest the text from there on, fields are the offsets found so far. */
  datatype Cut = Cut(done: string, rest: string, begin: nat, fields: seq<nat>, room: nat)

  /** One round of the loop. */
  function Advance(c: Cut): Cut
    requires c.room > 0
  {
    if !HasComma(c.rest) then
      Cut(c.done + c.rest, "", c.begin + |c.rest|, c.fields + [c.begin], c.room - 1)
    else
      var next := c.begin + |First(c.rest)| + 1;
      var found := c.fields + [c.begin];
      Cut(c.done + First(c.rest) + [NUL], After(c.rest), next,
          if After(c.rest) == "" then found + [next] else found, c.room - 1)
  }

  predicate Over(c: Cut) {
    c.rest == "" || c.room == 0
  }

  /** All the rounds that are left. */
  function Final(c: Cut): Cut
    decreases c.room
  {
    if Over(c) then c else Final(Advance(c))
  }

  /** The rounds together blank the text and find the fields. */
  lemma {:induction false} FinalBlanks(c: Cut)
    ensures Final(c).done + Final(c).rest == c.done + Blank(c.rest, c.room)
    ensures Final(c).fields == c.fields + Offsets(c.rest, c.begin, c.room)
    decreases c.room
  {
    if !Over(c) {
      FinalBlanks(Advance(c));
      AdvanceBlanks(c);
      AdvanceFinds(c);
    }
  }

  lemma AdvanceBlanks(c: Cut)
    requires !Over(c)
    ensures var c' := Advance(c); c'.done + Blank(c'.rest, c'.room) == c.done + Blank(c.rest, c.room)
  {
    var u, c' := c.rest, Advance(c);
    var b := Blank(c'.rest, c'.room);
    if HasComma(u) {
      assert c.done + (First(u) + [NUL] + b) == c.done + First(u) + [NUL] + b;
    } else {
      assert Blank(u, c.room) == u && b == "";
    }
  }

  lemma AdvanceFinds(c: Cut)
    requires !Over(c)
    ensures var c' := Advance(c);
            c'.fields + Offsets(c'.rest, c'.begin, c'.room) == c.fields + Offsets(c.rest, c.begin, c.room)
  {
    var u, c' := c.rest, Advance(c);
    if HasComma(u) {
      var rest := OffsetsRest(After(u), c'.begin, c'.room);
      assert c.fields + ([c.begin] + rest) == c.fields + [c.begin] + rest;
    }
  }

  lemma RoundInText(mem: string, mem': string, start: nat, begin: nat, stop: nat, next: nat, c: Cut)
    requires start <= begin <= stop < |mem| && c.room > 0
    requires c.begin == begin && c.done == mem[start..begin] && c.rest == mem[begin..stop]
    requires var end := FieldEnd(mem, begin, stop);
             if end == stop then mem' == mem && next == end else mem' == mem[end := NUL] && next == end + 1
    ensures var c' := Advance(c);
            && mem'[..start] == mem[..start] && mem'[stop..] == mem[stop..]
            && next == c'.begin <= stop
            && c'.done == mem'[start..next] && c'.rest == mem'[next..stop]
            && c'.done + c'.rest == mem'[start..stop]
  {
    RoundMemory(mem, mem', start, begin, stop, next);
  }

  /** A round of split_sentence on the buffer is a round in the text. */
  method Round(buf: array<char>, ghost start: nat, begin: nat, ghost stop: nat, ghost c: Cut)
    returns (next: nat, last: bool, blank: bool)
    requires start <= begin && IsString(buf, begin, stop)
    requires !Over(c) && c.begin == begin && c.done == buf[start..begin] && c.rest == buf[begin..stop]
    modifies buf
    ensures var c' := Advance(c);
            && next == c'.begin && last == (c'.rest == "")
            && c'.fields == (if blank then c.fields + [begin] + [next] else c.fields + [begin])
            && (blank ==> last)
            && start <= next <= stop && IsString(buf, next, stop) && next > begin
            && c'.done == buf[start..next] && c'.rest == buf[next..stop]
            && c'.done + c'.rest == buf[start..stop]
    ensures buf[..start] == old(buf[..start]) && buf[stop..] == old(buf[stop..])
  {
    ghost var mem := buf[..];
    next, last, blank := TakeOne(buf, begin, stop);
    ghost var mem' := buf[..];
    assert c.done == mem[start..begin] && c.rest == mem[begin..stop];
    RoundInText(mem, mem', start, begin, stop, next, c);
    assert mem'[..start] == buf[..start] && mem'[stop..] == buf[stop..];
    assert mem'[start..next] == buf[start..next] && mem'[next..stop] == buf[next..stop];
    assert buf[start..stop] == mem'[start..stop];
  }

  /** split_sentence.  The fields come back as offsets into the buffer, where the
      first n commas of the text have become NUL and nothing else has changed. */
  method SplitSentence(buf: array<char>, start: nat, numFields: nat, ghost stop: nat) returns (fields: seq<nat>)
    requires IsString(buf, start, stop)
    modifies buf
    ensures buf[start..stop] == Blank(old(buf[start..stop]), numFields)
    ensures fields == Offsets(old(buf[start..stop]), start, numFields)
    ensures buf[..start] == old(buf[..start]) && buf[stop..] == old(buf[stop..])
  {
    fields := [];
    var begin: nat := start;
    ghost var first := Cut("", buf[start..stop], start, [], numFields);
    ghost var c := first;
    while buf[begin] != NUL && |fields| < numFields
      invariant start <= begin <= stop && IsString(buf, begin, stop)
      invariant c.begin == begin && c.done == buf[start..begin] && c.rest == buf[begin..stop]
      invariant c.fields == fields && (c.rest != "" ==> c.room == numFields - |fields|)
      invariant c.done + c.rest == buf[start..stop]
      invariant Final(c) == Final(first)
      invariant buf[..start] == old(buf[..start]) && buf[stop..] == old(buf[stop..])
      decreases stop - begin
    {
      var next, last, blank := Round(buf, start, begin, stop, c);
      c := Advance(c);
      fields := fields + [begin];
      begin := next;
      if blank {
        // the last field, which is blank
        fields := fields + [next];
      }
      if last {
        break;
      }
    }
    assert Final(c) == c;
    FinalBlanks(first);
  }

  /** A field of the split text is the C string at its offset. */
  lemma FieldString(mem: string, t: string, start: nat, stop: nat, n: nat, i: nat)
    requires start <= stop < |mem| && mem[start..stop] == Blank(t, n) && mem[stop] == NUL
    requires NUL !in t && i < |Split(t, n)|
    ensures |Offsets(t, start, n)| == |Split(t, n)| && Offsets(t, start, n)[i] <= |mem|
    ensures CStr(mem[Offsets(t, start, n)[i]..]) == Split(t, n)[i]
  {
    FieldsReadBack(mem[..start], start, t, n, i);
    SplitKeepsOut(t, n, i, NUL);
    StringReads(mem, start, stop, Blank(t, n), Offsets(t, start, n)[i], Split(t, n)[i]);
  }

  lemma StringReads(mem: string, start: nat, stop: nat, blanked: string, o: nat, f: string)
    requires start <= stop < |mem| && mem[start..stop] == blanked && mem[stop] == NUL
    requires LiesAt(mem[..start] + blanked + [NUL], o, f) && NUL !in f
    ensures o <= |mem| && CStr(mem[o..]) == f
  {
    var b := mem[..start] + blanked + [NUL];
    assert b == mem[..stop + 1];
    var tail := mem[o..];
    assert tail[..|f|] == b[o..o + |f|] && tail[|f|] == b[o + |f|];
    IndexOfFirst(tail, NUL, |f|);
  }

  /** The fields as texts, read at their offsets. */
  method FieldTexts(buf: array<char>, fields: seq<nat>, ghost t: string,
                    ghost start: nat, ghost stop: nat, ghost n: nat)
    returns (texts: seq<string>)
    requires start <= stop < buf.Length && buf[start..stop] == Blank(t, n) && buf[stop] == NUL
    requires NUL !in t && fields == Offsets(t, start, n)
    ensures texts == Split(t, n)
  {
    texts := [];
    OffsetsCount(t, start, n);
    for i := 0 to |fields|
      invariant texts == Split(t, n)[..i]
    {
      assert buf[..][start..stop] == buf[start..stop];
      FieldString(buf[..], t, start, stop, n, i);
      assert buf[fields[i]..] == buf[..][fields[i]..];
      texts := texts + [CStr(buf[fields[i]..])];
    }
  }
}
