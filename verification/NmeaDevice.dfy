/** A device end to end: what the client says is a function of the bytes alone. */
module NmeaDevice {
  import opened Seqs
  import opened Text
  import opened Assembly
  import opened NmeaHandlers
  import opened NmeaRuns
  import opened NmeaFraming
  import opened NmeaLines
  import opened NmeaMemory
  import opened NmeaPairs
  import opened NmeaParser
  import opened NmeaReads
  import opened NmeaStream
  import opened Sentence

  /** What each sentence says. */
  function Events(sentences: seq<string>): seq<Event> {
    if sentences == [] then [] else [Interpret(sentences[0])] + Events(sentences[1..])
  }

  lemma {:induction false} EventAt(sentences: seq<string>, i: nat)
    requires i < |sentences|
    ensures i < |Events(sentences)| == |sentences| && Events(sentences)[i] == Interpret(sentences[i])
    decreases |sentences|
  {
    if i > 0 {
      EventAt(sentences[1..], i - 1);
    } else {
      EventsCount(sentences[1..]);
    }
  }

  lemma {:induction false} EventsCount(sentences: seq<string>)
    ensures |Events(sentences)| == |sentences|
    decreases |sentences|
  {
    if sentences != [] {
      EventsCount(sentences[1..]);
    }
  }

  lemma AfterOne(libc: Libc, events: seq<Event>, next: Event)
    ensures After(libc, events + [next]) == Step(After(libc, events), libc, next)
  {
    assert (events + [next])[..|events|] == events;
  }

  lemma GroupsSoFar(libc: Libc, events: seq<Event>, more: seq<Event>)
    requires GroupsDeclareWell(libc, events + more)
    ensures GroupsDeclareWell(libc, events)
  {
    forall i | 0 <= i < |events|
      ensures (events + more)[i] == events[i]
    {
    }
  }

  /** No event has a field outside the union of field arrays, which by LeavesUnion
      can be seen in the text of its sentence. */
  predicate FieldsFit(events: seq<Event>) {
    forall i :: 0 <= i < |events| ==> InUnion(events[i])
  }

  /** The staging array has room for the next sentence. */
  lemma NextIsReady(libc: Libc, events: seq<Event>, s: string, next: Event)
    requires next == Interpret(s) && GroupsDeclareWell(libc, events + [next]) && InUnion(next)
    ensures Sentences(libc).ready(After(libc, events), s)
    ensures Sentences(libc).step(After(libc, events), s) == After(libc, events + [next])
  {
    SentenceHasRoom(libc, events, next);
    AfterOne(libc, events, next);
  }

  lemma FirstEvent(events: seq<Event>, more: seq<Event>, first: Event, all: seq<Event>)
    requires all == [first] + more
    ensures events + all == events + [first] + more
    ensures FieldsFit(all) ==> InUnion(first) && FieldsFit(more)
  {
    if FieldsFit(all) {
      assert all[0] == first;
      forall i | 0 <= i < |more|
        ensures InUnion(more[i])
      {
        assert all[i + 1] == more[i];
      }
    }
  }

  /** Sentence by sentence the parser takes the run of what they say, and it can
      always take the next one. */
  lemma {:induction false} SentencesAreARun(libc: Libc, events: seq<Event>, sentences: seq<string>)
    requires GroupsDeclareWell(libc, events + Events(sentences)) && FieldsFit(Events(sentences))
    ensures ParseAll(Sentences(libc), After(libc, events), sentences) == After(libc, events + Events(sentences))
    ensures ReadyForAll(Sentences(libc), After(libc, events), sentences)
    decreases |sentences|
  {
    if sentences == [] {
      assert events + Events(sentences) == events;
    } else {
      var next, more := Interpret(sentences[0]), Events(sentences[1..]);
      FirstEvent(events, more, next, Events(sentences));
      GroupsSoFar(libc, events + [next], more);
      NextIsReady(libc, events, sentences[0], next);
      SentencesAreARun(libc, events + [next], sentences[1..]);
    }
  }

  lemma WholeRun(libc: Libc, sentences: seq<string>)
    requires GroupsDeclareWell(libc, Events(sentences)) && FieldsFit(Events(sentences))
    ensures ParseAll(Sentences(libc), START, sentences) == After(libc, Events(sentences))
    ensures ReadyForAll(Sentences(libc), START, sentences)
  {
    assert [] + Events(sentences) == Events(sentences);
    SentencesAreARun(libc, [], sentences);
  }

  /** The parser before anything has been read, and what is seen of it. */
  const FRESH := Memory(seq(CELLS, _ => NUL), 0, START, [])
  const BEGINNING := Stream("", 0, START, [])

  lemma FreshIsEmpty()
    ensures Sized(FRESH) && View(FRESH) == BEGINNING
  {
    assert FRESH.cells[..0] == "";
  }

  /** What a device must send: sentences that fit the buffer, whose groups declare
      1 to 8 messages and whose fields fit the field arrays. */
  predicate WellSent(libc: Libc, sentences: seq<string>, tail: string) {
    && Sendable(sentences, tail)
    && GroupsDeclareWell(libc, Events(sentences)) && FieldsFit(Events(sentences))
  }

  /** The bytes of a device, cut into reads that fit the offered space. */
  ghost predicate IsRead(libc: Libc, chunks: seq<string>, sentences: seq<string>, tail: string) {
    && Flatten(chunks) == Bytes(sentences, tail) && WellSent(libc, sentences, tail)
    && Offered(Sentences(libc), BEGINNING, chunks)
  }

  lemma BeginningStarts(libc: Libc, chunks: seq<string>, sentences: seq<string>, tail: string)
    requires IsRead(libc, chunks, sentences, tail)
    ensures Starts(BEGINNING, Flatten(chunks), sentences, tail)
  {
    assert "" + Flatten(chunks) == Bytes(sentences, tail);
  }

  /** However the bytes of a device are cut into reads that keep CR and LF
      together, no access leaves the buffer, and the parser ends up as after the
      run of its sentences: the theorems about runs in NmeaRuns and Assembly hold
      of every such device. */
  lemma DeviceRuns(libc: Libc, chunks: seq<string>, sentences: seq<string>, tail: string)
    requires IsRead(libc, chunks, sentences, tail) && KeepsPairs(chunks)
    ensures Sized(FRESH) && AllSane(Sentences(libc), FRESH, chunks)
    ensures View(TakeAll(Sentences(libc), FRESH, chunks))
         == Stream(tail, 0, After(libc, Events(sentences)), sentences)
  {
    BeginningStarts(libc, chunks, sentences, tail);
    FreshIsEmpty();
    WholeRun(libc, sentences);
    ChunkingIndependence(Sentences(libc), BEGINNING, chunks, sentences, tail);
    TakeAllView(Sentences(libc), FRESH, chunks);
    assert [] + sentences == sentences;
  }

  /** The pairs are exactly what it takes: among the reads that never leave the
      buffer, those that keep CR and LF together are the ones that end up there. */
  lemma PairsDecide(libc: Libc, chunks: seq<string>, sentences: seq<string>, tail: string)
    requires IsRead(libc, chunks, sentences, tail)
    requires Sized(FRESH) && AllSane(Sentences(libc), FRESH, chunks)
    ensures KeepsPairs(chunks) <==>
            View(TakeAll(Sentences(libc), FRESH, chunks)) ==
            Stream(tail, 0, After(libc, Events(sentences)), sentences)
  {
    BeginningStarts(libc, chunks, sentences, tail);
    FreshIsEmpty();
    WholeRun(libc, sentences);
    FramesExactly(Sentences(libc), BEGINNING, chunks, sentences, tail);
    SplitsAreTaken(libc, chunks, sentences, tail);
    assert [] + sentences == sentences;
  }

  /** So what a listener knows is the client's state, and the satellites are
      those of the assembly, whatever the chunking. */
  lemma DeviceIsHeard(libc: Libc, chunks: seq<string>, sentences: seq<string>, tail: string)
    requires IsRead(libc, chunks, sentences, tail) && KeepsPairs(chunks)
    ensures Sized(FRESH) && AllSane(Sentences(libc), FRESH, chunks)
    ensures var p := TakeAll(Sentences(libc), FRESH, chunks).parser;
            Heard(p.client) && StageOf(p) == ReceiveAll(Items(libc, Events(sentences)))
  {
    DeviceRuns(libc, chunks, sentences, tail);
    assert TakeAll(Sentences(libc), FRESH, chunks).parser == View(TakeAll(Sentences(libc), FRESH, chunks)).parser;
    RunHeard(libc, Events(sentences));
    RunReceives(libc, Events(sentences));
  }

  // ---------------------------------------------------------- any reads at all

  /** With the LF in front, or with nothing at all, a sentence is rejected. */
  lemma SentencesSkipLf(libc: Libc)
    ensures SkipsLf(Sentences(libc))
  {
    forall p: Parser, t: string | t == "" || t[0] == LF
      ensures Sentences(libc).ready(p, t) && Sentences(libc).step(p, t) == p
    {
      assert Interpret(t) == Rejected;
    }
  }

  /** Of some of the sentences the groups declare well and the fields fit too. */
  lemma SomeSentWell(libc: Libc, sentences: seq<string>, some: seq<string>)
    requires GroupsDeclareWell(libc, Events(sentences)) && FieldsFit(Events(sentences))
    requires forall s :: s in some ==> s in sentences
    ensures GroupsDeclareWell(libc, Events(some)) && FieldsFit(Events(some))
  {
    EventsCount(some);
    forall i | 0 <= i < |some|
      ensures exists j :: 0 <= j < |Events(sentences)| && Events(sentences)[j] == Events(some)[i]
    {
      assert some[i] in sentences;
      var j :| 0 <= j < |sentences| && sentences[j] == some[i];
      EventAt(some, i);
      EventAt(sentences, j);
    }
  }

  /** The parser after what is handed on in any reads: it has taken what is kept. */
  lemma KeptAreARun(libc: Libc, sentences: seq<string>, now: nat, later: seq<string>)
    requires GroupsDeclareWell(libc, Events(sentences)) && FieldsFit(Events(sentences)) && AllFit(sentences)
    ensures var x, kept := HandedOn(false, 0, sentences, now, later), Kept(false, 0, sentences, now, later);
            && ParseAll(Sentences(libc), START, x) == After(libc, Events(kept))
            && ReadyForAll(Sentences(libc), START, x)
  {
    var kept := Kept(false, 0, sentences, now, later);
    SentencesSkipLf(libc);
    KeptDecide(Sentences(libc), START, false, 0, sentences, now, later);
    forall s | s in kept
      ensures s in sentences
    {
      KeptWasSent(false, 0, sentences, now, later, s);
    }
    SomeSentWell(libc, sentences, kept);
    WholeRun(libc, kept);
  }

  /** Any reads at all: what is handed on is each sentence, with the LF of the line
      before in front exactly when a read has ended before that LF; the sentences
      with the LF are lost and no others; and no call leaves the buffer if and only
      if every read is safe. */
  lemma SplitsAreTaken(libc: Libc, chunks: seq<string>, sentences: seq<string>, tail: string)
    requires IsRead(libc, chunks, sentences, tail)
    ensures AlwaysReady(Sentences(libc), BEGINNING, chunks)
    ensures var s' := FeedAll(Sentences(libc), BEGINNING, chunks);
            && s'.hidden == 0 && s'.handed == HandedOn(false, 0, sentences, 0, chunks)
            && s'.parser == After(libc, Events(Kept(false, 0, sentences, 0, chunks)))
            && IsPending(Lead(LfLeft(false, 0, sentences, 0, chunks)) + tail, s'.visible)
    ensures Sized(FRESH) && (AllSane(Sentences(libc), FRESH, chunks) <==> AllSafe(Sentences(libc), FRESH, chunks))
    ensures AllSane(Sentences(libc), FRESH, chunks) ==>
              View(TakeAll(Sentences(libc), FRESH, chunks)) == FeedAll(Sentences(libc), BEGINNING, chunks)
  {
    var x := HandedOn(false, 0, sentences, 0, chunks);
    BeginningStarts(libc, chunks, sentences, tail);
    StartsBetween(BEGINNING, Flatten(chunks), sentences, tail);
    HandedExactly(Sentences(libc), BEGINNING, chunks, "", false, sentences, tail);
    KeptAreARun(libc, sentences, 0, chunks);
    assert [] + x == x;
    FreshIsEmpty();
    RunsSaneExactly(Sentences(libc), FRESH, chunks, "", false, sentences, tail);
    TakeAllView(Sentences(libc), FRESH, chunks);
  }

  lemma BlankLineBytes()
    ensures BLANK_LINE_FIRST + [LF] == Bytes(["", "CD"], "")
  {
    var ss := ["", "CD"];
    assert ss[1..] == ["CD"] && ss[1..][1..] == [];
    assert Bytes(["CD"], "") == "CD" + [CR, LF] + "";
    assert Bytes(ss, "") == "" + [CR, LF] + Bytes(["CD"], "");
  }

  /** Why the line before counts: a blank line moves the read's own CR behind its
      NUL, where the call finds it, although all cells were NUL before. */
  lemma BlankLineIsUnsafe(libc: Libc)
    ensures Sized(FRESH) && FRESH.cells[|BLANK_LINE_FIRST| + 1] == NUL
    ensures !SaneRead(Sentences(libc), FRESH, BLANK_LINE_FIRST)
  {
    var t := BLANK_LINE_FIRST;
    FreshIsEmpty();
    BlankLineBytes();
    assert "" + "" + (t + [LF]) == Lead(false) + Bytes(["", "CD"], "");
    ReadSaneExactly(Sentences(libc), FRESH, t, [LF], "", false, ["", "CD"], "");
    BlankLineEndsUnsafely(FRESH.cells[|t| + 1]);
    assert View(Offer(FRESH)).visible + t == t;
  }
}
