/** The NMEA parser object (src/gypsy-nmea-parser.c): a fixed buffer that is
    filled by reads and drained in place.  Proved to do, cell by cell, what
    NmeaMemory says, with the sentence parser as the consumer. */
module NmeaStream {
  import opened Seqs
  import opened Text
  import opened NmeaHandlers
  import opened Sentence
  import opened NmeaParser
  import opened NmeaFraming
  import opened NmeaMemory
  import NmeaContext
  import Scanner

  lemma WorkedIsTidy()
    ensures Tidy(Worked)
  {
    forall s: string
      ensures OnlyNuls(Worked(s), s)
    {
      WorkedWritesNuls(s);
    }
  }

  /** The sentence parser as the consumer of sentences. */
  function Sentences(libc: Libc): Consumer<Parser> {
    WorkedIsTidy();
    Consumer((p: Parser, s: string) => Step(p, libc, Interpret(s)),
             (p: Parser, s: string) => HasRoomFor(p, libc, Interpret(s)),
             Worked)
  }

  class GypsyNmeaParser {
    const ctxt: NmeaContext.NmeaParseContext
    const buffer: array<char>
    var charsInBuffer: nat
    // The sentences handed to the parser so far.
    var handed: seq<string>

    ghost predicate Valid()
      reads this`charsInBuffer
    {
      ctxt.Valid() && buffer.Length == CELLS && charsInBuffer <= READ_BUFFER_SIZE
    }

    ghost function Repr(): set<object> {
      {this, buffer} + ctxt.Repr()
    }

    ghost function Value(): Memory<Parser>
      reads this, buffer, ctxt, ctxt.inUse, ctxt.client, ctxt.client.satellites, ctxt.client.newSatellites
      requires Valid()
    {
      Memory(buffer[..], charsInBuffer, ctxt.Value(), handed)
    }

    constructor ()
      ensures Valid() && fresh(Repr())
      ensures Value() == Memory(seq(CELLS, _ => NUL), 0, START, [])
    {
      ctxt := new NmeaContext.NmeaParseContext();
      buffer := new char[CELLS](_ => NUL);
      charsInBuffer, handed := 0, [];
      new;
      assert buffer[..] == seq(CELLS, _ => NUL);
    }

    method GetBuffer() returns (start: nat, capacity: nat)
      requires Valid()
      modifies this`charsInBuffer
      ensures Valid() && Value() == Offer(old(Value()))
      ensures start == Value().used && start + capacity == READ_BUFFER_SIZE
    {
      if charsInBuffer >= READ_BUFFER_SIZE {
        charsInBuffer := 0;
      }
      start, capacity := charsInBuffer, READ_BUFFER_SIZE - charsInBuffer;
    }

    /** memmove to the front of the buffer */
    method MoveUp(from: nat, count: nat)
      requires from + count <= buffer.Length
      modifies buffer
      ensures buffer[..] == old(buffer[from..from + count] + buffer[count..])
    {
      forall i | 0 <= i < count {
        buffer[i] := buffer[from + i];
      }
    }

    /** The sentence up to the CR is ended there and handed to the parser. */
    method HandText(libc: Libc, eos: nat, ghost cells: string)
      requires Valid() && cells == buffer[..] && eos < CELLS && NUL !in cells[..eos]
      requires HasRoomFor(ctxt.Value(), libc, Interpret(cells[..eos]))
      modifies buffer, this`handed, ctxt.Repr()
      ensures Value() == ParseTo(Sentences(libc), old(Value()), eos)
    {
      buffer[eos] := NUL;
      ghost var ended := buffer[..];
      SentenceEnded(cells, ended, eos);
      assert buffer[..eos] == ended[..eos] && buffer[eos..] == ended[eos..];
      handed := handed + [buffer[..eos]];
      var ok := ParseSentence(ctxt, libc, buffer, eos);
      assert buffer[..] == buffer[..eos] + buffer[eos..];
      assert buffer[..] == Worked(cells[..eos]) + [NUL] + cells[eos + 1..];
    }

    /** The sentence up to the CR at eos, if there is one to be parsed. */
    method ParseAt(libc: Libc, eos: nat) returns (sentenceLength: nat)
      requires Valid() && Found(Value()) && eos == At(Value()) && eos + 1 < CELLS && NUL !in buffer[..eos]
      requires Taken(Value()) > 1 ==> HasRoomFor(ctxt.Value(), libc, Interpret(buffer[..eos]))
      modifies buffer, this`handed, ctxt.Repr()
      ensures Value() == Parse(Sentences(libc), old(Value())) && sentenceLength == Taken(old(Value()))
    {
      ghost var cells := buffer[..];
      assert cells[..eos] == buffer[..eos];
      sentenceLength := eos;
      if buffer[eos + 1] == LF {
        sentenceLength := sentenceLength + 2;
      } else {
        sentenceLength := sentenceLength + 1;
      }
      if sentenceLength > 1 {
        HandText(libc, eos, cells);
      }
    }

    /** What is behind the sentence moves up. */
    method Remove(eos: nat, sentenceLength: nat)
      requires Valid() && eos + 1 <= sentenceLength <= charsInBuffer
      modifies buffer, this`charsInBuffer
      ensures Valid() && Value() == NmeaMemory.Remove(old(Value()), eos + 2, sentenceLength)
    {
      ghost var cells := buffer[..];
      var count := charsInBuffer - sentenceLength + 1;
      assert cells[eos + 2..eos + 2 + count] == buffer[eos + 2..eos + 2 + count] && cells[count..] == buffer[count..];
      MoveUp(eos + 2, count);
      charsInBuffer := charsInBuffer - sentenceLength;
    }

    /** The body of the loop, from the CR at eos on. */
    method TakeSentence(libc: Libc, eos: nat)
      requires Valid() && Found(Value()) && eos == At(Value()) && Taken(Value()) <= charsInBuffer
      requires Taken(Value()) > 1 ==> HasRoomFor(ctxt.Value(), libc, Interpret(buffer[..eos]))
      modifies Repr()
      ensures Valid() && Value() == Round(Sentences(libc), old(Value()))
    {
      FoundLies(Value());
      assert buffer[..eos] == Value().cells[..eos];
      var sentenceLength := ParseAt(libc, eos);
      Remove(eos, sentenceLength);
    }

    /** strchr for the CR */
    method FindEos() returns (eos: nat)
      requires Valid() && NUL in buffer[..]
      ensures eos == At(Value()) && eos < CELLS && (buffer[eos] == NUL <==> !Found(Value()))
    {
      ghost var stop := |Searched(Value())|;
      SearchedEnds(Value());
      assert buffer[0..stop] == Searched(Value());
      eos := Scanner.Find(buffer, 0, CR, stop);
    }

    /** Between the rounds: eos is where the next sentence ends, the rounds to
        come lead to the state goal. */
    ghost predicate Looking(libc: Libc, eos: nat, goal: Memory<Parser>)
      reads this, buffer, ctxt, ctxt.inUse, ctxt.client, ctxt.client.satellites, ctxt.client.newSatellites
    {
      && Valid() && eos == At(Value()) && eos < CELLS && (buffer[eos] == NUL <==> !Found(Value()))
      && Sane(Sentences(libc), Value()) && Rounds(Sentences(libc), Value()) == goal
    }

    /** The body of the loop and the next search. */
    method TakeNext(libc: Libc, eos: nat, ghost goal: Memory<Parser>) returns (next: nat)
      requires Looking(libc, eos, goal) && buffer[eos] != NUL
      modifies Repr()
      ensures Looking(libc, next, goal)
      ensures charsInBuffer < old(charsInBuffer)
    {
      ghost var was := Value();
      assert Sane(Sentences(libc), Round(Sentences(libc), was));
      TakeSentence(libc, eos);
      next := FindEos();
    }

    /** The characters read are counted and ended by a NUL. */
    method EndText(length: nat)
      requires Valid() && charsInBuffer + length <= READ_BUFFER_SIZE
      modifies this`charsInBuffer, buffer
      ensures Valid() && Value() == Read(old(Value()), old(buffer[charsInBuffer..charsInBuffer + length]))
    {
      ghost var was, used := buffer[..], charsInBuffer;
      charsInBuffer := charsInBuffer + length;
      buffer[charsInBuffer] := NUL;
      assert buffer[..] == was[charsInBuffer := NUL];
      ChunkEnded(was, used, charsInBuffer, old(buffer[charsInBuffer..charsInBuffer + length]));
    }

    /** The loop ends because every round leaves fewer characters in use. */
    method ReceivedData(libc: Libc, length: nat, ghost chunk: string)
      requires Valid() && charsInBuffer + length <= READ_BUFFER_SIZE
      requires chunk == buffer[charsInBuffer..charsInBuffer + length]
      requires Sane(Sentences(libc), Read(Value(), chunk))
      modifies Repr()
      ensures Valid()
      ensures Value() == Rounds(Sentences(libc), Read(old(Value()), chunk))
    {
      EndText(length);
      ghost var goal := Rounds(Sentences(libc), Value());
      var eos := FindEos();
      while buffer[eos] != NUL
        invariant Looking(libc, eos, goal)
        decreases charsInBuffer
      {
        eos := TakeNext(libc, eos, goal);
      }
    }

    /** The channel reads behind the characters in use, and changes nothing that
        the read does not join. */
    method Fill(chunk: string)
      requires Valid() && charsInBuffer + |chunk| <= READ_BUFFER_SIZE
      modifies buffer
      ensures buffer[charsInBuffer..charsInBuffer + |chunk|] == chunk
      ensures Read(Value(), chunk) == Read(old(Value()), chunk)
    {
      ghost var was, end := buffer[..], charsInBuffer + |chunk|;
      forall i | 0 <= i < |chunk| {
        buffer[charsInBuffer + i] := chunk[i];
      }
      ghost var cells := buffer[..];
      assert cells[..end] == was[..charsInBuffer] + chunk && cells[end + 1..] == was[end + 1..];
      ReadAgain(old(Value()), chunk, cells);
      assert buffer[charsInBuffer..end] == cells[charsInBuffer..end];
      assert Value() == old(Value()).(cells := cells);
    }

    /** The space is offered and read into. */
    method Accept(chunk: string)
      requires Valid() && Offer(Value()).used + |chunk| <= READ_BUFFER_SIZE
      modifies this`charsInBuffer, buffer
      ensures Valid() && charsInBuffer + |chunk| <= READ_BUFFER_SIZE
      ensures buffer[charsInBuffer..charsInBuffer + |chunk|] == chunk
      ensures Read(Value(), chunk) == Read(Offer(old(Value())), chunk)
    {
      var start, capacity := GetBuffer();
      Fill(chunk);
    }

    /** One input event: offer the space, read into it, take the sentences out. */
    method Input(libc: Libc, chunk: string)
      requires Valid() && SaneRead(Sentences(libc), Value(), chunk)
      modifies Repr()
      ensures Valid() && Value() == TakeIn(Sentences(libc), old(Value()), chunk)
    {
      Accept(chunk);
      ReceivedData(libc, |chunk|, chunk);
    }
  }

  lemma SentenceEnded(cells: string, ended: string, eos: nat)
    requires eos < |cells| && ended == cells[eos := NUL]
    ensures ended[..eos] == cells[..eos] && ended[eos..] == [NUL] + cells[eos + 1..]
  {
  }

  lemma ChunkEnded(was: string, used: nat, end: nat, chunk: string)
    requires used <= end < |was| && chunk == was[used..end]
    ensures was[end := NUL] == was[..used] + chunk + [NUL] + was[end + 1..]
  {
  }

  /** Reading what is already there changes nothing else. */
  lemma ReadAgain<P>(m: Memory<P>, chunk: string, cells: string)
    requires Sized(m) && m.used + |chunk| <= READ_BUFFER_SIZE && |cells| == CELLS
    requires cells[..m.used + |chunk|] == m.cells[..m.used] + chunk
    requires cells[m.used + |chunk| + 1..] == m.cells[m.used + |chunk| + 1..]
    ensures cells[m.used..m.used + |chunk|] == chunk && Read(m.(cells := cells), chunk) == Read(m, chunk)
  {
    var end := m.used + |chunk|;
    assert cells[m.used..end] == cells[..end][m.used..];
    assert cells[..m.used] == cells[..end][..m.used] == m.cells[..m.used];
  }

  lemma SearchedEnds<P>(m: Memory<P>)
    requires NUL in m.cells
    ensures var stop := |Searched(m)|;
            && stop < |m.cells| && m.cells[stop] == NUL && m.cells[..stop] == Searched(m) && NUL !in m.cells[..stop]
  {
    IndexIsFirst(m.cells, NUL);
  }

  /** The CR found and the cell behind it lie in the buffer. */
  lemma FoundLies<P>(m: Memory<P>)
    requires Sized(m) && Found(m) && Taken(m) <= m.used
    ensures At(m) + 1 < CELLS && NUL !in m.cells[..At(m)] && m.cells[..At(m)] == Searched(m)[..At(m)]
  {
    IndexIsFirst(m.cells, NUL);
  }
}
