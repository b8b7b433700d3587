/** What becomes of a CR that has another character than LF behind it
    (src/gypsy-nmea-parser.c). */
module NmeaPairs {
  import opened Seqs
  import opened Text
  import opened NmeaFraming

  /** Every CR that is not the last character has its LF behind it. */
  predicate Paired(t: string) {
    forall i :: 0 <= i < |t| - 1 && t[i] == CR ==> t[i + 1] == LF
  }

  lemma PairedFrom(t: string, eos: nat)
    requires eos == Index(t, CR) && eos + 1 < |t|
    ensures Paired(t) <==> t[eos + 1] == LF && Paired(t[eos + 2..])
  {
    IndexIsFirst(t, CR);
    var rest := t[eos + 2..];
    assert forall j :: 0 <= j < |rest| ==> rest[j] == t[eos + 2 + j];
    if t[eos + 1] == LF && Paired(rest) {
      forall i | 0 <= i < |t| - 1 && t[i] == CR
        ensures t[i + 1] == LF
      {
        if i > eos + 1 {
          assert rest[i - (eos + 2)] == CR;
        }
      }
    }
  }

  lemma PairedToEnd(t: string)
    requires Index(t, CR) + 1 >= |t|
    ensures Paired(t)
  {
    IndexIsFirst(t, CR);
  }

  /** A call leaves no character hidden that was not hidden before if and only
      if every CR that it sees with a character behind it has its LF there. */
  lemma {:induction false} HiddenUnlessPaired<P>(consumer: Consumer<P>, s: Stream<P>)
    requires Ready(consumer, s)
    ensures s.hidden <= HandAll(consumer, s).hidden
    ensures HandAll(consumer, s).hidden == s.hidden <==> Paired(s.visible)
    decreases |s.visible|
  {
    if EndSeen(s) {
      PairedFrom(s.visible, Eos(s));
      HiddenUnlessPaired(consumer, HandOne(consumer, s));
    } else {
      PairedToEnd(s.visible);
    }
  }

  // ------------------------------------------------- a CR without its LF

  /** While a character is hidden, no read is seen and nothing is handed on. */
  lemma {:induction false} HiddenHidesReads<P>(consumer: Consumer<P>, s: Stream<P>, chunks: seq<string>)
    requires s.hidden > 0 && CR !in s.visible && Used(s) + |Flatten(chunks)| < READ_BUFFER_SIZE
    ensures FeedAll(consumer, s, chunks) == s.(hidden := s.hidden + |Flatten(chunks)|)
    decreases |chunks|
  {
    if chunks != [] {
      IndexIsFirst(s.visible, CR);
      HiddenHidesReads(consumer, s.(hidden := s.hidden + |chunks[0]|), chunks[1..]);
    }
  }

  /** A CR with another character behind it blinds the parser: whatever else the
      call sees, whatever is read next, and however that is cut, nothing is seen or
      handed on before the buffer is full.  Then everything in it is given up. */
  lemma StrayCrHides<P>(consumer: Consumer<P>, s: Stream<P>, chunks: seq<string>)
    requires Ready(consumer, s) && s.hidden == 0 && !Paired(s.visible)
    requires Used(HandAll(consumer, s)) + |Flatten(chunks)| <= READ_BUFFER_SIZE
    requires chunks != [] && |chunks[|chunks| - 1]| > 0
    ensures var s1, s2 := HandAll(consumer, s), FeedAll(consumer, HandAll(consumer, s), chunks);
            && s2 == s1.(hidden := s1.hidden + |Flatten(chunks)|)
            && (Used(s2) == READ_BUFFER_SIZE ==> Reset(s2) == s1.(visible := "", hidden := 0))
  {
    HiddenUnlessPaired(consumer, s);
    HandAllTakesCrs(consumer, s);
    var s1, n := HandAll(consumer, s), |chunks| - 1;
    FlattenSnoc(chunks);
    HiddenHidesReads(consumer, s1, chunks[..n]);
    FeedAllSnoc(consumer, s1, chunks);
    var s' := FeedAll(consumer, s1, chunks[..n]);
    IndexIsFirst(s'.visible, CR);
    assert Feed(consumer, s', chunks[n]) == s'.(hidden := s'.hidden + |chunks[n]|);
  }

  lemma {:induction false} FeedAllSnoc<P>(consumer: Consumer<P>, s: Stream<P>, chunks: seq<string>)
    requires chunks != []
    ensures FeedAll(consumer, s, chunks)
         == Feed(consumer, FeedAll(consumer, s, chunks[..|chunks| - 1]), chunks[|chunks| - 1])
    decreases |chunks|
  {
    if |chunks| > 1 {
      FeedAllSnoc(consumer, Feed(consumer, s, chunks[0]), chunks[1..]);
      assert chunks[1..][..|chunks| - 2] == chunks[..|chunks| - 1][1..];
    }
  }

  lemma {:induction false} FlattenSnoc(chunks: seq<string>)
    requires chunks != []
    ensures Flatten(chunks) == Flatten(chunks[..|chunks| - 1]) + chunks[|chunks| - 1]
    decreases |chunks|
  {
    if |chunks| > 1 {
      FlattenSnoc(chunks[1..]);
      assert chunks[1..][..|chunks| - 2] == chunks[..|chunks| - 1][1..];
    } else {
      assert Flatten(chunks[1..]) == "";
    }
  }

  // ------------------------------------------------------- where a call can end

  /** The lines that a call takes one by one; the last has no end yet, or a CR. */
  function LinesIn(t: string): (lines: seq<string>)
    ensures lines != []
    decreases |t|
  {
    var eos := Index(t, CR);
    if eos + 1 < |t| then [t[..eos]] + LinesIn(t[eos + 2..]) else [t[..eos]]
  }

  /** Text that ends in a CR is safe, left being the cell behind its NUL, if it is one
      line and that cell is no CR, or if the line before the last is not blank. */
  predicate EndsSafely(t: string, left: char) {
    EndsInCr(t) ==>
      var lines := LinesIn(t);
      if |lines| == 1 then left != CR else lines[|lines| - 2] != ""
  }

  lemma SafeBehindLine(t: string, left: char, left': char)
    requires var eos := Index(t, CR);
             && eos + 1 < |t| && t[eos + 1] == LF
             && (EndsInCr(t[eos + 2..]) && |LinesIn(t[eos + 2..])| == 1 ==> (left' == CR <==> eos == 0))
    ensures EndsSafely(t, left) <==> EndsSafely(t[Index(t, CR) + 2..], left')
  {
    var eos := Index(t, CR);
    var lines := LinesIn(t[eos + 2..]);
    assert LinesIn(t) == [t[..eos]] + lines;
    assert EndsInCr(t) <==> EndsInCr(t[eos + 2..]);
    if |lines| > 1 {
      assert ([t[..eos]] + lines)[|lines| - 1] == lines[|lines| - 2];
    }
  }

  /** A blank line, and a line of which only the CR has come. */
  const BLANK_LINE_FIRST := [CR, LF, 'C', 'D', CR]

  lemma BlankLineEndsUnsafely(left: char)
    ensures !EndsSafely(BLANK_LINE_FIRST, left)
  {
    var t, rest := BLANK_LINE_FIRST, ['C', 'D', CR];
    IndexOfFirst(t, CR, 0);
    IndexOfFirst(rest, CR, 2);
    assert t[2..] == rest;
    assert LinesIn(rest) == [rest[..2]];
    assert LinesIn(t) == [t[..0]] + [rest[..2]];
  }
}
