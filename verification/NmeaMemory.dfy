/** The buffer of the NMEA parser cell by cell, with the cells that earlier
    sentences have left behind, and the text that NmeaFraming sees in it. */
module NmeaMemory {
  import opened Seqs
  import opened Text
  import opened NmeaFraming
  import opened NmeaLines
  import opened NmeaPairs

  /** One cell more than READ_BUFFER_SIZE + 1: the memmove behind a CR without LF
      reads the padding byte that follows the buffer. */
  const CELLS := 1026

  datatype Memory<P> = Memory(cells: string, used: nat, parser: P, handed: seq<string>)

  predicate Sized<P>(m: Memory<P>) {
    |m.cells| == CELLS && m.used <= READ_BUFFER_SIZE
  }

  /** get_buffer */
  function Offer<P>(m: Memory<P>): Memory<P> {
    if m.used >= READ_BUFFER_SIZE then m.(used := 0) else m
  }

  /** A read comes to lie behind the characters in use, which it then joins. */
  function Read<P>(m: Memory<P>, chunk: string): Memory<P>
    requires Sized(m) && m.used + |chunk| <= READ_BUFFER_SIZE
  {
    var end := m.used + |chunk|;
    m.(cells := m.cells[..m.used] + chunk + [NUL] + m.cells[end + 1..], used := end)
  }

  /** What strchr searches: the cells up to the first NUL, used or not. */
  function Searched<P>(m: Memory<P>): string {
    CStr(m.cells)
  }

  function At<P>(m: Memory<P>): nat {
    Index(Searched(m), CR)
  }

  predicate Found<P>(m: Memory<P>) {
    At(m) < |Searched(m)|
  }

  /** The cell behind the CR, which there is: at the latest the NUL. */
  predicate LfAt<P>(m: Memory<P>) {
    At(m) + 1 < |m.cells| && m.cells[At(m) + 1] == LF
  }

  /** sentence_length */
  function Taken<P>(m: Memory<P>): nat {
    At(m) + (if LfAt(m) then 2 else 1)
  }

  /** The sentence up to a place is parsed where it lies. */
  function ParseTo<P>(consumer: Consumer<P>, m: Memory<P>, at: nat): (m': Memory<P>)
    requires Sized(m) && at < CELLS
    ensures Sized(m') && m'.used == m.used
  {
    var sentence := m.cells[..at];
    assert OnlyNuls(consumer.work(sentence), sentence);
    m.(cells := consumer.work(sentence) + [NUL] + m.cells[at + 1..],
       parser := consumer.step(m.parser, sentence),
       handed := m.handed + [sentence])
  }

  function Parse<P>(consumer: Consumer<P>, m: Memory<P>): (m': Memory<P>)
    requires Sized(m) && Found(m)
    ensures Sized(m') && m'.used == m.used
  {
    if Taken(m) == 1 then m else ParseTo(consumer, m, At(m))
  }

  /** So many characters are taken; what moves to the front, with the cell behind
      it, comes from a place in the buffer, whatever lies there. */
  function Remove<P>(m: Memory<P>, from: nat, taken: nat): (m': Memory<P>)
    requires Sized(m) && taken <= m.used && from + (m.used - taken + 1) <= CELLS
    ensures Sized(m')
  {
    var count := m.used - taken + 1;
    m.(cells := m.cells[from..from + count] + m.cells[count..], used := m.used - taken)
  }

  /** One round of the loop: what moves comes from two cells behind the CR. */
  function Round<P>(consumer: Consumer<P>, m: Memory<P>): (m': Memory<P>)
    requires Sized(m) && Found(m) && Taken(m) <= m.used
    ensures Sized(m') && m'.used == m.used - Taken(m)
  {
    Remove(Parse(consumer, m), At(m) + 2, Taken(m))
  }

  /** The loop stays within the buffer: each search ends at a NUL, no round takes
      more than is there, and the consumer takes each sentence. */
  predicate Sane<P>(consumer: Consumer<P>, m: Memory<P>)
    decreases m.used
  {
    && Sized(m) && NUL in m.cells
    && (Found(m) ==>
          && Taken(m) <= m.used
          && (Taken(m) > 1 ==> consumer.ready(m.parser, m.cells[..At(m)]))
          && Sane(consumer, Round(consumer, m)))
  }

  /** All the rounds of one call. */
  function Rounds<P>(consumer: Consumer<P>, m: Memory<P>): (m': Memory<P>)
    requires Sane(consumer, m)
    ensures Sized(m')
    decreases m.used
  {
    if Found(m) then Rounds(consumer, Round(consumer, m)) else m
  }

  // ------------------------------------------------------- the text that is seen

  /** What NmeaFraming makes of the cells in use. */
  function View<P>(m: Memory<P>): Stream<P>
    requires Sized(m)
  {
    var visible := CStr(m.cells[..m.used]);
    Stream(visible, m.used - |visible|, m.parser, m.handed)
  }

  /** The search stops where the text that is seen stops. */
  predicate Ended<P>(m: Memory<P>) {
    Sized(m) && Searched(m) == View(m).visible && NUL in m.cells
  }

  lemma OfferView<P>(m: Memory<P>)
    requires Sized(m)
    ensures Sized(Offer(m)) && View(Offer(m)) == Reset(View(m))
  {
  }

  lemma ReadText(cells: string, used: nat, chunk: string, cells': string)
    requires used + |chunk| + 1 <= |cells| && cells' == cells[..used] + chunk + [NUL] + cells[used + |chunk| + 1..]
    ensures var v, v' := CStr(cells[..used]), CStr(cells'[..used + |chunk|]);
            && (|v| < used ==> v' == v)
            && (|v| == used ==> v' == CStr(v + chunk))
            && CStr(cells') == v' && NUL in cells'
  {
    var v, text := CStr(cells[..used]), cells[..used] + chunk;
    assert cells'[..used + |chunk|] == text && cells'[used + |chunk|] == NUL;
    IndexIsFirst(cells[..used], NUL);
    if |v| < used {
      assert text[..|v|] == v && text[|v|] == NUL;
      IndexOfFirst(text, NUL, |v|);
    } else {
      assert cells[..used] == v;
    }
    IndexIsFirst(text, NUL);
    assert cells'[..|CStr(text)|] == CStr(text);
    assert |CStr(text)| < |text| ==> cells'[|CStr(text)|] == text[|CStr(text)|];
    IndexOfFirst(cells', NUL, |CStr(text)|);
  }

  lemma ReadView<P>(m: Memory<P>, chunk: string)
    requires Sized(m) && m.used + |chunk| <= READ_BUFFER_SIZE
    ensures Ended(Read(m, chunk)) && View(Read(m, chunk)) == Append(View(m), chunk)
  {
    ReadText(m.cells, m.used, chunk, Read(m, chunk).cells);
  }

  /** In an ended memory the cells begin with the text and a NUL. */
  lemma EndedCells<P>(m: Memory<P>)
    requires Ended(m)
    ensures var t := View(m).visible;
            && |t| <= m.used && |t| < CELLS && NUL !in t
            && m.cells[..|t|] == t && m.cells[|t|] == NUL && At(m) == Eos(View(m))
  {
    IndexIsFirst(m.cells, NUL);
  }

  lemma MovedText(cells: string, from: nat, count: nat, text: string, moved: string)
    requires from + count <= |cells| == |moved| && 0 < count && moved == cells[from..from + count] + cells[count..]
    requires NUL !in text && |text| < count && cells[from..from + |text|] == text && cells[from + |text|] == NUL
    ensures CStr(moved) == text == CStr(moved[..count - 1]) && NUL in moved
  {
    assert moved[..|text|] == text && moved[|text|] == NUL;
    IndexOfFirst(moved, NUL, |text|);
    assert moved[..count - 1][..|text|] == text;
    assert |text| < count - 1 ==> moved[..count - 1][|text|] == NUL;
    IndexOfFirst(moved[..count - 1], NUL, |text|);
  }

  lemma ParsedCells<P>(consumer: Consumer<P>, m: Memory<P>)
    requires Sized(m) && Found(m)
    ensures |Parse(consumer, m).cells| == CELLS
    ensures Parse(consumer, m).cells[At(m) + 1..] == m.cells[At(m) + 1..]
  {
    assert OnlyNuls(consumer.work(m.cells[..At(m)]), m.cells[..At(m)]);
  }

  lemma SliceBehind(cells: string, n: nat, i: nat, j: nat)
    requires n <= i <= j <= |cells|
    ensures cells[i..j] == cells[n..][i - n..j - n]
  {
  }

  lemma BehindParsed<P>(consumer: Consumer<P>, m: Memory<P>, i: nat, j: nat)
    requires Sized(m) && Found(m) && At(m) + 1 <= i <= j <= CELLS
    ensures |Parse(consumer, m).cells| == CELLS && Parse(consumer, m).cells[i..j] == m.cells[i..j]
  {
    ParsedCells(consumer, m);
    var n, cells, p := At(m) + 1, m.cells, Parse(consumer, m).cells;
    SliceBehind(cells, n, i, j);
    SliceBehind(p, n, i, j);
  }

  lemma RoundFinds<P>(consumer: Consumer<P>, m: Memory<P>)
    requires Ended(m) && EndSeen(View(m))
    ensures Found(m) && Taken(m) <= m.used && At(m) == Eos(View(m))
    ensures (LfAt(m) <==> LfFollows(View(m))) && (Taken(m) > 1 <==> IsHanded(View(m)))
    ensures m.cells[..At(m)] == View(m).visible[..Eos(View(m))]
  {
    EndedCells(m);
    var t, eos := View(m).visible, At(m);
    assert m.cells[eos + 1] == t[eos + 1] && m.cells[..eos] == t[..eos];
  }

  /** The text behind the sentence, with its NUL, is where the move begins. */
  lemma RoundText<P>(consumer: Consumer<P>, m: Memory<P>, t: string, eos: nat)
    requires Ended(m) && t == View(m).visible && eos == At(m) && eos + 1 < |t| && Found(m)
    ensures var cells := Parse(consumer, m).cells;
            |cells| == CELLS && cells[eos + 2..|t|] == t[eos + 2..] && cells[|t|] == NUL
  {
    EndedCells(m);
    BehindParsed(consumer, m, eos + 2, |t|);
    BehindParsed(consumer, m, |t|, |t| + 1);
    var cells := Parse(consumer, m).cells;
    assert m.cells[eos + 2..|t|] == t[eos + 2..];
    assert cells[|t|] == cells[|t|..|t| + 1][0] && m.cells[|t|] == m.cells[|t|..|t| + 1][0];
  }

  lemma RoundMoves<P>(consumer: Consumer<P>, m: Memory<P>, t: string, eos: nat)
    requires Ended(m) && t == View(m).visible && eos == At(m) && eos + 1 < |t| && Found(m) && Taken(m) <= m.used
    ensures var m' := Round(consumer, m);
            CStr(m'.cells) == t[eos + 2..] == CStr(m'.cells[..m'.used]) && NUL in m'.cells
  {
    EndedCells(m);
    RoundText(consumer, m, t, eos);
    var count := m.used - Taken(m) + 1;
    assert t[eos + 2..] <= t[eos + 2..];
    MovedText(Parse(consumer, m).cells, eos + 2, count, t[eos + 2..], Round(consumer, m).cells);
  }

  /** A round whose CR has something visible behind it is one of NmeaFraming. */
  lemma RoundView<P>(consumer: Consumer<P>, m: Memory<P>)
    requires Ended(m) && EndSeen(View(m))
    ensures Found(m) && Taken(m) <= m.used
    ensures Ended(Round(consumer, m)) && View(Round(consumer, m)) == HandOne(consumer, View(m))
  {
    RoundFinds(consumer, m);
    RoundMoves(consumer, m, View(m).visible, At(m));
  }

  // ----------------------------------------------------- a CR at the very end

  /** The CR is the last of all characters. */
  predicate Lone<P>(s: Stream<P>) {
    s.hidden == 0 && Eos(s) + 1 == |s.visible|
  }

  lemma LoneFinds<P>(m: Memory<P>)
    requires Ended(m) && Lone(View(m))
    ensures Found(m) && Taken(m) == m.used == At(m) + 1 && At(m) == Eos(View(m)) && m.used + 1 < CELLS
    ensures m.cells[..At(m)] == View(m).visible[..Eos(View(m))] && m.cells[m.used] == NUL
    ensures CR !in m.cells[..At(m)]
  {
    EndedCells(m);
    IndexIsFirst(View(m).visible, CR);
    assert m.cells[At(m) + 1] == NUL;
    assert m.cells[..At(m)] == m.cells[..m.used][..At(m)];
  }

  /** One old cell comes to the front; behind it lies what the sentence has left,
      up to a NUL in the place of the CR or behind it. */
  lemma LoneMoves<P>(consumer: Consumer<P>, m: Memory<P>, stop: nat)
    requires Ended(m) && Lone(View(m)) && Found(m) && Taken(m) == m.used == At(m) + 1
    requires CR !in m.cells[..At(m)] && m.cells[m.used] == NUL
    requires stop == if At(m) == 0 then 1 else At(m)
    ensures var cells := Round(consumer, m).cells;
            && cells[0] == m.cells[m.used + 1] && cells[stop] == NUL
            && forall i :: 1 <= i < stop ==> cells[i] != CR
  {
    var at := At(m);
    var work := consumer.work(m.cells[..at]);
    assert OnlyNuls(work, m.cells[..at]);
    assert forall i :: 0 <= i < at ==> m.cells[..at][i] != CR;
    var p := Parse(consumer, m).cells;
    ParsedCells(consumer, m);
    assert p[at + 2] == p[at + 1..][1] && p[at + 1] == p[at + 1..][0];
    assert m.cells[at + 2] == m.cells[at + 1..][1] && m.cells[at + 1] == m.cells[at + 1..][0];
    assert Round(consumer, m).cells == p[at + 2..at + 3] + p[1..];
  }

  lemma FrontDecides(cells: string, stop: nat)
    requires 1 <= stop < |cells| && cells[stop] == NUL && forall i :: 1 <= i < stop ==> cells[i] != CR
    ensures NUL in cells
    ensures Index(CStr(cells), CR) < |CStr(cells)| <==> cells[0] == CR
  {
    IndexIsFirst(cells, NUL);
    IndexIsFirst(CStr(cells), CR);
    if cells[0] == CR {
      assert CStr(cells)[0] == CR;
    }
  }

  /** The round of a CR at the very end takes everything; the search goes on only
      if the old cell that moves to the front is a CR too. */
  lemma LoneRound<P>(consumer: Consumer<P>, m: Memory<P>)
    requires Ended(m) && Lone(View(m))
    ensures Found(m) && Taken(m) == m.used && m.used + 1 < CELLS
    ensures View(Round(consumer, m)) == HandOne(consumer, View(m)) && NUL in Round(consumer, m).cells
    ensures Found(Round(consumer, m)) <==> m.cells[m.used + 1] == CR
  {
    LoneFinds(m);
    var stop := if At(m) == 0 then 1 else At(m);
    LoneMoves(consumer, m, stop);
    FrontDecides(Round(consumer, m).cells, stop);
    LoneHands(consumer, m);
  }

  lemma LoneHands<P>(consumer: Consumer<P>, m: Memory<P>)
    requires Ended(m) && Lone(View(m)) && Found(m) && Taken(m) == m.used && At(m) == Eos(View(m))
    requires m.cells[..At(m)] == View(m).visible[..Eos(View(m))]
    ensures View(Round(consumer, m)) == HandOne(consumer, View(m))
  {
    assert Round(consumer, m).cells[..0] == "";
  }

  /** When a line with its LF leaves a CR at the very end, the cell behind the NUL
      is a CR only if that line was blank: it is the CR just moved. */
  lemma MovedCr<P>(consumer: Consumer<P>, m: Memory<P>, t: string, eos: nat, p: string)
    requires Ended(m) && t == View(m).visible && View(m).hidden == 0 && Found(m) && p == Parse(consumer, m).cells
    requires eos == At(m) && eos + 2 < |t| && t[eos + 1] == LF && Taken(m) == eos + 2
    requires Index(t[eos + 2..], CR) == |t| - eos - 3 && CR !in t[..eos]
    ensures |t| - eos - 1 < |p| && (p[|t| - eos - 1] == CR <==> eos == 0)
  {
    EndedCells(m);
    ParsedCells(consumer, m);
    var count, rest := |t| - eos - 1, t[eos + 2..];
    IndexIsFirst(rest, CR);
    var sentence := m.cells[..eos];
    assert OnlyNuls(consumer.work(sentence), sentence) && sentence == t[..eos];
    assert p == consumer.work(sentence) + [NUL] + m.cells[eos + 1..];
    if count < eos {
      assert p[count] == consumer.work(sentence)[count];
    } else if count > eos {
      assert p[count] == m.cells[count] == t[count];
      assert count > eos + 1 ==> t[count] == rest[count - eos - 2];
    }
  }

  lemma OldCellBehindLine<P>(consumer: Consumer<P>, m: Memory<P>)
    requires Ended(m) && View(m).hidden == 0 && LfFollows(View(m))
    requires var rest := View(m).visible[Eos(View(m)) + 2..]; EndsInCr(rest) && |LinesIn(rest)| == 1
    ensures Found(m) && Taken(m) <= m.used && Round(consumer, m).used + 1 < CELLS
    ensures Round(consumer, m).cells[Round(consumer, m).used + 1] == CR <==> At(m) == 0
  {
    RoundFinds(consumer, m);
    var t, eos, p := View(m).visible, At(m), Parse(consumer, m).cells;
    IndexIsFirst(t, CR);
    LastCr(t[eos + 2..]);
    MovedCr(consumer, m, t, eos, p);
    BehindMoved(p, eos + 2, m.used - Taken(m) + 1);
  }

  lemma BehindMoved(p: string, from: nat, count: nat)
    requires from + count <= |p| && count < |p|
    ensures (p[from..from + count] + p[count..])[count] == p[count]
  {
  }

  lemma LastCr(t: string)
    requires EndsInCr(t) && |LinesIn(t)| == 1
    ensures Index(t, CR) == |t| - 1
  {
    IndexIsFirst(t, CR);
  }

  /** Whether a call stays within the buffer. */
  predicate StaysIn<P>(consumer: Consumer<P>, m: Memory<P>)
    requires Sized(m)
  {
    Ready(consumer, View(m)) && EndsSafely(View(m).visible, m.cells[m.used + 1])
  }

  lemma ReadyBehindLine<P>(consumer: Consumer<P>, s: Stream<P>)
    requires LfFollows(s)
    ensures Ready(consumer, s)
            <==> consumer.ready(s.parser, s.visible[..Eos(s)]) && Ready(consumer, HandOne(consumer, s))
    ensures HandOne(consumer, s).visible == s.visible[Eos(s) + 2..]
  {
  }

  lemma SafeBehindMoved<P>(consumer: Consumer<P>, m: Memory<P>)
    requires Ended(m) && View(m).hidden == 0 && LfFollows(View(m))
    ensures Found(m) && Taken(m) <= m.used && Round(consumer, m).used + 1 < CELLS
    ensures EndsSafely(View(m).visible, m.cells[m.used + 1])
            <==> EndsSafely(View(m).visible[Eos(View(m)) + 2..], Round(consumer, m).cells[Round(consumer, m).used + 1])
  {
    RoundFinds(consumer, m);
    var t, m' := View(m).visible, Round(consumer, m);
    var rest := t[Eos(View(m)) + 2..];
    if EndsInCr(rest) && |LinesIn(rest)| == 1 {
      OldCellBehindLine(consumer, m);
    }
    SafeBehindLine(t, m.cells[m.used + 1], m'.cells[m'.used + 1]);
  }

  /** A line with its LF changes nothing of that. */
  lemma StaysBehindLine<P>(consumer: Consumer<P>, m: Memory<P>)
    requires Ended(m) && View(m).hidden == 0 && LfFollows(View(m))
    ensures Found(m) && Taken(m) <= m.used && Taken(m) > 1
    ensures var m' := Round(consumer, m);
            StaysIn(consumer, m)
            <==> consumer.ready(m.parser, m.cells[..At(m)]) && StaysIn(consumer, m')
  {
    RoundFinds(consumer, m);
    RoundView(consumer, m);
    ReadyBehindLine(consumer, View(m));
    SafeBehindMoved(consumer, m);
  }

  lemma SaneBehindLine<P>(consumer: Consumer<P>, m: Memory<P>)
    requires Ended(m) && Found(m) && Taken(m) <= m.used && Taken(m) > 1
    ensures Sane(consumer, m)
            <==> consumer.ready(m.parser, m.cells[..At(m)]) && Sane(consumer, Round(consumer, m))
  {
  }

  /** The exact condition: a call on text whose CRs have their LFs, but for one that
      may be the last character, stays within the buffer if and only if the
      consumer takes what it is given and the text ends safely. */
  lemma {:induction false} SaneExactly<P>(consumer: Consumer<P>, m: Memory<P>)
    requires Ended(m) && View(m).hidden == 0 && Paired(View(m).visible)
    ensures Sane(consumer, m) <==> StaysIn(consumer, m)
    decreases m.used
  {
    var s := View(m);
    if EndSeen(s) {
      PairedFrom(s.visible, Eos(s));
      RoundView(consumer, m);
      StaysBehindLine(consumer, m);
      SaneBehindLine(consumer, m);
      SaneExactly(consumer, Round(consumer, m));
    } else if HasSentence(s) {
      LoneStays(consumer, m);
    } else {
      EndedCells(m);
      IndexIsFirst(s.visible, CR);
    }
  }

  lemma LoneStays<P>(consumer: Consumer<P>, m: Memory<P>)
    requires Ended(m) && Lone(View(m))
    ensures Sane(consumer, m) <==> StaysIn(consumer, m)
  {
    LoneFinds(m);
    LoneRound(consumer, m);
    EndedCells(m);
    var s := View(m);
    assert EndsInCr(s.visible) && LinesIn(s.visible) == [s.visible[..Eos(s)]];
    assert HandOne(consumer, s).visible == "" && Ready(consumer, HandOne(consumer, s));
  }

  // ------------------------------------------------------------------- calls

  /** A call without undefined access does what NmeaFraming says, and there is
      none when the text does not end in a CR. */
  lemma {:induction false} RoundsView<P>(consumer: Consumer<P>, m: Memory<P>)
    requires Ended(m) && Ready(consumer, View(m))
    ensures !EndsInCr(View(m).visible) || View(m).hidden > 0 ==> Sane(consumer, m)
    ensures Sane(consumer, m) ==> View(Rounds(consumer, m)) == HandAll(consumer, View(m))
    decreases m.used
  {
    if EndSeen(View(m)) {
      RoundView(consumer, m);
      RoundsView(consumer, Round(consumer, m));
      RoundsOn(consumer, m);
    } else if HasSentence(View(m)) {
      LoneRound(consumer, m);
    } else {
      EndedCells(m);
    }
  }

  lemma RoundsOn<P>(consumer: Consumer<P>, m: Memory<P>)
    requires Ended(m) && Ready(consumer, View(m)) && EndSeen(View(m))
    ensures Found(m) && Taken(m) <= m.used && (Sane(consumer, m) <==> Sane(consumer, Round(consumer, m)))
    ensures var s, s' := View(m), HandOne(consumer, View(m));
            (!EndsInCr(s.visible) || s.hidden > 0 ==> !EndsInCr(s'.visible) || s'.hidden > 0)
  {
    RoundFinds(consumer, m);
  }

  // -------------------------------------------------------------------- runs

  /** One read: offer the space, fill it, take the sentences out. */
  predicate SaneRead<P>(consumer: Consumer<P>, m: Memory<P>, chunk: string) {
    Sized(m) && Offer(m).used + |chunk| <= READ_BUFFER_SIZE && Sane(consumer, Read(Offer(m), chunk))
  }

  function TakeIn<P>(consumer: Consumer<P>, m: Memory<P>, chunk: string): (m': Memory<P>)
    requires SaneRead(consumer, m, chunk)
    ensures Sized(m')
  {
    Rounds(consumer, Read(Offer(m), chunk))
  }

  /** Every read fits the offered space, and no call leaves the buffer. */
  predicate AllSane<P>(consumer: Consumer<P>, m: Memory<P>, chunks: seq<string>)
    decreases |chunks|
  {
    chunks == [] ||
    (SaneRead(consumer, m, chunks[0]) && AllSane(consumer, TakeIn(consumer, m, chunks[0]), chunks[1..]))
  }

  function TakeAll<P>(consumer: Consumer<P>, m: Memory<P>, chunks: seq<string>): (m': Memory<P>)
    requires Sized(m) && AllSane(consumer, m, chunks)
    ensures Sized(m')
    decreases |chunks|
  {
    if chunks == [] then m else TakeAll(consumer, TakeIn(consumer, m, chunks[0]), chunks[1..])
  }

  /** One read is one Feed of the text that is seen. */
  lemma TakeInView<P>(consumer: Consumer<P>, m: Memory<P>, chunk: string)
    requires Sized(m) && CR !in View(m).visible && Used(Reset(View(m))) + |chunk| <= READ_BUFFER_SIZE
    requires Ready(consumer, Append(Reset(View(m)), chunk))
    ensures !EndsInCr(chunk) ==> SaneRead(consumer, m, chunk)
    ensures SaneRead(consumer, m, chunk) ==>
              && View(TakeIn(consumer, m, chunk)) == Feed(consumer, View(m), chunk)
              && CR !in View(TakeIn(consumer, m, chunk)).visible
  {
    OfferView(m);
    ReadView(Offer(m), chunk);
    RoundsView(consumer, Read(Offer(m), chunk));
    HandAllTakesCrs(consumer, Append(Reset(View(m)), chunk));
    AppendEnds(Reset(View(m)), chunk);
  }

  lemma AppendEnds<P>(s: Stream<P>, chunk: string)
    requires CR !in s.visible
    ensures !EndsInCr(chunk) ==> !EndsInCr(Append(s, chunk).visible) || Append(s, chunk).hidden > 0
  {
    var text := s.visible + chunk;
    if s.hidden == 0 && |CStr(text)| == |text| {
      assert CStr(text) == text;
    }
  }

  /** A run of reads is a run of NmeaFraming: always, if no read ends in a CR, and
      as long as no call leaves the buffer, if some do. */
  lemma {:induction false} TakeAllView<P>(consumer: Consumer<P>, m: Memory<P>, chunks: seq<string>)
    requires Sized(m) && CR !in View(m).visible
    requires Offered(consumer, View(m), chunks) && AlwaysReady(consumer, View(m), chunks)
    ensures KeepsPairs(chunks) ==> AllSane(consumer, m, chunks)
    ensures AllSane(consumer, m, chunks) ==>
              View(TakeAll(consumer, m, chunks)) == FeedAll(consumer, View(m), chunks)
    decreases |chunks|
  {
    if chunks != [] {
      TakeInView(consumer, m, chunks[0]);
      if SaneRead(consumer, m, chunks[0]) {
        TakeAllView(consumer, TakeIn(consumer, m, chunks[0]), chunks[1..]);
      }
    }
  }

  // -------------------------------------------------------- where a run can end

  /** A read fits the offered space, and what is seen then ends safely. */
  predicate SafeRead<P>(m: Memory<P>, chunk: string) {
    Sized(m) &&
    var end := Offer(m).used + |chunk|;
    end <= READ_BUFFER_SIZE && EndsSafely(View(Offer(m)).visible + chunk, m.cells[end + 1])
  }

  /** Every read that is reached is safe. */
  predicate AllSafe<P>(consumer: Consumer<P>, m: Memory<P>, chunks: seq<string>)
    decreases |chunks|
  {
    chunks == [] ||
    (SafeRead(m, chunks[0]) &&
     (SaneRead(consumer, m, chunks[0]) ==> AllSafe(consumer, TakeIn(consumer, m, chunks[0]), chunks[1..])))
  }

  lemma {:induction false} BytesPaired(sentences: seq<string>, tail: string)
    requires CleanAll(sentences, tail)
    ensures Paired(Bytes(sentences, tail))
    decreases |sentences|
  {
    if sentences == [] {
      IndexIsFirst(tail, CR);
      PairedToEnd(tail);
    } else {
      CleanRest(sentences, tail);
      BytesPaired(sentences[1..], tail);
      FirstLine(false, sentences, tail);
      var t, n := Bytes(sentences, tail), |sentences[0]|;
      assert Lead(false) + t == t;
      IndexOfFirst(t, CR, n);
      PairedFrom(t, n);
    }
  }

  lemma PairedWithin(lost: string, visible: string, rest: string, lf: bool, t: string)
    requires lost + visible + rest == Lead(lf) + t && Paired(t)
    ensures Paired(visible)
  {
    var all := lost + visible + rest;
    forall i | 0 <= i < |visible| - 1 && visible[i] == CR
      ensures visible[i + 1] == LF
    {
      var j := |lost| + i - |Lead(lf)|;
      assert all[|lost| + i] == CR && all[|lost| + i + 1] == visible[i + 1];
      assert 0 <= j && t[j] == CR && t[j + 1] == all[|lost| + i + 1];
    }
  }

  /** One read of lines. */
  lemma ReadSaneExactly<P(!new)>(consumer: Consumer<P>, m: Memory<P>, chunk: string, rest: string, lost: string,
                                   lf: bool, sentences: seq<string>, tail: string)
    requires Sized(m) && Between(View(m), chunk + rest, lost, lf, sentences, tail)
    requires Used(Reset(View(m))) + |chunk| <= READ_BUFFER_SIZE
    ensures SaneRead(consumer, m, chunk)
            <==> Ready(consumer, Append(Reset(View(m)), chunk)) && SafeRead(m, chunk)
  {
    OfferView(m);
    ReadView(Offer(m), chunk);
    ReadComes(View(m), chunk, rest, lost, lf, sentences, tail);
    BytesPaired(sentences, tail);
    var visible := Reset(View(m)).visible + chunk;
    PairedWithin(LostBy(View(m), lost), visible, rest, lf, Bytes(sentences, tail));
    SaneExactly(consumer, Read(Offer(m), chunk));
  }

  /** Runs of reads, exactly: for any sentences without CR and NUL, no call leaves the
      buffer if and only if every read fits, the consumer takes what it is given,
      and every read is safe. */
  lemma {:induction false} RunsSaneExactly<P(!new)>(consumer: Consumer<P>, m: Memory<P>, chunks: seq<string>,
                                                      lost: string, lf: bool, sentences: seq<string>, tail: string)
    requires Sized(m) && Between(View(m), Flatten(chunks), lost, lf, sentences, tail)
    ensures AllSane(consumer, m, chunks) <==>
            Offered(consumer, View(m), chunks) && AlwaysReady(consumer, View(m), chunks) && AllSafe(consumer, m, chunks)
    decreases |chunks|
  {
    if chunks != [] {
      var s, chunk, rest := View(m), chunks[0], Flatten(chunks[1..]);
      OfferView(m);
      if Used(Reset(s)) + |chunk| <= READ_BUFFER_SIZE {
        ReadSaneExactly(consumer, m, chunk, rest, lost, lf, sentences, tail);
        if SaneRead(consumer, m, chunk) {
          TakeInView(consumer, m, chunk);
          var lost', lf', sentences', x := FeedLines(consumer, s, chunk, rest, lost, lf, sentences, tail, chunks[1..]);
          RunsSaneExactly(consumer, TakeIn(consumer, m, chunk), chunks[1..], lost', lf', sentences', tail);
        }
      }
    }
  }
}
