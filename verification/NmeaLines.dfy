/** What reads make of lines: for sentences of any lengths, sent with CR LF, and
    any way of cutting the bytes into reads, exactly what is handed on. */
module NmeaLines {
  import opened Seqs
  import opened Text
  import opened NmeaFraming

  // ------------------------------------------------- what is to be handed on

  /** A line stands behind the LF of the line before if a read has ended between
      that LF and its CR. */
  function Lead(lf: bool): string {
    if lf then [LF] else ""
  }

  /** What the buffer holds of a line in the end: whenever it is full, all of it is
      given up. */
  function Window(line: string): string {
    line[|line| - |line| % READ_BUFFER_SIZE..]
  }

  /** One of the reads ends at the position p, now being where the read of the
      moment ends. */
  predicate EndsAt(now: nat, later: seq<string>, p: nat)
    decreases |later|
  {
    p == now || (later != [] && EndsAt(now + |later[0]|, later[1..], p))
  }

  /** What is handed on of the sentences, the first of which begins at the position
      at: the window of each with the LF that it stands behind; nothing, when a
      read ends behind the CR and there is nothing before it. */
  function HandedOn(lf: bool, at: nat, sentences: seq<string>, now: nat, later: seq<string>): seq<string>
    decreases |sentences|
  {
    if sentences == [] then []
    else
      var w := Window(Lead(lf) + sentences[0]);
      var end := at + |sentences[0]|;
      var cut := EndsAt(now, later, end + 1);
      (if cut && w == "" then [] else [w]) + HandedOn(cut, end + 2, sentences[1..], now, later)
  }

  /** Whether the tail stands behind an LF. */
  predicate LfLeft(lf: bool, at: nat, sentences: seq<string>, now: nat, later: seq<string>)
    decreases |sentences|
  {
    if sentences == [] then lf
    else
      var end := at + |sentences[0]|;
      LfLeft(EndsAt(now, later, end + 1), end + 2, sentences[1..], now, later)
  }

  /** What can be seen of a line that has not ended. */
  predicate IsPending(line: string, seen: string) {
    && |seen| <= |line| && |seen| <= READ_BUFFER_SIZE
    && line[|line| - |seen|..] == seen && (|line| - |seen|) % READ_BUFFER_SIZE == 0
  }

  /** The state between two rounds: lost is what has been given up of the line
      that is being read. */
  ghost predicate Coming<P(!new)>(s: Stream<P>, rest: string, lost: string, lf: bool,
                                     sentences: seq<string>, tail: string) {
    && s.hidden == 0 && |s.visible| <= READ_BUFFER_SIZE
    && CR !in lost && |lost| % READ_BUFFER_SIZE == 0
    && lost + s.visible + rest == Lead(lf) + Bytes(sentences, tail) && CleanAll(sentences, tail)
  }

  // ------------------------------------------------------------ where lines end

  lemma {:induction false} BytesHoldNoNul(sentences: seq<string>, tail: string)
    requires CleanAll(sentences, tail)
    ensures NUL !in Bytes(sentences, tail)
    decreases |sentences|
  {
    if sentences != [] {
      BytesHoldNoNul(sentences[1..], tail);
    }
  }

  /** The first line, where it ends and what is behind it. */
  lemma FirstLine(lf: bool, sentences: seq<string>, tail: string)
    requires CleanAll(sentences, tail) && sentences != []
    ensures var t, n := Lead(lf) + Bytes(sentences, tail), |Lead(lf)| + |sentences[0]|;
            && n + 2 <= |t| && t[..n] == Lead(lf) + sentences[0] && CR !in t[..n]
            && t[n] == CR && t[n + 1] == LF && t[n + 2..] == Bytes(sentences[1..], tail)
            && t[n + 1..] == Lead(true) + Bytes(sentences[1..], tail)
  {
    var t, n := Lead(lf) + Bytes(sentences, tail), |Lead(lf)| + |sentences[0]|;
    var first, more := Lead(lf) + sentences[0], Bytes(sentences[1..], tail);
    assert t == first + [CR, LF] + more;
    assert t[..n] == first && t[n + 2..] == more;
    assert t[n + 1..] == [LF] + t[n + 2..];
  }

  /** Without a sentence there is no CR. */
  lemma OnlyTail(lf: bool, tail: string)
    requires Clean(tail)
    ensures CR !in Lead(lf) + Bytes([], tail)
  {
  }

  lemma CleanRest(sentences: seq<string>, tail: string)
    requires CleanAll(sentences, tail) && sentences != []
    ensures CleanAll(sentences[1..], tail) && Clean(sentences[0])
  {
  }

  /** Where the first CR of what is seen stands. */
  lemma CrEndsLine(lost: string, visible: string, rest: string, lf: bool, sentences: seq<string>, tail: string)
    requires CR !in lost && CR in visible && CleanAll(sentences, tail)
    requires lost + visible + rest == Lead(lf) + Bytes(sentences, tail)
    ensures sentences != [] && |lost| + Index(visible, CR) == |Lead(lf)| + |sentences[0]|
    ensures lost + visible[..Index(visible, CR)] == Lead(lf) + sentences[0]
  {
    var all := lost + visible + rest;
    var eos := Index(visible, CR);
    IndexIsFirst(visible, CR);
    assert all[|lost| + eos] == CR;
    OnlyTail(lf, tail);
    assert sentences == [] ==> all == Lead(lf) + Bytes([], tail);
    FirstLine(lf, sentences, tail);
    var n := |Lead(lf)| + |sentences[0]|;
    assert all[..|lost| + eos] == lost + visible[..eos];
    IndexOfFirst(all, CR, |lost| + eos);
    IndexOfFirst(all, CR, n);
  }

  // ------------------------------------------------------------------ positions

  lemma {:induction false} EndsAtShifted(now: nat, now': nat, later: seq<string>, p: nat, p': nat)
    requires p' - p == now' - now
    ensures EndsAt(now', later, p') <==> EndsAt(now, later, p)
    decreases |later|
  {
    if later != [] {
      EndsAtShifted(now + |later[0]|, now' + |later[0]|, later[1..], p, p');
    }
  }

  lemma {:induction false} EndsLater(now: nat, later: seq<string>, p: nat)
    requires p < now
    ensures !EndsAt(now, later, p)
    decreases |later|
  {
    if later != [] {
      EndsLater(now + |later[0]|, later[1..], p);
    }
  }

  /** Only the distances count. */
  lemma {:induction false} Shifted(lf: bool, at: nat, at': nat, sentences: seq<string>,
                                   now: nat, now': nat, later: seq<string>)
    requires at' - at == now' - now
    ensures HandedOn(lf, at', sentences, now', later) == HandedOn(lf, at, sentences, now, later)
    ensures LfLeft(lf, at', sentences, now', later) == LfLeft(lf, at, sentences, now, later)
    decreases |sentences|
  {
    if sentences != [] {
      var end, end' := at + |sentences[0]|, at' + |sentences[0]|;
      EndsAtShifted(now, now', later, end + 1, end' + 1);
      Shifted(EndsAt(now, later, end + 1), end + 2, end' + 2, sentences[1..], now, now', later);
    }
  }

  /** A read that ends before the first line does cuts none. */
  lemma {:induction false} Skipped(lf: bool, at: nat, sentences: seq<string>, now: nat, later: seq<string>)
    requires later != [] && (sentences != [] ==> now <= at + |sentences[0]|)
    ensures HandedOn(lf, at, sentences, now, later) == HandedOn(lf, at, sentences, now + |later[0]|, later[1..])
    ensures LfLeft(lf, at, sentences, now, later) == LfLeft(lf, at, sentences, now + |later[0]|, later[1..])
    decreases |sentences|
  {
    if sentences != [] {
      var end := at + |sentences[0]|;
      Skipped(EndsAt(now, later, end + 1), end + 2, sentences[1..], now, later);
    }
  }

  // --------------------------------------------------------------------- rounds

  lemma WindowBehind(lost: string, seen: string)
    requires |lost| % READ_BUFFER_SIZE == 0 && |seen| < READ_BUFFER_SIZE
    ensures Window(lost + seen) == seen
  {
  }

  /** The bytes behind a place that is seen. */
  lemma BehindLine(lost: string, visible: string, rest: string, all: string, k: nat, at: nat)
    requires all == lost + visible + rest && k <= |visible| && at == |lost| + k
    ensures at <= |all| && all[at..] == visible[k..] + rest
    ensures k < |visible| ==> all[at] == visible[k]
  {
  }

  /** The bytes behind a line, from a CR that is seen on. */
  lemma BehindCr(lost: string, visible: string, rest: string, all: string, more: string, eos: nat, n: nat)
    requires all == lost + visible + rest && eos < |visible| && n == |lost| + eos && n + 2 <= |all|
    requires all[n + 1] == LF && all[n + 2..] == more && all[n + 1..] == [LF] + more
    ensures visible[eos + 1..] + rest == [LF] + more
    ensures eos + 1 < |visible| ==> visible[eos + 1] == LF && visible[eos + 2..] + rest == more
  {
    BehindLine(lost, visible, rest, all, eos + 1, n + 1);
    if eos + 1 < |visible| {
      BehindLine(lost, visible, rest, all, eos + 2, n + 2);
    }
  }

  /** The parts of what is seen when a line ends in it. */
  lemma LineParts(lost: string, visible: string, rest: string, lf: bool, sentences: seq<string>, tail: string, eos: nat)
    requires CR !in lost && |lost| % READ_BUFFER_SIZE == 0 && |visible| <= READ_BUFFER_SIZE && CleanAll(sentences, tail)
    requires eos == Index(visible, CR) < |visible|
    requires lost + visible + rest == Lead(lf) + Bytes(sentences, tail)
    ensures sentences != [] && |lost| + eos == |Lead(lf)| + |sentences[0]|
    ensures visible[..eos] == Window(Lead(lf) + sentences[0])
    ensures visible[eos + 1..] + rest == [LF] + Bytes(sentences[1..], tail)
    ensures eos + 1 < |visible| ==>
              visible[eos + 1] == LF && visible[eos + 2..] + rest == Bytes(sentences[1..], tail)
  {
    CrEndsLine(lost, visible, rest, lf, sentences, tail);
    WindowBehind(lost, visible[..eos]);
    FirstLine(lf, sentences, tail);
    BehindCr(lost, visible, rest, Lead(lf) + Bytes(sentences, tail), Bytes(sentences[1..], tail), eos, |lost| + eos);
  }

  /** What a round does to a line that has its LF. */
  lemma HandLine<P(!new)>(consumer: Consumer<P>, s: Stream<P>, rest: string, lost: string, lf: bool,
                            sentences: seq<string>, tail: string)
    requires Coming(s, rest, lost, lf, sentences, tail) && EndSeen(s)
    ensures sentences != [] && |lost| + Eos(s) == |Lead(lf)| + |sentences[0]| && LfFollows(s)
    ensures s.visible[..Eos(s)] == Window(Lead(lf) + sentences[0])
    ensures Coming(HandOne(consumer, s), rest, "", false, sentences[1..], tail)
  {
    LineParts(lost, s.visible, rest, lf, sentences, tail, Eos(s));
    CleanRest(sentences, tail);
    assert "" + s.visible[Eos(s) + 2..] == s.visible[Eos(s) + 2..];
    assert Lead(false) + Bytes(sentences[1..], tail) == Bytes(sentences[1..], tail);
  }

  /** What a round does to a line whose LF has not come. */
  lemma HandLoneLine<P(!new)>(consumer: Consumer<P>, s: Stream<P>, rest: string, lost: string, lf: bool,
                                sentences: seq<string>, tail: string)
    requires Coming(s, rest, lost, lf, sentences, tail) && HasSentence(s) && !EndSeen(s)
    ensures sentences != [] && |lost| + Eos(s) == |Lead(lf)| + |sentences[0]| && |s.visible| == Eos(s) + 1
    ensures s.visible[..Eos(s)] == Window(Lead(lf) + sentences[0])
    ensures Coming(HandOne(consumer, s), rest, "", true, sentences[1..], tail)
  {
    LineParts(lost, s.visible, rest, lf, sentences, tail, Eos(s));
    CleanRest(sentences, tail);
    assert "" + "" == s.visible[Eos(s) + 1..];
  }

  lemma ParseFirst<P>(consumer: Consumer<P>, p: P, first: string, x: seq<string>)
    ensures ParseAll(consumer, p, [first] + x) == ParseAll(consumer, consumer.step(p, first), x)
    ensures ReadyForAll(consumer, p, [first] + x)
            <==> consumer.ready(p, first) && ReadyForAll(consumer, consumer.step(p, first), x)
  {
    assert ([first] + x)[1..] == x;
  }

  lemma {:induction false} ParseBoth<P>(consumer: Consumer<P>, p: P, a: seq<string>, b: seq<string>)
    ensures ParseAll(consumer, p, a + b) == ParseAll(consumer, ParseAll(consumer, p, a), b)
    ensures ReadyForAll(consumer, p, a + b)
            <==> ReadyForAll(consumer, p, a) && ReadyForAll(consumer, ParseAll(consumer, p, a), b)
    decreases |a|
  {
    if a == [] {
      assert a + b == b;
    } else {
      assert (a + b)[1..] == a[1..] + b;
      ParseBoth(consumer, consumer.step(p, a[0]), a[1..], b);
    }
  }

  /** What is left to be handed on by later reads. */
  ghost predicate Left(lf: bool, sentences: seq<string>, now: nat, lf': bool, sentences': seq<string>, now': nat,
                       later: seq<string>, x: seq<string>) {
    && HandedOn(lf, |Lead(lf)|, sentences, now, later) == x + HandedOn(lf', |Lead(lf')|, sentences', now', later)
    && LfLeft(lf, |Lead(lf)|, sentences, now, later) == LfLeft(lf', |Lead(lf')|, sentences', now', later)
  }

  /** A line with its LF is handed on whatever it is. */
  lemma LineLeft(lf: bool, sentences: seq<string>, tail: string, now: nat, now': nat, later: seq<string>)
    requires sentences != [] && now == now' + |Lead(lf)| + |sentences[0]| + 2
    ensures Left(lf, sentences, now, false, sentences[1..], now', later, [Window(Lead(lf) + sentences[0])])
  {
    var end := |Lead(lf)| + |sentences[0]|;
    EndsLater(now, later, end + 1);
    Shifted(false, 0, end + 2, sentences[1..], now', now, later);
  }

  lemma LoneLeft(lf: bool, sentences: seq<string>, tail: string, now: nat, later: seq<string>)
    requires sentences != [] && now == |Lead(lf)| + |sentences[0]| + 1
    ensures var w := Window(Lead(lf) + sentences[0]);
            Left(lf, sentences, now, true, sentences[1..], 0, later, if w == "" then [] else [w])
  {
    Shifted(true, 1, now + 1, sentences[1..], 0, now, later);
  }

  lemma LeftAfter(lf: bool, ss: seq<string>, now: nat, lf1: bool, ss1: seq<string>, now1: nat,
                  lf2: bool, ss2: seq<string>, now2: nat, later: seq<string>, x: seq<string>, y: seq<string>)
    requires Left(lf, ss, now, lf1, ss1, now1, later, x) && Left(lf1, ss1, now1, lf2, ss2, now2, later, y)
    ensures Left(lf, ss, now, lf2, ss2, now2, later, x + y)
  {
    var z := HandedOn(lf2, |Lead(lf2)|, ss2, now2, later);
    assert x + (y + z) == x + y + z;
  }

  /** One call: x is what it hands on, and it can if the consumer takes x. */
  ghost predicate Hands<P(!new)>(consumer: Consumer<P>, s: Stream<P>, x: seq<string>) {
    var s' := HandAll(consumer, s);
    && s'.handed == s.handed + x && s'.parser == ParseAll(consumer, s.parser, x)
    && (Ready(consumer, s) <==> ReadyForAll(consumer, s.parser, x))
  }

  lemma HandsMore<P(!new)>(consumer: Consumer<P>, s: Stream<P>, w: seq<string>, y: seq<string>)
    requires EndKnown(s) && HasSentence(s) && Hands(consumer, HandOne(consumer, s), y)
    requires w == if IsHanded(s) then [s.visible[..Eos(s)]] else []
    ensures Hands(consumer, s, w + y)
  {
    ParseBoth(consumer, s.parser, w, y);
    assert s.handed + (w + y) == s.handed + w + y;
    if IsHanded(s) {
      assert w[1..] == [];
    } else {
      assert s.handed + w == s.handed;
    }
  }

  lemma {:induction false} HandLines<P(!new)>(consumer: Consumer<P>, s: Stream<P>, rest: string, lost: string, lf: bool,
                                                sentences: seq<string>, tail: string, later: seq<string>)
    returns (lost': string, lf': bool, sentences': seq<string>, x: seq<string>)
    requires Coming(s, rest, lost, lf, sentences, tail)
    ensures var s' := HandAll(consumer, s);
            && Coming(s', rest, lost', lf', sentences', tail) && CR !in s'.visible
            && Left(lf, sentences, |lost + s.visible|, lf', sentences', |lost' + s'.visible|, later, x)
    ensures Hands(consumer, s, x)
    decreases |s.visible|
  {
    if !HasSentence(s) {
      IndexIsFirst(s.visible, CR);
      lost', lf', sentences', x := lost, lf, sentences, [];
      assert s.handed + [] == s.handed;
    } else {
      var s1 := HandOne(consumer, s);
      var w := if IsHanded(s) then [s.visible[..Eos(s)]] else [];
      var lf1, y := !EndSeen(s), [];
      if EndSeen(s) {
        HandLine(consumer, s, rest, lost, lf, sentences, tail);
        LineLeft(lf, sentences, tail, |lost + s.visible|, |s1.visible|, later);
      } else {
        HandLoneLine(consumer, s, rest, lost, lf, sentences, tail);
        LoneLeft(lf, sentences, tail, |lost + s.visible|, later);
      }
      lost', lf', sentences', y := HandLines(consumer, s1, rest, "", lf1, sentences[1..], tail, later);
      x := w + y;
      assert |"" + s1.visible| == |s1.visible|;
      LeftAfter(lf, sentences, |lost + s.visible|, lf1, sentences[1..], |"" + s1.visible|,
                lf', sentences', |lost' + HandAll(consumer, s).visible|, later, w, y);
      HandsMore(consumer, s, w, y);
    }
  }

  // ----------------------------------------------------------------- whole runs

  lemma CrWithin(all: string, front: string, n: nat)
    requires n < |all| && all[n] == CR && front <= all
    ensures n < |front| ==> CR in front
  {
    if n < |front| {
      assert front[n] == CR;
    }
  }

  /** A line that has not ended ends behind all that has been read. */
  lemma EndsBehind(lost: string, visible: string, rest: string, lf: bool, sentences: seq<string>, tail: string)
    requires CR !in lost && CR !in visible && CleanAll(sentences, tail)
    requires lost + visible + rest == Lead(lf) + Bytes(sentences, tail)
    ensures sentences != [] ==> |lost + visible| <= |Lead(lf)| + |sentences[0]|
    ensures sentences != [] ==> |Lead(lf)| + |sentences[0]| + 2 <= |lost + visible + rest|
  {
    if sentences != [] {
      FirstLine(lf, sentences, tail);
      CrWithin(lost + visible + rest, lost + visible, |Lead(lf)| + |sentences[0]|);
    }
  }

  /** Lines that have not ended yet are seen from the last time that the buffer
      was full on. */
  lemma NotEnded(lost: string, visible: string, lf: bool, sentences: seq<string>, tail: string)
    requires CR !in lost && CR !in visible && |lost| % READ_BUFFER_SIZE == 0 && |visible| <= READ_BUFFER_SIZE
    requires lost + visible + "" == Lead(lf) + Bytes(sentences, tail) && CleanAll(sentences, tail)
    ensures sentences == [] && IsPending(Lead(lf) + tail, visible)
  {
    EndsBehind(lost, visible, "", lf, sentences, tail);
    assert lost + visible + "" == lost + visible;
    assert (lost + visible)[|lost|..] == visible;
  }

  /** The state of a run of reads: between two of them no CR is seen. */
  ghost predicate Between<P(!new)>(s: Stream<P>, rest: string, lost: string, lf: bool,
                                      sentences: seq<string>, tail: string) {
    Coming(s, rest, lost, lf, sentences, tail) && CR !in s.visible
  }

  /** What is given up of a line when the buffer is full. */
  function LostBy<P>(s: Stream<P>, lost: string): string {
    if Used(s) >= READ_BUFFER_SIZE then lost + s.visible else lost
  }

  lemma ReadComes<P(!new)>(s: Stream<P>, chunk: string, rest: string, lost: string, lf: bool,
                             sentences: seq<string>, tail: string)
    requires Between(s, chunk + rest, lost, lf, sentences, tail) && Used(Reset(s)) + |chunk| <= READ_BUFFER_SIZE
    ensures var visible := Reset(s).visible + chunk;
            && Append(Reset(s), chunk) == s.(visible := visible)
            && Coming(s.(visible := visible), rest, LostBy(s, lost), lf, sentences, tail)
            && |LostBy(s, lost) + visible| == |lost + s.visible| + |chunk|
  {
    var lost', v := LostBy(s, lost), Reset(s).visible;
    assert lost' + v == lost + s.visible;
    assert lost + s.visible + (chunk + rest) == lost' + (v + chunk) + rest;
    BytesHoldNoNul(sentences, tail);
    WithinAll(lost', v + chunk, rest, Lead(lf) + Bytes(sentences, tail));
    AppendClean(Reset(s), chunk);
  }

  lemma WithinAll(lost: string, visible: string, rest: string, all: string)
    requires lost + visible + rest == all && NUL !in all
    ensures NUL !in visible
  {
    assert forall i :: 0 <= i < |visible| ==> visible[i] == all[|lost| + i];
  }

  /** One read. */
  lemma FeedLines<P(!new)>(consumer: Consumer<P>, s: Stream<P>, chunk: string, rest: string, lost: string, lf: bool,
                             sentences: seq<string>, tail: string, later: seq<string>)
    returns (lost': string, lf': bool, sentences': seq<string>, x: seq<string>)
    requires Between(s, chunk + rest, lost, lf, sentences, tail) && Used(Reset(s)) + |chunk| <= READ_BUFFER_SIZE
    ensures var s1, s' := Append(Reset(s), chunk), Feed(consumer, s, chunk);
            && Between(s', rest, lost', lf', sentences', tail)
            && s'.handed == s.handed + x && s'.parser == ParseAll(consumer, s.parser, x)
            && (Ready(consumer, s1) <==> ReadyForAll(consumer, s.parser, x))
    ensures var now := |lost + s.visible|;
            && HandedOn(lf, |Lead(lf)|, sentences, now, [chunk] + later)
               == x + HandedOn(lf', |Lead(lf')|, sentences', |lost' + Feed(consumer, s, chunk).visible|, later)
            && LfLeft(lf, |Lead(lf)|, sentences, now, [chunk] + later)
               == LfLeft(lf', |Lead(lf')|, sentences', |lost' + Feed(consumer, s, chunk).visible|, later)
  {
    ReadComes(s, chunk, rest, lost, lf, sentences, tail);
    var s1 := s.(visible := Reset(s).visible + chunk);
    lost', lf', sentences', x := HandLines(consumer, s1, rest, LostBy(s, lost), lf, sentences, tail, later);
    EndsBehind(lost, s.visible, chunk + rest, lf, sentences, tail);
    Skipped(lf, |Lead(lf)|, sentences, |lost + s.visible|, [chunk] + later);
    assert ([chunk] + later)[1..] == later;
  }

  /** A run of reads hands on x, leaves line unfinished, and ends each of its calls
      well exactly if the consumer can take x. */
  ghost predicate RunsTo<P(!new)>(consumer: Consumer<P>, s: Stream<P>, chunks: seq<string>,
                                     x: seq<string>, line: string) {
    var s' := FeedAll(consumer, s, chunks);
    && s'.hidden == 0 && IsPending(line, s'.visible)
    && s'.handed == s.handed + x && s'.parser == ParseAll(consumer, s.parser, x)
    && (AlwaysReady(consumer, s, chunks) <==> ReadyForAll(consumer, s.parser, x))
  }

  lemma RunsOn<P(!new)>(consumer: Consumer<P>, s: Stream<P>, chunks: seq<string>,
                          x: seq<string>, y: seq<string>, line: string)
    requires chunks != [] && RunsTo(consumer, Feed(consumer, s, chunks[0]), chunks[1..], y, line)
    requires var s1, s' := Append(Reset(s), chunks[0]), Feed(consumer, s, chunks[0]);
             && s'.handed == s.handed + x && s'.parser == ParseAll(consumer, s.parser, x)
             && (Ready(consumer, s1) <==> ReadyForAll(consumer, s.parser, x))
    ensures RunsTo(consumer, s, chunks, x + y, line)
  {
    ParseBoth(consumer, s.parser, x, y);
    assert s.handed + (x + y) == s.handed + x + y;
  }

  /** Framing, exactly.  For any sentences without CR and NUL, of any lengths, sent
      with CR LF behind each, and any way of cutting the bytes into reads that fit
      the offered space: HandedOn is what is handed on, in order, and the tail with
      the LF that it may stand behind is what stays. */
  lemma {:induction false} HandedExactly<P(!new)>(consumer: Consumer<P>, s: Stream<P>, chunks: seq<string>,
                                                    lost: string, lf: bool, sentences: seq<string>, tail: string)
    requires Between(s, Flatten(chunks), lost, lf, sentences, tail) && Offered(consumer, s, chunks)
    ensures var at, now := |Lead(lf)|, |lost + s.visible|;
            RunsTo(consumer, s, chunks, HandedOn(lf, at, sentences, now, chunks),
                   Lead(LfLeft(lf, at, sentences, now, chunks)) + tail)
    decreases |chunks|
  {
    if chunks == [] {
      NotEnded(lost, s.visible, lf, sentences, tail);
      assert s.handed + [] == s.handed;
    } else {
      assert chunks == [chunks[0]] + chunks[1..];
      var lost', lf', sentences', x :=
        FeedLines(consumer, s, chunks[0], Flatten(chunks[1..]), lost, lf, sentences, tail, chunks[1..]);
      var s1 := Feed(consumer, s, chunks[0]);
      var at', now' := |Lead(lf')|, |lost' + s1.visible|;
      HandedExactly(consumer, s1, chunks[1..], lost', lf', sentences', tail);
      RunsOn(consumer, s, chunks, x, HandedOn(lf', at', sentences', now', chunks[1..]),
             Lead(LfLeft(lf', at', sentences', now', chunks[1..])) + tail);
    }
  }
}
