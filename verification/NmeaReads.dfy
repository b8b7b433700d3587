/** What reads have to keep: CR and LF together.  Corollaries of
    NmeaLines.HandedExactly for sentences that fit the buffer and for those that
    do not. */
module NmeaReads {
  import opened Seqs
  import opened Text
  import opened NmeaFraming
  import opened NmeaLines

  /** No bytes of a sentence have been given up or split off before. */
  ghost predicate Starts<P(!new)>(s: Stream<P>, rest: string, sentences: seq<string>, tail: string) {
    && s.hidden == 0 && CR !in s.visible && |s.visible| <= READ_BUFFER_SIZE
    && s.visible + rest == Bytes(sentences, tail) && CleanAll(sentences, tail)
  }

  lemma StartsBetween<P(!new)>(s: Stream<P>, rest: string, sentences: seq<string>, tail: string)
    requires Starts(s, rest, sentences, tail)
    ensures Between(s, rest, "", false, sentences, tail) && "" + s.visible == s.visible
  {
    assert "" + s.visible + rest == Lead(false) + Bytes(sentences, tail);
  }

  // -------------------------------------------------------- reads that keep pairs

  function Windows(sentences: seq<string>): seq<string> {
    if sentences == [] then [] else [Window(sentences[0])] + Windows(sentences[1..])
  }

  /** No read that keeps pairs ends behind a CR. */
  lemma {:induction false} NoCut(front: string, later: seq<string>, p: nat)
    requires KeepsPairs(later) && |front| < p <= |front + Flatten(later)|
    requires (front + Flatten(later))[p - 1] == CR
    ensures !EndsAt(|front|, later, p)
    decreases |later|
  {
    if later != [] {
      var front' := front + later[0];
      assert front' + Flatten(later[1..]) == front + Flatten(later);
      assert KeepsPairs(later[1..]);
      if p < |front'| {
        EndsLater(|front'|, later[1..], p);
      } else if p > |front'| {
        NoCut(front', later[1..], p);
      } else {
        EndOf(front, later[0]);
      }
    }
  }

  lemma EndOf(front: string, chunk: string)
    ensures chunk != "" ==> ((front + chunk)[|front + chunk| - 1] == CR <==> EndsInCr(chunk))
  {
  }

  lemma HandedOnStep(at: nat, sentences: seq<string>, now: nat, later: seq<string>)
    requires sentences != [] && !EndsAt(now, later, at + |sentences[0]| + 1)
    ensures var next := at + |sentences[0]| + 2;
            && HandedOn(false, at, sentences, now, later)
               == [Window(sentences[0])] + HandedOn(false, next, sentences[1..], now, later)
            && (LfLeft(false, at, sentences, now, later) <==> LfLeft(false, next, sentences[1..], now, later))
  {
    assert Lead(false) + sentences[0] == sentences[0];
  }

  lemma FirstPairKept(front: string, later: seq<string>, at: nat, sentences: seq<string>, tail: string, all: string)
    requires KeepsPairs(later) && CleanAll(sentences, tail) && sentences != [] && all == front + Flatten(later)
    requires at <= |all| && all[at..] == Bytes(sentences, tail) && |front| <= at + |sentences[0]|
    ensures var next := at + |sentences[0]| + 2;
            && !EndsAt(|front|, later, next - 1) && CleanAll(sentences[1..], tail)
            && next <= |all| && all[next..] == Bytes(sentences[1..], tail)
  {
    FirstInBytes(all, at, sentences, tail);
    NoCut(front, later, at + |sentences[0]| + 1);
    CleanRest(sentences, tail);
  }

  lemma {:induction false} PairsKept(front: string, later: seq<string>, at: nat, sentences: seq<string>, tail: string)
    requires KeepsPairs(later) && CleanAll(sentences, tail)
    requires at <= |front + Flatten(later)| && (front + Flatten(later))[at..] == Bytes(sentences, tail)
    requires sentences != [] ==> |front| <= at + |sentences[0]|
    ensures HandedOn(false, at, sentences, |front|, later) == Windows(sentences)
    ensures !LfLeft(false, at, sentences, |front|, later)
    decreases |sentences|
  {
    if sentences != [] {
      FirstPairKept(front, later, at, sentences, tail, front + Flatten(later));
      PairsKept(front, later, at + |sentences[0]| + 2, sentences[1..], tail);
      HandedOnStep(at, sentences, |front|, later);
    }
  }

  /** The first line in the bytes that begin at a position. */
  lemma FirstInBytes(all: string, at: nat, sentences: seq<string>, tail: string)
    requires at <= |all| && all[at..] == Bytes(sentences, tail) && CleanAll(sentences, tail) && sentences != []
    ensures var n := |sentences[0]|;
            && at + n + 2 <= |all| && all[at + n] == CR && all[at + n + 1] == LF
            && all[at + n + 2..] == Bytes(sentences[1..], tail) && CR !in all[at..at + n]
  {
    var t, n := all[at..], |sentences[0]|;
    assert Lead(false) + Bytes(sentences, tail) == t;
    FirstLine(false, sentences, tail);
    assert all[at + n] == t[n] && all[at + n + 1] == t[n + 1] && all[at + n + 2..] == t[n + 2..];
    assert all[at..at + n] == t[..n];
  }

  /** What does not fit the buffer is cut.  Of sentences of any lengths, reads that
      keep each CR with its LF hand on the last |sentence| mod 1024 characters, and
      that is all the parser gets. */
  lemma LongLinesAreCut<P(!new)>(consumer: Consumer<P>, s: Stream<P>, chunks: seq<string>,
                                 sentences: seq<string>, tail: string)
    requires Starts(s, Flatten(chunks), sentences, tail) && Offered(consumer, s, chunks) && KeepsPairs(chunks)
    ensures RunsTo(consumer, s, chunks, Windows(sentences), tail)
  {
    StartsBetween(s, Flatten(chunks), sentences, tail);
    HandedExactly(consumer, s, chunks, "", false, sentences, tail);
    EndsBehind("", s.visible, Flatten(chunks), false, sentences, tail);
    assert (s.visible + Flatten(chunks))[0..] == Bytes(sentences, tail);
    PairsKept(s.visible, chunks, 0, sentences, tail);
    assert Lead(false) + tail == tail;
  }

  lemma WindowFits(line: string)
    requires |line| < READ_BUFFER_SIZE
    ensures Window(line) == line
  {
    assert |line| % READ_BUFFER_SIZE == |line|;
  }

  lemma {:induction false} FittingWindows(sentences: seq<string>)
    requires forall i :: 0 <= i < |sentences| ==> |sentences[i]| < READ_BUFFER_SIZE
    ensures Windows(sentences) == sentences
    decreases |sentences|
  {
    if sentences != [] {
      FittingWindows(sentences[1..]);
      WindowFits(sentences[0]);
    }
  }

  lemma PendingFits(line: string, seen: string)
    requires IsPending(line, seen) && |line| < READ_BUFFER_SIZE
    ensures seen == line
  {
    assert |line| - |seen| == 0;
  }

  /** Framing does not depend on chunking.  For any sentences without CR or NUL
      that fit the buffer, sent with CR LF behind each, and any way of cutting
      the bytes into reads that fit the offered space and keep each CR with its
      LF: the sentences handed on are exactly those sent, in order, what stays is
      the unfinished tail, the parser is as if it had been given the sentences one
      by one, and every call ends well if and only if it can be. */
  lemma ChunkingIndependence<P(!new)>(consumer: Consumer<P>, s: Stream<P>, chunks: seq<string>,
                                      sentences: seq<string>, tail: string)
    requires Starts(s, Flatten(chunks), sentences, tail) && Sendable(sentences, tail)
    requires Offered(consumer, s, chunks) && KeepsPairs(chunks)
    ensures AlwaysReady(consumer, s, chunks) <==> ReadyForAll(consumer, s.parser, sentences)
    ensures FeedAll(consumer, s, chunks)
         == Stream(tail, 0, ParseAll(consumer, s.parser, sentences), s.handed + sentences)
  {
    LongLinesAreCut(consumer, s, chunks, sentences, tail);
    FittingWindows(sentences);
    PendingFits(tail, FeedAll(consumer, s, chunks).visible);
  }

  // -------------------------------------------------------- and reads that do not

  function Total(texts: seq<string>): nat {
    if texts == [] then 0 else |texts[0]| + Total(texts[1..])
  }

  lemma {:induction false} TotalAdds(a: seq<string>, b: seq<string>)
    ensures Total(a + b) == Total(a) + Total(b)
    decreases |a|
  {
    if a == [] {
      assert a + b == b;
    } else {
      assert (a + b)[1..] == a[1..] + b;
      TotalAdds(a[1..], b);
    }
  }

  lemma TotalOfOne(cut: bool, line: string)
    ensures Total(if cut && line == "" then [] else [line]) == |line|
  {
    assert [line][1..] == [];
  }

  /** How many lines are cut between CR and LF. */
  function Cuts(at: nat, sentences: seq<string>, now: nat, later: seq<string>): nat
    decreases |sentences|
  {
    if sentences == [] then 0
    else
      var end := at + |sentences[0]|;
      (if EndsAt(now, later, end + 1) then 1 else 0) + Cuts(end + 2, sentences[1..], now, later)
  }

  predicate AllFit(sentences: seq<string>) {
    forall i :: 0 <= i < |sentences| ==> |sentences[i]| + 2 <= READ_BUFFER_SIZE
  }

  lemma RestFits(sentences: seq<string>)
    requires AllFit(sentences) && sentences != []
    ensures AllFit(sentences[1..]) && |sentences[0]| + 2 <= READ_BUFFER_SIZE
  {
  }

  /** Each cut leaves one LF in what is handed on or stays. */
  lemma {:induction false} CutsLeaveLfs(lf: bool, at: nat, sentences: seq<string>, now: nat, later: seq<string>)
    requires AllFit(sentences)
    ensures Total(HandedOn(lf, at, sentences, now, later)) + |Lead(LfLeft(lf, at, sentences, now, later))|
         == Total(sentences) + |Lead(lf)| + Cuts(at, sentences, now, later)
    decreases |sentences|
  {
    if sentences != [] {
      var line, end, rest := Lead(lf) + sentences[0], at + |sentences[0]|, sentences[1..];
      var cut := EndsAt(now, later, end + 1);
      var more := HandedOn(cut, end + 2, rest, now, later);
      RestFits(sentences);
      CutsLeaveLfs(cut, end + 2, rest, now, later);
      FirstTotal(cut, line, more);
      assert HandedOn(lf, at, sentences, now, later)
          == (if cut && Window(line) == "" then [] else [Window(line)]) + more;
      assert Total(sentences) == |sentences[0]| + Total(rest);
    }
  }

  lemma FirstTotal(cut: bool, line: string, more: seq<string>)
    requires |line| < READ_BUFFER_SIZE
    ensures Total((if cut && Window(line) == "" then [] else [Window(line)]) + more) == |line| + Total(more)
  {
    WindowFits(line);
    TotalOfOne(cut, line);
    TotalAdds(if cut && line == "" then [] else [line], more);
  }

  /** Where a read ends in a CR. */
  lemma {:induction false} SplitPlace(front: string, later: seq<string>) returns (p: nat)
    requires !KeepsPairs(later)
    ensures |front| < p <= |front + Flatten(later)| && EndsAt(|front|, later, p)
    ensures (front + Flatten(later))[p - 1] == CR
    decreases |later|
  {
    var front' := front + later[0];
    assert front' + Flatten(later[1..]) == front + Flatten(later);
    if EndsInCr(later[0]) {
      p := |front'|;
      EndOf(front, later[0]);
      EndsNow(|front'|, later[1..]);
    } else {
      assert !KeepsPairs(later[1..]) by {
        var i :| 0 <= i < |later| && EndsInCr(later[i]);
        assert later[1..][i - 1] == later[i];
      }
      p := SplitPlace(front', later[1..]);
    }
  }

  lemma EndsNow(now: nat, later: seq<string>)
    ensures EndsAt(now, later, now)
  {
  }

  lemma {:induction false} CutCounts(all: string, at: nat, sentences: seq<string>, tail: string, now: nat,
                                     later: seq<string>, p: nat)
    requires at <= |all| && all[at..] == Bytes(sentences, tail) && CleanAll(sentences, tail)
    requires at < p <= |all| && all[p - 1] == CR && EndsAt(now, later, p)
    ensures Cuts(at, sentences, now, later) > 0
    decreases |sentences|
  {
    if sentences == [] {
      assert false;
    } else {
      var n := |sentences[0]|;
      FirstInBytes(all, at, sentences, tail);
      CrBehind(all, at, n, p - 1);
      if p > at + n + 1 {
        CleanRest(sentences, tail);
        CutCounts(all, at + n + 2, sentences[1..], tail, now, later, p);
      }
    }
  }

  lemma InStretch(all: string, from: nat, to: nat, i: nat)
    requires from <= to <= |all| && from <= i < |all|
    ensures i < to && all[i] == CR ==> CR in all[from..to]
  {
    if i < to {
      assert all[from..to][i - from] == all[i];
    }
  }

  lemma CrBehind(all: string, at: nat, n: nat, i: nat)
    requires at + n + 1 < |all| && CR !in all[at..at + n] && all[at + n + 1] == LF && at <= i < |all| && all[i] == CR
    ensures i == at + n || at + n + 2 <= i
  {
    InStretch(all, at, at + n, i);
  }

  /** The pairs are exactly what it takes: reads that fit the offered space end with
      the sentences, the tail and the parser that ChunkingIndependence promises if
      and only if none of them ends between a CR and its LF. */
  lemma FramesExactly<P(!new)>(consumer: Consumer<P>, s: Stream<P>, chunks: seq<string>,
                               sentences: seq<string>, tail: string)
    requires Starts(s, Flatten(chunks), sentences, tail) && Sendable(sentences, tail) && Offered(consumer, s, chunks)
    ensures KeepsPairs(chunks) <==>
            FeedAll(consumer, s, chunks) ==
            Stream(tail, 0, ParseAll(consumer, s.parser, sentences), s.handed + sentences)
  {
    if KeepsPairs(chunks) {
      ChunkingIndependence(consumer, s, chunks, sentences, tail);
    } else {
      StartsBetween(s, Flatten(chunks), sentences, tail);
      HandedExactly(consumer, s, chunks, "", false, sentences, tail);
      var now := |s.visible|;
      var x, line := HandedOn(false, 0, sentences, now, chunks), Lead(LfLeft(false, 0, sentences, now, chunks)) + tail;
      var p := SplitPlace(s.visible, chunks);
      assert (s.visible + Flatten(chunks))[0..] == Bytes(sentences, tail);
      CutCounts(s.visible + Flatten(chunks), 0, sentences, tail, now, chunks, p);
      CutsLeaveLfs(false, 0, sentences, now, chunks);
      TotalAdds(s.handed, x);
      TotalAdds(s.handed, sentences);
      LfShows(line, tail, FeedAll(consumer, s, chunks).visible);
    }
  }

  /** A tail behind an LF is not seen as the tail alone. */
  lemma LfShows(line: string, tail: string, seen: string)
    requires IsPending(line, seen) && |line| <= |tail| + 1 && |tail| < READ_BUFFER_SIZE && |tail| <= |line|
    ensures seen == tail ==> |line| == |tail|
  {
  }

  // ------------------------------------------------------- what splits cost a parser

  /** The sentences that do not stand behind an LF at which a read has begun. */
  function Kept(lf: bool, at: nat, sentences: seq<string>, now: nat, later: seq<string>): seq<string>
    decreases |sentences|
  {
    if sentences == [] then []
    else
      var end := at + |sentences[0]|;
      (if lf then [] else [sentences[0]]) + Kept(EndsAt(now, later, end + 1), end + 2, sentences[1..], now, later)
  }

  lemma {:induction false} KeptWasSent(lf: bool, at: nat, sentences: seq<string>,
                                       now: nat, later: seq<string>, s: string)
    requires s in Kept(lf, at, sentences, now, later)
    ensures s in sentences
    decreases |sentences|
  {
    var end := at + |sentences[0]|;
    if lf || s != sentences[0] {
      KeptWasSent(EndsAt(now, later, end + 1), end + 2, sentences[1..], now, later, s);
    }
  }

  /** A consumer that makes nothing of a text with an LF in front, or of none. */
  ghost predicate SkipsLf<P(!new)>(consumer: Consumer<P>) {
    forall p: P, t: string | t == "" || t[0] == LF :: consumer.ready(p, t) && consumer.step(p, t) == p
  }

  lemma FirstKept<P(!new)>(consumer: Consumer<P>, p: P, lf: bool, s: string, cut: bool,
                             x: seq<string>, kept: seq<string>)
    requires SkipsLf(consumer) && |s| + 2 <= READ_BUFFER_SIZE
    requires var p' := if lf then p else consumer.step(p, s);
             && ParseAll(consumer, p', x) == ParseAll(consumer, p', kept)
             && (ReadyForAll(consumer, p', x) <==> ReadyForAll(consumer, p', kept))
    ensures var w := Window(Lead(lf) + s);
            var x', kept' := (if cut && w == "" then [] else [w]) + x, (if lf then [] else [s]) + kept;
            && ParseAll(consumer, p, x') == ParseAll(consumer, p, kept')
            && (ReadyForAll(consumer, p, x') <==> ReadyForAll(consumer, p, kept'))
  {
    WindowFits(Lead(lf) + s);
    var w := Window(Lead(lf) + s);
    ParseFirst(consumer, p, w, x);
    ParseFirst(consumer, p, s, kept);
    assert [] + x == x && [] + kept == kept;
    assert !lf ==> w == s;
    assert lf ==> w[0] == LF;
  }

  /** To such a consumer what is handed on is what is kept. */
  lemma {:induction false} KeptDecide<P(!new)>(consumer: Consumer<P>, p: P, lf: bool, at: nat, sentences: seq<string>,
                                                 now: nat, later: seq<string>)
    requires SkipsLf(consumer) && AllFit(sentences)
    ensures var x, kept := HandedOn(lf, at, sentences, now, later), Kept(lf, at, sentences, now, later);
            && ParseAll(consumer, p, x) == ParseAll(consumer, p, kept)
            && (ReadyForAll(consumer, p, x) <==> ReadyForAll(consumer, p, kept))
    decreases |sentences|
  {
    if sentences != [] {
      var s, end, rest := sentences[0], at + |sentences[0]|, sentences[1..];
      var cut, p' := EndsAt(now, later, end + 1), if lf then p else consumer.step(p, s);
      RestFits(sentences);
      KeptDecide(consumer, p', cut, end + 2, rest, now, later);
      FirstKept(consumer, p, lf, s, cut, HandedOn(cut, end + 2, rest, now, later),
                Kept(cut, end + 2, rest, now, later));
    }
  }
}
