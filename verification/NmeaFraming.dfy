/** From the bytes of a device to its sentences (src/gypsy-nmea-parser.c): the
    state of the buffer as text, one call and runs of reads. */
module NmeaFraming {
  import opened Seqs
  import opened Text

  const READ_BUFFER_SIZE := 1024

  /** What the handling of a sentence leaves of its text in the buffer. */
  type Worker = f: string -> string | Tidy(f) witness s => s

  ghost predicate Tidy(f: string -> string) {
    forall s: string :: OnlyNuls(f(s), s)
  }

  /** What the sentences are handed to: step is what one sentence makes of a
      parser, ready whether the parser can take it, work what it leaves of the
      sentence. */
  datatype Consumer<!P> = Consumer(step: (P, string) -> P, ready: (P, string) -> bool, work: Worker)

  /** The buffer holds the text visible, up to its first NUL, and then hidden
      more characters that count as used.  parser is what the sentences handed
      on so far have made of the parser. */
  datatype Stream<P> = Stream(visible: string, hidden: nat, parser: P, handed: seq<string>)

  function Used<P>(s: Stream<P>): nat {
    |s.visible| + s.hidden
  }

  /** get_buffer: a full buffer is given up. */
  function Reset<P>(s: Stream<P>): Stream<P> {
    if Used(s) >= READ_BUFFER_SIZE then s.(visible := "", hidden := 0) else s
  }

  /** The characters of a read come to lie behind all that is used. */
  function Append<P>(s: Stream<P>, chunk: string): Stream<P> {
    if s.hidden > 0 then s.(hidden := s.hidden + |chunk|)
    else
      var text := s.visible + chunk;
      s.(visible := CStr(text), hidden := |text| - |CStr(text)|)
  }

  function Eos<P>(s: Stream<P>): nat {
    Index(s.visible, CR)
  }

  predicate HasSentence<P>(s: Stream<P>) {
    Eos(s) < |s.visible|
  }

  /** The CR at the end of a sentence has something visible behind it. */
  predicate EndSeen<P>(s: Stream<P>) {
    Eos(s) + 1 < |s.visible|
  }

  /** What is behind the CR is visible, or it is the last of all characters. */
  predicate EndKnown<P>(s: Stream<P>) {
    EndSeen(s) || (HasSentence(s) && s.hidden == 0)
  }

  predicate LfFollows<P>(s: Stream<P>) {
    EndSeen(s) && s.visible[Eos(s) + 1] == LF
  }

  /** Nothing is handed on when there is nothing before a CR without LF. */
  predicate IsHanded<P>(s: Stream<P>) {
    LfFollows(s) || Eos(s) > 0
  }

  /** One round of the loop: up to the CR is a sentence, and two characters go
      with it.  When the second is no LF, one character too many stays counted;
      when there is none, nothing does. */
  function HandOne<P>(consumer: Consumer<P>, s: Stream<P>): Stream<P>
    requires EndKnown(s)
  {
    var sentence := s.visible[..Eos(s)];
    var s' := if IsHanded(s)
              then s.(parser := consumer.step(s.parser, sentence), handed := s.handed + [sentence])
              else s;
    if EndSeen(s)
    then s'.(visible := s.visible[Eos(s) + 2..], hidden := if LfFollows(s) then s.hidden else s.hidden + 1)
    else s'.(visible := "")
  }

  /** The loop knows the end of each sentence, and the consumer takes it. */
  predicate Ready<P>(consumer: Consumer<P>, s: Stream<P>)
    decreases |s.visible|
  {
    HasSentence(s) ==>
      && EndKnown(s)
      && (IsHanded(s) ==> consumer.ready(s.parser, s.visible[..Eos(s)]))
      && Ready(consumer, HandOne(consumer, s))
  }

  /** All the rounds of one call. */
  function HandAll<P>(consumer: Consumer<P>, s: Stream<P>): Stream<P>
    decreases |s.visible|
  {
    if HasSentence(s) && EndKnown(s) then HandAll(consumer, HandOne(consumer, s)) else s
  }

  /** A call leaves no CR behind. */
  lemma {:induction false} HandAllTakesCrs<P>(consumer: Consumer<P>, s: Stream<P>)
    requires Ready(consumer, s)
    ensures CR !in HandAll(consumer, s).visible
    decreases |s.visible|
  {
    if HasSentence(s) {
      HandAllTakesCrs(consumer, HandOne(consumer, s));
    } else {
      IndexIsFirst(s.visible, CR);
    }
  }

  // ------------------------------------------------------------ whole streams

  /** One read: offer the space, fill it, take the sentences out. */
  function Feed<P>(consumer: Consumer<P>, s: Stream<P>, chunk: string): Stream<P> {
    HandAll(consumer, Append(Reset(s), chunk))
  }

  function FeedAll<P>(consumer: Consumer<P>, s: Stream<P>, chunks: seq<string>): Stream<P>
    decreases |chunks|
  {
    if chunks == [] then s else FeedAll(consumer, Feed(consumer, s, chunks[0]), chunks[1..])
  }

  /** Every read fits the space that was offered for it. */
  predicate Offered<P>(consumer: Consumer<P>, s: Stream<P>, chunks: seq<string>)
    decreases |chunks|
  {
    chunks == [] ||
    (Used(Reset(s)) + |chunks[0]| <= READ_BUFFER_SIZE && Offered(consumer, Feed(consumer, s, chunks[0]), chunks[1..]))
  }

  /** Every call finds its loop ready. */
  predicate AlwaysReady<P>(consumer: Consumer<P>, s: Stream<P>, chunks: seq<string>)
    decreases |chunks|
  {
    chunks == [] ||
    (Ready(consumer, Append(Reset(s), chunks[0])) && AlwaysReady(consumer, Feed(consumer, s, chunks[0]), chunks[1..]))
  }

  /** No read ends between a CR and its LF. */
  predicate KeepsPairs(chunks: seq<string>) {
    forall i :: 0 <= i < |chunks| ==> !EndsInCr(chunks[i])
  }

  predicate EndsInCr(s: string) {
    s != "" && s[|s| - 1] == CR
  }

  /** The parser after a list of sentences. */
  function ParseAll<P>(consumer: Consumer<P>, p: P, sentences: seq<string>): P
    decreases |sentences|
  {
    if sentences == [] then p else ParseAll(consumer, consumer.step(p, sentences[0]), sentences[1..])
  }

  predicate ReadyForAll<P>(consumer: Consumer<P>, p: P, sentences: seq<string>)
    decreases |sentences|
  {
    sentences != [] ==>
      consumer.ready(p, sentences[0]) && ReadyForAll(consumer, consumer.step(p, sentences[0]), sentences[1..])
  }

  /** A text without the characters that end lines or strings. */
  predicate Clean(s: string) {
    CR !in s && NUL !in s
  }

  /** Sentences, each ended by CR LF, and the beginning of one more. */
  function Bytes(sentences: seq<string>, tail: string): string {
    if sentences == [] then tail else sentences[0] + [CR, LF] + Bytes(sentences[1..], tail)
  }

  predicate CleanAll(sentences: seq<string>, tail: string) {
    Clean(tail) && forall i :: 0 <= i < |sentences| ==> Clean(sentences[i])
  }

  /** Every sentence fits the buffer with its CR LF. */
  predicate Sendable(sentences: seq<string>, tail: string) {
    && CleanAll(sentences, tail) && |tail| < READ_BUFFER_SIZE
    && forall i :: 0 <= i < |sentences| ==> |sentences[i]| + 2 <= READ_BUFFER_SIZE
  }

  lemma AppendClean<P>(s: Stream<P>, chunk: string)
    requires s.hidden == 0 && NUL !in s.visible + chunk
    ensures Append(s, chunk) == s.(visible := s.visible + chunk)
  {
    IndexIsFirst(s.visible + chunk, NUL);
  }
}
