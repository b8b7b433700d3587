/** Packets survive any chunking: theorems over whole runs of the Garmin input
    loop. */
module GarminFraming {
  import opened Seqs
  import opened Integers
  import opened GarminParser

  /** Every read fits the space that was offered for it. */
  predicate Offered(s: Frames, chunks: seq<Bytes>)
    decreases |chunks|
  {
    chunks == [] ||
    (|s.pending| + |chunks[0]| <= READ_BUFFER_SIZE && Offered(Feed(s, chunks[0]), chunks[1..]))
  }

  /** Every call returns. */
  predicate Returns(s: Frames, chunks: seq<Bytes>)
    decreases |chunks|
  {
    chunks == [] || (Framed(s.pending + chunks[0]) && Returns(Feed(s, chunks[0]), chunks[1..]))
  }

  function FeedAll(s: Frames, chunks: seq<Bytes>): Frames
    decreases |chunks|
  {
    if chunks == [] then s else FeedAll(Feed(s, chunks[0]), chunks[1..])
  }

  /** A packet of total length P, with the size of its data in the header. */
  predicate IsPacket(b: Bytes, P: nat) {
    GARMIN_HEADER_SIZE <= |b| == P && IsInt32(P) && Declares(b, P - GARMIN_HEADER_SIZE)
  }

  /** A packet of total length P that has not arrived completely. */
  predicate IsUnfinished(b: Bytes, P: nat) {
    |b| < P && (GARMIN_HEADER_SIZE <= |b| ==> IsInt32(P) && Declares(b, P - GARMIN_HEADER_SIZE))
  }

  lemma PacketIsMeasured(b: Bytes, P: nat)
    requires IsPacket(b, P) || (GARMIN_HEADER_SIZE <= |b| && IsUnfinished(b, P))
    ensures PacketLength(b) == P
  {
    LengthIsRead(b, P - GARMIN_HEADER_SIZE);
  }

  predicate IsStream(stream: Bytes, packets: seq<Bytes>, tail: Bytes, P: nat) {
    && stream == Flatten(packets) + tail
    && (forall i :: 0 <= i < |packets| ==> IsPacket(packets[i], P))
    && IsUnfinished(tail, P)
  }

  lemma HeaderDecides(a: Bytes, b: Bytes)
    requires GARMIN_HEADER_SIZE <= |a| <= |b| && a == b[..|a|]
    ensures PacketLength(a) == PacketLength(b)
  {
    assert a[8] == b[8] && a[9] == b[9] && a[10] == b[10] && a[11] == b[11];
  }

  /** Any beginning of the stream that holds a header declares the length P. */
  lemma PrefixLength(text: Bytes, rest: Bytes, packets: seq<Bytes>, tail: Bytes, P: nat)
    requires IsStream(text + rest, packets, tail, P)
    requires GARMIN_HEADER_SIZE <= |text|
    ensures PacketLength(text) == P
  {
    var stream := text + rest;
    HeaderDecides(text[..GARMIN_HEADER_SIZE], text);
    HeaderDecides(stream[..GARMIN_HEADER_SIZE], stream);
    assert text[..GARMIN_HEADER_SIZE] == stream[..GARMIN_HEADER_SIZE];
    var first := if packets == [] then tail else packets[0];
    assert packets == [] ==> stream == tail;
    assert first == stream[..|first|];
    HeaderDecides(first, stream);
    PacketIsMeasured(first, P);
  }

  /** The loop takes whole packets from the front of the stream and leaves the
      rest of the stream behind it. */
  lemma {:induction false} BlocksOfStream(text: Bytes, rest: Bytes, packets: seq<Bytes>, tail: Bytes, P: nat)
    returns (m: nat)
    requires GARMIN_HEADER_SIZE <= P && IsStream(text + rest, packets, tail, P)
    ensures m <= |packets| && Blocks(text, P) == packets[..m]
    ensures |Rest(text, P)| < P
    ensures IsStream(Rest(text, P) + rest, packets[m..], tail, P)
    decreases |text|
  {
    if |text| < P {
      m := 0;
    } else {
      assert packets == [] ==> text + rest == tail;
      var p := packets[0];
      assert text[..P] == (text + rest)[..P] == p;
      assert text[P..] + rest == (text + rest)[P..] == Flatten(packets[1..]) + tail;
      var k := BlocksOfStream(text[P..], rest, packets[1..], tail, P);
      m := k + 1;
      assert packets[..m] == [p] + packets[1..][..k];
      assert packets[m..] == packets[1..][k..];
    }
  }

  lemma StreamOfShortPending(packets: seq<Bytes>, tail: Bytes, stream: Bytes, P: nat)
    requires IsStream(stream, packets, tail, P) && |stream| < P
    ensures packets == [] && tail == stream
  {
  }

  /** Framing of a stream of packets of one length P does not depend on how the
      stream was cut into reads: exactly the packets are dispatched, in order,
      the unfinished one stays, and no call hangs. */
  lemma {:induction false} ChunkingIndependence(s: Frames, chunks: seq<Bytes>, packets: seq<Bytes>, tail: Bytes, P: nat)
    requires GARMIN_HEADER_SIZE <= P <= READ_BUFFER_SIZE
    requires |s.pending| < P
    requires IsStream(s.pending + Flatten(chunks), packets, tail, P)
    requires Offered(s, chunks)
    ensures Returns(s, chunks)
    ensures FeedAll(s, chunks) == Frames(tail, s.dispatched + packets)
    decreases |chunks|
  {
    if chunks == [] {
      assert s.pending + Flatten(chunks) == s.pending;
      StreamOfShortPending(packets, tail, s.pending, P);
    } else {
      var text, rest := s.pending + chunks[0], Flatten(chunks[1..]);
      assert text + rest == s.pending + Flatten(chunks);
      var s' := Feed(s, chunks[0]);
      if |text| < GARMIN_HEADER_SIZE {
        ChunkingIndependence(s', chunks[1..], packets, tail, P);
      } else {
        PrefixLength(text, rest, packets, tail, P);
        var m := BlocksOfStream(text, rest, packets, tail, P);
        ChunkingIndependence(s', chunks[1..], packets[m..], tail, P);
        assert packets == packets[..m] + packets[m..];
        assert s'.dispatched + packets[m..] == s.dispatched + packets;
      }
    }
  }

  // ------------------------------------------------- packets of any lengths

  /** A packet with the size of its data in the header. */
  predicate IsWhole(b: Bytes) {
    IsPacket(b, |b|)
  }

  /** The beginning of a packet: if the header is there, it declares more. */
  predicate IsPart(b: Bytes) {
    GARMIN_HEADER_SIZE <= |b| ==> exists n: nat :: Declares(b, n) && |b| < GARMIN_HEADER_SIZE + n < TWO_32
  }

  lemma PartIsMeasured(b: Bytes)
    requires IsPart(b) && GARMIN_HEADER_SIZE <= |b|
    ensures |b| < PacketLength(b)
  {
    var n: nat :| Declares(b, n) && |b| < GARMIN_HEADER_SIZE + n < TWO_32;
    LengthIsRead(b, n);
  }

  /** All packets are as long as the first one, and the part is shorter. */
  predicate OneLength(packets: seq<Bytes>, part: Bytes) {
    packets != [] ==>
      (forall i :: 0 <= i < |packets| ==> |packets[i]| == |packets[0]|) && |part| < |packets[0]|
  }

  lemma {:induction false} BlockLengths(text: Bytes, n: int)
    requires GARMIN_HEADER_SIZE <= n
    ensures forall i :: 0 <= i < |Blocks(text, n)| ==> |Blocks(text, n)[i]| == n
    ensures |Rest(text, n)| < n
    decreases |text|
  {
    if n <= |text| {
      BlockLengths(text[n..], n);
    }
  }

  lemma {:induction false} EqualBlocks(packets: seq<Bytes>, part: Bytes, n: nat)
    requires GARMIN_HEADER_SIZE <= n && |part| < n
    requires forall i :: 0 <= i < |packets| ==> |packets[i]| == n
    ensures Blocks(Flatten(packets) + part, n) == packets && Rest(Flatten(packets) + part, n) == part
    decreases |packets|
  {
    var text := Flatten(packets) + part;
    if packets == [] {
      assert text == part;
    } else {
      assert text[..n] == packets[0] && text[n..] == Flatten(packets[1..]) + part;
      EqualBlocks(packets[1..], part, n);
    }
  }

  lemma FirstLength(packets: seq<Bytes>, part: Bytes)
    requires packets != [] && IsWhole(packets[0])
    ensures |packets[0]| <= |Flatten(packets) + part|
    ensures PacketLength(Flatten(packets) + part) == |packets[0]|
  {
    var text := Flatten(packets) + part;
    assert packets[0] == text[..|packets[0]|];
    HeaderDecides(packets[0], text);
    PacketIsMeasured(packets[0], |packets[0]|);
  }

  lemma PartStays(s: Frames, chunk: Bytes, part: Bytes)
    requires s.pending + chunk == part && IsPart(part)
    ensures Feed(s, chunk) == Frames(part, s.dispatched + [])
  {
    assert s.dispatched + [] == s.dispatched;
    if GARMIN_HEADER_SIZE <= |part| {
      PartIsMeasured(part);
    }
  }

  /** When a call frames right: for any whole packets and any part of a next one
      that it finds in the buffer, it dispatches exactly the packets and leaves
      the part if and only if they all have the length of the first packet, and
      the part is shorter. */
  lemma CallFramesRight(s: Frames, chunk: Bytes, packets: seq<Bytes>, part: Bytes)
    requires s.pending + chunk == Flatten(packets) + part
    requires (forall i :: 0 <= i < |packets| ==> IsWhole(packets[i])) && IsPart(part)
    ensures Feed(s, chunk) == Frames(part, s.dispatched + packets) <==> OneLength(packets, part)
  {
    var text := s.pending + chunk;
    if packets == [] {
      assert text == part;
      PartStays(s, chunk, part);
    } else {
      var n := |packets[0]|;
      FirstLength(packets, part);
      BlockLengths(text, n);
      if OneLength(packets, part) {
        EqualBlocks(packets, part, n);
      }
      assert (s.dispatched + Blocks(text, n))[|s.dispatched|..] == Blocks(text, n);
      assert (s.dispatched + packets)[|s.dispatched|..] == packets;
    }
  }

  /** The first k of the lengths are n. */
  predicate Due(lengths: seq<nat>, n: nat, k: nat) {
    k <= |lengths| && forall i :: 0 <= i < k ==> lengths[i] == n
  }

  /** What a run of reads needs, by the sizes of the reads and the lengths of the
      packets alone: when there is a header in the buffer, the length that is due
      goes into what is pending as often as packets of that length are due next;
      and in the end none are left. */
  predicate LengthsFit(pending: nat, sizes: seq<nat>, lengths: seq<nat>)
    decreases |sizes|
  {
    if lengths == [] then true
    else if sizes == [] then false
    else
      var text, n := pending + sizes[0], lengths[0];
      if text < GARMIN_HEADER_SIZE || n == 0 then LengthsFit(text, sizes[1..], lengths)
      else Due(lengths, n, text / n) && LengthsFit(text % n, sizes[1..], lengths[text / n..])
  }

  function Sizes(texts: seq<Bytes>): (sizes: seq<nat>)
    ensures |sizes| == |texts|
  {
    if texts == [] then [] else [|texts[0]|] + Sizes(texts[1..])
  }

  lemma {:induction false} SizesBehind(texts: seq<Bytes>, k: nat)
    requires k <= |texts|
    ensures Sizes(texts[k..]) == Sizes(texts)[k..]
    ensures k < |texts| ==> Sizes(texts)[k] == |texts[k]|
    decreases k
  {
    if k > 0 {
      SizesBehind(texts[1..], k - 1);
      assert texts[1..][k - 1..] == texts[k..];
    }
  }

  lemma DueSizes(texts: seq<Bytes>, n: nat, k: nat)
    ensures Due(Sizes(texts), n, k) <==> k <= |texts| && forall i :: 0 <= i < k ==> |texts[i]| == n
  {
    forall i | 0 <= i < |texts|
      ensures Sizes(texts)[i] == |texts[i]|
    {
      SizesBehind(texts, i);
    }
  }

  lemma DivideStep(n: nat, q: nat)
    ensures n * (q + 1) == n * q + n
  {
  }

  lemma {:induction false} BlocksDivide(text: Bytes, n: nat)
    requires GARMIN_HEADER_SIZE <= n
    ensures |text| == n * |Blocks(text, n)| + |Rest(text, n)| && |Rest(text, n)| < n
    decreases |text|
  {
    if n <= |text| {
      BlocksDivide(text[n..], n);
      DivideStep(n, |Blocks(text[n..], n)|);
    }
  }

  lemma QuotientIs(a: nat, n: nat, q: nat, r: nat)
    requires a == n * q + r && r < n
    ensures a / n == q && a % n == r
  {
    Multiples(n, a / n + 1, q);
    Multiples(n, q + 1, a / n);
  }

  lemma Multiples(n: nat, x: nat, y: nat)
    ensures x <= y ==> n * x <= n * y
  {
  }

  lemma {:induction false} DispatchedGrows(s: Frames, chunks: seq<Bytes>)
    ensures s.dispatched <= FeedAll(s, chunks).dispatched
    decreases |chunks|
  {
    if chunks != [] {
      DispatchedGrows(Feed(s, chunks[0]), chunks[1..]);
    }
  }

  /** Blocks of the right length are the packets that are due. */
  lemma {:induction false} DueBlocks(text: Bytes, rest: Bytes, packets: seq<Bytes>, tail: Bytes, n: nat)
    requires 0 < n && text + rest == Flatten(packets) + tail
    requires |Blocks(text, n)| <= |packets| && forall i :: 0 <= i < |Blocks(text, n)| ==> |packets[i]| == n
    ensures Blocks(text, n) == packets[..|Blocks(text, n)|]
    ensures Rest(text, n) + rest == Flatten(packets[|Blocks(text, n)|..]) + tail
    decreases |text|
  {
    if GARMIN_HEADER_SIZE <= |text| && n <= |text| {
      var blocks := Blocks(text[n..], n);
      assert Blocks(text, n) == [text[..n]] + blocks;
      assert |packets[0]| == n && text[..n] == (text + rest)[..n] == packets[0];
      assert text[n..] + rest == (text + rest)[n..] == Flatten(packets[1..]) + tail;
      forall i | 0 <= i < |blocks|
        ensures |packets[1..][i]| == n
      {
        assert packets[1..][i] == packets[i + 1];
      }
      DueBlocks(text[n..], rest, packets[1..], tail, n);
      assert packets[1..][|blocks|..] == packets[|blocks| + 1..];
    }
  }

  /** A call that dispatches the packets so far has cut only due packets. */
  lemma DispatchedAreDue(before: seq<Bytes>, blocks: seq<Bytes>, packets: seq<Bytes>, n: nat)
    requires before + blocks <= before + packets
    requires forall i :: 0 <= i < |blocks| ==> |blocks[i]| == n
    ensures |blocks| <= |packets| && forall i :: 0 <= i < |blocks| ==> |packets[i]| == n
  {
    forall i | 0 <= i < |blocks|
      ensures packets[i] == blocks[i]
    {
      assert (before + packets)[|before| + i] == (before + blocks)[|before| + i];
    }
  }

  lemma PrefixDeclares(text: Bytes, rest: Bytes, packets: seq<Bytes>, tail: Bytes)
    requires text + rest == Flatten(packets) + tail && packets != [] && IsWhole(packets[0])
    requires GARMIN_HEADER_SIZE <= |text|
    ensures PacketLength(text) == |packets[0]|
  {
    FirstLength(packets, tail);
    HeaderDecides(text, text + rest);
  }

  lemma TailDeclares(text: Bytes, rest: Bytes, tail: Bytes)
    requires text + rest == tail && IsPart(tail) && GARMIN_HEADER_SIZE <= |text|
    ensures PacketLength(text) > |text|
  {
    HeaderDecides(text, text + rest);
    PartIsMeasured(tail);
  }

  lemma NoMoreReads(s: Frames, packets: seq<Bytes>, part: Bytes)
    requires s.pending + [] == Flatten(packets) + part
    ensures s == Frames(part, s.dispatched + packets) <==> packets == []
  {
    assert s.pending + [] == s.pending && s.dispatched + [] == s.dispatched;
    assert packets == [] ==> Flatten(packets) + part == part;
    assert packets != [] ==> |s.dispatched + packets| > |s.dispatched|;
  }

  /** The call has dispatched the first k packets. */
  lemma RestIsRight(s: Frames, s': Frames, last: Frames, k: nat, packets: seq<Bytes>, part: Bytes)
    requires k <= |packets| && s'.dispatched == s.dispatched + packets[..k]
    ensures last == Frames(part, s.dispatched + packets) <==> last == Frames(part, s'.dispatched + packets[k..])
  {
    assert s.dispatched + packets == s.dispatched + packets[..k] + packets[k..];
  }

  /** A call that finds a header of a packet: what it cuts, by lengths. */
  lemma CallByLengths(text: Bytes, rest: Bytes, packets: seq<Bytes>, part: Bytes,
                      sizes: seq<nat>, pending: nat, read: nat)
    requires text + rest == Flatten(packets) + part && packets != [] && IsWhole(packets[0])
    requires GARMIN_HEADER_SIZE <= |text| == pending + read
    ensures PacketLength(text) == |packets[0]|
    ensures var n := |packets[0]|;
            var k := |Blocks(text, n)|;
            (LengthsFit(pending, [read] + sizes, Sizes(packets)) <==>
                Due(Sizes(packets), n, k) && LengthsFit(|Rest(text, n)|, sizes, Sizes(packets)[k..]))
  {
    PrefixDeclares(text, rest, packets, part);
    var n := PacketLength(text);
    BlocksDivide(text, n);
    QuotientIs(|text|, n, |Blocks(text, n)|, |Rest(text, n)|);
    assert ([read] + sizes)[1..] == sizes;
  }

  /** Runs of reads frame right: for whole packets of any lengths and a part of
      one more, cut into any reads, exactly the packets are dispatched and the
      part stays if and only if the sizes of the reads fit the lengths. */
  lemma {:induction false} RunsFrameRight(s: Frames, chunks: seq<Bytes>, packets: seq<Bytes>, part: Bytes)
    requires s.pending + Flatten(chunks) == Flatten(packets) + part
    requires (forall i :: 0 <= i < |packets| ==> IsWhole(packets[i])) && IsPart(part)
    ensures FeedAll(s, chunks) == Frames(part, s.dispatched + packets)
            <==> LengthsFit(|s.pending|, Sizes(chunks), Sizes(packets))
    decreases |chunks|
  {
    if chunks == [] {
      NoMoreReads(s, packets, part);
    } else {
      var text, rest := s.pending + chunks[0], Flatten(chunks[1..]);
      assert text + rest == s.pending + Flatten(chunks);
      if |text| < GARMIN_HEADER_SIZE {
        RunsFrameRight(s.(pending := text), chunks[1..], packets, part);
      } else if packets == [] {
        assert Flatten(packets) + part == part;
        TailDeclares(text, rest, part);
        assert s.dispatched + [] == s.dispatched;
        RunsFrameRight(s.(pending := text), chunks[1..], packets, part);
      } else {
        CallFramesDue(s, chunks, text, packets, part);
        CallByLengths(text, rest, packets, part, Sizes(chunks[1..]), |s.pending|, |chunks[0]|);
        var n := PacketLength(text);
        var k := |Blocks(text, n)|;
        DueSizes(packets, n, k);
        if Due(Sizes(packets), n, k) {
          DueBlocks(text, rest, packets, part, n);
          SizesBehind(packets, k);
          RunsFrameRight(Feed(s, chunks[0]), chunks[1..], packets[k..], part);
          RestIsRight(s, Feed(s, chunks[0]), FeedAll(s, chunks), k, packets, part);
        }
      }
    }
  }

  /** A call that finds a header: it returns, and if it cuts anything that is not
      due the run can no longer end right. */
  lemma CallFramesDue(s: Frames, chunks: seq<Bytes>, text: Bytes, packets: seq<Bytes>, part: Bytes)
    requires chunks != [] && text == s.pending + chunks[0] && GARMIN_HEADER_SIZE <= |text|
    requires text + Flatten(chunks[1..]) == Flatten(packets) + part
    requires (forall i :: 0 <= i < |packets| ==> IsWhole(packets[i])) && IsPart(part)
    ensures 0 < PacketLength(text)
    ensures FeedAll(s, chunks) == Frames(part, s.dispatched + packets) ==>
              var blocks := Blocks(text, PacketLength(text));
              |blocks| <= |packets| && forall i :: 0 <= i < |blocks| ==> |packets[i]| == PacketLength(text)
  {
    if packets == [] {
      assert Flatten(packets) + part == part;
      TailDeclares(text, Flatten(chunks[1..]), part);
    } else {
      PrefixDeclares(text, Flatten(chunks[1..]), packets, part);
      var n := PacketLength(text);
      BlockLengths(text, n);
      DispatchedGrows(Feed(s, chunks[0]), chunks[1..]);
      if FeedAll(s, chunks) == Frames(part, s.dispatched + packets) {
        DispatchedAreDue(s.dispatched, Blocks(text, n), packets, n);
      }
    }
  }

  lemma FeedWaits(s: Frames, chunk: Bytes)
    requires GARMIN_HEADER_SIZE <= |s.pending| && |s.pending + chunk| < PacketLength(s.pending)
    ensures Feed(s, chunk) == s.(pending := s.pending + chunk)
    ensures PacketLength(s.pending + chunk) == PacketLength(s.pending)
  {
    HeaderDecides(s.pending, s.pending + chunk);
    assert s.dispatched + [] == s.dispatched;
  }

  /** A packet that is longer than the buffer is never dispatched, and nothing
      behind it is: the bytes pile up until no space is offered any more. */
  lemma {:induction false} OversizeStalls(s: Frames, chunks: seq<Bytes>, n: nat)
    requires Declares(s.pending, n) && |s.pending| <= READ_BUFFER_SIZE < GARMIN_HEADER_SIZE + n < TWO_32
    requires Offered(s, chunks)
    ensures FeedAll(s, chunks) == s.(pending := s.pending + Flatten(chunks))
    ensures |s.pending + Flatten(chunks)| <= READ_BUFFER_SIZE
    decreases |chunks|
  {
    if chunks == [] {
      assert s.pending + Flatten(chunks) == s.pending;
    } else {
      var rest := Flatten(chunks[1..]);
      LengthIsRead(s.pending, n);
      FeedWaits(s, chunks[0]);
      assert (s.pending + chunks[0])[8..12] == s.pending[8..12];
      OversizeStalls(Feed(s, chunks[0]), chunks[1..], n);
      assert s.pending + chunks[0] + rest == s.pending + (chunks[0] + rest);
    }
  }

  /** The bytes pending after so many turns of the loop of one call. */
  function Turns(pending: Bytes, pktlen: nat, turns: nat): Bytes {
    if turns == 0 then pending
    else
      var b := Turns(pending, pktlen, turns - 1);
      if pktlen <= |b| then b[pktlen..] else b
  }

  predicate Stops(pending: Bytes, pktlen: nat, turns: nat) {
    |Turns(pending, pktlen, turns)| < GARMIN_HEADER_SIZE || |Turns(pending, pktlen, turns)| < pktlen
  }

  lemma {:induction false} ZeroTurns(pending: Bytes, turns: nat)
    ensures Turns(pending, 0, turns) == pending
    decreases turns
  {
    if turns > 0 {
      ZeroTurns(pending, turns - 1);
    }
  }

  lemma {:induction false} TurnsShrink(pending: Bytes, pktlen: nat, turns: nat)
    requires 0 < pktlen
    ensures Stops(pending, pktlen, turns) || |Turns(pending, pktlen, turns)| + turns <= |pending|
    decreases turns
  {
    if turns > 0 {
      TurnsShrink(pending, pktlen, turns - 1);
    }
  }

  /** The one data size that adds up to 0 with the header. */
  const ENDLESS := TWO_32 - GARMIN_HEADER_SIZE

  lemma OneSizeIsEndless(text: Bytes)
    requires GARMIN_HEADER_SIZE <= |text|
    ensures Framed(text) <==> !Declares(text, ENDLESS)
  {
    var n := SizeIsWritten(text);
    LengthIsRead(text, n);
    if Declares(text, ENDLESS) {
      LengthIsRead(text, ENDLESS);
    }
  }

  /** A call with a header in the buffer returns if and only if the header does not
      declare 2^32 - 12 bytes of data: that total length is 0 in 32 bits. */
  lemma ReturnsIffFramed(text: Bytes)
    requires GARMIN_HEADER_SIZE <= |text|
    ensures (exists turns: nat :: Stops(text, PacketLength(text), turns)) <==> !Declares(text, ENDLESS)
    ensures Framed(text) <==> !Declares(text, ENDLESS)
  {
    OneSizeIsEndless(text);
    if Framed(text) {
      TurnsShrink(text, PacketLength(text), |text|);
      assert Stops(text, PacketLength(text), |text|);
    } else {
      forall turns: nat
        ensures !Stops(text, PacketLength(text), turns)
      {
        ZeroTurns(text, turns);
      }
    }
  }

  function Packet(size: Byte): (p: Bytes)
    requires size <= 2
    ensures IsPacket(p, 12 + size)
  {
    var header: Bytes := [0, 0, 0, 0, 0, 0, 0, 0, size, 0, 0, 0];
    assert header[8..12] == LittleEndian(size);
    assert (header + [0, 0][..size])[8..12] == header[8..12];
    header + [0, 0][..size]
  }

  /** Packets of different lengths in one read are not framed as sent: the
      length of the first one is used for all of them. */
  lemma MixedLengthsMisframed()
    ensures var a, b := Packet(0), Packet(1);
            && Offered(Frames([], []), [a + b]) && Returns(Frames([], []), [a + b])
            && FeedAll(Frames([], []), [a + b]).dispatched == [a, b[..12]]
            && FeedAll(Frames([], []), [a + b]).pending == b[12..]
  {
    var a, b := Packet(0), Packet(1);
    var text := a + b;
    HeaderDecides(a, text);
    assert Frames([], []).pending + text == text;
    assert text[..12] == a && text[12..] == b;
    assert Blocks(b, 12) == [b[..12]] && Rest(b, 12) == b[12..] by {
      assert |b[12..]| == 1;
    }
    var none: seq<Bytes> := [text][1..];
    assert none == [];
    assert FeedAll(Frames([], []), [text]) == Feed(Frames([], []), text);
  }
}
