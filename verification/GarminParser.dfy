/** The Garmin parser (src/gypsy-garmin-parser.c): the clock of a PVT packet and
    the framing of the packet stream in a fixed buffer. */
module GarminParser {
  import opened Calendar
  import opened Integers
  import opened JulianDay

  type Byte = b: int | 0 <= b < 256
  type Bytes = seq<Byte>

  const SECONDS_PER_WEEK := 604800
  const SECONDS_PER_DAY := 86400
  const DAYS_PER_WEEK := 7
  const EPOCH := Date(1, 1, 1970)
  // wn_days counts from this day.
  const GARMIN_DAY_ZERO := Date(31, 12, 1989)
  const READ_BUFFER_SIZE := 1024
  const GARMIN_HEADER_SIZE := 12

  lemma Epochs()
    ensures Valid(EPOCH) && Valid(GARMIN_DAY_ZERO)
    ensures DayNumber(EPOCH) == 719163
    ensures DayNumber(GARMIN_DAY_ZERO) == 719163 + 7304
  {
    DaysBeforeYearClosed(1970);
    DaysBeforeYearClosed(1989);
    DaysBeforeMonthTable(1, 1970);
    DaysBeforeMonthTable(12, 1989);
  }

  lemma SplitSeconds(tmp: int)
    requires -0x1_0000_0000 <= tmp
    ensures TruncDiv(tmp, 86400) * 86400 + TruncMod(tmp, 86400) == tmp
    ensures -49711 <= TruncDiv(tmp, 86400)
    ensures 0 <= tmp ==> 0 <= TruncMod(tmp, 86400) < 86400
  {
  }

  /** The clock of a packet as one linear form; a time of week past its end
      counts as the end. */
  function Utc(tow: int, wnDays: int, leapScnds: int): int {
    (wnDays + 7304) * SECONDS_PER_DAY + (if tow <= SECONDS_PER_WEEK then tow else SECONDS_PER_WEEK) - leapScnds
  }

  lemma DayOfSeconds(days: int, seconds: int)
    requires 0 <= seconds < 86400
    ensures (days * 86400 + seconds) / 86400 == days
  {
  }

  lemma ClockWraps(days: int, seconds: int, utc: int)
    requires utc == days * SECONDS_PER_DAY + seconds
    ensures AsInt32(AsInt32(days * SECONDS_PER_DAY) + seconds) == AsInt32(utc)
    ensures AsInt32(utc) == utc <==> IsInt32(utc)
  {
    WrapsOnce(days * SECONDS_PER_DAY, seconds);
    WrapsExactly(utc);
  }

  // ---------------------------------------------------------------- framing

  /** mDataSize: bytes 8 to 11, least significant first. */
  function DataSize(b: Bytes): int
    requires GARMIN_HEADER_SIZE <= |b|
  {
    b[8] as int + 0x100 * (b[9] as int) + 0x1_0000 * (b[10] as int) + 0x100_0000 * (b[11] as int)
  }

  /** pktlen as the loop compares it: the 32-bit sum is stored in an int and
      that int is widened to an unsigned 64-bit size. */
  function PacketLength(b: Bytes): (n: int)
    requires GARMIN_HEADER_SIZE <= |b|
    ensures 0 <= n
  {
    var sum := (GARMIN_HEADER_SIZE + DataSize(b)) % 0x1_0000_0000;
    if sum < 0x8000_0000 then sum else sum + 0xFFFF_FFFF_0000_0000
  }

  /** Four bytes, least significant first. */
  function LittleEndian(n: nat): (b: Bytes)
    requires n < TWO_32
    ensures |b| == 4
  {
    [n % 0x100, n / 0x100 % 0x100, n / 0x1_0000 % 0x100, n / 0x100_0000]
  }

  /** A text with the bytes of a header, in which a data size of n is written. */
  predicate Declares(b: Bytes, n: nat) {
    GARMIN_HEADER_SIZE <= |b| && n < TWO_32 && b[8..12] == LittleEndian(n)
  }

  lemma BytesAddUp(n: nat)
    requires n < TWO_32
    ensures n % 0x100 + 0x100 * (n / 0x100 % 0x100) + 0x1_0000 * (n / 0x1_0000 % 0x100) + 0x100_0000 * (n / 0x100_0000)
            == n
  {
    assert n / 0x100 / 0x100 == n / 0x1_0000 && n / 0x1_0000 / 0x100 == n / 0x100_0000;
  }

  /** A packet's length is read from its header: the header and the data together,
      as long as that is an int.  A larger sum that fits 32 bits is longer than any
      buffer, and one that does not has wrapped. */
  lemma LengthIsRead(b: Bytes, n: nat)
    requires Declares(b, n)
    ensures 12 + n < 0x8000_0000 ==> PacketLength(b) == 12 + n
    ensures 0x8000_0000 <= 12 + n < TWO_32 ==> PacketLength(b) == 12 + n + 0xFFFF_FFFF_0000_0000
    ensures TWO_32 <= 12 + n ==> PacketLength(b) == 12 + n - TWO_32
  {
    assert b[8] == b[8..12][0] && b[9] == b[8..12][1] && b[10] == b[8..12][2] && b[11] == b[8..12][3];
    BytesAddUp(n);
  }

  lemma WrittenBack(n: nat, a: Byte, b: Byte, c: Byte, d: Byte)
    requires n == a as int + 0x100 * (b as int) + 0x1_0000 * (c as int) + 0x100_0000 * (d as int)
    ensures n < TWO_32 && LittleEndian(n) == [a, b, c, d]
  {
    assert n / 0x100_0000 == d;
    assert n / 0x1_0000 == c as int + 0x100 * (d as int);
    assert n / 0x100 == b as int + 0x100 * (c as int) + 0x1_0000 * (d as int);
  }

  /** Every header declares one size. */
  lemma SizeIsWritten(b: Bytes) returns (n: nat)
    requires GARMIN_HEADER_SIZE <= |b|
    ensures Declares(b, n)
  {
    n := DataSize(b);
    WrittenBack(n, b[8], b[9], b[10], b[11]);
    assert b[8..12] == [b[8], b[9], b[10], b[11]];
  }

  /** The loop of one call: pktlen is fixed, whole blocks leave the front. */
  function Blocks(pending: Bytes, pktlen: int): seq<Bytes>
    requires 0 < pktlen
    decreases |pending|
  {
    if GARMIN_HEADER_SIZE <= |pending| && pktlen <= |pending|
    then [pending[..pktlen]] + Blocks(pending[pktlen..], pktlen)
    else []
  }

  function Rest(pending: Bytes, pktlen: int): Bytes
    requires 0 < pktlen
    decreases |pending|
  {
    if GARMIN_HEADER_SIZE <= |pending| && pktlen <= |pending|
    then Rest(pending[pktlen..], pktlen)
    else pending
  }

  /** A header whose total length wraps to zero would keep the loop going. */
  predicate Framed(pending: Bytes) {
    GARMIN_HEADER_SIZE <= |pending| ==> PacketLength(pending) != 0
  }

  datatype Frames = Frames(pending: Bytes, dispatched: seq<Bytes>)

  /** One read followed by one call of received_data.  Where the call would not
      return (see Framed) nothing is dispatched. */
  function Feed(s: Frames, chunk: Bytes): Frames {
    var text := s.pending + chunk;
    if |text| < GARMIN_HEADER_SIZE || !Framed(text) then s.(pending := text)
    else
      var n := PacketLength(text);
      Frames(Rest(text, n), s.dispatched + Blocks(text, n))
  }

  class GarminParser {
    const buffer: array<Byte>
    var bytesInBuffer: nat
    var date: Date
    // The packets handed to the dispatcher so far, each as the bytes it saw.
    var dispatched: seq<Bytes>

    ghost predicate Valid()
      reads this
    {
      buffer.Length == READ_BUFFER_SIZE && bytesInBuffer <= READ_BUFFER_SIZE
    }

    ghost function State(): Frames
      reads this, buffer
      requires Valid()
    {
      Frames(buffer[..bytesInBuffer], dispatched)
    }

    constructor ()
      ensures Valid() && fresh(buffer)
      ensures State() == Frames([], [])
    {
      buffer := new Byte[READ_BUFFER_SIZE](_ => 0);
      bytesInBuffer := 0;
      date := EPOCH;
      dispatched := [];
    }

    /** Both week corrections, and the split into days and seconds of the day. */
    method SplitTime(tow: int, wnDays: int, leapScnds: int) returns (dtmp: int, tmp: int)
      requires IsInt32(tow) && 0 <= wnDays && IsInt16(leapScnds)
      ensures (dtmp + 7304) * SECONDS_PER_DAY + tmp == Utc(tow, wnDays, leapScnds)
      ensures FIRST_JD <= dtmp + 2447892 && (0 <= tow ==> 0 <= tmp < SECONDS_PER_DAY)
    {
      tmp := tow;
      dtmp := wnDays;
      if tmp >= SECONDS_PER_WEEK {
        dtmp := dtmp + DAYS_PER_WEEK;
        tmp := 0;
      }
      tmp := tmp - leapScnds;
      if tmp < 0 {
        tmp := tmp + SECONDS_PER_WEEK;
        dtmp := dtmp - DAYS_PER_WEEK;
      }
      SplitSeconds(tmp);
      dtmp := dtmp + TruncDiv(tmp, SECONDS_PER_DAY);
      tmp := TruncMod(tmp, SECONDS_PER_DAY);
    }

    /** The whole clock computation.  tow is the rounded time of week.  The
        result is linear in the three inputs, through both week corrections
        and the date round trip, exactly as long as it fits an int, and the
        stored date is the calendar day of the linear form. */
    method CalculateUtc(tow: int, wnDays: int, leapScnds: int) returns (timestamp: int)
      requires IsInt32(tow) && 0 <= wnDays && IsInt16(leapScnds)
      modifies this`date
      ensures timestamp == AsInt32(Utc(tow, wnDays, leapScnds))
      ensures timestamp == Utc(tow, wnDays, leapScnds) <==> IsInt32(Utc(tow, wnDays, leapScnds))
      ensures Calendar.Valid(date)
      ensures 0 <= tow ==> DayNumber(date) == DayNumber(EPOCH) + Utc(tow, wnDays, leapScnds) / SECONDS_PER_DAY
    {
      var dtmp, tmp := SplitTime(tow, wnDays, leapScnds);
      var jd := dtmp + 2447892;
      SetDate(jd);
      Epochs();
      var daysSinceEpoch := DayNumber(date) - DayNumber(EPOCH);
      var datestamp := AsInt32(daysSinceEpoch * SECONDS_PER_DAY);
      timestamp := AsInt32(datestamp + tmp);
      ClockWraps(daysSinceEpoch, tmp, Utc(tow, wnDays, leapScnds));
      if 0 <= tow {
        DayOfSeconds(daysSinceEpoch, tmp);
      }
    }

    /** The Julian day to date part of the clock computation. */
    method SetDate(jd: int)
      requires FIRST_JD <= jd
      modifies this`date
      ensures Calendar.Valid(date)
      ensures DayNumber(date) == jd - JD_OF_DAY_ZERO
    {
      var w := (4 * jd - 7468865) / 146097;
      var x := w / 4;
      var a := jd + 1 + w - x;
      var b := a + 1524;
      var c := (20 * b - 2442) / 7305;
      var d := 1461 * c / 4;
      var e := 10000 * (b - d) / 306001;
      var f := 306001 * e / 10000;

      var day := b - d - f;
      var month := e - 1;
      if month > 12 {
        month := month - 12;
      }
      var year := c - 4716;
      if month == 1 || month == 2 {
        year := year + 1;
      }
      date := Date(day, month, year);
      assert date == ToDate(jd);
      assert Calendar.Valid(date) && DayNumber(date) == jd - JD_OF_DAY_ZERO by {
        ToDateCounts(jd);
      }
    }

    method GetBuffer() returns (start: nat, capacity: nat)
      requires Valid()
      ensures start == |State().pending| && start + capacity == buffer.Length
    {
      start, capacity := bytesInBuffer, READ_BUFFER_SIZE - bytesInBuffer;
    }

    method ReceivedData(length: nat)
      requires Valid()
      requires bytesInBuffer + length <= READ_BUFFER_SIZE
      requires Framed(buffer[..bytesInBuffer + length])
      modifies this`bytesInBuffer, this`dispatched, buffer
      ensures Valid()
      ensures State() == Feed(old(State()), old(buffer[bytesInBuffer..bytesInBuffer + length]))
    {
      ghost var text := buffer[..bytesInBuffer + length];
      assert text == old(State()).pending + old(buffer[bytesInBuffer..bytesInBuffer + length]);
      bytesInBuffer := bytesInBuffer + length;
      var pktlen := PacketLength(buffer[..GARMIN_HEADER_SIZE]);
      assert GARMIN_HEADER_SIZE <= |text| ==> pktlen == PacketLength(text);
      while GARMIN_HEADER_SIZE <= bytesInBuffer && pktlen <= bytesInBuffer
        invariant Valid()
        invariant GARMIN_HEADER_SIZE <= |text| ==> Cutting(text, pktlen, old(dispatched))
        invariant |text| < GARMIN_HEADER_SIZE ==> buffer[..bytesInBuffer] == text && dispatched == old(dispatched)
        decreases bytesInBuffer
      {
        TakePacket(pktlen, text, old(dispatched));
      }
    }

    /** What the loop has dispatched and has left makes the whole text. */
    ghost predicate Cutting(text: Bytes, pktlen: int, before: seq<Bytes>)
      reads this, buffer
      requires Valid()
    {
      && 0 < pktlen
      && dispatched + Blocks(buffer[..bytesInBuffer], pktlen) == before + Blocks(text, pktlen)
      && Rest(buffer[..bytesInBuffer], pktlen) == Rest(text, pktlen)
    }

    /** One round of the loop. */
    method TakePacket(pktlen: nat, ghost text: Bytes, ghost before: seq<Bytes>)
      requires Valid() && Cutting(text, pktlen, before)
      requires GARMIN_HEADER_SIZE <= bytesInBuffer && pktlen <= bytesInBuffer
      modifies this`bytesInBuffer, this`dispatched, buffer
      ensures Valid() && Cutting(text, pktlen, before)
      ensures bytesInBuffer < old(bytesInBuffer)
    {
      ghost var was, pending := dispatched, buffer[..bytesInBuffer];
      dispatched := dispatched + [buffer[..pktlen]];
      assert pending[..pktlen] == buffer[..pktlen];
      MoveUp(pktlen);
      bytesInBuffer := bytesInBuffer - pktlen;
      assert buffer[..bytesInBuffer] == pending[pktlen..];
      assert dispatched + Blocks(pending[pktlen..], pktlen)
          == was + ([pending[..pktlen]] + Blocks(pending[pktlen..], pktlen));
    }

    /** memmove of the bytes after the first packet to the front. */
    method MoveUp(pktlen: nat)
      requires Valid() && pktlen <= bytesInBuffer
      modifies buffer
      ensures buffer[..bytesInBuffer - pktlen] == old(buffer[pktlen..bytesInBuffer])
    {
      var n := bytesInBuffer - pktlen;
      forall i | 0 <= i < n {
        buffer[i] := buffer[pktlen + i];
      }
    }

    /** One input event: offer the free space, read into it, process. */
    method Input(chunk: Bytes)
      requires Valid()
      requires |chunk| <= READ_BUFFER_SIZE - bytesInBuffer
      requires Framed(buffer[..bytesInBuffer] + chunk)
      modifies this`bytesInBuffer, this`dispatched, buffer
      ensures Valid()
      ensures State() == Feed(old(State()), chunk)
    {
      var start, capacity := GetBuffer();
      forall i | 0 <= i < |chunk| {
        buffer[start + i] := chunk[i];
      }
      assert buffer[start..start + |chunk|] == chunk;
      assert buffer[..start] == old(buffer[..start]);
      assert buffer[..start + |chunk|] == old(buffer[..bytesInBuffer]) + chunk;
      ReceivedData(|chunk|);
    }
  }
}
