/**
 * HttpServer_getLine (http-server.c): reads the bytes of one client into a
 * fixed buffer until a line feed arrives, the buffer is full or a deadline
 * passes.
 *
 * The transport and the clock are scripts consumed from the front. A poll
 * script answers, one entry per loop iteration, whether a byte was
 * available and which; once it is exhausted no more data arrives. A clock
 * script gives the successive readings of the tick counter, one per reading
 * the function makes; once it is exhausted the clock reads 0xFFFFFFFF, the
 * largest tick, so that every read ends.
 */
module LineReader {
  import opened HttpTypes

  /** What one availability check and read of the transport yields. */
  datatype Poll = NoData | Data(b: byte)

  const TickModulus: int := 0x1_0000_0000

  /** A reading of the 32-bit tick counter. */
  type Tick = t: int | 0 <= t < 0x1_0000_0000

  const LastTick: Tick := 0xFFFF_FFFF

  /** The next clock reading of a script. */
  function Now(ticks: seq<Tick>): Tick
  {
    if ticks == [] then LastTick else ticks[0]
  }

  /** The script left after one reading. */
  function AfterReading(ticks: seq<Tick>): seq<Tick>
  {
    if ticks == [] then [] else ticks[1..]
  }

  function NextPoll(polls: seq<Poll>): Poll
  {
    if polls == [] then NoData else polls[0]
  }

  function AfterPoll(polls: seq<Poll>): seq<Poll>
  {
    if polls == [] then [] else polls[1..]
  }

  /** `now + timeout` computed in uint32_t arithmetic: it wraps. */
  function Deadline(start: Tick, timeout: uint16): Tick
  {
    (start + timeout) % TickModulus
  }

  /** The bytes a sequence of polls delivers, in order. */
  function DataOf(polls: seq<Poll>): seq<byte>
  {
    if polls == [] then []
    else (if polls[0].Data? then [polls[0].b] else []) + DataOf(polls[1..])
  }

  /** The polls taken from `polls` when `left` is what remains of them. */
  function Consumed(polls: seq<Poll>, left: seq<Poll>): seq<Poll>
    requires |left| <= |polls|
  {
    polls[..|polls| - |left|]
  }

  predicate IsSuffix<T(==)>(left: seq<T>, s: seq<T>)
  {
    |left| <= |s| && left == s[|s| - |left|..]
  }

  /** A clock whose readings never go back. */
  predicate Monotone(ticks: seq<Tick>)
  {
    forall j, k | 0 <= j < k < |ticks| :: ticks[j] <= ticks[k]
  }

  /** The state in which the read loop ends. */
  datatype Scan = Scan(stored: seq<byte>, lineFeed: bool, ticks: seq<Tick>, polls: seq<Poll>)

  /**
   * The read loop, from a state in which `stored` bytes (no line feed) are
   * in the buffer. Each test of the loop condition reads the clock first and
   * compares the index with the capacity second; each iteration polls the
   * transport once and stores an available byte. A line feed is stored too,
   * and ends the loop.
   */
  function ScanLine(maxLength: nat, deadline: Tick, ticks: seq<Tick>, polls: seq<Poll>,
                    stored: seq<byte>): (r: Scan)
    requires |stored| <= maxLength && LF !in stored
    ensures |stored| <= |r.stored| <= maxLength
    ensures r.lineFeed ==> |r.stored| > 0
    decreases |ticks|
  {
    if !(deadline > Now(ticks) && |stored| < maxLength) then
      Scan(stored, false, AfterReading(ticks), polls)
    else
      match NextPoll(polls)
      case NoData =>
        ScanLine(maxLength, deadline, AfterReading(ticks), AfterPoll(polls), stored)
      case Data(b) =>
        if b == LF then Scan(stored + [b], true, AfterReading(ticks), AfterPoll(polls))
        else ScanLine(maxLength, deadline, AfterReading(ticks), AfterPoll(polls), stored + [b])
  }

  /** What HttpServer_getLine returns, and the state it leaves. */
  datatype LineRead = LineRead(err: Error, received: int, buffer: seq<byte>,
                               ticks: seq<Tick>, polls: seq<Poll>)

  /**
   * HttpServer_getLine on a buffer whose contents are `buffer`. After the
   * line feed `i` is decremented, so on success `received` is the index of
   * the last character kept, one less than the number of characters; a line
   * that fills the buffer reports `maxLength`.
   */
  function ReadLine(buffer: seq<byte>, maxLength: nat, timeout: uint16,
                    ticks: seq<Tick>, polls: seq<Poll>): (r: LineRead)
    requires maxLength == 0 || maxLength < |buffer|
    ensures r.err == Ok || r.err == OkEmptyLine || r.err == TimedOut || r.err == WrongParam
    ensures r.err == WrongParam <==> maxLength == 0
    ensures maxLength == 0 ==> r.received == -1 && r.buffer == buffer && r.ticks == ticks && r.polls == polls
    ensures r.err == TimedOut ==> r.received == -1
    ensures r.received == -2 <==> r.err == OkEmptyLine
    ensures r.received != 0 && -2 <= r.received <= maxLength
    ensures |r.buffer| == |buffer|
  {
    if maxLength == 0 then LineRead(WrongParam, -1, buffer, ticks, polls)
    else
      var deadline := Deadline(Now(ticks), timeout);
      var s := ScanLine(maxLength, deadline, AfterReading(ticks), polls, []);
      var buf := s.stored + buffer[|s.stored|..];
      var i := if s.lineFeed then |s.stored| - 2 else |s.stored|;
      if deadline <= Now(s.ticks) then
        LineRead(TimedOut, -1, buf, AfterReading(s.ticks), s.polls)
      else
        var j := if i > 0 && buf[i] == CR then i - 1 else i;
        if j == 0 then LineRead(OkEmptyLine, -2, buf, AfterReading(s.ticks), s.polls)
        else
          assert j > 0 ==> |s.stored| > 0;
          LineRead(Ok, j, buf, AfterReading(s.ticks), s.polls)
  }

  /**
   * HttpServer_getLine: reads one line of a client into `buffer` (at most
   * `maxLength` bytes; the byte at `maxLength` may be inspected for a CR).
   */
  method GetLine(buffer: array?<byte>, maxLength: uint16, timeout: uint16,
                 ticks: seq<Tick>, polls: seq<Poll>)
    returns (err: Error, received: int, ticksLeft: seq<Tick>, pollsLeft: seq<Poll>)
    requires maxLength <= 0x7FFF  // the index and the count are int16_t
    requires buffer != null ==> maxLength == 0 || maxLength < buffer.Length
    modifies buffer
    ensures buffer == null ==> err == WrongParam && received == -1 && ticksLeft == ticks && pollsLeft == polls
    ensures buffer != null ==>
              LineRead(err, received, buffer[..], ticksLeft, pollsLeft)
              == ReadLine(old(buffer[..]), maxLength, timeout, ticks, polls)
  {
    received := -1;
    if buffer == null || maxLength == 0 {
      return WrongParam, -1, ticks, polls;
    }
    var clock := ticks;
    var nextTimeout := Deadline(Now(clock), timeout);
    clock := AfterReading(clock);
    var i, lineFeed, link;
    i, lineFeed, clock, link := ReadUntilLineFeed(buffer, maxLength, nextTimeout, clock, polls);

    var now := Now(clock);
    clock := AfterReading(clock);
    if nextTimeout <= now {
      return TimedOut, -1, clock, link;
    }
    if i > 0 && buffer[i] == CR {
      i := i - 1;
    }
    if i == 0 {
      return OkEmptyLine, -2, clock, link;
    }
    return Ok, i, clock, link;
  }

  /**
   * The read loop of HttpServer_getLine. On a line feed the index is moved
   * back to the character before it, so it ends at `|stored| - 2`.
   */
  method ReadUntilLineFeed(buffer: array<byte>, maxLength: nat, deadline: Tick,
                           ticks: seq<Tick>, polls: seq<Poll>)
    returns (i: int, lineFeed: bool, ticksLeft: seq<Tick>, pollsLeft: seq<Poll>)
    requires 0 < maxLength < buffer.Length
    modifies buffer
    ensures var s := ScanLine(maxLength, deadline, ticks, polls, []);
            && s.lineFeed == lineFeed && s.ticks == ticksLeft && s.polls == pollsLeft
            && i == (if lineFeed then |s.stored| - 2 else |s.stored|)
            && buffer[..] == s.stored + old(buffer[..])[|s.stored|..]
  {
    ghost var initial := buffer[..];
    var clock := ticks;
    var link := polls;
    ghost var goal := ScanLine(maxLength, deadline, clock, link, []);
    i := 0;
    lineFeed := false;
    while true
      invariant 0 <= i <= maxLength
      invariant LF !in buffer[..i]
      invariant forall k | i <= k < buffer.Length :: buffer[k] == initial[k]
      invariant goal == ScanLine(maxLength, deadline, clock, link, buffer[..i])
      decreases |clock|
    {
      var now := Now(clock);
      clock := AfterReading(clock);
      if !(deadline > now && i < maxLength) {
        break;
      }
      var p := NextPoll(link);
      link := AfterPoll(link);
      if p.Data? {
        buffer[i] := p.b;
        assert buffer[..i + 1] == buffer[..i] + [p.b];
        if buffer[i] == LF {
          i := i - 1;
          lineFeed := true;
          break;
        }
        i := i + 1;
      }
    }
    ghost var n := if lineFeed then i + 2 else i;
    assert goal == Scan(buffer[..n], lineFeed, clock, link);
    assert buffer[..] == goal.stored + initial[n..];
    return i, lineFeed, clock, link;
  }

  // ---------------------------------------------------------------------
  // What the read loop stores

  /** The polls that deliver `bytes` back to back. */
  function Arrivals(bytes: seq<byte>): (polls: seq<Poll>)
    ensures |polls| == |bytes|
  {
    seq(|bytes|, k requires 0 <= k < |bytes| => Data(bytes[k]))
  }

  /** The loop consumes the polls and the clock readings from the front. */
  lemma {:induction false} ScanConsumesFromFront(maxLength: nat, deadline: Tick, ticks: seq<Tick>,
                                                 polls: seq<Poll>, stored: seq<byte>)
    requires |stored| <= maxLength && LF !in stored
    ensures var r := ScanLine(maxLength, deadline, ticks, polls, stored);
            && IsSuffix(r.polls, polls) && IsSuffix(r.ticks, ticks)
            && |r.polls| + |r.stored| <= |polls| + |stored|
    decreases |ticks|
  {
    if deadline > Now(ticks) && |stored| < maxLength && polls != [] && !(polls[0].Data? && polls[0].b == LF) {
      var next := if polls[0].Data? then stored + [polls[0].b] else stored;
      ScanConsumesFromFront(maxLength, deadline, AfterReading(ticks), polls[1..], next);
    } else if deadline > Now(ticks) && |stored| < maxLength && polls == [] {
      ScanConsumesFromFront(maxLength, deadline, AfterReading(ticks), polls, stored);
    }
  }

  /** The bytes the loop stores, followed by those it leaves, are those it was offered. */
  lemma {:induction false} ScanKeepsData(maxLength: nat, deadline: Tick, ticks: seq<Tick>,
                                         polls: seq<Poll>, stored: seq<byte>)
    requires |stored| <= maxLength && LF !in stored
    ensures var r := ScanLine(maxLength, deadline, ticks, polls, stored);
            stored + DataOf(polls) == r.stored + DataOf(r.polls)
    decreases |ticks|
  {
    var r := ScanLine(maxLength, deadline, ticks, polls, stored);
    if deadline > Now(ticks) && |stored| < maxLength && polls != [] {
      assert NextPoll(polls) == polls[0] && AfterPoll(polls) == polls[1..];
      if polls[0].Data? && polls[0].b == LF {
        assert r.stored == stored + [LF] && r.polls == polls[1..];
        assert DataOf(polls) == [LF] + DataOf(polls[1..]);
      } else if polls[0].Data? {
        var b := polls[0].b;
        assert r == ScanLine(maxLength, deadline, AfterReading(ticks), polls[1..], stored + [b]);
        ScanKeepsData(maxLength, deadline, AfterReading(ticks), polls[1..], stored + [b]);
        assert DataOf(polls) == [b] + DataOf(polls[1..]);
        assert stored + DataOf(polls) == stored + [b] + DataOf(polls[1..]);
      } else {
        assert r == ScanLine(maxLength, deadline, AfterReading(ticks), polls[1..], stored);
        assert DataOf(polls) == DataOf(polls[1..]);
        ScanKeepsData(maxLength, deadline, AfterReading(ticks), polls[1..], stored);
      }
    } else if deadline > Now(ticks) && |stored| < maxLength {
      assert NextPoll(polls) == NoData && AfterPoll(polls) == polls;
      ScanKeepsData(maxLength, deadline, AfterReading(ticks), polls, stored);
    }
  }

  /** The polls before a suffix deliver the bytes that precede the suffix's. */
  lemma {:induction false} DataOfSplit(polls: seq<Poll>, left: seq<Poll>)
    requires IsSuffix(left, polls)
    ensures DataOf(polls) == DataOf(Consumed(polls, left)) + DataOf(left)
    decreases |polls|
  {
    if |left| < |polls| {
      var head := if polls[0].Data? then [polls[0].b] else [];
      DataOfSplit(polls[1..], left);
      ConsumedStep(polls, left);
      assert DataOf(polls) == head + DataOf(polls[1..]);
      assert DataOf(polls[1..]) == DataOf(Consumed(polls[1..], left)) + DataOf(left);
    } else {
      assert left == polls;
      assert Consumed(polls, left) == [];
    }
  }

  /** The loop stores exactly the bytes the transport delivered, in order. */
  lemma ScanStoresArrivingBytes(maxLength: nat, deadline: Tick, ticks: seq<Tick>,
                                polls: seq<Poll>, stored: seq<byte>)
    requires |stored| <= maxLength && LF !in stored
    ensures var r := ScanLine(maxLength, deadline, ticks, polls, stored);
            |r.polls| <= |polls| && r.stored == stored + DataOf(Consumed(polls, r.polls))
  {
    var r := ScanLine(maxLength, deadline, ticks, polls, stored);
    ScanConsumesFromFront(maxLength, deadline, ticks, polls, stored);
    ScanKeepsData(maxLength, deadline, ticks, polls, stored);
    DataOfSplit(polls, r.polls);
    CancelRight(stored, DataOf(Consumed(polls, r.polls)), r.stored, DataOf(r.polls));
  }

  lemma CancelRight<T>(a: seq<T>, b: seq<T>, c: seq<T>, d: seq<T>)
    requires a + (b + d) == c + d
    ensures c == a + b
  {
    assert |c| == |a + b|;
    assert c == (c + d)[..|c|];
    assert a + b == (a + (b + d))[..|c|];
  }

  /** Taking polls from the front: the first one, then the rest. */
  lemma ConsumedStep(polls: seq<Poll>, left: seq<Poll>)
    requires polls != [] && IsSuffix(left, polls[1..])
    ensures DataOf(Consumed(polls, left))
            == (if polls[0].Data? then [polls[0].b] else []) + DataOf(Consumed(polls[1..], left))
  {
    var c := Consumed(polls, left);
    assert c != [] && c[0] == polls[0];
    assert c[1..] == Consumed(polls[1..], left);
  }

  /** The loop stops at the first line feed, which it stores last. */
  lemma {:induction false} ScanStopsAtLineFeed(maxLength: nat, deadline: Tick, ticks: seq<Tick>,
                                               polls: seq<Poll>, stored: seq<byte>)
    requires |stored| <= maxLength && LF !in stored
    ensures var r := ScanLine(maxLength, deadline, ticks, polls, stored);
            && (r.lineFeed ==> r.stored[|r.stored| - 1] == LF && LF !in r.stored[..|r.stored| - 1])
            && (!r.lineFeed ==> LF !in r.stored)
    decreases |ticks|
  {
    if deadline > Now(ticks) && |stored| < maxLength {
      match NextPoll(polls)
      case NoData =>
        ScanStopsAtLineFeed(maxLength, deadline, AfterReading(ticks), AfterPoll(polls), stored);
      case Data(b) =>
        if b == LF {
          assert (stored + [b])[..|stored|] == stored;
        } else {
          ScanStopsAtLineFeed(maxLength, deadline, AfterReading(ticks), AfterPoll(polls), stored + [b]);
        }
    }
  }

  /** HttpServer_getLine's outcome in terms of the state its read loop ends in. */
  lemma ReadLineAfterScan(buffer: seq<byte>, maxLength: nat, timeout: uint16,
                          ticks: seq<Tick>, polls: seq<Poll>)
    requires 0 < maxLength < |buffer|
    ensures var s := ScanLine(maxLength, Deadline(Now(ticks), timeout), AfterReading(ticks), polls, []);
            var r := ReadLine(buffer, maxLength, timeout, ticks, polls);
            && r.polls == s.polls && r.ticks == AfterReading(s.ticks)
            && r.buffer == s.stored + buffer[|s.stored|..]
            && (r.received > 0 ==> |s.stored| > 0)
  {
  }

  /**
   * HttpServer_getLine consumes the transport and the clock from the front;
   * on success with a positive count it has taken at least one poll.
   */
  lemma ReadLineConsumesFromFront(buffer: seq<byte>, maxLength: nat, timeout: uint16,
                                  ticks: seq<Tick>, polls: seq<Poll>)
    requires maxLength == 0 || maxLength < |buffer|
    ensures var r := ReadLine(buffer, maxLength, timeout, ticks, polls);
            && IsSuffix(r.polls, polls) && IsSuffix(r.ticks, ticks)
            && (r.received > 0 ==> |r.polls| < |polls|)
  {
    if maxLength > 0 {
      var deadline := Deadline(Now(ticks), timeout);
      ReadLineAfterScan(buffer, maxLength, timeout, ticks, polls);
      ScanConsumesFromFront(maxLength, deadline, AfterReading(ticks), polls, []);
    }
  }

  /**
   * HttpServer_getLine writes only buffer[0..maxLength-1], with the bytes
   * that arrived, up to and including the first line feed.
   */
  lemma ReadLineStoresArrivingBytes(buffer: seq<byte>, maxLength: nat, timeout: uint16,
                                    ticks: seq<Tick>, polls: seq<Poll>)
    requires maxLength == 0 || maxLength < |buffer|
    ensures var r := ReadLine(buffer, maxLength, timeout, ticks, polls);
            && |r.polls| <= |polls|
            && var got := DataOf(Consumed(polls, r.polls));
            && |got| <= maxLength
            && r.buffer == got + buffer[|got|..]
            && |r.buffer| == |buffer| && r.buffer[maxLength..] == buffer[maxLength..]
            && (LF in got ==> got[|got| - 1] == LF && LF !in got[..|got| - 1])
  {
    if maxLength > 0 {
      var deadline := Deadline(Now(ticks), timeout);
      var s := ScanLine(maxLength, deadline, AfterReading(ticks), polls, []);
      ReadLineAfterScan(buffer, maxLength, timeout, ticks, polls);
      ScanStoresArrivingBytes(maxLength, deadline, AfterReading(ticks), polls, []);
      ScanStopsAtLineFeed(maxLength, deadline, AfterReading(ticks), polls, []);
      assert [] + DataOf(Consumed(polls, s.polls)) == DataOf(Consumed(polls, s.polls));
    } else {
      assert Consumed(polls, polls) == [];
    }
  }

  // ---------------------------------------------------------------------
  // Lines that arrive before the deadline

  /** A line's characters, optionally followed by a carriage return. */
  function LineBytes(text: seq<byte>, crlf: bool): (line: seq<byte>)
    ensures |line| == |text| + (if crlf then 1 else 0)
  {
    text + (if crlf then [CR] else [])
  }

  lemma ArrivalsAppend(a: seq<byte>, b: seq<byte>)
    ensures Arrivals(a + b) == Arrivals(a) + Arrivals(b)
  {
  }

  lemma ArrivalsHead(bytes: seq<byte>, rest: seq<Poll>)
    requires bytes != []
    ensures (Arrivals(bytes) + rest)[0] == Data(bytes[0])
    ensures (Arrivals(bytes) + rest)[1..] == Arrivals(bytes[1..]) + rest
  {
    assert Arrivals(bytes)[1..] == Arrivals(bytes[1..]);
  }

  lemma AppendHeadTail<T>(s: seq<T>, a: seq<T>)
    requires a != []
    ensures s + [a[0]] + a[1..] == s + a
  {
  }

  lemma DropDrop<T>(s: seq<T>, n: nat)
    requires n < |s|
    ensures s[1..][n..] == s[n + 1..]
  {
  }

  /**
   * Bytes without a line feed that all arrive before the deadline and fit
   * in the buffer are stored one per iteration.
   */
  lemma {:induction false} ScanTakesBytes(maxLength: nat, deadline: Tick, ticks: seq<Tick>,
                                          bytes: seq<byte>, rest: seq<Poll>, stored: seq<byte>)
    requires LF !in stored && LF !in bytes && |stored| + |bytes| <= maxLength
    requires |ticks| >= |bytes| && forall k | 0 <= k < |bytes| :: ticks[k] < deadline
    ensures LF !in stored + bytes
    ensures ScanLine(maxLength, deadline, ticks, Arrivals(bytes) + rest, stored)
            == ScanLine(maxLength, deadline, ticks[|bytes|..], rest, stored + bytes)
    decreases |bytes|
  {
    if bytes == [] {
      assert Arrivals(bytes) + rest == rest && stored + bytes == stored;
    } else {
      var polls := Arrivals(bytes) + rest;
      ArrivalsHead(bytes, rest);
      assert ScanLine(maxLength, deadline, ticks, polls, stored)
             == ScanLine(maxLength, deadline, ticks[1..], polls[1..], stored + [bytes[0]]);
      ScanTakesBytes(maxLength, deadline, ticks[1..], bytes[1..], rest, stored + [bytes[0]]);
      AppendHeadTail(stored, bytes);
      DropDrop(ticks, |bytes| - 1);
    }
  }

  /** Bytes that all arrive before the deadline, ended by a line feed, are stored with it. */
  lemma ScanTakesTerminatedLine(maxLength: nat, deadline: Tick, ticks: seq<Tick>,
                                bytes: seq<byte>, rest: seq<Poll>)
    requires LF !in bytes && |bytes| < maxLength
    requires |ticks| > |bytes| && forall k | 0 <= k <= |bytes| :: ticks[k] < deadline
    ensures ScanLine(maxLength, deadline, ticks, Arrivals(bytes + [LF]) + rest, [])
            == Scan(bytes + [LF], true, ticks[|bytes| + 1..], rest)
  {
    ArrivalsAppend(bytes, [LF]);
    assert Arrivals(bytes + [LF]) + rest == Arrivals(bytes) + ([Data(LF)] + rest);
    ScanTakesBytes(maxLength, deadline, ticks, bytes, [Data(LF)] + rest, []);
    assert [] + bytes == bytes;
    assert ticks[|bytes|..][1..] == ticks[|bytes| + 1..];
  }

  /** Bytes without a line feed that arrive before the deadline and fill the buffer are stored. */
  lemma ScanFillsBuffer(maxLength: nat, deadline: Tick, ticks: seq<Tick>,
                        bytes: seq<byte>, rest: seq<Poll>)
    requires LF !in bytes && |bytes| == maxLength
    requires |ticks| > |bytes| && forall k | 0 <= k < |bytes| :: ticks[k] < deadline
    ensures ScanLine(maxLength, deadline, ticks, Arrivals(bytes) + rest, [])
            == Scan(bytes, false, ticks[|bytes| + 1..], rest)
  {
    ScanTakesBytes(maxLength, deadline, ticks, bytes, rest, []);
    assert [] + bytes == bytes;
    assert ticks[|bytes|..][1..] == ticks[|bytes| + 1..];
  }

  /**
   * A line that arrives whole before the deadline is stored with its line
   * feed. Its characters without the CR/LF terminator number `received + 1`;
   * a one-character line and a bare CR LF both count as an empty line, and a
   * bare LF is reported as a line with `received == -1`.
   */
  lemma CompleteLine(buffer: seq<byte>, maxLength: nat, timeout: uint16, ticks: seq<Tick>,
                     text: seq<byte>, crlf: bool, rest: seq<Poll>)
    requires |LineBytes(text, crlf)| < maxLength < |buffer|
    requires LF !in text && CR !in text
    requires |ticks| >= |text| + 4
    requires forall k | 1 <= k <= |LineBytes(text, crlf)| + 2 :: ticks[k] < Deadline(ticks[0], timeout)
    ensures var line := LineBytes(text, crlf);
            var r := ReadLine(buffer, maxLength, timeout, ticks, Arrivals(line + [LF]) + rest);
            && r.buffer == line + [LF] + buffer[|line| + 1..]
            && r.polls == rest && r.ticks == ticks[|line| + 3..]
            && (|text| >= 2 ==> r.err == Ok && r.received == |text| - 1)
            && (|text| == 1 ==> r.err == OkEmptyLine)
            && (|text| == 0 && crlf ==> r.err == OkEmptyLine)
            && (|text| == 0 && !crlf ==> r.err == Ok && r.received == -1)
  {
    var line := LineBytes(text, crlf);
    assert LF !in line;
    var deadline := Deadline(ticks[0], timeout);
    var polls := Arrivals(line + [LF]) + rest;
    ReadLineAfterScan(buffer, maxLength, timeout, ticks, polls);
    ScanTakesTerminatedLine(maxLength, deadline, ticks[1..], line, rest);
    DropDrop(ticks, |line| + 1);
    var buf := line + [LF] + buffer[|line| + 1..];
    assert |line| >= 1 ==> buf[|line| - 1] == line[|line| - 1];
    if |text| >= 1 {
      assert line[|text| - 1] == text[|text| - 1];
    }
  }

  /**
   * A line feed that arrives in time does not save the line when the clock
   * has passed the deadline at the reading after the loop: the call times out.
   */
  lemma LateLineFeedTimesOut(buffer: seq<byte>, maxLength: nat, timeout: uint16, ticks: seq<Tick>,
                             line: seq<byte>, rest: seq<Poll>)
    requires |line| < maxLength < |buffer| && LF !in line
    requires |ticks| >= |line| + 3
    requires forall k | 1 <= k <= |line| + 1 :: ticks[k] < Deadline(ticks[0], timeout)
    requires ticks[|line| + 2] >= Deadline(ticks[0], timeout)
    ensures var r := ReadLine(buffer, maxLength, timeout, ticks, Arrivals(line + [LF]) + rest);
            && r.err == TimedOut && r.received == -1
            && r.buffer == line + [LF] + buffer[|line| + 1..] && r.polls == rest
  {
    ScanTakesTerminatedLine(maxLength, Deadline(ticks[0], timeout), ticks[1..], line, rest);
    assert ticks[1..][|line| + 1..] == ticks[|line| + 2..];
    assert [] + line + [LF] == line + [LF];
  }

  /**
   * `maxLength` bytes without a line feed fill the buffer and are reported
   * as a line of `maxLength` characters, one fewer when the byte just past
   * the capacity (never written by the call) happens to be a CR.
   */
  lemma FullBuffer(buffer: seq<byte>, maxLength: nat, timeout: uint16, ticks: seq<Tick>,
                   bytes: seq<byte>, rest: seq<Poll>)
    requires 2 <= maxLength < |buffer| && |bytes| == maxLength && LF !in bytes
    requires |ticks| >= maxLength + 3
    requires forall k | 1 <= k <= maxLength :: ticks[k] < Deadline(ticks[0], timeout)
    requires ticks[maxLength + 2] < Deadline(ticks[0], timeout)
    ensures var r := ReadLine(buffer, maxLength, timeout, ticks, Arrivals(bytes) + rest);
            && r.err == Ok
            && r.received == (if buffer[maxLength] == CR then maxLength - 1 else maxLength)
            && r.buffer == bytes + buffer[maxLength..] && r.polls == rest
  {
    ScanFillsBuffer(maxLength, Deadline(ticks[0], timeout), ticks[1..], bytes, rest);
    assert ticks[1..][|bytes| + 1..] == ticks[maxLength + 2..];
    assert [] + bytes == bytes;
  }

  // ---------------------------------------------------------------------
  // Clock facts

  lemma MonotoneAfterReading(ticks: seq<Tick>)
    requires Monotone(ticks)
    ensures Monotone(AfterReading(ticks)) && Now(ticks) <= Now(AfterReading(ticks))
  {
  }

  /** With a clock that never goes back, the loop ends early only at the deadline. */
  lemma {:induction false} ScanEndsEarlyOnlyAtDeadline(maxLength: nat, deadline: Tick, ticks: seq<Tick>,
                                                       polls: seq<Poll>, stored: seq<byte>)
    requires |stored| <= maxLength && LF !in stored && Monotone(ticks)
    ensures var r := ScanLine(maxLength, deadline, ticks, polls, stored);
            !r.lineFeed && |r.stored| < maxLength ==> deadline <= Now(r.ticks)
    decreases |ticks|
  {
    MonotoneAfterReading(ticks);
    if deadline > Now(ticks) && |stored| < maxLength {
      var next := if polls != [] && polls[0].Data? && polls[0].b != LF then stored + [polls[0].b] else stored;
      if !(polls != [] && polls[0].Data? && polls[0].b == LF) {
        ScanEndsEarlyOnlyAtDeadline(maxLength, deadline, AfterReading(ticks), AfterPoll(polls), next);
      }
    }
  }

  /**
   * With a clock that never goes back, a read that succeeds although no
   * line feed was delivered has read exactly maxLength bytes: without a
   * line feed, fewer bytes end in a timeout. (The buffer itself may still
   * hold the line feed of an earlier line; only the delivered bytes matter.)
   */
  lemma SuccessWithoutLineFeedFillsBuffer(buffer: seq<byte>, maxLength: nat, timeout: uint16,
                                          ticks: seq<Tick>, polls: seq<Poll>)
    requires 0 < maxLength < |buffer| && Monotone(ticks)
    ensures var r := ReadLine(buffer, maxLength, timeout, ticks, polls);
            && |r.polls| <= |polls|
            && ((r.err == Ok || r.err == OkEmptyLine) && LF !in DataOf(Consumed(polls, r.polls)) ==>
                |DataOf(Consumed(polls, r.polls))| == maxLength)
  {
    var r := ReadLine(buffer, maxLength, timeout, ticks, polls);
    var deadline := Deadline(Now(ticks), timeout);
    MonotoneAfterReading(ticks);
    ScanEndsEarlyOnlyAtDeadline(maxLength, deadline, AfterReading(ticks), polls, []);
    ScanStoresArrivingBytes(maxLength, deadline, AfterReading(ticks), polls, []);
    ScanStopsAtLineFeed(maxLength, deadline, AfterReading(ticks), polls, []);
    ReadLineAfterScan(buffer, maxLength, timeout, ticks, polls);
    var s := ScanLine(maxLength, deadline, AfterReading(ticks), polls, []);
    if s.lineFeed {
      assert s.stored[|s.stored| - 1] == LF;
    }
  }

  /**
   * The `received` getLine reports for a line whose delivered bytes `got`
   * end in its LF: the index of the text's last character, a CR just
   * before the LF not counted (and only when something precedes it).
   */
  function LineIndex(got: seq<byte>): (j: int)
    requires |got| >= 1
    ensures -1 <= j <= |got| - 2
    ensures j == |got| - 2 || j == |got| - 3
  {
    var text := got[..|got| - 1];
    if |text| >= 2 && text[|text| - 1] == CR then |text| - 2 else |text| - 1
  }

  /** On a successful call whose loop stored an LF, the outcome follows from the bytes stored. */
  lemma ReadLineAtLineFeed(buffer: seq<byte>, maxLength: nat, timeout: uint16,
                           ticks: seq<Tick>, polls: seq<Poll>)
    requires 0 < maxLength < |buffer|
    ensures var s := ScanLine(maxLength, Deadline(Now(ticks), timeout), AfterReading(ticks), polls, []);
            var r := ReadLine(buffer, maxLength, timeout, ticks, polls);
            s.lineFeed && (r.err == Ok || r.err == OkEmptyLine) ==>
              var j := LineIndex(s.stored);
              (j == 0 ==> r.err == OkEmptyLine) && (j != 0 ==> r.err == Ok && r.received == j)
  {
    var s := ScanLine(maxLength, Deadline(Now(ticks), timeout), AfterReading(ticks), polls, []);
    if s.lineFeed && |s.stored| >= 3 {
      assert (s.stored + buffer[|s.stored|..])[|s.stored| - 2] == s.stored[..|s.stored| - 1][|s.stored| - 2];
    }
  }

  /**
   * For any transport, idle polls included: a call that succeeds after an
   * LF was delivered reports LineIndex of the delivered bytes, OK_EMPTYLINE
   * when that index is 0. So a line "text" CR LF or "text" LF reports one
   * less than the length of text, and a bare LF reports -1.
   */
  lemma ReceivedAtLineFeed(buffer: seq<byte>, maxLength: nat, timeout: uint16,
                           ticks: seq<Tick>, polls: seq<Poll>)
    requires 0 < maxLength < |buffer|
    ensures var r := ReadLine(buffer, maxLength, timeout, ticks, polls);
            && |r.polls| <= |polls|
            && var got := DataOf(Consumed(polls, r.polls));
            ((r.err == Ok || r.err == OkEmptyLine) && LF in got ==>
               && got[|got| - 1] == LF
               && (LineIndex(got) == 0 ==> r.err == OkEmptyLine)
               && (LineIndex(got) != 0 ==> r.err == Ok && r.received == LineIndex(got)))
  {
    var deadline := Deadline(Now(ticks), timeout);
    var s := ScanLine(maxLength, deadline, AfterReading(ticks), polls, []);
    ReadLineAfterScan(buffer, maxLength, timeout, ticks, polls);
    ScanStoresArrivingBytes(maxLength, deadline, AfterReading(ticks), polls, []);
    ScanStopsAtLineFeed(maxLength, deadline, AfterReading(ticks), polls, []);
    ReadLineAtLineFeed(buffer, maxLength, timeout, ticks, polls);
    assert [] + DataOf(Consumed(polls, s.polls)) == DataOf(Consumed(polls, s.polls));
  }

  /**
   * For any transport, idle polls included, on a clock that never goes
   * back: a call that succeeds with no LF delivered has stored exactly
   * maxLength delivered bytes, and reports maxLength, or maxLength - 1
   * when the byte after the window is a CR (OK_EMPTYLINE if that is 0).
   */
  lemma ReceivedWithoutLineFeed(buffer: seq<byte>, maxLength: nat, timeout: uint16,
                                ticks: seq<Tick>, polls: seq<Poll>)
    requires 0 < maxLength < |buffer| && Monotone(ticks)
    ensures var r := ReadLine(buffer, maxLength, timeout, ticks, polls);
            && |r.polls| <= |polls|
            && var got := DataOf(Consumed(polls, r.polls));
            var j := if buffer[maxLength] == CR then maxLength - 1 else maxLength;
            ((r.err == Ok || r.err == OkEmptyLine) && LF !in got ==>
               && |got| == maxLength && r.buffer == got + buffer[maxLength..]
               && (j == 0 ==> r.err == OkEmptyLine)
               && (j != 0 ==> r.err == Ok && r.received == j))
  {
    var deadline := Deadline(Now(ticks), timeout);
    var s := ScanLine(maxLength, deadline, AfterReading(ticks), polls, []);
    SuccessWithoutLineFeedFillsBuffer(buffer, maxLength, timeout, ticks, polls);
    ReadLineAfterScan(buffer, maxLength, timeout, ticks, polls);
    ScanStoresArrivingBytes(maxLength, deadline, AfterReading(ticks), polls, []);
    ScanStopsAtLineFeed(maxLength, deadline, AfterReading(ticks), polls, []);
    assert [] + DataOf(Consumed(polls, s.polls)) == DataOf(Consumed(polls, s.polls));
    if s.lineFeed {
      assert s.stored[|s.stored| - 1] == LF;
    }
  }

  /**
   * When `now + timeout` wraps past 2^32 the deadline lies behind the clock:
   * the call times out at once, taking nothing from the transport.
   */
  lemma WrappedDeadlineTimesOut(buffer: seq<byte>, maxLength: nat, timeout: uint16,
                                ticks: seq<Tick>, polls: seq<Poll>)
    requires 0 < maxLength < |buffer|
    requires |ticks| >= 3 && ticks[0] + timeout >= TickModulus
    requires ticks[1] >= ticks[0] && ticks[2] >= ticks[0]
    ensures var r := ReadLine(buffer, maxLength, timeout, ticks, polls);
            r.err == TimedOut && r.buffer == buffer && r.polls == polls
  {
    assert Deadline(ticks[0], timeout) < ticks[0];
    assert buffer[0..] == buffer;
  }
}
