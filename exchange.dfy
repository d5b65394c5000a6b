/**
 * What one call of HttpServer_poll (http-server.c:160-310) does, as a
 * function of the clients' state, their transport and the clock: for every
 * connected slot it reads the request line, parses it, reads the header
 * lines, hands the message to the application and answers. The transport's
 * side is a log of the bytes written, the disconnections and the callbacks.
 *
 * The server's methods are proved against these functions; the lemmas below
 * state what a poll cycle does for each slot.
 */
module Exchange {
  import opened HttpTypes
  import opened StatusTable
  import opened LineReader
  import opened RequestLine
  import opened Response
  import opened CStrings

  /** The contents of an HttpServer_Message (the unused body left out). */
  datatype MessageState = MessageState(request: Request, version: Version, responseCode: ResponseCode,
                                       uri: seq<byte>, header: seq<byte>)

  /** The contents of an HttpServer_Client. */
  datatype ClientState = ClientState(rxBuffer: seq<byte>, txBuffer: seq<byte>, rxIndex: nat,
                                     message: MessageState)

  /** The application's callback, reduced to the response code it sets in the message. */
  type Handler = MessageState -> ResponseCode

  /** What a poll does to the outside world, in order. */
  datatype Action =
    | Write(slot: nat, bytes: seq<byte>)              // EthernetServerSocket_writeBytes
    | Disconnect(slot: nat)                           // EthernetServerSocket_disconnectClient
    | Dispatch(slot: nat, message: MessageState)      // performingCallback

  /** The buffer sizes of http-server.h. */
  predicate WellSized(c: ClientState)
  {
    && |c.rxBuffer| == RxBufferDimension + 1
    && |c.txBuffer| == TxBufferDimension + 1
    && |c.message.uri| == MaxUriLength + 1
    && |c.message.header| == HeadersMaxLength + 1
  }

  /**
   * The response the library means to send itself, with its fixed headers:
   * what sendResponse assembles in a transmit buffer that is still
   * zero-filled.
   */
  function Reply(code: ResponseCode): (r: seq<byte>)
    ensures |r| < 84 && StatusCodeOf(r) == Some(EnumeratorStatus[code])
  {
    DefaultResponseFits(code);
    ResponseRoundTrip(code, DefaultHeaders);
    ResponseBytes(code, DefaultHeaders)
  }

  /** The transmit buffer once sendResponse has assembled `bytes` in it. */
  function Transmitted(tx: seq<byte>, bytes: seq<byte>): (r: seq<byte>)
    requires |bytes| <= |tx|
    ensures |r| == |tx|
  {
    bytes + tx[|bytes|..]
  }

  function Sent(c: ClientState, code: ResponseCode): (d: ClientState)
    requires WellSized(c)
    ensures WellSized(d)
  {
    c.(txBuffer := Transmitted(c.txBuffer, Reply(code)))
  }

  // ---------------------------------------------------------------------
  // The request line

  /** The parser's terminator at buffer[length + 1], stored only inside the buffer. */
  function Terminated(buffer: seq<byte>, length: nat): (r: seq<byte>)
    ensures |r| == |buffer|
  {
    if length + 1 < |buffer| then buffer[length + 1 := NUL] else buffer
  }

  /**
   * The message once the parser has written `f`: the method, the URI
   * copied with strcpy, the version.
   */
  function ApplyFields(m: MessageState, f: Fields): (n: MessageState)
    requires f.uri.Some? ==> |f.uri.value| < |m.uri|
    ensures |n.uri| == |m.uri| && n.header == m.header && n.responseCode == m.responseCode
  {
    MessageState(
      if f.request.Some? then f.request.value else m.request,
      if f.version.Some? then f.version.value else m.version,
      m.responseCode,
      if f.uri.Some? then f.uri.value + [NUL] + m.uri[|f.uri.value| + 1..] else m.uri,
      m.header)
  }

  datatype Parsing = Parsing(err: Error, client: ClientState, sent: seq<Action>)

  /**
   * HttpServer_parseRequest on the client's receive buffer: the first
   * `length + 1` bytes are scanned; a URI that is too long is answered
   * with 414 on the spot.
   */
  function ParseRequestOf(slot: nat, c: ClientState, length: nat): (q: Parsing)
    requires WellSized(c) && length < |c.rxBuffer|
    ensures WellSized(q.client)
  {
    var p := ParseLine(c.rxBuffer[..length + 1]);
    var d := c.(rxBuffer := Terminated(c.rxBuffer, length), message := ApplyFields(c.message, p.fields));
    if p.err == UriTooLong then Parsing(p.err, Sent(d, RequestUriTooLarge), [Write(slot, Reply(RequestUriTooLarge))])
    else Parsing(p.err, d, [])
  }

  // ---------------------------------------------------------------------
  // The header lines

  /**
   * A header line of `received` characters appended at header[rxIndex]
   * with strncpy when it fits (http-server.c:263-280).
   */
  function Appended(c: ClientState, received: int): (d: ClientState)
    requires WellSized(c) && received <= RxBufferDimension
    ensures WellSized(d)
  {
    if 0 < received && received + c.rxIndex < HeadersMaxLength then
      var at := c.rxIndex;
      var header := c.message.header;
      c.(message := c.message.(header := header[..at] + StrNCpy(c.rxBuffer, received) + header[at + received..]),
         rxIndex := at + received)
    else c
  }

  datatype Headers = Headers(client: ClientState, ticks: seq<Tick>, polls: seq<Poll>)

  /** The do-while loop of poll: header lines are read until one leaves `received` not positive. */
  function HeaderLoop(c: ClientState, ticks: seq<Tick>, polls: seq<Poll>): (h: Headers)
    requires WellSized(c)
    ensures WellSized(h.client)
    decreases |polls|
  {
    var r := ReadLine(c.rxBuffer, RxBufferDimension, Timeout, ticks, polls);
    var read := c.(rxBuffer := r.buffer);
    var d := if r.err == Ok then Appended(read, r.received) else read;
    if r.received > 0 then
      ReadLineConsumesFromFront(c.rxBuffer, RxBufferDimension, Timeout, ticks, polls);
      HeaderLoop(d, r.ticks, r.polls)
    else Headers(d, r.ticks, r.polls)
  }

  // ---------------------------------------------------------------------
  // One slot, one poll

  datatype Cycle = Cycle(client: ClientState, actions: seq<Action>, ticks: seq<Tick>, polls: seq<Poll>)

  /** The body of poll's loop for a connected slot. */
  function RunCycle(slot: nat, c: ClientState, handler: Handler, ticks: seq<Tick>, polls: seq<Poll>): (y: Cycle)
    requires WellSized(c)
    ensures WellSized(y.client)
  {
    var r := ReadLine(c.rxBuffer, RxBufferDimension, Timeout, ticks, polls);
    var read := c.(rxBuffer := r.buffer, rxIndex := 0);
    if r.received < 0 then Cycle(read, [Disconnect(slot)], r.ticks, r.polls)
    else Answer(slot, read, r.received, handler, r.ticks, r.polls)
  }

  /** A request line of `received + 1` characters has been read: it is parsed, then refused or served. */
  function Answer(slot: nat, c: ClientState, received: nat, handler: Handler,
                  ticks: seq<Tick>, polls: seq<Poll>): (y: Cycle)
    requires WellSized(c) && received < |c.rxBuffer|
    ensures WellSized(y.client)
  {
    var q := ParseRequestOf(slot, c, received);
    if q.err != Ok then
      Cycle(Sent(q.client, BadRequest), q.sent + [Write(slot, Reply(BadRequest)), Disconnect(slot)], ticks, polls)
    else Serve(slot, q.client, handler, ticks, polls)
  }

  /** A request line was accepted: the header lines are read, the application is called and its code sent. */
  function Serve(slot: nat, c: ClientState, handler: Handler, ticks: seq<Tick>, polls: seq<Poll>): (y: Cycle)
    requires WellSized(c)
    ensures WellSized(y.client)
  {
    var h := HeaderLoop(c, ticks, polls);
    var m := h.client.message;
    var code := handler(m);
    Cycle(Sent(h.client.(message := m.(responseCode := code)), code),
          [Dispatch(slot, m), Write(slot, Reply(code)), Disconnect(slot)], h.ticks, h.polls)
  }

  predicate AllWellSized(clients: seq<ClientState>)
  {
    forall i | 0 <= i < |clients| :: WellSized(clients[i])
  }

  datatype Round = Round(clients: seq<ClientState>, log: seq<Action>, ticks: seq<Tick>, links: seq<seq<Poll>>)

  /** One slot's cycle as poll's loop runs it, from the slot's state, the clock and the slot's transport. */
  type Cycler = (nat, ClientState, seq<Tick>, seq<Poll>) -> Cycle

  /**
   * The cycle of http-server.c:195-308 with the application's callback.
   * Every slot of a device has buffers of the declared sizes; a state
   * without them is no client and is left as it is.
   */
  function ServeSlot(handler: Handler): Cycler
  {
    (slot: nat, c: ClientState, ticks: seq<Tick>, polls: seq<Poll>) =>
      if WellSized(c) then RunCycle(slot, c, handler, ticks, polls) else Cycle(c, [], ticks, polls)
  }

  /** Slot `slot` of a poll: skipped when its client is not connected. */
  function PollSlot(r: Round, slot: nat, connected: bool, cycle: Cycler): (s: Round)
    requires slot < |r.clients| == |r.links|
    ensures |s.clients| == |r.clients| && |s.links| == |r.links|
  {
    if !connected then r
    else
      var y := cycle(slot, r.clients[slot], r.ticks, r.links[slot]);
      Round(r.clients[slot := y.client], r.log + y.actions, y.ticks, r.links[slot := y.polls])
  }

  /** The first `n` slots of a poll; the clock is shared, each slot has its own transport. */
  function RunSlots(n: nat, clients: seq<ClientState>, connected: seq<bool>, links: seq<seq<Poll>>,
                    cycle: Cycler, ticks: seq<Tick>): (r: Round)
    requires n <= |clients| == |connected| == |links|
    ensures |r.clients| == |clients| && |r.links| == |links|
  {
    if n == 0 then Round(clients, [], ticks, links)
    else PollSlot(RunSlots(n - 1, clients, connected, links, cycle, ticks), n - 1, connected[n - 1], cycle)
  }

  /** HttpServer_poll: every slot in turn. */
  function RunPoll(clients: seq<ClientState>, connected: seq<bool>, links: seq<seq<Poll>>,
                   handler: Handler, ticks: seq<Tick>): (r: Round)
    requires |clients| == |connected| == |links|
    ensures |r.clients| == |clients| && |r.links| == |links|
  {
    RunSlots(|clients|, clients, connected, links, ServeSlot(handler), ticks)
  }

  // ---------------------------------------------------------------------
  // What a cycle does

  /**
   * The actions of one slot's cycle: a disconnection alone (no request
   * line), a 400 (and before it a 414 for a long URI), or the callback
   * followed by a response with the code it chose; always one
   * disconnection, last.
   */
  predicate OneCycle(actions: seq<Action>, slot: nat, handler: Handler)
  {
    || actions == [Disconnect(slot)]
    || actions == [Write(slot, Reply(BadRequest)), Disconnect(slot)]
    || actions == [Write(slot, Reply(RequestUriTooLarge)), Write(slot, Reply(BadRequest)), Disconnect(slot)]
    || (&& |actions| == 3 && actions[0].Dispatch? && actions[0].slot == slot
        && actions[1] == Write(slot, Reply(handler(actions[0].message)))
        && actions[2] == Disconnect(slot))
  }

  /**
   * A cycle disconnects without answering exactly when the request line
   * cannot be read; otherwise it answers 400 alone when the line is
   * refused, 414 then 400 when its URI is too long, and calls the
   * application once, then answers, when it is accepted.
   * On a bare LF header line and on a request line that fills rxBuffer,
   * where the source's behaviour is undefined, this holds of the model's
   * substitution (see BareLineFeedHeaderReachesAppend and
   * FullRequestLineTerminatorOutOfRange).
   */
  lemma CycleOutcome(slot: nat, c: ClientState, handler: Handler, ticks: seq<Tick>, polls: seq<Poll>)
    requires WellSized(c)
    ensures var y := RunCycle(slot, c, handler, ticks, polls);
            var r := ReadLine(c.rxBuffer, RxBufferDimension, Timeout, ticks, polls);
            var err := if r.received < 0 then Ok else ParseLine(r.buffer[..r.received + 1]).err;
            && OneCycle(y.actions, slot, handler)
            && (|y.actions| == 1 <==> r.received < 0)
            && (|y.actions| == 2 <==> r.received > 0 && err != Ok && err != UriTooLong)
            && (|y.actions| == 3 && y.actions[0].Write? <==> r.received > 0 && err == UriTooLong)
            && (y.actions[0].Dispatch? <==> r.received > 0 && err == Ok)
  {
    var r := ReadLine(c.rxBuffer, RxBufferDimension, Timeout, ticks, polls);
    if r.received >= 0 {
      AnswerOutcome(slot, c.(rxBuffer := r.buffer, rxIndex := 0), r.received, handler, r.ticks, r.polls);
    }
  }

  lemma AnswerOutcome(slot: nat, c: ClientState, received: nat, handler: Handler,
                      ticks: seq<Tick>, polls: seq<Poll>)
    requires WellSized(c) && received < |c.rxBuffer|
    ensures var y := Answer(slot, c, received, handler, ticks, polls);
            var err := ParseLine(c.rxBuffer[..received + 1]).err;
            && OneCycle(y.actions, slot, handler)
            && (|y.actions| == 2 <==> err != Ok && err != UriTooLong)
            && (|y.actions| == 3 && y.actions[0].Write? <==> err == UriTooLong)
            && (y.actions[0].Dispatch? <==> err == Ok)
  {
  }

  /**
   * A served request: the application is handed the message once the
   * headers are read, its code is stored in the message and sent back in a
   * status line, and the header index stays within the header buffer.
   * On a bare LF header line and on a request line that fills rxBuffer,
   * where the source's behaviour is undefined, this holds of the model's
   * substitution (see BareLineFeedHeaderReachesAppend and
   * FullRequestLineTerminatorOutOfRange).
   */
  lemma ServedResponse(slot: nat, c: ClientState, handler: Handler, ticks: seq<Tick>, polls: seq<Poll>)
    requires WellSized(c) && c.rxIndex < HeadersMaxLength
    ensures var y := Serve(slot, c, handler, ticks, polls);
            var m := HeaderLoop(c, ticks, polls).client.message;
            && y.actions[0] == Dispatch(slot, m)
            && y.client.message == m.(responseCode := handler(m))
            && StatusCodeOf(y.actions[1].bytes) == Some(EnumeratorStatus[handler(m)])
            && y.client.txBuffer[..|y.actions[1].bytes|] == y.actions[1].bytes
            && c.rxIndex <= y.client.rxIndex < HeadersMaxLength
            && m.header[y.client.rxIndex..] == c.message.header[y.client.rxIndex..]
  {
    HeaderLoopKeeps(c, ticks, polls);
  }

  // ---------------------------------------------------------------------
  // What the header loop keeps

  /**
   * The header reader only appends: the index never passes
   * HTTPSERVER_HEADERS_MAX_LENGTH, the header bytes before the starting
   * index and from the final index on are never written (so old bytes past
   * the index survive from earlier requests), and nothing else of the
   * client but its receive buffer changes.
   */
  lemma {:induction false} HeaderLoopKeeps(c: ClientState, ticks: seq<Tick>, polls: seq<Poll>)
    requires WellSized(c) && c.rxIndex < HeadersMaxLength
    ensures var h := HeaderLoop(c, ticks, polls);
            && c.rxIndex <= h.client.rxIndex < HeadersMaxLength
            && h.client.message.header[..c.rxIndex] == c.message.header[..c.rxIndex]
            && h.client.message.header[h.client.rxIndex..] == c.message.header[h.client.rxIndex..]
            && h.client.message.(header := c.message.header) == c.message
            && h.client.txBuffer == c.txBuffer
            && IsSuffix(h.polls, polls) && IsSuffix(h.ticks, ticks)
    decreases |polls|
  {
    var r := ReadLine(c.rxBuffer, RxBufferDimension, Timeout, ticks, polls);
    var read := c.(rxBuffer := r.buffer);
    var d := if r.err == Ok then Appended(read, r.received) else read;
    ReadLineConsumesFromFront(c.rxBuffer, RxBufferDimension, Timeout, ticks, polls);
    AppendedKeeps(read, r.received);
    if r.received > 0 {
      HeaderLoopKeeps(d, r.ticks, r.polls);
      var h := HeaderLoop(d, r.ticks, r.polls);
      assert h.client.message.header[..c.rxIndex] == d.message.header[..c.rxIndex] by {
        assert h.client.message.header[..d.rxIndex][..c.rxIndex] == h.client.message.header[..c.rxIndex];
        assert d.message.header[..d.rxIndex][..c.rxIndex] == d.message.header[..c.rxIndex];
      }
      assert h.client.message.header[h.client.rxIndex..] == d.message.header[h.client.rxIndex..];
      assert d.message.header[d.rxIndex..][h.client.rxIndex - d.rxIndex..] == d.message.header[h.client.rxIndex..];
      assert read.message.header[d.rxIndex..][h.client.rxIndex - d.rxIndex..] == c.message.header[h.client.rxIndex..];
      SuffixOfSuffix(h.polls, r.polls, polls);
      SuffixOfSuffix(h.ticks, r.ticks, ticks);
    }
  }

  /** One append writes only header[rxIndex..rxIndex + received] and moves the index past it. */
  lemma AppendedKeeps(c: ClientState, received: int)
    requires WellSized(c) && received <= RxBufferDimension && c.rxIndex < HeadersMaxLength
    ensures var d := Appended(c, received);
            && c.rxIndex <= d.rxIndex < HeadersMaxLength
            && d.message.header[..c.rxIndex] == c.message.header[..c.rxIndex]
            && d.message.header[d.rxIndex..] == c.message.header[d.rxIndex..]
            && d.message.(header := c.message.header) == c.message
            && d.txBuffer == c.txBuffer && d.rxBuffer == c.rxBuffer
  {
  }

  lemma SuffixOfSuffix<T>(a: seq<T>, b: seq<T>, c: seq<T>)
    requires IsSuffix(a, b) && IsSuffix(b, c)
    ensures IsSuffix(a, c)
  {
    assert c[|c| - |b|..][|b| - |a|..] == c[|c| - |a|..];
  }

  /**
   * A header line "text" CR LF that arrives in time is appended without its
   * last character and without a terminator: `received` counts one
   * character less than the line has.
   */
  lemma HeaderLineLosesLastCharacter(c: ClientState, ticks: seq<Tick>, text: seq<byte>, rest: seq<Poll>)
    requires WellSized(c)
    requires 2 <= |text| && |text| + 1 < RxBufferDimension
    requires LF !in text && CR !in text && NulFree(text)
    requires c.rxIndex + |text| - 1 < HeadersMaxLength
    requires |ticks| >= |text| + 4
    requires forall k | 1 <= k <= |text| + 3 :: ticks[k] < Deadline(ticks[0], Timeout)
    ensures var r := ReadLine(c.rxBuffer, RxBufferDimension, Timeout, ticks, Arrivals(text + [CR, LF]) + rest);
            var d := Appended(c.(rxBuffer := r.buffer), r.received);
            && r.err == Ok && r.received == |text| - 1
            && d.rxIndex == c.rxIndex + |text| - 1
            && d.message.header == c.message.header[..c.rxIndex] + text[..|text| - 1]
                                   + c.message.header[c.rxIndex + |text| - 1..]
  {
    CompleteLine(c.rxBuffer, RxBufferDimension, Timeout, ticks, text, true, rest);
    assert LineBytes(text, true) + [LF] == text + [CR, LF];
    var r := ReadLine(c.rxBuffer, RxBufferDimension, Timeout, ticks, Arrivals(text + [CR, LF]) + rest);
    assert r.buffer[..|text| - 1] == text[..|text| - 1];
    StrNCpyNulFree(r.buffer, |text| - 1);
  }

  /**
   * A bare LF among the header lines is read as a success with `received`
   * at -1, and the loop stops on it. In the source the append still runs
   * for it: strncpy is handed a negative size and the header index moves
   * back by one, which C leaves undefined. The model's append copies
   * nothing here, so every lemma below about whole cycles and polls covers
   * this input only through that substitution.
   */
  lemma BareLineFeedHeaderReachesAppend(c: ClientState, ticks: seq<Tick>, rest: seq<Poll>)
    requires WellSized(c)
    requires |ticks| >= 4 && ticks[1] < Deadline(ticks[0], Timeout) && ticks[2] < Deadline(ticks[0], Timeout)
    ensures var r := ReadLine(c.rxBuffer, RxBufferDimension, Timeout, ticks, Arrivals([LF]) + rest);
            var read := c.(rxBuffer := r.buffer);
            && r.err == Ok && r.received == -1
            && Appended(read, r.received) == read
            && HeaderLoop(c, ticks, Arrivals([LF]) + rest) == Headers(read, ticks[3..], rest)
  {
    assert LineBytes([], false) + [LF] == [LF];
    CompleteLine(c.rxBuffer, RxBufferDimension, Timeout, ticks, [], false, rest);
  }

  /**
   * A request line that fills the whole receive buffer, with no CR in the
   * spare byte after it, is reported with `received` equal to
   * HTTPSERVER_RX_BUFFER_DIMENSION. The parser's terminator then belongs
   * one byte past the end of rxBuffer, a store C leaves undefined; the
   * model leaves the buffer as it is instead, so the lemmas about whole
   * cycles and polls cover this input only through that substitution.
   */
  lemma FullRequestLineTerminatorOutOfRange(c: ClientState, ticks: seq<Tick>, bytes: seq<byte>, rest: seq<Poll>)
    requires WellSized(c)
    requires |bytes| == RxBufferDimension && LF !in bytes && c.rxBuffer[RxBufferDimension] != CR
    requires |ticks| >= RxBufferDimension + 3
    requires forall k | 1 <= k <= RxBufferDimension :: ticks[k] < Deadline(ticks[0], Timeout)
    requires ticks[RxBufferDimension + 2] < Deadline(ticks[0], Timeout)
    ensures var r := ReadLine(c.rxBuffer, RxBufferDimension, Timeout, ticks, Arrivals(bytes) + rest);
            && r.err == Ok && r.received == RxBufferDimension
            && r.received + 1 == |c.rxBuffer| == |r.buffer|
            && Terminated(r.buffer, r.received) == r.buffer
  {
    FullBuffer(c.rxBuffer, RxBufferDimension, Timeout, ticks, bytes, rest);
  }

  // ---------------------------------------------------------------------
  // What the parser writes

  /**
   * The URI field changes only to hold the second token, shorter than
   * HTTPSERVER_MAX_URI_LENGTH, as a C string; a longer one is answered
   * with 414 and leaves the field as it was.
   */
  lemma UriCopiedWhenShort(slot: nat, c: ClientState, length: nat)
    requires WellSized(c) && length < |c.rxBuffer|
    ensures var closed := Split(c.rxBuffer[..length + 1]).closed;
            var q := ParseRequestOf(slot, c, length);
            && (q.client.message.uri != c.message.uri ==>
                  && |closed| >= 2 && |closed[1]| < MaxUriLength
                  && q.client.message.uri[..|closed[1]| + 1] == closed[1] + [NUL])
            && (q.err == UriTooLong <==>
                  |closed| >= 2 && MethodOf(closed[0]).Some? && |closed[1]| >= MaxUriLength)
            && (q.err == UriTooLong ==>
                  q.client.message.uri == c.message.uri && q.sent == [Write(slot, Reply(RequestUriTooLarge))])
  {
    var closed := Split(c.rxBuffer[..length + 1]).closed;
    var p := Accept(closed);
    if p.fields.uri.Some? {
      var t := p.fields.uri.value;
      assert (t + [NUL] + c.message.uri[|t| + 1..])[..|t| + 1] == t + [NUL];
    }
  }

  // ---------------------------------------------------------------------
  // A whole poll

  /** The actions of `log` that concern `slot`, in order. */
  function ActionsOf(log: seq<Action>, slot: nat): (r: seq<Action>)
    ensures |r| <= |log|
  {
    if log == [] then []
    else ActionsOf(log[..|log| - 1], slot) + (if log[|log| - 1].slot == slot then [log[|log| - 1]] else [])
  }

  lemma {:induction false} ActionsOfAppend(a: seq<Action>, b: seq<Action>, slot: nat)
    ensures ActionsOf(a + b, slot) == ActionsOf(a, slot) + ActionsOf(b, slot)
    decreases |b|
  {
    if b == [] {
      assert a + b == a;
    } else {
      assert (a + b)[..|a + b| - 1] == a + b[..|b| - 1];
      ActionsOfAppend(a, b[..|b| - 1], slot);
    }
  }

  /** Actions that all concern one slot are all that slot's and none of another's. */
  lemma {:induction false} ActionsOfOneSlot(actions: seq<Action>, slot: nat, other: nat)
    requires forall k | 0 <= k < |actions| :: actions[k].slot == slot
    ensures ActionsOf(actions, slot) == actions
    ensures other != slot ==> ActionsOf(actions, other) == []
    decreases |actions|
  {
    if actions != [] {
      ActionsOfOneSlot(actions[..|actions| - 1], slot, other);
    }
  }

  /** Every action concerns `slot`. */
  predicate OwnSlot(actions: seq<Action>, slot: nat)
  {
    forall k | 0 <= k < |actions| :: actions[k].slot == slot
  }

  /** A cycler whose cycles act only on the slot they run for. */
  ghost predicate CyclesOwnSlot(cycle: Cycler)
  {
    forall slot: nat, c: ClientState, ticks: seq<Tick>, polls: seq<Poll> ::
      OwnSlot(cycle(slot, c, ticks, polls).actions, slot)
  }

  /** The request cycle acts only on its own slot. */
  lemma ServeSlotOwnSlot(handler: Handler)
    ensures CyclesOwnSlot(ServeSlot(handler))
  {
    forall slot: nat, c: ClientState, ticks: seq<Tick>, polls: seq<Poll>
      ensures OwnSlot(ServeSlot(handler)(slot, c, ticks, polls).actions, slot)
    {
      if WellSized(c) {
        CycleOwnSlot(slot, c, handler, ticks, polls);
      }
    }
  }

  lemma CycleOwnSlot(slot: nat, c: ClientState, handler: Handler, ticks: seq<Tick>, polls: seq<Poll>)
    requires WellSized(c)
    ensures OwnSlot(RunCycle(slot, c, handler, ticks, polls).actions, slot)
  {
    var r := ReadLine(c.rxBuffer, RxBufferDimension, Timeout, ticks, polls);
    if r.received >= 0 {
      AnswerOutcome(slot, c.(rxBuffer := r.buffer, rxIndex := 0), r.received, handler, r.ticks, r.polls);
    }
  }

  /**
   * What the first `n` slots of a poll have done to `slot`: if it comes
   * before `n` and is connected, its log, state and transport are those of
   * one cycle run on its state before the poll, with the clock as the
   * slots before it left it; otherwise nothing.
   */
  ghost predicate SlotServed(r: Round, n: nat, clients: seq<ClientState>, connected: seq<bool>,
                             links: seq<seq<Poll>>, cycle: Cycler, ticks: seq<Tick>, slot: nat)
    requires n <= |clients| == |connected| == |links| && slot < |clients| == |r.clients| && |r.links| == |links|
  {
    if slot < n && connected[slot] then
      var y := cycle(slot, clients[slot], RunSlots(slot, clients, connected, links, cycle, ticks).ticks, links[slot]);
      ActionsOf(r.log, slot) == y.actions && r.clients[slot] == y.client && r.links[slot] == y.polls
    else ActionsOf(r.log, slot) == [] && r.clients[slot] == clients[slot] && r.links[slot] == links[slot]
  }

  /** Each slot goes through at most one cycle per poll, and only its own. */
  lemma {:induction false} SlotsServedOnce(n: nat, clients: seq<ClientState>, connected: seq<bool>,
                                           links: seq<seq<Poll>>, cycle: Cycler, ticks: seq<Tick>, slot: nat)
    requires n <= |clients| == |connected| == |links| && slot < |clients| && CyclesOwnSlot(cycle)
    ensures SlotServed(RunSlots(n, clients, connected, links, cycle, ticks), n, clients, connected, links,
                       cycle, ticks, slot)
  {
    if n > 0 {
      SlotsServedOnce(n - 1, clients, connected, links, cycle, ticks, slot);
      var prev := RunSlots(n - 1, clients, connected, links, cycle, ticks);
      var r := RunSlots(n, clients, connected, links, cycle, ticks);
      if !connected[n - 1] {
        assert r == prev;
      } else {
        var y := cycle(n - 1, prev.clients[n - 1], prev.ticks, prev.links[n - 1]);
        assert r == Round(prev.clients[n - 1 := y.client], prev.log + y.actions, y.ticks, prev.links[n - 1 := y.polls]);
        assert OwnSlot(y.actions, n - 1);
        ActionsOfAppend(prev.log, y.actions, slot);
        ActionsOfOneSlot(y.actions, n - 1, slot);
        if slot == n - 1 {
          assert ActionsOf(prev.log, slot) == [] && prev.clients[slot] == clients[slot] && prev.links[slot] == links[slot];
          assert ActionsOf(prev.log, slot) + y.actions == y.actions;
        } else {
          assert ActionsOf(r.log, slot) == ActionsOf(prev.log, slot);
        }
      }
    }
  }

  /**
   * In a poll, a connected slot goes through exactly one cycle, whose
   * actions are one of those OneCycle allows; a slot that is not connected
   * is skipped untouched: no action, same state, transport not read.
   * On a bare LF header line and on a request line that fills rxBuffer,
   * where the source's behaviour is undefined, this holds of the model's
   * substitution (see BareLineFeedHeaderReachesAppend and
   * FullRequestLineTerminatorOutOfRange).
   */
  lemma PollServesEachSlotOnce(clients: seq<ClientState>, connected: seq<bool>, links: seq<seq<Poll>>,
                               handler: Handler, ticks: seq<Tick>, slot: nat)
    requires |clients| == |connected| == |links| && AllWellSized(clients) && slot < |clients|
    ensures var r := RunPoll(clients, connected, links, handler, ticks);
            && (connected[slot] ==> OneCycle(ActionsOf(r.log, slot), slot, handler))
            && (!connected[slot] ==>
                  ActionsOf(r.log, slot) == [] && r.clients[slot] == clients[slot] && r.links[slot] == links[slot])
  {
    ServeSlotOwnSlot(handler);
    SlotsServedOnce(|clients|, clients, connected, links, ServeSlot(handler), ticks, slot);
    if connected[slot] {
      var before := RunSlots(slot, clients, connected, links, ServeSlot(handler), ticks);
      CycleOutcome(slot, clients[slot], handler, before.ticks, links[slot]);
    }
  }
}
