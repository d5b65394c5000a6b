/**
 * The server's objects (http-server.h) and the operations of
 * http-server.c that change them in place: open, parseRequest,
 * sendResponse, and poll with its per-client cycle and header loop.
 * Each method is proved to leave the state, and to return the actions,
 * that the functions of module Exchange describe.
 */
module Server {
  import opened HttpTypes
  import opened StatusTable
  import opened LineReader
  import opened RequestLine
  import opened Response
  import opened CStrings
  import opened Exchange

  /** HttpServer_Message. */
  class Message {
    var request: Request
    var version: Version
    var responseCode: ResponseCode
    const uri: array<byte>
    const header: array<byte>

    ghost predicate Valid()
    {
      uri.Length == MaxUriLength + 1 && header.Length == HeadersMaxLength + 1 && uri != header
    }

    function State(): MessageState
      reads this, uri, header
    {
      MessageState(request, version, responseCode, uri[..], header[..])
    }

    /** A zero-initialised message, as in a static device structure. */
    constructor ()
      ensures Valid() && fresh(uri) && fresh(header)
      ensures State() == MessageState(Get, Http10, Continue, Zeros(MaxUriLength + 1), Zeros(HeadersMaxLength + 1))
    {
      request, version, responseCode := Get, Http10, Continue;
      uri := new byte[MaxUriLength + 1](_ => NUL);
      header := new byte[HeadersMaxLength + 1](_ => NUL);
      new;
      assert uri[..] == Zeros(MaxUriLength + 1);
      assert header[..] == Zeros(HeadersMaxLength + 1);
    }
  }

  /** HttpServer_Client: the buffers of one connection slot and the message it is filling. */
  class Client {
    const rxBuffer: array<byte>
    const txBuffer: array<byte>
    var rxIndex: nat
    const message: Message

    ghost function Objects(): set<object>
    {
      {this, message, rxBuffer, txBuffer, message.uri, message.header}
    }

    ghost predicate Valid()
    {
      && message.Valid()
      && rxBuffer.Length == RxBufferDimension + 1
      && txBuffer.Length == TxBufferDimension + 1
      && rxBuffer != txBuffer
      && rxBuffer != message.uri && rxBuffer != message.header
      && txBuffer != message.uri && txBuffer != message.header
    }

    function State(): (s: ClientState)
      reads this, rxBuffer, txBuffer, message, message.uri, message.header
      ensures Valid() ==> WellSized(s)
    {
      ClientState(rxBuffer[..], txBuffer[..], rxIndex, message.State())
    }

    constructor ()
      ensures Valid() && fresh(message) && fresh(rxBuffer) && fresh(txBuffer)
      ensures fresh(message.uri) && fresh(message.header)
      ensures rxIndex == 0
    {
      rxBuffer := new byte[RxBufferDimension + 1](_ => NUL);
      txBuffer := new byte[TxBufferDimension + 1](_ => NUL);
      rxIndex := 0;
      message := new Message();
    }

    /**
     * The header accumulation of poll (http-server.c:263-280): a line of
     * `received` characters is copied with strncpy to header[rxIndex] when
     * `received + rxIndex` stays below HTTPSERVER_HEADERS_MAX_LENGTH.
     */
    method AppendHeader(received: int)
      requires Valid() && received <= RxBufferDimension
      modifies this, message.header
      ensures State() == Appended(old(State()), received)
    {
      if 0 < received && received + rxIndex < HeadersMaxLength {
        StrNCpyInto(message.header, rxIndex, rxBuffer, received);
        rxIndex := rxIndex + received;
      }
    }
  }

  /** The objects of a sequence of clients. */
  ghost function ObjectsOf(cs: seq<Client>): (r: set<object>)
    ensures forall k | 0 <= k < |cs| :: cs[k].Objects() <= r
  {
    if cs == [] then {} else ObjectsOf(cs[..|cs| - 1]) + cs[|cs| - 1].Objects()
  }

  /** The states of a sequence of clients. */
  ghost function StatesOf(cs: seq<Client>): (r: seq<ClientState>)
    reads ObjectsOf(cs)
    ensures |r| == |cs| && forall k | 0 <= k < |cs| :: r[k] == cs[k].State()
  {
    if cs == [] then [] else StatesOf(cs[..|cs| - 1]) + [cs[|cs| - 1].State()]
  }

  /**
   * sendResponse's assembly of a response in a transmit buffer, for the
   * status row `code` selects, as it comes out on a zero-filled buffer.
   */
  method WriteResponse(tx: array<byte>, code: ResponseCode, headers: seq<byte>) returns (bytes: seq<byte>)
    requires |ResponseBytes(code, headers)| <= TxBufferDimension < tx.Length
    modifies tx
    ensures bytes == ResponseBytes(code, headers)
    ensures tx[..] == Transmitted(old(tx[..]), bytes)
  {
    bytes := Assemble(tx, StatusRow(code), headers);
  }

  /**
   * The copies sendResponse makes into a transmit buffer: the status line
   * prefix and its terminator, the row, CR LF, then the headers. The last
   * two go where the previous copy ended, which is where the source's
   * strlen finds the end only when the buffer held NULs there.
   */
  method Assemble(tx: array<byte>, row: seq<byte>, headers: seq<byte>) returns (bytes: seq<byte>)
    requires |StatusLinePrefix| + |row| + 2 + |headers| <= tx.Length
    modifies tx
    ensures bytes == StatusLinePrefix + row + CrLf + headers
    ensures tx[..] == bytes + old(tx[..])[|bytes|..]
  {
    var n := |StatusLinePrefix|;
    ghost var t := tx[..];
    CopyInto(tx, 0, StatusLinePrefix + [NUL]);        // sprintf
    CopyInto(tx, n, row);                             // strncpy of the row's characters
    CopyInto(tx, n + |row|, CrLf);
    CopyInto(tx, n + |row| + 2, headers);
    bytes := tx[..n + |row| + 2 + |headers|];
    assert bytes == StatusLinePrefix + row + CrLf + headers;
    assert tx[..] == bytes + t[|bytes|..];
  }

  /** HttpServer_Device: the listening socket and the client slots. */
  class Device {
    var port: uint16
    var socketNumber: nat
    const clients: seq<Client>
    /** performingCallback, as the response code it chooses for a message. */
    const handler: Handler

    ghost predicate Valid()
    {
      && |clients| == MaxListenClient
      && (forall i | 0 <= i < |clients| :: clients[i].Valid())
      && (forall i, j | 0 <= i < |clients| && 0 <= j < |clients| && i != j ::
            clients[i].Objects() !! clients[j].Objects())
    }

    ghost function Repr(): set<object>
    {
      ObjectsOf(clients)
    }

    ghost function States(): (s: seq<ClientState>)
      requires Valid()
      reads Repr()
      ensures |s| == |clients| && AllWellSized(s)
    {
      StatesOf(clients)
    }

    constructor (port: uint16, socketNumber: nat, handler: Handler)
      ensures Valid() && forall i | 0 <= i < |clients| :: fresh(clients[i].Objects())
      ensures this.port == port && this.socketNumber == socketNumber && this.handler == handler
    {
      this.port := port;
      this.socketNumber := socketNumber;
      this.handler := handler;
      var slots: seq<Client> := [];
      while |slots| < MaxListenClient
        invariant |slots| <= MaxListenClient
        invariant forall i | 0 <= i < |slots| :: slots[i].Valid() && fresh(slots[i].Objects())
        invariant forall i, j | 0 <= i < |slots| && 0 <= j < |slots| && i != j ::
                    slots[i].Objects() !! slots[j].Objects()
      {
        var c := new Client();
        slots := slots + [c];
      }
      clients := slots;
    }

    /**
     * HttpServer_open (http-server.c:118-158): the port, then the socket
     * number, then the transport's connect (`connected`) are checked, in
     * that order; only a successful open resets every client's index.
     */
    method Open(connected: bool) returns (err: Error)
      requires Valid()
      modifies set i | 0 <= i < |clients| :: clients[i]
      ensures port == 0 ==> err == WrongPort
      ensures port != 0 && socketNumber >= MaxSocketServer ==> err == WrongSocketNumber
      ensures port != 0 && socketNumber < MaxSocketServer ==> err == (if connected then Ok else OpenFail)
      ensures forall i | 0 <= i < |clients| ::
                clients[i].State() == if err == Ok then old(clients[i].State()).(rxIndex := 0)
                                      else old(clients[i].State())
    {
      if port == 0 {
        return WrongPort;
      }
      if socketNumber >= MaxSocketServer {
        return WrongSocketNumber;
      }
      if !connected {
        return OpenFail;
      }
      var i := 0;
      while i < |clients|
        invariant 0 <= i <= |clients|
        invariant forall j | 0 <= j < i :: clients[j].State() == old(clients[j].State()).(rxIndex := 0)
        invariant forall j | i <= j < |clients| :: clients[j].State() == old(clients[j].State())
      {
        clients[i].rxIndex := 0;
        i := i + 1;
      }
      return Ok;
    }

    /**
     * HttpServer_sendResponse (http-server.c:479-504): "HTTP/1.1 ", the
     * status row of `code`, CR LF and the headers are assembled in the
     * client's transmit buffer and written in one call.
     */
    method SendResponse(code: ResponseCode, headers: seq<byte>, client: nat) returns (bytes: seq<byte>)
      requires Valid() && client < |clients|
      requires NulFree(headers) && |ResponseBytes(code, headers)| <= TxBufferDimension
      modifies clients[client].txBuffer
      ensures bytes == ResponseBytes(code, headers)
      ensures clients[client].txBuffer[..] == Transmitted(old(clients[client].txBuffer[..]), bytes)
    {
      bytes := WriteResponse(clients[client].txBuffer, code, headers);
    }

    /**
     * HttpServer_parseRequest (http-server.c:388-477): terminates the line
     * at buffer[length + 1] (only when that lies in the buffer), checks the
     * client number, then scans buffer[0..length].
     */
    method ParseRequest(buffer: array<byte>, length: nat, client: nat) returns (err: Error, sent: seq<Action>)
      requires Valid() && length < buffer.Length && length < TokenBufferSize
      requires forall i | 0 <= i < |clients| ::
                 buffer != clients[i].txBuffer && buffer != clients[i].message.uri && buffer != clients[i].message.header
      modifies buffer
      modifies if client < |clients| then {clients[client].message, clients[client].message.uri, clients[client].txBuffer} else {}
      ensures buffer[..] == Terminated(old(buffer[..]), length)
      ensures client >= |clients| ==> err == WrongClientNumber && sent == []
      ensures client < |clients| ==>
                var p := ParseLine(old(buffer[..length + 1]));
                var m := clients[client].message;
                && err == p.err
                && m.State() == ApplyFields(old(m.State()), p.fields)
                && clients[client].txBuffer[..]
                   == (if err == UriTooLong then Transmitted(old(clients[client].txBuffer[..]), Reply(RequestUriTooLarge))
                       else old(clients[client].txBuffer[..]))
                && sent == (if err == UriTooLong then [Write(client, Reply(RequestUriTooLarge))] else [])
    {
      if length + 1 < buffer.Length {
        buffer[length + 1] := NUL;
      }
      if client >= |clients| {
        return WrongClientNumber, [];
      }
      assert buffer[..length + 1] == old(buffer[..length + 1]);
      err, sent := ScanRequestLine(buffer, length + 1, clients[client].message, clients[client].txBuffer, client);
    }

    /**
     * The header loop of poll (http-server.c:252-308, without the answer):
     * lines are read into the slot's receive buffer and, when read whole,
     * appended to the message's headers, until a read returns a
     * non-positive count.
     */
    method ReadHeaders(slot: nat, ticks: seq<Tick>, polls: seq<Poll>) returns (ticksLeft: seq<Tick>, pollsLeft: seq<Poll>)
      requires Valid() && slot < |clients|
      modifies clients[slot], clients[slot].rxBuffer, clients[slot].message.header
      ensures var h := HeaderLoop(old(clients[slot].State()), ticks, polls);
              clients[slot].State() == h.client && ticksLeft == h.ticks && pollsLeft == h.polls
    {
      var c := clients[slot];
      ghost var goal := HeaderLoop(c.State(), ticks, polls);
      ticksLeft, pollsLeft := ticks, polls;
      while true
        invariant HeaderLoop(c.State(), ticksLeft, pollsLeft) == goal
        decreases |pollsLeft|
      {
        ghost var before := c.State();
        var err, received, t, p := GetLine(c.rxBuffer, RxBufferDimension, Timeout, ticksLeft, pollsLeft);
        ReadLineConsumesFromFront(before.rxBuffer, RxBufferDimension, Timeout, ticksLeft, pollsLeft);
        if err == Ok {
          c.AppendHeader(received);
        }
        ticksLeft, pollsLeft := t, p;
        if received <= 0 {
          break;
        }
      }
    }

    /**
     * The body of poll for one connected slot (http-server.c:195-308): the
     * index is reset and the request line read; a failed read closes the
     * connection, anything else is answered.
     */
    method ServeClient(slot: nat, ticks: seq<Tick>, polls: seq<Poll>)
      returns (actions: seq<Action>, ticksLeft: seq<Tick>, pollsLeft: seq<Poll>)
      requires Valid() && slot < |clients|
      modifies clients[slot].Objects()
      ensures var y := RunCycle(slot, old(clients[slot].State()), handler, ticks, polls);
              clients[slot].State() == y.client && actions == y.actions && ticksLeft == y.ticks && pollsLeft == y.polls
    {
      var c := clients[slot];
      c.rxIndex := 0;
      var err, received;
      err, received, ticksLeft, pollsLeft := GetLine(c.rxBuffer, RxBufferDimension, Timeout, ticks, polls);
      if received < 0 {
        return [Disconnect(slot)], ticksLeft, pollsLeft;
      }
      actions, ticksLeft, pollsLeft := AnswerRequest(slot, received, ticksLeft, pollsLeft);
    }

    /**
     * A request line of `received + 1` characters is in the slot's receive
     * buffer (http-server.c:221-250): it is parsed; a malformed one is
     * answered with 400 and the connection closed, an accepted one served.
     */
    method AnswerRequest(slot: nat, received: nat, ticks: seq<Tick>, polls: seq<Poll>)
      returns (actions: seq<Action>, ticksLeft: seq<Tick>, pollsLeft: seq<Poll>)
      requires Valid() && slot < |clients| && received <= RxBufferDimension
      modifies clients[slot].Objects()
      ensures var y := Answer(slot, old(clients[slot].State()), received, handler, ticks, polls);
              clients[slot].State() == y.client && actions == y.actions && ticksLeft == y.ticks && pollsLeft == y.polls
    {
      var c := clients[slot];
      ghost var q := ParseRequestOf(slot, c.State(), received);
      var err, sent := ParseRequest(c.rxBuffer, received, slot);
      assert c.State() == q.client && err == q.err && sent == q.sent;
      if err != Ok {
        DefaultResponseFits(BadRequest);
        var bytes := SendResponse(BadRequest, DefaultHeaders, slot);
        return sent + [Write(slot, bytes), Disconnect(slot)], ticks, polls;
      }
      actions, ticksLeft, pollsLeft := ServeRequest(slot, ticks, polls);
    }

    /**
     * An accepted request (http-server.c:252-308): the header lines are
     * read, the callback chooses the response code, the response is sent
     * and the connection closed.
     */
    method ServeRequest(slot: nat, ticks: seq<Tick>, polls: seq<Poll>)
      returns (actions: seq<Action>, ticksLeft: seq<Tick>, pollsLeft: seq<Poll>)
      requires Valid() && slot < |clients|
      modifies clients[slot].Objects()
      ensures var y := Serve(slot, old(clients[slot].State()), handler, ticks, polls);
              clients[slot].State() == y.client && actions == y.actions && ticksLeft == y.ticks && pollsLeft == y.polls
    {
      var c := clients[slot];
      ticksLeft, pollsLeft := ReadHeaders(slot, ticks, polls);
      var message := c.message.State();
      var code := handler(message);
      c.message.responseCode := code;
      DefaultResponseFits(code);
      var bytes := SendResponse(code, DefaultHeaders, slot);
      actions := [Dispatch(slot, message), Write(slot, bytes), Disconnect(slot)];
    }

    /**
     * HttpServer_poll (http-server.c:160-310): every slot in turn is served
     * one cycle when the transport reports it connected; `links[i]` is what
     * the transport delivers on slot i and `ticks` the clock's readings.
     */
    method Poll(connected: seq<bool>, links: seq<seq<Poll>>, ticks: seq<Tick>)
      returns (log: seq<Action>, ticksLeft: seq<Tick>, linksLeft: seq<seq<Poll>>)
      requires Valid() && |connected| == |links| == |clients|
      modifies Repr()
      ensures var r := RunPoll(old(States()), connected, links, handler, ticks);
              States() == r.clients && log == r.log && ticksLeft == r.ticks && linksLeft == r.links
    {
      ghost var start := States();
      log, ticksLeft, linksLeft := [], ticks, links;
      var i := 0;
      while i < |clients|
        invariant 0 <= i <= |clients|
        invariant var r := RunSlots(i, start, connected, links, ServeSlot(handler), ticks);
                  && (forall j | 0 <= j < |clients| :: clients[j].State() == r.clients[j])
                  && log == r.log && ticksLeft == r.ticks && linksLeft == r.links
      {
        if connected[i] {
          var actions, t, p := ServeClient(i, ticksLeft, linksLeft[i]);
          log, ticksLeft, linksLeft := log + actions, t, linksLeft[i := p];
        }
        i := i + 1;
      }
    }
  }

  /** The scanning loop of HttpServer_parseRequest over buffer[0..n-1]. */
  method ScanRequestLine(buffer: array<byte>, n: nat, m: Message, tx: array<byte>, client: nat)
    returns (err: Error, sent: seq<Action>)
    requires m.Valid() && tx.Length == TxBufferDimension + 1 && tx != m.uri && tx != m.header
    requires n <= buffer.Length && n <= TokenBufferSize
    requires buffer != tx && buffer != m.uri && buffer != m.header
    modifies m, m.uri, tx
    ensures var p := ParseLine(buffer[..n]);
            && err == p.err
            && m.State() == ApplyFields(old(m.State()), p.fields)
            && tx[..] == (if err == UriTooLong then Transmitted(old(tx[..]), Reply(RequestUriTooLarge)) else old(tx[..]))
            && sent == (if err == UriTooLong then [Write(client, Reply(RequestUriTooLarge))] else [])
  {
    ghost var start := m.State();
    ghost var line := buffer[..n];
    var tmp := new byte[TokenBufferSize](_ => NUL);
    var numArgs := 0;
    var argCounter := 0;
    var i := 0;
    ghost var closed: seq<seq<byte>> := [];
    while i < n
      invariant 0 <= argCounter <= i <= n
      invariant Split(line[..i]) == Tokens(closed, tmp[..argCounter])
      invariant |closed| == numArgs && Accept(closed).err == Ok
      invariant m.State() == ApplyFields(start, Accept(closed).fields)
      invariant tx[..] == old(tx[..])
    {
      var b := buffer[i];
      if b == SP || b == NUL {
        var token := tmp[..argCounter];   // the token as strcmp and strcpy read it, up to its NUL
        err, sent := CloseToken(line, i, numArgs, token, m, tx, client, start, closed);
        closed := closed + [token];
        if err != Ok {
          return;
        }
        tmp[argCounter] := NUL;
        argCounter := 0;
        numArgs := numArgs + 1;
      } else {
        ghost var pending := tmp[..argCounter];
        assert line[..i + 1] == line[..i] + [b];
        SplitExtend(line[..i], [b]);
        tmp[argCounter] := b;
        assert tmp[..argCounter + 1] == pending + [b];
        argCounter := argCounter + 1;
      }
      i := i + 1;
    }
    assert line[..i] == line;
    return Ok, [];
  }

  /**
   * A delimiter at line[i] closes the token being read, which is then
   * checked. A rejection decides the outcome of the whole line.
   */
  method CloseToken(ghost line: seq<byte>, i: nat, index: nat, token: seq<byte>, m: Message, tx: array<byte>, client: nat,
                    ghost start: MessageState, ghost closed: seq<seq<byte>>)
    returns (err: Error, sent: seq<Action>)
    requires i < |line| && IsDelimiter(line[i]) && Split(line[..i]) == Tokens(closed, token)
    requires m.Valid() && tx.Length == TxBufferDimension + 1 && tx != m.uri && tx != m.header
    requires |start.uri| == MaxUriLength + 1
    requires index == |closed| && Accept(closed).err == Ok
    requires m.State() == ApplyFields(start, Accept(closed).fields)
    modifies m, m.uri, tx
    ensures Split(line[..i + 1]) == Tokens(closed + [token], [])
    ensures var q := Accept(closed + [token]);
            && err == q.err
            && m.State() == ApplyFields(start, q.fields)
            && tx[..] == (if err == UriTooLong then Transmitted(old(tx[..]), Reply(RequestUriTooLarge)) else old(tx[..]))
            && sent == (if err == UriTooLong then [Write(client, Reply(RequestUriTooLarge))] else [])
            && (err != Ok ==> ParseLine(line) == q)
  {
    assert line[..i + 1] == line[..i] + [line[i]];
    SplitDelimiter(line[..i], line[i]);
    AcceptStep(closed, token);
    err, sent := TakeToken(index, token, m, tx, client, start, closed);
    if err != Ok {
      RejectedLine(line, i + 1);
    }
  }

  /**
   * The check of one closed token by HttpServer_parseRequest, according to
   * how many came before it: method, URI, version, or one too many. The
   * tokens before it (all accepted) are `earlier`.
   */
  method TakeToken(index: nat, token: seq<byte>, m: Message, tx: array<byte>, client: nat,
                   ghost start: MessageState, ghost earlier: seq<seq<byte>>)
    returns (err: Error, sent: seq<Action>)
    requires m.Valid() && tx.Length == TxBufferDimension + 1 && tx != m.uri && tx != m.header
    requires |start.uri| == MaxUriLength + 1
    requires index == |earlier| && Accept(earlier).err == Ok
    requires m.State() == ApplyFields(start, Accept(earlier).fields)
    modifies m, m.uri, tx
    ensures var q := Check(Accept(earlier), index, token);
            && err == q.err
            && m.State() == ApplyFields(start, q.fields)
            && tx[..] == (if err == UriTooLong then Transmitted(old(tx[..]), Reply(RequestUriTooLarge)) else old(tx[..]))
            && sent == (if err == UriTooLong then [Write(client, Reply(RequestUriTooLarge))] else [])
  {
    sent := [];
    if index == 0 {
      err := TakeMethod(token, m);
    } else if index == 1 {
      assert Accept(earlier).fields.uri == None;
      err, sent := TakeUri(token, m, tx, client);
    } else if index == 2 {
      err := TakeVersion(token, m);
    } else {
      err := WrongRequestFormat;
    }
  }

  /** The first token, compared with "GET" and "POST". */
  method TakeMethod(token: seq<byte>, m: Message) returns (err: Error)
    modifies m
    ensures err == (if MethodOf(token).Some? then Ok else WrongRequestFormat)
    ensures m.State() == if err == Ok then old(m.State()).(request := MethodOf(token).value) else old(m.State())
  {
    if token == GetToken {          // strcmp(tmp, "GET") == 0
      m.request := Get;
    } else if token == PostToken {
      m.request := Post;
    } else {
      return WrongRequestFormat;
    }
    return Ok;
  }

  /**
   * The second token: copied with its terminator into the message's URI
   * when shorter than HTTPSERVER_MAX_URI_LENGTH, answered with 414
   * otherwise.
   */
  method TakeUri(token: seq<byte>, m: Message, tx: array<byte>, client: nat) returns (err: Error, sent: seq<Action>)
    requires m.Valid() && tx.Length == TxBufferDimension + 1 && tx != m.uri && tx != m.header
    modifies m.uri, tx
    ensures err == (if |token| < MaxUriLength then Ok else UriTooLong)
    ensures m.State() == if err == Ok then old(m.State()).(uri := token + [NUL] + old(m.uri[..])[|token| + 1..])
                         else old(m.State())
    ensures tx[..] == (if err == UriTooLong then Transmitted(old(tx[..]), Reply(RequestUriTooLarge)) else old(tx[..]))
    ensures sent == (if err == UriTooLong then [Write(client, Reply(RequestUriTooLarge))] else [])
  {
    if |token| < MaxUriLength {
      ghost var before := m.uri[..];
      CopyInto(m.uri, 0, token + [NUL]);              // strcpy
      assert m.uri[..] == token + [NUL] + before[|token| + 1..];
      return Ok, [];
    }
    DefaultResponseFits(RequestUriTooLarge);
    var bytes := WriteResponse(tx, RequestUriTooLarge, DefaultHeaders);   // HttpServer_sendResponse
    return UriTooLong, [Write(client, bytes)];
  }

  /** The third token, compared with "HTTP/1.0" and "HTTP/1.1". */
  method TakeVersion(token: seq<byte>, m: Message) returns (err: Error)
    modifies m
    ensures err == (if VersionOf(token).Some? then Ok else WrongRequestFormat)
    ensures m.State() == if err == Ok then old(m.State()).(version := VersionOf(token).value) else old(m.State())
  {
    if token == Http10Token {
      m.version := Http10;
    } else if token == Http11Token {
      m.version := Http11;
    } else {
      return WrongRequestFormat;
    }
    return Ok;
  }
}
