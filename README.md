# ohilab/http-server, modelled in Dafny

A model of the core of the OHILab embedded HTTP server library (`http-server.c`,
`http-server.h`). Each call to `HttpServer_poll` visits the five client slots of
a device. For every connected slot it reads the request line with
`HttpServer_getLine` and parses it with `HttpServer_parseRequest`. It then reads
the header lines into the message, calls the application's callback and answers
with `HttpServer_sendResponse`. It closes the connection at the end of every
cycle. `HttpServer_open` validates the device before any of this happens.

The project has these modules:

- `HttpTypes` (`http_types.dfy`): bytes, the size macros, the Request, Version
  and Error enums, and the method and version literals.
- `StatusTable` (`status_table.dfy`): the 40 rows of `HttpServer_responseCode`,
  copied as written, and the status number each ResponseCode enumerator names.
- `LineReader` (`line_reader.dfy`): `HttpServer_getLine`.
  - The method `GetLine` works on an `array<byte>` with an explicit index.
  - `ReadLine` is the function that specifies it.
  - The transport is a finite sequence of poll results (no data, or one byte).
  - The clock is a sequence of 32-bit tick readings, consumed one per reading.
- `RequestLine` (`request_line.dfy`): what `HttpServer_parseRequest` computes.
  - `Split` cuts the scanned bytes at every space and NUL.
  - `Accept` checks the closed tokens.
  - `ParseLine` combines the two.
- `Response` (`response.dfy`): the bytes `HttpServer_sendResponse` writes, and
  a reader that recovers the status code and headers from them.
- `CStrings` (`c_strings.dfy`): `strncpy` and the copies into arrays.
- `Exchange` (`exchange.dfy`): one slot's cycle and one whole poll, as functions
  on the state of the clients. The transport's actions (writes, disconnections,
  callback calls) are collected in a log.
- `Server` (`server.dfy`): the structs `HttpServer_Message`, `HttpServer_Client`
  and `HttpServer_Device` as classes, and the operations that change them in
  place.
  - `Open`, `SendResponse`, `ParseRequest` (with its scanning loop), the header
    append, the header loop, one slot's cycle and `Poll`.
  - Each is proved to leave exactly the state that the `Exchange` functions
    describe.

Where the library's doc comments and its code disagree, the model follows the
code.

- The comment at http-server.c:93 says `received` counts the characters
  including CR LF. The code returns the index of the last character kept, one
  less than the number of characters (`CompleteLine`).
- The example configuration in the header's doc comment uses a URI limit of 99.
  The definition at http-server.h:258 uses 100, and the model uses 100.

## Model

| member | source | states |
|---|---|---|
| HttpTypes.LiteralsMatchEnums | http-server.h:302-385 | The eight method literals and the two version literals map one to one, in order, onto the Request and Version enumerators. |
| StatusTable.RowWellFormed | http-server.c:35-77 | The table has 40 rows, one per ResponseCode enumerator. Each row starts with the three digits of its status code and a space, is printable ASCII, and fits in 36 bytes with its NUL. |
| Response.StatusRowSpellsCode | http-server.h:387-429 | The row sent for each enumerator spells, in its first three bytes, the status number that the enumerator names, and it holds no CR or LF. |
| LineReader.ReadLine | http-server.c:312-386 | getLine ends only in OK, OK_EMPTYLINE, TIMEOUT or WRONG_PARAM. WRONG_PARAM happens exactly when maxLength is 0, and then nothing is read. TIMEOUT gives -1. -2 is given exactly for OK_EMPTYLINE. `received` is never 0 and never above maxLength. |
| LineReader.GetLine | http-server.c:312-386 | The loop over the buffer leaves exactly the error, the count, the buffer and the remaining transport and clock that ReadLine describes. A null buffer gives WRONG_PARAM with -1 and reads nothing. |
| LineReader.ReadUntilLineFeed | http-server.c:335-351 | The read loop stores the polled bytes at buffer[0..] until an LF or maxLength bytes, or until the deadline. It leaves the index one before the LF, and the rest of the buffer is unchanged. |
| LineReader.ScanStopsAtLineFeed | http-server.c:341-349 | The read stops at the first LF, and only there. |
| LineReader.ScanKeepsData | http-server.c:336-351 | No delivered byte is lost: the bytes stored plus the bytes still to come equal the bytes delivered. |
| LineReader.ReadLineStoresArrivingBytes | http-server.c:320-351 | getLine writes only buffer[0..maxLength-1], and writes there exactly the bytes delivered, in order. At most one LF is stored, and it is the last byte stored. |
| LineReader.ReadLineConsumesFromFront | http-server.c:336-351 | The transport and the clock are consumed from the front. A successful line consumes at least one poll. |
| LineReader.CompleteLine | http-server.c:344-384 | An exhibit for bytes delivered in consecutive polls, with no CR inside the text: a line that arrives before the deadline, with or without a CR before its LF, gives OK with `received` equal to its length minus one (two or more characters). One character gives OK_EMPTYLINE. A CR alone gives OK_EMPTYLINE. A bare LF gives OK with -1. |
| LineReader.LateLineFeedTimesOut | http-server.c:353-364 | Because the clock is read again after the loop, an LF that arrived in time is still reported as TIMEOUT with -1 when that reading is at the deadline. |
| LineReader.FullBuffer | http-server.c:336-384 | An exhibit for bytes delivered in consecutive polls: a buffer filled without an LF gives OK with `received` equal to maxLength. The result is maxLength - 1 when the byte after the buffer's window is a CR. |
| LineReader.ScanEndsEarlyOnlyAtDeadline | http-server.c:336-364 | On a monotone clock, a read that stops without an LF and with the buffer not full has passed the deadline. |
| LineReader.SuccessWithoutLineFeedFillsBuffer | http-server.c:336-384 | On a monotone clock, a success with no LF among the bytes delivered in that call means exactly maxLength bytes were read. |
| LineReader.ReceivedAtLineFeed | http-server.c:344-384 | For any transport, idle polls and CRs inside the line included: a success after an LF was delivered has the LF as the last delivered byte. It reports the index of the text's last character, with a CR just before the LF not counted. So "text" CR LF and "text" LF report the length of text minus one, and OK_EMPTYLINE is reported when that index is 0. |
| LineReader.ReceivedWithoutLineFeed | http-server.c:336-384 | For any transport, on a monotone clock: a success with no LF delivered stored exactly maxLength delivered bytes. It reports maxLength, or maxLength - 1 when the byte after the window is a CR. |
| LineReader.WrappedDeadlineTimesOut | http-server.c:335-364 | When entry tick + timeout wraps past 2^32, the deadline lies below the clock, so getLine times out without storing a byte or consuming a poll. |
| RequestLine.SplitTokensDelimiterFree | http-server.c:405-476 | Every token the scan collects holds no space and no NUL. |
| RequestLine.SplitUnsplit | http-server.c:405-476 | Delimiter-free tokens joined with spaces split back into the same tokens. |
| RequestLine.UnsplitSplit | http-server.c:405-476 | A NUL-free line split into tokens and joined with spaces gives the line back. |
| RequestLine.TokensAreLiterals | http-server.h:302-373 | The byte strings compared by strcmp are those of the GET, POST, HTTP/1.0 and HTTP/1.1 literals. |
| RequestLine.MethodOf | http-server.c:410-424 | A first token is accepted as GET exactly when it equals "GET", and as POST exactly when it equals "POST". Nothing else is accepted. |
| RequestLine.VersionOf | http-server.c:448-462 | A third token is HTTP/1.0 exactly when it equals "HTTP/1.0", and HTTP/1.1 exactly when it equals "HTTP/1.1". |
| RequestLine.MethodOfLiteral | http-server.c:410-424 | Of the eight method literals, only GET and POST are accepted. |
| RequestLine.AcceptOkExactly | http-server.c:405-466 | The closed tokens are accepted exactly when there are at most three, the first is GET or POST, the second is shorter than HTTPSERVER_MAX_URI_LENGTH and the third is a version literal. |
| RequestLine.AcceptStep | http-server.c:407-471 | Checking one more closed token after accepted ones is the branch on numArgs: method, URI, version, or WRONG_REQUEST_FORMAT. |
| RequestLine.RejectionIsFinal | http-server.c:405-466 | After a rejection, later tokens change neither the error nor the fields written. |
| RequestLine.RejectedPrefixDecides | http-server.c:405-476 | Once the bytes scanned so far are rejected, the rest of the line does not change the outcome. |
| RequestLine.RejectedLine | http-server.c:405-476 | A line whose prefix is rejected parses as that prefix does. |
| RequestLine.AcceptReadsFourTokens | http-server.c:463-466 | Only the first four closed tokens matter. |
| RequestLine.TrailingTokenIgnored | http-server.c:405-476 | A token that no space or NUL closes is never examined. |
| RequestLine.NoDelimiterSetsNothing | http-server.c:405-476 | A line with no space or NUL returns OK and sets no field. |
| RequestLine.VersionNeverChecked | http-server.c:221-224 | For an ordinary "METHOD URI VERSION" line scanned over `received + 1` bytes, the version is never closed, never checked and never set. |
| RequestLine.LongUriRefused | http-server.c:425-446 | A URI of HTTPSERVER_MAX_URI_LENGTH bytes or more gives URI_TOO_LONG and writes only the method. |
| RequestLine.UnknownMethodRefused | http-server.c:410-424 | A first token other than GET or POST gives WRONG_REQUEST_FORMAT and writes no field. |
| RequestLine.FourthTokenRejected | http-server.c:463-466 | A closed fourth token gives WRONG_REQUEST_FORMAT and leaves the method, URI and version already written. |
| Response.ResponseBytes | http-server.c:486-498 | The response starts with "HTTP/1.1 " and ends with the headers, and its length is that of the prefix, the row, CR LF and the headers. |
| Response.ResponseRoundTrip | http-server.c:486-503 | Reading a response back gives the status number of its code and, after the first CR LF, exactly the headers. |
| Response.ResponseDetermines | http-server.c:486-503 | Two equal responses carry the same status number and the same headers. |
| Response.DefaultResponseFits | http-server.c:237-239 | The library's fixed headers hold no NUL. The response the library means to send with them, as assembled on a zero-filled transmit buffer, fits in HTTPSERVER_TX_BUFFER_DIMENSION. |
| CStrings.StrNCpyNulFree | http-server.c:265-268 | strncpy of n NUL-free bytes copies them unchanged. |
| CStrings.StrNCpyStopsAtNul | http-server.c:265-268 | strncpy pads with NUL from the first NUL of its source. |
| Exchange.Reply | http-server.c:294-297 | The response the library means to send with its fixed headers (what sendResponse produces on a zero-filled transmit buffer) is shorter than 84 bytes and carries the status number of its code. |
| Exchange.HeaderLineLosesLastCharacter | http-server.c:263-270 | A header line "text CR LF" appends only `text` minus its last character at header[rxIndex], and rxIndex grows by exactly that amount. |
| Exchange.BareLineFeedHeaderReachesAppend | http-server.c:258-270 | A bare LF among the header lines comes back as OK with `received` at -1, so the source reaches its append with a negative size. The model's append leaves the client as it is, and the header loop stops there. |
| Exchange.FullRequestLineTerminatorOutOfRange | http-server.c:395-398 | A request line that fills rxBuffer (no CR in the spare byte) comes back as OK with `received` equal to HTTPSERVER_RX_BUFFER_DIMENSION. The terminator's index `received + 1` is then the length of rxBuffer, and the model leaves the buffer unchanged. |
| Exchange.HeaderLoopKeeps | http-server.c:252-308 | The header loop never moves rxIndex back or past HTTPSERVER_HEADERS_MAX_LENGTH. It keeps the header bytes before the old rxIndex and after the new one, and it changes no other field of the message or the transmit buffer. |
| Exchange.UriCopiedWhenShort | http-server.c:425-446 | The URI field changes only to a closed second token shorter than the limit, followed by NUL. URI_TOO_LONG happens exactly for an accepted method followed by a longer token. Then the URI is unchanged and a 414 is written. |
| Exchange.CycleOutcome | http-server.c:195-308 | One cycle produces one of four outcomes. An unreadable request line gives a disconnection alone. A refused line gives 400. A long URI gives 414 then 400. An accepted line gives one callback followed by its response. The cycle always ends with exactly one disconnection. |
| Exchange.AnswerOutcome | http-server.c:221-308 | For a request line that was read, the outcome follows from the parse result exactly as in CycleOutcome. |
| Exchange.ServedResponse | http-server.c:252-308 | After the headers, the callback sees the message once. Its code is stored as responseCode and sent as the status number of one response. Header bytes past the final rxIndex are those of the previous request. |
| Exchange.CycleOwnSlot | http-server.c:195-308 | Every action of a cycle concerns its own slot. |
| Exchange.SlotsServedOnce | http-server.c:173-310 | After the first n slots, each connected slot's actions in the log are those of one cycle on its state. An unconnected slot has no action, and its state and link are unchanged. |
| Exchange.PollServesEachSlotOnce | http-server.c:173-310 | In one poll, each connected slot gets exactly one cycle's actions. An unconnected slot is skipped untouched. |
| Server.Client.AppendHeader | http-server.c:263-280 | A header line is appended at header[rxIndex] with strncpy, and rxIndex advances by `received`, only when `received + rxIndex` is below HTTPSERVER_HEADERS_MAX_LENGTH. Otherwise nothing changes. |
| Server.WriteResponse | http-server.c:486-498 | The transmit buffer receives exactly the response bytes of the code and headers, followed by its old contents: the buffer the source leaves when it starts zero-filled. |
| Server.Assemble | http-server.c:488-498 | The four copies leave "HTTP/1.1 " ++ row ++ CR LF ++ headers at the start of the buffer, each copy placed where the previous one ended. |
| Server.Device.SendResponse | http-server.c:479-504 | The bytes written to the client are "HTTP/1.1 ", the status row, CR LF and the headers. Only that client's transmit buffer changes. |
| Server.Device.Open | http-server.c:118-158 | The port, then the socket number, then the connection are checked, in that order. Only a successful open resets every rxIndex. |
| Server.Device.ParseRequest | http-server.c:388-477 | The terminator is stored only inside the buffer. An invalid client number gives WRONG_CLIENT_NUMBER. Otherwise the error, the fields written and the 414 written are those of ParseLine over buffer[0..length]. |
| Server.ScanRequestLine | http-server.c:405-476 | The scanning loop with `tmp`, `numArgs` and `argCounter` computes ParseLine. Its invariant is that the bytes scanned split into the tokens checked so far plus `tmp`. |
| Server.CloseToken | http-server.c:407-471 | A delimiter closes the token in `tmp`, and checking it is one step of Accept. A rejection decides the whole line. |
| Server.TakeToken | http-server.c:409-466 | The check of the token numbered `numArgs` is that of Check. |
| Server.TakeMethod | http-server.c:410-424 | "GET" and "POST" set the request, and anything else is refused with the message unchanged. |
| Server.TakeUri | http-server.c:425-446 | A short URI is copied with its NUL, and the rest of `uri` is kept. A long one leaves `uri` unchanged, writes a 414 and returns URI_TOO_LONG. |
| Server.TakeVersion | http-server.c:448-462 | "HTTP/1.0" and "HTTP/1.1" set the version, and anything else is refused with the message unchanged. |
| Server.Device.ReadHeaders | http-server.c:252-308 | The do-while loop leaves the client in exactly the state HeaderLoop describes. |
| Server.Device.ServeClient | http-server.c:193-219 | One slot's cycle resets rxIndex and reads the request line. A negative count closes the connection, and anything else is answered. The result is RunCycle. |
| Server.Device.AnswerRequest | http-server.c:221-250 | A refused request line is answered with 400 (after the 414 for a long URI) and the connection closed. An accepted one is served. The result is Answer. |
| Server.Device.ServeRequest | http-server.c:252-308 | The headers are read, the callback chooses responseCode, the response is sent and the connection closed. The result is Serve. |
| Server.Device.Poll | http-server.c:160-310 | Every slot is visited in order, and each connected one is served one cycle. The new client states, the log, the clock and the links are those of RunPoll. |

## Left out

- The `EthernetServerSocket_*` library (connect, init, isConnected, available, read, writeBytes, disconnectClient) is foreign code.
  - `isConnected` and `connect` become boolean inputs.
  - `available` and `read` become a sequence of poll results per slot.
  - `writeBytes` and `disconnectClient` become `Write` and `Disconnect` actions in a log.
- The number of bytes `writeBytes` reports as written is not modelled.
- `HttpServer_currentTick`, `HttpServer_delay` and `EthernetSocket_Config` are platform plumbing.
  - The clock is a sequence of 32-bit readings. When the sequence runs out, it reads 0xFFFFFFFF from then on.
  - A transport sequence that runs out delivers no more data.
  - `delay` is never used.
- The `#ifdef OHILAB_HTTPSERVER_DEBUG` logging is not modelled.
- The board bring-up example in the header's doc comment is not modelled.
- `Message.body` and `HTTPSERVER_BODY_MAX_LENGTH` are never read by the library, so they are not modelled.
- `appDevice` is an opaque pointer that poll passes through to the callback (http-server.c:287). The library never dereferences it, so it is not modelled.
- `performingCallback` is application code.
  - It is modelled as a function from the message to the response code it stores in `responseCode`.
  - Its return value is ignored by poll, and so is not modelled.
  - The call passes two arguments (http-server.c:287) while the field declares three (http-server.h:502-504). The model follows the call.
- The definition of `HttpServer_sendResponse` takes four parameters, while http-server.h:538-542 declares five. The model follows the definition.
- `ETHERNET_MAX_LISTEN_CLIENT` and `ETHERNET_MAX_SOCKET_SERVER` come from the transport library's configuration, which is not part of this model. Both are taken as 5.
- Server.Device.ParseRequest: the store `buffer[length + 1] = 0` is made only when it lies inside the buffer. When `received` equals HTTPSERVER_RX_BUFFER_DIMENSION, the source writes one byte past `rxBuffer`, which is undefined behaviour.
- Exchange.ServedResponse: assumes the callback changes no field of the message except `responseCode`. The source hands it a pointer to the whole message, so a callback that also writes `uri`, `header`, `request` or `version` is not captured. The same holds for Server.Device.ServeRequest and every poll-level lemma.
- Server.Client.AppendHeader: a bare-LF header line arrives with OK and `received = -1`. The source then calls `strncpy` with a negative size and moves `rxIndex` back by one, which is undefined behaviour. The model copies nothing in that case, because it appends only when `received` is positive. Exchange.BareLineFeedHeaderReachesAppend shows that this input reaches the append.
- Exchange.CycleOutcome, Exchange.ServedResponse and Exchange.PollServesEachSlotOnce: on the two inputs above where the source is undefined (a bare-LF header line, and a request line that fills rxBuffer), they hold of the model's substitution, not of the source.
- Server.Device.SendResponse: states the intended concatenation, with a precondition that it fits the transmit buffer. That concatenation is what the source sends only while the transmit buffer is still zero-filled, as it is for a client's first response.
  - The source never clears `txBuffer`. `sprintf` writes only "HTTP/1.1 " and a NUL at index 9, and the `strncpy` calls copy no terminator.
  - So after the first response, each `strlen` runs on into the bytes of the previous response, and the CR LF and the headers are appended after the old content.
  - For example, the 414 then 400 pair of one cycle sends "HTTP/1.1 400 Bad request Too Large" followed by the headers twice. Each later response with the library's headers is 39 bytes longer than the one before, until it runs past `txBuffer`.
  - This carried-over state is not modelled.
- Server.WriteResponse: has the same gap as Server.Device.SendResponse. Its ensures (the response bytes, then the buffer's old suffix) is what the source leaves only when `txBuffer` starts zero-filled.
- Server.Assemble: places the CR LF and the headers at the fixed offsets where the previous copy ended. The source places them at `strlen(txBuffer)`, which lands on those offsets only when the buffer holds NUL there, as a zero-filled buffer does.
- Response.DefaultResponseFits: bounds the intended response, below 84 bytes, which fits the transmit buffer. In the source a slot's later responses keep the bytes of earlier ones and grow by 39 bytes each. Starting from a 63-byte 400, the sixth such response is 258 bytes long and runs past `txBuffer`. The lemma does not cover those.
- Exchange.Reply: is the intended response, bounded by 84 bytes. A slot's later responses, and the 400 that follows a 414 in the same cycle, carry over bytes of the previous response in the source and are longer. Every action log of the model (CycleOutcome, ServedResponse, PollServesEachSlotOnce, Server.Device.Poll) records Reply for these writes.
- LineReader.GetLine: requires `maxLength <= 0x7FFF`. The index and the count are `int16_t` in the source, and every caller passes 255.
- Server.ScanRequestLine: stores the NUL into `tmp` after the token is checked rather than before. Nothing reads that byte in between, because the token is passed as the bytes before it.
- Exchange.ServeSlot: a client state whose buffers do not have the sizes of http-server.h is left untouched. Every state a Device holds has those sizes.
- Server.Device.constructor: builds a zero-initialised device with fresh buffers for each slot. It stands for the static structure of the source, and there is no source function behind it.
