/**
 * The bytes of a response as HttpServer_sendResponse (http-server.c:479-504)
 * assembles them in the client's transmit buffer: "HTTP/1.1 ", the row of
 * the status table for the code, CR LF, and the caller's headers.
 */
module Response {
  import opened HttpTypes
  import opened StatusTable

  /** "HTTP/1.1 ", the start of every status line. */
  const StatusLinePrefix: seq<byte> := Ascii("HTTP/1.1 ")

  const CrLf: seq<byte> := [CR, LF]

  /** The headers the library passes with every response it sends itself. */
  const DefaultHeaders: seq<byte> := Ascii("Content-Length: 0\r\nServer: OHILab\r\n\n\r")

  /** The row of the status table for `code`, as bytes. */
  function StatusRow(code: ResponseCode): (row: seq<byte>)
    ensures |row| == |ResponseCodeText[code]| && 4 <= |row| < 36
  {
    RowWellFormed(code);
    Ascii(ResponseCodeText[code])
  }

  /** A row's bytes: the status code in three digits, a space, and no CR or LF. */
  lemma StatusRowSpellsCode(code: ResponseCode)
    ensures var row := StatusRow(code);
            && IsDigit(row[0] as char) && IsDigit(row[1] as char) && IsDigit(row[2] as char) && row[3] == SP
            && 100 * DigitValue(row[0] as char) + 10 * DigitValue(row[1] as char) + DigitValue(row[2] as char)
               == EnumeratorStatus[code]
            && CR !in row && LF !in row
  {
    RowWellFormed(code);
    var text := ResponseCodeText[code];
    var row := StatusRow(code);
    assert forall k | 0 <= k < |row| :: row[k] == text[k] as int;
    assert row[0] == text[0] as int && row[1] == text[1] as int && row[2] == text[2] as int;
    assert row[0] as char == text[0] && row[1] as char == text[1] && row[2] as char == text[2];
    assert forall k | 0 <= k < |row| :: 32 <= row[k] <= 126;
  }

  /** The response sendResponse hands to the transport. */
  function ResponseBytes(code: ResponseCode, headers: seq<byte>): (r: seq<byte>)
    ensures |r| == |StatusLinePrefix| + |StatusRow(code)| + |CrLf| + |headers|
    ensures r[..|StatusLinePrefix|] == StatusLinePrefix && r[|r| - |headers|..] == headers
  {
    var r := StatusLinePrefix + StatusRow(code) + CrLf + headers;
    assert r[|r| - |headers|..] == headers;
    r
  }

  // ---------------------------------------------------------------------
  // Reading a response back

  /** The status code of a status line "HTTP/1.1 ddd ...", if it has one. */
  function StatusCodeOf(response: seq<byte>): (status: Option<nat>)
    ensures status.Some? ==> 13 <= |response| && status.value < 1000
  {
    if |response| >= 13 && response[..9] == StatusLinePrefix
       && IsDigit(response[9] as char) && IsDigit(response[10] as char) && IsDigit(response[11] as char)
       && response[12] == SP
    then Some(100 * DigitValue(response[9] as char) + 10 * DigitValue(response[10] as char)
              + DigitValue(response[11] as char))
    else None
  }

  /** The bytes after the first CR LF: the header block of a response. */
  function AfterFirstCrLf(s: seq<byte>): (rest: Option<seq<byte>>)
    ensures rest.Some? ==> |rest.value| <= |s| - 2
  {
    if |s| < 2 then None
    else if s[0] == CR && s[1] == LF then Some(s[2..])
    else AfterFirstCrLf(s[1..])
  }

  lemma {:induction false} AfterFirstCrLfSkips(a: seq<byte>, b: seq<byte>)
    requires CR !in a
    ensures AfterFirstCrLf(a + CrLf + b) == Some(b)
    decreases |a|
  {
    if a == [] {
      assert a + CrLf + b == [CR, LF] + b;
      assert (a + CrLf + b)[2..] == b;
    } else {
      assert (a + CrLf + b)[1..] == a[1..] + CrLf + b;
      AfterFirstCrLfSkips(a[1..], b);
    }
  }

  /**
   * A response reads back as the status code of its table row and the
   * headers it was given.
   */
  lemma ResponseRoundTrip(code: ResponseCode, headers: seq<byte>)
    ensures StatusCodeOf(ResponseBytes(code, headers)) == Some(EnumeratorStatus[code])
    ensures AfterFirstCrLf(ResponseBytes(code, headers)) == Some(headers)
  {
    var row := StatusRow(code);
    StatusRowSpellsCode(code);
    assert |StatusLinePrefix| == 9 && CR !in StatusLinePrefix;
    var r := ResponseBytes(code, headers);
    assert r == StatusLinePrefix + row + CrLf + headers;
    assert r[..9] == StatusLinePrefix;
    assert r[9] == row[0] && r[10] == row[1] && r[11] == row[2] && r[12] == row[3];
    assert StatusCodeOf(r) == Some(100 * DigitValue(row[0] as char) + 10 * DigitValue(row[1] as char)
                                   + DigitValue(row[2] as char));
    assert CR !in StatusLinePrefix + row;
    AfterFirstCrLfSkips(StatusLinePrefix + row, headers);
  }

  /** Two responses with the same bytes carry the same status and the same headers. */
  lemma ResponseDetermines(code: ResponseCode, headers: seq<byte>, code': ResponseCode, headers': seq<byte>)
    requires ResponseBytes(code, headers) == ResponseBytes(code', headers')
    ensures EnumeratorStatus[code] == EnumeratorStatus[code'] && headers == headers'
  {
    ResponseRoundTrip(code, headers);
    ResponseRoundTrip(code', headers');
  }

  /**
   * The response the library means to send itself, as assembled on a
   * zero-filled transmit buffer, fits in that buffer
   * (HTTPSERVER_TX_BUFFER_DIMENSION bytes and a terminator).
   */
  lemma DefaultResponseFits(code: ResponseCode)
    ensures |DefaultHeaders| == 37 && NulFree(DefaultHeaders)
    ensures |ResponseBytes(code, DefaultHeaders)| < 84 <= TxBufferDimension
  {
  }
}
