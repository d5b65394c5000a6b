/**
 * The status table HttpServer_responseCode (http-server.c): one row per
 * HttpServer_ResponseCode enumerator, each row the three-digit status code,
 * a space and the reason phrase, as the library spells it.
 */
module StatusTable {
  import opened HttpTypes

  /** An HttpServer_ResponseCode enumerator: its value, which indexes the table. */
  type ResponseCode = c: nat | c < 40

  const Continue: ResponseCode := 0
  const StatusOk: ResponseCode := 2
  const BadRequest: ResponseCode := 16
  const RequestUriTooLarge: ResponseCode := 30

  /** The rows of HttpServer_responseCode, without their NUL terminators. */
  const ResponseCodeText: seq<string> :=
    [
      "100 Continue",
      "101 Switching Protocols",
      "200 OK",
      "201 Created",
      "202 Accepted",
      "203 Non Authoritative Information",
      "204 No Content",
      "205 Reset content",
      "206 Partial Content",
      "300 Multiple Choices",
      "301 Moved Permanently",
      "302 Found",
      "303 See other",
      "304 Not Modified",
      "305 Use Proxy",
      "307 Temporary redirect",
      "400 Bad request",
      "401 Unauthorized",
      "402 Payment Required",
      "403 Forbidden",
      "404 Not Found",
      "405 Method Not Allowed",
      "406 Not acceptable",
      "407 Proxy Auth Required",
      "408 Request Timeout",
      "409 Conflict",
      "410 Gone",
      "411 Length required",
      "412 Pre Condition Failed",
      "413 Requestent Entity Too Large",
      "414 Request URI Too Large",
      "415 Unsupported MediaType",
      "416 Requested Range Not Satisfiable",
      "417 Expectation Failed",
      "500 Internalservererror",
      "501 Not Implemented",
      "502 Bad Gateway",
      "503 Service Unavailable",
      "504 Gateway Timeout",
      "505 HTTP Version Not Supported"
    ]

  /** The status code written in the comment of each enumerator line. */
  const EnumeratorStatus: seq<nat> :=
    [ 100, 101,
      200, 201, 202, 203, 204, 205, 206,
      300, 301, 302, 303, 304, 305, 307,
      400, 401, 402, 403, 404, 405, 406, 407, 408, 409,
      410, 411, 412, 413, 414, 415, 416, 417,
      500, 501, 502, 503, 504, 505 ]

  predicate IsDigit(c: char)
  {
    '0' <= c <= '9'
  }

  function DigitValue(c: char): nat
    requires IsDigit(c)
  {
    c as int - '0' as int
  }

  /**
   * A well-formed row for a status code: three digits spelling the code, a
   * space, a reason phrase of printable ASCII (no CR or LF), and room for the
   * NUL terminator within the 36 bytes of a row.
   */
  predicate RowFor(row: string, status: nat)
  {
    && 4 <= |row| < 36
    && IsDigit(row[0]) && IsDigit(row[1]) && IsDigit(row[2]) && row[3] == ' '
    && 100 * DigitValue(row[0]) + 10 * DigitValue(row[1]) + DigitValue(row[2]) == status
    && (forall k | 0 <= k < |row| :: ' ' <= row[k] <= '~')
  }

  /** Every row is well formed for the code its enumerator names. */
  lemma RowWellFormed(code: ResponseCode)
    ensures |ResponseCodeText| == |EnumeratorStatus| == 40
    ensures RowFor(ResponseCodeText[code], EnumeratorStatus[code])
    ensures IsAscii(ResponseCodeText[code])
  {
    if code == 0 { Row100(); }
    else if code == 1 { Row101(); }
    else if code == 2 { Row200(); }
    else if code == 3 { Row201(); }
    else if code == 4 { Row202(); }
    else if code == 5 { Row203(); }
    else if code == 6 { Row204(); }
    else if code == 7 { Row205(); }
    else if code == 8 { Row206(); }
    else if code == 9 { Row300(); }
    else if code == 10 { Row301(); }
    else if code == 11 { Row302(); }
    else if code == 12 { Row303(); }
    else if code == 13 { Row304(); }
    else if code == 14 { Row305(); }
    else if code == 15 { Row307(); }
    else if code == 16 { Row400(); }
    else if code == 17 { Row401(); }
    else if code == 18 { Row402(); }
    else if code == 19 { Row403(); }
    else if code == 20 { Row404(); }
    else if code == 21 { Row405(); }
    else if code == 22 { Row406(); }
    else if code == 23 { Row407(); }
    else if code == 24 { Row408(); }
    else if code == 25 { Row409(); }
    else if code == 26 { Row410(); }
    else if code == 27 { Row411(); }
    else if code == 28 { Row412(); }
    else if code == 29 { Row413(); }
    else if code == 30 { Row414(); }
    else if code == 31 { Row415(); }
    else if code == 32 { Row416(); }
    else if code == 33 { Row417(); }
    else if code == 34 { Row500(); }
    else if code == 35 { Row501(); }
    else if code == 36 { Row502(); }
    else if code == 37 { Row503(); }
    else if code == 38 { Row504(); }
    else { Row505(); }
  }

  // One lemma per row: the solver checks each row on its own.

  lemma Row100()
    ensures RowFor(ResponseCodeText[0], EnumeratorStatus[0])
  {
  }

  lemma Row101()
    ensures RowFor(ResponseCodeText[1], EnumeratorStatus[1])
  {
  }

  lemma Row200()
    ensures RowFor(ResponseCodeText[2], EnumeratorStatus[2])
  {
  }

  lemma Row201()
    ensures RowFor(ResponseCodeText[3], EnumeratorStatus[3])
  {
  }

  lemma Row202()
    ensures RowFor(ResponseCodeText[4], EnumeratorStatus[4])
  {
  }

  lemma Row203()
    ensures RowFor(ResponseCodeText[5], EnumeratorStatus[5])
  {
  }

  lemma Row204()
    ensures RowFor(ResponseCodeText[6], EnumeratorStatus[6])
  {
  }

  lemma Row205()
    ensures RowFor(ResponseCodeText[7], EnumeratorStatus[7])
  {
  }

  lemma Row206()
    ensures RowFor(ResponseCodeText[8], EnumeratorStatus[8])
  {
  }

  lemma Row300()
    ensures RowFor(ResponseCodeText[9], EnumeratorStatus[9])
  {
  }

  lemma Row301()
    ensures RowFor(ResponseCodeText[10], EnumeratorStatus[10])
  {
  }

  lemma Row302()
    ensures RowFor(ResponseCodeText[11], EnumeratorStatus[11])
  {
  }

  lemma Row303()
    ensures RowFor(ResponseCodeText[12], EnumeratorStatus[12])
  {
  }

  lemma Row304()
    ensures RowFor(ResponseCodeText[13], EnumeratorStatus[13])
  {
  }

  lemma Row305()
    ensures RowFor(ResponseCodeText[14], EnumeratorStatus[14])
  {
  }

  lemma Row307()
    ensures RowFor(ResponseCodeText[15], EnumeratorStatus[15])
  {
  }

  lemma Row400()
    ensures RowFor(ResponseCodeText[16], EnumeratorStatus[16])
  {
  }

  lemma Row401()
    ensures RowFor(ResponseCodeText[17], EnumeratorStatus[17])
  {
  }

  lemma Row402()
    ensures RowFor(ResponseCodeText[18], EnumeratorStatus[18])
  {
  }

  lemma Row403()
    ensures RowFor(ResponseCodeText[19], EnumeratorStatus[19])
  {
  }

  lemma Row404()
    ensures RowFor(ResponseCodeText[20], EnumeratorStatus[20])
  {
  }

  lemma Row405()
    ensures RowFor(ResponseCodeText[21], EnumeratorStatus[21])
  {
  }

  lemma Row406()
    ensures RowFor(ResponseCodeText[22], EnumeratorStatus[22])
  {
  }

  lemma Row407()
    ensures RowFor(ResponseCodeText[23], EnumeratorStatus[23])
  {
  }

  lemma Row408()
    ensures RowFor(ResponseCodeText[24], EnumeratorStatus[24])
  {
  }

  lemma Row409()
    ensures RowFor(ResponseCodeText[25], EnumeratorStatus[25])
  {
  }

  lemma Row410()
    ensures RowFor(ResponseCodeText[26], EnumeratorStatus[26])
  {
  }

  lemma Row411()
    ensures RowFor(ResponseCodeText[27], EnumeratorStatus[27])
  {
  }

  lemma Row412()
    ensures RowFor(ResponseCodeText[28], EnumeratorStatus[28])
  {
  }

  lemma Row413()
    ensures RowFor(ResponseCodeText[29], EnumeratorStatus[29])
  {
  }

  lemma Row414()
    ensures RowFor(ResponseCodeText[30], EnumeratorStatus[30])
  {
  }

  lemma Row415()
    ensures RowFor(ResponseCodeText[31], EnumeratorStatus[31])
  {
  }

  lemma Row416()
    ensures RowFor(ResponseCodeText[32], EnumeratorStatus[32])
  {
  }

  lemma Row417()
    ensures RowFor(ResponseCodeText[33], EnumeratorStatus[33])
  {
  }

  lemma Row500()
    ensures RowFor(ResponseCodeText[34], EnumeratorStatus[34])
  {
  }

  lemma Row501()
    ensures RowFor(ResponseCodeText[35], EnumeratorStatus[35])
  {
  }

  lemma Row502()
    ensures RowFor(ResponseCodeText[36], EnumeratorStatus[36])
  {
  }

  lemma Row503()
    ensures RowFor(ResponseCodeText[37], EnumeratorStatus[37])
  {
  }

  lemma Row504()
    ensures RowFor(ResponseCodeText[38], EnumeratorStatus[38])
  {
  }

  lemma Row505()
    ensures RowFor(ResponseCodeText[39], EnumeratorStatus[39])
  {
  }
}
