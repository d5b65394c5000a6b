/**
 * Types, enumerations and configuration constants of the HTTP server
 * library (http-server.h): the byte type of its buffers, the size macros,
 * the request/version/error enumerations and the method and version
 * literals.
 */
module HttpTypes {

  /** A C `char` / `uint8_t` cell of one of the fixed buffers. */
  type byte = b: int | 0 <= b < 256

  type uint16 = x: int | 0 <= x < 0x1_0000

  const NUL: byte := 0
  const LF: byte := 10
  const CR: byte := 13
  const SP: byte := 32

  // Size and timeout macros, with the defaults of http-server.h.
  const MaxUriLength: nat := 100         // HTTPSERVER_MAX_URI_LENGTH
  const HeadersMaxLength: nat := 1023    // HTTPSERVER_HEADERS_MAX_LENGTH
  const RxBufferDimension: nat := 255    // HTTPSERVER_RX_BUFFER_DIMENSION
  const TxBufferDimension: nat := 255    // HTTPSERVER_TX_BUFFER_DIMENSION
  const Timeout: uint16 := 3000          // HTTPSERVER_TIMEOUT, in clock ticks

  /** Size of the token scratch buffer `tmp` of the request-line parser. */
  const TokenBufferSize: nat := 256

  // Limits that the transport library's configuration defines; the
  // configuration example in http-server.h sets both to 5.
  const MaxListenClient: nat := 5        // ETHERNET_MAX_LISTEN_CLIENT
  const MaxSocketServer: nat := 5        // ETHERNET_MAX_SOCKET_SERVER

  /** HttpServer_Request, in declaration order. */
  datatype Request = Get | Post | Put | Options | Head | Delete | Trace | Connect

  /** HttpServer_Version, in declaration order. */
  datatype Version = Http10 | Http11

  /** HttpServer_Error: there is no overflow outcome. */
  datatype Error =
    | Ok
    | WrongPort
    | WrongSocketNumber
    | WrongClientNumber
    | OpenFail
    | TimedOut
    | WrongRequestFormat
    | OkEmptyLine
    | UriTooLong
    | WrongParam

  /** The method literals HTTPSERVER_STRING_REQUEST_*, in the order of their macros. */
  const RequestLiterals: seq<string> :=
    ["GET", "POST", "PUT", "OPTIONS", "HEAD", "DELETE", "TRACE", "CONNECT"]

  /** The version literals HTTPSERVER_STRING_VERSION_*. */
  const VersionLiterals: seq<string> := ["HTTP/1.0", "HTTP/1.1"]

  /** The value of each Request enumerator. */
  function RequestOrdinal(r: Request): (n: nat)
    ensures n < |RequestLiterals|
  {
    match r
    case Get => 0
    case Post => 1
    case Put => 2
    case Options => 3
    case Head => 4
    case Delete => 5
    case Trace => 6
    case Connect => 7
  }

  function VersionOrdinal(v: Version): (n: nat)
    ensures n < |VersionLiterals|
  {
    match v
    case Http10 => 0
    case Http11 => 1
  }

  /** The method literal that names a request type. */
  function RequestLiteral(r: Request): string
  {
    RequestLiterals[RequestOrdinal(r)]
  }

  function VersionLiteral(v: Version): string
  {
    VersionLiterals[VersionOrdinal(v)]
  }

  /** Reads a method literal back (any of the eight, not only those the parser accepts). */
  function RequestNamed(s: string): (r: Option<Request>)
    ensures r.Some? ==> RequestLiteral(r.value) == s
  {
    if s == "GET" then Some(Get)
    else if s == "POST" then Some(Post)
    else if s == "PUT" then Some(Put)
    else if s == "OPTIONS" then Some(Options)
    else if s == "HEAD" then Some(Head)
    else if s == "DELETE" then Some(Delete)
    else if s == "TRACE" then Some(Trace)
    else if s == "CONNECT" then Some(Connect)
    else None
  }

  function VersionNamed(s: string): (v: Option<Version>)
    ensures v.Some? ==> VersionLiteral(v.value) == s
  {
    if s == "HTTP/1.0" then Some(Http10)
    else if s == "HTTP/1.1" then Some(Http11)
    else None
  }

  /** The literals and the enumerators correspond one-to-one, in order. */
  lemma LiteralsMatchEnums()
    ensures forall r: Request :: RequestNamed(RequestLiteral(r)) == Some(r)
    ensures forall v: Version :: VersionNamed(VersionLiteral(v)) == Some(v)
    ensures forall r, r': Request :: RequestLiteral(r) == RequestLiteral(r') ==> r == r'
  {
  }

  datatype Option<T> = None | Some(value: T)

  // ---------------------------------------------------------------------
  // Text as bytes

  predicate IsAscii(s: string)
  {
    forall k | 0 <= k < |s| :: s[k] as int < 128
  }

  /** The bytes of a C string literal (without its NUL). */
  function Ascii(s: string): (r: seq<byte>)
    requires IsAscii(s)
    ensures |r| == |s|
    ensures forall k | 0 <= k < |s| :: r[k] == s[k] as int
  {
    seq(|s|, k requires 0 <= k < |s| => s[k] as int)
  }

  /** No NUL among the bytes: what a C string holds before its terminator. */
  predicate NulFree(s: seq<byte>)
  {
    forall k | 0 <= k < |s| :: s[k] != NUL
  }
}
