/**
 * The request line as HttpServer_parseRequest reads it (http-server.c:388-477):
 * the scanned bytes are split at every space or NUL, and the tokens closed
 * by such a delimiter are checked in order: method, URI, version. A token
 * still open when the scanned range ends is never looked at.
 *
 * This module holds the specification the parser's loop is proved against:
 * `Split`, the token grammar `Accept` and the per-token step `Check` that
 * the loop performs, with the lemmas that connect them.
 */
module RequestLine {
  import opened HttpTypes

  predicate IsDelimiter(b: byte)
  {
    b == SP || b == NUL
  }

  predicate DelimiterFree(s: seq<byte>)
  {
    forall k | 0 <= k < |s| :: !IsDelimiter(s[k])
  }

  /** The tokens closed by a delimiter, and the bytes after the last delimiter. */
  datatype Tokens = Tokens(closed: seq<seq<byte>>, pending: seq<byte>)

  /** Splits `s` at every space and every NUL, byte by byte from the left. */
  function Split(s: seq<byte>): (t: Tokens)
  {
    if s == [] then Tokens([], [])
    else
      var t := Split(s[..|s| - 1]);
      var b := s[|s| - 1];
      if IsDelimiter(b) then Tokens(t.closed + [t.pending], [])
      else Tokens(t.closed, t.pending + [b])
  }

  /** The closed tokens, each followed by the delimiter `d`. */
  function Join(closed: seq<seq<byte>>, d: byte): seq<byte>
  {
    if closed == [] then []
    else Join(closed[..|closed| - 1], d) + closed[|closed| - 1] + [d]
  }

  /** Joins tokens back with `d` after every closed token. */
  function Unsplit(t: Tokens, d: byte): seq<byte>
  {
    Join(t.closed, d) + t.pending
  }

  /** The tokens and the rest are delimiter-free: each is a C string up to its delimiter. */
  lemma {:induction false} SplitTokensDelimiterFree(s: seq<byte>)
    ensures DelimiterFree(Split(s).pending)
    ensures forall k | 0 <= k < |Split(s).closed| :: DelimiterFree(Split(s).closed[k])
  {
    if s != [] {
      SplitTokensDelimiterFree(s[..|s| - 1]);
    }
  }

  /** Bytes without a delimiter only extend the open token. */
  lemma {:induction false} SplitExtend(s: seq<byte>, rest: seq<byte>)
    requires DelimiterFree(rest)
    ensures Split(s + rest) == Tokens(Split(s).closed, Split(s).pending + rest)
    decreases |rest|
  {
    if rest == [] {
      assert s + rest == s;
    } else {
      var front := rest[..|rest| - 1];
      assert (s + rest)[..|s + rest| - 1] == s + front;
      SplitExtend(s, front);
      assert Split(s).pending + front + [rest[|rest| - 1]] == Split(s).pending + rest;
    }
  }

  /** A delimiter closes the open token. */
  lemma SplitDelimiter(s: seq<byte>, d: byte)
    requires IsDelimiter(d)
    ensures Split(s + [d]) == Tokens(Split(s).closed + [Split(s).pending], [])
  {
    assert (s + [d])[..|s|] == s;
  }

  /** Reading more bytes never changes the tokens already closed. */
  lemma {:induction false} SplitClosedGrows(s: seq<byte>, rest: seq<byte>)
    ensures |Split(s).closed| <= |Split(s + rest).closed|
    ensures Split(s + rest).closed[..|Split(s).closed|] == Split(s).closed
    decreases |rest|
  {
    if rest == [] {
      assert s + rest == s;
    } else {
      var front := rest[..|rest| - 1];
      assert (s + rest)[..|s + rest| - 1] == s + front;
      SplitClosedGrows(s, front);
      var c := Split(s + front).closed;
      var n := |Split(s).closed|;
      if IsDelimiter(rest[|rest| - 1]) {
        assert (c + [Split(s + front).pending])[..n] == c[..n];
      }
    }
  }

  /** Splitting undoes joining with spaces. */
  lemma {:induction false} SplitUnsplit(t: Tokens)
    requires DelimiterFree(t.pending)
    requires forall k | 0 <= k < |t.closed| :: DelimiterFree(t.closed[k])
    ensures Split(Unsplit(t, SP)) == t
    decreases |t.closed|
  {
    if t.closed == [] {
      SplitExtend([], t.pending);
      assert [] + t.pending == t.pending;
    } else {
      var last := |t.closed| - 1;
      var front := t.closed[..last];
      SplitUnsplit(Tokens(front, t.closed[last]));
      var line := Join(front, SP) + t.closed[last];
      SplitDelimiter(line, SP);
      assert front + [t.closed[last]] == t.closed;
      SplitExtend(line + [SP], t.pending);
      assert [] + t.pending == t.pending;
    }
  }

  /** Joining with spaces undoes splitting a line that holds no NUL. */
  lemma {:induction false} UnsplitSplit(s: seq<byte>)
    requires NulFree(s)
    ensures Unsplit(Split(s), SP) == s
    decreases |s|
  {
    if s != [] {
      var front := s[..|s| - 1];
      var b := s[|s| - 1];
      var t := Split(front);
      UnsplitSplit(front);
      if IsDelimiter(b) {
        var c := t.closed + [t.pending];
        assert c[..|c| - 1] == t.closed && c[|c| - 1] == t.pending;
        assert Join(c, SP) == Join(t.closed, SP) + t.pending + [SP];
      } else {
        assert Join(t.closed, SP) + (t.pending + [b]) == (Join(t.closed, SP) + t.pending) + [b];
      }
      assert front + [b] == s;
    }
  }

  // ---------------------------------------------------------------------
  // Token grammar

  /** The fields of the message a parse has written. */
  datatype Fields = Fields(request: Option<Request>, uri: Option<seq<byte>>, version: Option<Version>)

  datatype Parsed = Parsed(err: Error, fields: Fields)

  const NoFields := Fields(None, None, None)

  // The bytes of the literals the parser compares tokens with.
  const GetToken: seq<byte> := [0x47, 0x45, 0x54]                                // "GET"
  const PostToken: seq<byte> := [0x50, 0x4F, 0x53, 0x54]                         // "POST"
  const Http10Token: seq<byte> := [0x48, 0x54, 0x54, 0x50, 0x2F, 0x31, 0x2E, 0x30]  // "HTTP/1.0"
  const Http11Token: seq<byte> := [0x48, 0x54, 0x54, 0x50, 0x2F, 0x31, 0x2E, 0x31]  // "HTTP/1.1"

  /** The four byte strings are those of the literals. */
  lemma TokensAreLiterals()
    ensures GetToken == Ascii(RequestLiteral(Get)) && PostToken == Ascii(RequestLiteral(Post))
    ensures Http10Token == Ascii(VersionLiteral(Http10)) && Http11Token == Ascii(VersionLiteral(Http11))
  {
  }

  /** strcmp against the two method literals the parser accepts. */
  function MethodOf(token: seq<byte>): (r: Option<Request>)
    ensures r.Some? ==> r.value == Get || r.value == Post
    ensures r == Some(Get) <==> token == GetToken
    ensures r == Some(Post) <==> token == PostToken
  {
    if token == GetToken then Some(Get)
    else if token == PostToken then Some(Post)
    else None
  }

  /** strcmp against the two version literals. */
  function VersionOf(token: seq<byte>): (r: Option<Version>)
    ensures r == Some(Http10) <==> token == Http10Token
    ensures r == Some(Http11) <==> token == Http11Token
  {
    if token == Http10Token then Some(Http10)
    else if token == Http11Token then Some(Http11)
    else None
  }

  /**
   * The closed tokens, read as a request line: a method the server accepts,
   * a URI shorter than HTTPSERVER_MAX_URI_LENGTH, a version, and nothing
   * more. The fields are those written before the first rejection.
   */
  function Accept(tokens: seq<seq<byte>>): (p: Parsed)
    ensures p.fields.uri.Some? ==> |p.fields.uri.value| < MaxUriLength
  {
    if |tokens| == 0 then Parsed(Ok, NoFields)
    else
      var m := MethodOf(tokens[0]);
      if m.None? then Parsed(WrongRequestFormat, NoFields)
      else if |tokens| == 1 then Parsed(Ok, Fields(m, None, None))
      else if |tokens[1]| >= MaxUriLength then Parsed(UriTooLong, Fields(m, None, None))
      else if |tokens| == 2 then Parsed(Ok, Fields(m, Some(tokens[1]), None))
      else
        var v := VersionOf(tokens[2]);
        if v.None? then Parsed(WrongRequestFormat, Fields(m, Some(tokens[1]), None))
        else if |tokens| == 3 then Parsed(Ok, Fields(m, Some(tokens[1]), v))
        else Parsed(WrongRequestFormat, Fields(m, Some(tokens[1]), v))
  }

  /** What HttpServer_parseRequest reports, and writes, for the scanned bytes. */
  function ParseLine(scanned: seq<byte>): Parsed
  {
    Accept(Split(scanned).closed)
  }

  /**
   * What the parser's loop does with the `index`-th closed token when all
   * earlier ones were accepted: the branch on `numArgs`.
   */
  function Check(p: Parsed, index: nat, token: seq<byte>): (q: Parsed)
  {
    if index == 0 then
      var m := MethodOf(token);
      if m.None? then Parsed(WrongRequestFormat, p.fields)
      else Parsed(Ok, p.fields.(request := m))
    else if index == 1 then
      if |token| < MaxUriLength then Parsed(Ok, p.fields.(uri := Some(token)))
      else Parsed(UriTooLong, p.fields)
    else if index == 2 then
      var v := VersionOf(token);
      if v.None? then Parsed(WrongRequestFormat, p.fields)
      else Parsed(Ok, p.fields.(version := v))
    else Parsed(WrongRequestFormat, p.fields)
  }

  /** The loop's step agrees with the grammar: checking one more closed token. */
  lemma AcceptStep(tokens: seq<seq<byte>>, token: seq<byte>)
    requires Accept(tokens).err == Ok
    ensures Accept(tokens + [token]) == Check(Accept(tokens), |tokens|, token)
  {
    var t := tokens + [token];
    assert t[..|tokens|] == tokens && t[|tokens|] == token;
    if |tokens| >= 1 {
      assert t[0] == tokens[0];
    }
    if |tokens| >= 2 {
      assert t[1] == tokens[1];
    }
    if |tokens| >= 3 {
      assert t[2] == tokens[2];
    }
  }

  /** A rejection is final: later tokens change neither the error nor the fields. */
  lemma RejectionIsFinal(tokens: seq<seq<byte>>, more: seq<seq<byte>>)
    requires Accept(tokens).err != Ok
    ensures Accept(tokens + more) == Accept(tokens)
  {
    var t := tokens + more;
    assert |tokens| >= 1 && t[0] == tokens[0];
    if |tokens| >= 2 {
      assert t[1] == tokens[1];
    }
    if |tokens| >= 3 {
      assert t[2] == tokens[2];
    }
  }

  /**
   * Once the tokens closed so far are rejected, the bytes scanned after
   * them change nothing: the parser has returned.
   */
  lemma RejectedPrefixDecides(scanned: seq<byte>, rest: seq<byte>)
    requires Accept(Split(scanned).closed).err != Ok
    ensures ParseLine(scanned + rest) == ParseLine(scanned)
  {
    var closed := Split(scanned).closed;
    var all := Split(scanned + rest).closed;
    SplitClosedGrows(scanned, rest);
    assert all == closed + all[|closed|..];
    RejectionIsFinal(closed, all[|closed|..]);
  }

  /** Once a prefix of a line is refused, the whole line is refused alike. */
  lemma RejectedLine(line: seq<byte>, k: nat)
    requires k <= |line| && Accept(Split(line[..k]).closed).err != Ok
    ensures ParseLine(line) == ParseLine(line[..k])
  {
    RejectedPrefixDecides(line[..k], line[k..]);
    assert line[..k] + line[k..] == line;
  }

  /** Only tokens 0 to 3 matter: a request line is three tokens. */
  lemma AcceptReadsFourTokens(tokens: seq<seq<byte>>, other: seq<seq<byte>>)
    requires |tokens| >= 4 && |other| >= 4 && tokens[..4] == other[..4]
    ensures Accept(tokens) == Accept(other)
  {
    assert tokens[0] == other[0] && tokens[1] == other[1] && tokens[2] == other[2];
  }

  /** The parse succeeds exactly for the prefixes of a well-formed request line. */
  lemma AcceptOkExactly(tokens: seq<seq<byte>>)
    ensures Accept(tokens).err == Ok <==>
              && |tokens| <= 3
              && (|tokens| >= 1 ==> MethodOf(tokens[0]).Some?)
              && (|tokens| >= 2 ==> |tokens[1]| < MaxUriLength)
              && (|tokens| >= 3 ==> VersionOf(tokens[2]).Some?)
  {
  }

  // ---------------------------------------------------------------------
  // Consequences for request lines

  /** A token still open when the scanned range ends is ignored. */
  lemma TrailingTokenIgnored(scanned: seq<byte>, rest: seq<byte>)
    requires DelimiterFree(rest)
    ensures ParseLine(scanned + rest) == ParseLine(scanned)
  {
    SplitExtend(scanned, rest);
  }

  /** A line with no space (and no NUL) is accepted and sets nothing. */
  lemma NoDelimiterSetsNothing(scanned: seq<byte>)
    requires DelimiterFree(scanned)
    ensures ParseLine(scanned) == Parsed(Ok, NoFields)
  {
    TrailingTokenIgnored([], scanned);
    assert [] + scanned == scanned;
  }

  /** The closed tokens of `verb SP uri SP rest`, rest without a delimiter. */
  lemma SplitRequestLine(verb: seq<byte>, uri: seq<byte>, rest: seq<byte>)
    requires DelimiterFree(verb) && DelimiterFree(uri) && DelimiterFree(rest)
    ensures Split(verb + [SP] + uri + [SP] + rest) == Tokens([verb, uri], rest)
  {
    SplitExtend([], verb);
    assert [] + verb == verb;
    SplitDelimiter(verb, SP);
    SplitExtend(verb + [SP], uri);
    assert [] + uri == uri;
    SplitDelimiter(verb + [SP] + uri, SP);
    SplitExtend(verb + [SP] + uri + [SP], rest);
  }

  /**
   * A request line `verb SP uri SP version` as poll hands it over (no
   * delimiter after the version) sets the method and the URI, and never
   * checks or sets the version.
   */
  lemma VersionNeverChecked(verb: seq<byte>, uri: seq<byte>, version: seq<byte>)
    requires MethodOf(verb).Some? && DelimiterFree(uri) && |uri| < MaxUriLength
    requires DelimiterFree(version)
    ensures ParseLine(verb + [SP] + uri + [SP] + version)
            == Parsed(Ok, Fields(MethodOf(verb), Some(uri), None))
  {
    SplitRequestLine(verb, uri, version);
  }

  /** A URI of HTTPSERVER_MAX_URI_LENGTH bytes or more is refused, and not stored. */
  lemma LongUriRefused(verb: seq<byte>, uri: seq<byte>, rest: seq<byte>)
    requires MethodOf(verb).Some? && DelimiterFree(uri) && |uri| >= MaxUriLength
    requires DelimiterFree(rest)
    ensures ParseLine(verb + [SP] + uri + [SP] + rest)
            == Parsed(UriTooLong, Fields(MethodOf(verb), None, None))
  {
    SplitRequestLine(verb, uri, rest);
  }

  /** Of the eight method literals only "GET" and "POST" are recognised. */
  lemma MethodOfLiteral(r: Request)
    ensures IsAscii(RequestLiteral(r)) && DelimiterFree(Ascii(RequestLiteral(r)))
    ensures MethodOf(Ascii(RequestLiteral(r))) == if r == Get || r == Post then Some(r) else None
  {
    TokensAreLiterals();
    var m := Ascii(RequestLiteral(r));
    match r
    case Get =>
    case Post =>
    case Put => assert m[0] != GetToken[0] && |m| != |PostToken|;
    case Options => assert |m| != |GetToken| && |m| != |PostToken|;
    case Head => assert |m| != |GetToken| && m[0] != PostToken[0];
    case Delete => assert |m| != |GetToken| && |m| != |PostToken|;
    case Trace => assert |m| != |GetToken| && |m| != |PostToken|;
    case Connect => assert |m| != |GetToken| && |m| != |PostToken|;
  }

  /**
   * A first token that is not "GET" or "POST" (among them the six other
   * method literals) is refused before anything is written.
   */
  lemma UnknownMethodRefused(verb: seq<byte>, rest: seq<byte>)
    requires DelimiterFree(verb) && MethodOf(verb).None?
    ensures ParseLine(verb + [SP] + rest) == Parsed(WrongRequestFormat, NoFields)
  {
    SplitExtend([], verb);
    assert [] + verb == verb;
    SplitDelimiter(verb, SP);
    assert Split(verb + [SP]).closed == [verb];
    RejectedPrefixDecides(verb + [SP], rest);
  }

  lemma SplitFourTokens(verb: seq<byte>, uri: seq<byte>, version: seq<byte>, extra: seq<byte>)
    requires DelimiterFree(verb) && DelimiterFree(uri) && DelimiterFree(version) && DelimiterFree(extra)
    ensures Split(verb + [SP] + uri + [SP] + version + [SP] + extra + [SP]).closed
            == [verb, uri, version, extra]
  {
    var two := verb + [SP] + uri + [SP];
    assert two + [] == two;
    SplitRequestLine(verb, uri, []);
    SplitExtend(two, version);
    assert [] + version == version;
    SplitDelimiter(two + version, SP);
    SplitExtend(two + version + [SP], extra);
    assert [] + extra == extra;
    SplitDelimiter(two + version + [SP] + extra, SP);
  }

  /**
   * With a delimiter after the version a fourth closed token is rejected,
   * after the verb, the URI and the version have been written.
   */
  lemma FourthTokenRejected(verb: seq<byte>, uri: seq<byte>, version: seq<byte>,
                            extra: seq<byte>, rest: seq<byte>)
    requires MethodOf(verb).Some? && DelimiterFree(uri) && |uri| < MaxUriLength
    requires VersionOf(version).Some? && DelimiterFree(extra)
    requires DelimiterFree(verb) && DelimiterFree(version)
    ensures ParseLine(verb + [SP] + uri + [SP] + version + [SP] + extra + [SP] + rest)
            == Parsed(WrongRequestFormat, Fields(MethodOf(verb), Some(uri), VersionOf(version)))
  {
    var head := verb + [SP] + uri + [SP] + version + [SP] + extra + [SP];
    var c := [verb, uri, version, extra];
    var closed := Split(head + rest).closed;
    SplitFourTokens(verb, uri, version, extra);
    assert closed == c + closed[4..] by {
      SplitClosedGrows(head, rest);
    }
    RejectionIsFinal(c, closed[4..]);
  }
}
