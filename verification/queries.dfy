/** The header queries a request answers (app/main.go `getHeader`,
    `getUserAgent`, `getContentType`, `shouldCloseConnectionAfterReq`,
    `getClientEncodingSchemes`, `getResponseEncoding`, `getContentLength`). */
module RequestQueries {
  import opened Options
  import opened GoStrings
  import opened GoStrconv
  import opened HttpRequest
  import opened Protocol

  /** Case-insensitive lookup: the name is lower-cased before the map is
      consulted. */
  function GetHeader(req: Request, headerName: string): Option<string>
  {
    var key := ToLower(headerName);
    if key in req.headers then Some(req.headers[key]) else None
  }

  /** The value of a header, or "" when it is absent. */
  function HeaderValue(req: Request, headerName: string): string
  {
    match GetHeader(req, headerName)
    case Some(value) => value
    case None => ""
  }

  function UserAgent(req: Request): string
  {
    HeaderValue(req, UserAgentHeader)
  }

  function ContentType(req: Request): string
  {
    HeaderValue(req, ContentTypeHeader)
  }

  /** The keep-alive decision: close after this request exactly when the
      Connection value is `close`, compared case-sensitively. */
  predicate ShouldCloseConnection(req: Request)
  {
    HeaderValue(req, ConnectionHeader) == ConnectionClose
  }

  /** The entries of Accept-Encoding, or none when the header is absent. */
  function ClientEncodingSchemes(req: Request): seq<string>
  {
    match GetHeader(req, AcceptEncodingHeader)
    case None => []
    case Some(value) => Split(value, EncodingSep)
  }

  /** The first entry the server supports, or "". */
  function FirstSupported(schemes: seq<string>): (encoding: string)
    ensures encoding == "" || encoding == Gzip
    ensures encoding == Gzip <==> Gzip in schemes
    decreases |schemes|
  {
    if |schemes| == 0 then ""
    else if schemes[0] in SupportedEncodings then schemes[0]
    else FirstSupported(schemes[1..])
  }

  /** The negotiated content coding: gzip exactly when Accept-Encoding is
      present and lists `gzip` as one of its `", "`-separated entries. */
  function ResponseEncoding(req: Request): (encoding: string)
    ensures encoding == "" || encoding == Gzip
    ensures encoding == Gzip <==>
      GetHeader(req, AcceptEncodingHeader).Some? && Gzip in Split(GetHeader(req, AcceptEncodingHeader).value, EncodingSep)
    ensures GetHeader(req, AcceptEncodingHeader).None? ==> encoding == ""
  {
    FirstSupported(ClientEncodingSchemes(req))
  }

  /** The declared body length, 0 when absent or unreadable. */
  function ContentLength(req: Request): int
  {
    Atoi(HeaderValue(req, ContentLengthHeader))
  }

  // ---------------------------------------------------------------------
  // Lemmas
  // ---------------------------------------------------------------------

  /** Lookup ignores the capitalisation of the name asked for. */
  lemma GetHeaderIgnoresCase(req: Request, a: string, b: string)
    requires ToLower(a) == ToLower(b)
    ensures GetHeader(req, a) == GetHeader(req, b)
  {
  }

  /** On a parsed request, asking for a field by its name in any
      capitalisation (with the trailing `": "`) finds the value of the last
      line that carries that name. */
  lemma LookupFindsField(buffer: string, headerName: string, i: int)
    requires Parsable(buffer)
    requires LastDefines(HeaderLines(buffer), ToLower(headerName), i)
    ensures GetHeader(NewRequest(buffer), headerName) == Some(FieldValue(HeaderLines(buffer)[i]))
  {
    CollectHeadersLastWins(HeaderLines(buffer), ToLower(headerName), i);
  }

  /** On a parsed request, a name no header line carries is not found. */
  lemma LookupMisses(buffer: string, headerName: string)
    requires Parsable(buffer)
    requires forall i :: 0 <= i < |HeaderLines(buffer)| ==> !DefinesKey(HeaderLines(buffer)[i], ToLower(headerName))
    ensures GetHeader(NewRequest(buffer), headerName) == None
  {
    CollectHeadersKeys(HeaderLines(buffer), ToLower(headerName));
  }

  /** The keep-alive decision reads the Connection header exactly. */
  lemma ShouldCloseExactly(req: Request)
    ensures ShouldCloseConnection(req) <==> GetHeader(req, ConnectionHeader) == Some(ConnectionClose)
    ensures GetHeader(req, ConnectionHeader) == Some("Close") ==> !ShouldCloseConnection(req)
  {
  }

  /** Content-Length: 0 when absent; the value of a signed digit string,
      saturated to 64 bits; 0 for anything else whose digits before the first
      bad byte do not already overflow. */
  lemma ContentLengthValue(req: Request)
    ensures GetHeader(req, ContentLengthHeader).None? ==> ContentLength(req) == 0
    ensures var s := HeaderValue(req, ContentLengthHeader);
      |Unsigned(s)| > 0 && AllDigits(Unsigned(s)) ==>
        var v := DecimalValue(Unsigned(s));
        ContentLength(req) == if Negative(s) then (if v > -MinInt64 then MinInt64 else -(v as int))
                              else (if v > MaxInt64 then MaxInt64 else v)
    ensures var s := HeaderValue(req, ContentLengthHeader);
      (|Unsigned(s)| == 0 || !AllDigits(Unsigned(s))) && |s| < 19 ==> ContentLength(req) == 0
  {
    var s := HeaderValue(req, ContentLengthHeader);
    if |Unsigned(s)| > 0 && AllDigits(Unsigned(s)) {
      AtoiOfDigits(s);
    }
    if (|Unsigned(s)| == 0 || !AllDigits(Unsigned(s))) && 0 < |s| < 19 {
      FastPathAgrees(s);
    }
  }
}
