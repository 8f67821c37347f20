/** Request dispatch (app/main.go `handleRequest`), the file routes
    (`handleGetFileRequest`, `handlePostFileRequest`) over a store of file
    contents, and the keep-alive loop of `handleConnection` seen as the
    sequence of requests it hands on. */
module Server {
  import opened Options
  import opened GoStrings
  import opened GoStrconv
  import opened Protocol
  import opened HttpMessage
  import opened HttpRequest
  import opened RequestQueries
  import opened HttpPath
  import opened HttpResponse
  import opened RequestWriter
  import opened KeepAlive

  /** The data directory: file name to file contents. A name that cannot be
      opened or read is absent. */
  type Store = map<string, string>

  /** What handling one request produces: the text written back, and the
      data directory afterwards. */
  datatype Outcome = Outcome(response: string, store: Store)

  // Route keys and the verbs the files route distinguishes
  const EchoRoute: string := "echo"
  const UserAgentRoute: string := "user-agent"
  const FilesRoute: string := "files"
  const GetVerb: string := "GET"
  const PostVerb: string := "POST"

  /** An upload: a POST on the files route. */
  predicate IsFilesPost(req: Request)
  {
    Primary(req.path) == FilesRoute && req.verb == PostVerb
  }

  /** An upload slices the body to the declared length, which must lie
      within the body. */
  predicate CanHandle(req: Request)
  {
    IsFilesPost(req) ==> 0 <= ContentLength(req) <= |req.body|
  }

  /** The empty name is the data directory itself, not a file in it:
      reading it fails, and writing it fails without a word. */
  predicate NamesFile(filename: string)
  {
    filename != ""
  }

  /** A download: the file's contents as an octet stream, or 404 when the
      file cannot be opened or read. */
  function HandleGetFile(req: Request, store: Store, filename: string, compress: Compressor): string
  {
    if NamesFile(filename) && filename in store then OKResponse(req, store[filename], OctetStream, compress)
    else NotFoundResponse(req)
  }

  /** An upload: the file becomes the first Content-Length bytes of the
      body; every other file is left alone. Writing the directory itself
      changes nothing. */
  function HandlePostFile(req: Request, store: Store, filename: string): (after: Store)
    requires 0 <= ContentLength(req) <= |req.body|
    ensures !NamesFile(filename) ==> after == store
    ensures NamesFile(filename) ==>
      && after.Keys == store.Keys + {filename}
      && after[filename] == req.body[..ContentLength(req)]
      && |after[filename]| == ContentLength(req) && after[filename] <= req.body
    ensures forall k :: k in store && k != filename ==> k in after && after[k] == store[k]
  {
    if NamesFile(filename) then store[filename := req.body[..ContentLength(req)]] else store
  }

  /** One request handled: the route key picks the handler; the argument
      after it is the echo text or the file name. Only an upload changes
      the store. */
  function HandleRequest(req: Request, store: Store, compress: Compressor): (out: Outcome)
    requires CanHandle(req)
    ensures !IsFilesPost(req) ==> out.store == store
    ensures IsFilesPost(req) && NamesFile(Argument(req.path)) ==>
      && out.store.Keys == store.Keys + {Argument(req.path)}
      && out.store[Argument(req.path)] == req.body[..ContentLength(req)]
      && forall k :: k in store && k != Argument(req.path) ==> out.store[k] == store[k]
    ensures IsFilesPost(req) && !NamesFile(Argument(req.path)) ==> out.store == store
  {
    var route := Primary(req.path);
    var argument := Argument(req.path);
    if route == "" then Outcome(OKResponse(req, "", "", compress), store)
    else if route == EchoRoute then Outcome(OKResponse(req, argument, PlainText, compress), store)
    else if route == UserAgentRoute then Outcome(OKResponse(req, UserAgent(req), PlainText, compress), store)
    else if route == FilesRoute then
      if req.verb == GetVerb then Outcome(HandleGetFile(req, store, argument, compress), store)
      else if req.verb == PostVerb then Outcome(CreatedResponse, HandlePostFile(req, store, argument))
      else Outcome(NotFoundResponse(req), store)
    else Outcome(NotFoundResponse(req), store)
  }

  // ---------------------------------------------------------------------
  // Routes as a client reads them back
  // ---------------------------------------------------------------------

  lemma StatusLinesDistinct()
    ensures StatusOK != StatusCreated && StatusOK != StatusNotFound && StatusCreated != StatusNotFound
  {
    assert |StatusOK| == 15 && |StatusCreated| == 20 && |StatusNotFound| == 22;
  }

  lemma ContentTypesSingleLine()
    ensures NoChar(PlainText, '\n') && NoChar(OctetStream, '\n') && NoChar("", '\n')
  {
  }

  /** Every response is a well-framed message with status 200, 201 or 404;
      it is 201 exactly for an upload, and the 201 carries no header at all,
      so in particular never `Connection: close`, and no body. */
  lemma HandleRequestResponds(req: Request, store: Store, compress: Compressor)
    requires CanHandle(req)
    ensures var m := ParseMessage(HandleRequest(req, store, compress).response);
      && m.Some?
      && (m.value.startLine == StatusOK || m.value.startLine == StatusCreated || m.value.startLine == StatusNotFound)
      && (m.value.startLine == StatusCreated <==> IsFilesPost(req))
      && (IsFilesPost(req) ==> m.value.fields == [] && m.value.body == "")
  {
    StatusLinesDistinct();
    ContentTypesSingleLine();
    var route := Primary(req.path);
    var argument := Argument(req.path);
    if route == "" {
      OKResponseReadsBack(req, "", "", compress);
    } else if route == EchoRoute {
      OKResponseReadsBack(req, argument, PlainText, compress);
    } else if route == UserAgentRoute {
      OKResponseReadsBack(req, UserAgent(req), PlainText, compress);
    } else if route == FilesRoute && req.verb == GetVerb {
      if NamesFile(argument) && argument in store {
        OKResponseReadsBack(req, store[argument], OctetStream, compress);
      } else {
        NotFoundReadsBack(req);
      }
    } else if route == FilesRoute && req.verb == PostVerb {
      CreatedReadsBack();
    } else {
      NotFoundReadsBack(req);
    }
  }

  /** The echo route answers 200 with `text/plain` and the argument as the
      body (compressed when gzip was negotiated), whatever the verb; the
      bare `/echo` echoes the empty argument, which gzip still turns into a
      non-empty stream. */
  lemma EchoRoundTrip(req: Request, store: Store, compress: Compressor)
    requires Primary(req.path) == EchoRoute
    ensures var m := ParseMessage(HandleRequest(req, store, compress).response);
      && m.Some? && m.value.startLine == StatusOK
      && m.value.body == EmittedBody(req, Argument(req.path), compress)
      && FieldValueOf(m.value.fields, ContentTypeName) == Some(PlainText)
  {
    ContentTypesSingleLine();
    OKResponseReadsBack(req, Argument(req.path), PlainText, compress);
  }

  /** `/echo/<text>` echoes the text, whatever it holds, further slashes
      included. */
  lemma EchoText(req: Request, text: string, store: Store, compress: Compressor)
    requires req.path == "/" + EchoRoute + "/" + text
    ensures Primary(req.path) == EchoRoute && Argument(req.path) == text
    ensures var m := ParseMessage(HandleRequest(req, store, compress).response);
      && m.Some? && m.value.startLine == StatusOK
      && m.value.body == EmittedBody(req, text, compress)
  {
    assert NoChar(EchoRoute, '/');
    DecomposeCompose(EchoRoute, text);
    EchoRoundTrip(req, store, compress);
  }

  /** The user-agent route answers 200 with `text/plain` and the User-Agent
      value as the body, whatever follows the route key. */
  lemma UserAgentRoundTrip(req: Request, store: Store, compress: Compressor)
    requires Primary(req.path) == UserAgentRoute
    ensures var m := ParseMessage(HandleRequest(req, store, compress).response);
      && m.Some? && m.value.startLine == StatusOK
      && m.value.body == EmittedBody(req, UserAgent(req), compress)
      && FieldValueOf(m.value.fields, ContentTypeName) == Some(PlainText)
  {
    ContentTypesSingleLine();
    OKResponseReadsBack(req, UserAgent(req), PlainText, compress);
  }

  /** The exact target `/user-agent` takes the user-agent route. */
  lemma UserAgentTarget(req: Request, store: Store, compress: Compressor)
    requires req.path == "/" + UserAgentRoute
    ensures Primary(req.path) == UserAgentRoute
    ensures var m := ParseMessage(HandleRequest(req, store, compress).response);
      && m.Some? && m.value.startLine == StatusOK
      && m.value.body == EmittedBody(req, UserAgent(req), compress)
  {
    assert NoChar(UserAgentRoute, '/');
    SingleSegment(UserAgentRoute);
    UserAgentRoundTrip(req, store, compress);
  }

  /** An empty route key (the target `/`, the empty target, or one starting
      `//`) answers 200 with no Content-Type and nothing but a possibly
      compressed empty body. */
  lemma RootAnswersOK(req: Request, store: Store, compress: Compressor)
    requires Primary(req.path) == ""
    ensures var m := ParseMessage(HandleRequest(req, store, compress).response);
      && m.Some? && m.value.startLine == StatusOK
      && m.value.body == EmittedBody(req, "", compress)
      && FieldValueOf(m.value.fields, ContentTypeName) == None
  {
    ContentTypesSingleLine();
    OKResponseReadsBack(req, "", "", compress);
  }

  /** Any other route key answers 404, and so does the files route under a
      verb other than GET and POST. The 404 carries `Connection: close`
      exactly when the request asked to close, and no body. */
  lemma OtherRoutesNotFound(req: Request, store: Store, compress: Compressor)
    requires CanHandle(req)
    requires var route := Primary(req.path);
      || (route != "" && route != EchoRoute && route != UserAgentRoute && route != FilesRoute)
      || (route == FilesRoute && req.verb != GetVerb && req.verb != PostVerb)
    ensures var m := ParseMessage(HandleRequest(req, store, compress).response);
      && m.Some? && m.value.startLine == StatusNotFound && m.value.body == ""
      && (FieldValueOf(m.value.fields, ConnectionName) == Some(ConnectionClose) <==> ShouldCloseConnection(req))
      && HandleRequest(req, store, compress).store == store
  {
    NotFoundReadsBack(req);
  }

  /** `GET /files/<name>` answers 200 with the stored contents as an octet
      stream when the file exists, and 404 otherwise, always for the empty
      name. */
  lemma DownloadAnswers(req: Request, name: string, store: Store, compress: Compressor)
    requires req.path == "/" + FilesRoute + "/" + name && req.verb == GetVerb
    ensures var m := ParseMessage(HandleRequest(req, store, compress).response);
      && m.Some?
      && (NamesFile(name) && name in store ==>
           && m.value.startLine == StatusOK
           && m.value.body == EmittedBody(req, store[name], compress)
           && FieldValueOf(m.value.fields, ContentTypeName) == Some(OctetStream))
      && (!NamesFile(name) || name !in store ==> m.value.startLine == StatusNotFound && m.value.body == "")
  {
    assert NoChar(FilesRoute, '/');
    DecomposeCompose(FilesRoute, name);
    assert GetVerb != PostVerb;
    ContentTypesSingleLine();
    if NamesFile(name) && name in store {
      OKResponseReadsBack(req, store[name], OctetStream, compress);
    } else {
      NotFoundReadsBack(req);
    }
  }

  /** Uploading `name` and then downloading it gives back the first
      Content-Length bytes of the uploaded body; for the empty name the
      download still answers 404. */
  lemma UploadThenDownload(post: Request, get: Request, name: string, store: Store, compress: Compressor)
    requires post.path == "/" + FilesRoute + "/" + name && post.verb == PostVerb
    requires get.path == "/" + FilesRoute + "/" + name && get.verb == GetVerb
    requires 0 <= ContentLength(post) <= |post.body|
    ensures var stored := HandleRequest(post, store, compress).store;
      var m := ParseMessage(HandleRequest(get, stored, compress).response);
      && m.Some?
      && (NamesFile(name) ==>
           && m.value.startLine == StatusOK
           && m.value.body == EmittedBody(get, post.body[..ContentLength(post)], compress))
      && (!NamesFile(name) ==> m.value.startLine == StatusNotFound)
  {
    assert NoChar(FilesRoute, '/');
    DecomposeCompose(FilesRoute, name);
    var stored := HandleRequest(post, store, compress).store;
    assert NamesFile(name) ==> stored[name] == post.body[..ContentLength(post)];
    DownloadAnswers(get, name, stored, compress);
  }

  // ---------------------------------------------------------------------
  // The keep-alive loop
  // ---------------------------------------------------------------------

  /** One read from the connection: `None` when the read failed, else the
      buffer text. */
  type ReadResult = Option<string>

  /** The buffer parses to a request that asks to close the connection. */
  predicate ClosesAfter(buffer: string)
  {
    Parsable(buffer) && ShouldCloseConnection(NewRequest(buffer))
  }

  /** Every buffer the loop parses can be parsed: those up to and including
      the first one asking to close. */
  predicate ParsableUntilClose(attempts: seq<ReadResult>)
  {
    OkUntilStop(attempts, Parsable, ClosesAfter)
  }

  /** The requests the loop hands to `handleRequest`, in order: a failed read
      is skipped, every received buffer is parsed, and the loop stops after
      the first request asking to close. */
  function Dispatched(attempts: seq<ReadResult>): (reqs: seq<Request>)
    requires ParsableUntilClose(attempts)
    ensures |reqs| == |Taken(attempts, Parsable, ClosesAfter)|
    ensures forall i :: 0 <= i < |reqs| - 1 ==> !ShouldCloseConnection(reqs[i])
  {
    Apply(Taken(attempts, Parsable, ClosesAfter), NewRequest)
  }

  /** Every received buffer can be parsed. */
  predicate AllParsable(attempts: seq<ReadResult>)
  {
    AllOk(attempts, Parsable)
  }

  /** Every received buffer parsed, ignoring the keep-alive decision. */
  function Requests(attempts: seq<ReadResult>): (reqs: seq<Request>)
    requires AllParsable(attempts)
    ensures |reqs| == |Delivered(attempts)|
  {
    DeliveredOk(attempts, Parsable);
    Apply(Delivered(attempts), NewRequest)
  }

  /** What the loop dispatches is the received requests up to and including
      the first that asks to close, or all of them when none does. */
  lemma DispatchedUpToClose(attempts: seq<ReadResult>)
    requires AllParsable(attempts)
    ensures ParsableUntilClose(attempts)
    ensures Dispatched(attempts) <= Requests(attempts)
    ensures |Dispatched(attempts)| == |Requests(attempts)| ||
      (|Dispatched(attempts)| > 0 && ShouldCloseConnection(Dispatched(attempts)[|Dispatched(attempts)| - 1]))
  {
    AppliedUpToStop(attempts, Parsable, ClosesAfter, NewRequest, ShouldCloseConnection);
  }

  /** Nothing read after a request asking to close is consumed. */
  lemma NothingAfterClose(attempts: seq<ReadResult>, later: seq<ReadResult>)
    requires ParsableUntilClose(attempts)
    requires |Dispatched(attempts)| > 0 && ShouldCloseConnection(Dispatched(attempts)[|Dispatched(attempts)| - 1])
    ensures ParsableUntilClose(attempts + later)
    ensures Dispatched(attempts + later) == Dispatched(attempts)
  {
    var taken := Taken(attempts, Parsable, ClosesAfter);
    assert ClosesAfter(taken[|taken| - 1]);
    NothingAfterStop(attempts, later, Parsable, ClosesAfter);
  }

  /** The dispatched requests served one after another: the responses in
      order and the store at the end. */
  datatype Served = Served(responses: seq<string>, store: Store)

  predicate AllHandleable(reqs: seq<Request>)
  {
    forall i :: 0 <= i < |reqs| ==> CanHandle(reqs[i])
  }

  function ServeInOrder(reqs: seq<Request>, store: Store, compress: Compressor): (out: Served)
    requires AllHandleable(reqs)
    ensures |out.responses| == |reqs|
    decreases |reqs|
  {
    if |reqs| == 0 then Served([], store)
    else
      var first := HandleRequest(reqs[0], store, compress);
      var rest := ServeInOrder(reqs[1..], first.store, compress);
      Served([first.response] + rest.responses, rest.store)
  }

  /** Without an upload among them, serving requests leaves the store as it
      was, and each response is the one the request gets on its own. */
  lemma {:induction false} ReadOnlyServing(reqs: seq<Request>, store: Store, compress: Compressor)
    requires AllHandleable(reqs)
    requires forall i :: 0 <= i < |reqs| ==> !IsFilesPost(reqs[i])
    ensures ServeInOrder(reqs, store, compress).store == store
    ensures forall i :: 0 <= i < |reqs| ==>
      ServeInOrder(reqs, store, compress).responses[i] == HandleRequest(reqs[i], store, compress).response
    decreases |reqs|
  {
    if |reqs| > 0 {
      var first := HandleRequest(reqs[0], store, compress);
      assert first.store == store;
      ReadOnlyServing(reqs[1..], store, compress);
      var rest := ServeInOrder(reqs[1..], store, compress);
      var all := ServeInOrder(reqs, store, compress);
      assert all.responses == [first.response] + rest.responses;
      forall i | 0 < i < |reqs|
        ensures all.responses[i] == HandleRequest(reqs[i], store, compress).response
      {
        assert all.responses[i] == rest.responses[i - 1];
        assert reqs[1..][i - 1] == reqs[i];
      }
    }
  }

  // ---------------------------------------------------------------------
  // The read buffer
  // ---------------------------------------------------------------------

  /** The size of the buffer each read fills. */
  const ConnBufferSize: nat := 1024

  /** `n` zero bytes. */
  function Zeros(n: nat): (z: string)
    ensures |z| == n && forall k :: 0 <= k < n ==> z[k] == 0 as char
  {
    seq(n, _ => 0 as char)
  }

  /** The text the parser sees after one read of `data`: the bytes read,
      then the zero bytes of the rest of the fresh buffer. */
  function ReadBuffer(data: string): (buffer: string)
    requires |data| <= ConnBufferSize
    ensures |buffer| == ConnBufferSize && data <= buffer
    ensures forall k :: |data| <= k < |buffer| ==> buffer[k] == 0 as char
  {
    data + Zeros(ConnBufferSize - |data|)
  }

  /** Zero bytes after a body add no empty line to it. */
  lemma PaddingAddsNoHeaderEnd(body: string, n: nat)
    requires !Contains(body, HeaderEnd)
    ensures !Contains(body + Zeros(n), HeaderEnd)
  {
    var s := body + Zeros(n);
    forall j: nat | j + 4 <= |s|
      ensures !OccursAt(s, HeaderEnd, j)
    {
      var w := s[j..j + 4];
      if j + 4 <= |body| {
        assert w == body[j..j + 4];
        assert !OccursAt(body, HeaderEnd, j);
      } else {
        assert w[3] == s[j + 3] == Zeros(n)[j + 3 - |body|];
      }
    }
  }

  /** A written request read into the buffer is the same request with the
      zero padding as part of its body. */
  lemma PaddedRequest(verb: string, path: string, version: string, fields: seq<Field>, body: string)
    requires Writable(verb, path, version, fields, body)
    requires |RequestText(verb, path, version, fields, body)| <= ConnBufferSize
    ensures var n := ConnBufferSize - |RequestText(verb, path, version, fields, body)|;
      && Writable(verb, path, version, fields, body + Zeros(n))
      && ReadBuffer(RequestText(verb, path, version, fields, body)) == RequestText(verb, path, version, fields, body + Zeros(n))
  {
    var n := ConnBufferSize - |RequestText(verb, path, version, fields, body)|;
    PaddingAddsNoHeaderEnd(body, n);
    var section := Join([StartLineText(verb, path, version)] + FieldLineTexts(fields), CRLF);
    assert section + HeaderEnd + body + Zeros(n) == section + HeaderEnd + (body + Zeros(n));
  }

  /** A written request whose last Content-Length field states `n` has
      Content-Length `n`. */
  lemma DeclaredLength(verb: string, path: string, version: string, fields: seq<Field>, body: string, i: int, n: nat)
    requires Writable(verb, path, version, fields, body)
    requires 0 <= i < |fields| && fields[i] == Field(ContentLengthName, Itoa(n))
    requires forall j :: i < j < |fields| ==> ToLower(fields[j].name) != ToLower(ContentLengthName)
    requires n <= MaxInt64
    ensures Parsable(RequestText(verb, path, version, fields, body))
    ensures ContentLength(NewRequest(RequestText(verb, path, version, fields, body))) == n
  {
    WrittenHeaderLookup(verb, path, version, fields, body, ContentLengthName);
    AtoiItoa(n);
  }

  /** `POST /files/<name>` answers 201 and stores the first Content-Length
      bytes of the body under `name`; for the empty name it answers 201 all
      the same and stores nothing. */
  lemma UploadStores(req: Request, name: string, store: Store, compress: Compressor)
    requires req.path == "/" + FilesRoute + "/" + name && req.verb == PostVerb
    requires 0 <= ContentLength(req) <= |req.body|
    ensures Argument(req.path) == name && IsFilesPost(req) && CanHandle(req)
    ensures HandleRequest(req, store, compress).response == CreatedResponse
    ensures NamesFile(name) ==> HandleRequest(req, store, compress).store[name] == req.body[..ContentLength(req)]
    ensures !NamesFile(name) ==> HandleRequest(req, store, compress).store == store
  {
    assert NoChar(FilesRoute, '/');
    DecomposeCompose(FilesRoute, name);
  }

  /** Uploading a file in one read stores exactly the body the client sent,
      not the zero padding the parser keeps after it: the declared
      Content-Length cuts the padding off. */
  lemma UploadIgnoresPadding(name: string, version: string, fields: seq<Field>, body: string, i: int, store: Store, compress: Compressor)
    requires Writable(PostVerb, "/" + FilesRoute + "/" + name, version, fields, body)
    requires 0 <= i < |fields| && fields[i] == Field(ContentLengthName, Itoa(|body|))
    requires forall j :: i < j < |fields| ==> ToLower(fields[j].name) != ToLower(ContentLengthName)
    requires |body| <= MaxInt64
    requires |RequestText(PostVerb, "/" + FilesRoute + "/" + name, version, fields, body)| <= ConnBufferSize
    ensures Parsable(ReadBuffer(RequestText(PostVerb, "/" + FilesRoute + "/" + name, version, fields, body)))
    ensures var req := NewRequest(ReadBuffer(RequestText(PostVerb, "/" + FilesRoute + "/" + name, version, fields, body)));
      && Argument(req.path) == name && IsFilesPost(req) && CanHandle(req)
      && (NamesFile(name) ==> HandleRequest(req, store, compress).store[name] == body)
      && (!NamesFile(name) ==> HandleRequest(req, store, compress).store == store)
      && HandleRequest(req, store, compress).response == CreatedResponse
  {
    var path := "/" + FilesRoute + "/" + name;
    ReadWrittenRequest(PostVerb, path, version, fields, body, i);
    var req := NewRequest(ReadBuffer(RequestText(PostVerb, path, version, fields, body)));
    UploadStores(req, name, store, compress);
  }

  /** One read of a written request: the parser sees the request with the
      zero padding appended to its body, and the declared Content-Length. */
  lemma ReadWrittenRequest(verb: string, path: string, version: string, fields: seq<Field>, body: string, i: int)
    requires Writable(verb, path, version, fields, body)
    requires 0 <= i < |fields| && fields[i] == Field(ContentLengthName, Itoa(|body|))
    requires forall j :: i < j < |fields| ==> ToLower(fields[j].name) != ToLower(ContentLengthName)
    requires |body| <= MaxInt64
    requires |RequestText(verb, path, version, fields, body)| <= ConnBufferSize
    ensures Parsable(ReadBuffer(RequestText(verb, path, version, fields, body)))
    ensures var req := NewRequest(ReadBuffer(RequestText(verb, path, version, fields, body)));
      && req.verb == verb && req.path == path
      && ContentLength(req) == |body| && |body| <= |req.body| && req.body[..|body|] == body
  {
    var n := ConnBufferSize - |RequestText(verb, path, version, fields, body)|;
    PaddedRequest(verb, path, version, fields, body);
    ReadPadded(ReadBuffer(RequestText(verb, path, version, fields, body)), verb, path, version, fields, body, i, n);
  }

  /** A buffer holding a written request whose body is followed by `n` zero
      bytes. */
  lemma ReadPadded(buffer: string, verb: string, path: string, version: string, fields: seq<Field>, body: string, i: int, n: nat)
    requires Writable(verb, path, version, fields, body + Zeros(n))
    requires buffer == RequestText(verb, path, version, fields, body + Zeros(n))
    requires 0 <= i < |fields| && fields[i] == Field(ContentLengthName, Itoa(|body|))
    requires forall j :: i < j < |fields| ==> ToLower(fields[j].name) != ToLower(ContentLengthName)
    requires |body| <= MaxInt64
    ensures Parsable(buffer)
    ensures var req := NewRequest(buffer);
      && req.verb == verb && req.path == path
      && ContentLength(req) == |body| && |body| <= |req.body| && req.body[..|body|] == body
  {
    var padded := body + Zeros(n);
    RequestReadsBack(verb, path, version, fields, padded);
    DeclaredLength(verb, path, version, fields, padded, i, |body|);
    assert padded[..|body|] == body;
  }
}
