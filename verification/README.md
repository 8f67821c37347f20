# A verified model of a minimal HTTP/1.1 server

This project models the request/response pipeline of a small Go HTTP/1.1 server, `app/main.go`, in Dafny. The server reads one request per 1024-byte read. It parses the request line, a case-insensitive header map and the body, then dispatches on the first path segment:

- `/` answers 200 with an empty argument as its body, which is sent as the compressor's output on "" when gzip is negotiated;
- `/echo/<text>` answers with the text, and `/echo` with an empty argument (compressed like `/` when gzip is negotiated);
- `/user-agent` answers with the User-Agent value, whatever follows it;
- `GET /files/<name>` downloads a file;
- `POST /files/<name>` uploads one;
- anything else answers 404.

The 200 response optionally gzips its body when the client's `Accept-Encoding` lists `gzip`. A connection is kept alive until a request carries `Connection: close`.

## Modules

| file | module | what it holds |
|---|---|---|
| `options.dfy` | `Options` | `Option` |
| `gostrings.dfy` | `GoStrings` | `strings.Split`, `Join`, `Index` and ASCII `ToLower`, with the split/join round trips |
| `gostrconv.dfy` | `GoStrconv` | `strconv.Itoa` and `Atoi` (fast path and `ParseInt` with 64-bit saturation), with `Atoi(Itoa(n)) == n` |
| `protocol.dfy` | `Protocol` | the constants of `app/main.go` |
| `message.dfy` | `HttpMessage` | an independent reader and writer for the message layout of section 2.1 of RFC 9112, as far as this server uses it (fields are `name: value` with exactly `": "`); client-side reads of the responses are stated through it |
| `request.dfy` | `HttpRequest` | the request parser |
| `queries.dfy` | `RequestQueries` | the header queries of a request |
| `path.dfy` | `HttpPath` | the path wrapper |
| `response.dfy` | `HttpResponse` | the 200, 404 and 201 responses |
| `requestwriter.dfy` | `RequestWriter` | a client that writes requests, used to state what the parser reads back |
| `keepalive.dfy` | `KeepAlive` | the keep-alive loop, generic in what a read delivers |
| `server.dfy` | `Server` | dispatch, the file routes over a store, the loop over requests, and the 1024-byte read buffer |

Every place where the Go code would panic on malformed input is a precondition:

- a request line with a single token;
- a non-empty header line without `": "`;
- a buffer without `CRLF CRLF`;
- a `Content-Length` outside the body on upload.

The quirks of the source are kept:

- header map keys are the lower-cased name followed by `": "`;
- a header value is only the text up to a second `": "`;
- `close` is compared case-sensitively;
- the 201 answer never carries `Connection: close`;
- the body of a request runs to the next `CRLF CRLF` or to the end of the 1024-byte buffer, zero padding included.

## Model

| member | source | states |
|---|---|---|
| HttpRequest.GetRequestLineParts | app/main.go:182-197 | the method is the text of the first line up to its first space and holds no space; the first line is a CRLF-free prefix of the buffer |
| HttpRequest.RequestLineThreeTokens | app/main.go:182-192 | a first line `m p v` of three space-free tokens without CRLF (a bare LF is allowed) yields method `m`, path `p` and version `v` |
| HttpRequest.RequestLineTwoTokens | app/main.go:186-195 | a first line of two space-free tokens without CRLF yields an empty path and the second token as the version |
| HttpRequest.RequestLineManyTokens | app/main.go:186-195 | a first line of four or more tokens, the first two space-free, without CRLF also yields an empty path and the second token as the version |
| HttpRequest.FirstLineOfSection | app/main.go:250-252 | splitting the header section on CRLF gives the same first line as splitting the whole buffer, so the header loop skips exactly the request line |
| HttpRequest.HeaderLinesFollowRequestLine | app/main.go:250-253 | the header section ends at the first CRLF CRLF of the buffer; the request line followed by the header lines are exactly the CRLF-separated lines of that section, and joining them gives the section back |
| HttpRequest.CollectHeadersKeys | app/main.go:250-264 | a key is in the header map exactly when some non-empty header line stores under it |
| HttpRequest.CollectHeadersLastWins | app/main.go:253-261 | the value under a key is that of the last line storing under it: a later duplicate overwrites an earlier one |
| HttpRequest.FieldLineParts | app/main.go:257-260 | a line `name: value` whose name and value hold no `": "` yields that name and that value |
| HttpRequest.FieldValueTruncated | app/main.go:258 | a value that itself holds `": "` is cut at it |
| HttpRequest.GetRequestBody | app/main.go:266-269 | the body is the text after the first CRLF CRLF up to the first CRLF CRLF after that, or to the end when there is none |
| RequestQueries.GetHeaderIgnoresCase | app/main.go:364-367 | two names with the same lower-casing find the same header |
| RequestQueries.LookupFindsField | app/main.go:364-367 | on a parsed buffer, asking for a name in any capitalisation finds the value of the last line carrying it |
| RequestQueries.LookupMisses | app/main.go:364-367 | on a parsed buffer, a name no header line carries is not found |
| RequestQueries.ShouldCloseExactly | app/main.go:379-384 | the request asks to close exactly when its Connection value is `close`; `Close` does not count |
| RequestQueries.FirstSupported | app/main.go:396-408 | the first supported entry is `gzip` exactly when `gzip` is listed, and "" otherwise |
| RequestQueries.ResponseEncoding | app/main.go:386-408 | the negotiated coding is `gzip` exactly when Accept-Encoding is present and lists `gzip` among its `", "`-separated entries, and "" otherwise |
| RequestQueries.ContentLengthValue | app/main.go:410-414 | Content-Length is 0 when absent, the value of a signed digit string saturated to the 64-bit range, and 0 for a non-numeric value shorter than 19 bytes |
| GoStrconv.AtoiOfDigits | app/main.go:412 | `Atoi` of a signed digit string is its value, saturated to the 64-bit range |
| GoStrconv.AtoiRejects | app/main.go:412 | `Atoi` of anything but a signed digit string is 0, unless the digits before the first bad byte already overflow |
| GoStrconv.FastPathAgrees | app/main.go:412 | for 1 to 18 bytes, the fast path of `Atoi` computes what `ParseInt` computes |
| GoStrconv.AtoiItoa | app/main.go:410-414 | the Content-Length the server writes with `Itoa` reads back with `Atoi` as the same number |
| GoStrings.JoinSplit | app/main.go:308-329 | joining the pieces of a split with the separator gives the text back, and no piece holds the separator |
| GoStrings.SplitJoin | app/main.go:250-252 | splitting a join of separator-free pieces gives the pieces back |
| HttpPath.EmptyPath | app/main.go:299-330 | the empty target has an empty route key and an empty argument |
| HttpPath.DecomposeCompose | app/main.go:299-330 | the target `/seg/arg` has route key `seg` and argument `arg` when `seg` has no "/", whatever `arg` holds |
| HttpPath.SingleSegment | app/main.go:299-330 | the target `/seg` has route key `seg` and an empty argument |
| HttpPath.ComposeDecompose | app/main.go:299-330 | a target with at least two segments is "/" + route key + "/" + argument, with a route key free of "/" |
| HttpResponse.OKResponse | app/main.go:199-239 | a 200 response starts with the 200 status line and ends with the empty line followed by exactly the emitted body |
| HttpResponse.OKResponseReadsBack | app/main.go:199-239 | a client reads back a 200 status line and exactly the emitted body. Headers come in the fixed order. Content-Encoding `gzip` is present exactly when negotiated, Content-Type exactly when one is given, Content-Length exactly when the emitted body is non-empty, and Connection `close` exactly when the request asked to close |
| HttpResponse.BuildOKReadsBack | app/main.go:203-237 | the 200 text parses to the status line, the header fields in the fixed order, and the body |
| HttpResponse.ContentLengthMatchesBody | app/main.go:225-227 | the Content-Length a client reads states the number of bytes of the body it reads |
| HttpResponse.NotFoundResponse | app/main.go:241-248 | a 404 response starts with the 404 status line and ends with the empty line |
| HttpResponse.NotFoundReadsBack | app/main.go:241-248 | a client reads back the 404 status line, a Connection `close` field exactly when the request asked to close, and no body |
| HttpResponse.NotFoundTextClosing | app/main.go:241-248 | the 404 text for a closing request, byte for byte |
| HttpResponse.NotFoundTextKeepAlive | app/main.go:241-248 | the 404 text otherwise, byte for byte |
| HttpResponse.CreatedReadsBack | app/main.go:157 | a client reads back the 201 status line with no field and no body |
| HttpResponse.CreatedText | app/main.go:157 | the 201 text, byte for byte |
| RequestWriter.RequestReadsBack | app/main.go:344-362 | a request a client writes parses back to its method, path, version, header lines and body |
| RequestWriter.WrittenHeaders | app/main.go:250-264 | the header map of a written request holds a key exactly when some field's lower-cased name gives it, and the value of the last such field under it |
| RequestWriter.WrittenHeaderLookup | app/main.go:364-367 | asking a written request for a name in any capitalisation finds the last field of that name, or nothing when there is none |
| Server.HandlePostFile | app/main.go:288-292 | an upload stores the first Content-Length bytes of the body under the file name and leaves every other file alone; writing the empty name, which is the data directory itself, changes nothing |
| Server.HandleRequest | app/main.go:132-166 | only an upload changes the store: it adds the argument as a file name holding the first Content-Length bytes of the body, unless the argument is empty |
| Server.HandleRequestResponds | app/main.go:132-166 | every response parses. Its status is 200, 201 or 404, and it is 201 exactly for an upload. A 201 carries no field, so never `Connection: close`, and no body |
| Server.EchoRoundTrip | app/main.go:143-145 | any target whose route key is `echo` answers 200 with `text/plain` and the argument after the key (compressed when negotiated) as the body; `/echo` has an empty argument, sent empty without gzip and as the compressor's output on "" with it |
| Server.EchoText | app/main.go:143-145 | `/echo/<text>` answers 200 with the text as the body, further slashes included |
| Server.UserAgentRoundTrip | app/main.go:147-149 | any target whose route key is `user-agent`, `/user-agent/x` included, answers 200 with `text/plain` and the User-Agent value as the body |
| Server.UserAgentTarget | app/main.go:147-149 | the exact target `/user-agent` takes that route |
| Server.RootAnswersOK | app/main.go:140-141 | an empty route key answers 200 with no Content-Type and an empty logical body |
| Server.OtherRoutesNotFound | app/main.go:159-165 | another route key, or the files route under another verb, answers 404 with no body, with `Connection: close` exactly when the request asked to close, and with the store unchanged |
| Server.DownloadAnswers | app/main.go:271-286 | `GET /files/<name>` answers 200 with the stored contents as an octet stream when the file exists, and 404 otherwise; the empty name always answers 404 |
| Server.UploadStores | app/main.go:288-292 | `POST /files/<name>` answers 201 and stores the first Content-Length bytes of the body under `name`; for the empty name it answers 201 and stores nothing |
| Server.UploadThenDownload | app/main.go:151-158 | uploading a file and then downloading it gives back the first Content-Length bytes of the uploaded body; for the empty name the download answers 404 |
| Server.ReadOnlyServing | app/main.go:132-166 | serving requests with no upload among them leaves the store alone, and each response is the one that request gets on its own |
| Server.Dispatched | app/main.go:96-130 | no request handed on, except possibly the last, asks to close |
| Server.DispatchedUpToClose | app/main.go:102-130 | the loop hands on the received requests up to and including the first that asks to close, or all of them when none does; failed reads are skipped |
| Server.NothingAfterClose | app/main.go:108-126 | whatever arrives after a request asking to close is never parsed or handed on |
| KeepAlive.TakenUpToStop | app/main.go:108-126 | the shape of the loop: it takes the delivered values up to the first that stops it |
| KeepAlive.NothingAfterStop | app/main.go:108-126 | the shape of the loop: reads after the stopping value change nothing |
| KeepAlive.AppliedUpToStop | app/main.go:108-126 | the shape of the loop seen through the parser: the parsed values taken are a prefix of those of every delivered value, all of them or up to the first whose result stops the loop |
| Server.ReadBuffer | app/main.go:109-110 | the parser sees the bytes read followed by the zero bytes of the fresh 1024-byte buffer |
| Server.PaddedRequest | app/main.go:266-269 | a written request read into the buffer is the same request with the zero padding appended to its body |
| Server.DeclaredLength | app/main.go:410-414 | a written request whose last Content-Length field states `n` has Content-Length `n` |
| Server.ReadWrittenRequest | app/main.go:344-362 | one read of a written request yields its method and path, the declared Content-Length, and a body starting with the one sent |
| Server.UploadIgnoresPadding | app/main.go:288-290 | an upload in one read answers 201 and stores exactly the body the client sent, unless the name is empty: the declared Content-Length cuts off the zero padding |

## Left out

- The TCP listener, `main` and `getSocketAdress`, sockets, writes to the socket and closing it are left out. They are I/O; the model states which responses the loop produces and when it stops reading.
- Goroutines, the wait group and the counter of handled requests are left out, because they are concurrency. Requests on one connection are served one after another in arrival order, which is what a client of the Go program sees when handlers do not overlap.
- Logging is left out; it has no effect on the answers.
- The internals of gzip are left out. The compressor is a function parameter, and the model states only that the body sent is its output when gzip was negotiated.
- The file system is a map from file name to contents. The directory prefix, permissions and open, read and write errors are left out, apart from the empty name. A file that cannot be opened or read is an absent key. The empty name is the data directory itself: reading it fails and writing it fails silently, and the model does both.
- Server.HandlePostFile: a name that leads into a subdirectory that does not exist (`sub/x`) is stored as a key, though the source's write fails silently. Whether the subdirectory exists is file-system state the model does not keep.
- Server.HandlePostFile: different spellings of one path (`/a`, `a`, `./a`, `b/../a`) are different keys, and the frame "every other file is left alone" holds for keys, not for the files the operating system resolves them to. Path resolution is left out.
- `strings.ToLower` is modelled for ASCII only. Non-ASCII letters and invalid UTF-8 are left out.
- A `char` stands for one byte. Go strings here are byte strings, and the model does not treat multi-byte characters.
- Server.CanHandle: the upload requires `0 <= Content-Length <= |body|`. Go's `body[:n]` checks against the capacity of the byte slice, which is unknown here.
- A read that fails makes the Go loop try again. A client that disconnects without `Connection: close` therefore makes it spin on errors forever. The model covers finite sequences of reads only.
- RequestQueries.ContentLengthValue: for a non-numeric value of 19 bytes or more, it states nothing. `GoStrconv.AtoiRejects` covers that case.
- The request handle kept for writing (`conn`, `connWg`) is not part of the request datatype.
