/** The response builders (app/main.go `getOKResponseWithBody`,
    `getNotFoundResponse`, and the 201 text the POST route writes). */
module HttpResponse {
  import opened Options
  import opened GoStrings
  import opened GoStrconv
  import opened Protocol
  import opened HttpMessage
  import opened HttpRequest
  import opened RequestQueries

  /** The gzip compressor, a library the model does not look inside. */
  type Compressor = string -> string

  /** The body as sent: compressed when a coding was negotiated. */
  function EmittedBody(req: Request, body: string, compress: Compressor): string
  {
    if ResponseEncoding(req) != "" then compress(body) else body
  }

  /** `text` with `line` appended when `present` holds (the source's
      `resp += line` under an `if`). */
  function AppendIf(text: string, present: bool, line: string): string
  {
    if present then text + line else text
  }

  /** The text of a 200 response once the coding, the emitted body and the
      keep-alive decision are known. Headers come in a fixed order:
      Content-Encoding when a coding was negotiated, Content-Type when one is
      given, Content-Length when the emitted body is non-empty, Connection
      when the request asked to close. */
  function BuildOK(encoding: string, contentType: string, emitted: string, close: bool): string
  {
    var statusLine := StatusOK + CRLF;
    var withEncoding := AppendIf(statusLine, encoding != "", ContentEncodingHeader + encoding + CRLF);
    var withType := AppendIf(withEncoding, contentType != "", ContentTypeHeader + contentType + CRLF);
    var withLength := AppendIf(withType, emitted != "", ContentLengthHeader + Itoa(|emitted|) + CRLF);
    var withConnection := AppendIf(withLength, close, ConnectionHeader + ConnectionClose + CRLF);
    withConnection + CRLF + emitted
  }

  /** A 200 response to `req` carrying `body`. It starts with the 200 status
      line and ends with the empty line followed by exactly the emitted
      body. */
  function OKResponse(req: Request, body: string, contentType: string, compress: Compressor): (resp: string)
    ensures StatusOK + CRLF <= resp
    ensures var emitted := EmittedBody(req, body, compress);
      |resp| >= |emitted| + 2 && resp[|resp| - |emitted| - 2..] == CRLF + emitted
  {
    var emitted := EmittedBody(req, body, compress);
    BuildOKFrame(ResponseEncoding(req), contentType, emitted, ShouldCloseConnection(req));
    BuildOK(ResponseEncoding(req), contentType, emitted, ShouldCloseConnection(req))
  }

  /** A 404 response: the status line, `Connection: close` when the request
      asked to close, and the empty line; never a body. */
  function NotFoundResponse(req: Request): (resp: string)
    ensures StatusNotFound + CRLF <= resp
    ensures resp[|resp| - 2..] == CRLF
  {
    var statusLine := StatusNotFound + CRLF;
    AppendIf(statusLine, ShouldCloseConnection(req), ConnectionHeader + ConnectionClose + CRLF) + CRLF
  }

  /** The 201 response of a file upload: status line and empty line only. */
  const CreatedResponse: string := StatusCreated + CRLF + CRLF

  // ---------------------------------------------------------------------
  // The same responses as structured messages
  // ---------------------------------------------------------------------

  function OptionalField(present: bool, f: Field): seq<Field>
  {
    if present then [f] else []
  }

  /** Four fields, each present or not, in order. */
  function FourFields(pa: bool, fa: Field, pb: bool, fb: Field, pc: bool, fc: Field, pd: bool, fd: Field): seq<Field>
  {
    OptionalField(pa, fa) + OptionalField(pb, fb) + OptionalField(pc, fc) + OptionalField(pd, fd)
  }

  /** The header fields of a 200 response, in emission order. */
  function OKFields(encoding: string, contentType: string, emitted: string, close: bool): seq<Field>
  {
    FourFields(
      encoding != "", Field(ContentEncodingName, encoding),
      contentType != "", Field(ContentTypeName, contentType),
      emitted != "", Field(ContentLengthName, Itoa(|emitted|)),
      close, Field(ConnectionName, ConnectionClose))
  }

  /** Where each response header sits in the fixed order. */
  function HeaderRank(name: string): nat
  {
    if name == ContentEncodingName then 0
    else if name == ContentTypeName then 1
    else if name == ContentLengthName then 2
    else if name == ConnectionName then 3
    else 4
  }

  /** Only known response headers, each at most once, in the fixed order. */
  predicate InHeaderOrder(fields: seq<Field>)
  {
    && (forall i :: 0 <= i < |fields| ==> HeaderRank(fields[i].name) < 4)
    && (forall i, j :: 0 <= i < j < |fields| ==> HeaderRank(fields[i].name) < HeaderRank(fields[j].name))
  }

  // ---------------------------------------------------------------------
  // Lemmas
  // ---------------------------------------------------------------------

  /** `line` when `present` holds, else nothing. */
  function LineIf(present: bool, line: string): string
  {
    if present then line else ""
  }

  lemma FieldLinesOfOptional(present: bool, f: Field)
    ensures FieldLines(OptionalField(present, f)) == LineIf(present, f.name + FieldSep + f.value + CRLF)
  {
  }

  /** Four conditional appends add the four conditional lines in order. */
  lemma AppendChain(s: string, a: string, b: string, c: string, d: string,
                    pa: bool, pb: bool, pc: bool, pd: bool)
    ensures AppendIf(AppendIf(AppendIf(AppendIf(s, pa, a), pb, b), pc, c), pd, d)
      == s + (LineIf(pa, a) + LineIf(pb, b) + LineIf(pc, c) + LineIf(pd, d))
  {
    var x, y, z, w := LineIf(pa, a), LineIf(pb, b), LineIf(pc, c), LineIf(pd, d);
    AppendIfLine(s, pa, a);
    AppendIfLine(s + x, pb, b);
    AppendIfLine(s + x + y, pc, c);
    AppendIfLine(s + x + y + z, pd, d);
    Regroup(s, x, y, z, w);
  }

  lemma AppendIfLine(text: string, present: bool, line: string)
    ensures AppendIf(text, present, line) == text + LineIf(present, line)
  {
  }

  /** The 200 text starts with its status line and ends with the empty line
      and the emitted body. */
  lemma BuildOKFrame(encoding: string, contentType: string, emitted: string, close: bool)
    ensures var resp := BuildOK(encoding, contentType, emitted, close);
      && StatusOK + CRLF <= resp
      && |resp| >= |emitted| + 2 && resp[|resp| - |emitted| - 2..] == CRLF + emitted
  {
    BuildOKIsMessage(encoding, contentType, emitted, close);
    MessageFrame(StatusOK, FieldLines(OKFields(encoding, contentType, emitted, close)), emitted);
  }

  /** A serialized message starts with its start line and CRLF, and ends with
      the empty line and its body. */
  lemma MessageFrame(startLine: string, fieldLines: string, body: string)
    ensures var s := startLine + CRLF + fieldLines + CRLF + body;
      && startLine + CRLF <= s
      && |s| >= |body| + 2 && s[|s| - |body| - 2..] == CRLF + body
  {
  }

  /** The 200 text is the serialization of its structured message. */
  lemma BuildOKIsMessage(encoding: string, contentType: string, emitted: string, close: bool)
    ensures BuildOK(encoding, contentType, emitted, close)
      == StatusOK + CRLF + FieldLines(OKFields(encoding, contentType, emitted, close)) + CRLF + emitted
  {
    var fa := Field(ContentEncodingName, encoding);
    var fb := Field(ContentTypeName, contentType);
    var fc := Field(ContentLengthName, Itoa(|emitted|));
    var fd := Field(ConnectionName, ConnectionClose);
    var a := OptionalField(encoding != "", fa);
    var b := OptionalField(contentType != "", fb);
    var c := OptionalField(emitted != "", fc);
    var d := OptionalField(close, fd);
    FieldLinesAppend(a + b + c, d);
    FieldLinesAppend(a + b, c);
    FieldLinesAppend(a, b);
    FieldLinesOfOptional(encoding != "", fa);
    FieldLinesOfOptional(contentType != "", fb);
    FieldLinesOfOptional(emitted != "", fc);
    FieldLinesOfOptional(close, fd);
    AppendChain(StatusOK + CRLF,
      ContentEncodingHeader + encoding + CRLF, ContentTypeHeader + contentType + CRLF,
      ContentLengthHeader + Itoa(|emitted|) + CRLF, ConnectionHeader + ConnectionClose + CRLF,
      encoding != "", contentType != "", emitted != "", close);
  }

  lemma {:induction false} OrderOfOptionalFields(
    a: seq<Field>, b: seq<Field>, c: seq<Field>, d: seq<Field>)
    requires |a| <= 1 && |b| <= 1 && |c| <= 1 && |d| <= 1
    requires forall i :: 0 <= i < |a| ==> HeaderRank(a[i].name) == 0
    requires forall i :: 0 <= i < |b| ==> HeaderRank(b[i].name) == 1
    requires forall i :: 0 <= i < |c| ==> HeaderRank(c[i].name) == 2
    requires forall i :: 0 <= i < |d| ==> HeaderRank(d[i].name) == 3
    ensures InHeaderOrder(a + b + c + d)
  {
    var fs := a + b + c + d;
    forall i, j | 0 <= i < j < |fs|
      ensures HeaderRank(fs[i].name) < HeaderRank(fs[j].name)
    {
      RankOfPosition(a, b, c, d, i);
      RankOfPosition(a, b, c, d, j);
    }
    forall i | 0 <= i < |fs|
      ensures HeaderRank(fs[i].name) < 4
    {
      RankOfPosition(a, b, c, d, i);
    }
  }

  lemma RankOfPosition(a: seq<Field>, b: seq<Field>, c: seq<Field>, d: seq<Field>, i: int)
    requires |a| <= 1 && |b| <= 1 && |c| <= 1 && |d| <= 1
    requires forall k :: 0 <= k < |a| ==> HeaderRank(a[k].name) == 0
    requires forall k :: 0 <= k < |b| ==> HeaderRank(b[k].name) == 1
    requires forall k :: 0 <= k < |c| ==> HeaderRank(c[k].name) == 2
    requires forall k :: 0 <= k < |d| ==> HeaderRank(d[k].name) == 3
    requires 0 <= i < |a + b + c + d|
    ensures var r := HeaderRank((a + b + c + d)[i].name);
      && (i < |a| ==> r == 0)
      && (|a| <= i < |a| + |b| ==> r == 1)
      && (|a| + |b| <= i < |a| + |b| + |c| ==> r == 2)
      && (|a| + |b| + |c| <= i ==> r == 3)
  {
    var fs := a + b + c + d;
    if i < |a| {
      assert fs[i] == a[i];
    } else if i < |a| + |b| {
      assert fs[i] == b[i - |a|];
    } else if i < |a| + |b| + |c| {
      assert fs[i] == c[i - |a| - |b|];
    } else {
      assert fs[i] == d[i - |a| - |b| - |c|];
    }
  }

  lemma StatusLinesSingle()
    ensures NoChar(StatusOK, '\n') && NoChar(StatusCreated, '\n') && NoChar(StatusNotFound, '\n')
  {
  }

  /** What a client reads from a 200 response: the 200 status line; exactly
      the emitted body; headers in the fixed order; Content-Encoding `gzip`
      exactly when negotiated; Content-Type exactly when one is given;
      Content-Length exactly when the emitted body is non-empty, stating its
      length; Connection `close` exactly when the request asked to close. */
  lemma OKResponseReadsBack(req: Request, body: string, contentType: string, compress: Compressor)
    requires NoChar(contentType, '\n')
    ensures ParseMessage(OKResponse(req, body, contentType, compress)).Some?
    ensures var m := ParseMessage(OKResponse(req, body, contentType, compress)).value;
      var emitted := EmittedBody(req, body, compress);
      && m.startLine == StatusOK
      && m.body == emitted
      && InHeaderOrder(m.fields)
      && FieldValueOf(m.fields, ContentEncodingName) == (if ResponseEncoding(req) == Gzip then Some(Gzip) else None)
      && FieldValueOf(m.fields, ContentTypeName) == (if contentType != "" then Some(contentType) else None)
      && FieldValueOf(m.fields, ContentLengthName) == (if emitted != "" then Some(Itoa(|emitted|)) else None)
      && FieldValueOf(m.fields, ConnectionName) == (if ShouldCloseConnection(req) then Some(ConnectionClose) else None)
  {
    var emitted := EmittedBody(req, body, compress);
    BuildOKReadsBack(ResponseEncoding(req), contentType, emitted, ShouldCloseConnection(req));
  }

  /** `BuildOK` read back by a client. */
  lemma BuildOKReadsBack(encoding: string, contentType: string, emitted: string, close: bool)
    requires encoding == "" || encoding == Gzip
    requires NoChar(contentType, '\n')
    ensures var m := ParseMessage(BuildOK(encoding, contentType, emitted, close));
      && m == Some(Message(StatusOK, OKFields(encoding, contentType, emitted, close), emitted))
      && InHeaderOrder(m.value.fields)
      && FieldValueOf(m.value.fields, ContentEncodingName) == (if encoding == Gzip then Some(Gzip) else None)
      && FieldValueOf(m.value.fields, ContentTypeName) == (if contentType != "" then Some(contentType) else None)
      && FieldValueOf(m.value.fields, ContentLengthName) == (if emitted != "" then Some(Itoa(|emitted|)) else None)
      && FieldValueOf(m.value.fields, ConnectionName) == (if close then Some(ConnectionClose) else None)
  {
    BuildOKParses(encoding, contentType, emitted, close);
    OKFieldsOrdered(encoding, contentType, emitted, close);
    OKFieldsLookup(encoding, contentType, emitted, close);
  }

  /** `BuildOK` parses back to its structured message. */
  lemma BuildOKParses(encoding: string, contentType: string, emitted: string, close: bool)
    requires encoding == "" || encoding == Gzip
    requires NoChar(contentType, '\n')
    ensures ParseMessage(BuildOK(encoding, contentType, emitted, close))
      == Some(Message(StatusOK, OKFields(encoding, contentType, emitted, close), emitted))
  {
    var m := Message(StatusOK, OKFields(encoding, contentType, emitted, close), emitted);
    OKFieldsWellFormed(encoding, contentType, emitted, close);
    StatusLinesSingle();
    assert WellFormed(m);
    BuildOKIsMessage(encoding, contentType, emitted, close);
    ParseSerialize(m);
  }

  lemma OKFieldsWellFormed(encoding: string, contentType: string, emitted: string, close: bool)
    requires encoding == "" || encoding == Gzip
    requires NoChar(contentType, '\n')
    ensures forall i :: 0 <= i < |OKFields(encoding, contentType, emitted, close)| ==>
      WellFormedField(OKFields(encoding, contentType, emitted, close)[i])
  {
    HeaderNamesWellFormed();
    assert NoChar(Gzip, '\n') && NoChar(ConnectionClose, '\n');
    assert AllDigits(Itoa(|emitted|));
    assert NoChar(Itoa(|emitted|), '\n');
  }

  /** Every response header name is a non-empty token without spaces or
      line feeds. */
  lemma HeaderNamesWellFormed()
    ensures WellFormedField(Field(ContentEncodingName, ""))
    ensures WellFormedField(Field(ContentTypeName, ""))
    ensures WellFormedField(Field(ContentLengthName, ""))
    ensures WellFormedField(Field(ConnectionName, ""))
  {
    NameIsToken(ContentEncodingName);
    NameIsToken(ContentTypeName);
    NameIsToken(ContentLengthName);
    NameIsToken(ConnectionName);
  }

  lemma NameIsToken(name: string)
    requires |name| > 0
    requires forall k :: 0 <= k < |name| ==> 'A' <= name[k] <= 'z' || name[k] == '-'
    ensures WellFormedField(Field(name, ""))
  {
  }

  /** The four response header names are distinct and ranked 0 to 3. */
  lemma HeaderNamesRanked()
    ensures HeaderRank(ContentEncodingName) == 0
    ensures HeaderRank(ContentTypeName) == 1
    ensures HeaderRank(ContentLengthName) == 2
    ensures HeaderRank(ConnectionName) == 3
  {
    assert |ContentEncodingName| == 16 && |ContentTypeName| == 12;
    assert |ContentLengthName| == 14 && |ConnectionName| == 10;
  }

  lemma OKFieldsOrdered(encoding: string, contentType: string, emitted: string, close: bool)
    ensures InHeaderOrder(OKFields(encoding, contentType, emitted, close))
  {
    HeaderNamesRanked();
    OrderOfOptionalFields(
      OptionalField(encoding != "", Field(ContentEncodingName, encoding)),
      OptionalField(contentType != "", Field(ContentTypeName, contentType)),
      OptionalField(emitted != "", Field(ContentLengthName, Itoa(|emitted|))),
      OptionalField(close, Field(ConnectionName, ConnectionClose)));
  }

  lemma FieldValueOfOptional(present: bool, f: Field, name: string)
    ensures FieldValueOf(OptionalField(present, f), name) == if present && f.name == name then Some(f.value) else None
  {
  }

  /** Each response header of a 200 is found exactly when it was emitted,
      with the value it was emitted with. */
  lemma OKFieldsLookup(encoding: string, contentType: string, emitted: string, close: bool)
    ensures FieldValueOf(OKFields(encoding, contentType, emitted, close), ContentEncodingName)
      == if encoding != "" then Some(encoding) else None
    ensures FieldValueOf(OKFields(encoding, contentType, emitted, close), ContentTypeName)
      == if contentType != "" then Some(contentType) else None
    ensures FieldValueOf(OKFields(encoding, contentType, emitted, close), ContentLengthName)
      == if emitted != "" then Some(Itoa(|emitted|)) else None
    ensures FieldValueOf(OKFields(encoding, contentType, emitted, close), ConnectionName)
      == if close then Some(ConnectionClose) else None
  {
    LookupEncoding(encoding, contentType, emitted, close);
    LookupType(encoding, contentType, emitted, close);
    LookupLength(encoding, contentType, emitted, close);
    LookupConnection(encoding, contentType, emitted, close);
  }

  lemma LookupEncoding(encoding: string, contentType: string, emitted: string, close: bool)
    ensures FieldValueOf(OKFields(encoding, contentType, emitted, close), ContentEncodingName)
      == if encoding != "" then Some(encoding) else None
  {
    HeaderNamesDistinct();
    LookupInFour(encoding != "", contentType != "", emitted != "", close,
      Field(ContentEncodingName, encoding), Field(ContentTypeName, contentType),
      Field(ContentLengthName, Itoa(|emitted|)), Field(ConnectionName, ConnectionClose));
  }

  lemma LookupType(encoding: string, contentType: string, emitted: string, close: bool)
    ensures FieldValueOf(OKFields(encoding, contentType, emitted, close), ContentTypeName)
      == if contentType != "" then Some(contentType) else None
  {
    HeaderNamesDistinct();
    LookupInFour(encoding != "", contentType != "", emitted != "", close,
      Field(ContentEncodingName, encoding), Field(ContentTypeName, contentType),
      Field(ContentLengthName, Itoa(|emitted|)), Field(ConnectionName, ConnectionClose));
  }

  lemma LookupLength(encoding: string, contentType: string, emitted: string, close: bool)
    ensures FieldValueOf(OKFields(encoding, contentType, emitted, close), ContentLengthName)
      == if emitted != "" then Some(Itoa(|emitted|)) else None
  {
    HeaderNamesDistinct();
    LookupInFour(encoding != "", contentType != "", emitted != "", close,
      Field(ContentEncodingName, encoding), Field(ContentTypeName, contentType),
      Field(ContentLengthName, Itoa(|emitted|)), Field(ConnectionName, ConnectionClose));
  }

  lemma LookupConnection(encoding: string, contentType: string, emitted: string, close: bool)
    ensures FieldValueOf(OKFields(encoding, contentType, emitted, close), ConnectionName)
      == if close then Some(ConnectionClose) else None
  {
    HeaderNamesDistinct();
    LookupInFour(encoding != "", contentType != "", emitted != "", close,
      Field(ContentEncodingName, encoding), Field(ContentTypeName, contentType),
      Field(ContentLengthName, Itoa(|emitted|)), Field(ConnectionName, ConnectionClose));
  }

  lemma HeaderNamesDistinct()
    ensures ContentEncodingName != ContentTypeName && ContentEncodingName != ContentLengthName
    ensures ContentEncodingName != ConnectionName && ContentTypeName != ContentLengthName
    ensures ContentTypeName != ConnectionName && ContentLengthName != ConnectionName
  {
    assert |ContentEncodingName| == 16 && |ContentTypeName| == 12;
    assert |ContentLengthName| == 14 && |ConnectionName| == 10;
  }

  /** With four distinct names, looking up any of them in four optional
      fields finds that field exactly when it is present. */
  lemma LookupInFour(pa: bool, pb: bool, pc: bool, pd: bool, fa: Field, fb: Field, fc: Field, fd: Field)
    requires fa.name != fb.name && fa.name != fc.name && fa.name != fd.name
    requires fb.name != fc.name && fb.name != fd.name && fc.name != fd.name
    ensures FieldValueOf(FourFields(pa, fa, pb, fb, pc, fc, pd, fd), fa.name) == if pa then Some(fa.value) else None
    ensures FieldValueOf(FourFields(pa, fa, pb, fb, pc, fc, pd, fd), fb.name) == if pb then Some(fb.value) else None
    ensures FieldValueOf(FourFields(pa, fa, pb, fb, pc, fc, pd, fd), fc.name) == if pc then Some(fc.value) else None
    ensures FieldValueOf(FourFields(pa, fa, pb, fb, pc, fc, pd, fd), fd.name) == if pd then Some(fd.value) else None
  {
    var a, b, c, d := OptionalField(pa, fa), OptionalField(pb, fb), OptionalField(pc, fc), OptionalField(pd, fd);
    var names := [fa.name, fb.name, fc.name, fd.name];
    forall k | 0 <= k < 4
      ensures FieldValueOf(a + b + c + d, names[k]) ==
        if FieldValueOf(a, names[k]).Some? then FieldValueOf(a, names[k])
        else if FieldValueOf(b, names[k]).Some? then FieldValueOf(b, names[k])
        else if FieldValueOf(c, names[k]).Some? then FieldValueOf(c, names[k])
        else FieldValueOf(d, names[k])
      ensures FieldValueOf(a, names[k]) == if pa && fa.name == names[k] then Some(fa.value) else None
      ensures FieldValueOf(b, names[k]) == if pb && fb.name == names[k] then Some(fb.value) else None
      ensures FieldValueOf(c, names[k]) == if pc && fc.name == names[k] then Some(fc.value) else None
      ensures FieldValueOf(d, names[k]) == if pd && fd.name == names[k] then Some(fd.value) else None
    {
      LookupOptionalFields(a, b, c, d, names[k]);
      FieldValueOfOptional(pa, fa, names[k]);
      FieldValueOfOptional(pb, fb, names[k]);
      FieldValueOfOptional(pc, fc, names[k]);
      FieldValueOfOptional(pd, fd, names[k]);
    }
    assert names[0] == fa.name && names[1] == fb.name && names[2] == fc.name && names[3] == fd.name;
  }

  lemma LookupOptionalFields(a: seq<Field>, b: seq<Field>, c: seq<Field>, d: seq<Field>, name: string)
    ensures FieldValueOf(a + b + c + d, name) ==
      if FieldValueOf(a, name).Some? then FieldValueOf(a, name)
      else if FieldValueOf(b, name).Some? then FieldValueOf(b, name)
      else if FieldValueOf(c, name).Some? then FieldValueOf(c, name)
      else FieldValueOf(d, name)
  {
    FieldValueOfAppend(a + b + c, d, name);
    FieldValueOfAppend(a + b, c, name);
    FieldValueOfAppend(a, b, name);
  }

  /** What a client reads from a 404 response: the 404 status line, a
      Connection `close` field exactly when the request asked to close, and
      an empty body. */
  lemma NotFoundReadsBack(req: Request)
    ensures ParseMessage(NotFoundResponse(req)) == Some(Message(
      StatusNotFound,
      OptionalField(ShouldCloseConnection(req), Field(ConnectionName, ConnectionClose)),
      ""))
  {
    var close := ShouldCloseConnection(req);
    var fields := OptionalField(close, Field(ConnectionName, ConnectionClose));
    var m := Message(StatusNotFound, fields, "");
    FieldLinesOfOptional(close, Field(ConnectionName, ConnectionClose));
    assert NotFoundResponse(req) == Serialize(m);
    HeaderNamesWellFormed();
    assert NoChar(ConnectionClose, '\n');
    StatusLinesSingle();
    ParseSerialize(m);
  }

  /** The 404 text when the request asked to close: the status line,
      `Connection: close`, and the empty line. */
  lemma NotFoundTextClosing(req: Request)
    requires ShouldCloseConnection(req)
    ensures NotFoundResponse(req) == "HTTP/1.1 404 Not Found\r\nConnection: close\r\n\r\n"
  {
    assert NotFoundResponse(req) == StatusNotFound + CRLF + (ConnectionName + FieldSep + ConnectionClose + CRLF) + CRLF;
  }

  /** The 404 text otherwise: the status line and the empty line. */
  lemma NotFoundTextKeepAlive(req: Request)
    requires !ShouldCloseConnection(req)
    ensures NotFoundResponse(req) == "HTTP/1.1 404 Not Found\r\n\r\n"
  {
    assert NotFoundResponse(req) == StatusNotFound + CRLF + CRLF;
  }

  /** What a client reads from the 201 response: the status line alone. */
  lemma CreatedReadsBack()
    ensures ParseMessage(CreatedResponse) == Some(Message(StatusCreated, [], ""))
  {
    var m := Message(StatusCreated, [], "");
    assert CreatedResponse == Serialize(m);
    StatusLinesSingle();
    ParseSerialize(m);
  }

  /** The 201 text: the status line and the empty line. */
  lemma CreatedText()
    ensures CreatedResponse == "HTTP/1.1 201 Created\r\n\r\n"
  {
  }

  /** The declared Content-Length reads back, with Atoi, as the number of
      bytes of the emitted body. */
  lemma ContentLengthMatchesBody(req: Request, body: string, contentType: string, compress: Compressor)
    requires NoChar(contentType, '\n')
    requires |EmittedBody(req, body, compress)| <= MaxInt64
    ensures var m := ParseMessage(OKResponse(req, body, contentType, compress));
      var emitted := EmittedBody(req, body, compress);
      && m.Some?
      && (emitted != "" <==> FieldValueOf(m.value.fields, ContentLengthName).Some?)
      && (emitted != "" ==> Atoi(FieldValueOf(m.value.fields, ContentLengthName).value) == |m.value.body|)
  {
    OKResponseReadsBack(req, body, contentType, compress);
    AtoiItoa(|EmittedBody(req, body, compress)|);
  }
}
