/** A client's request text in the layout of section 2.1 of RFC 9112 — the
    request line, CRLF-separated field lines, an empty line, the body — and
    what the server's parser makes of it. */
module RequestWriter {
  import opened Options
  import opened GoStrings
  import opened Protocol
  import opened HttpMessage
  import opened HttpRequest
  import opened RequestQueries

  function StartLineText(verb: string, path: string, version: string): string
  {
    verb + " " + path + " " + version
  }

  function FieldLineTexts(fields: seq<Field>): (lines: seq<string>)
    ensures |lines| == |fields|
    ensures forall i :: 0 <= i < |fields| ==> lines[i] == FieldLineText(fields[i])
  {
    seq(|fields|, i requires 0 <= i < |fields| => FieldLineText(fields[i]))
  }

  /** The whole request as a client writes it. */
  function RequestText(verb: string, path: string, version: string, fields: seq<Field>, body: string): string
  {
    Join([StartLineText(verb, path, version)] + FieldLineTexts(fields), CRLF) + HeaderEnd + body
  }

  /** Text without line breaks. */
  predicate SingleLine(s: string)
  {
    NoChar(s, '\r') && NoChar(s, '\n')
  }

  /** A request-line token: no spaces, no line breaks. */
  predicate Token(s: string)
  {
    NoChar(s, ' ') && SingleLine(s)
  }

  /** A field the parser takes back apart: a non-empty name token, and a
      single-line value that does not itself hold `": "`. */
  predicate WritableField(f: Field)
  {
    |f.name| > 0 && Token(f.name) && SingleLine(f.value) && !Contains(f.value, FieldSep)
  }

  predicate Writable(verb: string, path: string, version: string, fields: seq<Field>, body: string)
  {
    && Token(verb) && Token(path) && Token(version)
    && (forall i :: 0 <= i < |fields| ==> WritableField(fields[i]))
    && !Contains(body, HeaderEnd)
  }

  // ---------------------------------------------------------------------
  // Lemmas
  // ---------------------------------------------------------------------

  /** The server reads back the method, path, version, header lines and
      body a client wrote. */
  lemma RequestReadsBack(verb: string, path: string, version: string, fields: seq<Field>, body: string)
    requires Writable(verb, path, version, fields, body)
    ensures Parsable(RequestText(verb, path, version, fields, body))
    ensures HeaderLines(RequestText(verb, path, version, fields, body)) == FieldLineTexts(fields)
    ensures var req := NewRequest(RequestText(verb, path, version, fields, body));
      && req.verb == verb && req.path == path && req.version == version && req.body == body
  {
    var start := StartLineText(verb, path, version);
    var fieldLines := FieldLineTexts(fields);
    var lines := [start] + fieldLines;
    var section := Join(lines, CRLF);
    var buffer := RequestText(verb, path, version, fields, body);
    forall k | 0 <= k < |lines|
      ensures |lines[k]| > 0 && SingleLine(lines[k])
    {
      if k > 0 {
        assert lines[k] == FieldLineText(fields[k - 1]);
        FieldLineSingle(fields[k - 1]);
      } else {
        StartLineSingle(verb, path, version);
      }
    }
    SectionHasNoEmptyLine(lines);
    SectionEnd(buffer, section, body);
    // The request line
    var rest := if |fieldLines| == 0 then CRLF + body else Join(fieldLines, CRLF) + HeaderEnd + body;
    if |fieldLines| == 0 {
      assert lines == [start];
      StartLineNoFields(start, body);
    } else {
      StartLineWithFields(start, fieldLines, body);
    }
    assert buffer == start + CRLF + rest;
    assert start == verb + " " + path + " " + version;
    NoCharNoContains(start, CRLF);
    RequestLineThreeTokens(verb, path, version, rest);
    // The header lines
    forall k | 0 <= k < |lines|
      ensures !Contains(lines[k], CRLF)
    {
      NoCharNoContains(lines[k], CRLF);
    }
    SplitJoin(lines, CRLF);
    assert HeaderLines(buffer) == fieldLines;
    forall k | 0 <= k < |fieldLines|
      ensures FieldLineOk(fieldLines[k])
    {
      FieldLineReadsBack(fields[k]);
    }
  }

  /** The key a written field is stored under. */
  function KeyOf(f: Field): string
  {
    ToLower(f.name) + FieldSep
  }

  /** The header map of a written request holds a key exactly when some
      field's lower-cased name gives it, and under it the value of the last
      such field. */
  lemma WrittenHeaders(verb: string, path: string, version: string, fields: seq<Field>, body: string)
    requires Writable(verb, path, version, fields, body)
    ensures Parsable(RequestText(verb, path, version, fields, body))
    ensures var headers := NewRequest(RequestText(verb, path, version, fields, body)).headers;
      && (forall key :: key in headers <==> exists i :: 0 <= i < |fields| && KeyOf(fields[i]) == key)
      && (forall i :: 0 <= i < |fields| && (forall j :: i < j < |fields| ==> KeyOf(fields[j]) != KeyOf(fields[i])) ==>
            KeyOf(fields[i]) in headers && headers[KeyOf(fields[i])] == fields[i].value)
  {
    RequestReadsBack(verb, path, version, fields, body);
    var buffer := RequestText(verb, path, version, fields, body);
    assert NewRequest(buffer).headers == CollectHeaders(FieldLineTexts(fields));
    WrittenKeys(fields);
    WrittenValues(fields);
  }

  /** What each written field line defines. */
  lemma WrittenLines(fields: seq<Field>)
    requires forall i :: 0 <= i < |fields| ==> WritableField(fields[i])
    ensures FieldLinesOk(FieldLineTexts(fields))
    ensures forall i, key :: 0 <= i < |fields| ==>
      (DefinesKey(FieldLineTexts(fields)[i], key) <==> KeyOf(fields[i]) == key)
    ensures forall i :: 0 <= i < |fields| ==> FieldValue(FieldLineTexts(fields)[i]) == fields[i].value
  {
    var lines := FieldLineTexts(fields);
    forall i | 0 <= i < |fields|
      ensures FieldLineOk(lines[i])
      ensures forall key :: DefinesKey(lines[i], key) <==> KeyOf(fields[i]) == key
      ensures FieldValue(lines[i]) == fields[i].value
    {
      FieldLineReadsBack(fields[i]);
    }
  }

  /** The keys collected from written field lines. */
  lemma WrittenKeys(fields: seq<Field>)
    requires forall i :: 0 <= i < |fields| ==> WritableField(fields[i])
    ensures FieldLinesOk(FieldLineTexts(fields))
    ensures forall key :: key in CollectHeaders(FieldLineTexts(fields)) <==>
      exists i :: 0 <= i < |fields| && KeyOf(fields[i]) == key
  {
    WrittenLines(fields);
    var lines := FieldLineTexts(fields);
    forall key
      ensures key in CollectHeaders(lines) <==> exists i :: 0 <= i < |fields| && KeyOf(fields[i]) == key
    {
      CollectHeadersKeys(lines, key);
    }
  }

  /** The values collected from written field lines. */
  lemma WrittenValues(fields: seq<Field>)
    requires forall i :: 0 <= i < |fields| ==> WritableField(fields[i])
    ensures FieldLinesOk(FieldLineTexts(fields))
    ensures forall i :: 0 <= i < |fields| && (forall j :: i < j < |fields| ==> KeyOf(fields[j]) != KeyOf(fields[i])) ==>
      KeyOf(fields[i]) in CollectHeaders(FieldLineTexts(fields)) &&
      CollectHeaders(FieldLineTexts(fields))[KeyOf(fields[i])] == fields[i].value
  {
    WrittenLines(fields);
    var lines := FieldLineTexts(fields);
    forall i | 0 <= i < |fields| && (forall j :: i < j < |fields| ==> KeyOf(fields[j]) != KeyOf(fields[i]))
      ensures KeyOf(fields[i]) in CollectHeaders(lines) && CollectHeaders(lines)[KeyOf(fields[i])] == fields[i].value
    {
      CollectHeadersLastWins(lines, KeyOf(fields[i]), i);
    }
  }

  /** Asking a written request for a header by any capitalisation of its
      name (with `": "`) finds the value of the last field of that name, and
      finds nothing when no field has it. */
  lemma WrittenHeaderLookup(verb: string, path: string, version: string, fields: seq<Field>, body: string, name: string)
    requires Writable(verb, path, version, fields, body)
    ensures Parsable(RequestText(verb, path, version, fields, body))
    ensures var req := NewRequest(RequestText(verb, path, version, fields, body));
      (forall i :: 0 <= i < |fields| ==> ToLower(fields[i].name) != ToLower(name)) ==>
        GetHeader(req, name + FieldSep) == None
    ensures var req := NewRequest(RequestText(verb, path, version, fields, body));
      forall i ::
        (0 <= i < |fields| && ToLower(fields[i].name) == ToLower(name)
         && (forall j :: i < j < |fields| ==> ToLower(fields[j].name) != ToLower(name))) ==>
        GetHeader(req, name + FieldSep) == Some(fields[i].value)
  {
    WrittenHeaders(verb, path, version, fields, body);
    var req := NewRequest(RequestText(verb, path, version, fields, body));
    FieldsLookup(req, fields, name);
  }

  /** Looking up a name in a request whose header map holds the keys of
      `fields`, each with the value of its last field. */
  lemma FieldsLookup(req: Request, fields: seq<Field>, name: string)
    requires forall key :: key in req.headers <==> exists i :: 0 <= i < |fields| && KeyOf(fields[i]) == key
    requires forall i :: 0 <= i < |fields| && (forall j :: i < j < |fields| ==> KeyOf(fields[j]) != KeyOf(fields[i])) ==>
      KeyOf(fields[i]) in req.headers && req.headers[KeyOf(fields[i])] == fields[i].value
    ensures (forall i :: 0 <= i < |fields| ==> ToLower(fields[i].name) != ToLower(name)) ==>
      GetHeader(req, name + FieldSep) == None
    ensures forall i ::
      (0 <= i < |fields| && ToLower(fields[i].name) == ToLower(name)
       && (forall j :: i < j < |fields| ==> ToLower(fields[j].name) != ToLower(name))) ==>
      GetHeader(req, name + FieldSep) == Some(fields[i].value)
  {
    ToLowerConcat(name, FieldSep);
    assert ToLower(FieldSep) == FieldSep;
    var key := ToLower(name) + FieldSep;
    assert ToLower(name + FieldSep) == key;
    forall i | 0 <= i < |fields|
      ensures KeyOf(fields[i]) == key <==> ToLower(fields[i].name) == ToLower(name)
    {
      KeyCancel(ToLower(fields[i].name), ToLower(name));
    }
  }

  lemma KeyCancel(a: string, b: string)
    ensures a + FieldSep == b + FieldSep <==> a == b
  {
    if a + FieldSep == b + FieldSep {
      assert a == (a + FieldSep)[..|a|];
      assert b == (b + FieldSep)[..|b|];
    }
  }

  /** Each field line of a written request yields the field's name and value
      and stores the value under the lower-cased name with `": "`. */
  lemma FieldLineReadsBack(f: Field)
    requires WritableField(f)
    ensures var line := FieldLineText(f);
      && FieldLineOk(line) && |Split(line, FieldSep)| >= 2
      && FieldName(line) == f.name && FieldValue(line) == f.value
      && FieldKey(line) == ToLower(f.name) + FieldSep
  {
    NoCharNoContains(f.name, FieldSep);
    FieldLineParts(f.name, f.value);
  }

  lemma StartLineSingle(verb: string, path: string, version: string)
    requires Token(verb) && Token(path) && Token(version)
    ensures |StartLineText(verb, path, version)| > 0 && SingleLine(StartLineText(verb, path, version))
  {
  }

  lemma FieldLineSingle(f: Field)
    requires WritableField(f)
    ensures |FieldLineText(f)| > 0 && SingleLine(FieldLineText(f))
  {
  }

  /** Without fields, the request text is the start line, CRLF, and CRLF
      with the body. */
  lemma StartLineNoFields(start: string, body: string)
    ensures Join([start], CRLF) + HeaderEnd + body == start + CRLF + (CRLF + body)
  {
    assert HeaderEnd == CRLF + CRLF;
    Regroup(start, CRLF, CRLF, body, "");
  }

  /** With fields, the request text is the start line, CRLF, and the field
      lines with what follows them. */
  lemma StartLineWithFields(start: string, fieldLines: seq<string>, body: string)
    requires |fieldLines| > 0
    ensures Join([start] + fieldLines, CRLF) + HeaderEnd + body
      == start + CRLF + (Join(fieldLines, CRLF) + HeaderEnd + body)
  {
    JoinCons(start, fieldLines, CRLF);
    Regroup(start, CRLF, Join(fieldLines, CRLF), HeaderEnd, body);
  }

  /** Non-empty lines without line breaks, joined by CRLF, hold no empty
      line and do not end in a line feed. */
  lemma {:induction false} SectionHasNoEmptyLine(lines: seq<string>)
    requires |lines| >= 1
    requires forall k :: 0 <= k < |lines| ==> |lines[k]| > 0 && SingleLine(lines[k])
    ensures !Contains(Join(lines, CRLF), HeaderEnd)
    ensures |Join(lines, CRLF)| > 0 && Join(lines, CRLF)[|Join(lines, CRLF)| - 1] != '\n'
    decreases |lines|
  {
    if |lines| == 1 {
      NoCharNoContains(lines[0], HeaderEnd);
    } else {
      SectionHasNoEmptyLine(lines[1..]);
      assert lines[1..][0] == lines[1];
      JoinHead(lines[1..]);
      LineBeforeSection(lines[0], Join(lines[1..], CRLF));
    }
  }

  /** A single line, CRLF, and a text that starts with neither CR nor holds an
      empty line hold no empty line either. */
  lemma LineBeforeSection(first: string, tail: string)
    requires |first| > 0 && SingleLine(first)
    requires |tail| > 0 && tail[0] != '\r' && tail[|tail| - 1] != '\n'
    requires !Contains(tail, HeaderEnd)
    ensures !Contains(first + CRLF + tail, HeaderEnd)
    ensures (first + CRLF + tail)[|first + CRLF + tail| - 1] != '\n'
  {
    var s := first + CRLF + tail;
    forall j: nat | j + 4 <= |s|
      ensures !OccursAt(s, HeaderEnd, j)
    {
      var w := s[j..j + 4];
      if j < |first| {
        assert w[0] == first[j] != HeaderEnd[0];
      } else if j == |first| {
        assert w[2] == tail[0] != HeaderEnd[2];
      } else if j == |first| + 1 {
        assert w[0] == '\n' != HeaderEnd[0];
      } else {
        assert w == tail[j - |first| - 2..j - |first| + 2];
        assert !OccursAt(tail, HeaderEnd, j - |first| - 2);
      }
    }
    assert s[|s| - 1] == tail[|tail| - 1];
  }

  /** A join of non-empty lines starts with the first line's first byte. */
  lemma JoinHead(lines: seq<string>)
    requires |lines| >= 1 && |lines[0]| > 0
    ensures |Join(lines, CRLF)| > 0 && Join(lines, CRLF)[0] == lines[0][0]
  {
  }

  /** The first CRLF CRLF of the request text is the one after the header
      section, and the body runs to the end. */
  lemma SectionEnd(buffer: string, section: string, body: string)
    requires buffer == section + HeaderEnd + body
    requires !Contains(section, HeaderEnd)
    requires |section| > 0 && section[|section| - 1] != '\n'
    requires !Contains(body, HeaderEnd)
    ensures Split(buffer, HeaderEnd) == [section, body]
    ensures HeaderSection(buffer) == section && BodyOk(buffer) && GetRequestBody(buffer) == body
  {
    forall j: nat | j < |section|
      ensures !OccursAt(buffer, HeaderEnd, j)
    {
      if j + 4 <= |section| {
        assert section[j..j + 4] == buffer[j..j + 4];
        assert !OccursAt(section, HeaderEnd, j);
      } else {
        var w := buffer[j..j + 4];
        assert w[|section| - 1 - j] == section[|section| - 1] != '\n';
        assert w[|section| - j] == '\r';
      }
    }
    assert buffer[|section|..|section| + 4] == HeaderEnd;
    assert OccursAt(buffer, HeaderEnd, |section|);
    assert Index(buffer, HeaderEnd) == Some(|section|);
    assert buffer[..|section|] == section;
    assert buffer[|section| + 4..] == body;
    SplitNone(body, HeaderEnd);
  }
}
