/** Parsing one read buffer into a request: request line, header map and body
    (app/main.go `getRequestLineParts`, `getRequestHeaders`, `getRequestBody`,
    `NewRequest`). Every place where the Go code would panic on a malformed
    buffer is a precondition here. */
module HttpRequest {
  import opened Options
  import opened GoStrings
  import opened Protocol

  /** A parsed request; `verb` is the method token. The connection handle and wait group the Go struct
      carries are not part of the model. Header keys are the lower-cased field
      name followed by `": "`. */
  datatype Request = Request(
    verb: string,
    path: string,
    version: string,
    headers: map<string, string>,
    body: string)

  datatype RequestLine = RequestLine(verb: string, path: string, version: string)

  // ---------------------------------------------------------------------
  // Request line
  // ---------------------------------------------------------------------

  /** The text before the first CRLF of the buffer. */
  function FirstLine(buffer: string): string
  {
    Split(buffer, CRLF)[0]
  }

  function RequestLineTokens(buffer: string): seq<string>
  {
    Split(FirstLine(buffer), " ")
  }

  /** Go indexes token 1 unconditionally, so a request line with a single
      token panics. */
  predicate RequestLineOk(buffer: string)
  {
    |RequestLineTokens(buffer)| >= 2
  }

  /** Method, path and version. Three tokens give all three; any other count
      (at least two) leaves the path empty and takes token 1 as the version.
      The method is the text of the first line up to its first space. */
  function GetRequestLineParts(buffer: string): (r: RequestLine)
    requires RequestLineOk(buffer)
    ensures FirstLine(buffer) <= buffer && !Contains(FirstLine(buffer), CRLF)
    ensures r.verb + " " <= FirstLine(buffer) && NoChar(r.verb, ' ')
  {
    var tokens := RequestLineTokens(buffer);
    SplitHead(buffer, CRLF);
    SplitHead(FirstLine(buffer), " ");
    ContainsChar(tokens[0], ' ');
    if |tokens| == 3 then RequestLine(tokens[0], tokens[1], tokens[2])
    else RequestLine(tokens[0], "", tokens[1])
  }

  // ---------------------------------------------------------------------
  // Header map
  // ---------------------------------------------------------------------

  /** The text before the first empty line (all of it if there is none). */
  function HeaderSection(buffer: string): string
  {
    Split(buffer, HeaderEnd)[0]
  }

  /** The lines of the header section after the request line. */
  function HeaderLines(buffer: string): seq<string>
  {
    Split(HeaderSection(buffer), CRLF)[1..]
  }

  /** Go indexes piece 1 of every non-empty header line split on `": "`, so a
      line without `": "` panics. */
  predicate FieldLineOk(line: string)
  {
    line == "" || |Split(line, FieldSep)| >= 2
  }

  predicate FieldLinesOk(lines: seq<string>)
  {
    forall k :: 0 <= k < |lines| ==> FieldLineOk(lines[k])
  }

  function FieldName(line: string): string
  {
    Split(line, FieldSep)[0]
  }

  /** Piece 1 of the line split on `": "`: the text between the first and the
      second `": "` (or the end of the line). */
  function FieldValue(line: string): string
    requires |Split(line, FieldSep)| >= 2
  {
    Split(line, FieldSep)[1]
  }

  /** The map key a field line is stored under. */
  function FieldKey(line: string): string
  {
    ToLower(FieldName(line)) + FieldSep
  }

  /** The line `line` stores a value under `key`. */
  predicate DefinesKey(line: string, key: string)
  {
    line != "" && |Split(line, FieldSep)| >= 2 && FieldKey(line) == key
  }

  /** Line `i` is the last of `lines` to store a value under `key`. */
  predicate LastDefines(lines: seq<string>, key: string, i: int)
  {
    && 0 <= i < |lines|
    && DefinesKey(lines[i], key)
    && forall j :: i < j < |lines| ==> !DefinesKey(lines[j], key)
  }

  /** The header loop: lines in order, empty lines skipped, later lines
      overwriting earlier ones. */
  function CollectHeaders(lines: seq<string>): map<string, string>
    requires FieldLinesOk(lines)
    decreases |lines|
  {
    if |lines| == 0 then map[]
    else
      var earlier := CollectHeaders(lines[..|lines| - 1]);
      var line := lines[|lines| - 1];
      if line == "" then earlier else earlier[FieldKey(line) := FieldValue(line)]
  }

  predicate HeadersOk(buffer: string)
  {
    FieldLinesOk(HeaderLines(buffer))
  }

  function GetRequestHeaders(buffer: string): map<string, string>
    requires HeadersOk(buffer)
  {
    CollectHeaders(HeaderLines(buffer))
  }

  // ---------------------------------------------------------------------
  // Body and the whole request
  // ---------------------------------------------------------------------

  /** Go indexes piece 1 of the buffer split on CRLF CRLF, so a buffer without
      an empty line panics. */
  predicate BodyOk(buffer: string)
  {
    |Split(buffer, HeaderEnd)| >= 2
  }

  /** The body: the text after the first CRLF CRLF up to the second one (or
      the end of the buffer, padding included). */
  function GetRequestBody(buffer: string): (body: string)
    requires BodyOk(buffer)
    ensures Index(buffer, HeaderEnd).Some?
    ensures var rest := buffer[Index(buffer, HeaderEnd).value + |HeaderEnd|..];
      && body <= rest
      && !Contains(body, HeaderEnd)
      && (body == rest || OccursAt(rest, HeaderEnd, |body|))
      && Index(rest, HeaderEnd) == if body == rest then None else Some(|body|)
  {
    SplitHead(buffer, HeaderEnd);
    var n := |Split(buffer, HeaderEnd)[0]|;
    var rest := buffer[n + |HeaderEnd|..];
    FirstPieceEnds(rest, HeaderEnd);
    SplitHead(rest, HeaderEnd);
    FirstPieceAt(rest, HeaderEnd);
    Split(buffer, HeaderEnd)[1]
  }

  /** A buffer the Go parser gets through without a panic. */
  predicate Parsable(buffer: string)
  {
    RequestLineOk(buffer) && HeadersOk(buffer) && BodyOk(buffer)
  }

  function NewRequest(buffer: string): Request
    requires Parsable(buffer)
  {
    var line := GetRequestLineParts(buffer);
    Request(line.verb, line.path, line.version, GetRequestHeaders(buffer), GetRequestBody(buffer))
  }

  // ---------------------------------------------------------------------
  // Lemmas
  // ---------------------------------------------------------------------

  /** A request line of three space-free tokens yields them as method, path
      and version. */
  lemma RequestLineThreeTokens(m: string, p: string, v: string, rest: string)
    requires NoChar(m, ' ') && NoChar(p, ' ') && NoChar(v, ' ')
    requires !Contains(m + " " + p + " " + v, CRLF)
    ensures RequestLineOk(m + " " + p + " " + v + CRLF + rest)
    ensures GetRequestLineParts(m + " " + p + " " + v + CRLF + rest) == RequestLine(m, p, v)
  {
    var line := m + " " + p + " " + v;
    LineBeforeCrlf(line, rest);
    ThreeTokens(m, p, v);
  }

  /** The first line of `line` CRLF `rest` is `line`. */
  lemma LineBeforeCrlf(line: string, rest: string)
    requires !Contains(line, CRLF)
    ensures FirstLine(line + CRLF + rest) == line
  {
    SplitAfter(line, CRLF, rest);
  }

  lemma ThreeTokens(m: string, p: string, v: string)
    requires NoChar(m, ' ') && NoChar(p, ' ') && NoChar(v, ' ')
    ensures Split(m + " " + p + " " + v, " ") == [m, p, v]
  {
    ContainsChar(m, ' ');
    ContainsChar(p, ' ');
    ContainsChar(v, ' ');
    SplitAfter(p, " ", v);
    SplitNone(v, " ");
    assert m + " " + p + " " + v == m + " " + (p + " " + v);
    SplitAfter(m, " ", p + " " + v);
  }

  /** A request line of two space-free tokens yields an empty path and the
      second token as the version. */
  lemma RequestLineTwoTokens(m: string, v: string, rest: string)
    requires NoChar(m, ' ') && NoChar(v, ' ')
    requires !Contains(m + " " + v, CRLF)
    ensures RequestLineOk(m + " " + v + CRLF + rest)
    ensures GetRequestLineParts(m + " " + v + CRLF + rest) == RequestLine(m, "", v)
  {
    var line := m + " " + v;
    SplitAfter(line, CRLF, rest);
    assert FirstLine(line + CRLF + rest) == line;
    ContainsChar(m, ' ');
    ContainsChar(v, ' ');
    SplitNone(v, " ");
    SplitAfter(m, " ", v);
  }

  /** A request line of four or more tokens also leaves the path empty and
      takes the second token as the version; the tokens after it are dropped. */
  lemma RequestLineManyTokens(m: string, v: string, more: string, rest: string)
    requires NoChar(m, ' ') && NoChar(v, ' ') && !NoChar(more, ' ')
    requires !Contains(m + " " + v + " " + more, CRLF)
    ensures |RequestLineTokens(m + " " + v + " " + more + CRLF + rest)| >= 4
    ensures RequestLineOk(m + " " + v + " " + more + CRLF + rest)
    ensures GetRequestLineParts(m + " " + v + " " + more + CRLF + rest) == RequestLine(m, "", v)
  {
    var line := m + " " + v + " " + more;
    LineBeforeCrlf(line, rest);
    ContainsChar(m, ' ');
    ContainsChar(v, ' ');
    ContainsChar(more, ' ');
    SplitHead(more, " ");
    SplitAfter(v, " ", more);
    assert line == m + " " + (v + " " + more);
    SplitAfter(m, " ", v + " " + more);
  }

  /** Splitting the header section on CRLF starts with the same line as
      splitting the whole buffer: the first CRLF of the buffer is either inside
      the header section or opens the empty line that ends it. */
  lemma FirstLineOfSection(buffer: string)
    ensures Split(HeaderSection(buffer), CRLF)[0] == FirstLine(buffer)
  {
    SectionBounds(buffer);
    FirstLineOfPrefix(buffer, |HeaderSection(buffer)|);
  }

  /** The header section is a prefix of the buffer that runs to its end or
      to a CRLF CRLF. */
  lemma SectionBounds(buffer: string)
    ensures var h := |HeaderSection(buffer)|;
      && h <= |buffer| && HeaderSection(buffer) == buffer[..h]
      && (h == |buffer| || OccursAt(buffer, HeaderEnd, h))
  {
    SplitHead(buffer, HeaderEnd);
    if |Split(buffer, HeaderEnd)| >= 2 {
      IndexIsOccurrence(buffer, HeaderEnd);
    }
  }

  /** A prefix running to the end or to a CRLF CRLF has the same first line. */
  lemma FirstLineOfPrefix(s: string, h: nat)
    requires h <= |s| && (h == |s| || OccursAt(s, HeaderEnd, h))
    ensures Split(s[..h], CRLF)[0] == Split(s, CRLF)[0]
  {
    var r := Index(s, CRLF);
    if r.Some? && r.value + 2 <= h {
      CrlfInsidePrefix(s, h);
    } else if h < |s| {
      CrlfAtPrefixEnd(s, h);
    } else {
      assert s[..h] == s;
    }
  }

  /** A prefix holding the first CRLF has the same first line. */
  lemma CrlfInsidePrefix(s: string, h: nat)
    requires h <= |s| && Index(s, CRLF).Some? && Index(s, CRLF).value + 2 <= h
    ensures Split(s[..h], CRLF)[0] == Split(s, CRLF)[0]
  {
    var c := Index(s, CRLF).value;
    IndexInPrefix(s, CRLF, h);
    FirstPieceAt(s, CRLF);
    FirstPieceAt(s[..h], CRLF);
    assert s[..h][..c] == s[..c];
  }

  /** A prefix ending where CRLF CRLF starts, with no CRLF completed before,
      is the first line. */
  lemma CrlfAtPrefixEnd(s: string, h: nat)
    requires h < |s| && OccursAt(s, HeaderEnd, h)
    requires !(Index(s, CRLF).Some? && Index(s, CRLF).value + 2 <= h)
    ensures Split(s[..h], CRLF)[0] == Split(s, CRLF)[0]
  {
    FirstCrlfAt(s, h);
    CrlfAtEnd(s, h);
  }

  lemma FirstCrlfAt(s: string, h: nat)
    requires h < |s| && OccursAt(s, HeaderEnd, h)
    requires !(Index(s, CRLF).Some? && Index(s, CRLF).value + 2 <= h)
    ensures Index(s, CRLF) == Some(h)
  {
    CrlfOpensHeaderEnd(s, h);
    assert Contains(s, CRLF);
  }

  lemma CrlfAtEnd(s: string, h: nat)
    requires h <= |s| && Index(s, CRLF) == Some(h)
    ensures Split(s[..h], CRLF)[0] == Split(s, CRLF)[0]
  {
    FirstPieceAt(s, CRLF);
    IndexInPrefix(s, CRLF, h);
    FirstPieceAt(s[..h], CRLF);
  }

  /** Where CRLF CRLF occurs, CRLF occurs, and no CRLF ends one byte into it. */
  lemma CrlfOpensHeaderEnd(s: string, h: nat)
    requires OccursAt(s, HeaderEnd, h)
    ensures OccursAt(s, CRLF, h)
    ensures h > 0 ==> !OccursAt(s, CRLF, h - 1)
  {
    assert s[h..h + 2] == s[h..h + 4][..2];
    assert s[h] == s[h..h + 4][0];
  }

  /** The request line and the header lines are exactly the CRLF-separated
      lines in front of the first empty line. */
  lemma HeaderLinesFollowRequestLine(buffer: string)
    ensures [FirstLine(buffer)] + HeaderLines(buffer) == Split(HeaderSection(buffer), CRLF)
    ensures Join([FirstLine(buffer)] + HeaderLines(buffer), CRLF) == HeaderSection(buffer)
    ensures HeaderSection(buffer) <= buffer && !Contains(HeaderSection(buffer), HeaderEnd)
    ensures BodyOk(buffer) ==> HeaderSection(buffer) + HeaderEnd <= buffer
    ensures BodyOk(buffer) ==> Index(buffer, HeaderEnd) == Some(|HeaderSection(buffer)|)
  {
    SplitHead(buffer, HeaderEnd);
    FirstLineOfSection(buffer);
    var lines := Split(HeaderSection(buffer), CRLF);
    assert lines == [lines[0]] + lines[1..];
    JoinSplit(HeaderSection(buffer), CRLF);
  }

  /** The header map holds exactly the keys some non-empty header line
      defines. */
  lemma {:induction false} CollectHeadersKeys(lines: seq<string>, key: string)
    requires FieldLinesOk(lines)
    ensures key in CollectHeaders(lines) <==> exists i :: 0 <= i < |lines| && DefinesKey(lines[i], key)
    decreases |lines|
  {
    if |lines| > 0 {
      var n := |lines| - 1;
      var earlier := lines[..n];
      EarlierLinesOk(lines);
      CollectHeadersKeys(earlier, key);
      SomeInPrefixOrLast(lines, earlier, line => DefinesKey(line, key));
    }
  }

  lemma EarlierLinesOk(lines: seq<string>)
    requires |lines| > 0 && FieldLinesOk(lines)
    ensures FieldLinesOk(lines[..|lines| - 1])
  {
    var earlier := lines[..|lines| - 1];
    forall k | 0 <= k < |earlier| ensures FieldLineOk(earlier[k]) {
      assert earlier[k] == lines[k];
    }
  }

  /** Some element satisfies `p` when the last one does or an earlier one
      does. */
  lemma SomeInPrefixOrLast<T>(xs: seq<T>, earlier: seq<T>, p: T -> bool)
    requires |xs| > 0 && earlier == xs[..|xs| - 1]
    ensures (exists i :: 0 <= i < |xs| && p(xs[i])) <==>
      p(xs[|xs| - 1]) || exists i :: 0 <= i < |earlier| && p(earlier[i])
  {
    if exists i :: 0 <= i < |xs| && p(xs[i]) {
      var i :| 0 <= i < |xs| && p(xs[i]);
      if i < |xs| - 1 {
        assert earlier[i] == xs[i];
      }
    }
    if exists i :: 0 <= i < |xs| - 1 && p(earlier[i]) {
      var i :| 0 <= i < |xs| - 1 && p(earlier[i]);
      assert earlier[i] == xs[i];
    }
  }

  /** The value stored under a key is that of the last line defining it: a
      later duplicate overwrites an earlier one. */
  lemma {:induction false} CollectHeadersLastWins(lines: seq<string>, key: string, i: int)
    requires FieldLinesOk(lines)
    requires LastDefines(lines, key, i)
    ensures key in CollectHeaders(lines)
    ensures CollectHeaders(lines)[key] == FieldValue(lines[i])
    decreases |lines|
  {
    var n := |lines| - 1;
    var earlier := lines[..n];
    EarlierLinesOk(lines);
    if i < n {
      LastDefinesEarlier(lines, key, i);
      CollectHeadersLastWins(earlier, key, i);
      assert !DefinesKey(lines[n], key);
    }
  }

  /** The last line defining a key before the final line is also the last
      one among the earlier lines. */
  lemma LastDefinesEarlier(lines: seq<string>, key: string, i: int)
    requires LastDefines(lines, key, i) && i < |lines| - 1
    ensures LastDefines(lines[..|lines| - 1], key, i)
  {
    var earlier := lines[..|lines| - 1];
    forall j | i < j < |earlier| ensures !DefinesKey(earlier[j], key) {
      assert earlier[j] == lines[j];
    }
  }

  /** A field line `name: value` with neither part holding `": "` yields that
      name and value. */
  lemma FieldLineParts(name: string, value: string)
    requires !Contains(name, FieldSep) && !Contains(value, FieldSep)
    ensures |Split(name + FieldSep + value, FieldSep)| >= 2
    ensures FieldName(name + FieldSep + value) == name
    ensures FieldValue(name + FieldSep + value) == value
  {
    SplitAfter(name, FieldSep, value);
    SplitNone(value, FieldSep);
  }

  /** A value that itself holds `": "` is cut at it: only the text up to the
      second `": "` of the line is kept. */
  lemma FieldValueTruncated(name: string, value: string, more: string)
    requires !Contains(name, FieldSep) && !Contains(value, FieldSep)
    ensures |Split(name + FieldSep + value + FieldSep + more, FieldSep)| >= 2
    ensures FieldValue(name + FieldSep + value + FieldSep + more) == value
  {
    assert name + FieldSep + value + FieldSep + more == name + FieldSep + (value + FieldSep + more);
    SplitAfter(name, FieldSep, value + FieldSep + more);
    SplitAfter(value, FieldSep, more);
  }
}
