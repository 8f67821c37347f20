/** The message layout of section 2.1 of RFC 9112 as far as this server uses
    it: a start line, CRLF-terminated `name: value` field lines, an empty
    line, and the body. `Serialize` writes a message; `ParseMessage` is an
    independent reader (a client's view) used to state what the response
    builders emit. */
module HttpMessage {
  import opened Options
  import opened GoStrings
  import opened Protocol

  datatype Field = Field(name: string, value: string)

  datatype Message = Message(startLine: string, fields: seq<Field>, body: string)

  /** One field line, without its line ending. */
  function FieldLineText(f: Field): string
  {
    f.name + FieldSep + f.value
  }

  function FieldLines(fields: seq<Field>): string
  {
    if |fields| == 0 then ""
    else FieldLineText(fields[0]) + CRLF + FieldLines(fields[1..])
  }

  function Serialize(m: Message): string
  {
    m.startLine + CRLF + FieldLines(m.fields) + CRLF + m.body
  }

  /** The text up to the first CRLF, and the text after it. */
  function ReadLine(s: string): (r: Option<(string, string)>)
    ensures r.None? <==> !Contains(s, CRLF)
    ensures r.Some? ==> r.value.0 + CRLF + r.value.1 == s && !Contains(r.value.0, CRLF)
  {
    match Index(s, CRLF)
    case None => None
    case Some(i) =>
      NoOccurrenceBefore(s, CRLF, i);
      SliceAround(s, i, 2);
      Some((s[..i], s[i + 2..]))
  }

  /** Field lines up to the empty line; the rest is the body. */
  function ReadFields(s: string): Option<(seq<Field>, string)>
    decreases |s|
  {
    if |s| >= 2 && s[..2] == CRLF then Some(([], s[2..]))
    else
      match ReadLine(s)
      case None => None
      case Some((line, rest)) =>
        match Index(line, FieldSep)
        case None => None
        case Some(k) =>
          match ReadFields(rest)
          case None => None
          case Some((fields, body)) => Some(([Field(line[..k], line[k + 2..])] + fields, body))
  }

  function ParseMessage(s: string): Option<Message>
  {
    match ReadLine(s)
    case None => None
    case Some((start, rest)) =>
      match ReadFields(rest)
      case None => None
      case Some((fields, body)) => Some(Message(start, fields, body))
  }

  /** A field a reader can take back apart: a non-empty name without spaces
      or line feeds, and a value without line feeds. */
  predicate WellFormedField(f: Field)
  {
    |f.name| > 0 && NoChar(f.name, ' ') && NoChar(f.name, '\n') && NoChar(f.value, '\n')
  }

  predicate WellFormed(m: Message)
  {
    NoChar(m.startLine, '\n') && forall i :: 0 <= i < |m.fields| ==> WellFormedField(m.fields[i])
  }

  /** The value of the first field called `name`. */
  function FieldValueOf(fields: seq<Field>, name: string): Option<string>
  {
    if |fields| == 0 then None
    else if fields[0].name == name then Some(fields[0].value)
    else FieldValueOf(fields[1..], name)
  }

  // ---------------------------------------------------------------------
  // Lemmas
  // ---------------------------------------------------------------------

  lemma {:induction false} FieldLinesAppend(xs: seq<Field>, ys: seq<Field>)
    ensures FieldLines(xs + ys) == FieldLines(xs) + FieldLines(ys)
    decreases |xs|
  {
    if |xs| > 0 {
      assert (xs + ys)[1..] == xs[1..] + ys;
      assert (xs + ys)[0] == xs[0];
      FieldLinesAppend(xs[1..], ys);
      var head := FieldLineText(xs[0]) + CRLF;
      assert FieldLines(xs + ys) == head + FieldLines(xs[1..] + ys);
    } else {
      assert xs + ys == ys;
    }
  }

  lemma {:induction false} FieldValueOfAppend(xs: seq<Field>, ys: seq<Field>, name: string)
    ensures FieldValueOf(xs + ys, name) ==
      if FieldValueOf(xs, name).Some? then FieldValueOf(xs, name) else FieldValueOf(ys, name)
    decreases |xs|
  {
    if |xs| > 0 {
      assert (xs + ys)[1..] == xs[1..] + ys;
      FieldValueOfAppend(xs[1..], ys, name);
    } else {
      assert xs + ys == ys;
    }
  }

  /** Reading a field line back gives the field. */
  lemma ReadFieldLine(f: Field, rest: string)
    requires WellFormedField(f)
    ensures var line := f.name + FieldSep + f.value;
      && ReadLine(line + CRLF + rest) == Some((line, rest))
      && Index(line, FieldSep) == Some(|f.name|)
      && line[..|f.name|] == f.name && line[|f.name| + 2..] == f.value
  {
    var line := f.name + FieldSep + f.value;
    assert NoChar(line, '\n');
    NoCharNoContains(line, CRLF);
    IndexAfter(line, CRLF, rest);
    NoCharNoContains(f.name, FieldSep);
    IndexAfter(f.name, FieldSep, f.value);
  }

  /** The reader takes serialized field lines back apart. */
  lemma {:induction false} ReadFieldLines(fields: seq<Field>, body: string)
    requires forall i :: 0 <= i < |fields| ==> WellFormedField(fields[i])
    ensures ReadFields(FieldLines(fields) + CRLF + body) == Some((fields, body))
    decreases |fields|
  {
    if |fields| == 0 {
      ReadNoFields(fields, body);
    } else {
      ReadFieldLines(fields[1..], body);
      ReadFieldsStep(fields, body);
    }
  }

  /** The empty line right away: no fields, and the rest is the body. */
  lemma ReadNoFields(fields: seq<Field>, body: string)
    requires |fields| == 0
    ensures ReadFields(FieldLines(fields) + CRLF + body) == Some((fields, body))
  {
    var s := FieldLines(fields) + CRLF + body;
    assert s == CRLF + body;
    assert s[..2] == CRLF && s[2..] == body;
  }

  /** Reading one more well-formed field line in front of lines that read
      back. */
  lemma ReadFieldsStep(fields: seq<Field>, body: string)
    requires |fields| > 0 && WellFormedField(fields[0])
    requires ReadFields(FieldLines(fields[1..]) + CRLF + body) == Some((fields[1..], body))
    ensures ReadFields(FieldLines(fields) + CRLF + body) == Some((fields, body))
  {
    var rest := FieldLines(fields[1..]) + CRLF + body;
    ReadOneField(fields[0], rest);
    Regroup(FieldLineText(fields[0]) + CRLF, FieldLines(fields[1..]), CRLF, body, "");
    assert fields == [fields[0]] + fields[1..];
  }

  /** One step of the reader: a field line in front of more text. */
  lemma ReadOneField(f: Field, rest: string)
    requires WellFormedField(f)
    ensures var s := FieldLineText(f) + CRLF + rest;
      match ReadFields(rest)
      case None => ReadFields(s).None?
      case Some((fields, body)) => ReadFields(s) == Some(([f] + fields, body))
  {
    var s := FieldLineText(f) + CRLF + rest;
    ReadFieldLine(f, rest);
    assert s[1] != '\n' by {
      if |f.name| >= 2 {
        assert s[1] == f.name[1];
      } else {
        assert s[1] == ':';
      }
    }
  }

  /** Reading a serialized well-formed message gives the message back. */
  lemma ParseSerialize(m: Message)
    requires WellFormed(m)
    ensures ParseMessage(Serialize(m)) == Some(m)
  {
    var rest := FieldLines(m.fields) + CRLF + m.body;
    assert Serialize(m) == m.startLine + CRLF + rest;
    NoCharNoContains(m.startLine, CRLF);
    IndexAfter(m.startLine, CRLF, rest);
    ReadFieldLines(m.fields, m.body);
  }
}
