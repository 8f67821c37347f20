/** The constants of app/main.go: line endings, status lines, header names
    (with the trailing ": " the source attaches to them), content types and
    the one supported content coding. */
module Protocol {

  const CRLF: string := "\r\n"
  /** The empty line that ends a header section. */
  const HeaderEnd: string := "\r\n\r\n"
  /** What separates a field name from its value. */
  const FieldSep: string := ": "

  // Status lines
  const StatusOK: string := "HTTP/1.1 200 OK"
  const StatusCreated: string := "HTTP/1.1 201 Created"
  const StatusNotFound: string := "HTTP/1.1 404 Not Found"

  // Header names, and the same names with the trailing ": " the source
  // attaches to its constants (`"User-Agent: "` and so on); the latter are
  // used both to look request headers up and to write response headers.
  const UserAgentName: string := "User-Agent"
  const AcceptEncodingName: string := "Accept-Encoding"
  const ConnectionName: string := "Connection"
  const ContentTypeName: string := "Content-Type"
  const ContentLengthName: string := "Content-Length"
  const ContentEncodingName: string := "Content-Encoding"

  const UserAgentHeader: string := UserAgentName + FieldSep
  const AcceptEncodingHeader: string := AcceptEncodingName + FieldSep
  const ConnectionHeader: string := ConnectionName + FieldSep
  const ContentTypeHeader: string := ContentTypeName + FieldSep
  const ContentLengthHeader: string := ContentLengthName + FieldSep
  const ContentEncodingHeader: string := ContentEncodingName + FieldSep

  // Content types
  const PlainText: string := "text/plain"
  const OctetStream: string := "application/octet-stream"

  const ConnectionClose: string := "close"
  const Gzip: string := "gzip"
  /** The content codings the server can apply. */
  const SupportedEncodings: set<string> := {Gzip}
  /** What separates the entries of an Accept-Encoding value. */
  const EncodingSep: string := ", "
}
