/**
 Serializing a response, and the round trip: the response parser reads back exactly what was
 serialized (sections 4 and 5 of RFC 9112), and the request parser reads back a request
 written the same way.
 */
module ResponseSpec {
  import opened Bytes
  import opened ParserSpec
  import opened Http1Spec

  datatype NameValue = NameValue(name: seq<byte>, value: seq<byte>)

  datatype Response = Response(status: nat, headers: seq<NameValue>, body: seq<byte>, chunked: bool)

  const COLON_SP: seq<byte> := [COLON, SP]
  const HTTP_1_1: seq<byte> := [72, 84, 84, 80, 47, 49, 46, 49]

  function Ascii(s: string): seq<byte> {
    seq(|s|, i requires 0 <= i < |s| => s[i] as int % 256)
  }

  /** A reason phrase: printable, not empty, not starting with a space. */
  predicate IsPhrase(s: string) {
    s != "" && ' ' < s[0] && forall i :: 0 <= i < |s| ==> ' ' <= s[i] <= '~'
  }

  type Phrase = s: string | IsPhrase(s) witness "OK"

  function SuccessText(status: nat): Phrase {
    match status
    case 100 => "Continue"
    case 101 => "Switching Protocols"
    case 200 => "OK"
    case 201 => "Created"
    case 202 => "Accepted"
    case 204 => "No Content"
    case 206 => "Partial Content"
    case _ => "Unknown"
  }

  function RedirectText(status: nat): Phrase {
    match status
    case 301 => "Moved Permanently"
    case 302 => "Found"
    case 304 => "Not Modified"
    case 307 => "Temporary Redirect"
    case 308 => "Permanent Redirect"
    case _ => "Unknown"
  }

  function ClientErrorText(status: nat): Phrase {
    match status
    case 400 => "Bad Request"
    case 401 => "Unauthorized"
    case 403 => "Forbidden"
    case 404 => "Not Found"
    case 405 => "Method Not Allowed"
    case 406 => "Not Acceptable"
    case 408 => "Request Timeout"
    case _ => "Unknown"
  }

  function RequestErrorText(status: nat): Phrase {
    match status
    case 409 => "Conflict"
    case 411 => "Length Required"
    case 413 => "Content Too Large"
    case 414 => "URI Too Long"
    case _ => "Unknown"
  }

  function ContentErrorText(status: nat): Phrase {
    match status
    case 415 => "Unsupported Media Type"
    case 416 => "Range Not Satisfiable"
    case 422 => "Unprocessable Content"
    case 429 => "Too Many Requests"
    case _ => "Unknown"
  }

  function ServerErrorText(status: nat): Phrase {
    match status
    case 500 => "Internal Server Error"
    case 501 => "Not Implemented"
    case 502 => "Bad Gateway"
    case 503 => "Service Unavailable"
    case 504 => "Gateway Timeout"
    case _ => "Unknown"
  }

  /** The reason phrase of a status code. */
  function StatusText(status: nat): Phrase {
    if status < 300 then SuccessText(status)
    else if status < 400 then RedirectText(status)
    else if status < 409 then ClientErrorText(status)
    else if status < 415 then RequestErrorText(status)
    else if status < 500 then ContentErrorText(status)
    else ServerErrorText(status)
  }

  /** What `IsPhrase` says of the bytes. */
  predicate IsReason(r: seq<byte>) {
    r != [] && r[0] != SP && forall i :: 0 <= i < |r| ==> IsPrintableAscii(r[i])
  }

  function Reason(status: nat): seq<byte> {
    Ascii(StatusText(status))
  }

  lemma AsciiOfPhrase(s: string)
    requires IsPhrase(s)
    ensures IsReason(Ascii(s))
  {
    forall i | 0 <= i < |s| ensures IsPrintableAscii(Ascii(s)[i]) {}
  }

  lemma ReasonIsReason(status: nat)
    ensures IsReason(Reason(status))
  {
    hide StatusText, IsPhrase, IsReason;
    AsciiOfPhrase(StatusText(status));
  }

  /** A number in decimal, as "%u" and "%zu" print it. */
  function Decimal(n: nat): (r: seq<byte>)
    ensures AllDigits(r)
  {
    if n < 10 then [48 + n] else Decimal(n / 10) + [48 + n % 10]
  }

  lemma {:induction false} DecimalRoundTrip(n: nat)
    ensures DecimalValue(Decimal(n)) == n
    decreases n
  {
    if n < 10 {
      assert [48 + n][..0] == [];
    } else {
      DecimalRoundTrip(n / 10);
      var d := Decimal(n);
      assert d[..|d| - 1] == Decimal(n / 10);
    }
  }

  /** "%.*s" stops at a NUL. */
  function UpToNul(s: seq<byte>): seq<byte> {
    s[..IndexOf(s, 0)]
  }

  function StatusLine(status: nat): seq<byte> {
    HTTP_1_1 + ([SP] + (Decimal(status) + ([SP] + (Reason(status) + CRLF))))
  }

  function HeaderLine(h: NameValue): seq<byte> {
    UpToNul(h.name) + (COLON_SP + (UpToNul(h.value) + CRLF))
  }

  function HeaderLines(hs: seq<NameValue>): seq<byte> {
    if hs == [] then [] else HeaderLine(hs[0]) + HeaderLines(hs[1..])
  }

  /** The caller's headers, and Content-Length for a body that is not sent in chunks. */
  function SentHeaders(resp: Response): seq<NameValue> {
    resp.headers +
    if |resp.body| > 0 && !resp.chunked then [NameValue(CONTENT_LENGTH, Decimal(|resp.body|))] else []
  }

  function Head(resp: Response): seq<byte> {
    StatusLine(resp.status) + (HeaderLines(SentHeaders(resp)) + CRLF)
  }

  function Serialized(resp: Response): seq<byte> {
    Head(resp) + resp.body
  }
}
