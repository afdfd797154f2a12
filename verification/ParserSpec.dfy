/**
 The HTTP/1.x message parser: what each cursor routine yields on the bytes received so far.
 Results name the bytes by position, as the parser's out-parameters do.
 */
module ParserSpec {
  import opened Bytes
  import opened Options

  /** Need more bytes, malformed, or a value and the position behind it. */
  datatype Parsed<+T> = More | Bad | Ok(value: T, pos: nat) {
    predicate IsFailure() { !Ok? }

    function PropagateFailure<U>(): Parsed<U>
      requires IsFailure()
    {
      if More? then More else Bad
    }

    function Extract(): (T, nat)
      requires !IsFailure()
    {
      (value, pos)
    }
  }

  datatype Slice = Slice(start: nat, len: nat) {
    predicate Within(n: nat) { start + len <= n }
  }

  function Text(s: seq<byte>, slice: Slice): seq<byte>
    requires slice.Within(|s|)
  {
    s[slice.start..slice.start + slice.len]
  }

  /** `name` is `None` on a continuation line. */
  datatype Header = Header(name: Option<Slice>, value: Slice) {
    predicate Within(n: nat) { (name.Some? ==> name.value.Within(n)) && value.Within(n) }
  }

  const COLON: byte := 58
  const DEL: byte := 127

  predicate IsDigit(b: byte) { 48 <= b <= 57 }

  function DigitValue(b: byte): (v: nat)
    requires IsDigit(b)
    ensures v <= 9
  {
    b as int - 48
  }

  predicate IsAlpha(b: byte) { 65 <= b <= 90 || 97 <= b <= 122 }

  /** The token characters of section 5.6.2 of RFC 9110. */
  predicate IsTokenChar(b: byte) {
    || IsDigit(b) || IsAlpha(b)
    || b == 33 || 35 <= b <= 39 || b == 42 || b == 43 || b == 45 || b == 46
    || 94 <= b <= 96 || b == 124 || b == 126
  }

  /** A control character that ends a line or does not belong in one. */
  predicate IsCtl(b: byte) { (b < SP && b != TAB) || b == DEL }

  predicate IsPrintableAscii(b: byte) { 32 <= b < 127 }

  // ---- Cursor routines ----

  function ScanToken(s: seq<byte>, i: nat, next: byte): (r: Parsed<()>)
    requires i <= |s|
    ensures r.Ok? ==> i <= r.pos < |s| && s[r.pos] == next
    decreases |s| - i
  {
    if i == |s| then More
    else if s[i] == next then Ok((), i)
    else if !IsTokenChar(s[i]) then Bad
    else ScanToken(s, i + 1, next)
  }

  function ParseToken(s: seq<byte>, i: nat, next: byte): (r: Parsed<Slice>)
    requires i <= |s|
    ensures r.Ok? ==> i <= r.pos < |s| && r.value == Slice(i, r.pos - i) && s[r.pos] == next
  {
    var ((), e) :- ScanToken(s, i, next);
    Ok(Slice(i, e - i), e)
  }

  function ScanTarget(s: seq<byte>, i: nat): (r: Parsed<()>)
    requires i <= |s|
    ensures r.Ok? ==> i <= r.pos < |s| && s[r.pos] == SP
    decreases |s| - i
  {
    if i == |s| then More
    else if s[i] == SP then Ok((), i)
    else if s[i] < SP || s[i] == DEL then Bad
    else ScanTarget(s, i + 1)
  }

  function ParseTarget(s: seq<byte>, i: nat): (r: Parsed<Slice>)
    requires i <= |s|
    ensures r.Ok? ==> i <= r.pos < |s| && r.value == Slice(i, r.pos - i) && s[r.pos] == SP
  {
    var ((), e) :- ScanTarget(s, i);
    Ok(Slice(i, e - i), e)
  }

  function SkipSpaces(s: seq<byte>, i: nat): (r: Parsed<()>)
    requires i <= |s|
    ensures r.Ok? ==> i <= r.pos < |s| && s[r.pos] != SP
    ensures !r.Bad?
    decreases |s| - i
  {
    if i == |s| then More else if s[i] == SP then SkipSpaces(s, i + 1) else Ok((), i)
  }

  function SkipBlanks(s: seq<byte>, i: nat): (r: Parsed<()>)
    requires i <= |s|
    ensures r.Ok? ==> i <= r.pos < |s| && !IsBlank(s[r.pos])
    ensures !r.Bad?
    decreases |s| - i
  {
    if i == |s| then More else if IsBlank(s[i]) then SkipBlanks(s, i + 1) else Ok((), i)
  }

  function ScanToCtl(s: seq<byte>, i: nat): (r: Parsed<()>)
    requires i <= |s|
    ensures r.Ok? ==> i <= r.pos < |s| && IsCtl(s[r.pos])
    ensures !r.Bad?
    decreases |s| - i
  {
    if i == |s| then More else if IsCtl(s[i]) then Ok((), i) else ScanToCtl(s, i + 1)
  }

  /** A line end at `i`: CRLF or a bare LF. */
  function ParseEol(s: seq<byte>, i: nat): (r: Parsed<()>)
    requires i <= |s|
    ensures r.Ok? ==> i < r.pos <= |s|
  {
    if i == |s| then More
    else if s[i] == CR then
      if i + 1 == |s| then More else if s[i + 1] == LF then Ok((), i + 2) else Bad
    else if s[i] == LF then Ok((), i + 1)
    else Bad
  }

  function GetTokenToEol(s: seq<byte>, i: nat): (r: Parsed<Slice>)
    requires i <= |s|
    ensures r.Ok? ==> i < r.pos <= |s| && r.value.start == i && r.value.Within(r.pos)
    ensures r.Ok? ==> i + r.value.len < r.pos && IsCtl(s[i + r.value.len])
  {
    var ((), c) :- ScanToCtl(s, i);
    var ((), e) :- ParseEol(s, c);
    Ok(Slice(i, c - i), e)
  }

  /** Drop trailing blanks from the `len` bytes at `start`. */
  function TrimmedLen(s: seq<byte>, start: nat, len: nat): (n: nat)
    requires start + len <= |s|
    ensures n <= len
  {
    if len > 0 && IsBlank(s[start + len - 1]) then TrimmedLen(s, start, len - 1) else len
  }

  // ---- Headers ----

  function ParseName(s: seq<byte>, i: nat): (r: Parsed<Slice>)
    requires i <= |s|
    ensures r.Ok? ==> i < r.pos < |s| && r.value.Within(r.pos)
  {
    var (name, e) :- ParseToken(s, i, COLON);
    if name.len == 0 then Bad
    else
      var ((), v) :- SkipBlanks(s, e + 1);
      Ok(name, v)
  }

  /** One header line. Only lines after the first can be continuation lines. */
  function ParseHeaderLine(s: seq<byte>, i: nat, first: bool): (r: Parsed<Header>)
    requires i < |s|
    ensures r.Ok? ==> i < r.pos <= |s| && r.value.Within(r.pos)
  {
    if !first && IsBlank(s[i]) then
      var (value, e) :- GetTokenToEol(s, i);
      Ok(Header(None, Slice(i, TrimmedLen(s, i, value.len))), e)
    else
      var (name, v) :- ParseName(s, i);
      var (value, e) :- GetTokenToEol(s, v);
      Ok(Header(Some(name), Slice(v, TrimmedLen(s, v, value.len))), e)
  }

  predicate AllWithin(hs: seq<Header>, n: nat) {
    forall k :: 0 <= k < |hs| ==> hs[k].Within(n)
  }

  /** The header section from `i` on, `n` headers having been parsed before. */
  function ParseHeaders(s: seq<byte>, i: nat, n: nat, max: nat): (r: Parsed<seq<Header>>)
    requires i <= |s| && n <= max
    ensures r.Ok? ==> i < r.pos <= |s| && AllWithin(r.value, r.pos) && n + |r.value| <= max
    decreases |s| - i
  {
    if i == |s| then More
    else if s[i] == CR || s[i] == LF then
      var ((), e) :- ParseEol(s, i);
      Ok([], e)
    else if n == max then Bad
    else
      var (h, e) :- ParseHeaderLine(s, i, n == 0);
      var (hs, e') :- ParseHeaders(s, e, n + 1, max);
      Ok([h] + hs, e')
  }

  // ---- Start lines ----

  /** "HTTP/1." and a digit, looked at only once nine bytes are there. */
  function ParseHttpVersion(s: seq<byte>, i: nat): (r: Parsed<nat>)
    requires i <= |s|
    ensures r.Ok? ==> r.pos == i + 8 < |s| && r.value <= 9
  {
    if |s| - i < 9 then More
    else if s[i..i + 7] == [72, 84, 84, 80, 47, 49, 46] && IsDigit(s[i + 7]) then Ok(DigitValue(s[i + 7]), i + 8)
    else Bad
  }

  datatype RawRequest = RawRequest(verb: Slice, target: Slice, minor: nat, headers: seq<Header>)

  /** Some clients add an empty line after a body; one is skipped. */
  function SkipEmptyLine(s: seq<byte>): (r: Parsed<()>)
    ensures r.Ok? ==> r.pos <= |s|
  {
    if |s| == 0 then More
    else if s[0] == CR || s[0] == LF then ParseEol(s, 0)
    else Ok((), 0)
  }

  function ParseRequestLine(s: seq<byte>, i: nat): (r: Parsed<(Slice, Slice, nat)>)
    requires i <= |s|
    ensures r.Ok? ==> i < r.pos <= |s| && r.value.0.Within(r.pos) && r.value.1.Within(r.pos)
  {
    var (verb, e1) :- ParseToken(s, i, SP);
    var ((), t) :- SkipSpaces(s, e1 + 1);
    var (target, e2) :- ParseTarget(s, t);
    var ((), v) :- SkipSpaces(s, e2 + 1);
    if verb.len == 0 || target.len == 0 then Bad
    else
      var (minor, e3) :- ParseHttpVersion(s, v);
      var ((), e4) :- ParseEol(s, e3);
      Ok((verb, target, minor), e4)
  }

  function ParseRequest(s: seq<byte>, max: nat): (r: Parsed<RawRequest>)
    ensures r.Ok? ==> 0 < r.pos <= |s| && AllWithin(r.value.headers, r.pos) && |r.value.headers| <= max
    ensures r.Ok? ==> r.value.verb.Within(r.pos) && r.value.target.Within(r.pos)
  {
    var ((), i) :- SkipEmptyLine(s);
    var (line, e) :- ParseRequestLine(s, i);
    var (headers, end) :- ParseHeaders(s, e, 0, max);
    Ok(RawRequest(line.0, line.1, line.2, headers), end)
  }

  datatype RawResponse = RawResponse(minor: nat, status: nat, reason: Slice, headers: seq<Header>)

  /** Three digits, looked at only once a fourth byte is there. */
  function ParseStatus(s: seq<byte>, i: nat): (r: Parsed<nat>)
    requires i <= |s|
    ensures r.Ok? ==> r.pos == i + 3 < |s| && r.value <= 999
  {
    if |s| - i < 4 then More
    else if IsDigit(s[i]) && IsDigit(s[i + 1]) && IsDigit(s[i + 2]) then
      Ok(100 * DigitValue(s[i]) + 10 * DigitValue(s[i + 1]) + DigitValue(s[i + 2]), i + 3)
    else Bad
  }

  /** The reason phrase: the rest of the line without the spaces in front of it. */
  function ParseReason(s: seq<byte>, i: nat): (r: Parsed<Slice>)
    requires i <= |s|
    ensures r.Ok? ==> i < r.pos <= |s| && r.value.Within(r.pos)
  {
    var (line, e) :- GetTokenToEol(s, i);
    if line.len == 0 then Ok(line, e)
    else if s[i] == SP then Ok(DropSpaces(s, line), e)
    else Bad
  }

  function DropSpaces(s: seq<byte>, slice: Slice): (r: Slice)
    requires slice.Within(|s|)
    ensures r.start + r.len == slice.start + slice.len
    decreases slice.len
  {
    if slice.len > 0 && s[slice.start] == SP then DropSpaces(s, Slice(slice.start + 1, slice.len - 1)) else slice
  }

  function ParseStatusLine(s: seq<byte>): (r: Parsed<(nat, nat, Slice)>)
    ensures r.Ok? ==> 0 < r.pos <= |s| && r.value.2.Within(r.pos)
  {
    var (minor, v) :- ParseHttpVersion(s, 0);
    if s[v] != SP then Bad
    else
      var ((), t) :- SkipSpaces(s, v + 1);
      var (status, e) :- ParseStatus(s, t);
      var (reason, end) :- ParseReason(s, e);
      Ok((minor, status, reason), end)
  }

  function ParseResponse(s: seq<byte>, max: nat): (r: Parsed<RawResponse>)
    ensures r.Ok? ==> 0 < r.pos <= |s| && AllWithin(r.value.headers, r.pos) && |r.value.headers| <= max
    ensures r.Ok? ==> r.value.reason.Within(r.pos)
  {
    var (line, e) :- ParseStatusLine(s);
    var (headers, end) :- ParseHeaders(s, e, 0, max);
    Ok(RawResponse(line.0, line.1, line.2, headers), end)
  }
}
