/**
 The HTTP/1.1 request reader as it runs: one pass over the headers that raises flags and
 stops at a violation, then one that fills in the request record.
 */
module Http1 {
  import opened Bytes
  import opened Options
  import opened ParserSpec
  import Parser
  import opened Http1Spec

  method IsValidContentLength(value: seq<byte>) returns (ok: bool)
    ensures ok == AllDigits(value)
  {
    if |value| == 0 { return false; }
    for i := 0 to |value|
      invariant forall k :: 0 <= k < i ==> IsDigit(value[k])
    {
      if value[i] < 48 || value[i] > 57 { return false; }
    }
    return true;
  }

  lemma WrapDigit(x: nat, d: nat)
    ensures Wrap64(Wrap64(x) * 10 + d) == Wrap64(x * 10 + d)
  {
    var q := x / TWO_TO_THE_64;
    AddMultiple(Wrap64(x) * 10 + d, q * 10, TWO_TO_THE_64);
    assert Wrap64(x) * 10 + d + TWO_TO_THE_64 * (q * 10) == x * 10 + d;
  }

  /** The accumulation is 64 bits wide and unchecked. */
  method ParseContentLength(value: seq<byte>) returns (result: nat)
    requires AllDigits(value)
    ensures result == Wrap64(DecimalValue(value))
  {
    result := 0;
    for i := 0 to |value|
      invariant result == Wrap64(DecimalValue(value[..i]))
    {
      assert value[..i + 1][..i] == value[..i];
      WrapDigit(DecimalValue(value[..i]), DigitValue(value[i]));
      result := Wrap64(result * 10 + DigitValue(value[i]));
    }
    assert value[..|value|] == value;
  }

  method IsChunkedLast(value: seq<byte>) returns (ok: bool)
    ensures ok == ChunkedIsLast(value)
  {
    var j := 0;
    while j + 7 <= |value|
      invariant 0 <= j <= |value|
      invariant forall k: nat | k < j :: !ChunkedAt(value, k)
    {
      if SameNoCase(value[j..j + 7], CHUNKED) {
        assert ChunkedAt(value, j);
        var after := j + 7;
        while after < |value| && (value[after] == SP || value[after] == TAB)
          invariant j + 7 <= after <= |value|
          invariant forall k :: j + 7 <= k < after ==> IsBlank(value[k])
        {
          after := after + 1;
        }
        return after == |value|;
      }
      j := j + 1;
    }
    return true;
  }

  ghost predicate Seen(fs: seq<Field>, n: nat, name: seq<byte>)
    requires n <= |fs|
  {
    exists i :: 0 <= i < n && fs[i].Is(name)
  }

  /** The violations of the first `n` fields alone. */
  ghost predicate CleanUpTo(fs: seq<Field>, n: nat)
    requires n <= |fs|
  {
    && (forall i :: 0 <= i < n ==> fs[i].name.Some?)
    && (forall i, j :: 0 <= i < j < n ==> !(fs[i].Is(CONTENT_LENGTH) && fs[j].Is(CONTENT_LENGTH)))
    && (forall i :: 0 <= i < n && fs[i].Is(CONTENT_LENGTH) ==> AllDigits(fs[i].value))
    && (forall i :: 0 <= i < n && fs[i].Is(TRANSFER_ENCODING) ==> ChunkedIsLast(fs[i].value))
  }

  /** The scan for smuggling: true exactly on the acceptable header sections. */
  method ScanFields(fs: seq<Field>, minor: nat) returns (ok: bool, contentLength: nat)
    ensures ok == Acceptable(fs, minor)
    ensures ok ==> contentLength == ContentLengthOf(fs)
  {
    hide SameNoCase, ChunkedIsLast, AllDigits;
    var hasContentLength, hasTransferEncoding, hasHost := false, false, false;
    contentLength := 0;
    for i := 0 to |fs|
      invariant CleanUpTo(fs, i)
      invariant hasContentLength == Seen(fs, i, CONTENT_LENGTH)
      invariant hasTransferEncoding == Seen(fs, i, TRANSFER_ENCODING)
      invariant hasHost == Seen(fs, i, HOST)
      invariant contentLength == ContentLengthOf(fs[..i])
    {
      assert fs[..i + 1][..i] == fs[..i];
      var f := fs[i];
      if f.name.None? { return false, 0; }
      if f.Is(CONTENT_LENGTH) {
        if hasContentLength { return false, 0; }
        hasContentLength := true;
        var digits := IsValidContentLength(f.value);
        if !digits { return false, 0; }
        contentLength := ParseContentLength(f.value);
      }
      if f.Is(TRANSFER_ENCODING) {
        hasTransferEncoding := true;
        var last := IsChunkedLast(f.value);
        if !last { return false, 0; }
      }
      if f.Is(HOST) { hasHost := true; }
    }
    assert fs[..|fs|] == fs;
    if hasContentLength && hasTransferEncoding { return false, 0; }
    if minor >= 1 && !hasHost { return false, 0; }
    return true, contentLength;
  }

  method ExtractFields(fs: seq<Field>, hs: seq<Header>, minor: nat)
    returns (keepAlive: bool, contentType: Option<nat>, host: Option<nat>)
    requires |fs| == |hs|
    ensures keepAlive == KeepAliveOf(fs, minor)
    ensures contentType == ValueOf(fs, hs, CONTENT_TYPE) && host == ValueOf(fs, hs, HOST)
  {
    hide SameNoCase;
    keepAlive, contentType, host := minor >= 1, None, None;
    for i := 0 to |fs|
      invariant keepAlive == KeepAliveOf(fs[..i], minor)
      invariant contentType == ValueOf(fs[..i], hs[..i], CONTENT_TYPE) && host == ValueOf(fs[..i], hs[..i], HOST)
    {
      assert fs[..i + 1][..i] == fs[..i] && hs[..i + 1][..i] == hs[..i];
      var f := fs[i];
      if f.Is(CONTENT_TYPE) { contentType := Some(hs[i].value.start); }
      if f.Is(HOST) { host := Some(hs[i].value.start); }
      if f.Is(CONNECTION) {
        if SameNoCase(f.value, CLOSE) {
          keepAlive := false;
        } else if SameNoCase(f.value, KEEP_ALIVE) {
          keepAlive := true;
        }
      }
    }
    assert fs[..|fs|] == fs && hs[..|hs|] == hs;
  }

  method ParseHttp1Request(buf: seq<byte>) returns (r: Outcome)
    ensures r == ParseHttp1(buf)
  {
    if |buf| == 0 { return Again; }
    hide ParseRequest, Acceptable, Fields;
    var raw := Parser.ParseRequest(buf, MAX_HEADERS);
    if raw.More? { return Again; }
    if raw.Bad? { return Invalid; }
    if raw.value.target.len > MAX_URI_SIZE { return TooBig; }
    var verb := ParseVerb(Text(buf, raw.value.verb));
    var (path, query) := PathOf(raw.value.target, Text(buf, raw.value.target));
    var fs := Fields(buf, raw.value.headers);
    var ok, contentLength := ScanFields(fs, raw.value.minor);
    if !ok { return Invalid; }
    var keepAlive, contentType, host := ExtractFields(fs, raw.value.headers, raw.value.minor);
    return Done(Request(verb, path, query, raw.value.minor, keepAlive, contentLength, raw.value.headers,
                        contentType, host), raw.pos);
  }
}
