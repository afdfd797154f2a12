/**
 Round trips between the serializers and the parsers.
 */
module ResponseTheorems {
  import opened Bytes
  import opened Options
  import opened ParserSpec
  import opened Http1Spec
  import opened ResponseSpec

  /** `w` stands in `s` at `i`. */
  predicate At(s: seq<byte>, i: nat, w: seq<byte>) {
    i + |w| <= |s| && s[i..i + |w|] == w
  }

  lemma AtSplit(s: seq<byte>, i: nat, a: seq<byte>, b: seq<byte>)
    requires At(s, i, a + b)
    ensures At(s, i, a) && At(s, i + |a|, b)
  {
    assert s[i..i + |a + b|][..|a|] == s[i..i + |a|];
    assert s[i..i + |a + b|][|a|..] == s[i + |a|..i + |a| + |b|];
  }

  lemma AtIndex(s: seq<byte>, i: nat, w: seq<byte>, k: nat)
    requires At(s, i, w) && k < |w|
    ensures s[i + k] == w[k]
  {
    assert s[i..i + |w|][k] == w[k];
  }

  // ---- What the cursor routines do on printed text ----

  predicate IsToken(w: seq<byte>) {
    w != [] && forall i :: 0 <= i < |w| ==> IsTokenChar(w[i])
  }

  lemma {:induction false} TokenAt(s: seq<byte>, i: nat, w: seq<byte>, next: byte)
    requires At(s, i, w + [next]) && !IsTokenChar(next)
    requires forall k :: 0 <= k < |w| ==> IsTokenChar(w[k])
    ensures ScanToken(s, i, next) == Ok((), i + |w|)
    decreases |w|
  {
    AtIndex(s, i, w + [next], 0);
    if w != [] {
      assert w + [next] == [w[0]] + (w[1..] + [next]);
      AtSplit(s, i, [w[0]], w[1..] + [next]);
      TokenAt(s, i + 1, w[1..], next);
    }
  }

  lemma {:induction false} TargetAt(s: seq<byte>, i: nat, w: seq<byte>)
    requires At(s, i, w + [SP])
    requires forall k :: 0 <= k < |w| ==> w[k] > SP && w[k] != DEL
    ensures ScanTarget(s, i) == Ok((), i + |w|)
    decreases |w|
  {
    AtIndex(s, i, w + [SP], 0);
    if w != [] {
      assert w + [SP] == [w[0]] + (w[1..] + [SP]);
      AtSplit(s, i, [w[0]], w[1..] + [SP]);
      TargetAt(s, i + 1, w[1..]);
    }
  }

  predicate IsLineText(w: seq<byte>) {
    forall k :: 0 <= k < |w| ==> !IsCtl(w[k])
  }

  lemma {:induction false} CtlAt(s: seq<byte>, i: nat, w: seq<byte>)
    requires At(s, i, w + CRLF) && IsLineText(w)
    ensures ScanToCtl(s, i) == Ok((), i + |w|)
    decreases |w|
  {
    AtIndex(s, i, w + CRLF, 0);
    if w != [] {
      assert w + CRLF == [w[0]] + (w[1..] + CRLF);
      AtSplit(s, i, [w[0]], w[1..] + CRLF);
      CtlAt(s, i + 1, w[1..]);
    }
  }

  lemma CrlfAt(s: seq<byte>, i: nat)
    requires At(s, i, CRLF)
    ensures ParseEol(s, i) == Ok((), i + 2)
  {
    AtIndex(s, i, CRLF, 0);
    AtIndex(s, i, CRLF, 1);
  }

  lemma LineAt(s: seq<byte>, i: nat, w: seq<byte>)
    requires At(s, i, w + CRLF) && IsLineText(w)
    ensures GetTokenToEol(s, i) == Ok(Slice(i, |w|), i + |w| + 2)
  {
    hide ParseEol, ScanToCtl;
    CtlAt(s, i, w);
    AtSplit(s, i, w, CRLF);
    CrlfAt(s, i + |w|);
  }

  // ---- Headers ----

  /** A field value without control characters and without blanks at its ends. */
  predicate IsTrimmed(v: seq<byte>) {
    IsLineText(v) && (v != [] ==> !IsBlank(v[0]) && !IsBlank(v[|v| - 1]))
  }

  predicate IsHeader(h: NameValue) {
    IsToken(h.name) && IsTrimmed(h.value)
  }

  predicate AreHeaders(hs: seq<NameValue>) {
    forall k :: 0 <= k < |hs| ==> IsHeader(hs[k])
  }

  lemma NulFree(w: seq<byte>)
    requires 0 !in w
    ensures UpToNul(w) == w
  {
    assert IndexOf(w, 0) == |w|;
  }

  lemma HeaderLineText(h: NameValue)
    requires IsHeader(h)
    ensures HeaderLine(h) == h.name + ([COLON] + ([SP] + (h.value + CRLF)))
  {
    NulFree(h.name);
    NulFree(h.value);
    assert COLON_SP + (h.value + CRLF) == [COLON] + ([SP] + (h.value + CRLF));
  }

  function HeaderAt(i: nat, h: NameValue): Header {
    Header(Some(Slice(i, |h.name|)), Slice(i + |h.name| + 2, |h.value|))
  }

  lemma OneBlankAt(s: seq<byte>, v: nat, w: seq<byte>)
    requires At(s, v, [SP] + w) && w != [] && !IsBlank(w[0])
    ensures SkipBlanks(s, v) == Ok((), v + 1) && At(s, v + 1, w)
  {
    hide At;
    AtSplit(s, v, [SP], w);
    AtIndex(s, v, [SP], 0);
    AtIndex(s, v + 1, w, 0);
    assert SkipBlanks(s, v) == SkipBlanks(s, v + 1);
  }

  lemma NameAt(s: seq<byte>, i: nat, name: seq<byte>, value: seq<byte>)
    requires At(s, i, name + ([COLON] + ([SP] + (value + CRLF)))) && IsToken(name) && IsTrimmed(value)
    ensures ParseName(s, i) == Ok(Slice(i, |name|), i + |name| + 2)
    ensures At(s, i + |name| + 2, value + CRLF)
  {
    hide ScanToken, SkipBlanks, At;
    var rest := [SP] + (value + CRLF);
    assert name + ([COLON] + rest) == name + [COLON] + rest;
    AtSplit(s, i, name + [COLON], rest);
    TokenAt(s, i, name, COLON);
    OneBlankAt(s, i + |name| + 1, value + CRLF);
  }

  lemma HeaderLineAt(s: seq<byte>, i: nat, h: NameValue, first: bool)
    requires At(s, i, HeaderLine(h)) && IsHeader(h)
    ensures i < |s| && !IsBlank(s[i]) && s[i] != CR && s[i] != LF
    ensures ParseHeaderLine(s, i, first) == Ok(HeaderAt(i, h), i + |HeaderLine(h)|)
  {
    hide ParseName, GetTokenToEol;
    HeaderLineText(h);
    var rest := [COLON] + ([SP] + (h.value + CRLF));
    AtSplit(s, i, h.name, rest);
    AtIndex(s, i, h.name, 0);
    NameAt(s, i, h.name, h.value);
    var v := i + |h.name| + 2;
    LineAt(s, v, h.value);
    AtSplit(s, v, h.value, CRLF);
    if h.value != [] { AtIndex(s, v, h.value, |h.value| - 1); }
  }

  function HeadersAt(i: nat, hs: seq<NameValue>): (r: seq<Header>)
    ensures |r| == |hs|
    decreases |hs|
  {
    if hs == [] then [] else [HeaderAt(i, hs[0])] + HeadersAt(i + |HeaderLine(hs[0])|, hs[1..])
  }

  lemma {:induction false} HeaderSectionAt(s: seq<byte>, i: nat, hs: seq<NameValue>, n: nat, max: nat)
    requires At(s, i, HeaderLines(hs) + CRLF) && AreHeaders(hs) && n + |hs| <= max
    ensures ParseHeaders(s, i, n, max) == Ok(HeadersAt(i, hs), i + |HeaderLines(hs)| + 2)
    decreases |hs|
  {
    hide ParseHeaderLine, ParseEol, HeaderLine, HeaderAt;
    if hs == [] {
      assert HeaderLines(hs) + CRLF == CRLF;
      AtIndex(s, i, CRLF, 0);
      CrlfAt(s, i);
    } else {
      var line, rest := HeaderLine(hs[0]), HeaderLines(hs[1..]);
      assert line + rest + CRLF == line + (rest + CRLF);
      AtSplit(s, i, line, rest + CRLF);
      HeaderLineAt(s, i, hs[0], n == 0);
      HeaderSectionAt(s, i + |line|, hs[1..], n + 1, max);
    }
  }

  function FieldOfPair(h: NameValue): Field {
    Field(Some(h.name), h.value)
  }

  lemma HeaderText(s: seq<byte>, i: nat, h: NameValue)
    requires At(s, i, HeaderLine(h)) && IsHeader(h)
    ensures HeaderAt(i, h).Within(|s|) && FieldOf(s, HeaderAt(i, h)) == FieldOfPair(h)
  {
    hide HeaderLine, IsHeader;
    HeaderLineText(h);
    AtSplit(s, i, h.name, [COLON] + ([SP] + (h.value + CRLF)));
    AtSplit(s, i + |h.name|, [COLON], [SP] + (h.value + CRLF));
    AtSplit(s, i + |h.name| + 1, [SP], h.value + CRLF);
    AtSplit(s, i + |h.name| + 2, h.value, CRLF);
  }

  /** The slices of the header section hold the printed names and values, in order. */
  lemma {:induction false} HeaderTexts(s: seq<byte>, i: nat, hs: seq<NameValue>, k: nat)
    requires At(s, i, HeaderLines(hs)) && AreHeaders(hs) && k < |hs|
    ensures HeadersAt(i, hs)[k].Within(|s|) && FieldOf(s, HeadersAt(i, hs)[k]) == FieldOfPair(hs[k])
    decreases |hs|
  {
    hide HeaderLine, FieldOf, FieldOfPair, HeaderAt, IsHeader;
    AtSplit(s, i, HeaderLine(hs[0]), HeaderLines(hs[1..]));
    if k > 0 {
      HeaderTexts(s, i + |HeaderLine(hs[0])|, hs[1..], k - 1);
    } else {
      HeaderText(s, i, hs[0]);
    }
  }

  lemma HeaderFields(s: seq<byte>, i: nat, hs: seq<NameValue>)
    requires At(s, i, HeaderLines(hs)) && AreHeaders(hs)
    ensures AllWithin(HeadersAt(i, hs), |s|)
    ensures Fields(s, HeadersAt(i, hs)) == seq(|hs|, k requires 0 <= k < |hs| => FieldOfPair(hs[k]))
  {
    forall k | 0 <= k < |hs|
      ensures HeadersAt(i, hs)[k].Within(|s|) && FieldOf(s, HeadersAt(i, hs)[k]) == FieldOfPair(hs[k])
    {
      HeaderTexts(s, i, hs, k);
    }
  }

  // ---- Responses ----

  lemma ThreeDigits(n: nat)
    requires 100 <= n <= 999
    ensures Decimal(n) == [48 + n / 100, 48 + n / 10 % 10, 48 + n % 10]
  {
    assert Decimal(n / 100) == [48 + n / 100];
    assert Decimal(n / 10) == Decimal(n / 100) + [48 + n / 10 % 10];
    assert n / 10 / 10 == n / 100;
  }

  lemma VersionAt(s: seq<byte>, i: nat)
    requires At(s, i, HTTP_1_1) && i + 8 < |s|
    ensures ParseHttpVersion(s, i) == Ok(1, i + 8)
  {
    assert s[i..i + 8][..7] == s[i..i + 7];
    AtIndex(s, i, HTTP_1_1, 7);
  }

  lemma StatusAt(s: seq<byte>, i: nat, status: nat)
    requires At(s, i, Decimal(status)) && 100 <= status <= 999 && i + 3 < |s|
    ensures |Decimal(status)| == 3 && ParseStatus(s, i) == Ok(status, i + 3)
  {
    ThreeDigits(status);
    AtIndex(s, i, Decimal(status), 0);
    AtIndex(s, i, Decimal(status), 1);
    AtIndex(s, i, Decimal(status), 2);
  }

  lemma ReasonAt(s: seq<byte>, i: nat, reason: seq<byte>)
    requires At(s, i, [SP] + (reason + CRLF)) && IsReason(reason)
    ensures ParseReason(s, i) == Ok(Slice(i + 1, |reason|), i + |reason| + 3)
    ensures Text(s, Slice(i + 1, |reason|)) == reason
  {
    hide GetTokenToEol;
    var w := [SP] + reason;
    assert [SP] + (reason + CRLF) == w + CRLF;
    LineAt(s, i, w);
    AtSplit(s, i, w, CRLF);
    AtSplit(s, i, [SP], reason);
    AtIndex(s, i, w, 0);
    AtIndex(s, i, w, 1);
    assert DropSpaces(s, Slice(i, |w|)) == DropSpaces(s, Slice(i + 1, |reason|)) == Slice(i + 1, |reason|);
  }

  lemma StatusLineAt(s: seq<byte>, status: nat)
    requires At(s, 0, StatusLine(status)) && 100 <= status <= 999
    ensures
      var n, reason := |StatusLine(status)|, Slice(13, |Reason(status)|);
      ParseStatusLine(s) == Ok((1, status, reason), n) && n == 15 + |Reason(status)|
          && Text(s, reason) == Reason(status)
  {
    hide Reason, ParseHttpVersion, ParseStatus, ParseReason, IsReason, Decimal;
    var r3 := [SP] + (Reason(status) + CRLF);
    var r2 := Decimal(status) + r3;
    ReasonIsReason(status);
    AtSplit(s, 0, HTTP_1_1, [SP] + r2);
    VersionAt(s, 0);
    AtIndex(s, 8, [SP] + r2, 0);
    AtSplit(s, 8, [SP], r2);
    AtSplit(s, 9, Decimal(status), r3);
    StatusAt(s, 9, status);
    assert s[9] != SP by { ThreeDigits(status); AtIndex(s, 9, Decimal(status), 0); }
    assert SkipSpaces(s, 9) == Ok((), 9);
    ReasonAt(s, 12, Reason(status));
  }

  /** The responses this server sends: a three-digit status, token names, trimmed values. */
  predicate IsResponse(resp: Response) {
    100 <= resp.status <= 999 && AreHeaders(resp.headers)
  }

  lemma SentHeadersAreHeaders(resp: Response)
    requires AreHeaders(resp.headers)
    ensures AreHeaders(SentHeaders(resp))
  {
  }

  /** The list of names and values a header section holds. */
  ghost function Pairs(hs: seq<NameValue>): seq<Field> {
    seq(|hs|, k requires 0 <= k < |hs| => FieldOfPair(hs[k]))
  }

  /**
   Parsing what was serialized, with anything appended, yields the status, the reason phrase
   and the headers in order (Content-Length included), and what follows is the body.
   */
  lemma ResponseRoundTrip(resp: Response, max: nat, t: seq<byte>)
    requires IsResponse(resp) && |SentHeaders(resp)| <= max
    ensures
      var s := Serialized(resp) + t;
      var r := ParseResponse(s, max);
      && r.Ok? && r.value.minor == 1 && r.value.status == resp.status
      && Text(s, r.value.reason) == Reason(resp.status)
      && AllWithin(r.value.headers, |s|) && Fields(s, r.value.headers) == Pairs(SentHeaders(resp))
      && s[r.pos..] == resp.body + t
  {
    hide ParseStatusLine, ParseHeaders, StatusLine, HeaderLines, Fields, Reason, SentHeaders, HeadersAt;
    var s, hs, line := Serialized(resp) + t, SentHeaders(resp), StatusLine(resp.status);
    SentHeadersAreHeaders(resp);
    SerializedParts(resp, t);
    AtSplit(s, 0, line, HeaderLines(hs) + CRLF);
    StatusLineAt(s, resp.status);
    HeaderSectionAt(s, |line|, hs, 0, max);
    AtSplit(s, |line|, HeaderLines(hs), CRLF);
    HeaderFields(s, |line|, hs);
  }

  lemma SerializedParts(resp: Response, t: seq<byte>)
    ensures
      var s, line, hs := Serialized(resp) + t, StatusLine(resp.status), HeaderLines(SentHeaders(resp));
      At(s, 0, line + (hs + CRLF)) && s[|line| + |hs| + 2..] == resp.body + t
  {
    hide StatusLine, HeaderLines, SentHeaders;
    var s, head := Serialized(resp) + t, Head(resp);
    assert s == head + (resp.body + t);
  }

  // ---- Requests ----

  datatype OutRequest = OutRequest(verb: seq<byte>, target: seq<byte>, headers: seq<NameValue>)

  predicate IsRequest(req: OutRequest) {
    && IsToken(req.verb) && AreHeaders(req.headers)
    && req.target != [] && forall k :: 0 <= k < |req.target| ==> req.target[k] > SP && req.target[k] != DEL
  }

  function PrintedRequest(req: OutRequest): seq<byte> {
    req.verb + ([SP] + (req.target + ([SP] + (HTTP_1_1 + (CRLF + (HeaderLines(req.headers) + CRLF))))))
  }

  lemma VerbAt(s: seq<byte>, verb: seq<byte>, rest: seq<byte>)
    requires At(s, 0, verb + ([SP] + rest)) && IsToken(verb) && rest != [] && rest[0] != SP
    ensures ParseToken(s, 0, SP) == Ok(Slice(0, |verb|), |verb|)
    ensures SkipSpaces(s, |verb| + 1) == Ok((), |verb| + 1)
    ensures At(s, 0, verb) && At(s, |verb| + 1, rest)
  {
    hide ScanToken, At;
    AtSplit(s, 0, verb, [SP] + rest);
    assert verb + ([SP] + rest) == verb + [SP] + rest;
    AtSplit(s, 0, verb + [SP], rest);
    TokenAt(s, 0, verb, SP);
    AtIndex(s, |verb| + 1, rest, 0);
    assert |verb| + 1 < |s| by { AtBound(s, |verb| + 1, rest); }
  }

  lemma AtBound(s: seq<byte>, i: nat, w: seq<byte>)
    requires At(s, i, w)
    ensures i + |w| <= |s|
  {
  }

  lemma TargetThenSpaceAt(s: seq<byte>, i: nat, target: seq<byte>, rest: seq<byte>)
    requires At(s, i, target + ([SP] + rest)) && rest != [] && rest[0] != SP
    requires forall k :: 0 <= k < |target| ==> target[k] > SP && target[k] != DEL
    ensures i <= |s| && ParseTarget(s, i) == Ok(Slice(i, |target|), i + |target|)
    ensures i + |target| + 1 <= |s| && SkipSpaces(s, i + |target| + 1) == Ok((), i + |target| + 1)
    ensures At(s, i, target) && At(s, i + |target| + 1, rest)
  {
    hide ScanTarget, At;
    AtSplit(s, i, target, [SP] + rest);
    assert target + ([SP] + rest) == target + [SP] + rest;
    AtSplit(s, i, target + [SP], rest);
    AtBound(s, i + |target| + 1, rest);
    TargetAt(s, i, target);
    AtIndex(s, i + |target| + 1, rest, 0);
  }

  lemma RequestLineAt(s: seq<byte>, req: OutRequest, rest: seq<byte>)
    requires IsRequest(req)
    requires At(s, 0, req.verb + ([SP] + (req.target + ([SP] + (HTTP_1_1 + (CRLF + rest))))))
    ensures
      var v, t := |req.verb|, |req.target|;
      && ParseRequestLine(s, 0) == Ok((Slice(0, v), Slice(v + 1, t), 1), v + t + 12)
      && At(s, v + t + 12, rest)
      && At(s, 0, req.verb) && At(s, v + 1, req.target)
  {
    hide ParseToken, ParseTarget, SkipSpaces, ParseHttpVersion, ParseEol, At;
    var v, t := |req.verb|, |req.target|;
    var e := v + t + 2;
    VerbAt(s, req.verb, req.target + ([SP] + (HTTP_1_1 + (CRLF + rest))));
    TargetThenSpaceAt(s, v + 1, req.target, HTTP_1_1 + (CRLF + rest));
    AtSplit(s, e, HTTP_1_1, CRLF + rest);
    AtSplit(s, e + 8, CRLF, rest);
    AtBound(s, e + 8, CRLF);
    VersionAt(s, e);
    CrlfAt(s, e + 8);
  }

  /** A printed request is read back: method, target and headers, in order. */
  lemma RequestRoundTrip(req: OutRequest, max: nat, t: seq<byte>)
    requires IsRequest(req) && |req.headers| <= max
    ensures
      var s := PrintedRequest(req) + t;
      var r := ParseRequest(s, max);
      && r.Ok? && r.value.minor == 1 && r.pos == |PrintedRequest(req)|
      && Text(s, r.value.verb) == req.verb && Text(s, r.value.target) == req.target
      && AllWithin(r.value.headers, |s|) && Fields(s, r.value.headers) == Pairs(req.headers)
  {
    hide ParseRequestLine, ParseHeaders, HeaderLines, Fields, HeadersAt;
    var s, hs := PrintedRequest(req) + t, HeaderLines(req.headers);
    assert At(s, 0, PrintedRequest(req));
    RequestLineAt(s, req, hs + CRLF);
    assert s[0] == req.verb[0] && IsTokenChar(s[0]);
    var i := |req.verb| + |req.target| + 12;
    HeaderSectionAt(s, i, req.headers, 0, max);
    AtSplit(s, i, hs, CRLF);
    HeaderFields(s, i, req.headers);
  }

  /** End to end: the reader reports a printed acceptable request as soon as its last byte is there. */
  lemma Http1RoundTrip(req: OutRequest, t: seq<byte>)
    requires IsRequest(req) && |req.headers| <= MAX_HEADERS && |req.target| <= MAX_URI_SIZE
    requires Acceptable(Pairs(req.headers), 1)
    ensures
      var r := ParseHttp1(PrintedRequest(req) + t);
      && r.Done? && r.consumed == |PrintedRequest(req)|
      && r.req.verb == ParseVerb(req.verb)
      && r.req.contentLength == ContentLengthOf(Pairs(req.headers))
      && r.req.keepAlive == KeepAliveOf(Pairs(req.headers), 1)
    ensures
      var s := PrintedRequest(req) + t;
      var r := ParseHttp1(s).req;
      && r.path.Within(|s|) && Text(s, r.path) == req.target[..IndexOf(req.target, QUESTION)]
      && (r.query.Some? <==> QUESTION in req.target)
      && (r.query.Some? ==> r.query.value.Within(|s|)
                            && req.target == Text(s, r.path) + [QUESTION] + Text(s, r.query.value))
      && AllWithin(r.headers, |s|) && Fields(s, r.headers) == Pairs(req.headers)
  {
    hide ParseRequest, Acceptable, Fields, Pairs, ParseVerb, KeepAliveOf, ContentLengthOf;
    RequestRoundTrip(req, MAX_HEADERS, t);
    var s := PrintedRequest(req) + t;
    var raw := ParseRequest(s, MAX_HEADERS).value;
    assert |Text(s, raw.target)| == raw.target.len;
    hide PrintedRequest;
    PathSplits(s, raw.target);
    PathText(s, raw.target);
  }

  /** The path is the target up to the first question mark. */
  lemma PathText(s: seq<byte>, target: Slice)
    requires target.Within(|s|)
    ensures
      var (path, query) := PathOf(target, Text(s, target));
      && path.Within(|s|) && Text(s, path) == Text(s, target)[..IndexOf(Text(s, target), QUESTION)]
      && (query.Some? <==> QUESTION in Text(s, target))
  {
    var text := Text(s, target);
    var q := IndexOf(text, QUESTION);
    assert q == |text| ==> QUESTION !in text;
    assert Text(s, Slice(target.start, q)) == text[..q];
  }
}
