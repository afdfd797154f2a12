/**
 From received bytes to a decision: what the receive handler makes of the bytes collected so
 far, and that the decision does not depend on how they arrived.
 */
module ReceiveSpec {
  import opened Bytes
  import opened Options
  import opened ParserSpec
  import opened ParserPrompt
  import opened Http1Spec
  import opened ResponseSpec
  import opened ResponseTheorems
  import ConnSpec

  datatype Limits = Limits(maxHeaderSize: nat, maxBodySize: nat)

  /** `used` counts the request's bytes, header and body. */
  datatype Decision =
    | HeadersTooLarge
    | ContentTooLarge
    | BadRequest
    | NeedHeaders
    | NeedBody
    | Dispatch(req: Request, body: seq<byte>, used: nat)

  predicate Waits(d: Decision) { d.NeedHeaders? || d.NeedBody? }

  function DecideBody(lim: Limits, s: seq<byte>, req: Request, n: nat): Decision
    requires n <= |s|
  {
    if req.contentLength > lim.maxBodySize then ContentTooLarge
    else if |s| - n < req.contentLength then NeedBody
    else Dispatch(req, s[n..n + req.contentLength], n + req.contentLength)
  }

  function Decide(lim: Limits, s: seq<byte>): (d: Decision)
    ensures d.Dispatch? ==> 0 < d.used <= |s|
  {
    if |s| > lim.maxHeaderSize then HeadersTooLarge
    else
      ConsumedFits(s);
      match ParseHttp1(s)
      case Again => NeedHeaders
      case Invalid => BadRequest
      case TooBig => BadRequest
      case Done(req, n) => DecideBody(lim, s, req, n)
  }

  /** The reader never reports more bytes than there are. */
  lemma ConsumedFits(s: seq<byte>)
    ensures ParseHttp1(s).Done? ==> 0 < ParseHttp1(s).consumed <= |s|
  {
    hide ParseRequest, Acceptable, RequestOf, Fields, Text;
  }

  /** The reader's result stands on every prefix that holds the whole header. */
  lemma Http1Prompt(s: seq<byte>, k: nat)
    requires ParseHttp1(s).Done? && ParseHttp1(s).consumed <= k <= |s|
    ensures ParseHttp1(s[..k]) == ParseHttp1(s)
  {
    hide ParseRequest, Acceptable, RequestOf, Fields, Text;
    RequestPrompt(s[..k], s, MAX_HEADERS);
    Http1Final(s[..k], s);
  }

  /** Within the header limit, more bytes change no decision: same request, same body, same count. */
  lemma DecisionFinal(lim: Limits, s: seq<byte>, t: seq<byte>)
    requires s <= t && |t| <= lim.maxHeaderSize && !Waits(Decide(lim, s))
    ensures Decide(lim, t) == Decide(lim, s)
  {
    hide ParseHttp1;
    Http1Final(s, t);
    ConsumedFits(s);
    var r := ParseHttp1(s);
    if r.Done? && r.consumed + r.req.contentLength <= |s| {
      assert s[r.consumed..r.consumed + r.req.contentLength] == t[r.consumed..r.consumed + r.req.contentLength];
    }
  }

  /** A request is dispatched with its last byte, of header or body, and not before. */
  lemma DispatchPrompt(lim: Limits, s: seq<byte>, k: nat)
    requires Decide(lim, s).Dispatch? && k <= |s|
    ensures if k < Decide(lim, s).used then Waits(Decide(lim, s[..k])) else Decide(lim, s[..k]) == Decide(lim, s)
  {
    hide ParseHttp1;
    ConsumedFits(s);
    var r := ParseHttp1(s);
    if k < r.consumed {
      Http1NeedsAll(s, k);
    } else {
      Http1Prompt(s, k);
      var e := r.consumed + r.req.contentLength;
      if e <= k { assert s[..k][r.consumed..e] == s[r.consumed..e]; }
    }
  }

  // ---- Several receives ----

  predicate AllNonEmpty(frags: seq<seq<byte>>) { forall i :: 0 <= i < |frags| ==> frags[i] != [] }

  /**
   The handler over successive receives into its buffer of 8192 bytes: it collects bytes as long as it waits. A
   receive takes what there is room for. One without bytes ends the connection, be it that the peer has finished or
   that the buffer is full.
   */
  function Receive(lim: Limits, have: seq<byte>, frags: seq<seq<byte>>): Option<Decision>
    requires |have| <= ConnSpec.RECV_BUF_SIZE
    decreases |frags|
  {
    if frags == [] || !Waits(Decide(lim, have)) then Some(Decide(lim, have))
    else if frags[0] == [] then None
    else
      var got := have + frags[0];
      if |got| <= ConnSpec.RECV_BUF_SIZE then Receive(lim, got, frags[1..])
      else
        var d := Decide(lim, got[..ConnSpec.RECV_BUF_SIZE]);
        if Waits(d) then None else Some(d)
  }

  /** Within the header limit and the buffer the decision is that on all the bytes at once, however they arrive. */
  lemma {:induction false} SplitReceives(lim: Limits, have: seq<byte>, frags: seq<seq<byte>>)
    requires AllNonEmpty(frags) && |have + Flatten(frags)| <= ConnSpec.RECV_BUF_SIZE
    requires |have + Flatten(frags)| <= lim.maxHeaderSize
    ensures Receive(lim, have, frags) == Some(Decide(lim, have + Flatten(frags)))
    decreases |frags|
  {
    hide Decide;
    if frags == [] {
      assert have + [] == have;
    } else if Waits(Decide(lim, have)) {
      assert have + frags[0] + Flatten(frags[1..]) == have + Flatten(frags);
      SplitReceives(lim, have + frags[0], frags[1..]);
    } else {
      DecisionFinal(lim, have, have + Flatten(frags));
    }
  }

  /**
   Of bytes that the buffer can hold, in general: a split is invisible exactly if the first part decides nothing, or
   the whole is within the limit, or the first part is beyond it.
   */
  lemma SplitExactly(lim: Limits, a: seq<byte>, b: seq<byte>)
    requires b != [] && |a + b| <= ConnSpec.RECV_BUF_SIZE
    ensures
      Receive(lim, a, [b]) == Some(Decide(lim, a + b))
      <==> Waits(Decide(lim, a)) || |a + b| <= lim.maxHeaderSize || |a| > lim.maxHeaderSize
  {
    hide ParseHttp1;
    if |a + b| <= lim.maxHeaderSize {
      assert Flatten([b]) == b + [] == b;
      SplitReceives(lim, a, [b]);
    }
  }

  /**
   A complete request within the limit, with more bytes behind it in the same receive than the limit allows, is
   refused.
   */
  lemma PipelinedBytesRefused(lim: Limits, a: seq<byte>, b: seq<byte>)
    requires Decide(lim, a).Dispatch? && lim.maxHeaderSize < |a + b| <= ConnSpec.RECV_BUF_SIZE
    ensures Receive(lim, a, [b]) == Some(Decide(lim, a)) && Decide(lim, a + b).HeadersTooLarge?
  {
  }

  /** The receive buffer holds 8192 bytes: from that limit on, the default, no request is refused for its size. */
  lemma DefaultLimitRefusesNone(lim: Limits, s: seq<byte>)
    requires lim.maxHeaderSize >= ConnSpec.RECV_BUF_SIZE && |s| <= ConnSpec.RECV_BUF_SIZE
    ensures !Decide(lim, s).HeadersTooLarge?
  {
    hide ParseHttp1;
  }

  // ---- How long a request may be ----

  /** `s` is a request: a header the reader accepts, and as many bytes behind it as it announces. */
  predicate IsMessage(s: seq<byte>) {
    var r := ParseHttp1(s);
    r.Done? && r.consumed + r.req.contentLength == |s|
  }

  lemma MessageDecided(lim: Limits, s: seq<byte>)
    requires IsMessage(s)
    ensures
      var r := ParseHttp1(s);
      && r.consumed <= |s|
      && if r.req.contentLength <= lim.maxBodySize && |s| <= lim.maxHeaderSize
         then Decide(lim, s) == Dispatch(r.req, s[r.consumed..], |s|) else !Decide(lim, s).Dispatch?
  {
    hide ParseHttp1;
    ConsumedFits(s);
    var r := ParseHttp1(s);
    assert s[r.consumed..|s|] == s[r.consumed..];
  }

  /** A prefix on which a request is dispatched holds all of it. */
  lemma DispatchedPrefix(lim: Limits, s: seq<byte>, k: nat)
    requires IsMessage(s) && k <= |s| && Decide(lim, s[..k]).Dispatch?
    ensures k == |s|
  {
    hide ParseHttp1;
    Http1Final(s[..k], s);
    ConsumedFits(s[..k]);
  }

  lemma {:induction false} ReceiveDispatches(lim: Limits, s: seq<byte>, k: nat, frags: seq<seq<byte>>)
    requires IsMessage(s) && k <= |s| && k <= ConnSpec.RECV_BUF_SIZE && s[..k] + Flatten(frags) == s
    requires AllNonEmpty(frags)
    ensures
      var r := Receive(lim, s[..k], frags);
      if Decide(lim, s).Dispatch? && |s| <= ConnSpec.RECV_BUF_SIZE then r == Some(Decide(lim, s))
      else r.None? || !r.value.Dispatch?
    decreases |frags|
  {
    hide Decide, IsMessage;
    var d, have := Decide(lim, s), s[..k];
    assert |s| == k + |Flatten(frags)|;
    if d.Dispatch? { WholeUsed(lim, s); DispatchPrompt(lim, s, k); }
    if Decide(lim, have).Dispatch? { DispatchedPrefix(lim, s, k); }
    assert k == |s| ==> have == s;
    if frags == [] {
      assert k == |s|;
    } else if Waits(Decide(lim, have)) {
      var k' := k + |frags[0]|;
      FlattenStep(s, k, frags);
      if k' <= ConnSpec.RECV_BUF_SIZE {
        ReceiveDispatches(lim, s, k', frags[1..]);
      } else {
        assert s[..k'][..ConnSpec.RECV_BUF_SIZE] == s[..ConnSpec.RECV_BUF_SIZE];
        if Decide(lim, s[..ConnSpec.RECV_BUF_SIZE]).Dispatch? { DispatchedPrefix(lim, s, ConnSpec.RECV_BUF_SIZE); }
      }
    }
  }

  lemma WholeUsed(lim: Limits, s: seq<byte>)
    requires IsMessage(s) && Decide(lim, s).Dispatch?
    ensures Decide(lim, s).used == |s|
  {
    hide ParseHttp1;
  }

  lemma FlattenStep(s: seq<byte>, k: nat, frags: seq<seq<byte>>)
    requires k <= |s| && frags != [] && s[..k] + Flatten(frags) == s
    ensures
      var k' := k + |frags[0]|;
      k' <= |s| && s[..k] + frags[0] == s[..k'] && s[..k'] + Flatten(frags[1..]) == s
  {
    var k' := k + |frags[0]|;
    assert s == s[..k] + frags[0] + Flatten(frags[1..]);
    assert s[..k'] == s[..k] + frags[0];
  }

  /**
   A request with a header of `n` and a body of `c` bytes is dispatched, however its bytes arrive, if and only if the
   body is within its limit and header and body together are within both the header limit and the buffer.
   */
  lemma DispatchedExactly(lim: Limits, s: seq<byte>, frags: seq<seq<byte>>)
    requires IsMessage(s) && Flatten(frags) == s && AllNonEmpty(frags)
    ensures
      var n, c, r := ParseHttp1(s).consumed, ParseHttp1(s).req.contentLength, Receive(lim, [], frags);
      && |s| == n + c
      && (r.Some? && r.value.Dispatch?
          <==> c <= lim.maxBodySize && n + c <= lim.maxHeaderSize && n + c <= ConnSpec.RECV_BUF_SIZE)
      && (r.Some? && r.value.Dispatch? ==> r.value == Dispatch(ParseHttp1(s).req, s[n..], n + c))
  {
    hide ParseHttp1, Decide, Receive;
    MessageDecided(lim, s);
    assert s[..0] == [] && [] + Flatten(frags) == s;
    ReceiveDispatches(lim, s, 0, frags);
  }

  // ---- Examples ----

  /** GET / HTTP/1.1 with the header Host: a...a, `n` times the letter. */
  function HostRequest(n: nat): OutRequest {
    OutRequest([71, 69, 84], [47], [NameValue(HOST, seq(n, _ => 97))])
  }

  const EXAMPLE: OutRequest := HostRequest(1)

  lemma HostDecides(lim: Limits, n: nat, t: seq<byte>)
    requires n > 0 && 26 + n + |t| <= lim.maxHeaderSize
    ensures
      var d := Decide(lim, PrintedRequest(HostRequest(n)) + t);
      |PrintedRequest(HostRequest(n))| == 26 + n && d.Dispatch? && d.used == 26 + n && d.req.keepAlive && d.body == []
  {
    hide ParseHttp1, PrintedRequest, Acceptable, ContentLengthOf, KeepAliveOf;
    HostLength(n);
    HostAcceptable(n);
    Http1RoundTrip(HostRequest(n), t);
  }

  lemma HostLength(n: nat)
    requires n > 0
    ensures |PrintedRequest(HostRequest(n))| == 26 + n
  {
    var hs := HostRequest(n).headers;
    var h := hs[0];
    assert HeaderLines(hs) == HeaderLine(h) + [] by { assert hs[1..] == []; }
    NulFree(h.name);
    NulFree(h.value);
  }

  lemma HostAcceptable(n: nat)
    requires n > 0
    ensures IsRequest(HostRequest(n)) && Acceptable(Pairs(HostRequest(n).headers), 1)
    ensures ContentLengthOf(Pairs(HostRequest(n).headers)) == 0 && KeepAliveOf(Pairs(HostRequest(n).headers), 1)
  {
    var fs := Pairs(HostRequest(n).headers);
    var f := fs[0];
    assert fs == [f] && f.Is(HOST) && !f.Is(CONTENT_LENGTH) && !f.Is(TRANSFER_ENCODING) && !f.Is(CONNECTION);
    ContentLengthUnique(fs, 0);
    KeepAliveExact(fs, 1, 0);
  }

  lemma ExampleDecides(lim: Limits, t: seq<byte>)
    requires 27 + |t| <= lim.maxHeaderSize
    ensures
      var d := Decide(lim, PrintedRequest(EXAMPLE) + t);
      |PrintedRequest(EXAMPLE)| == 27 && d.Dispatch? && d.used == 27 && d.req.keepAlive && d.body == []
  {
    hide Decide, PrintedRequest;
    HostDecides(lim, 1, t);
  }

  /** The same bytes in one receive and in two, with a limit the first request just meets. */
  lemma PipelinedExample()
    ensures
      var lim, a, b := Limits(27, 0), PrintedRequest(EXAMPLE), [0 as byte];
      |a| == 27 && Decide(lim, a).Dispatch? && Receive(lim, a, [b]) == Some(Decide(lim, a))
      && Decide(lim, a + b).HeadersTooLarge?
  {
    hide Decide, PrintedRequest;
    var lim, a, b := Limits(27, 0), PrintedRequest(EXAMPLE), [0 as byte];
    ExampleDecides(lim, []);
    assert a + [] == a;
    PipelinedBytesRefused(lim, a, b);
  }

  // ---- Chunked bodies ----

  /** The header section of `s` has a Transfer-Encoding field. */
  ghost predicate HasTransferEncoding(s: seq<byte>) {
    var r := ParseRequest(s, MAX_HEADERS);
    r.Ok? && exists i :: 0 <= i < |r.value.headers| && Fields(s, r.value.headers)[i].Is(TRANSFER_ENCODING)
  }

  /**
   A request with a Transfer-Encoding is dispatched with an empty body as soon as its header is complete: what
   follows, its chunks, counts as bytes behind the request.
   */
  lemma ChunkedBodyIgnored(lim: Limits, s: seq<byte>)
    requires ParseHttp1(s).Done? && HasTransferEncoding(s)
    ensures |s| <= lim.maxHeaderSize ==> Decide(lim, s) == Dispatch(ParseHttp1(s).req, [], ParseHttp1(s).consumed)
  {
    hide ParseHttp1, HasTransferEncoding;
    NoLength(s);
    ConsumedFits(s);
    var n := ParseHttp1(s).consumed;
    if n <= |s| { assert s[n..n] == []; }
  }

  lemma NoLength(s: seq<byte>)
    requires ParseHttp1(s).Done? && HasTransferEncoding(s)
    ensures ParseHttp1(s).req.contentLength == 0
  {
    var fs := Fields(s, ParseRequest(s, MAX_HEADERS).value.headers);
    hide ParseRequest, ContentLengthOf, KeepAliveOf, SameNoCase, ChunkedIsLast, AllDigits, Text;
    assert forall j :: 0 <= j < |fs| ==> !fs[j].Is(CONTENT_LENGTH);
    ContentLengthUnique(fs, 0);
  }

  // GET / HTTP/1.1 with the headers Host: a and Transfer-Encoding: chunked
  const CHUNKED_EXAMPLE: OutRequest :=
    OutRequest([71, 69, 84], [47], [NameValue(HOST, [97]), NameValue(TRANSFER_ENCODING, CHUNKED)])

  /** An instance: whatever chunks follow, they are no part of the request. */
  lemma ChunkedExample(lim: Limits, chunks: seq<byte>)
    requires |PrintedRequest(CHUNKED_EXAMPLE) + chunks| <= lim.maxHeaderSize
    ensures
      var d := Decide(lim, PrintedRequest(CHUNKED_EXAMPLE) + chunks);
      d.Dispatch? && d.body == [] && d.used == |PrintedRequest(CHUNKED_EXAMPLE)|
  {
    hide ParseHttp1, PrintedRequest, Acceptable, ContentLengthOf;
    ChunkedAcceptable();
    Http1RoundTrip(CHUNKED_EXAMPLE, chunks);
  }

  lemma ChunkedAcceptable()
    ensures IsRequest(CHUNKED_EXAMPLE) && Acceptable(Pairs(CHUNKED_EXAMPLE.headers), 1)
    ensures ContentLengthOf(Pairs(CHUNKED_EXAMPLE.headers)) == 0
  {
    var fs := Pairs(CHUNKED_EXAMPLE.headers);
    assert |fs| == 2 && fs[0].Is(HOST) && !fs[0].Is(CONTENT_LENGTH) && !fs[1].Is(CONTENT_LENGTH);
    assert !fs[0].Is(TRANSFER_ENCODING) && ChunkedIsLast(fs[1].value);
    hide SameNoCase, ChunkedIsLast, ContentLengthOf;
    ContentLengthUnique(fs, 0);
  }

  // ---- From the decision to the connection ----

  // The buffers responses are serialized into: an application's, and the server's own error responses.
  const RESPONSE_BUFFER: nat := 8192
  const ERROR_BUFFER: nat := 512

  function ErrorResponse(status: nat, message: seq<byte>): seq<byte> {
    Serialized(Response(status, [], message, false))
  }

  // "Request Header Fields Too Large", "Content Too Large", "Bad Request"
  const HEADERS_TOO_LARGE: seq<byte> := [82, 101, 113, 117, 101, 115, 116, 32, 72, 101, 97, 100, 101, 114, 32, 70,
      105, 101, 108, 100, 115, 32, 84, 111, 111, 32, 76, 97, 114, 103, 101]
  const CONTENT_TOO_LARGE: seq<byte> := [67, 111, 110, 116, 101, 110, 116, 32, 84, 111, 111, 32, 76, 97, 114, 103, 101]
  const BAD_REQUEST: seq<byte> := [66, 97, 100, 32, 82, 101, 113, 117, 101, 115, 116]

  /**
   What the connection does next; `n` bytes have been received, and the application's answer, if it is asked, is
   `resp`.
   */
  function OutcomeOf(d: Decision, n: nat, timed: bool, resp: Response): ConnSpec.Outcome
    requires d.Dispatch? ==> d.used <= n
  {
    match d
    case NeedHeaders => ConnSpec.WaitMore(timed)
    case NeedBody => ConnSpec.WaitMore(timed)
    case HeadersTooLarge => ConnSpec.Refuse(ErrorResponse(431, HEADERS_TOO_LARGE))
    case ContentTooLarge => ConnSpec.Refuse(ErrorResponse(413, CONTENT_TOO_LARGE))
    case BadRequest => ConnSpec.Refuse(ErrorResponse(400, BAD_REQUEST))
    case Dispatch(req, _, used) =>
      var keepAlive := req.keepAlive && resp.status < 400;
      if |Serialized(resp)| <= RESPONSE_BUFFER then ConnSpec.Serve(Serialized(resp), keepAlive, n - used)
      else ConnSpec.Unserializable(keepAlive, n - used)
  }

  /** The outcomes of the handler are among those that the connection theorems allow for. */
  lemma OutcomeIsEnabled(s: ConnSpec.Server, op: ConnSpec.Op, res: int, lim: Limits, bytes: seq<byte>, timed: bool,
                         resp: Response)
    requires op in s.ops && op.Recv? && res <= op.room && |bytes| <= ConnSpec.RECV_BUF_SIZE
    ensures
      ConnSpec.Enabled(s, ConnSpec.Received(op, res, OutcomeOf(Decide(lim, bytes), |bytes|, timed, resp)))
  {
    hide Decide, Serialized;
    ResponseNonEmpty(resp);
    ErrorNonEmpty(431, HEADERS_TOO_LARGE);
    ErrorNonEmpty(413, CONTENT_TOO_LARGE);
    ErrorNonEmpty(400, BAD_REQUEST);
  }

  lemma ResponseNonEmpty(resp: Response)
    ensures |Serialized(resp)| > |resp.body|
  {
    hide Reason, Decimal, HeaderLines, SentHeaders;
    assert |HTTP_1_1| == 8;
  }

  lemma ErrorNonEmpty(status: nat, message: seq<byte>)
    ensures ErrorResponse(status, message) != []
  {
    hide Serialized;
    ResponseNonEmpty(Response(status, [], message, false));
  }

  /** The three error responses fit their buffer, so refusing a request always sends one. */
  lemma ErrorResponsesFit()
    ensures |ErrorResponse(431, HEADERS_TOO_LARGE)| <= ERROR_BUFFER
    ensures |ErrorResponse(413, CONTENT_TOO_LARGE)| <= ERROR_BUFFER
    ensures |ErrorResponse(400, BAD_REQUEST)| <= ERROR_BUFFER
  {
    hide Serialized, StatusText;
    assert |Reason(431)| <= 32 && |Reason(413)| <= 32 && |Reason(400)| <= 32 by { ErrorReasons(); }
    hide Reason;
    ErrorLength(431, HEADERS_TOO_LARGE);
    ErrorLength(413, CONTENT_TOO_LARGE);
    ErrorLength(400, BAD_REQUEST);
  }

  lemma ErrorReasons()
    ensures |Reason(431)| <= 32 && |Reason(413)| <= 32 && |Reason(400)| <= 32
  {
  }

  lemma ErrorLength(status: nat, message: seq<byte>)
    requires 100 <= status <= 999 && 10 <= |message| < 100
    ensures |ErrorResponse(status, message)| <= 64 + |Reason(status)| + |message|
  {
    hide Reason;
    var resp := Response(status, [], message, false);
    ThreeDigits(status);
    TwoDigits(|message|);
    var d := Decimal(|message|);
    hide Decimal;
    assert |StatusLine(status)| == 15 + |Reason(status)|;
    var h := NameValue(CONTENT_LENGTH, d);
    assert SentHeaders(resp) == [] + [h] == [h];
    assert HeaderLines([h]) == HeaderLine(h) + [] by { assert [h][1..] == []; }
    assert |UpToNul(h.name)| <= 14 && |UpToNul(h.value)| <= 2;
  }

  lemma TwoDigits(n: nat)
    requires 10 <= n < 100
    ensures |Decimal(n)| == 2
  {
    assert Decimal(n / 10) == [48 + n / 10];
  }

  /** A client reads an error response back: its status, its reason, and the message as body. */
  lemma ErrorResponseReadable(status: nat, message: seq<byte>, t: seq<byte>)
    requires 100 <= status <= 999
    ensures
      var s := ErrorResponse(status, message) + t;
      var r := ParseResponse(s, 1);
      r.Ok? && r.value.status == status && Text(s, r.value.reason) == Reason(status) && s[r.pos..] == message + t
  {
    hide Serialized, ParseResponse, Reason;
    ResponseRoundTrip(Response(status, [], message, false), 1, t);
  }
}
