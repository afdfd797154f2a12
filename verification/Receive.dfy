/** The receive handler's work on the connection's buffer. */
module Receive {
  import opened Bytes
  import opened Http1Spec
  import opened ResponseSpec
  import opened ReceiveSpec
  import Http1
  import ChunkedDecoder
  import ConnSpec
  import ResponseWriter

  /**
   Decide on the `recvLen` bytes in the buffer. A request that is dispatched is taken out of it:
   the bytes behind it move to the front.
   */
  method HandleReceived(lim: Limits, buf: array<byte>, recvLen: nat) returns (d: Decision, remaining: nat)
    requires recvLen <= buf.Length
    modifies buf
    ensures d == Decide(lim, old(buf[..recvLen]))
    ensures d.Dispatch? ==> d.used + remaining == recvLen && buf[..remaining] == old(buf[d.used..recvLen])
    ensures !d.Dispatch? ==> remaining == recvLen && buf[..] == old(buf[..])
  {
    hide ParseHttp1;
    remaining := recvLen;
    if recvLen > lim.maxHeaderSize { return HeadersTooLarge, remaining; }
    ghost var s := buf[..recvLen];
    var r := Http1.ParseHttp1Request(buf[..recvLen]);
    ConsumedFits(s);
    match r
    case Again => d := NeedHeaders;
    case Invalid => d := BadRequest;
    case TooBig => d := BadRequest;
    case Done(req, n) =>
      if req.contentLength > lim.maxBodySize {
        d := ContentTooLarge;
      } else if recvLen - n < req.contentLength {
        d := NeedBody;
      } else {
        var used := n + req.contentLength;
        d := Dispatch(req, buf[n..used], used);
        assert s[n..used] == buf[n..used];
        remaining := recvLen - used;
        if remaining > 0 { ChunkedDecoder.MemMove(buf, 0, used, remaining); }
      }
  }

  /** The application's answer, serialized into a buffer of its own. */
  method SerializeAnswer(resp: Response, keepAlive: bool, remaining: nat) returns (outcome: ConnSpec.Outcome)
    ensures outcome == if |Serialized(resp)| <= RESPONSE_BUFFER
                       then ConnSpec.Serve(Serialized(resp), keepAlive, remaining)
                       else ConnSpec.Unserializable(keepAlive, remaining)
  {
    hide Serialized;
    var buf := new byte[RESPONSE_BUFFER];
    var n := ResponseWriter.SerializeResponse(resp, buf);
    ResponseNonEmpty(resp);
    if n > 0 { return ConnSpec.Serve(buf[..n], keepAlive, remaining); }
    return ConnSpec.Unserializable(keepAlive, remaining);
  }

  /** The receive handler as a whole: what it makes of the bytes in the buffer and of the application's answer. */
  method OutcomeOfReceive(lim: Limits, buf: array<byte>, recvLen: nat, timed: bool, resp: Response)
      returns (outcome: ConnSpec.Outcome)
    requires recvLen <= buf.Length
    modifies buf
    ensures
      var d := Decide(lim, old(buf[..recvLen]));
      && outcome == OutcomeOf(d, recvLen, timed, resp)
      && (d.Dispatch? ==> buf[..recvLen - d.used] == old(buf[d.used..recvLen]))
      && (!d.Dispatch? ==> buf[..] == old(buf[..]))
  {
    hide Serialized, Decide;
    var d, remaining := HandleReceived(lim, buf, recvLen);
    match d
    case NeedHeaders => outcome := ConnSpec.WaitMore(timed);
    case NeedBody => outcome := ConnSpec.WaitMore(timed);
    case HeadersTooLarge => outcome := ConnSpec.Refuse(ErrorResponse(431, HEADERS_TOO_LARGE));
    case ContentTooLarge => outcome := ConnSpec.Refuse(ErrorResponse(413, CONTENT_TOO_LARGE));
    case BadRequest => outcome := ConnSpec.Refuse(ErrorResponse(400, BAD_REQUEST));
    case Dispatch(req, _, _) => outcome := SerializeAnswer(resp, req.keepAlive && resp.status < 400, remaining);
  }
}
