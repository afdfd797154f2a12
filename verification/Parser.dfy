/**
 The HTTP/1.x parser as it runs: a cursor that loops over the receive buffer.
 Every routine is proved to yield what its specification says, for every buffer.
 */
module Parser {
  import opened Bytes
  import opened Options
  import Spec = ParserSpec
  import opened ParserSpec

  /** Shift a result list by what was parsed before it. */
  function Prepend(hs: seq<Header>, r: Parsed<seq<Header>>): Parsed<seq<Header>> {
    if r.Ok? then Ok(hs + r.value, r.pos) else r
  }

  /**
   The line scan in steps of eight bytes, then byte by byte. It yields the same token, the
   same end and the same verdict as the plain one-byte loop.
   */
  method GetTokenToEol(buf: seq<byte>, start: nat) returns (r: Parsed<Slice>)
    requires start <= |buf|
    ensures r == Spec.GetTokenToEol(buf, start)
  {
    var i := start;
    var found := false;
    while |buf| - i >= 8 && !found
      invariant start <= i <= |buf|
      invariant ScanToCtl(buf, start) == ScanToCtl(buf, i)
      invariant found ==> i < |buf| && IsCtl(buf[i])
      decreases |buf| - i, !found
    {
      var k, base := 0, i;
      while k < 8 && IsPrintableAscii(buf[i])
        invariant 0 <= k <= 8 && i == base + k
        invariant ScanToCtl(buf, start) == ScanToCtl(buf, i)
      {
        i := i + 1;
        k := k + 1;
      }
      if k < 8 {
        if (buf[i] < SP && buf[i] != TAB) || buf[i] == DEL {
          found := true;
        } else {
          i := i + 1;
        }
      }
    }
    while !found
      invariant start <= i <= |buf|
      invariant ScanToCtl(buf, start) == ScanToCtl(buf, i)
      invariant found ==> i < |buf| && IsCtl(buf[i])
      decreases |buf| - i, !found
    {
      if i == |buf| { return More; }
      if !IsPrintableAscii(buf[i]) && ((buf[i] < SP && buf[i] != TAB) || buf[i] == DEL) {
        found := true;
      } else {
        i := i + 1;
      }
    }
    if buf[i] == CR {
      if i + 1 == |buf| { return More; }
      if buf[i + 1] != LF { return Bad; }
      return Ok(Slice(start, i - start), i + 2);
    } else if buf[i] == LF {
      return Ok(Slice(start, i - start), i + 1);
    } else {
      return Bad;
    }
  }

  method ParseToken(buf: seq<byte>, start: nat, next: byte) returns (r: Parsed<Slice>)
    requires start <= |buf|
    ensures r == Spec.ParseToken(buf, start, next)
  {
    var i := start;
    if i == |buf| { return More; }
    while true
      invariant start <= i < |buf|
      invariant ScanToken(buf, start, next) == ScanToken(buf, i, next)
      decreases |buf| - i
    {
      if buf[i] == next {
        break;
      } else if !IsTokenChar(buf[i]) {
        return Bad;
      }
      i := i + 1;
      if i == |buf| { return More; }
    }
    return Ok(Slice(start, i - start), i);
  }

  method ParseTarget(buf: seq<byte>, start: nat) returns (r: Parsed<Slice>)
    requires start <= |buf|
    ensures r == Spec.ParseTarget(buf, start)
  {
    var i := start;
    if i == |buf| { return More; }
    while true
      invariant start <= i < |buf|
      invariant ScanTarget(buf, start) == ScanTarget(buf, i)
      decreases |buf| - i
    {
      if buf[i] == SP {
        break;
      } else if !IsPrintableAscii(buf[i]) {
        if buf[i] < SP || buf[i] == DEL { return Bad; }
      }
      i := i + 1;
      if i == |buf| { return More; }
    }
    return Ok(Slice(start, i - start), i);
  }

  /** `do { ++buf; CHECK_EOF(); } while (*buf == ' ')`, standing on the byte before. */
  method SkipSpaces(buf: seq<byte>, at: nat) returns (r: Parsed<()>)
    requires at < |buf|
    ensures r == Spec.SkipSpaces(buf, at + 1)
  {
    var i := at + 1;
    while true
      invariant at < i <= |buf|
      invariant Spec.SkipSpaces(buf, at + 1) == Spec.SkipSpaces(buf, i)
      decreases |buf| - i
    {
      if i == |buf| { return More; }
      if buf[i] != SP { return Ok((), i); }
      i := i + 1;
    }
  }

  method SkipBlanks(buf: seq<byte>, at: nat) returns (r: Parsed<()>)
    requires at <= |buf|
    ensures r == Spec.SkipBlanks(buf, at)
  {
    var i := at;
    while true
      invariant at <= i <= |buf|
      invariant Spec.SkipBlanks(buf, at) == Spec.SkipBlanks(buf, i)
      decreases |buf| - i
    {
      if i == |buf| { return More; }
      if !(buf[i] == SP || buf[i] == TAB) { return Ok((), i); }
      i := i + 1;
    }
  }

  method TrimTrailing(buf: seq<byte>, start: nat, len: nat) returns (n: nat)
    requires start + len <= |buf|
    ensures n == TrimmedLen(buf, start, len)
  {
    n := len;
    while n != 0
      invariant n <= len && TrimmedLen(buf, start, len) == TrimmedLen(buf, start, n)
    {
      var c := buf[start + n - 1];
      if !(c == SP || c == TAB) { break; }
      n := n - 1;
    }
  }

  method ParseHeaderLine(buf: seq<byte>, at: nat, num: nat) returns (r: Parsed<Header>)
    requires at < |buf|
    ensures r == Spec.ParseHeaderLine(buf, at, num == 0)
  {
    var i := at;
    var name: Option<Slice>;
    if !(num != 0 && (buf[i] == SP || buf[i] == TAB)) {
      var t := ParseToken(buf, i, COLON);
      if !t.Ok? { return t.PropagateFailure(); }
      if t.value.len == 0 { return Bad; }
      var b := SkipBlanks(buf, t.pos + 1);
      if !b.Ok? { return b.PropagateFailure(); }
      name, i := Some(t.value), b.pos;
    } else {
      name := None;
    }
    var v := GetTokenToEol(buf, i);
    if !v.Ok? { return v.PropagateFailure(); }
    var len := TrimTrailing(buf, i, v.value.len);
    return Ok(Header(name, Slice(i, len)), v.pos);
  }

  method ParseHeaders(buf: seq<byte>, at: nat, max: nat) returns (r: Parsed<seq<Header>>)
    requires at <= |buf|
    ensures r == Spec.ParseHeaders(buf, at, 0, max)
  {
    hide Spec.ParseHeaderLine;
    var i := at;
    var headers: seq<Header> := [];
    ghost var all := Spec.ParseHeaders(buf, at, 0, max);
    if all.Ok? { assert [] + all.value == all.value; }
    while true
      invariant at <= i <= |buf| && |headers| <= max
      invariant all == Prepend(headers, Spec.ParseHeaders(buf, i, |headers|, max))
      decreases |buf| - i
    {
      ghost var rest := Spec.ParseHeaders(buf, i, |headers|, max);
      if i == |buf| { return More; }
      if buf[i] == CR {
        if i + 1 == |buf| { return More; }
        if buf[i + 1] != LF { return Bad; }
        assert headers + [] == headers;
        return Ok(headers, i + 2);
      } else if buf[i] == LF {
        assert headers + [] == headers;
        return Ok(headers, i + 1);
      }
      if |headers| == max { return Bad; }
      var h := ParseHeaderLine(buf, i, |headers|);
      if !h.Ok? { return h.PropagateFailure(); }
      if rest.Ok? { assert headers + [h.value] + rest.value[1..] == headers + rest.value; }
      headers := headers + [h.value];
      i := h.pos;
    }
  }

  method ParseHttpVersion(buf: seq<byte>, at: nat) returns (r: Parsed<nat>)
    requires at <= |buf|
    ensures r == Spec.ParseHttpVersion(buf, at)
  {
    if |buf| - at < 9 { return More; }
    var expected: seq<byte> := [72, 84, 84, 80, 47, 49, 46];
    var k := 0;
    while k < 7
      invariant 0 <= k <= 7
      invariant forall j :: 0 <= j < k ==> buf[at + j] == expected[j]
    {
      if buf[at + k] != expected[k] {
        assert buf[at..at + 7][k] != expected[k];
        return Bad;
      }
      k := k + 1;
    }
    assert buf[at..at + 7] == expected;
    if buf[at + 7] < 48 || 57 < buf[at + 7] { return Bad; }
    return Ok(DigitValue(buf[at + 7]), at + 8);
  }

  method ParseRequestLine(buf: seq<byte>, at: nat) returns (r: Parsed<(Slice, Slice, nat)>)
    requires at <= |buf|
    ensures r == Spec.ParseRequestLine(buf, at)
  {
    hide Spec.ScanToken, Spec.ScanTarget, Spec.SkipSpaces, Spec.ParseHttpVersion;
    var verb := ParseToken(buf, at, SP);
    if !verb.Ok? { return verb.PropagateFailure(); }
    var s1 := SkipSpaces(buf, verb.pos);
    if !s1.Ok? { return s1.PropagateFailure(); }
    var target := ParseTarget(buf, s1.pos);
    if !target.Ok? { return target.PropagateFailure(); }
    var s2 := SkipSpaces(buf, target.pos);
    if !s2.Ok? { return s2.PropagateFailure(); }
    if verb.value.len == 0 || target.value.len == 0 { return Bad; }
    var minor := ParseHttpVersion(buf, s2.pos);
    if !minor.Ok? { return minor.PropagateFailure(); }
    var i := minor.pos;
    if buf[i] == CR {
      if i + 1 == |buf| { return More; }
      if buf[i + 1] != LF { return Bad; }
      i := i + 2;
    } else if buf[i] == LF {
      i := i + 1;
    } else {
      return Bad;
    }
    return Ok((verb.value, target.value, minor.value), i);
  }

  method ParseRequest(buf: seq<byte>, max: nat) returns (r: Parsed<RawRequest>)
    ensures r == Spec.ParseRequest(buf, max)
  {
    hide Spec.ParseRequestLine, Spec.ParseHeaders;
    if |buf| == 0 { return More; }
    var i := 0;
    if buf[0] == CR {
      if 1 == |buf| { return More; }
      if buf[1] != LF { return Bad; }
      i := 2;
    } else if buf[0] == LF {
      i := 1;
    }
    var line := ParseRequestLine(buf, i);
    if !line.Ok? { return line.PropagateFailure(); }
    var headers := ParseHeaders(buf, line.pos, max);
    if !headers.Ok? { return headers.PropagateFailure(); }
    return Ok(RawRequest(line.value.0, line.value.1, line.value.2, headers.value), headers.pos);
  }

  method ParseReason(buf: seq<byte>, at: nat) returns (r: Parsed<Slice>)
    requires at <= |buf|
    ensures r == Spec.ParseReason(buf, at)
  {
    var line := GetTokenToEol(buf, at);
    if !line.Ok? { return line.PropagateFailure(); }
    var msg := line.value;
    if msg.len == 0 {
    } else if buf[msg.start] == SP {
      // The byte behind the token is a control character, so the loop stops before leaving it.
      while buf[msg.start] == SP
        invariant msg.start + msg.len == at + line.value.len < |buf|
        invariant DropSpaces(buf, line.value) == DropSpaces(buf, msg)
        decreases msg.len
      {
        msg := Slice(msg.start + 1, msg.len - 1);
      }
    } else {
      return Bad;
    }
    return Ok(msg, line.pos);
  }

  method ParseResponse(buf: seq<byte>, max: nat) returns (r: Parsed<RawResponse>)
    ensures r == Spec.ParseResponse(buf, max)
  {
    hide Spec.ParseHttpVersion, Spec.SkipSpaces, Spec.ParseReason, Spec.ParseHeaders;
    var minor := ParseHttpVersion(buf, 0);
    if !minor.Ok? { return minor.PropagateFailure(); }
    if buf[minor.pos] != SP { return Bad; }
    var s := SkipSpaces(buf, minor.pos);
    if !s.Ok? { return s.PropagateFailure(); }
    var i := s.pos;
    if |buf| - i < 4 { return More; }
    if !IsDigit(buf[i]) || !IsDigit(buf[i + 1]) || !IsDigit(buf[i + 2]) { return Bad; }
    var status := 100 * DigitValue(buf[i]);
    status := status + 10 * DigitValue(buf[i + 1]);
    status := status + DigitValue(buf[i + 2]);
    var reason := ParseReason(buf, i + 3);
    if !reason.Ok? { return reason.PropagateFailure(); }
    var headers := ParseHeaders(buf, reason.pos, max);
    if !headers.Ok? { return headers.PropagateFailure(); }
    return Ok(RawResponse(minor.value, status, reason.value, headers.value), headers.pos);
  }
}
