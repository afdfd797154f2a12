/**
 The response serializer as it runs: an output position that moves through a caller's buffer.
 */
module ResponseWriter {
  import opened Bytes
  import opened ResponseSpec

  /** `snprintf` of `text`: as much as fits with a terminating NUL; the full length is returned. */
  method Snprintf(buf: array<byte>, out: nat, remaining: nat, text: seq<byte>) returns (written: nat)
    requires out + remaining == buf.Length && remaining > 0
    modifies buf
    ensures written == |text|
    ensures buf[..out] == old(buf[..out])
    ensures |text| < remaining ==> buf[out..out + |text|] == text
    ensures forall i :: out + |text| < i < buf.Length ==> buf[i] == old(buf[i])
  {
    var n := if |text| < remaining then |text| else remaining - 1;
    forall i | 0 <= i < n { buf[out + i] := text[i]; }
    buf[out + n] := 0;
    written := |text|;
    if |text| < remaining {
      forall i | 0 <= i < n ensures buf[out..out + n][i] == text[i] { assert buf[out + i] == text[i]; }
    }
  }

  method MemCpy(buf: array<byte>, out: nat, text: seq<byte>)
    requires out + |text| <= buf.Length
    modifies buf
    ensures buf[..out] == old(buf[..out]) && buf[out..out + |text|] == text
    ensures forall i :: out + |text| <= i < buf.Length ==> buf[i] == old(buf[i])
  {
    forall i | 0 <= i < |text| { buf[out + i] := text[i]; }
    forall i | 0 <= i < |text| ensures buf[out..out + |text|][i] == text[i] { assert buf[out + i] == text[i]; }
  }

  lemma {:induction false} HeaderLinesSnoc(hs: seq<NameValue>, h: NameValue)
    ensures HeaderLines(hs + [h]) == HeaderLines(hs) + HeaderLine(h)
    decreases |hs|
  {
    hide HeaderLine;
    if hs == [] {
      assert [h][1..] == [];
      assert hs + [h] == [h];
    } else {
      assert (hs + [h])[1..] == hs[1..] + [h];
      HeaderLinesSnoc(hs[1..], h);
    }
  }

  lemma {:induction false} HeaderLinesPrefix(hs: seq<NameValue>, i: nat)
    requires i <= |hs|
    ensures |HeaderLines(hs[..i])| <= |HeaderLines(hs)|
    decreases |hs| - i
  {
    hide HeaderLine;
    if i == |hs| {
      assert hs[..i] == hs;
    } else {
      HeaderLinesSnoc(hs[..i], hs[i]);
      assert hs[..i + 1] == hs[..i] + [hs[i]];
      HeaderLinesPrefix(hs, i + 1);
    }
  }

  lemma Joined(buf: seq<byte>, front: seq<byte>, line: seq<byte>)
    requires |front| + |line| <= |buf|
    requires buf[..|front|] == front && buf[|front|..|front| + |line|] == line
    ensures buf[..|front| + |line|] == front + line
  {
  }

  /** Write `line` behind `front`, if it leaves room for a NUL. */
  method Append(buf: array<byte>, ghost front: seq<byte>, out: nat, line: seq<byte>) returns (ok: bool)
    requires out == |front| < buf.Length && buf[..out] == front
    modifies buf
    ensures ok == (out + |line| < buf.Length)
    ensures ok ==> buf[..out + |line|] == front + line
    ensures forall i :: out + |line| < i < buf.Length ==> buf[i] == old(buf[i])
  {
    var written := Snprintf(buf, out, buf.Length - out, line);
    ok := written < buf.Length - out;
    if ok { Joined(buf[..], front, line); }
  }

  /** All header lines in turn, the automatic one last. */
  method AppendHeaders(buf: array<byte>, ghost front: seq<byte>, out0: nat, hs: seq<NameValue>)
      returns (ok: bool, out: nat)
    requires out0 == |front| < buf.Length && buf[..out0] == front
    modifies buf
    ensures ok == (out0 + |HeaderLines(hs)| < buf.Length)
    ensures ok ==> out == out0 + |HeaderLines(hs)| && buf[..out] == front + HeaderLines(hs)
    ensures ok ==> forall i :: out < i < buf.Length ==> buf[i] == old(buf[i])
  {
    hide HeaderLine;
    out := out0;
    for i := 0 to |hs|
      invariant out == out0 + |HeaderLines(hs[..i])| < buf.Length
      invariant buf[..out] == front + HeaderLines(hs[..i])
      invariant forall k :: out < k < buf.Length ==> buf[k] == old(buf[k])
    {
      ghost var done := HeaderLines(hs[..i]);
      HeaderLinesSnoc(hs[..i], hs[i]);
      assert hs[..i + 1] == hs[..i] + [hs[i]];
      HeaderLinesPrefix(hs, i + 1);
      var line := HeaderLine(hs[i]);
      ok := Append(buf, front + done, out, line);
      if !ok { return false, out; }
      assert front + done + line == front + (done + line);
      out := out + |line|;
    }
    assert hs[..|hs|] == hs;
    ok := true;
  }

  /** The status line, the header lines and the empty line. */
  method SerializeHead(resp: Response, buf: array<byte>) returns (ok: bool, out: nat)
    requires buf.Length > 0
    modifies buf
    ensures ok == (|Head(resp)| <= buf.Length)
    ensures ok ==> out == |Head(resp)| && buf[..out] == Head(resp) && forall i :: out <= i < buf.Length
                                                                                  ==> buf[i] == old(buf[i])
  {
    hide StatusLine, HeaderLines, SentHeaders;
    out := 0;
    var line := StatusLine(resp.status);
    ghost var lines := HeaderLines(SentHeaders(resp));
    assert [] + line == line;
    ok := Append(buf, [], 0, line);
    if !ok { return; }
    ok, out := AppendHeaders(buf, line, |line|, SentHeaders(resp));
    if !ok { return; }
    if buf.Length - out < 2 { return false, out; }
    MemCpy(buf, out, CRLF);
    Joined(buf[..], line + lines, CRLF);
    assert line + lines + CRLF == line + (lines + CRLF);
    out := out + 2;
  }

  /**
   Succeeds exactly when the whole response fits. Then the buffer starts with the serialized
   response and is otherwise unchanged.
   */
  method SerializeResponse(resp: Response, buf: array<byte>) returns (n: int)
    modifies buf
    ensures buf.Length == 0 ==> n == -EINVAL
    ensures buf.Length > 0 ==> n == if |Serialized(resp)| <= buf.Length then |Serialized(resp)| else -ENOSPC
    ensures n >= 0 ==> buf[..n] == Serialized(resp) && buf[n..] == old(buf[n..])
  {
    hide Head;
    if buf.Length == 0 { return -EINVAL; }
    var ok, out := SerializeHead(resp, buf);
    if !ok { return -ENOSPC; }
    if |resp.body| > 0 {
      if |resp.body| > buf.Length - out { return -ENOSPC; }
      MemCpy(buf, out, resp.body);
      Joined(buf[..], Head(resp), resp.body);
      out := out + |resp.body|;
    } else {
      assert Head(resp) + resp.body == Head(resp);
    }
    n := out;
  }
}
