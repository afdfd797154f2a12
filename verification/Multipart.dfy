/** The multipart splitter as it runs: cursors into the body and an array of parts filled as it goes. */
module Multipart {
  import opened Bytes
  import opened Options
  import opened MultipartSpec
  import opened MultipartTheorems

  method HasCiPrefix(s: seq<byte>, p: nat, end: nat, prefix: seq<byte>) returns (r: bool)
    requires p <= end <= |s|
    ensures r == CiPrefix(s[p..end], prefix)
  {
    if end - p < |prefix| { return false; }
    var i := 0;
    while i < |prefix|
      invariant i <= |prefix| && forall k :: 0 <= k < i ==> Lower(s[p..end][k]) == Lower(prefix[k])
    {
      if Lower(s[p + i]) != Lower(prefix[i]) {
        Mismatch(s[p..end], prefix, 0, i);
        assert s[p..end][0..] == s[p..end];
        return false;
      }
      i := i + 1;
    }
    return true;
  }

  method SameBytes(s: seq<byte>, p: nat, needle: seq<byte>) returns (r: bool)
    requires p + |needle| <= |s|
    ensures r == (s[p..p + |needle|] == needle)
  {
    var i := 0;
    while i < |needle|
      invariant i <= |needle| && s[p..p + i] == needle[..i]
    {
      if s[p + i] != needle[i] {
        assert s[p..p + |needle|][i] == s[p + i];
        return false;
      }
      assert s[p..p + i + 1] == s[p..p + i] + [s[p + i]];
      i := i + 1;
    }
    return true;
  }

  /** The first occurrence in `s[p..end]`, as a distance from `p`. */
  method FindBytes(s: seq<byte>, p: nat, end: nat, needle: seq<byte>) returns (r: Option<nat>)
    requires p <= end <= |s|
    ensures r == First(s[p..end], needle)
  {
    hide OccursAt;
    ghost var hay := s[p..end];
    if |needle| == 0 {
      assert OccursAt(hay, needle, 0) by { OccursIs(s, p, end, needle, 0); }
      return Some(0);
    }
    if |needle| > end - p { return None; }
    var i := 0;
    while i <= end - p - |needle|
      invariant i <= end - p - |needle| + 1
      invariant FirstFrom(hay, needle, 0) == FirstFrom(hay, needle, i)
    {
      OccursIs(s, p, end, needle, i);
      var same := SameBytes(s, p + i, needle);
      if same { return Some(i); }
      i := i + 1;
    }
    return None;
  }

  lemma OccursIs(s: seq<byte>, p: nat, end: nat, needle: seq<byte>, i: nat)
    requires p <= end <= |s| && i + |needle| <= end - p
    ensures OccursAt(s[p..end], needle, i) <==> s[p + i..p + i + |needle|] == needle
  {
    var a, b := s[p..end][i..i + |needle|], s[p + i..p + i + |needle|];
    forall k | 0 <= k < |needle| ensures a[k] == b[k] {}
    assert a == b;
  }

  // ---- Parameters ----

  /** The first key in `s[p..end]`, ignoring case; its end as a distance from `p`. */
  method FindKey(s: seq<byte>, p: nat, end: nat, key: seq<byte>) returns (r: Option<nat>)
    requires p <= end <= |s|
    ensures r == KeyEnd(s[p..end], key)
  {
    hide CiPrefix;
    ghost var str := s[p..end];
    var i := 0;
    while i + |key| <= end - p
      invariant 0 <= i
      invariant i <= |str| ==> CiFirst(str, key, 0) == CiFirst(str, key, i)
      invariant i > |str| ==> CiFirst(str, key, 0).None?
    {
      assert s[p + i..end] == str[i..];
      var here := HasCiPrefix(s, p + i, end, key);
      if here { return Some(i + |key|); }
      i := i + 1;
    }
    return None;
  }

  /** A cursor moves on by one byte. */
  lemma OneMore(s: seq<byte>, p: nat, q: nat, end: nat, rest: seq<byte>)
    requires p <= q < end <= |s|
    ensures s[q..end][1..] == s[q + 1..end] && s[q..end][0] == s[q]
    ensures s[p..q] + ([s[q]] + rest) == s[p..q + 1] + rest
  {
  }

  method ScanQuoted(s: seq<byte>, p: nat, end: nat) returns (q: nat)
    requires p <= end <= |s|
    ensures p <= q <= end && s[p..q] == Quoted(s[p..end])
  {
    q := p;
    while q < end && s[q] != QUOTE
      invariant p <= q <= end && Quoted(s[p..end]) == s[p..q] + Quoted(s[q..end])
    {
      OneMore(s, p, q, end, Quoted(s[q + 1..end]));
      q := q + 1;
    }
  }

  method ScanUnquoted(s: seq<byte>, p: nat, end: nat) returns (q: nat)
    requires p <= end <= |s|
    ensures p <= q <= end && s[p..q] == Unquoted(s[p..end])
  {
    q := p;
    while q < end && !EndsToken(s[q])
      invariant p <= q <= end && Unquoted(s[p..end]) == s[p..q] + Unquoted(s[q..end])
    {
      OneMore(s, p, q, end, Unquoted(s[q + 1..end]));
      q := q + 1;
    }
  }

  method ExtractParam(s: seq<byte>, p: nat, end: nat, key: seq<byte>) returns (r: Option<seq<byte>>)
    requires p <= end <= |s|
    ensures r == Extract(s[p..end], key)
  {
    hide KeyEnd, Quoted, Unquoted;
    var found := FindKey(s, p, end, key);
    if found.None? { return None; }
    var start := p + found.value;
    assert s[p..end][found.value..] == s[start..end];
    if start >= end { return None; }
    if s[start] == QUOTE {
      assert s[start..end][1..] == s[start + 1..end];
      var q := ScanQuoted(s, start + 1, end);
      return Some(s[start + 1..q]);
    }
    var q := ScanUnquoted(s, start, end);
    return Some(s[start..q]);
  }

  // ---- Headers of a part ----

  method SkipLeading(s: seq<byte>, p: nat, end: nat) returns (q: nat)
    requires p <= end <= |s|
    ensures p <= q <= end && s[q..end] == DropBlanks(s[p..end])
  {
    q := p;
    while q < end && IsBlank(s[q])
      invariant p <= q <= end && DropBlanks(s[p..end]) == DropBlanks(s[q..end])
    {
      assert s[q..end][1..] == s[q + 1..end];
      q := q + 1;
    }
  }

  method TrimTrailing(s: seq<byte>, p: nat, end: nat) returns (q: nat)
    requires p <= end <= |s|
    ensures p <= q <= end && s[p..q] == TrimBlanks(s[p..end])
  {
    q := end;
    while q > p && IsBlank(s[q - 1])
      invariant p <= q <= end && TrimBlanks(s[p..end]) == TrimBlanks(s[p..q])
    {
      assert s[p..q][..q - p - 1] == s[p..q - 1];
      q := q - 1;
    }
  }

  method ScanLine(s: seq<byte>, p: nat, end: nat) returns (q: nat)
    requires p <= end <= |s|
    ensures p <= q <= end && q - p == LineEnd(s[p..end])
  {
    q := p;
    while q + 1 < end && !(s[q] == CR && s[q + 1] == LF)
      invariant p <= q <= end && LineEnd(s[p..end]) == q - p + LineEnd(s[q..end])
    {
      assert s[q..end][1..] == s[q + 1..end];
      q := q + 1;
    }
  }

  /** One header line, `s[p..q]`. */
  method ReadLine(s: seq<byte>, p: nat, q: nat, part: Part) returns (part': Part, found: bool)
    requires p <= q <= |s|
    ensures part' == ApplyLine(part, s[p..q]) && found == CiPrefix(s[p..q], DISPOSITION)
  {
    hide CiPrefix, Extract, DropBlanks, TrimBlanks;
    part' := part;
    found := HasCiPrefix(s, p, q, DISPOSITION);
    if found {
      PrefixFits(s[p..q], DISPOSITION);
      assert s[p..q][|DISPOSITION|..] == s[p + |DISPOSITION|..q];
      var v := SkipLeading(s, p + |DISPOSITION|, q);
      var name := ExtractParam(s, v, q, NAME);
      var filename := ExtractParam(s, v, q, FILENAME);
      part' := part'.(name := Or(name, part.name), filename := Or(filename, part.filename));
    }
    var typed := HasCiPrefix(s, p, q, TYPE);
    if typed {
      PrefixFits(s[p..q], TYPE);
      assert s[p..q][|TYPE|..] == s[p + |TYPE|..q];
      var v := SkipLeading(s, p + |TYPE|, q);
      var e := TrimTrailing(s, v, q);
      part' := part'.(contentType := Some(s[v..e]));
    }
  }

  lemma PrefixFits(s: seq<byte>, prefix: seq<byte>)
    requires CiPrefix(s, prefix)
    ensures |prefix| <= |s|
  {
  }

  method ReadPartHeaders(s: seq<byte>, start: nat, end: nat, part: Part) returns (part': Part, found: bool)
    requires start <= end <= |s|
    ensures (part', found) == ParsePartHeaders(s[start..end], part)
  {
    hide ApplyLine, CiPrefix, LineEnd;
    part', found := part, false;
    var p := start;
    while p < end
      invariant start <= p <= end
      invariant
        var (final, more) := ParsePartHeaders(s[p..end], part');
        ParsePartHeaders(s[start..end], part) == (final, found || more)
    {
      var q := ScanLine(s, p, end);
      var here;
      ghost var before := part';
      assert s[p..end][..q - p] == s[p..q];
      part', here := ReadLine(s, p, q, part');
      found := found || here;
      OccursIsCrlf(s, p, end, q);
      if q + 1 < end && s[q] == CR && s[q + 1] == LF {
        assert s[p..end][q - p + 2..] == s[q + 2..end];
        p := q + 2;
      } else {
        return;
      }
    }
  }

  lemma OccursIsCrlf(s: seq<byte>, p: nat, end: nat, q: nat)
    requires p <= q <= end <= |s|
    ensures OccursAt(s[p..end], CRLF, q - p) <==> q + 1 < end && s[q] == CR && s[q + 1] == LF
  {
    if q + 2 <= end {
      OccursIs(s, p, end, CRLF, q - p);
      assert s[q..q + 2] == [s[q], s[q + 1]];
    }
  }

  // ---- The parts ----

  method ParseMultipart(body: seq<byte>, boundary: seq<byte>, cfg: Config, parts: array<Part>)
      returns (status: Status, count: nat)
    modifies parts
    ensures status == Parse(body, boundary, cfg, parts.Length).status
    ensures |body| > cfg.maxTotalSize ==> count == parts.Length && parts[..] == old(parts[..])
    ensures |body| <= cfg.maxTotalSize ==> count <= parts.Length
                                           && parts[..count] == Parse(body, boundary, cfg, parts.Length).parts
  {
    hide AfterPart, First;
    if |body| > cfg.maxTotalSize { return TOO_BIG, parts.Length; }
    count := 0;
    if |body| == 0 { return OK, 0; }
    if |boundary| > MAX_BOUNDARY { return INVALID, 0; }
    var delim := DASH_DASH + boundary;
    assert body[0..|body|] == body;
    var first := FindBytes(body, 0, |body|, delim);
    if first.None? { return INVALID, 0; }
    FirstFits(body, delim);
    status, count := ReadParts(body, first.value + |delim|, delim, cfg, parts);
  }

  lemma FirstFits(s: seq<byte>, needle: seq<byte>)
    ensures First(s, needle).Some? ==> First(s, needle).value + |needle| <= |s|
  {
  }

  /** What stands behind a delimiter: the closing dashes, a line break, or neither. */
  method Behind(body: seq<byte>, pos: nat) returns (closing: bool, next: bool)
    requires pos <= |body|
    ensures closing == OccursAt(body[pos..], DASH_DASH, 0) && next == OccursAt(body[pos..], CRLF, 0)
  {
    var s := body[pos..];
    closing := |s| >= 2 && s[0] == DASH && s[1] == DASH;
    next := |s| >= 2 && s[0] == CR && s[1] == LF;
    assert |s| >= 2 ==> s[0..2] == [s[0], s[1]];
  }

  /** The loop, from behind the first delimiter. */
  method ReadParts(body: seq<byte>, start: nat, delim: seq<byte>, cfg: Config, parts: array<Part>)
      returns (status: Status, count: nat)
    requires start <= |body| && delim != []
    modifies parts
    ensures count <= parts.Length
            && Outcome(status, parts[..count]) == AfterPart(body[start..], delim, cfg, parts.Length, [])
  {
    hide ParseParts, OccursAt;
    var pos, total := start, 0;
    count := 0;
    var closing, next := Behind(body, pos);
    while !closing && next && pos + 2 < |body|
      invariant pos <= |body| && count <= parts.Length && total == TotalSize(parts[..count])
      invariant closing == OccursAt(body[pos..], DASH_DASH, 0) && next == OccursAt(body[pos..], CRLF, 0)
      invariant AfterPart(body[start..], delim, cfg, parts.Length, []) ==
                AfterPart(body[pos..], delim, cfg, parts.Length, parts[..count])
      decreases |body| - pos
    {
      ghost var before := parts[..count];
      var done, part, len, pos';
      done, status, part, len, pos' := ReadPart(body, pos + 2, delim, cfg, parts.Length, count, total, before);
      assert body[pos..][2..] == body[pos + 2..];
      if done { return; }
      parts[count] := part;
      count, total, pos := count + 1, total + len, pos';
      assert parts[..count] == before + [part];
      TotalSizeAppend(before, part);
      closing, next := Behind(body, pos);
    }
    if !closing && next {
      NoMore(body, pos, delim, cfg, parts.Length, parts[..count]);
    }
    status := if closing || next then OK else INVALID;
  }

  lemma NoMore(body: seq<byte>, pos: nat, delim: seq<byte>, cfg: Config, capacity: nat, parts: seq<Part>)
    requires pos <= |body| <= pos + 2 && OccursAt(body[pos..], CRLF, 0)
    ensures AfterPart(body[pos..], delim, cfg, capacity, parts) == Outcome(OK, parts)
  {
    assert body[pos..][2..] == [];
    assert body[pos..][0..2][0] == CR;
    assert !OccursAt(body[pos..], DASH_DASH, 0);
  }

  /** The delimiter behind the data that starts at `start`, and the length of that data. */
  method FindData(body: seq<byte>, start: nat, delim: seq<byte>) returns (n: Option<nat>, len: nat)
    requires start <= |body|
    ensures n == First(body[start..], delim)
    ensures n.Some? ==> start + n.value + |delim| <= |body| && len <= n.value
                        && len == DataLength(body[start..], n.value)
  {
    hide First;
    assert body[start..] == body[start..|body|];
    len := 0;
    n := FindBytes(body, start, |body|, delim);
    if n.Some? {
      FirstFits(body[start..], delim);
      len := n.value;
      if len >= 2 && body[start + len - 2] == CR && body[start + len - 1] == LF { len := len - 2; }
    }
  }

  /** One part, from its headers on: either the parse is over, or the part and what follows its delimiter. */
  method ReadPart(body: seq<byte>, pos: nat, delim: seq<byte>, cfg: Config, capacity: nat, count: nat, total: nat,
                  ghost parts: seq<Part>)
    returns (done: bool, status: Status, part: Part, len: nat, next: nat)
    requires pos < |body| && count == |parts| <= capacity && total == TotalSize(parts) && delim != []
    ensures done ==> ParseParts(body[pos..], delim, cfg, capacity, parts) == Outcome(status, parts)
    ensures !done ==> pos < next <= |body| && count < capacity && len == |part.data|
                      && ParseParts(body[pos..], delim, cfg, capacity, parts) ==
                            AfterPart(body[next..], delim, cfg, capacity, parts + [part])
  {
    hide AfterPart, First, ParsePartHeaders, OccursAt, TotalSize;
    done, status, part, len, next := true, INVALID, Part(None, None, None, []), 0, pos;
    ghost var s := body[pos..];
    assert body[pos..|body|] == s;
    var h := FindBytes(body, pos, |body|, CRLF_CRLF);
    if h.None? { return; }
    FirstFits(s, CRLF_CRLF);
    var start := pos + h.value + 4;
    assert s[h.value + 4..] == body[start..] == body[start..|body|];
    var n;
    n, len := FindData(body, start, delim);
    if n.None? { return; }
    hide DataLength;
    var data := body[start..start + len];
    assert body[start..][..len] == data;
    if len > cfg.maxPartSize || total + len > cfg.maxTotalSize || count >= capacity || count >= cfg.maxParts {
      status := TOO_BIG;
      return;
    }
    assert s[..h.value] == body[pos..pos + h.value];
    var found;
    part, found := ReadPartHeaders(body, pos, pos + h.value, Part(None, None, None, data));
    HeadersKeepData(body[pos..pos + h.value], Part(None, None, None, data));
    if !found { return; }
    done, next := false, start + n.value + |delim|;
    assert body[start..][n.value + |delim|..] == body[next..];
  }
}
