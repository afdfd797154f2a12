/** Reading a printed disposition line, and the limits every parsed form respects. */
module MultipartTheorems {
  import opened Bytes
  import opened Options
  import opened MultipartSpec

  // ---- Printing ----

  datatype Disposition = Disposition(name: seq<byte>, filename: Option<seq<byte>>)

  // "Content-Disposition:", "form-data; name=", "; "
  const PRINTED_DISPOSITION: seq<byte> := [67, 111, 110, 116, 101, 110, 116, 45, 68, 105, 115, 112, 111, 115, 105,
      116, 105, 111, 110, 58]
  const FORM_NAME: seq<byte> := [102, 111, 114, 109, 45, 100, 97, 116, 97, 59, 32, 110, 97, 109, 101, 61]
  const SEPARATOR: seq<byte> := [59, 32]

  /** What follows the name: the closing quote, and the file name if there is one. */
  function AfterName(p: Disposition): seq<byte> {
    [QUOTE] + if p.filename.Some? then SEPARATOR + FILENAME + [QUOTE] + p.filename.value + [QUOTE] else []
  }

  function Parameters(p: Disposition): seq<byte> { FORM_NAME + [QUOTE] + p.name + AfterName(p) }

  function Header(p: Disposition): seq<byte> { PRINTED_DISPOSITION + [SP] + Parameters(p) }

  ghost predicate OneLine(s: seq<byte>) { CR !in s && LF !in s }

  ghost predicate Plain(s: seq<byte>) { OneLine(s) && QUOTE !in s }

  /** A disposition line whose quoted values hold no quotes and no line breaks. */
  ghost predicate Clear(p: Disposition) { Plain(p.name) && (p.filename.Some? ==> Plain(p.filename.value)) }

  /** What follows the name in a line that is read whole, or without its final byte. */
  function Tail(p: Disposition, cut: bool): seq<byte> {
    if cut then AfterName(p)[..|AfterName(p)| - 1] else AfterName(p)
  }

  /** The file name that is read: what stands behind the first `filename=`, also if that is inside the name. */
  function ReadFilename(p: Disposition, cut: bool): Option<seq<byte>> { Extract(p.name + Tail(p, cut), FILENAME) }

  // ---- Quoted values ----

  lemma {:induction false} QuotedStops(s: seq<byte>, tail: seq<byte>)
    requires QUOTE !in s && (tail == [] || tail[0] == QUOTE)
    ensures Quoted(s + tail) == s
    decreases |s|
  {
    if s == [] {
      assert s + tail == tail;
    } else {
      assert (s + tail)[1..] == s[1..] + tail;
      QuotedStops(s[1..], tail);
      assert s == [s[0]] + s[1..];
    }
  }

  // ---- Finding a key ----

  lemma CiFirstAt(s: seq<byte>, key: seq<byte>, n: nat)
    requires n <= |s| && CiPrefix(s[n..], key) && forall k :: 0 <= k < n ==> !CiPrefix(s[k..], key)
    ensures CiFirst(s, key, 0) == Some(n)
  {
  }

  /** A key that does not start within `a` is found where it is in `b`. */
  lemma KeyEndShift(a: seq<byte>, b: seq<byte>, key: seq<byte>)
    requires forall k :: 0 <= k < |a| ==> !CiPrefix((a + b)[k..], key)
    ensures
      var end := KeyEnd(b, key);
      KeyEnd(a + b, key) == if end.Some? then Some(|a| + end.value) else None
  {
    hide CiPrefix;
    var found, s := CiFirst(b, key, 0), a + b;
    forall k | |a| <= k <= |s| ensures s[k..] == b[k - |a|..] {}
    if found.Some? {
      forall k | 0 <= k < |a| + found.value ensures !CiPrefix(s[k..], key) {
        assert k >= |a| ==> !CiPrefix(b[k - |a|..], key);
      }
      CiFirstAt(s, key, |a| + found.value);
    } else {
      forall k | 0 <= k <= |s| ensures !CiPrefix(s[k..], key) {
        assert k >= |a| ==> !CiPrefix(b[k - |a|..], key);
      }
    }
  }

  lemma ExtractShift(a: seq<byte>, b: seq<byte>, key: seq<byte>)
    requires forall k :: 0 <= k < |a| ==> !CiPrefix((a + b)[k..], key)
    ensures Extract(a + b, key) == Extract(b, key)
  {
    KeyEndShift(a, b, key);
    hide KeyEnd, CiPrefix, ValueOf;
    var end := KeyEnd(b, key);
    if end.Some? { assert (a + b)[|a| + end.value..] == b[end.value..]; }
  }

  /** A match compares the bytes one by one. */
  lemma Mismatch(s: seq<byte>, key: seq<byte>, k: nat, i: nat)
    requires k + i < |s| && i < |key| && Lower(s[k + i]) != Lower(key[i])
    ensures !CiPrefix(s[k..], key)
  {
    assert s[k..][i] == s[k + i];
  }

  lemma NameKey(rest: seq<byte>)
    ensures Extract(FORM_NAME + [QUOTE] + rest, NAME) == Some(Quoted(rest))
  {
    var s := FORM_NAME + [QUOTE] + rest;
    forall k | 0 <= k < 11 ensures !CiPrefix(s[k..], NAME) { Mismatch(s, NAME, k, 0); }
    assert s[11..][..5] == NAME;
    CiFirstAt(s, NAME, 11);
    assert s[16..] == [QUOTE] + rest;
    assert ([QUOTE] + rest)[1..] == rest;
  }

  lemma FilenameKey(rest: seq<byte>)
    ensures Extract(FORM_NAME + [QUOTE] + rest, FILENAME) == Extract(rest, FILENAME)
  {
    var a := FORM_NAME + [QUOTE];
    forall k | 0 <= k < |a| ensures !CiPrefix((a + rest)[k..], FILENAME) {
      if k == 0 { Mismatch(a + rest, FILENAME, 0, 1); } else { Mismatch(a + rest, FILENAME, k, 0); }
    }
    ExtractShift(a, rest, FILENAME);
  }

  lemma NotQuote(i: nat)
    requires i < |FILENAME|
    ensures Lower(FILENAME[i]) != QUOTE
  {
  }

  /** A file name behind a name that does not spell the key. */
  lemma FilenameAfter(name: seq<byte>, fn: seq<byte>, tail: seq<byte>)
    requires CiFirst(name, FILENAME, 0).None? && QUOTE !in fn && (tail == [] || tail[0] == QUOTE)
    ensures Extract(name + ([QUOTE] + SEPARATOR + FILENAME + [QUOTE] + fn + tail), FILENAME) == Some(fn)
  {
    hide Extract, CiPrefix, CiFirst;
    var gap := [QUOTE] + SEPARATOR;
    var value := FILENAME + [QUOTE] + fn + tail;
    assert gap + value == [QUOTE] + SEPARATOR + FILENAME + [QUOTE] + fn + tail;
    forall k | 0 <= k < |gap| ensures !CiPrefix((gap + value)[k..], FILENAME) { NoKeyInGap(value, k); }
    ExtractShift(gap, value, FILENAME);
    assert [QUOTE] + (SEPARATOR + value) == gap + value;
    forall k | 0 <= k < |name|
      ensures !CiPrefix((name + (gap + value))[k..], FILENAME) { NoKeyInName(name, SEPARATOR + value, k); }
    ExtractShift(name, gap + value, FILENAME);
    ValueAtKey(fn, tail);
  }

  lemma NoKeyInGap(value: seq<byte>, k: nat)
    requires k < 3
    ensures !CiPrefix((([QUOTE] + SEPARATOR) + value)[k..], FILENAME)
  {
    Mismatch(([QUOTE] + SEPARATOR) + value, FILENAME, k, 0);
  }

  /** The quote behind the name keeps a match from reaching out of it. */
  lemma NoKeyInName(name: seq<byte>, rest: seq<byte>, k: nat)
    requires CiFirst(name, FILENAME, 0).None? && k < |name|
    ensures !CiPrefix((name + ([QUOTE] + rest))[k..], FILENAME)
  {
    var s := name + ([QUOTE] + rest);
    if k + |FILENAME| > |name| {
      NotQuote(|name| - k);
      Mismatch(s, FILENAME, k, |name| - k);
    } else {
      CiPrefixLocal(name, [QUOTE] + rest, k, FILENAME);
    }
  }

  lemma CiPrefixLocal(a: seq<byte>, b: seq<byte>, k: nat, key: seq<byte>)
    requires k + |key| <= |a|
    ensures CiPrefix((a + b)[k..], key) <==> CiPrefix(a[k..], key)
  {
    forall i | 0 <= i < |key| ensures (a + b)[k..][i] == a[k..][i] {}
  }

  lemma ValueAtKey(fn: seq<byte>, tail: seq<byte>)
    requires QUOTE !in fn && (tail == [] || tail[0] == QUOTE)
    ensures Extract(FILENAME + [QUOTE] + fn + tail, FILENAME) == Some(fn)
  {
    var s := FILENAME + [QUOTE] + fn + tail;
    assert s[0..] == s;
    CiFirstAt(s, FILENAME, 0);
    assert s[|FILENAME|..] == [QUOTE] + (fn + tail);
    assert ([QUOTE] + (fn + tail))[1..] == fn + tail;
    QuotedStops(fn, tail);
  }

  // ---- The header line ----

  /** The disposition line, of which the last byte is cut or not. */
  lemma DispositionLine(p: Disposition, tail: seq<byte>, part: Part)
    requires Plain(p.name) && part.name.None? && part.filename.None?
    ensures
      var line := PRINTED_DISPOSITION + [SP] + (FORM_NAME + [QUOTE] + (p.name + tail));
      && CiPrefix(line, DISPOSITION)
      && (tail == [] || tail[0] == QUOTE
          ==> ApplyLine(part, line) == part.(name := Some(p.name), filename := Extract(p.name + tail, FILENAME)))
  {
    var val := FORM_NAME + [QUOTE] + (p.name + tail);
    var line := PRINTED_DISPOSITION + [SP] + val;
    DispositionPrefix([SP] + val);
    assert line == PRINTED_DISPOSITION + ([SP] + val);
    NameKey(p.name + tail);
    FilenameKey(p.name + tail);
    hide Extract, CiPrefix;
    ValueOfLine(val, p.name + tail);
    hide DropBlanks;
    if tail == [] || tail[0] == QUOTE { QuotedStops(p.name, tail); }
  }

  lemma ValueOfLine(val: seq<byte>, rest: seq<byte>)
    requires val == FORM_NAME + [QUOTE] + rest
    ensures DropBlanks((PRINTED_DISPOSITION + ([SP] + val))[20..]) == val
  {
    assert (PRINTED_DISPOSITION + ([SP] + val))[20..] == [SP] + val;
    assert ([SP] + val)[1..] == val;
    assert val[0] == 102;
  }

  lemma DispositionPrefix(rest: seq<byte>)
    ensures CiPrefix(PRINTED_DISPOSITION + rest, DISPOSITION) && !CiPrefix(PRINTED_DISPOSITION + rest, TYPE)
  {
    var s := PRINTED_DISPOSITION + rest;
    assert s[8] == 68 && TYPE[8] == 116;
  }

  lemma {:induction false} LineEndWithoutBreak(s: seq<byte>)
    requires CR !in s && s != []
    ensures LineEnd(s) == |s| - 1
    decreases |s|
  {
    if |s| > 1 { LineEndWithoutBreak(s[1..]); }
  }

  /** The only header line loses its last byte, the closing quote; the name is read exactly. */
  lemma HeaderParsed(p: Disposition, part: Part)
    requires Clear(p) && part.name.None? && part.filename.None?
    ensures ParsePartHeaders(Header(p), part)
            == (part.(name := Some(p.name), filename := ReadFilename(p, true)), true)
  {
    CutIsLine(p);
    hide Extract, CiPrefix, ApplyLine, ParsePartHeaders, CiFirst, Header, AfterName, Tail, Plain;
    LastLine(Header(p), part);
    DispositionLine(p, Tail(p, true), part);
  }

  lemma CutIsLine(p: Disposition)
    requires Clear(p)
    ensures Header(p) != [] && CR !in Header(p) && (Tail(p, true) == [] || Tail(p, true)[0] == QUOTE)
    ensures Header(p)[..|Header(p)| - 1]
            == PRINTED_DISPOSITION + [SP] + (FORM_NAME + [QUOTE] + (p.name + Tail(p, true)))
  {
    HeaderOneLine(p);
    CutHeader(p);
    TailOf(p);
    hide Tail, AfterName, Parameters;
  }

  lemma LastLine(h: seq<byte>, part: Part)
    requires h != [] && CR !in h
    ensures ParsePartHeaders(h, part) == (ApplyLine(part, h[..|h| - 1]), CiPrefix(h[..|h| - 1], DISPOSITION))
  {
    hide ApplyLine, CiPrefix;
    LineEndWithoutBreak(h);
    assert !OccursAt(h, CRLF, |h| - 1);
  }

  lemma TailOf(p: Disposition)
    ensures
      if p.filename.None? then Tail(p, true) == [] && Tail(p, false) == [QUOTE]
      else && Tail(p, true) == [QUOTE] + SEPARATOR + FILENAME + [QUOTE] + p.filename.value + []
           && Tail(p, false) == [QUOTE] + SEPARATOR + FILENAME + [QUOTE] + p.filename.value + [QUOTE]
           && Tail(p, true)[0] == QUOTE
  {
  }

  lemma HeaderOneLine(p: Disposition)
    requires Plain(p.name) && (p.filename.Some? ==> Plain(p.filename.value))
    ensures OneLine(Header(p))
  {
    assert OneLine(PRINTED_DISPOSITION + [SP]);
    assert OneLine(FORM_NAME + [QUOTE]);
    assert OneLine(SEPARATOR + FILENAME + [QUOTE]);
  }

  lemma CutHeader(p: Disposition)
    ensures Header(p)[..|Header(p)| - 1]
            == PRINTED_DISPOSITION + [SP] + (FORM_NAME + [QUOTE] + (p.name + Tail(p, true)))
  {
  }

  // ---- Any input ----

  lemma {:induction false} HeadersKeepData(s: seq<byte>, part: Part)
    ensures ParsePartHeaders(s, part).0.data == part.data
    decreases |s|
  {
    hide CiPrefix, Extract, DropBlanks, TrimBlanks;
    if s != [] && OccursAt(s, CRLF, LineEnd(s)) {
      HeadersKeepData(s[LineEnd(s) + 2..], ApplyLine(part, s[..LineEnd(s)]));
    }
  }

  /** No part holds the delimiter or exceeds a limit. */
  ghost predicate AllWithin(parts: seq<Part>, delim: seq<byte>, cfg: Config, capacity: nat) {
    && |parts| <= capacity && |parts| <= cfg.maxParts && TotalSize(parts) <= cfg.maxTotalSize
    && forall i :: 0 <= i < |parts| ==> |parts[i].data| <= cfg.maxPartSize && !Occurs(parts[i].data, delim)
  }

  lemma DataHasNoDelimiter(body: seq<byte>, delim: seq<byte>, n: nat)
    requires First(body, delim) == Some(n) && delim != []
    ensures !Occurs(body[..DataLength(body, n)], delim)
  {
    var len := DataLength(body, n);
    forall k: nat ensures !OccursAt(body[..len], delim, k) {
      if k + |delim| <= len {
        assert body[..len][k..k + |delim|] == body[k..k + |delim|];
        assert !OccursAt(body, delim, k);
      }
    }
  }

  lemma AppendWithin(parts: seq<Part>, part: Part, delim: seq<byte>, cfg: Config, capacity: nat)
    requires AllWithin(parts, delim, cfg, capacity) && |parts| < capacity && |parts| < cfg.maxParts
    requires |part.data| <= cfg.maxPartSize && TotalSize(parts) + |part.data| <= cfg.maxTotalSize
             && !Occurs(part.data, delim)
    ensures AllWithin(parts + [part], delim, cfg, capacity)
  {
    hide Occurs;
    TotalSizeAppend(parts, part);
  }

  lemma TotalSizeAppend(parts: seq<Part>, part: Part)
    ensures TotalSize(parts + [part]) == TotalSize(parts) + |part.data|
  {
    assert (parts + [part])[..|parts|] == parts;
  }

  /** One round of the loop: it ends with the parts it had, or adds one that is within the limits. */
  lemma OneRound(s: seq<byte>, delim: seq<byte>, cfg: Config, capacity: nat, parts: seq<Part>)
      returns (done: bool, rest: seq<byte>, part: Part)
    requires AllWithin(parts, delim, cfg, capacity) && delim != []
    ensures done ==> ParseParts(s, delim, cfg, capacity, parts).parts == parts
    ensures !done ==> |rest| < |s| && AllWithin(parts + [part], delim, cfg, capacity)
                      && ParseParts(s, delim, cfg, capacity, parts) ==
                            AfterPart(rest, delim, cfg, capacity, parts + [part])
  {
    hide ParsePartHeaders, AfterPart, AllWithin, Occurs;
    done, rest, part := true, [], Part(None, None, None, []);
    var h := First(s, CRLF_CRLF);
    if s == [] || h.None? { return; }
    var body := s[h.value + 4..];
    var n := First(body, delim);
    if n.None? { return; }
    var data := body[..DataLength(body, n.value)];
    DataHasNoDelimiter(body, delim, n.value);
    HeadersKeepData(s[..h.value], Part(None, None, None, data));
    hide First;
    if |data| > cfg.maxPartSize || TotalSize(parts) + |data| > cfg.maxTotalSize || |parts| >= capacity
        || |parts| >= cfg.maxParts { return; }
    var parsed := ParsePartHeaders(s[..h.value], Part(None, None, None, data));
    if !parsed.1 { return; }
    done, rest, part := false, body[n.value + |delim|..], parsed.0;
    AppendWithin(parts, part, delim, cfg, capacity);
  }

  lemma {:induction false} ParsedWithin(s: seq<byte>, delim: seq<byte>, cfg: Config, capacity: nat, parts: seq<Part>)
    requires AllWithin(parts, delim, cfg, capacity) && delim != []
    ensures AllWithin(AfterPart(s, delim, cfg, capacity, parts).parts, delim, cfg, capacity)
    decreases |s|
  {
    hide ParseParts, AllWithin;
    if OccursAt(s, CRLF, 0) {
      var done, rest, part := OneRound(s[2..], delim, cfg, capacity, parts);
      if !done { ParsedWithin(rest, delim, cfg, capacity, parts + [part]); }
    }
  }

  /** Whatever the input and the verdict, the parts stored so far respect every limit and hold no delimiter. */
  lemma LimitsRespected(s: seq<byte>, boundary: seq<byte>, cfg: Config, capacity: nat)
    ensures AllWithin(Parse(s, boundary, cfg, capacity).parts, Delimiter(boundary), cfg, capacity)
  {
    hide AfterPart;
    var first := First(s, Delimiter(boundary));
    if first.Some? {
      ParsedWithin(s[first.value + |Delimiter(boundary)|..], Delimiter(boundary), cfg, capacity, []);
    }
  }
}
