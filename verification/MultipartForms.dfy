/** Parsing a printed form gives the form back. */
module MultipartForms {
  import opened Bytes
  import opened Options
  import opened MultipartSpec
  import opened MultipartTheorems
  import opened MultipartHeaders

  // ---- Printing ----

  /** A part of a form, with the header lines in front of its disposition and behind it. */
  datatype FormPart = FormPart(before: seq<seq<byte>>, names: Disposition, after: seq<seq<byte>>, data: seq<byte>)

  function Lines(p: FormPart): seq<seq<byte>> { p.before + [Header(p.names)] + p.after }

  function Block(p: FormPart): seq<byte> { JoinLines(Lines(p)) }

  /** What follows a delimiter. */
  function PrintParts(ps: seq<FormPart>, delim: seq<byte>, epilogue: seq<byte>): seq<byte> {
    if ps == [] then DASH_DASH + epilogue
    else CRLF + (Block(ps[0]) + CRLF_CRLF + (ps[0].data + CRLF + delim + PrintParts(ps[1..], delim, epilogue)))
  }

  function Print(preamble: seq<byte>, ps: seq<FormPart>, boundary: seq<byte>, epilogue: seq<byte>): seq<byte> {
    preamble + Delimiter(boundary) + PrintParts(ps, Delimiter(boundary), epilogue)
  }

  /** A further header line: not empty, without a line break, and no disposition. */
  ghost predicate IsHeaderLine(line: seq<byte>) { line != [] && IsLine(line) && !CiPrefix(line, DISPOSITION) }

  ghost predicate Printable(p: FormPart, delim: seq<byte>) {
    && Clear(p.names) && !Occurs(p.data, delim)
    && (forall i :: 0 <= i < |p.before| ==> IsHeaderLine(p.before[i]))
    && (forall i :: 0 <= i < |p.after| ==> IsHeaderLine(p.after[i]))
  }

  /** What is read back. `TypeRecoveredExactly` says when the type is the one announced. */
  function Recovered(p: FormPart): Part {
    Part(Some(p.names.name), ReadFilename(p.names, p.after == []), Announced(AsRead(Lines(p))), p.data)
  }

  // ---- The headers of a part ----

  lemma LinesOfPart(p: FormPart)
    requires Clear(p.names) && (forall i :: 0 <= i < |p.before| ==> IsHeaderLine(p.before[i]))
    requires forall i :: 0 <= i < |p.after| ==> IsHeaderLine(p.after[i])
    ensures
      var lines, d := Lines(p), |p.before|;
      && AreLines(lines) && (forall i :: 0 <= i < |lines| ==> lines[i] != [])
      && OnlyAt(lines, d, DISPOSITION) && lines[d] == Header(p.names) && (d == |lines| - 1 <==> p.after == [])
  {
    var lines, d, h := Lines(p), |p.before|, Header(p.names);
    HeaderOneLine(p.names);
    OneLineIsLine(h);
    WholeDisposition(p.names, Part(None, None, None, []));
    hide CiPrefix, IsLine, Header, Clear;
    assert lines[d] == h;
    forall i | 0 <= i < |lines| && i != d ensures IsHeaderLine(lines[i]) {
      assert lines[i] == if i < d then p.before[i] else p.after[i - d - 1];
    }
  }

  lemma OneLineIsLine(s: seq<byte>)
    requires OneLine(s)
    ensures IsLine(s)
  {
    forall i | 0 <= i < |s| - 1 ensures s[i] != CR { assert s[i] in s; }
  }

  lemma HeadersParsed(p: FormPart)
    requires Clear(p.names) && (forall i :: 0 <= i < |p.before| ==> IsHeaderLine(p.before[i]))
    requires forall i :: 0 <= i < |p.after| ==> IsHeaderLine(p.after[i])
    ensures ParsePartHeaders(Block(p), Part(None, None, None, p.data)) == (Recovered(p), true)
  {
    LinesOfPart(p);
    hide ParsePartHeaders, IsHeaderLine, AreLines, OnlyAt, Lines, Clear, Header, ReadFilename, Announced;
    var part := Part(None, None, None, p.data);
    NamesRead(Lines(p), |p.before|, p.names, part);
    TypeRead(Lines(p), part);
  }

  // ---- Delimiters and separators ----

  lemma FirstAt(s: seq<byte>, needle: seq<byte>, n: nat)
    requires OccursAt(s, needle, n) && forall k :: 0 <= k < n ==> !OccursAt(s, needle, k)
    ensures First(s, needle) == Some(n)
  {
  }

  lemma NotAt(s: seq<byte>, needle: seq<byte>, k: nat, i: nat)
    requires i < |needle| && k + i < |s| && s[k + i] != needle[i]
    ensures !OccursAt(s, needle, k)
  {
    if k + |needle| <= |s| { assert s[k..k + |needle|][i] == s[k + i]; }
  }

  /** A needle without line breaks cannot reach across one. */
  lemma NotAcross(a: seq<byte>, b: seq<byte>, needle: seq<byte>, k: nat)
    requires OneLine(needle) && needle != [] && !Occurs(a, needle) && k < |a| + 2
    ensures !OccursAt(a + CRLF + b, needle, k)
  {
    var s := a + CRLF + b;
    if k + |needle| <= |a| {
      assert s[k..k + |needle|] == a[k..k + |needle|];
      assert !OccursAt(a, needle, k);
    } else {
      var m := if k <= |a| then |a| else |a| + 1;
      assert needle[m - k] in needle;
      NotAt(s, needle, k, m - k);
    }
  }

  lemma DelimiterFound(data: seq<byte>, delim: seq<byte>, rest: seq<byte>)
    requires OneLine(delim) && delim != [] && !Occurs(data, delim)
    ensures First(data + CRLF + delim + rest, delim) == Some(|data| + 2)
  {
    var s := data + CRLF + delim + rest;
    assert s == data + CRLF + (delim + rest);
    forall k | 0 <= k < |data| + 2 ensures !OccursAt(s, delim, k) { NotAcross(data, delim + rest, delim, k); }
    FirstAt(s, delim, |data| + 2);
  }

  /** A line break followed by another one is nowhere in the lines. */
  lemma {:induction false} NoBlankLine(lines: seq<seq<byte>>, rest: seq<byte>, k: nat)
    requires AreLines(lines) && (forall i :: 0 <= i < |lines| ==> lines[i] != []) && k < |JoinLines(lines)|
    ensures !OccursAt(JoinLines(lines) + CRLF_CRLF + rest, CRLF_CRLF, k)
    decreases |lines|
  {
    var a, s := lines[0], JoinLines(lines) + CRLF_CRLF + rest;
    if k < |a| {
      InLine(a, s, k);
    } else {
      var s' := JoinLines(lines[1..]) + CRLF_CRLF + rest;
      assert s == a + CRLF + s';
      if k == |a| {
        assert !OccursAt(s', CRLF_CRLF, 0) by { NoBlankLine(lines[1..], rest, 0); }
        BehindBreak(lines[1..], rest);
        assert s[k + 2] == s'[0] && s[k + 3] == s'[1];
        if s'[0] != CR { NotAt(s, CRLF_CRLF, k, 2); } else { NotAt(s, CRLF_CRLF, k, 3); }
      } else if k == |a| + 1 {
        NotAt(s, CRLF_CRLF, k, 0);
      } else {
        NoBlankLine(lines[1..], rest, k - |a| - 2);
        assert s[k..] == s'[k - |a| - 2..];
        Shifted(s, s', k, k - |a| - 2);
      }
    }
  }

  lemma Shifted(s: seq<byte>, s': seq<byte>, k: nat, k': nat)
    requires k <= |s| && k' <= |s'| && s[k..] == s'[k'..] && !OccursAt(s', CRLF_CRLF, k')
    ensures !OccursAt(s, CRLF_CRLF, k)
  {
    if k + 4 <= |s| { assert s[k..k + 4] == s[k..][..4] && s'[k'..k' + 4] == s'[k'..][..4]; }
  }

  lemma InLine(a: seq<byte>, s: seq<byte>, k: nat)
    requires IsLine(a) && k < |a| && a <= s && |a| < |s| && s[|a|] == CR
    ensures !OccursAt(s, CRLF_CRLF, k)
  {
    assert s[k] == a[k];
    if k < |a| - 1 {
      assert s[k + 1] == a[k + 1];
      if a[k] == CR { NotAt(s, CRLF_CRLF, k, 1); } else { NotAt(s, CRLF_CRLF, k, 0); }
    } else {
      NotAt(s, CRLF_CRLF, k, 1);
    }
  }

  /** The first line does not start with a line break. */
  lemma BehindBreak(lines: seq<seq<byte>>, rest: seq<byte>)
    requires AreLines(lines) && lines[0] != []
    ensures var s := JoinLines(lines) + CRLF_CRLF + rest; |s| >= 2 && !(s[0] == CR && s[1] == LF)
  {
    var a := lines[0];
    assert |a| > 1 ==> !(a[0] == CR && a[1] == LF);
  }

  lemma SeparatorFound(lines: seq<seq<byte>>, rest: seq<byte>)
    requires AreLines(lines) && forall i :: 0 <= i < |lines| ==> lines[i] != []
    ensures First(JoinLines(lines) + CRLF_CRLF + rest, CRLF_CRLF) == Some(|JoinLines(lines)|)
  {
    var h := JoinLines(lines);
    var s := h + CRLF_CRLF + rest;
    forall k | 0 <= k < |h| ensures !OccursAt(s, CRLF_CRLF, k) { NoBlankLine(lines, rest, k); }
    FirstAt(s, CRLF_CRLF, |h|);
  }

  // ---- One part ----

  predicate Over(p: FormPart, cfg: Config, capacity: nat, parts: seq<Part>) {
    |p.data| > cfg.maxPartSize || TotalSize(parts) + |p.data| > cfg.maxTotalSize || |parts| >= capacity
        || |parts| >= cfg.maxParts
  }

  lemma OnePart(p: FormPart, delim: seq<byte>, rest: seq<byte>, cfg: Config, capacity: nat, parts: seq<Part>)
    requires Printable(p, delim) && OneLine(delim) && delim != []
    ensures
      AfterPart(CRLF + (Block(p) + CRLF_CRLF + (p.data + CRLF + delim + rest)), delim, cfg, capacity, parts)
      == if Over(p, cfg, capacity, parts) then Outcome(TOO_BIG, parts)
         else AfterPart(rest, delim, cfg, capacity, parts + [Recovered(p)])
  {
    var body := p.data + CRLF + delim + rest;
    LinesOfPart(p);
    hide *;
    SeparatorFound(Lines(p), body);
    DelimiterFound(p.data, delim, rest);
    HeadersParsed(p);
    BlockIs(p);
    PartRound(Block(p), p, delim, rest, cfg, capacity, parts, Recovered(p));
  }

  lemma BlockIs(p: FormPart)
    ensures Block(p) == JoinLines(Lines(p))
  {
  }

  lemma PartRound(h: seq<byte>, p: FormPart, delim: seq<byte>, rest: seq<byte>, cfg: Config, capacity: nat,
                  parts: seq<Part>, part: Part)
    requires First(h + CRLF_CRLF + (p.data + CRLF + delim + rest), CRLF_CRLF) == Some(|h|)
    requires First(p.data + CRLF + delim + rest, delim) == Some(|p.data| + 2)
    requires ParsePartHeaders(h, Part(None, None, None, p.data)) == (part, true)
    ensures
      AfterPart(CRLF + (h + CRLF_CRLF + (p.data + CRLF + delim + rest)), delim, cfg, capacity, parts)
      == if Over(p, cfg, capacity, parts) then Outcome(TOO_BIG, parts)
         else AfterPart(rest, delim, cfg, capacity, parts + [part])
  {
    hide First, ParsePartHeaders, TotalSize;
    SplitPart(h, p.data, delim, rest);
    hide OccursAt, DataLength;
  }

  /** The pieces of a printed part. */
  lemma SplitPart(h: seq<byte>, data: seq<byte>, delim: seq<byte>, rest: seq<byte>)
    ensures
      var body := data + CRLF + delim + rest;
      var s := h + CRLF_CRLF + body;
      && !OccursAt(CRLF + s, DASH_DASH, 0) && OccursAt(CRLF + s, CRLF, 0) && (CRLF + s)[2..] == s
      && s != [] && s[..|h|] == h && s[|h| + 4..] == body
      && DataLength(body, |data| + 2) == |data| && body[..|data|] == data && body[|data| + 2 + |delim|..] == rest
  {
    assert (CRLF + (h + CRLF_CRLF + (data + CRLF + delim + rest)))[0] == CR;
  }

  // ---- All parts ----

  /** What parsing the rest of a form gives. */
  function Expected(ps: seq<FormPart>, cfg: Config, capacity: nat, parts: seq<Part>): Outcome
    decreases |ps|
  {
    if ps == [] then Outcome(OK, parts)
    else if Over(ps[0], cfg, capacity, parts) then Outcome(TOO_BIG, parts)
    else Expected(ps[1..], cfg, capacity, parts + [Recovered(ps[0])])
  }

  lemma {:induction false} PartsRecovered(ps: seq<FormPart>, delim: seq<byte>, epilogue: seq<byte>, cfg: Config,
                                          capacity: nat, parts: seq<Part>)
    requires OneLine(delim) && delim != [] && forall i :: 0 <= i < |ps| ==> Printable(ps[i], delim)
    ensures AfterPart(PrintParts(ps, delim, epilogue), delim, cfg, capacity, parts) ==
            Expected(ps, cfg, capacity, parts)
    decreases |ps|
  {
    if ps == [] {
      assert OccursAt(DASH_DASH + epilogue, DASH_DASH, 0);
    } else {
      hide Printable, AfterPart, Over, Recovered;
      OnePart(ps[0], delim, PrintParts(ps[1..], delim, epilogue), cfg, capacity, parts);
      if !Over(ps[0], cfg, capacity, parts) {
        PartsRecovered(ps[1..], delim, epilogue, cfg, capacity, parts + [Recovered(ps[0])]);
      }
    }
  }

  function AllRecovered(ps: seq<FormPart>): seq<Part> {
    seq(|ps|, i requires 0 <= i < |ps| => Recovered(ps[i]))
  }

  function DataSize(ps: seq<FormPart>): nat {
    if ps == [] then 0 else |ps[0].data| + DataSize(ps[1..])
  }

  lemma {:induction false} DataFits(ps: seq<FormPart>, delim: seq<byte>, epilogue: seq<byte>)
    ensures DataSize(ps) <= |PrintParts(ps, delim, epilogue)|
    decreases |ps|
  {
    if ps != [] {
      hide Block;
      DataFits(ps[1..], delim, epilogue);
    }
  }

  /** Within the limits of the caller's array and the configuration. */
  ghost predicate Within(ps: seq<FormPart>, cfg: Config, capacity: nat) {
    |ps| <= capacity && |ps| <= cfg.maxParts && forall i :: 0 <= i < |ps| ==> |ps[i].data| <= cfg.maxPartSize
  }

  lemma {:induction false} ExpectedIs(ps: seq<FormPart>, cfg: Config, capacity: nat, done: seq<FormPart>)
    requires DataSize(ps) + TotalSize(AllRecovered(done)) <= cfg.maxTotalSize
    ensures if Within(done + ps, cfg, capacity)
            then Expected(ps, cfg, capacity, AllRecovered(done)) == Outcome(OK, AllRecovered(done + ps))
            else Within(done, cfg, capacity) ==> Expected(ps, cfg, capacity, AllRecovered(done)).status == TOO_BIG
    decreases |ps|
  {
    hide Recovered;
    if ps == [] {
      assert done + ps == done;
    } else if !Over(ps[0], cfg, capacity, AllRecovered(done)) {
      var done' := done + [ps[0]];
      assert done' + ps[1..] == done + ps;
      assert AllRecovered(done') == AllRecovered(done) + [Recovered(ps[0])];
      TotalSizeAppend(AllRecovered(done), Recovered(ps[0]));
      RecoveredData(ps[0]);
      ExpectedIs(ps[1..], cfg, capacity, done');
    } else {
      assert (done + ps)[|done|] == ps[0];
    }
  }

  lemma RecoveredData(p: FormPart)
    ensures Recovered(p).data == p.data
  {
  }

  /** The preamble is empty or whole lines, without the delimiter. */
  ghost predicate IsPreamble(preamble: seq<byte>, delim: seq<byte>) {
    preamble == [] || (|preamble| >= 2 && preamble[|preamble| - 2..] == CRLF && !Occurs(preamble, delim))
  }

  lemma FirstDelimiter(preamble: seq<byte>, delim: seq<byte>, rest: seq<byte>)
    requires IsPreamble(preamble, delim) && OneLine(delim) && delim != []
    ensures First(preamble + delim + rest, delim) == Some(|preamble|)
  {
    var s := preamble + delim + rest;
    if preamble != [] {
      var a := preamble[..|preamble| - 2];
      assert preamble == a + CRLF;
      assert s == a + CRLF + (delim + rest);
      if Occurs(a, delim) {
        var i: nat :| OccursAt(a, delim, i);
        assert OccursAt(preamble, delim, i);
      }
      forall k | 0 <= k < |preamble| ensures !OccursAt(s, delim, k) { NotAcross(a, delim + rest, delim, k); }
    }
    FirstAt(s, delim, |preamble|);
  }

  /**
   A form of any number of parts, each with any header lines around its disposition, printed with a boundary whose
   delimiter occurs in no part's data: within the limits every name and every piece of data comes back exactly and in
   order, with the type that the header lines announce as they are read; beyond the limits the form is too big.
   */
  lemma FormRecovered(preamble: seq<byte>, ps: seq<FormPart>, boundary: seq<byte>, epilogue: seq<byte>, cfg: Config,
                      capacity: nat)
    requires OneLine(boundary) && |boundary| <= MAX_BOUNDARY && IsPreamble(preamble, Delimiter(boundary))
    requires forall i :: 0 <= i < |ps| ==> Printable(ps[i], Delimiter(boundary))
    ensures
      var text := Print(preamble, ps, boundary, epilogue);
      var r := Parse(text, boundary, cfg, capacity);
      if |text| <= cfg.maxTotalSize
          && Within(ps, cfg, capacity) then r == Outcome(OK, AllRecovered(ps)) else r.status == TOO_BIG
  {
    var delim := Delimiter(boundary);
    var rest := PrintParts(ps, delim, epilogue);
    var text := Print(preamble, ps, boundary, epilogue);
    assert OneLine(delim);
    FirstDelimiter(preamble, delim, rest);
    assert text[|preamble| + |delim|..] == rest;
    PartsRecovered(ps, delim, epilogue, cfg, capacity, []);
    DataFits(ps, delim, epilogue);
    hide Printable, PrintParts, AfterPart, Expected, Recovered, First;
    assert AllRecovered([]) == [] && [] + ps == ps;
    if |text| <= cfg.maxTotalSize { ExpectedIs(ps, cfg, capacity, []); }
  }
}
