/**
 The headers of a part as lines. Every header block is a list of lines joined by CR LF; all of
 them are read whole but the last, which is read without its final byte.
 */
module MultipartHeaders {
  import opened Bytes
  import opened Options
  import opened MultipartSpec
  import opened MultipartTheorems

  /** No CR LF inside. */
  predicate IsLine(s: seq<byte>) { forall i :: 0 <= i < |s| - 1 ==> !(s[i] == CR && s[i + 1] == LF) }

  predicate AreLines(lines: seq<seq<byte>>) { lines != [] && forall i :: 0 <= i < |lines| ==> IsLine(lines[i]) }

  function JoinLines(lines: seq<seq<byte>>): seq<byte>
    requires lines != []
  {
    if |lines| == 1 then lines[0] else lines[0] + CRLF + JoinLines(lines[1..])
  }

  /** Every block of bytes is such a list, so what is said of lists is said of all inputs. */
  lemma {:induction false} EveryBlockIsLines(s: seq<byte>) returns (lines: seq<seq<byte>>)
    ensures AreLines(lines) && JoinLines(lines) == s
    decreases |s|
  {
    var n := First(s, CRLF);
    if n.None? {
      lines := [s];
      NoneIsLine(s, |s|);
    } else {
      var rest := EveryBlockIsLines(s[n.value + 2..]);
      NoneIsLine(s, n.value);
      lines := [s[..n.value]] + rest;
      assert lines[1..] == rest;
      assert s == s[..n.value] + CRLF + s[n.value + 2..];
    }
  }

  lemma NoneIsLine(s: seq<byte>, n: nat)
    requires n <= |s| && forall k :: 0 <= k < n ==> !OccursAt(s, CRLF, k)
    ensures IsLine(s[..n])
  {
    forall i | 0 <= i < n - 1 ensures !(s[i] == CR && s[i + 1] == LF) {
      assert !OccursAt(s, CRLF, i);
      assert s[i..i + 2] == [s[i], s[i + 1]];
    }
  }

  // ---- Reading ----

  /** Applying header lines in turn, and whether a disposition was among them. */
  function ApplyLines(part: Part, lines: seq<seq<byte>>): (Part, bool)
    decreases |lines|
  {
    if lines == [] then (part, false)
    else
      var (part', found) := ApplyLines(ApplyLine(part, lines[0]), lines[1..]);
      (part', CiPrefix(lines[0], DISPOSITION) || found)
  }

  function Cut(line: seq<byte>): seq<byte> { if line == [] then [] else line[..|line| - 1] }

  /** The lines as the scan sees them. */
  function AsRead(lines: seq<seq<byte>>): seq<seq<byte>>
    requires lines != []
  {
    lines[..|lines| - 1] + [Cut(lines[|lines| - 1])]
  }

  lemma {:induction false} LineEndAtBreak(a: seq<byte>, rest: seq<byte>)
    requires IsLine(a)
    ensures LineEnd(a + CRLF + rest) == |a|
    decreases |a|
  {
    var s := a + CRLF + rest;
    if a == [] {
      assert s == CRLF + rest;
    } else {
      assert s[1..] == a[1..] + CRLF + rest;
      assert !(s[0] == CR && s[1] == LF);
      LineEndAtBreak(a[1..], rest);
    }
  }

  lemma {:induction false} LineEndAtEnd(a: seq<byte>)
    requires IsLine(a) && a != []
    ensures LineEnd(a) == |a| - 1
    decreases |a|
  {
    if |a| > 1 { LineEndAtEnd(a[1..]); }
  }

  lemma WholeLine(a: seq<byte>, rest: seq<byte>, part: Part)
    requires IsLine(a)
    ensures
      var (part', found) := ParsePartHeaders(rest, ApplyLine(part, a));
      ParsePartHeaders(a + CRLF + rest, part) == (part', CiPrefix(a, DISPOSITION) || found)
  {
    hide ApplyLine, CiPrefix;
    LineEndAtBreak(a, rest);
    var s := a + CRLF + rest;
    assert s[..|a|] == a && s[|a| + 2..] == rest && OccursAt(s, CRLF, |a|);
  }

  lemma LastLineCut(a: seq<byte>, part: Part)
    requires IsLine(a)
    ensures ParsePartHeaders(a, part) == (ApplyLine(part, Cut(a)), CiPrefix(Cut(a), DISPOSITION))
  {
    if a == [] {
      assert !CiPrefix([], DISPOSITION) && !CiPrefix([], TYPE);
    } else {
      hide ApplyLine, CiPrefix;
      LineEndAtEnd(a);
      assert !OccursAt(a, CRLF, |a| - 1);
    }
  }

  /** For every header block: all lines but the last are applied whole, the last without its final byte. */
  lemma {:induction false} HeaderLinesRead(lines: seq<seq<byte>>, part: Part)
    requires AreLines(lines)
    ensures ParsePartHeaders(JoinLines(lines), part) == ApplyLines(part, AsRead(lines))
    decreases |lines|
  {
    hide ApplyLine, CiPrefix, ParsePartHeaders;
    var read := AsRead(lines);
    if |lines| == 1 {
      LastLineCut(lines[0], part);
      assert read == [Cut(lines[0])] && read[1..] == [];
    } else {
      WholeLine(lines[0], JoinLines(lines[1..]), part);
      HeaderLinesRead(lines[1..], ApplyLine(part, lines[0]));
      assert read[0] == lines[0] && read[1..] == AsRead(lines[1..]);
    }
  }

  // ---- Which line decides what ----

  /** Only `lines[k]` starts with `key`. */
  predicate OnlyAt(lines: seq<seq<byte>>, k: nat, key: seq<byte>) {
    k < |lines| && CiPrefix(lines[k], key) && forall i :: 0 <= i < |lines| && i != k ==> !CiPrefix(lines[i], key)
  }

  predicate Nowhere(lines: seq<seq<byte>>, key: seq<byte>) { forall i :: 0 <= i < |lines| ==> !CiPrefix(lines[i], key) }

  function TypeValue(line: seq<byte>): seq<byte>
    requires |TYPE| <= |line|
  {
    TrimBlanks(DropBlanks(line[|TYPE|..]))
  }

  lemma PrefixLength(s: seq<byte>, prefix: seq<byte>)
    requires prefix != []
    ensures CiPrefix(s, prefix) ==> |prefix| <= |s|
    ensures CiPrefix(Cut(s), prefix) <==> CiPrefix(s, prefix) && |prefix| < |s|
  {
  }

  lemma CutKeeps(lines: seq<seq<byte>>, k: nat, key: seq<byte>)
    requires OnlyAt(lines, k, key) && key != []
    ensures if k == |lines| - 1
            && |lines[k]| == |key| then Nowhere(AsRead(lines), key) else OnlyAt(AsRead(lines), k, key)
  {
    hide CiPrefix;
    PrefixLength(lines[k], key);
    PrefixLength(lines[|lines| - 1], key);
  }

  // ---- Losing the last byte ----

  lemma {:induction false} TrimFixed(v: seq<byte>)
    ensures |TrimBlanks(v)| <= |v|
    ensures v != [] && !IsBlank(v[|v| - 1]) ==> TrimBlanks(v) == v
    decreases |v|
  {
    if v != [] { TrimFixed(v[..|v| - 1]); }
  }

  lemma {:induction false} DropAppend(v: seq<byte>, b: byte)
    ensures DropBlanks(v + [b]) == if DropBlanks(v) == [] then (if IsBlank(b) then [] else [b]) else DropBlanks(v) + [b]
    decreases |v|
  {
    if v == [] {
      assert v + [b] == [b] && [b][1..] == [];
    } else {
      assert (v + [b])[1..] == v[1..] + [b];
      if IsBlank(v[0]) { DropAppend(v[1..], b); }
    }
  }

  /** Cutting a line changes its value exactly if its last byte is not a blank. */
  lemma CutValue(line: seq<byte>)
    requires |line| > |TYPE|
    ensures TypeValue(Cut(line)) == TypeValue(line) <==> IsBlank(line[|line| - 1])
  {
    var v, b := Cut(line)[|TYPE|..], line[|line| - 1];
    assert line[|TYPE|..] == v + [b];
    DropAppend(v, b);
    hide DropBlanks;
    var w := DropBlanks(v);
    if IsBlank(b) {
      if w != [] { assert (w + [b])[..|w|] == w; }
    } else {
      TrimFixed(w);
      TrimFixed(w + [b]);
      TrimFixed([b]);
    }
  }

  /** The type that header lines announce: that of the last Content-Type line. */
  function Announced(lines: seq<seq<byte>>): Option<seq<byte>> {
    if lines == [] then None
    else
      var n := |lines| - 1;
      if CiPrefix(lines[n], TYPE) then Some(TypeValue(lines[n])) else Announced(lines[..n])
  }

  lemma {:induction false} TypeAnnounced(part: Part, lines: seq<seq<byte>>)
    ensures ApplyLines(part, lines).0.contentType == Or(Announced(lines), part.contentType)
    decreases |lines|
  {
    hide CiPrefix, ApplyLine, TypeValue;
    if lines != [] {
      var part' := ApplyLine(part, lines[0]);
      TypeAnnounced(part', lines[1..]);
      TypeOfLine(part, lines[0]);
      AnnouncedCons(lines);
    }
  }

  lemma TypeOfLine(part: Part, line: seq<byte>)
    ensures ApplyLine(part, line).contentType
            == if CiPrefix(line, TYPE) then Some(TypeValue(line)) else part.contentType
  {
    hide Extract, DropBlanks, TrimBlanks;
  }

  lemma {:induction false} AnnouncedCons(lines: seq<seq<byte>>)
    requires lines != []
    ensures
      Announced(lines)
      == Or(Announced(lines[1..]), if CiPrefix(lines[0], TYPE) then Some(TypeValue(lines[0])) else None)
    decreases |lines|
  {
    hide CiPrefix, TypeValue;
    var n := |lines| - 1;
    if n > 0 {
      AnnouncedCons(lines[..n]);
      assert lines[..n][1..] == lines[1..][..n - 1];
    }
  }

  /** What is read of a block's Content-Type lines: what they announce, the last line cut. */
  lemma TypeRead(lines: seq<seq<byte>>, part: Part)
    requires AreLines(lines)
    ensures ParsePartHeaders(JoinLines(lines), part).0.contentType == Or(Announced(AsRead(lines)), part.contentType)
  {
    hide ParsePartHeaders, Announced, ApplyLines;
    HeaderLinesRead(lines, part);
    TypeAnnounced(part, AsRead(lines));
  }

  /**
   The type that a part's header lines announce comes back exactly if and only if the last line is no Content-Type
   line, or ends in a blank, which is all that is then lost; or it has no value and neither has the one before it.
   */
  lemma TypeRecoveredExactly(lines: seq<seq<byte>>, part: Part)
    requires AreLines(lines) && part.contentType.None?
    ensures
      var n := |lines| - 1;
      var last := lines[n];
      ParsePartHeaders(JoinLines(lines), part).0.contentType == Announced(lines)
      <==> if !CiPrefix(last, TYPE) then true
           else if |last| > |TYPE| then IsBlank(last[|last| - 1])
           else Announced(lines[..n]) == Some([])
  {
    var n := |lines| - 1;
    var last := lines[n];
    PrefixLength(last, TYPE);
    TypeRead(lines, part);
    assert AsRead(lines)[..n] == lines[..n] && AsRead(lines)[n] == Cut(last);
    if |last| > |TYPE| { CutValue(last); }
    assert |last| == |TYPE| ==> last[|TYPE|..] == [];
    hide CiPrefix, ParsePartHeaders;
  }

  // ---- The disposition among other lines ----

  lemma {:induction false} NamesUntouched(part: Part, lines: seq<seq<byte>>)
    requires Nowhere(lines, DISPOSITION)
    ensures
      var (part', found) := ApplyLines(part, lines);
      part'.name == part.name && part'.filename == part.filename && !found
    decreases |lines|
  {
    hide CiPrefix, Extract, DropBlanks, TrimBlanks;
    if lines != [] { NamesUntouched(ApplyLine(part, lines[0]), lines[1..]); }
  }

  lemma {:induction false} NamesOfOnlyLine(part: Part, lines: seq<seq<byte>>, k: nat)
    requires OnlyAt(lines, k, DISPOSITION)
    ensures
      var (part', found) := ApplyLines(part, lines);
      part'.name == ApplyLine(part, lines[k]).name && part'.filename == ApplyLine(part, lines[k]).filename && found
    decreases |lines|
  {
    hide CiPrefix, Extract, DropBlanks, TrimBlanks;
    var part' := ApplyLine(part, lines[0]);
    if k == 0 {
      NamesUntouched(part', lines[1..]);
    } else {
      NamesOfOnlyLine(part', lines[1..], k - 1);
    }
  }

  /** The printed disposition line read whole: the closing quote ends the last value. */
  lemma WholeDisposition(p: Disposition, part: Part)
    requires Clear(p) && part.name.None? && part.filename.None?
    ensures ApplyLine(part, Header(p)) == part.(name := Some(p.name), filename := ReadFilename(p, false))
    ensures CiPrefix(Header(p), DISPOSITION) && |Header(p)| > |DISPOSITION|
  {
    hide ApplyLine, CiPrefix, Extract, CiFirst;
    var tail := Tail(p, false);
    DispositionLine(p, tail, part);
    assert PRINTED_DISPOSITION + [SP] + (FORM_NAME + [QUOTE] + (p.name + tail)) == Header(p);
  }

  /** Read without its final byte. */
  lemma CutDisposition(p: Disposition, part: Part)
    requires Clear(p) && part.name.None? && part.filename.None?
    ensures ApplyLine(part, Cut(Header(p))) == part.(name := Some(p.name), filename := ReadFilename(p, true))
  {
    hide ApplyLine, CiPrefix, ParsePartHeaders, CiFirst, Extract;
    HeaderOneLine(p);
    LastLine(Header(p), part);
    HeaderParsed(p, part);
  }

  /**
   What is read of a printed disposition line wherever it stands among a part's header lines: its name exactly,
   and the file name that its place makes of it.
   */
  lemma NamesRead(lines: seq<seq<byte>>, d: nat, p: Disposition, part: Part)
    requires AreLines(lines) && OnlyAt(lines, d, DISPOSITION) && lines[d] == Header(p) && Clear(p)
    requires part.name.None? && part.filename.None?
    ensures
      var (part', found) := ParsePartHeaders(JoinLines(lines), part);
      && found && part'.name == Some(p.name) && part'.filename == ReadFilename(p, d == |lines| - 1)
      && part'.data == part.data
  {
    hide ApplyLine, ApplyLines, CiPrefix, ParsePartHeaders, CiFirst, Header, ReadFilename;
    HeaderLinesRead(lines, part);
    HeadersKeepData(JoinLines(lines), part);
    WholeDisposition(p, part);
    CutKeeps(lines, d, DISPOSITION);
    NamesOfOnlyLine(part, AsRead(lines), d);
    CutDisposition(p, part);
  }

  // ---- The file name ----

  /** A key that a text spells is also the first one when a quote and more follow. */
  lemma QuoteAddsNoKey(name: seq<byte>, rest: seq<byte>)
    requires CiFirst(name, FILENAME, 0).Some?
    ensures CiFirst(name + ([QUOTE] + rest), FILENAME, 0) == CiFirst(name, FILENAME, 0)
  {
    hide CiPrefix;
    var s, f := name + ([QUOTE] + rest), CiFirst(name, FILENAME, 0).value;
    forall k | 0 <= k <= f ensures CiPrefix(s[k..], FILENAME) <==> k == f {
      CiPrefixLocal(name, [QUOTE] + rest, k, FILENAME);
    }
    CiFirstAt(s, FILENAME, f);
  }

  lemma TooShort(s: seq<byte>, key: seq<byte>)
    requires |s| < |key|
    ensures !CiPrefix(s, key)
  {
  }

  /** A name that spells the key: the value is what follows the key, in the name and behind it. */
  lemma SpelledValue(name: seq<byte>, tail: seq<byte>)
    requires CiFirst(name, FILENAME, 0).Some? && (tail == [] || tail[0] == QUOTE)
    ensures
      var rest := name[CiFirst(name, FILENAME, 0).value + |FILENAME|..];
      Extract(name + tail, FILENAME) == ValueOf(rest + tail)
  {
    hide CiPrefix, ValueOf;
    var f := CiFirst(name, FILENAME, 0).value;
    if tail == [] {
      assert name + tail == name && name[f + |FILENAME|..] + tail == name[f + |FILENAME|..];
    } else {
      assert tail == [QUOTE] + tail[1..];
      QuoteAddsNoKey(name, tail[1..]);
      assert (name + tail)[f + |FILENAME|..] == name[f + |FILENAME|..] + tail;
    }
  }

  predicate HasTokenEnd(s: seq<byte>) { exists i :: 0 <= i < |s| && EndsToken(s[i]) }

  /** An unquoted value ends in the name if it can, and otherwise goes on to the separator behind the quote. */
  lemma {:induction false} UnquotedOf(rest: seq<byte>, tail: seq<byte>)
    requires |tail| >= 2 && !EndsToken(tail[0]) && EndsToken(tail[1])
    ensures Unquoted(rest + tail) == if HasTokenEnd(rest) then Unquoted(rest) else rest + [tail[0]]
    decreases |rest|
  {
    if rest == [] {
      assert rest + tail == tail && tail[1..] != [] && Unquoted(tail[1..]) == [];
    } else {
      assert (rest + tail)[1..] == rest[1..] + tail;
      UnquotedOf(rest[1..], tail);
      if !EndsToken(rest[0]) {
        if HasTokenEnd(rest) {
          var i :| 0 <= i < |rest| && EndsToken(rest[i]);
          assert EndsToken(rest[1..][i - 1]);
        }
      }
    }
  }

  /** A disposition that is read back exactly, its line being the last one or not. */
  predicate FilenameSafe(p: Disposition, last: bool) {
    var found := CiFirst(p.name, FILENAME, 0);
    || found.None?
    || var rest := p.name[found.value + |FILENAME|..];
       if p.filename.None? then last && rest == []
       else if rest == [] then p.filename.value == SEPARATOR + FILENAME
       else HasTokenEnd(rest) && Unquoted(rest) == p.filename.value
  }

  /** The file name comes back exactly if and only if the disposition is safe. */
  lemma FilenameReadExactly(p: Disposition, last: bool)
    requires Clear(p)
    ensures ReadFilename(p, last) == p.filename <==> FilenameSafe(p, last)
  {
    hide CiPrefix, Extract, CiFirst, Unquoted;
    var found, tail := CiFirst(p.name, FILENAME, 0), Tail(p, last);
    TailOf(p);
    if found.None? {
      KeyNotSpelled(p, last);
    } else {
      SpelledValue(p.name, tail);
      var rest := p.name[found.value + |FILENAME|..];
      if p.filename.None? {
        SpelledAlone(rest, tail, last);
      } else {
        SpelledBeside(p, rest, tail);
      }
    }
  }

  lemma KeyNotSpelled(p: Disposition, last: bool)
    requires Clear(p) && CiFirst(p.name, FILENAME, 0).None?
    ensures ReadFilename(p, last) == p.filename
  {
    TailOf(p);
    if p.filename.Some? {
      hide Extract, CiFirst;
      FilenameAfter(p.name, p.filename.value, if last then [] else [QUOTE]);
    } else if last {
      assert p.name + [] == p.name;
    } else {
      hide CiPrefix;
      var s := p.name + ([QUOTE] + []);
      assert s == p.name + [QUOTE];
      forall k | 0 <= k <= |s| ensures !CiPrefix(s[k..], FILENAME) {
        if k < |p.name| { NoKeyInName(p.name, [], k); } else { TooShort(s[k..], FILENAME); }
      }
    }
  }

  lemma SpelledAlone(rest: seq<byte>, tail: seq<byte>, last: bool)
    requires tail == if last then [] else [QUOTE]
    ensures ValueOf(rest + tail).None? <==> last && rest == []
  {
  }

  /** Nothing behind the key in the name: the closing quote opens a value that ends at the next quote. */
  lemma SpelledAtEnd(tail: seq<byte>, rest: seq<byte>)
    requires tail == [QUOTE] + (SEPARATOR + FILENAME + ([QUOTE] + rest))
    ensures ValueOf(tail) == Some(SEPARATOR + FILENAME)
  {
    var key := SEPARATOR + FILENAME;
    assert tail[1..] == key + ([QUOTE] + rest);
    hide Quoted;
    QuotedStops(key, [QUOTE] + rest);
  }

  /** Something behind the key in the name: an unquoted value. */
  lemma SpelledInside(tail: seq<byte>, rest: seq<byte>)
    requires |tail| >= 2 && tail[0] == QUOTE && tail[1] == SEMICOLON && rest != [] && QUOTE !in rest
    ensures ValueOf(rest + tail) == Some(if HasTokenEnd(rest) then Unquoted(rest) else rest + [QUOTE])
  {
    assert (rest + tail)[0] == rest[0] && rest[0] in rest;
    hide HasTokenEnd;
    UnquotedOf(rest, tail);
    hide Unquoted;
  }

  lemma SpelledBeside(p: Disposition, rest: seq<byte>, tail: seq<byte>)
    requires Clear(p) && p.filename.Some? && QUOTE !in rest
    requires
      var text := [QUOTE] + SEPARATOR + FILENAME + [QUOTE] + p.filename.value;
      tail == text + [] || tail == text + [QUOTE]
    ensures
      ValueOf(rest + tail) == p.filename
      <==> if rest == [] then p.filename.value == SEPARATOR + FILENAME
           else HasTokenEnd(rest) && Unquoted(rest) == p.filename.value
  {
    hide ValueOf, Unquoted, HasTokenEnd;
    var after := TailShape(tail, p.filename.value);
    if rest == [] {
      assert rest + tail == tail;
      SpelledAtEnd(tail, after);
    } else {
      SpelledInside(tail, rest);
      assert QUOTE in rest + [QUOTE] by { assert (rest + [QUOTE])[|rest|] == QUOTE; }
    }
  }

  lemma TailShape(tail: seq<byte>, fn: seq<byte>) returns (after: seq<byte>)
    requires
      var text := [QUOTE] + SEPARATOR + FILENAME + [QUOTE] + fn;
      tail == text + [] || tail == text + [QUOTE]
    ensures tail == [QUOTE] + (SEPARATOR + FILENAME + ([QUOTE] + after))
    ensures |tail| >= 2 && tail[0] == QUOTE && tail[1] == SEMICOLON
  {
    after := if tail == [QUOTE] + SEPARATOR + FILENAME + [QUOTE] + fn + [] then fn else fn + [QUOTE];
    assert tail == [QUOTE] + (SEPARATOR + FILENAME + ([QUOTE] + after));
    assert SEPARATOR[0] == SEMICOLON;
  }

  /**
   A part's name comes back exactly wherever its disposition line stands among its header lines, first, last or
   between; its file name, or that it has none, does so if and only if the disposition is safe there.
   */
  lemma NamesRecovered(lines: seq<seq<byte>>, d: nat, p: Disposition, part: Part)
    requires AreLines(lines) && OnlyAt(lines, d, DISPOSITION) && lines[d] == Header(p)
    requires Clear(p) && part.name.None? && part.filename.None?
    ensures
      var (part', found) := ParsePartHeaders(JoinLines(lines), part);
      && found && part'.name == Some(p.name) && part'.data == part.data
      && (part'.filename == p.filename <==> FilenameSafe(p, d == |lines| - 1))
  {
    hide ParsePartHeaders, CiPrefix, CiFirst, Header, ReadFilename, FilenameSafe;
    NamesRead(lines, d, p, part);
    FilenameReadExactly(p, d == |lines| - 1);
  }

  /**
   A part printed without a file name is read as one without if and only if its name does not spell `filename=`,
   or the key ends the name and the disposition is the last header line.
   */
  lemma FilenameAbsent(lines: seq<seq<byte>>, d: nat, p: Disposition, part: Part)
    requires AreLines(lines) && OnlyAt(lines, d, DISPOSITION) && lines[d] == Header(p)
    requires Plain(p.name) && p.filename.None? && part.name.None? && part.filename.None?
    ensures
      var found := CiFirst(p.name, FILENAME, 0);
      ParsePartHeaders(JoinLines(lines), part).0.filename.None?
      <==> found.None? || (d == |lines| - 1 && found.value + |FILENAME| == |p.name|)
  {
    hide ParsePartHeaders, CiPrefix, Header, FilenameSafe, CiFirst;
    NamesRecovered(lines, d, p, part);
    SafeAlone(p, d == |lines| - 1);
  }

  lemma SafeAlone(p: Disposition, last: bool)
    requires p.filename.None?
    ensures
      var found := CiFirst(p.name, FILENAME, 0);
      FilenameSafe(p, last) <==> found.None? || (last && found.value + |FILENAME| == |p.name|)
  {
    hide CiPrefix;
  }

  // "filename=x", "y"
  const SPELLING_NAME: seq<byte> := FILENAME + [120]
  const OTHER_NAME: seq<byte> := [121]

  /** An instance: what follows the key in the name is read for the file name, closing quote and all. */
  lemma SpelledExample(last: bool)
    ensures ReadFilename(Disposition(SPELLING_NAME, Some(OTHER_NAME)), last) == Some([120, QUOTE])
  {
    var p := Disposition(SPELLING_NAME, Some(OTHER_NAME));
    TailOf(p);
    assert SPELLING_NAME[0..] == SPELLING_NAME;
    CiFirstAt(SPELLING_NAME, FILENAME, 0);
    hide CiFirst, Extract;
    SpelledValue(p.name, Tail(p, last));
    assert SPELLING_NAME[|FILENAME|..] == [120] && !HasTokenEnd([120]);
    hide ValueOf;
    SpelledInside(Tail(p, last), [120]);
    assert [120] + [QUOTE] == [120, QUOTE];
  }
}
