/**
 The converse of decoding an encoding: an input the chunked decoder completes on starts with
 an encoding, so the accepted inputs are exactly the encodings followed by anything.
 */
module ChunkedSoundness {
  import opened Bytes
  import opened ChunkedSpec
  import opened ChunkedTheorems

  ghost predicate Completes(ct: bool, m: Machine, s: seq<byte>) {
    Run(ct, m, s).verdict == Complete
  }

  lemma ConsAppend(b: byte, a: seq<byte>, c: seq<byte>)
    ensures [b] + a + c == [b] + (a + c)
  {
  }

  lemma {:induction false} PeelDigits(ct: bool, m: Machine, s: seq<byte>) returns (digits: seq<byte>, rest: seq<byte>)
    requires Reachable(m) && m.phase == ChunkSize && Completes(ct, m, s)
    ensures s == digits + rest && rest != [] && DecodeHex(rest[0]) == -1
    ensures 1 <= m.hexCount + |digits| <= 16
    ensures forall i :: 0 <= i < |digits| ==> DecodeHex(digits[i]) >= 0
    decreases |s|
  {
    if DecodeHex(s[0]) == -1 {
      digits, rest := [], s;
    } else {
      StepKeepsReachable(ct, m, s[0]);
      digits, rest := PeelDigits(ct, Step(ct, m, s[0]).m, s[1..]);
      digits := [s[0]] + digits;
      assert s == [s[0]] + s[1..];
      ConsAppend(s[0], digits[1..], rest);
    }
  }

  lemma {:induction false} PeelExt(ct: bool, m: Machine, s: seq<byte>) returns (ext: seq<byte>, rest: seq<byte>)
    requires m.phase == ChunkExt && Completes(ct, m, s)
    ensures s == ext + [CR] + rest && CR !in ext && LF !in ext
    decreases |s|
  {
    if s[0] == CR {
      ext, rest := [], s[1..];
    } else {
      ext, rest := PeelExt(ct, m, s[1..]);
      ext := [s[0]] + ext;
    }
    assert s == [s[0]] + s[1..];
  }

  /** A size line: digits, extension, CR, and an LF that the rest of the run starts with. */
  lemma PeelSizeLine(ct: bool, s: seq<byte>) returns (digits: seq<byte>, ext: seq<byte>, rest: seq<byte>)
    requires Completes(ct, START, s)
    ensures 1 <= |digits| <= 16 && forall i :: 0 <= i < |digits| ==> DecodeHex(digits[i]) >= 0
    ensures IsExt(ext)
    ensures s == digits + (ext + [CR]) + ([LF] + rest)
    ensures
      var o := Run(ct, Machine(ChunkHeaderExpectLF, HexValue(0, digits), 0), [LF] + rest);
      Run(ct, START, s) == o.(used := |digits + (ext + [CR])| + o.used)
  {
    var tail;
    digits, tail := PeelDigits(ct, START, s);
    var n := HexValue(0, digits);
    ghost var m, m' := Machine(ChunkSize, n, |digits|), Machine(ChunkExt, n, 0);
    DigitsMove(ct, START, digits);
    FrameThen(ct, START, digits, m, tail);
    assert Step(ct, m, tail[0]) == Step(ct, m', tail[0]);
    ext, rest := PeelExt(ct, m', tail);
    if ext != [] { assert ext[0] == tail[0] && ext[0] in ext; }
    SizeLineMoves(ct, digits, ext, n);
    LineAssoc(digits, ext, rest);
    FrameThen(ct, START, digits + (ext + [CR]), Machine(ChunkHeaderExpectLF, n, 0), rest);
    assert rest != [] && rest[0] == LF;
    rest := rest[1..];
  }

  lemma LineAssoc(digits: seq<byte>, ext: seq<byte>, rest: seq<byte>)
    ensures digits + (ext + [CR] + rest) == digits + (ext + [CR]) + rest
    ensures rest != [] ==> rest == [rest[0]] + rest[1..]
  {
  }

  lemma {:induction false} DataShort(ct: bool, n: nat, s: seq<byte>)
    requires |s| < n
    ensures Run(ct, Machine(ChunkData, n, 0), s).verdict == NeedMore
    decreases |s|
  {
    if s != [] { DataShort(ct, n - 1, s[1..]); }
  }

  lemma PeelData(ct: bool, n: nat, s: seq<byte>) returns (data: seq<byte>, rest: seq<byte>)
    requires n > 0 && Completes(ct, Machine(ChunkData, n, 0), s)
    ensures |data| == n && s == data + [CR, LF] + rest
    ensures Run(ct, Machine(ChunkData, n, 0), s) == Shift(Run(ct, START, rest), n + 2, data)
  {
    if |s| < n {
      DataShort(ct, n, s);
    } else {
      data := s[..n];
      var tail := s[n..];
      DataMoves(ct, data);
      assert s == data + tail;
      MovesThen(ct, Machine(ChunkData, n, 0), data, Machine(ChunkDataExpectCR, 0, 0), data, tail);
      rest := PeelCrlf(ct, tail);
      SplitTail(data, tail, rest);
    }
  }

  lemma SplitTail(data: seq<byte>, tail: seq<byte>, rest: seq<byte>)
    requires tail == [CR, LF] + rest
    ensures data + tail == data + [CR, LF] + rest
  {
  }

  lemma PeelCrlf(ct: bool, s: seq<byte>) returns (rest: seq<byte>)
    requires Completes(ct, Machine(ChunkDataExpectCR, 0, 0), s)
    ensures s == [CR, LF] + rest
    ensures var o := Run(ct, START, rest); Run(ct, Machine(ChunkDataExpectCR, 0, 0), s) == o.(used := o.used + 2)
  {
    assert s[0] == CR;
    var tail := s[1..];
    assert Completes(ct, Machine(ChunkDataExpectLF, 0, 0), tail);
    assert tail[0] == LF;
    rest := tail[1..];
    assert s == [CR] + tail && tail == [LF] + rest;
  }

  lemma {:induction false} PeelChunks(ct: bool, s: seq<byte>)
      returns (cs: seq<Chunk>, zeros: seq<byte>, ext: seq<byte>, rest: seq<byte>)
    requires Completes(ct, START, s)
    ensures forall i :: 0 <= i < |cs| ==> IsChunk(cs[i])
    ensures IsSize(zeros, 0) && IsExt(ext)
    ensures s == PrintChunks(cs) + (zeros + (ext + [CR, LF]) + rest)
    ensures ct ==> Completes(ct, LINE_HEAD, rest)
    decreases |s|
  {
    hide Run;
    var digits, e, tail := PeelSizeLine(ct, s);
    var n := HexValue(0, digits);
    LineSplit(digits, e, tail);
    if n == 0 {
      LastLfCompletes(ct, tail);
      cs, zeros, ext, rest := [], digits, e, tail;
      assert [] + s == s;
    } else {
      LfMoves(ct, n, tail);
      var data, next := PeelData(ct, n, tail);
      cs, zeros, ext, rest := PeelChunks(ct, next);
      var c := Chunk(digits, e, data);
      ChunkAssoc(c, next);
      PrintCons(c, cs, zeros + (ext + [CR, LF]) + rest);
      cs := [c] + cs;
    }
  }

  lemma ChunkAssoc(c: Chunk, next: seq<byte>)
    ensures c.digits + (c.ext + [CR, LF]) + (c.data + [CR, LF] + next) == PrintChunk(c) + next
  {
  }

  lemma PrintCons(c: Chunk, cs: seq<Chunk>, s: seq<byte>)
    ensures PrintChunk(c) + (PrintChunks(cs) + s) == PrintChunks([c] + cs) + s
  {
    assert ([c] + cs)[1..] == cs;
  }

  lemma {:induction false} PeelCrs(ct: bool, s: seq<byte>) returns (n: nat, rest: seq<byte>)
    requires Completes(ct, LINE_HEAD, s)
    ensures s == Crs(n) + rest && rest != [] && rest[0] != CR
    ensures Completes(ct, LINE_HEAD, rest)
    decreases |s|
  {
    if s[0] != CR {
      n, rest := 0, s;
    } else {
      n, rest := PeelCrs(ct, s[1..]);
      n := n + 1;
      assert s == [CR] + s[1..];
      ConsAppend(CR, Crs(n - 1), rest);
    }
  }

  lemma {:induction false} PeelText(ct: bool, s: seq<byte>) returns (text: seq<byte>, rest: seq<byte>)
    requires Completes(ct, LINE_MIDDLE, s)
    ensures s == text + [LF] + rest && LF !in text
    ensures Completes(ct, LINE_HEAD, rest)
    decreases |s|
  {
    if s[0] == LF {
      text, rest := [], s[1..];
    } else {
      text, rest := PeelText(ct, s[1..]);
      text := [s[0]] + text;
    }
    assert s == [s[0]] + s[1..];
  }

  lemma {:induction false} PeelTrailers(ct: bool, s: seq<byte>)
      returns (lines: seq<TrailerLine>, crs: nat, t: seq<byte>)
    requires Completes(ct, LINE_HEAD, s)
    ensures forall i :: 0 <= i < |lines| ==> IsTrailerLine(lines[i])
    ensures s == PrintTrailers(lines) + (Crs(crs) + [LF]) + t
    decreases |s|
  {
    var n, tail := PeelCrs(ct, s);
    if tail[0] == LF {
      lines, crs, t := [], n, tail[1..];
      BlankLine(n, tail);
    } else {
      var text, rest := PeelText(ct, tail[1..]);
      var line := TrailerLine(n, [tail[0]] + text);
      lines, crs, t := PeelTrailers(ct, rest);
      TrailerCons(line, lines, Crs(crs) + [LF] + t, tail, rest);
      lines := [line] + lines;
      TailAssoc(PrintTrailers(lines), Crs(crs) + [LF], t);
    }
  }

  lemma BlankLine(n: nat, tail: seq<byte>)
    requires tail != [] && tail[0] == LF
    ensures Crs(n) + tail == PrintTrailers([]) + (Crs(n) + [LF]) + tail[1..]
  {
    assert tail == [LF] + tail[1..];
  }

  lemma TailAssoc(a: seq<byte>, b: seq<byte>, c: seq<byte>)
    ensures a + (b + c) == a + b + c
  {
  }

  lemma TrailerCons(line: TrailerLine, lines: seq<TrailerLine>, end: seq<byte>, tail: seq<byte>, rest: seq<byte>)
    requires tail != [] && line.text != [] && tail[0] == line.text[0] && tail[1..] == line.text[1..] + [LF] + rest
    requires rest == PrintTrailers(lines) + end
    ensures Crs(line.crs) + tail == PrintTrailers([line] + lines) + end
  {
    assert ([line] + lines)[1..] == lines;
    assert tail == [tail[0]] + tail[1..];
    assert line.text == [tail[0]] + line.text[1..];
    assert tail == line.text + [LF] + rest;
  }

  /** An input the decoder completes on is an encoding followed by the bytes left over. */
  lemma AcceptedIsEncoding(ct: bool, s: seq<byte>) returns (msg: Message, t: seq<byte>)
    requires Completes(ct, START, s)
    ensures IsMessage(msg) && s == Print(ct, msg) + t
  {
    var cs, zeros, ext, rest := PeelChunks(ct, s);
    var lines, crs := [], 0;
    if ct { lines, crs, t := PeelTrailers(ct, rest); } else { t := rest; }
    msg := Message(cs, zeros, ext, lines, crs);
    EndAssoc(ct, msg, rest, t);
  }

  lemma EndAssoc(ct: bool, msg: Message, rest: seq<byte>, t: seq<byte>)
    requires rest == (if ct then PrintTrailers(msg.trailers) + (Crs(msg.crs) + [LF]) else []) + t
    ensures PrintChunks(msg.chunks) + (msg.zeros + (msg.ext + [CR, LF]) + rest) == Print(ct, msg) + t
  {
    var line := msg.zeros + (msg.ext + [CR, LF]);
    var end: seq<byte> := if ct then PrintTrailers(msg.trailers) + (Crs(msg.crs) + [LF]) else [];
    assert line + rest == line + end + t;
  }

  function Fresh(ct: bool): Decoder {
    Decoder(ct, START, 0, 0)
  }

  lemma DecodeInvertsEncoding(ct: bool, msg: Message, t: seq<byte>)
    requires IsMessage(msg)
    ensures
      var c := Decode(Fresh(ct), Print(ct, msg) + t);
      c.ret == |t| && c.body == ChunkBody(msg.chunks) && c.rest == t
  {
    hide Run;
    EncodingIsAccepted(ct, msg, t);
    DropAppend(Print(ct, msg), t, 0);
  }

  /**
   A fresh decoder completes exactly on the encodings: it returns a count of left-over bytes
   if and only if the input is an encoding followed by some `t`, and then it yields exactly
   the chunks' data and leaves exactly `t`.
   */
  lemma DecodeExact(ct: bool, s: seq<byte>)
    ensures Decode(Fresh(ct), s).ret >= 0 <==> exists msg, t :: IsMessage(msg) && s == Print(ct, msg) + t
    ensures forall msg, t :: IsMessage(msg) && s == Print(ct, msg) + t ==>
              var c := Decode(Fresh(ct), s);
              c.ret == |t| && c.body == ChunkBody(msg.chunks) && c.rest == t
  {
    hide Run;
    if Decode(Fresh(ct), s).ret >= 0 {
      var msg, t := AcceptedIsEncoding(ct, s);
    }
    forall msg, t | IsMessage(msg) && s == Print(ct, msg) + t
      ensures
        var c := Decode(Fresh(ct), s);
        c.ret == |t| && c.body == ChunkBody(msg.chunks) && c.rest == t
    {
      DecodeInvertsEncoding(ct, msg, t);
    }
  }

  // ---- Every body has an encoding ----

  function HexDigit(v: nat): byte
    requires v < 16
  {
    if v < 10 then 48 + v else 97 + (v - 10)
  }

  /** `n` in lower-case hexadecimal. */
  function HexDigits(n: nat): seq<byte>
    decreases n
  {
    if n < 16 then [HexDigit(n)] else HexDigits(n / 16) + [HexDigit(n % 16)]
  }

  lemma {:induction false} HexValueSnoc(acc: nat, digits: seq<byte>, b: byte)
    requires forall i :: 0 <= i < |digits| ==> DecodeHex(digits[i]) >= 0
    requires DecodeHex(b) >= 0
    ensures HexValue(acc, digits + [b]) == HexValue(acc, digits) * 16 + DecodeHex(b)
    decreases |digits|
  {
    if digits == [] {
      assert ([] + [b])[1..] == [];
    } else {
      assert (digits + [b])[1..] == digits[1..] + [b];
      HexValueSnoc(acc * 16 + DecodeHex(digits[0]), digits[1..], b);
    }
  }

  /** Every size below 2^64 has a size field, so every body can be sent. */
  lemma {:induction false} HexDigitsIsSize(n: nat, k: nat)
    requires n < Pow16(k) && 1 <= k <= 16
    ensures IsSize(HexDigits(n), n) && |HexDigits(n)| <= k
    decreases k
  {
    if n < 16 {
      assert HexValue(0, [HexDigit(n)]) == n by { assert [HexDigit(n)][1..] == []; }
    } else {
      assert k > 1 by { assert Pow16(1) == 16; }
      HexDigitsIsSize(n / 16, k - 1);
      HexValueSnoc(0, HexDigits(n / 16), HexDigit(n % 16));
    }
  }

  // ---- Where a split shows ----

  lemma {:induction false} ExtBytesMove(ct: bool, m: Machine, ext: seq<byte>)
    requires m.phase == ChunkExt && CR !in ext && LF !in ext
    ensures Moves(ct, m, ext, m, [])
    decreases |ext|
  {
    if ext != [] { ExtBytesMove(ct, m, ext[1..]); }
  }

  const DECODER_END: seq<byte> := [CR, LF, 122, CR, LF, 48, CR, LF, LF]

  function LongExtension(n: nat): seq<byte> {
    [49, SEMICOLON] + seq(n, _ => 120)
  }

  function LongExtensionMessage(n: nat): Message {
    Message([Chunk([49], [SEMICOLON] + seq(n, _ => 120), [122])], [48], [], [], 0)
  }

  lemma LongExtensionPrints(n: nat)
    ensures LongExtension(n) + DECODER_END == Print(true, LongExtensionMessage(n)) + []
  {
    var msg := LongExtensionMessage(n);
    var c := msg.chunks[0];
    assert PrintChunks([c]) == PrintChunk(c) by { assert [c][1..] == []; }
    assert PrintTrailers([]) + (Crs(0) + [LF]) == [LF];
    assert PrintEnd(true, msg) == [48, CR, LF, LF];
  }

  lemma LongExtensionIsMessage(n: nat)
    ensures IsMessage(LongExtensionMessage(n))
  {
    assert [49][1..] == [] && [48][1..] == [];
    assert HexValue(0, [49]) == 1 && HexValue(0, [48]) == 0;
  }

  lemma LongExtensionAccepted(n: nat)
    ensures Decode(Fresh(true), LongExtension(n) + DECODER_END).ret == 0
  {
    hide Run, Print, LongExtension;
    LongExtensionPrints(n);
    LongExtensionIsMessage(n);
    DecodeInvertsEncoding(true, LongExtensionMessage(n), []);
  }

  /** A long extension: one call completes, two calls trip the overhead guard in between. */
  lemma GuardMakesSplitVisible(n: nat)
    requires 100 * 1024 <= n < TWO_TO_THE_64 - 16
    ensures Decode(Fresh(true), LongExtension(n) + DECODER_END).ret == 0
    ensures DecodeTwice(Fresh(true), LongExtension(n), DECODER_END).ret == -1
  {
    LongExtensionAccepted(n);
    var x: seq<byte> := seq(n, _ => 120);
    var a := LongExtension(n);
    var m, m' := Machine(ChunkSize, 1, 1), Machine(ChunkExt, 1, 0);
    ExtBytesMove(true, m', x);
    assert a[1..] == [SEMICOLON] + x && a[1..][1..] == x;
    assert Step(true, START, a[0]) == Go(m) && Step(true, m, a[1..][0]) == Go(m');
    assert Run(true, START, a) == Outcome(m', [], n + 2, NeedMore);
  }
}
