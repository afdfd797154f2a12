/**
 What the chunked decoder guarantees for every input and every way of cutting it into reads:
 reachable states stay reachable, the 64-bit size never wraps, the result does not depend
 on where the input is split, and the accepted inputs are exactly the encodings below.
 */
module ChunkedTheorems {
  import opened Bytes
  import opened ChunkedSpec

  // ---- Reachable states ----

  lemma Pow16At16()
    ensures Pow16(16) == TWO_TO_THE_64
  {
    assert Pow16(4) == 0x1_0000;
    assert Pow16(8) == 0x1_0000_0000;
    assert Pow16(12) == 0x1_0000_0000_0000;
  }

  lemma {:induction false} Pow16Monotone(i: nat, j: nat)
    requires i <= j
    ensures Pow16(i) <= Pow16(j)
    decreases j
  {
    if i < j { Pow16Monotone(i, j - 1); }
  }

  /** Accumulating one more digit does not wrap, so the 64-bit remainder is the plain sum. */
  lemma SizeNeverWraps(m: Machine, v: nat)
    requires Reachable(m) && m.phase == ChunkSize && m.hexCount < 16 && v < 16
    ensures m.bytesLeft * 16 + v < Pow16(m.hexCount + 1) <= TWO_TO_THE_64
    ensures Wrap64(m.bytesLeft * 16 + v) == m.bytesLeft * 16 + v
  {
    Pow16Monotone(m.hexCount + 1, 16);
    Pow16At16();
  }

  lemma StepSizeKeepsReachable(m: Machine, b: byte)
    requires Reachable(m) && m.phase == ChunkSize
    ensures Reachable(StepSize(m, b).m)
  {
    if DecodeHex(b) != -1 && m.hexCount < 16 { SizeNeverWraps(m, DecodeHex(b)); }
  }

  lemma StepKeepsReachable(ct: bool, m: Machine, b: byte)
    requires Reachable(m)
    ensures Reachable(Step(ct, m, b).m)
  {
    if m.phase == ChunkSize { StepSizeKeepsReachable(m, b); }
  }

  lemma {:induction false} RunKeepsReachable(ct: bool, m: Machine, s: seq<byte>)
    requires Reachable(m)
    ensures Reachable(Run(ct, m, s).m)
    decreases |s|
  {
    if s != [] {
      StepKeepsReachable(ct, m, s[0]);
      RunKeepsReachable(ct, Step(ct, m, s[0]).m, s[1..]);
    }
  }

  // ---- Split invariance ----

  /** `o` seen from `n` bytes and `body` further back. */
  function Shift(o: Outcome, n: nat, body: seq<byte>): Outcome {
    o.(used := o.used + n, body := body + o.body)
  }

  lemma {:induction false} RunAppend(ct: bool, m: Machine, a: seq<byte>, b: seq<byte>)
    ensures
      var o := Run(ct, m, a);
      Run(ct, m, a + b) == if o.verdict == NeedMore then Shift(Run(ct, o.m, b), |a|, o.body) else o
    decreases |a|
  {
    if a == [] {
      assert a + b == b;
      var o := Run(ct, m, b);
      assert [] + o.body == o.body;
    } else {
      assert (a + b)[1..] == a[1..] + b;
      var m' := Step(ct, m, a[0]).m;
      RunAppend(ct, m', a[1..], b);
      var o := Run(ct, m', a[1..]);
      var o' := Run(ct, o.m, b);
      assert [a[0]] + (o.body + o'.body) == [a[0]] + o.body + o'.body;
    }
  }

  lemma DropAppend(a: seq<byte>, b: seq<byte>, k: nat)
    requires k <= |b|
    ensures a[|a|..] == [] && (a + b)[|a| + k..] == b[k..]
  {
  }

  lemma WrapTwice(x: int, y: int)
    ensures Wrap64(Wrap64(x) + y) == Wrap64(x + y)
  {
    AddMultiple(Wrap64(x) + y, x / TWO_TO_THE_64, TWO_TO_THE_64);
  }

  /** Two calls, or one when the first already decides. */
  function DecodeTwice(d: Decoder, a: seq<byte>, b: seq<byte>): Call {
    var c := Decode(d, a);
    if c.ret != -2 then c
    else var c' := Decode(c.d, b); c'.(body := c.body + c'.body)
  }

  /** Two ways to a result that the application cannot tell apart. */
  predicate SameResult(two: Call, one: Call) {
    && two.ret == one.ret && two.body == one.body && two.rest == one.rest
    && two.d.m == one.d.m && two.d.totalRead == one.d.totalRead
    && (one.ret == -2 ==> two.d == one.d)
  }

  lemma SettleSplit(d: Decoder, n: nat, n': nat, o: Outcome, o': Outcome, rest: seq<byte>)
    requires o.verdict == NeedMore && |o.body| <= n && |o'.body| <= n'
    ensures
      var c := Settle(Settle(d, n, o, []).d, n', o', rest);
      SameResult(c.(body := o.body + c.body), Settle(d, n + n', Shift(o', n, o.body), rest))
  {
    WrapTwice(d.totalRead + n, n');
    WrapTwice(d.totalOverhead + (n - |o.body|), n' - |o'.body|);
  }

  /**
   Splitting an input after `a` changes nothing as long as the overhead guard stays quiet there:
   same return value, same body, same undecoded bytes, same machine and totals.
   */
  lemma SplitInvariance(d: Decoder, a: seq<byte>, b: seq<byte>)
    requires Decode(d, a).ret == -2
    ensures SameResult(DecodeTwice(d, a, b), Decode(d, a + b))
  {
    hide Run;
    var o := Run(d.consumeTrailer, d.m, a);
    var o' := Run(d.consumeTrailer, o.m, b);
    RunAppend(d.consumeTrailer, d.m, a, b);
    SettleSplit(d, |a|, |b|, o, o', b[o'.used..]);
    DropAppend(a, b, o'.used);
  }

  /** The overhead guard after `n` more bytes of which `body` were data. */
  predicate GuardAfter(d: Decoder, n: nat, body: nat) {
    GuardFires(Wrap64(d.totalRead + n), Wrap64(d.totalOverhead + (n - body)))
  }

  /**
   Exactly when a split shows in no return value: the guard is quiet after `a`, or scanning `b`
   finds an error, or `b` too is incomplete and the guard fires on the totals of both.
   */
  lemma SplitVerdictExact(d: Decoder, a: seq<byte>, b: seq<byte>)
    requires Run(d.consumeTrailer, d.m, a).verdict == NeedMore
    ensures
      var o := Run(d.consumeTrailer, d.m, a);
      var o' := Run(d.consumeTrailer, o.m, b);
      DecodeTwice(d, a, b).ret == Decode(d, a + b).ret
      <==> || !GuardAfter(d, |a|, |o.body|)
           || o'.verdict == Malformed
           || (o'.verdict == NeedMore && GuardAfter(d, |a| + |b|, |o.body| + |o'.body|))
  {
    hide Run;
    RunAppend(d.consumeTrailer, d.m, a, b);
    if Decode(d, a).ret == -2 { SplitInvariance(d, a, b); }
  }

  /**
   The application's read loop: hand over one fragment per call while the decoder asks for more.
   Fragments not handed over stay in front of the application, undecoded.
   */
  function Feed(d: Decoder, frags: seq<seq<byte>>): Call
    requires frags != []
    decreases |frags|
  {
    var c := Decode(d, frags[0]);
    if |frags| == 1 then c
    else if c.ret != -2 then
      var unread := Flatten(frags[1..]);
      c.(ret := if c.ret >= 0 then c.ret + |unread| else c.ret, rest := c.rest + unread)
    else
      var c' := Feed(c.d, frags[1..]);
      c'.(body := c.body + c'.body)
  }

  /** The overhead guard fires after no fragment but perhaps the last. */
  predicate GuardQuiet(d: Decoder, frags: seq<seq<byte>>)
    requires frags != []
    decreases |frags|
  {
    |frags| > 1 && Run(d.consumeTrailer, d.m, frags[0]).verdict == NeedMore ==>
      var c := Decode(d, frags[0]);
      c.ret == -2 && GuardQuiet(c.d, frags[1..])
  }

  /** Any fragmentation decodes like the whole input in one call. */
  lemma {:induction false} FeedIsDecode(d: Decoder, frags: seq<seq<byte>>)
    requires frags != [] && GuardQuiet(d, frags)
    ensures
      var many, one := Feed(d, frags), Decode(d, Flatten(frags));
      many.ret == one.ret && many.body == one.body && many.rest == one.rest && many.d.m == one.d.m
    decreases |frags|
  {
    hide Run;
    var a, b := frags[0], Flatten(frags[1..]);
    if |frags| == 1 {
      assert frags[1..] == [];
      assert a + b == a;
    } else {
      var c := Decode(d, a);
      if c.ret == -2 {
        FeedIsDecode(c.d, frags[1..]);
        SplitInvariance(d, a, b);
      } else {
        var o := Run(d.consumeTrailer, d.m, a);
        RunAppend(d.consumeTrailer, d.m, a, b);
        assert (a + b)[o.used..] == a[o.used..] + b;
      }
    }
  }

  // ---- The encodings ----

  /** A data chunk: size in hexadecimal, optional extension, data. */
  datatype Chunk = Chunk(digits: seq<byte>, ext: seq<byte>, data: seq<byte>)

  /** A trailer line: carriage returns the decoder skips, then text up to a line feed. */
  datatype TrailerLine = TrailerLine(crs: nat, text: seq<byte>)

  /** Data chunks, the zero chunk, trailer lines, and the carriage returns of the blank line. */
  datatype Message = Message(chunks: seq<Chunk>, zeros: seq<byte>, ext: seq<byte>,
                             trailers: seq<TrailerLine>, crs: nat)

  function HexValue(acc: nat, digits: seq<byte>): nat
    requires forall i :: 0 <= i < |digits| ==> DecodeHex(digits[i]) >= 0
    decreases |digits|
  {
    if digits == [] then acc else HexValue(acc * 16 + DecodeHex(digits[0]), digits[1..])
  }

  predicate IsSize(digits: seq<byte>, n: nat) {
    && 1 <= |digits| <= 16
    && (forall i :: 0 <= i < |digits| ==> DecodeHex(digits[i]) >= 0)
    && HexValue(0, digits) == n
  }

  predicate IsExt(ext: seq<byte>) {
    && (ext != [] ==> ext[0] == SP || ext[0] == TAB || ext[0] == SEMICOLON)
    && CR !in ext && LF !in ext
  }

  predicate IsChunk(c: Chunk) {
    c.data != [] && IsSize(c.digits, |c.data|) && IsExt(c.ext)
  }

  predicate IsTrailerLine(line: TrailerLine) {
    line.text != [] && line.text[0] != CR && LF !in line.text
  }

  predicate IsMessage(msg: Message) {
    && (forall i :: 0 <= i < |msg.chunks| ==> IsChunk(msg.chunks[i]))
    && IsSize(msg.zeros, 0) && IsExt(msg.ext)
    && (forall i :: 0 <= i < |msg.trailers| ==> IsTrailerLine(msg.trailers[i]))
  }

  function Crs(n: nat): seq<byte> {
    if n == 0 then [] else [CR] + Crs(n - 1)
  }

  function PrintChunk(c: Chunk): seq<byte> {
    c.digits + (c.ext + [CR, LF]) + (c.data + [CR, LF])
  }

  function PrintChunks(cs: seq<Chunk>): seq<byte> {
    if cs == [] then [] else PrintChunk(cs[0]) + PrintChunks(cs[1..])
  }

  function PrintTrailers(lines: seq<TrailerLine>): seq<byte> {
    if lines == [] then []
    else Crs(lines[0].crs) + (lines[0].text + [LF]) + PrintTrailers(lines[1..])
  }

  /** Without `consumeTrailer` the decoder stops after the zero chunk's line. */
  function PrintEnd(ct: bool, msg: Message): seq<byte> {
    msg.zeros + (msg.ext + [CR, LF])
    + if ct then PrintTrailers(msg.trailers) + (Crs(msg.crs) + [LF]) else []
  }

  function Print(ct: bool, msg: Message): seq<byte> {
    PrintChunks(msg.chunks) + PrintEnd(ct, msg)
  }

  function ChunkBody(cs: seq<Chunk>): seq<byte> {
    if cs == [] then [] else cs[0].data + ChunkBody(cs[1..])
  }

  // ---- Every encoding is accepted ----

  /** `s` takes the machine from `m` to `m'`, producing `body`, without a verdict. */
  ghost predicate Moves(ct: bool, m: Machine, s: seq<byte>, m': Machine, body: seq<byte>) {
    Run(ct, m, s) == Outcome(m', body, |s|, NeedMore)
  }

  lemma MovesThen(ct: bool, m: Machine, a: seq<byte>, m': Machine, body: seq<byte>, b: seq<byte>)
    requires Moves(ct, m, a, m', body)
    ensures Run(ct, m, a + b) == Shift(Run(ct, m', b), |a|, body)
  {
    RunAppend(ct, m, a, b);
  }

  /** The same when `a` produces nothing. */
  lemma FrameThen(ct: bool, m: Machine, a: seq<byte>, m': Machine, b: seq<byte>)
    requires Moves(ct, m, a, m', [])
    ensures var o := Run(ct, m', b); Run(ct, m, a + b) == o.(used := |a| + o.used)
  {
    MovesThen(ct, m, a, m', [], b);
    var o := Run(ct, m', b);
    assert [] + o.body == o.body;
  }

  lemma {:induction false} DigitsMove(ct: bool, m: Machine, digits: seq<byte>)
    requires Reachable(m) && m.phase == ChunkSize && m.hexCount + |digits| <= 16
    requires forall i :: 0 <= i < |digits| ==> DecodeHex(digits[i]) >= 0
    ensures Moves(ct, m, digits, Machine(ChunkSize, HexValue(m.bytesLeft, digits), m.hexCount + |digits|), [])
    decreases |digits|
  {
    if digits != [] {
      SizeNeverWraps(m, DecodeHex(digits[0]));
      StepKeepsReachable(ct, m, digits[0]);
      DigitsMove(ct, Step(ct, m, digits[0]).m, digits[1..]);
    }
  }

  lemma {:induction false} ExtMoves(ct: bool, m: Machine, ext: seq<byte>)
    requires m.phase == ChunkExt && CR !in ext && LF !in ext
    ensures Moves(ct, m, ext + [CR], m.(phase := ChunkHeaderExpectLF), [])
    decreases |ext|
  {
    if ext == [] {
      assert ext + [CR] == [CR];
    } else {
      assert (ext + [CR])[1..] == ext[1..] + [CR];
      ExtMoves(ct, m, ext[1..]);
    }
  }

  lemma SizeLineMoves(ct: bool, digits: seq<byte>, ext: seq<byte>, n: nat)
    requires IsSize(digits, n) && IsExt(ext)
    ensures Moves(ct, START, digits + (ext + [CR]), Machine(ChunkHeaderExpectLF, n, 0), [])
  {
    DigitsMove(ct, START, digits);
    var m := Machine(ChunkSize, n, |digits|);
    FrameThen(ct, START, digits, m, ext + [CR]);
    var m' := Machine(ChunkExt, n, 0);
    ExtMoves(ct, m', ext);
    var b := (ext + [CR])[0];
    assert Step(ct, m, b) == Step(ct, m', b);
  }

  lemma {:induction false} DataMoves(ct: bool, data: seq<byte>)
    requires data != []
    ensures Moves(ct, Machine(ChunkData, |data|, 0), data, Machine(ChunkDataExpectCR, 0, 0), data)
    decreases |data|
  {
    if |data| == 1 {
      assert data[1..] == [];
    } else {
      DataMoves(ct, data[1..]);
    }
    assert data == [data[0]] + data[1..];
  }

  lemma CrlfMoves(ct: bool)
    ensures Moves(ct, Machine(ChunkDataExpectCR, 0, 0), [CR, LF], START, [])
  {
    var lf := [CR, LF][1..];
    assert lf[1..] == [] && lf[0] == LF;
    assert Moves(ct, Machine(ChunkDataExpectLF, 0, 0), lf, START, []);
  }

  lemma LfMoves(ct: bool, n: nat, s: seq<byte>)
    requires n > 0
    ensures Run(ct, Machine(ChunkHeaderExpectLF, n, 0), [LF] + s) ==
            (var o := Run(ct, Machine(ChunkData, n, 0), s); o.(used := o.used + 1))
  {
    assert ([LF] + s)[1..] == s;
  }

  lemma ChunkMoves(ct: bool, c: Chunk)
    requires IsChunk(c)
    ensures Moves(ct, START, PrintChunk(c), START, c.data)
  {
    hide Run;
    var n := |c.data|;
    var line := c.digits + (c.ext + [CR]);
    SizeLineMoves(ct, c.digits, c.ext, n);
    ChunkRestMoves(ct, c.data);
    FrameThen(ct, START, line, Machine(ChunkHeaderExpectLF, n, 0), [LF] + (c.data + [CR, LF]));
    LineSplit(c.digits, c.ext, c.data + [CR, LF]);
  }

  lemma ChunkRestMoves(ct: bool, data: seq<byte>)
    requires data != []
    ensures Moves(ct, Machine(ChunkHeaderExpectLF, |data|, 0), [LF] + (data + [CR, LF]), START, data)
  {
    hide Run;
    DataMoves(ct, data);
    CrlfMoves(ct);
    MovesThen(ct, Machine(ChunkData, |data|, 0), data, Machine(ChunkDataExpectCR, 0, 0), data, [CR, LF]);
    LfMoves(ct, |data|, data + [CR, LF]);
  }

  lemma {:induction false} ChunksMove(ct: bool, cs: seq<Chunk>)
    requires forall i :: 0 <= i < |cs| ==> IsChunk(cs[i])
    ensures Moves(ct, START, PrintChunks(cs), START, ChunkBody(cs))
    decreases |cs|
  {
    if cs != [] {
      ChunkMoves(ct, cs[0]);
      ChunksMove(ct, cs[1..]);
      MovesThen(ct, START, PrintChunk(cs[0]), START, cs[0].data, PrintChunks(cs[1..]));
    }
  }

  const LINE_HEAD := Machine(TrailersLineHead, 0, 0)
  const LINE_MIDDLE := Machine(TrailersLineMiddle, 0, 0)

  lemma {:induction false} CrsMove(ct: bool, n: nat)
    ensures Moves(ct, LINE_HEAD, Crs(n), LINE_HEAD, [])
  {
    if n > 0 {
      CrsMove(ct, n - 1);
      assert Crs(n)[1..] == Crs(n - 1);
    }
  }

  lemma {:induction false} LineTextMoves(ct: bool, text: seq<byte>)
    requires LF !in text
    ensures Moves(ct, LINE_MIDDLE, text + [LF], LINE_HEAD, [])
    decreases |text|
  {
    if text == [] {
      assert text + [LF] == [LF];
      assert [LF][1..] == [];
    } else {
      assert (text + [LF])[1..] == text[1..] + [LF];
      LineTextMoves(ct, text[1..]);
    }
  }

  lemma TrailerLineMoves(ct: bool, line: TrailerLine)
    requires IsTrailerLine(line)
    ensures Moves(ct, LINE_HEAD, Crs(line.crs) + (line.text + [LF]), LINE_HEAD, [])
  {
    CrsMove(ct, line.crs);
    assert (line.text + [LF])[1..] == line.text[1..] + [LF];
    LineTextMoves(ct, line.text[1..]);
    assert line.text[0] in line.text;
    FrameThen(ct, LINE_HEAD, Crs(line.crs), LINE_HEAD, line.text + [LF]);
  }

  lemma {:induction false} TrailersMove(ct: bool, lines: seq<TrailerLine>)
    requires forall i :: 0 <= i < |lines| ==> IsTrailerLine(lines[i])
    ensures Moves(ct, LINE_HEAD, PrintTrailers(lines), LINE_HEAD, [])
    decreases |lines|
  {
    if lines != [] {
      var l := lines[0];
      TrailerLineMoves(ct, l);
      TrailersMove(ct, lines[1..]);
      FrameThen(ct, LINE_HEAD, Crs(l.crs) + (l.text + [LF]), LINE_HEAD, PrintTrailers(lines[1..]));
    }
  }

  lemma TrailerSectionCompletes(ct: bool, lines: seq<TrailerLine>, crs: nat)
    requires forall i :: 0 <= i < |lines| ==> IsTrailerLine(lines[i])
    ensures
      var s := PrintTrailers(lines) + (Crs(crs) + [LF]);
      Run(ct, LINE_HEAD, s) == Outcome(LINE_HEAD, [], |s|, Complete)
  {
    TrailersMove(ct, lines);
    CrsMove(ct, crs);
    FrameThen(ct, LINE_HEAD, Crs(crs), LINE_HEAD, [LF]);
    FrameThen(ct, LINE_HEAD, PrintTrailers(lines), LINE_HEAD, Crs(crs) + [LF]);
  }

  lemma LastLfCompletes(ct: bool, s: seq<byte>)
    ensures
      Run(ct, Machine(ChunkHeaderExpectLF, 0, 0), [LF] + s)
      == if ct then (var o := Run(ct, LINE_HEAD, s); o.(used := o.used + 1))
         else Outcome(Machine(ChunkHeaderExpectLF, 0, 0), [], 1, Complete)
  {
    assert ([LF] + s)[1..] == s;
  }

  lemma LineSplit(digits: seq<byte>, ext: seq<byte>, s: seq<byte>)
    ensures digits + (ext + [CR, LF]) + s == digits + (ext + [CR]) + ([LF] + s)
  {
    assert ext + [CR, LF] == ext + [CR] + [LF];
  }

  /** The zero chunk, the trailers and the blank line end the message. */
  lemma EndCompletes(ct: bool, msg: Message)
    requires IsMessage(msg)
    ensures
      var o := Run(ct, START, PrintEnd(ct, msg));
      o.verdict == Complete && o.used == |PrintEnd(ct, msg)| && o.body == []
  {
    hide Run;
    var tail: seq<byte> := if ct then PrintTrailers(msg.trailers) + (Crs(msg.crs) + [LF]) else [];
    if ct { TrailerSectionCompletes(ct, msg.trailers, msg.crs); }
    LastLfCompletes(ct, tail);
    SizeLineMoves(ct, msg.zeros, msg.ext, 0);
    FrameThen(ct, START, msg.zeros + (msg.ext + [CR]), Machine(ChunkHeaderExpectLF, 0, 0), [LF] + tail);
    LineSplit(msg.zeros, msg.ext, tail);
  }

  /** Decoding inverts encoding: the chunks' data comes out, `t` is left over. */
  lemma EncodingIsAccepted(ct: bool, msg: Message, t: seq<byte>)
    requires IsMessage(msg)
    ensures
      var o := Run(ct, START, Print(ct, msg) + t);
      o.verdict == Complete && o.body == ChunkBody(msg.chunks) && o.used == |Print(ct, msg)|
  {
    hide Run;
    ChunksMove(ct, msg.chunks);
    EndCompletes(ct, msg);
    MovesThen(ct, START, PrintChunks(msg.chunks), START, ChunkBody(msg.chunks), PrintEnd(ct, msg));
    RunAppend(ct, START, Print(ct, msg), t);
  }
}
