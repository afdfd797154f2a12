/**
 The chunked decoder as it runs: a decoder object and a buffer that is compacted in place.
 Each `case` of the decoder's switch is a method; falling through is running the next one.
 */
module ChunkedDecoder {
  import opened Bytes
  import opened ChunkedSpec
  import opened ChunkedTheorems
  import Soundness = ChunkedSoundness

  /** How a case ends: on to the next case, or `goto Exit`/`goto Complete` with a verdict. */
  datatype Next = Continue | Leave(verdict: Verdict)

  /**
   `s` scanned from `m` behaves like `s'` scanned from `m'` after `|s| - |s'|` more bytes and
   the bytes `body`, or ends right there.
   */
  ghost predicate Reaches(ct: bool, m: Machine, s: seq<byte>, m': Machine, s': seq<byte>, body: seq<byte>, next: Next) {
    && |s'| <= |s|
    && Run(ct, m, s) ==
       match next
       case Continue => Shift(Run(ct, m', s'), |s| - |s'|, body)
       case Leave(v) => Outcome(m', body, |s| - |s'|, v)
  }

  lemma ReachesTrans(ct: bool, m: Machine, s: seq<byte>, m1: Machine, s1: seq<byte>, body1: seq<byte>,
                     m2: Machine, s2: seq<byte>, body2: seq<byte>, next: Next)
    requires Reaches(ct, m, s, m1, s1, body1, Continue)
    requires Reaches(ct, m1, s1, m2, s2, body2, next)
    ensures Reaches(ct, m, s, m2, s2, body1 + body2, next)
  {
    hide Run;
    if next.Continue? {
      var o := Run(ct, m2, s2);
      assert body1 + body2 + o.body == body1 + (body2 + o.body);
    }
  }

  lemma ReachesSelf(ct: bool, m: Machine, s: seq<byte>)
    ensures Reaches(ct, m, s, m, s, [], Continue)
  {
    hide Run;
    var o := Run(ct, m, s);
    assert [] + o.body == o.body;
  }

  /** What the next byte does to a scan that stands at `src`. */
  function NextAt(ct: bool, m: Machine, s: seq<byte>, src: nat): (Machine, nat, Next)
    requires src <= |s|
  {
    if src == |s| then (m, src, Leave(NeedMore))
    else
      match Step(ct, m, s[src])
      case Reject(m') => (m', src, Leave(Malformed))
      case Finish(m') => (m', src + 1, Leave(Complete))
      case Go(m') => (m', src + 1, Continue)
      case Emit(m') => (m', src + 1, Continue)
  }

  lemma ReachesNext(ct: bool, m0: Machine, s: seq<byte>, src0: nat, m: Machine, src: nat)
    requires src0 <= src <= |s|
    requires Reaches(ct, m0, s[src0..], m, s[src..], [], Continue)
    requires src < |s| ==> !Step(ct, m, s[src]).Emit?
    ensures var (m', src', next) := NextAt(ct, m, s, src); Reaches(ct, m0, s[src0..], m', s[src'..], [], next)
  {
    var t := s[src..];
    if src < |s| {
      assert t[0] == s[src] && t[1..] == s[src + 1..];
      var o := Run(ct, Step(ct, m, s[src]).m, t[1..]);
      assert [] + o.body == o.body;
    }
  }

  /** As `memmove`: the source is read before the destination is written. */
  method MemMove(buf: array<byte>, dst: nat, src: nat, n: nat)
    requires dst + n <= buf.Length && src + n <= buf.Length
    modifies buf
    ensures buf[dst..dst + n] == old(buf[src..src + n])
    ensures forall i :: 0 <= i < buf.Length && !(dst <= i < dst + n) ==> buf[i] == old(buf[i])
  {
    ghost var was := buf[src..src + n];
    forall i | 0 <= i < n { buf[dst + i] := buf[src + i]; }
    forall i | 0 <= i < n ensures buf[dst..dst + n][i] == was[i] { assert buf[dst + i] == old(buf[src + i]); }
  }

  class Decoder {
    var bytesLeftInChunk: nat
    var consumeTrailer: bool
    var hexCount: nat
    var state: Phase
    var totalRead: nat
    var totalOverhead: nat

    ghost function M(): Machine
      reads this
    {
      Machine(state, bytesLeftInChunk, hexCount)
    }

    ghost function Value(): ChunkedSpec.Decoder
      reads this
    {
      ChunkedSpec.Decoder(consumeTrailer, M(), totalRead, totalOverhead)
    }

    ghost predicate Valid()
      reads this
    {
      Reachable(M())
    }

    /** `s` is the call's input; the part from `src` on is still in the buffer. */
    ghost predicate Holds(buf: array<byte>, s: seq<byte>, src: nat)
      reads buf
    {
      src <= |s| <= buf.Length && forall i :: src <= i < |s| ==> buf[i] == s[i]
    }

    constructor ()
      ensures Valid() && Value() == Soundness.Fresh(true)
    {
      bytesLeftInChunk, hexCount, state := 0, 0, ChunkSize;
      totalRead, totalOverhead := 0, 0;
      consumeTrailer := true;
      new;
      assert Pow16(0) == 1;
    }

    method AddDigit(v: nat)
      requires Valid() && state == ChunkSize && hexCount < 16 && v < 16
      modifies `bytesLeftInChunk, `hexCount
      ensures Valid() && M() == Machine(ChunkSize, old(bytesLeftInChunk) * 16 + v, old(hexCount) + 1)
    {
      SizeNeverWraps(M(), v);
      bytesLeftInChunk := Wrap64(bytesLeftInChunk * 16 + v);
      hexCount := hexCount + 1;
    }

    method ScanChunkSize(buf: array<byte>, bufsz: nat, src0: nat, ghost s: seq<byte>) returns (src: nat, next: Next)
      requires Valid() && state == ChunkSize && |s| == bufsz && Holds(buf, s, src0)
      modifies `bytesLeftInChunk, `hexCount, `state
      ensures Valid() && src0 <= src <= bufsz
      ensures Reaches(consumeTrailer, old(M()), s[src0..], M(), s[src..], [], next)
      ensures next.Continue? ==> state == ChunkExt
    {
      hide Run, Reaches;
      src := src0;
      ReachesSelf(consumeTrailer, M(), s[src0..]);
      while true
        invariant Valid() && state == ChunkSize && src0 <= src <= bufsz
        invariant Reaches(consumeTrailer, old(M()), s[src0..], M(), s[src..], [], Continue)
        decreases bufsz - src
      {
        ghost var m := M();
        ReachesNext(consumeTrailer, old(M()), s, src0, m, src);
        if src == bufsz { return src, Leave(NeedMore); }
        var v := DecodeHex(buf[src]);
        if v == -1 {
          if hexCount == 0 { return src, Leave(Malformed); }
          var ch := buf[src];
          if ch != SP && ch != TAB && ch != SEMICOLON && ch != LF && ch != CR { return src, Leave(Malformed); }
          break;
        }
        if hexCount == 16 { return src, Leave(Malformed); }
        AddDigit(v);
        src := src + 1;
      }
      ghost var m := M();
      hexCount := 0;
      state := ChunkExt;
      SizeEnds(consumeTrailer, old(M()), s, src0, m, src);
      next := Continue;
    }

    method ScanChunkExt(buf: array<byte>, bufsz: nat, src0: nat, ghost s: seq<byte>) returns (src: nat, next: Next)
      requires Valid() && state == ChunkExt && |s| == bufsz && Holds(buf, s, src0)
      modifies `state
      ensures Valid() && src0 <= src <= bufsz
      ensures Reaches(consumeTrailer, old(M()), s[src0..], M(), s[src..], [], next)
      ensures next.Continue? ==> state == ChunkHeaderExpectLF && src > src0
    {
      hide Run, Reaches;
      src := src0;
      ghost var m := M();
      ReachesSelf(consumeTrailer, m, s[src0..]);
      while true
        invariant src0 <= src <= bufsz && M() == m
        invariant Reaches(consumeTrailer, m, s[src0..], m, s[src..], [], Continue)
        decreases bufsz - src
      {
        ReachesNext(consumeTrailer, m, s, src0, m, src);
        if src == bufsz { return src, Leave(NeedMore); }
        if buf[src] == CR {
          break;
        } else if buf[src] == LF {
          return src, Leave(Malformed);
        }
        src := src + 1;
      }
      src := src + 1;
      state := ChunkHeaderExpectLF;
      next := Continue;
    }

    method ExpectHeaderLF(buf: array<byte>, bufsz: nat, src0: nat, ghost s: seq<byte>) returns (src: nat, next: Next)
      requires Valid() && state == ChunkHeaderExpectLF && |s| == bufsz && Holds(buf, s, src0)
      modifies `state
      ensures Valid() && src0 <= src <= bufsz
      ensures Reaches(consumeTrailer, old(M()), s[src0..], M(), s[src..], [], next)
      ensures next.Continue? ==> src > src0 && (state == TrailersLineHead || state == ChunkData)
    {
      hide Run, Reaches;
      src := src0;
      ReachesSelf(consumeTrailer, M(), s[src0..]);
      ReachesNext(consumeTrailer, M(), s, src0, M(), src0);
      if src == bufsz { return src, Leave(NeedMore); }
      if buf[src] != LF { return src, Leave(Malformed); }
      src := src + 1;
      if bytesLeftInChunk == 0 {
        if consumeTrailer {
          state := TrailersLineHead;
          return src, Continue;
        } else {
          return src, Leave(Complete);
        }
      }
      state := ChunkData;
      next := Continue;
    }

    method CopyChunkData(buf: array<byte>, bufsz: nat, src0: nat, dst0: nat, ghost s: seq<byte>)
      returns (src: nat, dst: nat, next: Next)
      requires Valid() && state == ChunkData && |s| == bufsz && Holds(buf, s, src0) && dst0 <= src0
      modifies `bytesLeftInChunk, `state, buf
      ensures Valid() && src0 <= src <= bufsz && dst - dst0 == src - src0
      ensures buf[dst0..dst] == s[src0..src]
      ensures forall i :: 0 <= i < buf.Length && !(dst0 <= i < dst) ==> buf[i] == old(buf[i])
      ensures Reaches(consumeTrailer, old(M()), s[src0..], M(), s[src..], s[src0..src], next)
      ensures next.Continue? ==> src > src0 && state == ChunkDataExpectCR
    {
      hide Run, Reaches;
      var avail := bufsz - src0;
      if avail < bytesLeftInChunk {
        assert buf[src0..src0 + avail] == s[src0..src0 + avail];
        if dst0 != src0 { MemMove(buf, dst0, src0, avail); }
        DataRuns(consumeTrailer, bytesLeftInChunk, s, src0, avail);
        bytesLeftInChunk := bytesLeftInChunk - avail;
        return src0 + avail, dst0 + avail, Leave(NeedMore);
      }
      var n := bytesLeftInChunk;
      assert buf[src0..src0 + n] == s[src0..src0 + n];
      if dst0 != src0 { MemMove(buf, dst0, src0, n); }
      DataRuns(consumeTrailer, n, s, src0, n);
      bytesLeftInChunk := 0;
      state := ChunkDataExpectCR;
      src, dst, next := src0 + n, dst0 + n, Continue;
    }

    method ExpectDataCR(buf: array<byte>, bufsz: nat, src0: nat, ghost s: seq<byte>) returns (src: nat, next: Next)
      requires Valid() && state == ChunkDataExpectCR && |s| == bufsz && Holds(buf, s, src0)
      modifies `state
      ensures Valid() && src0 <= src <= bufsz
      ensures Reaches(consumeTrailer, old(M()), s[src0..], M(), s[src..], [], next)
      ensures next.Continue? ==> src > src0 && state == ChunkDataExpectLF
    {
      hide Run, Reaches;
      src := src0;
      ReachesSelf(consumeTrailer, M(), s[src0..]);
      ReachesNext(consumeTrailer, M(), s, src0, M(), src0);
      if src == bufsz { return src, Leave(NeedMore); }
      if buf[src] != CR { return src, Leave(Malformed); }
      src := src + 1;
      state := ChunkDataExpectLF;
      next := Continue;
    }

    method ExpectDataLF(buf: array<byte>, bufsz: nat, src0: nat, ghost s: seq<byte>) returns (src: nat, next: Next)
      requires Valid() && state == ChunkDataExpectLF && |s| == bufsz && Holds(buf, s, src0)
      modifies `state
      ensures Valid() && src0 <= src <= bufsz
      ensures Reaches(consumeTrailer, old(M()), s[src0..], M(), s[src..], [], next)
      ensures next.Continue? ==> src > src0 && state == ChunkSize
    {
      hide Run, Reaches;
      src := src0;
      ReachesSelf(consumeTrailer, M(), s[src0..]);
      ReachesNext(consumeTrailer, M(), s, src0, M(), src0);
      if src == bufsz { return src, Leave(NeedMore); }
      if buf[src] != LF { return src, Leave(Malformed); }
      src := src + 1;
      state := ChunkSize;
      assert Pow16(0) == 1;
      next := Continue;
    }

    method ScanTrailersLineHead(buf: array<byte>, bufsz: nat, src0: nat, ghost s: seq<byte>)
        returns (src: nat, next: Next)
      requires Valid() && state == TrailersLineHead && |s| == bufsz && Holds(buf, s, src0)
      modifies `state
      ensures Valid() && src0 <= src <= bufsz
      ensures Reaches(consumeTrailer, old(M()), s[src0..], M(), s[src..], [], next)
      ensures next.Continue? ==> state == TrailersLineMiddle && src > src0
    {
      hide Run, Reaches;
      src := src0;
      ghost var m := M();
      ReachesSelf(consumeTrailer, m, s[src0..]);
      while true
        invariant src0 <= src <= bufsz && M() == m
        invariant Reaches(consumeTrailer, m, s[src0..], m, s[src..], [], Continue)
        decreases bufsz - src
      {
        ReachesNext(consumeTrailer, m, s, src0, m, src);
        if src == bufsz { return src, Leave(NeedMore); }
        if buf[src] != CR { break; }
        src := src + 1;
      }
      src := src + 1;
      if buf[src - 1] == LF { return src, Leave(Complete); }
      state := TrailersLineMiddle;
      next := Continue;
    }

    method ScanTrailersLineMiddle(buf: array<byte>, bufsz: nat, src0: nat, ghost s: seq<byte>)
        returns (src: nat, next: Next)
      requires Valid() && state == TrailersLineMiddle && |s| == bufsz && Holds(buf, s, src0)
      modifies `state
      ensures Valid() && src0 <= src <= bufsz
      ensures Reaches(consumeTrailer, old(M()), s[src0..], M(), s[src..], [], next)
      ensures next.Continue? ==> state == TrailersLineHead && src > src0
    {
      hide Run, Reaches;
      src := src0;
      ghost var m := M();
      ReachesSelf(consumeTrailer, m, s[src0..]);
      while true
        invariant src0 <= src <= bufsz && M() == m
        invariant Reaches(consumeTrailer, m, s[src0..], m, s[src..], [], Continue)
        decreases bufsz - src
      {
        ReachesNext(consumeTrailer, m, s, src0, m, src);
        if src == bufsz { return src, Leave(NeedMore); }
        if buf[src] == LF { break; }
        src := src + 1;
      }
      src := src + 1;
      state := TrailersLineHead;
      next := Continue;
    }

    /** The cases that only read the buffer: all but the one that copies chunk data. */
    method SwitchFraming(buf: array<byte>, bufsz: nat, src0: nat, ghost s: seq<byte>) returns (src: nat, next: Next)
      requires Valid() && state != ChunkData && |s| == bufsz && Holds(buf, s, src0)
      modifies `bytesLeftInChunk, `hexCount, `state
      ensures Valid() && src0 <= src <= bufsz
      ensures Reaches(consumeTrailer, old(M()), s[src0..], M(), s[src..], [], next)
      ensures next.Continue? ==> src > src0 || (old(state) == ChunkSize && state == ChunkExt)
    {
      hide Run, Reaches;
      match state {
        case ChunkSize => src, next := ScanChunkSize(buf, bufsz, src0, s);
        case ChunkExt => src, next := ScanChunkExt(buf, bufsz, src0, s);
        case ChunkHeaderExpectLF => src, next := ExpectHeaderLF(buf, bufsz, src0, s);
        case ChunkDataExpectCR => src, next := ExpectDataCR(buf, bufsz, src0, s);
        case ChunkDataExpectLF => src, next := ExpectDataLF(buf, bufsz, src0, s);
        case TrailersLineHead => src, next := ScanTrailersLineHead(buf, bufsz, src0, s);
        case TrailersLineMiddle => src, next := ScanTrailersLineMiddle(buf, bufsz, src0, s);
      }
    }

    /** The scanning loop: where it stops, with which bytes moved to the front. */
    method Scan(buf: array<byte>, bufsz: nat, ghost s: seq<byte>) returns (src: nat, dst: nat, verdict: Verdict)
      requires Valid() && |s| == bufsz && Holds(buf, s, 0)
      modifies `bytesLeftInChunk, `hexCount, `state, buf
      ensures Valid() && dst <= src <= bufsz
      ensures Run(consumeTrailer, old(M()), s) == Outcome(M(), buf[..dst], src, verdict)
      ensures forall i :: dst <= i < buf.Length ==> buf[i] == old(buf[i])
    {
      hide Run;
      src, dst := 0, 0;
      ghost var m0 := M();
      ReachesSelf(consumeTrailer, m0, s);
      ghost var body: seq<byte> := [];
      while true
        invariant Valid() && dst <= src <= bufsz
        invariant body == buf[..dst]
        invariant Reaches(consumeTrailer, m0, s[0..], M(), s[src..], body, Continue)
        invariant forall i :: dst <= i < buf.Length ==> buf[i] == old(buf[i])
        decreases bufsz - src, if state == ChunkSize then 1 else 0
      {
        ghost var m, at, more := M(), src, [];
        var next;
        if state == ChunkData {
          src, dst, next := CopyChunkData(buf, bufsz, src, dst, s);
          more := s[at..src];
          FrontGrows(buf[..dst], body, more);
        } else {
          src, next := SwitchFraming(buf, bufsz, src, s);
          assert body + more == body;
        }
        ReachesTrans(consumeTrailer, m0, s[0..], m, s[at..], body, M(), s[src..], more, next);
        body := body + more;
        if next.Leave? { return src, dst, next.verdict; }
      }
    }

    /**
     One decode call. The decoded bytes end up at the front of the buffer, followed by the
     bytes not decoded; nothing behind them changes.
     */
    method Decode(buf: array<byte>, bufsz: nat) returns (ret: int, size: nat)
      requires Valid() && bufsz <= buf.Length
      modifies this, buf
      ensures Valid()
      ensures
        var c := ChunkedSpec.Decode(old(Value()), old(buf[..bufsz]));
        && Value() == c.d && ret == c.ret && size == |c.body|
        && size + |c.rest| <= bufsz && buf[..size + |c.rest|] == c.body + c.rest
        && forall i :: size + |c.rest| <= i < buf.Length ==> buf[i] == old(buf[i])
    {
      hide Run;
      ghost var s := buf[..bufsz];
      totalRead := Wrap64(totalRead + bufsz);
      var src, dst, verdict := Scan(buf, bufsz, s);
      ret := match verdict case NeedMore => -2 case Malformed => -1 case Complete => bufsz - src;
      Compact(buf, bufsz, src, dst, s);
      size := dst;
      if ret == -2 {
        totalOverhead := Wrap64(totalOverhead + (bufsz - dst));
        if totalOverhead >= 100 * 1024 && Wrap64(totalRead - totalOverhead) < totalRead / 4 {
          ret := -1;
        }
      }
    }

    /**
     The call behind the HTTP/1.1 layer: the trailing byte count, `-EAGAIN` for more input, `-EINVAL` for an error.
     */
    method DecodeBody(buf: array<byte>, len: nat) returns (rc: int, size: nat)
      requires Valid() && len <= buf.Length
      modifies this, buf
      ensures Valid()
      ensures
        var c := ChunkedSpec.Decode(old(Value()), old(buf[..len]));
        && Value() == c.d && rc == (if c.ret >= 0 then |c.rest| else if c.ret == -2 then -EAGAIN else -EINVAL)
        && size == |c.body| && size + |c.rest| <= len && buf[..size + |c.rest|] == c.body + c.rest
    {
      rc, size := Decode(buf, len);
      if rc == -2 { rc := -EAGAIN; } else if rc < 0 { rc := -EINVAL; }
    }

    method Compact(buf: array<byte>, bufsz: nat, src: nat, dst: nat, ghost s: seq<byte>)
      requires dst <= src <= bufsz == |s| && Holds(buf, s, src)
      modifies buf
      ensures buf[..dst + (bufsz - src)] == old(buf[..dst]) + s[src..]
      ensures forall i :: dst + (bufsz - src) <= i < buf.Length ==> buf[i] == old(buf[i])
    {
      assert buf[src..bufsz] == s[src..];
      ghost var body := buf[..dst];
      if dst != src { MemMove(buf, dst, src, bufsz - src); }
      FrontGrows(buf[..dst + (bufsz - src)], body, s[src..]);
    }
  }

  lemma FrontGrows(front: seq<byte>, body: seq<byte>, more: seq<byte>)
    requires |front| == |body| + |more|
    requires front[..|body|] == body && front[|body|..] == more
    ensures front == body + more
  {
  }

  /** The byte that ends a chunk size is handled by the extension state. */
  lemma SizeEnds(ct: bool, m0: Machine, s: seq<byte>, src0: nat, m: Machine, src: nat)
    requires src0 <= src < |s| && m.phase == ChunkSize && m.hexCount > 0 && DecodeHex(s[src]) == -1
    requires s[src] == SP || s[src] == TAB || s[src] == SEMICOLON || s[src] == LF || s[src] == CR
    requires Reaches(ct, m0, s[src0..], m, s[src..], [], Continue)
    ensures Reaches(ct, m0, s[src0..], m.(hexCount := 0, phase := ChunkExt), s[src..], [], Continue)
  {
    assert Step(ct, m, s[src]) == Step(ct, m.(hexCount := 0, phase := ChunkExt), s[src]);
  }

  lemma {:induction false} DataPartMoves(ct: bool, n: nat, s: seq<byte>)
    requires |s| < n
    ensures Moves(ct, Machine(ChunkData, n, 0), s, Machine(ChunkData, n - |s|, 0), s)
    decreases |s|
  {
    if s != [] {
      DataPartMoves(ct, n - 1, s[1..]);
      assert s == [s[0]] + s[1..];
    }
  }

  /** The next `k` bytes are chunk data, all that is left of the chunk or all there is. */
  lemma DataRuns(ct: bool, n: nat, s: seq<byte>, src: nat, k: nat)
    requires 0 < n && src + k <= |s| && (k == n || (k < n && src + k == |s|))
    ensures
      var m := if k < n then Machine(ChunkData, n - k, 0) else Machine(ChunkDataExpectCR, 0, 0);
      Reaches(ct, Machine(ChunkData, n, 0), s[src..], m, s[src + k..], s[src..src + k],
          if k < n then Leave(NeedMore) else Continue)
  {
    var data := s[src..src + k];
    if k < n {
      assert s[src..] == data;
      DataPartMoves(ct, n, data);
    } else {
      assert s[src..] == data + s[src + k..];
      DataMoves(ct, data);
      MovesThen(ct, Machine(ChunkData, n, 0), data, Machine(ChunkDataExpectCR, 0, 0), data, s[src + k..]);
    }
  }
}
