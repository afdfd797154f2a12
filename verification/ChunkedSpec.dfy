/**
 The chunked transfer decoder (section 7.1 of RFC 9112) as a byte-at-a-time machine,
 and the effect of one decode call on the decoder and on the bytes handed to it.
 */
module ChunkedSpec {
  import opened Bytes

  datatype Phase =
    | ChunkSize
    | ChunkExt
    | ChunkHeaderExpectLF
    | ChunkData
    | ChunkDataExpectCR
    | ChunkDataExpectLF
    | TrailersLineHead
    | TrailersLineMiddle

  /** The part of the decoder that the input drives. */
  datatype Machine = Machine(phase: Phase, bytesLeft: nat, hexCount: nat)

  const START := Machine(ChunkSize, 0, 0)

  /** The machine states a decoder can be in between two calls. */
  ghost predicate Reachable(m: Machine) {
    && m.hexCount <= 16
    && m.bytesLeft < TWO_TO_THE_64
    && (m.phase == ChunkSize ==> m.bytesLeft < Pow16(m.hexCount))
    && (m.phase != ChunkSize ==> m.hexCount == 0)
    && (m.phase == ChunkData ==> m.bytesLeft > 0)
    && (m.phase.ChunkDataExpectCR? || m.phase.ChunkDataExpectLF? ==> m.bytesLeft == 0)
    && (m.phase.TrailersLineHead? || m.phase.TrailersLineMiddle? ==> m.bytesLeft == 0)
  }

  function Pow16(n: nat): nat {
    if n == 0 then 1 else 16 * Pow16(n - 1)
  }

  /** -1 for a byte that is not a hexadecimal digit. */
  function DecodeHex(ch: byte): int {
    if 48 <= ch <= 57 then ch - 48
    else if 65 <= ch <= 70 then ch - 65 + 10
    else if 97 <= ch <= 102 then ch - 97 + 10
    else -1
  }

  datatype StepResult =
    | Go(m: Machine)      // byte consumed, nothing produced
    | Emit(m: Machine)    // byte consumed and part of the body
    | Finish(m: Machine)  // byte consumed, message complete
    | Reject(m: Machine)  // byte not consumed, malformed

  function StepExt(m: Machine, b: byte): StepResult {
    if b == CR then Go(m.(phase := ChunkHeaderExpectLF))
    else if b == LF then Reject(m)
    else Go(m)
  }

  function StepSize(m: Machine, b: byte): StepResult {
    var v := DecodeHex(b);
    if v == -1 then
      if m.hexCount == 0 then Reject(m)
      else if b == SP || b == TAB || b == SEMICOLON || b == LF
          || b == CR then StepExt(m.(hexCount := 0, phase := ChunkExt), b)
      else Reject(m)
    else if m.hexCount == 16 then Reject(m)
    else Go(m.(bytesLeft := m.bytesLeft * 16 + v, hexCount := m.hexCount + 1))
  }

  function Step(consumeTrailer: bool, m: Machine, b: byte): StepResult {
    match m.phase
    case ChunkSize => StepSize(m, b)
    case ChunkExt => StepExt(m, b)
    case ChunkHeaderExpectLF =>
      if b != LF then Reject(m)
      else if m.bytesLeft > 0 then Go(m.(phase := ChunkData))
      else if consumeTrailer then Go(m.(phase := TrailersLineHead))
      else Finish(m)
    case ChunkData =>
      if m.bytesLeft > 1 then Emit(m.(bytesLeft := m.bytesLeft - 1))
      else Emit(m.(bytesLeft := 0, phase := ChunkDataExpectCR))
    case ChunkDataExpectCR => if b == CR then Go(m.(phase := ChunkDataExpectLF)) else Reject(m)
    case ChunkDataExpectLF => if b == LF then Go(m.(phase := ChunkSize)) else Reject(m)
    case TrailersLineHead =>
      if b == CR then Go(m)
      else if b == LF then Finish(m)
      else Go(m.(phase := TrailersLineMiddle))
    case TrailersLineMiddle => if b == LF then Go(m.(phase := TrailersLineHead)) else Go(m)
  }

  datatype Verdict = NeedMore | Malformed | Complete

  /** What scanning an input does: final machine, body bytes produced, bytes consumed. */
  datatype Outcome = Outcome(m: Machine, body: seq<byte>, used: nat, verdict: Verdict)

  function Run(consumeTrailer: bool, m: Machine, s: seq<byte>): (o: Outcome)
    ensures |o.body| <= o.used <= |s|
    ensures o.verdict == NeedMore ==> o.used == |s|
    decreases |s|
  {
    if s == [] then Outcome(m, [], 0, NeedMore)
    else
      match Step(consumeTrailer, m, s[0])
      case Go(m') =>
        var o := Run(consumeTrailer, m', s[1..]);
        o.(used := o.used + 1)
      case Emit(m') =>
        var o := Run(consumeTrailer, m', s[1..]);
        o.(used := o.used + 1, body := [s[0]] + o.body)
      case Finish(m') => Outcome(m', [], 1, Complete)
      case Reject(m') => Outcome(m', [], 0, Malformed)
  }

  /** The decoder between calls. */
  datatype Decoder = Decoder(consumeTrailer: bool, m: Machine, totalRead: nat, totalOverhead: nat)

  /** The overhead guard: at least 100 KiB of framing making up more than 3/4 of the input. */
  predicate GuardFires(totalRead: nat, totalOverhead: nat) {
    totalOverhead >= 100 * 1024 && Wrap64(totalRead - totalOverhead) < totalRead / 4
  }

  /** A call's result: decoder afterwards, return value, decoded bytes, bytes not decoded. */
  datatype Call = Call(d: Decoder, ret: int, body: seq<byte>, rest: seq<byte>)

  /** The end of a call on `n` bytes, given the scan's outcome and the bytes it did not consume. */
  function Settle(d: Decoder, n: nat, o: Outcome, rest: seq<byte>): (c: Call)
    requires |o.body| <= n
  {
    var totalRead := Wrap64(d.totalRead + n);
    match o.verdict
    case Complete => Call(d.(m := o.m, totalRead := totalRead), |rest|, o.body, rest)
    case Malformed => Call(d.(m := o.m, totalRead := totalRead), -1, o.body, rest)
    case NeedMore =>
      var totalOverhead := Wrap64(d.totalOverhead + (n - |o.body|));
      Call(d.(m := o.m, totalRead := totalRead, totalOverhead := totalOverhead),
           if GuardFires(totalRead, totalOverhead) then -1 else -2, o.body, rest)
  }

  function Decode(d: Decoder, s: seq<byte>): (c: Call) {
    var o := Run(d.consumeTrailer, d.m, s);
    Settle(d, |s|, o, s[o.used..])
  }
}
