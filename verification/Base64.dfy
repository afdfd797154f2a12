/** The base64 decoder as it runs: a 32-bit accumulator and an output buffer. */
module Base64 {
  import opened Bytes
  import opened Options
  import opened Base64Spec
  import opened Base64Theorems

  method StripPad(src: seq<byte>) returns (len: nat)
    ensures len <= |src| && src[..len] == Strip(src)
  {
    len := |src|;
    assert src[..len] == src;
    while len > 0 && src[len - 1] == PAD
      invariant len <= |src| && Strip(src[..len]) == Strip(src)
    {
      assert src[..len][..len - 1] == src[..len - 1];
      len := len - 1;
    }
  }

  /** Shift a symbol's six bits in, in 32 bits, and write a byte once there are eight. */
  method PushSymbol(out: array<byte>, j: nat, accum: nat, bits: nat, val: sextet)
      returns (accum': nat, bits': nat, j': nat)
    requires j < out.Length && Sound(State(accum, bits, out[..j]))
    modifies out
    ensures j <= j' <= j + 1 && State(accum', bits', out[..j']) == Step(State(accum, bits, old(out[..j])), val)
    ensures forall k :: j' <= k < out.Length ==> out[k] == old(out[k])
  {
    SmallPowers();
    ghost var before := out[..j];
    accum', bits', j' := accum * 64 % TWO_TO_THE_32 + val, bits + 6, j;
    if bits' >= 8 {
      Fits(accum, val, bits);
      bits' := bits' - 8;
      out[j] := accum' / Pow2(bits');
      accum' := accum' % Pow2(bits');
      j' := j + 1;
      assert out[..j'] == before + [out[j]];
    }
  }

  /**
   Decode into `out`; the length, or -1. The text is NUL-terminated in `out`, except that an
   empty source writes nothing, and bytes may have been written when a later symbol is refused.
   */
  method DecodeInto(src: seq<byte>, out: array<byte>) returns (r: int)
    modifies out
    ensures r == -1 <==> Decode(src, out.Length).None?
    ensures src == [] ==> r == 0 && out[..] == old(out[..])
    ensures r != -1 && src != [] ==> 0 <= r < out.Length && Some(out[..r]) == Decode(src, out.Length) && out[r] == 0
    ensures forall k :: |src| * 3 / 4 < k < out.Length ==> out[k] == old(out[k])
  {
    if |src| == 0 { return 0; }
    var len := StripPad(src);
    ghost var body := src[..len];
    Refuses(src, out.Length);
    if len * 3 / 4 >= out.Length { return -1; }
    hide Strip, Decode, Run, Sound, Step, Values, AllSymbols;
    var accum: nat, bits: nat, j: nat, i := 0, 0, 0, 0;
    Begin(body);
    assert out[..0] == [];
    while i < len
      invariant i <= len && j <= out.Length && 8 * j + bits == 6 * i
      invariant Sound(State(accum, bits, out[..j])) && Run(START, Values(body[..i])) == State(accum, bits, out[..j])
      invariant AllSymbols(body[..i])
      invariant forall k :: |src| * 3 / 4 < k < out.Length ==> out[k] == old(out[k])
    {
      var ch := src[i];
      var val := TableValue(ch);
      if val == 0 && ch != LETTER_A {
        BadSymbol(body, i);
        return -1;
      }
      StepValue(body, i);
      StepSound(State(accum, bits, out[..j]), val);
      RoomLeft(i, j, bits, len, |src|, out.Length);
      accum, bits, j := PushSymbol(out, j, accum, bits, val);
      i := i + 1;
    }
    assert body[..i] == body;
    BitsLeft(State(accum, bits, out[..j]));
    r := j;
    out[j] := 0;
    Succeeds(src, out.Length);
  }

  lemma Refuses(src: seq<byte>, outSize: nat)
    requires src != []
    ensures Decode(src, outSize).None? <==> |Strip(src)| * 3 / 4 >= outSize || !AllSymbols(Strip(src))
  {
  }

  lemma Succeeds(src: seq<byte>, outSize: nat)
    requires src != [] && |Strip(src)| * 3 / 4 < outSize && AllSymbols(Strip(src))
    ensures Decode(src, outSize) == Some(Run(START, Values(Strip(src))).out)
  {
  }

  lemma Begin(body: seq<byte>)
    ensures Sound(START) && Run(START, Values(body[..0])) == START && AllSymbols(body[..0])
  {
  }

  /** The output stays behind the input, so that there is room for one more byte. */
  lemma RoomLeft(i: nat, j: nat, bits: nat, len: nat, n: nat, size: nat)
    requires i < len <= n && 8 * j + bits == 6 * i && len * 3 / 4 < size
    ensures j < size && j <= n * 3 / 4
  {
  }

  lemma BitsLeft(st: State)
    requires Sound(st)
    ensures st.bits < 8
  {
  }

  lemma BadSymbol(body: seq<byte>, i: nat)
    requires i < |body| && !IsSymbol(body[i])
    ensures !AllSymbols(body)
  {
  }

  lemma StepValue(body: seq<byte>, i: nat)
    requires i < |body| && AllSymbols(body[..i]) && IsSymbol(body[i])
    ensures AllSymbols(body[..i + 1])
    ensures Sound(START) && Sound(Run(START, Values(body[..i])))
    ensures Run(START, Values(body[..i + 1])) == Step(Run(START, Values(body[..i])), TableValue(body[i]))
  {
    RunAppend(START, Values(body[..i]), [TableValue(body[i])]);
    RunOne(Run(START, Values(body[..i])), TableValue(body[i]));
    assert body[..i + 1] == body[..i] + [body[i]];
    assert Values(body[..i + 1]) == Values(body[..i]) + [TableValue(body[i])];
  }
}
