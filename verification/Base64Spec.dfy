/** Base64 (section 4 of RFC 4648): the decoder as a bit accumulator, and the encoding it inverts. */
module Base64Spec {
  import opened Bytes
  import opened Options

  const PAD: byte := 61
  const LETTER_A: byte := 65

  type sextet = v: int | 0 <= v < 64

  // ---- The alphabet ----

  function Symbol(v: sextet): byte {
    if v < 26 then 65 + v
    else if v < 52 then 97 + v - 26
    else if v < 62 then 48 + v - 52
    else if v == 62 then 43
    else 47
  }

  /** The decoding table: zero for every byte outside the alphabet. */
  function TableValue(ch: byte): sextet {
    if 65 <= ch <= 90 then ch - 65 else if 97 <= ch <= 122 then ch - 97 + 26 else if 48 <= ch <= 57 then ch - 48 + 52
    else if ch == 43 then 62 else if ch == 47 then 63 else 0
  }

  predicate IsSymbol(ch: byte) { TableValue(ch) != 0 || ch == LETTER_A }

  lemma AlphabetIsBijection(v: sextet, ch: byte)
    ensures IsSymbol(Symbol(v)) && TableValue(Symbol(v)) == v && Symbol(v) != PAD
    ensures IsSymbol(ch) <==> exists u: sextet :: Symbol(u) == ch
    ensures IsSymbol(ch) ==> Symbol(TableValue(ch)) == ch
  {
    if IsSymbol(ch) { assert Symbol(TableValue(ch)) == ch; }
  }

  // ---- The decoder ----

  function Pow2(n: nat): (r: nat)
    ensures r >= 1
  {
    if n == 0 then 1 else 2 * Pow2(n - 1)
  }

  /** The decoder between two symbols. */
  datatype State = State(accum: nat, bits: nat, out: seq<byte>)

  function Step(st: State, v: sextet): State
    requires Sound(st)
  {
    var accum, bits := 64 * st.accum + v, st.bits + 6;
    if bits < 8 then State(accum, bits, st.out)
    else
      Fits(st.accum, v, st.bits);
      State(accum % Pow2(bits - 8), bits - 8, st.out + [accum / Pow2(bits - 8)])
  }

  /** What holds between symbols: fewer than eight bits are pending, and the accumulator holds no more. */
  ghost predicate Sound(st: State) {
    st.bits <= 6 && st.bits % 2 == 0 && st.accum < Pow2(st.bits)
  }

  lemma SmallPowers()
    ensures Pow2(0) == 1 && Pow2(2) == 4 && Pow2(4) == 16 && Pow2(6) == 64
  {
    assert Pow2(1) == 2 && Pow2(3) == 8 && Pow2(5) == 32;
  }

  /** The byte that is written is a byte. */
  lemma Fits(accum: nat, v: sextet, bits: nat)
    requires 2 <= bits <= 6 && bits % 2 == 0 && accum < Pow2(bits)
    ensures 0 <= (64 * accum + v) / Pow2(bits - 2) < 256
  {
    SmallPowers();
  }

  lemma StepSound(st: State, v: sextet)
    requires Sound(st)
    ensures Sound(Step(st, v)) && 8 * |Step(st, v).out| + Step(st, v).bits == 8 * |st.out| + st.bits + 6
  {
    SmallPowers();
  }

  function Run(st: State, vs: seq<sextet>): State
    requires Sound(st)
    decreases |vs|
  {
    if vs == [] then st
    else
      StepSound(st, vs[0]);
      Run(Step(st, vs[0]), vs[1..])
  }

  const START := State(0, 0, [])

  function Values(text: seq<byte>): (vs: seq<sextet>)
    ensures |vs| == |text|
  {
    seq(|text|, i requires 0 <= i < |text| => TableValue(text[i]))
  }

  function Strip(text: seq<byte>): seq<byte> {
    if text != [] && text[|text| - 1] == PAD then Strip(text[..|text| - 1]) else text
  }

  predicate AllSymbols(text: seq<byte>) { forall i :: 0 <= i < |text| ==> IsSymbol(text[i]) }

  /** The decoded bytes, or `None` for a byte outside the alphabet or a buffer that is too small. */
  function Decode(text: seq<byte>, outSize: nat): Option<seq<byte>> {
    var body := Strip(text);
    if text == [] then Some([])
    else if |body| * 3 / 4 >= outSize || !AllSymbols(body) then None
    else Some(Run(START, Values(body)).out)
  }

  // ---- The encoding ----

  // The sextets of a group of bytes, and the bytes of a group of sextets.

  function Sextet0(x: byte): sextet { x / 4 }
  function Sextet1(x: byte, y: byte): sextet { x % 4 * 16 + y / 16 }
  function Sextet2(y: byte, z: byte): sextet { y % 16 * 4 + z / 64 }
  function Sextet3(z: byte): sextet { z % 64 }

  function Byte0(a: sextet, b: sextet): byte { 4 * a + b / 16 }
  function Byte1(b: sextet, c: sextet): byte { b % 16 * 16 + c / 4 }
  function Byte2(c: sextet, d: sextet): byte { c % 4 * 64 + d }

  /** Three bytes to four sextets; one and two bytes to two and three, filled up with zero bits. */
  function Sextets(x: seq<byte>): seq<sextet> {
    if x == [] then []
    else if |x| == 1 then [Sextet0(x[0]), Sextet1(x[0], 0)]
    else if |x| == 2 then [Sextet0(x[0]), Sextet1(x[0], x[1]), Sextet2(x[1], 0)]
    else [Sextet0(x[0]), Sextet1(x[0], x[1]), Sextet2(x[1], x[2]), Sextet3(x[2])] + Sextets(x[3..])
  }

  function Symbols(vs: seq<sextet>): (text: seq<byte>)
    ensures |text| == |vs|
  {
    seq(|vs|, i requires 0 <= i < |vs| => Symbol(vs[i]))
  }

  function Encode(x: seq<byte>): seq<byte> { Symbols(Sextets(x)) }

  function Padding(x: seq<byte>): seq<byte> {
    if |x| % 3 == 0 then [] else if |x| % 3 == 1 then [PAD, PAD] else [PAD]
  }

  function EncodePadded(x: seq<byte>): seq<byte> { Encode(x) + Padding(x) }
}

module Base64Theorems {
  import opened Bytes
  import opened Options
  import opened Base64Spec

  // ---- Every text ----

  lemma {:induction false} RunSound(st: State, vs: seq<sextet>)
    requires Sound(st)
    ensures Sound(Run(st, vs)) && 8 * |Run(st, vs).out| + Run(st, vs).bits == 8 * |st.out| + st.bits + 6 * |vs|
    ensures st.out <= Run(st, vs).out
    decreases |vs|
  {
    if vs != [] {
      StepSound(st, vs[0]);
      hide Sound, Step;
      StepExtends(st, vs[0]);
      RunSound(Step(st, vs[0]), vs[1..]);
    }
  }

  lemma StepExtends(st: State, v: sextet)
    requires Sound(st)
    ensures st.out <= Step(st, v).out
  {
  }

  /**
   Whatever the text: success exactly on alphabet symbols that fit, and then floor(3n/4) bytes, all inside the
   buffer.
   */
  lemma DecodeLength(text: seq<byte>, outSize: nat)
    requires text != []
    ensures
      var n := |Strip(text)|;
      && (Decode(text, outSize).Some? <==> AllSymbols(Strip(text)) && n * 3 / 4 < outSize)
      && (Decode(text, outSize).Some? ==> |Decode(text, outSize).value| == n * 3 / 4 < outSize)
  {
    hide Run, Strip;
    RunSound(START, Values(Strip(text)));
    hide Sound;
    LengthFromBits(Run(START, Values(Strip(text))), |Strip(text)|);
  }

  lemma LengthFromBits(st: State, n: nat)
    requires Sound(st) && 8 * |st.out| + st.bits == 6 * n
    ensures |st.out| == n * 3 / 4
  {
  }

  // ---- Texts that are encodings ----

  lemma {:induction false} RunAppend(st: State, a: seq<sextet>, b: seq<sextet>)
    requires Sound(st)
    ensures Sound(Run(st, a)) && Run(st, a + b) == Run(Run(st, a), b)
    decreases |a|
  {
    if a == [] {
      assert a + b == b;
    } else {
      StepSound(st, a[0]);
      hide Sound, Step;
      assert (a + b)[1..] == a[1..] + b;
      RunAppend(Step(st, a[0]), a[1..], b);
    }
  }

  lemma RunOne(st: State, v: sextet)
    requires Sound(st)
    ensures Run(st, [v]) == Step(st, v)
  {
    StepSound(st, v);
    hide Sound, Step;
  }

  lemma GroupBytes(x: byte, y: byte, z: byte)
    ensures Byte0(Sextet0(x), Sextet1(x, y)) == x && Byte1(Sextet1(x, y), Sextet2(y, z)) == y
            && Byte2(Sextet2(y, z), Sextet3(z)) == z
    ensures Sextet1(x, 0) % 16 == 0 && Sextet2(y, 0) % 4 == 0
  {
  }

  lemma GroupSextets(a: sextet, b: sextet, c: sextet, d: sextet)
    ensures Sextet0(Byte0(a, b)) == a && Sextet1(Byte0(a, b), Byte1(b, c)) == b
    ensures Sextet2(Byte1(b, c), Byte2(c, d)) == c && Sextet3(Byte2(c, d)) == d
    ensures b % 16 == 0 ==> Sextet1(Byte0(a, b), 0) == b
    ensures c % 4 == 0 ==> Sextet2(Byte1(b, c), 0) == c
  {
  }

  /** The second, third and fourth sextet of a group. */
  lemma StepAt6(out: seq<byte>, a: sextet, b: sextet)
    ensures Sound(State(a, 6, out)) && Step(State(a, 6, out), b) == State(b % 16, 4, out + [Byte0(a, b)])
  {
    SmallPowers();
  }

  lemma StepAt4(out: seq<byte>, b: sextet, c: sextet)
    ensures Sound(State(b % 16, 4, out)) && Step(State(b % 16, 4, out), c) == State(c % 4, 2, out + [Byte1(b, c)])
  {
    SmallPowers();
  }

  lemma StepAt2(out: seq<byte>, c: sextet, d: sextet)
    ensures Sound(State(c % 4, 2, out)) && Step(State(c % 4, 2, out), d) == State(0, 0, out + [Byte2(c, d)])
  {
    SmallPowers();
  }

  /** Two, three and four sextets from a clean state. */
  lemma RunTwo(out: seq<byte>, a: sextet, b: sextet)
    ensures Sound(State(0, 0, out)) && Run(State(0, 0, out), [a, b]) == State(b % 16, 4, out + [Byte0(a, b)])
  {
    SmallPowers();
    var st := State(0, 0, out);
    assert Step(st, a) == State(a, 6, out);
    StepAt6(out, a, b);
    hide Step, Sound, Byte0;
    assert [a, b][1..] == [b];
    RunOne(State(a, 6, out), b);
  }

  lemma RunThree(out: seq<byte>, a: sextet, b: sextet, c: sextet)
    ensures Sound(State(0, 0, out))
            && Run(State(0, 0, out), [a, b, c]) == State(c % 4, 2, out + [Byte0(a, b), Byte1(b, c)])
  {
    hide Step, Byte0, Byte1, Run, Sound;
    RunTwo(out, a, b);
    var out' := out + [Byte0(a, b)];
    StepAt4(out', b, c);
    RunAppend(State(0, 0, out), [a, b], [c]);
    RunOne(State(b % 16, 4, out'), c);
    assert [a, b] + [c] == [a, b, c];
    assert out' + [Byte1(b, c)] == out + [Byte0(a, b), Byte1(b, c)];
  }

  lemma RunFour(out: seq<byte>, a: sextet, b: sextet, c: sextet, d: sextet)
    ensures Sound(State(0, 0, out))
    ensures Run(State(0, 0, out), [a, b, c, d]) == State(0, 0, out + [Byte0(a, b), Byte1(b, c), Byte2(c, d)])
  {
    hide Step, Byte0, Byte1, Byte2, Run, Sound;
    RunThree(out, a, b, c);
    var out' := out + [Byte0(a, b), Byte1(b, c)];
    StepAt2(out', c, d);
    RunAppend(State(0, 0, out), [a, b, c], [d]);
    RunOne(State(c % 4, 2, out'), d);
    assert [a, b, c] + [d] == [a, b, c, d];
    assert out' + [Byte2(c, d)] == out + [Byte0(a, b), Byte1(b, c), Byte2(c, d)];
  }

  /** A text decodes to `x` with nothing left over exactly when it is the encoding of `x`. */
  ghost predicate Encodes(vs: seq<sextet>, out: seq<byte>, x: seq<byte>) {
    && Sound(State(0, 0, out)) && Run(State(0, 0, out), vs).out == out + x
    && Run(State(0, 0, out), vs).accum == 0 && |vs| % 4 != 1
  }

  lemma {:induction false} EncodingDecodes(x: seq<byte>, out: seq<byte>)
    ensures Encodes(Sextets(x), out, x)
    decreases |x|
  {
    hide Sextet0, Sextet1, Sextet2, Sextet3, Byte0, Byte1, Byte2, Step, Sound;
    if x == [] {
      EmptyRun(out);
    } else if |x| == 1 {
      GroupBytes(x[0], 0, 0);
      RunTwo(out, Sextet0(x[0]), Sextet1(x[0], 0));
      assert x == [x[0]];
    } else if |x| == 2 {
      GroupBytes(x[0], x[1], 0);
      RunThree(out, Sextet0(x[0]), Sextet1(x[0], x[1]), Sextet2(x[1], 0));
      assert x == [x[0], x[1]];
    } else {
      FullGroup(x, out);
      EncodingDecodes(x[3..], out + x[..3]);
      assert out + x[..3] + x[3..] == out + x;
      assert |Sextets(x)| == 4 + |Sextets(x[3..])|;
    }
  }

  lemma EmptyRun(out: seq<byte>)
    ensures Encodes([], out, [])
  {
    assert out + [] == out;
  }

  lemma FullGroup(x: seq<byte>, out: seq<byte>)
    requires |x| >= 3
    ensures Sound(State(0, 0, out)) && Sound(State(0, 0, out + x[..3]))
    ensures Run(State(0, 0, out), Sextets(x)) == Run(State(0, 0, out + x[..3]), Sextets(x[3..]))
  {
    hide Sextet0, Sextet1, Sextet2, Sextet3, Byte0, Byte1, Byte2, Step, Run, Sextets, Sound;
    var a, b, c, d := Sextet0(x[0]), Sextet1(x[0], x[1]), Sextet2(x[1], x[2]), Sextet3(x[2]);
    FirstSextets(x);
    GroupBytes(x[0], x[1], x[2]);
    RunFour(out, a, b, c, d);
    RunAppend(State(0, 0, out), [a, b, c, d], Sextets(x[3..]));
    assert x[..3] == [x[0], x[1], x[2]];
    assert Sound(State(0, 0, out + x[..3])) by { Clean(out + x[..3]); }
  }

  lemma Clean(out: seq<byte>)
    ensures Sound(State(0, 0, out))
  {
  }

  lemma FirstSextets(x: seq<byte>)
    requires |x| >= 3
    ensures Sextets(x) == [Sextet0(x[0]), Sextet1(x[0], x[1]), Sextet2(x[1], x[2]), Sextet3(x[2])] + Sextets(x[3..])
  {
    hide Sextet0, Sextet1, Sextet2, Sextet3;
  }

  lemma {:induction false} DecodingEncodes(vs: seq<sextet>, out: seq<byte>, x: seq<byte>)
    requires Encodes(vs, out, x)
    ensures vs == Sextets(x)
    decreases |vs|
  {
    assert (out + x)[|out|..] == x;
    hide Sextet0, Sextet1, Sextet2, Sextet3, Byte0, Byte1, Byte2, Step, Sound;
    if |vs| == 0 {
      assert out + x == out;
    } else if |vs| == 2 {
      RunTwo(out, vs[0], vs[1]);
      assert vs == [vs[0], vs[1]];
      assert x == [Byte0(vs[0], vs[1])];
      GroupSextets(vs[0], vs[1], 0, 0);
    } else if |vs| == 3 {
      RunThree(out, vs[0], vs[1], vs[2]);
      assert vs == [vs[0], vs[1], vs[2]];
      assert x == [Byte0(vs[0], vs[1]), Byte1(vs[1], vs[2])];
      GroupSextets(vs[0], vs[1], vs[2], 0);
    } else {
      var group := GroupBack(vs, out, x);
      DecodingEncodes(vs[4..], out + group, x[3..]);
      GroupSextets(vs[0], vs[1], vs[2], vs[3]);
      assert vs == [vs[0], vs[1], vs[2], vs[3]] + vs[4..];
    }
  }

  /** The first group of a text gives the first three bytes. */
  lemma GroupBack(vs: seq<sextet>, out: seq<byte>, x: seq<byte>) returns (group: seq<byte>)
    requires |vs| >= 4 && Encodes(vs, out, x)
    ensures group == [Byte0(vs[0], vs[1]), Byte1(vs[1], vs[2]), Byte2(vs[2], vs[3])]
    ensures |x| >= 3 && x[..3] == group && x[0] == group[0] && x[1] == group[1] && x[2] == group[2]
    ensures Encodes(vs[4..], out + group, x[3..])
  {
    hide Byte0, Byte1, Byte2, Step, Run;
    var a, b, c, d := vs[0], vs[1], vs[2], vs[3];
    group := [Byte0(a, b), Byte1(b, c), Byte2(c, d)];
    RunFour(out, a, b, c, d);
    assert vs == [a, b, c, d] + vs[4..];
    RunAppend(State(0, 0, out), [a, b, c, d], vs[4..]);
    RunSound(State(0, 0, out + group), vs[4..]);
    hide Sound;
    GroupSplits(out, group, x);
    assert x[..3][0] == x[0] && x[..3][1] == x[1] && x[..3][2] == x[2];
  }

  lemma GroupSplits(out: seq<byte>, group: seq<byte>, x: seq<byte>)
    requires |group| == 3 && out + group <= out + x
    ensures |x| >= 3 && x[..3] == group && out + group + x[3..] == out + x
  {
    assert |out + group| <= |out + x|;
    forall i | 0 <= i < 3 ensures x[i] == group[i] {
      assert (out + group)[|out| + i] == (out + x)[|out| + i];
    }
  }

  // ---- Round trips ----

  lemma SymbolsValues(vs: seq<sextet>)
    ensures AllSymbols(Symbols(vs)) && Values(Symbols(vs)) == vs && forall i :: 0 <= i < |vs| ==> Symbols(vs)[i] != PAD
  {
    forall i | 0 <= i < |vs|
      ensures IsSymbol(Symbols(vs)[i]) && Values(Symbols(vs))[i] == vs[i] && Symbols(vs)[i] != PAD {
      AlphabetIsBijection(vs[i], 0);
    }
  }

  lemma ValuesSymbols(text: seq<byte>)
    requires AllSymbols(text)
    ensures Symbols(Values(text)) == text
  {
    forall i | 0 <= i < |text| ensures Symbols(Values(text))[i] == text[i] { AlphabetIsBijection(0, text[i]); }
  }

  lemma {:induction false} SextetsLength(x: seq<byte>)
    ensures |Sextets(x)| * 3 / 4 == |x|
    decreases |x|
  {
    if |x| >= 3 { SextetsLength(x[3..]); }
  }

  lemma StripPadding(text: seq<byte>, pad: seq<byte>)
    requires |pad| <= 2 && (forall i :: 0 <= i < |pad| ==> pad[i] == PAD) && (text == [] || text[|text| - 1] != PAD)
    ensures Strip(text + pad) == text
  {
    assert Strip(text) == text;
    if |pad| == 0 {
      assert text + pad == text;
    } else if |pad| == 1 {
      assert (text + pad)[..|text|] == text;
    } else {
      assert (text + pad)[..|text| + 1] == text + [PAD];
      assert (text + [PAD])[..|text|] == text;
    }
  }

  /** Decoding inverts encoding, padded and unpadded, for every byte string with room for it and its NUL. */
  lemma DecodeEncode(x: seq<byte>, outSize: nat)
    requires |x| < outSize
    ensures Decode(EncodePadded(x), outSize) == Some(x) && Decode(Encode(x), outSize) == Some(x)
  {
    var text := Encode(x);
    SymbolsValues(Sextets(x));
    SextetsLength(x);
    StripPadding(text, Padding(x));
    StripPadding(text, []);
    assert text + [] == text;
    EncodingDecodes(x, []);
    assert [] + x == x;
    hide Strip, Run, Sextets, Symbols, Values;
    if x == [] { assert Sextets(x) == [] by { SextetsEmpty(); } }
  }

  lemma SextetsEmpty()
    ensures Sextets([]) == []
  {
  }

  /** Which texts are encodings: exactly those of alphabet symbols that leave no bits over and no lone symbol. */
  lemma EncodingExactly(text: seq<byte>, x: seq<byte>)
    ensures text == Encode(x)
            <==> AllSymbols(text) && |text| % 4 != 1 && Run(START, Values(text)).accum == 0
                 && Run(START, Values(text)).out == x
  {
    assert [] + x == x;
    if text == Encode(x) {
      SymbolsValues(Sextets(x));
      EncodingDecodes(x, []);
    }
    if AllSymbols(text) && |text| % 4 != 1 && Run(START, Values(text)).accum == 0 && Run(START, Values(text)).out == x {
      DecodingEncodes(Values(text), [], x);
      ValuesSymbols(text);
    }
  }
}
