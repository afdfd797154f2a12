/**
 The HTTP/1.1 request reader on top of the message parser: which parsed requests are let
 through, what the request record says, and that both stand once they are decided.
 */
module Http1Spec {
  import opened Bytes
  import opened Options
  import opened ParserSpec
  import opened ParserTheorems

  const MAX_HEADERS: nat := 64

  const CONTENT_LENGTH: seq<byte> := [67, 111, 110, 116, 101, 110, 116, 45, 76, 101, 110, 103, 116, 104]
  const TRANSFER_ENCODING: seq<byte> := [84, 114, 97, 110, 115, 102, 101, 114, 45, 69, 110, 99, 111, 100, 105, 110, 103]
  const HOST: seq<byte> := [72, 111, 115, 116]
  const CONTENT_TYPE: seq<byte> := [67, 111, 110, 116, 101, 110, 116, 45, 84, 121, 112, 101]
  const CONNECTION: seq<byte> := [67, 111, 110, 110, 101, 99, 116, 105, 111, 110]
  const CHUNKED: seq<byte> := [99, 104, 117, 110, 107, 101, 100]
  const CLOSE: seq<byte> := [99, 108, 111, 115, 101]
  const KEEP_ALIVE: seq<byte> := [107, 101, 101, 112, 45, 97, 108, 105, 118, 101]
  const QUESTION: byte := 63

  datatype Verb = GET | POST | PUT | DELETE | PATCH | HEAD | OPTIONS | TRACE | CONNECT | UNKNOWN

  /** Method names are case-sensitive. */
  function ParseVerb(name: seq<byte>): Verb {
    if name == [71, 69, 84] then GET
    else if name == [80, 79, 83, 84] then POST
    else if name == [80, 85, 84] then PUT
    else if name == [68, 69, 76, 69, 84, 69] then DELETE
    else if name == [80, 65, 84, 67, 72] then PATCH
    else if name == [72, 69, 65, 68] then HEAD
    else if name == [79, 80, 84, 73, 79, 78, 83] then OPTIONS
    else if name == [84, 82, 65, 67, 69] then TRACE
    else if name == [67, 79, 78, 78, 69, 67, 84] then CONNECT
    else UNKNOWN
  }

  predicate SameNoCase(a: seq<byte>, b: seq<byte>) {
    |a| == |b| && forall i :: 0 <= i < |a| ==> Lower(a[i]) == Lower(b[i])
  }

  // ---- Header fields by content ----

  datatype Field = Field(name: Option<seq<byte>>, value: seq<byte>) {
    predicate Is(expected: seq<byte>) { name.Some? && SameNoCase(name.value, expected) }
  }

  function FieldOf(s: seq<byte>, h: Header): Field
    requires h.Within(|s|)
  {
    Field(if h.name.Some? then Some(Text(s, h.name.value)) else None, Text(s, h.value))
  }

  function Fields(s: seq<byte>, hs: seq<Header>): (fs: seq<Field>)
    requires AllWithin(hs, |s|)
    ensures |fs| == |hs| && forall i :: 0 <= i < |hs| ==> fs[i] == FieldOf(s, hs[i])
  {
    seq(|hs|, i requires 0 <= i < |hs| => FieldOf(s, hs[i]))
  }

  predicate AllDigits(v: seq<byte>) {
    v != [] && forall i :: 0 <= i < |v| ==> IsDigit(v[i])
  }

  function DecimalValue(v: seq<byte>): nat
    requires forall i :: 0 <= i < |v| ==> IsDigit(v[i])
  {
    if v == [] then 0 else DecimalValue(v[..|v| - 1]) * 10 + DigitValue(v[|v| - 1])
  }

  predicate ChunkedAt(v: seq<byte>, j: nat) {
    j + 7 <= |v| && SameNoCase(v[j..j + 7], CHUNKED)
  }

  /** Behind the first "chunked" there is nothing but blanks. */
  predicate ChunkedIsLast(v: seq<byte>) {
    forall j: nat | j <= |v| && ChunkedAt(v, j) && (forall k: nat | k < j :: !ChunkedAt(v, k)) ::
      forall k :: j + 7 <= k < |v| ==> IsBlank(v[k])
  }

  /** The header sections that cannot make this server and another one disagree on framing. */
  predicate Acceptable(fs: seq<Field>, minor: nat) {
    && (forall i :: 0 <= i < |fs| ==> fs[i].name.Some?)
    && (forall i, j :: 0 <= i < j < |fs| ==> !(fs[i].Is(CONTENT_LENGTH) && fs[j].Is(CONTENT_LENGTH)))
    && (forall i :: 0 <= i < |fs| && fs[i].Is(CONTENT_LENGTH) ==> AllDigits(fs[i].value))
    && (forall i :: 0 <= i < |fs| && fs[i].Is(TRANSFER_ENCODING) ==> ChunkedIsLast(fs[i].value))
    && (forall i, j :: 0 <= i < |fs| && 0 <= j < |fs| ==> !(fs[i].Is(CONTENT_LENGTH) && fs[j].Is(TRANSFER_ENCODING)))
    && (minor >= 1 ==> exists i :: 0 <= i < |fs| && fs[i].Is(HOST))
  }

  // ---- The request record ----

  datatype Request = Request(verb: Verb, path: Slice, query: Option<Slice>, minor: nat, keepAlive: bool,
                             contentLength: nat, headers: seq<Header>, contentType: Option<nat>, host: Option<nat>)

  /** The length the (only) Content-Length field announces, as a 64-bit number. */
  function ContentLengthOf(fs: seq<Field>): nat {
    if fs == [] then 0
    else
      var f := fs[|fs| - 1];
      if f.Is(CONTENT_LENGTH)
          && AllDigits(f.value) then Wrap64(DecimalValue(f.value)) else ContentLengthOf(fs[..|fs| - 1])
  }

  /** The last recognised Connection option wins over the version's default. */
  function KeepAliveOf(fs: seq<Field>, minor: nat): bool {
    if fs == [] then minor >= 1
    else
      var f := fs[|fs| - 1];
      if f.Is(CONNECTION) && SameNoCase(f.value, CLOSE) then false
      else if f.Is(CONNECTION) && SameNoCase(f.value, KEEP_ALIVE) then true
      else KeepAliveOf(fs[..|fs| - 1], minor)
  }

  /** Where the value of the last field of a name starts. */
  function ValueOf(fs: seq<Field>, hs: seq<Header>, name: seq<byte>): Option<nat>
    requires |fs| == |hs|
  {
    if fs == [] then None
    else if fs[|fs| - 1].Is(name) then Some(hs[|hs| - 1].value.start)
    else ValueOf(fs[..|fs| - 1], hs[..|hs| - 1], name)
  }

  function IndexOf(v: seq<byte>, b: byte): (k: nat)
    ensures k <= |v| && (k < |v| ==> v[k] == b) && forall i :: 0 <= i < k ==> v[i] != b
  {
    if v == [] || v[0] == b then 0 else 1 + IndexOf(v[1..], b)
  }

  function PathOf(target: Slice, text: seq<byte>): (r: (Slice, Option<Slice>))
    requires |text| == target.len
  {
    var q := IndexOf(text, QUESTION);
    if q < |text| then
      (Slice(target.start, q), Some(Slice(target.start + q + 1, target.len - q - 1)))
    else (target, None)
  }

  function RequestOf(raw: RawRequest, fs: seq<Field>, verb: seq<byte>, target: seq<byte>): Request
    requires |fs| == |raw.headers| && |target| == raw.target.len
  {
    var (path, query) := PathOf(raw.target, target);
    Request(ParseVerb(verb), path, query, raw.minor, KeepAliveOf(fs, raw.minor), ContentLengthOf(fs), raw.headers,
            ValueOf(fs, raw.headers, CONTENT_TYPE), ValueOf(fs, raw.headers, HOST))
  }

  datatype Outcome = Again | Invalid | TooBig | Done(req: Request, consumed: nat)

  function ParseHttp1(s: seq<byte>): Outcome {
    match ParseRequest(s, MAX_HEADERS)
    case More => Again
    case Bad => Invalid
    case Ok(raw, n) =>
      if raw.target.len > MAX_URI_SIZE then TooBig
      else if !Acceptable(Fields(s, raw.headers), raw.minor) then Invalid
      else Done(RequestOf(raw, Fields(s, raw.headers), Text(s, raw.verb), Text(s, raw.target)), n)
  }

  // ---- Incremental and final ----

  lemma TextSame(s: seq<byte>, t: seq<byte>, slice: Slice)
    requires s <= t && slice.Within(|s|)
    ensures Text(t, slice) == Text(s, slice)
  {
  }

  lemma FieldsSame(s: seq<byte>, t: seq<byte>, hs: seq<Header>)
    requires s <= t && AllWithin(hs, |s|)
    ensures AllWithin(hs, |t|) && Fields(t, hs) == Fields(s, hs)
  {
    forall i | 0 <= i < |hs| ensures hs[i].Within(|t|) && FieldOf(t, hs[i]) == FieldOf(s, hs[i]) {
      if hs[i].name.Some? { TextSame(s, t, hs[i].name.value); }
      TextSame(s, t, hs[i].value);
    }
  }

  /** More bytes change no decided outcome: not the error, not the record, not the count. */
  lemma Http1Final(s: seq<byte>, t: seq<byte>)
    requires s <= t
    ensures ParseHttp1(s).Again? || ParseHttp1(t) == ParseHttp1(s)
  {
    hide ParseRequest, Acceptable, RequestOf, Fields, Text;
    ParseRequestFinal(s, t, MAX_HEADERS);
    var r := ParseRequest(s, MAX_HEADERS);
    if r.Ok? {
      FieldsSame(s, t, r.value.headers);
      TextSame(s, t, r.value.verb);
      TextSame(s, t, r.value.target);
    }
  }

  /** A request that takes n bytes is not reported before all n are there. */
  lemma Http1NeedsAll(s: seq<byte>, k: nat)
    requires ParseHttp1(s).Done? && k < ParseHttp1(s).consumed
    ensures k <= |s| && ParseHttp1(s[..k]).Again?
  {
    hide ParseRequest, Acceptable, RequestOf, Fields, Text;
    ParseRequestNeedsAll(s, MAX_HEADERS, k);
  }

  // ---- Content-Length ----

  function Pow10(n: nat): nat {
    if n == 0 then 1 else 10 * Pow10(n - 1)
  }

  lemma {:induction false} DecimalBound(v: seq<byte>)
    requires forall i :: 0 <= i < |v| ==> IsDigit(v[i])
    ensures DecimalValue(v) < Pow10(|v|)
    decreases |v|
  {
    if v != [] { DecimalBound(v[..|v| - 1]); }
  }

  lemma {:induction false} Pow10Monotone(i: nat, j: nat)
    requires i <= j
    ensures Pow10(i) <= Pow10(j)
    decreases j
  {
    if i < j { Pow10Monotone(i, j - 1); }
  }

  /** Without leading zeros. */
  function Significant(v: seq<byte>): (s: seq<byte>)
    requires forall i :: 0 <= i < |v| ==> IsDigit(v[i])
    ensures (forall i :: 0 <= i < |s| ==> IsDigit(s[i])) && (s != [] ==> s[0] != 48)
  {
    if v != [] && v[0] == 48 then Significant(v[1..]) else v
  }

  lemma {:induction false} LeadingZero(v: seq<byte>)
    requires v != [] && v[0] == 48 && forall i :: 0 <= i < |v| ==> IsDigit(v[i])
    ensures DecimalValue(v[1..]) == DecimalValue(v)
    decreases |v|
  {
    if |v| > 1 {
      var n := |v| - 1;
      LeadingZero(v[..n]);
      assert v[..n][1..] == v[1..][..n - 1];
    }
  }

  lemma {:induction false} SignificantValue(v: seq<byte>)
    requires forall i :: 0 <= i < |v| ==> IsDigit(v[i])
    ensures DecimalValue(Significant(v)) == DecimalValue(v)
    decreases |v|
  {
    hide DecimalValue;
    if v != [] && v[0] == 48 {
      LeadingZero(v);
      SignificantValue(v[1..]);
    }
  }

  lemma {:induction false} DecimalAtLeast(s: seq<byte>)
    requires s != [] && s[0] != 48 && forall i :: 0 <= i < |s| ==> IsDigit(s[i])
    ensures DecimalValue(s) >= Pow10(|s| - 1)
    decreases |s|
  {
    if |s| > 1 { DecimalAtLeast(s[..|s| - 1]); }
  }

  /** Before, in dictionary order, for texts of one length. */
  predicate DigitsBelow(a: seq<byte>, b: seq<byte>)
    requires |a| == |b|
    decreases |a|
  {
    a != [] && (a[0] < b[0] || (a[0] == b[0] && DigitsBelow(a[1..], b[1..])))
  }

  lemma {:induction false} FirstDigit(v: seq<byte>)
    requires v != [] && forall i :: 0 <= i < |v| ==> IsDigit(v[i])
    ensures DecimalValue(v) == DigitValue(v[0]) * Pow10(|v| - 1) + DecimalValue(v[1..])
    decreases |v|
  {
    if |v| > 1 {
      var n := |v| - 1;
      FirstDigit(v[..n]);
      assert v[..n][1..] == v[1..][..n - 1];
      MulTen(DigitValue(v[0]), Pow10(n - 1), DecimalValue(v[..n][1..]));
    }
  }

  lemma MulTen(d: nat, p: nat, r: nat)
    ensures (d * p + r) * 10 == d * (10 * p) + r * 10
  {
  }

  lemma Scaled(x: nat, y: nat, p: nat)
    ensures x < y ==> x * p + p <= y * p
  {
    if x < y { ScaledBy(x, y - x - 1, p); }
  }

  lemma ScaledBy(x: nat, k: nat, p: nat)
    ensures (x + 1 + k) * p == x * p + p + k * p && k * p >= 0
  {
  }

  lemma {:induction false} DictionaryOrder(a: seq<byte>, b: seq<byte>)
    requires |a| == |b| && forall i :: 0 <= i < |a| ==> IsDigit(a[i]) && IsDigit(b[i])
    ensures DigitsBelow(a, b) <==> DecimalValue(a) < DecimalValue(b)
    decreases |a|
  {
    hide DecimalValue;
    if a == [] {
      assert a == b;
    } else {
      FirstDigit(a);
      FirstDigit(b);
      DecimalBound(a[1..]);
      DecimalBound(b[1..]);
      Scaled(DigitValue(a[0]), DigitValue(b[0]), Pow10(|a| - 1));
      Scaled(DigitValue(b[0]), DigitValue(a[0]), Pow10(|a| - 1));
      DictionaryOrder(a[1..], b[1..]);
    }
  }

  // "18446744073709551616", the first number that does not fit 64 bits
  const FIRST_TOO_BIG: seq<byte> :=
    [49, 56, 52, 52, 54, 55, 52, 52, 48, 55, 51, 55, 48, 57, 53, 53, 49, 54, 49, 54]

  lemma FirstTooBig()
    ensures |FIRST_TOO_BIG| == 20 && (forall i :: 0 <= i < 20 ==> IsDigit(FIRST_TOO_BIG[i]))
    ensures DecimalValue(FIRST_TOO_BIG) == TWO_TO_THE_64
  {
    var f := FIRST_TOO_BIG;
    hide DecimalValue;
    assert DecimalValue([]) == 0 by { NoDigits(); }
    FiveDigits(f, 0);
    FiveDigits(f, 5);
    FiveDigits(f, 10);
    FiveDigits(f, 15);
    assert f[..0] == [] && f[..20] == f;
  }

  lemma NoDigits()
    ensures DecimalValue([]) == 0
  {
  }

  lemma FiveDigits(f: seq<byte>, k: nat)
    requires k + 5 <= |f| && forall i :: 0 <= i < |f| ==> IsDigit(f[i])
    ensures
      DecimalValue(f[..k + 5]) == DecimalValue(f[..k]) * 100_000 + DigitValue(f[k]) * 10_000
                                  + DigitValue(f[k + 1]) * 1000 + DigitValue(f[k + 2]) * 100
                                  + DigitValue(f[k + 3]) * 10 + DigitValue(f[k + 4])
  {
    forall n | k <= n < k + 5 ensures DecimalValue(f[..n + 1]) == DecimalValue(f[..n]) * 10 + DigitValue(f[n]) {
      assert f[..n + 1][..n] == f[..n];
    }
    hide DecimalValue;
    assert DecimalValue(f[..k + 1]) == DecimalValue(f[..k]) * 10 + DigitValue(f[k]);
    assert DecimalValue(f[..k + 2]) == DecimalValue(f[..k + 1]) * 10 + DigitValue(f[k + 1]);
    assert DecimalValue(f[..k + 3]) == DecimalValue(f[..k + 2]) * 10 + DigitValue(f[k + 2]);
    assert DecimalValue(f[..k + 4]) == DecimalValue(f[..k + 3]) * 10 + DigitValue(f[k + 3]);
  }

  /** At most 19 digits, or 20 that come before those of 2^64. */
  predicate FitsSize(s: seq<byte>) {
    |s| <= 19 || (|s| == 20 && DigitsBelow(s, FIRST_TOO_BIG))
  }

  lemma PowersOfTen()
    ensures Pow10(19) == 10_000_000_000_000_000_000 && Pow10(20) == 100_000_000_000_000_000_000
  {
    assert Pow10(5) == 100_000;
    assert Pow10(10) == 10_000_000_000;
    assert Pow10(15) == 1_000_000_000_000_000;
  }

  /**
   The unchecked 64-bit accumulation is the decimal number exactly if the digits, leading zeros
   aside, come before those of 2^64.
   */
  lemma ContentLengthExact(v: seq<byte>)
    requires AllDigits(v)
    ensures Wrap64(DecimalValue(v)) == DecimalValue(v) <==> FitsSize(Significant(v))
  {
    hide DecimalValue, Significant, Pow10, DigitsBelow;
    var s := Significant(v);
    SignificantValue(v);
    PowersOfTen();
    FirstTooBig();
    if |s| <= 19 {
      DecimalBound(s);
      Pow10Monotone(|s|, 19);
    } else if |s| == 20 {
      DictionaryOrder(s, FIRST_TOO_BIG);
    } else {
      DecimalAtLeast(s);
      Pow10Monotone(20, |s| - 1);
    }
  }

  /** The number 2^64 itself is taken for an empty body. */
  lemma ContentLengthWraps()
    ensures AllDigits(FIRST_TOO_BIG) && Wrap64(DecimalValue(FIRST_TOO_BIG)) == 0
  {
    hide DecimalValue;
    FirstTooBig();
  }

  // ---- The record against the header section ----

  /** In an acceptable header section the length is that of the one Content-Length field, or zero without one. */
  lemma {:induction false} ContentLengthUnique(fs: seq<Field>, i: nat)
    requires forall j, k :: 0 <= j < k < |fs| ==> !(fs[j].Is(CONTENT_LENGTH) && fs[k].Is(CONTENT_LENGTH))
    requires forall j :: 0 <= j < |fs| && fs[j].Is(CONTENT_LENGTH) ==> AllDigits(fs[j].value)
    ensures i < |fs| && fs[i].Is(CONTENT_LENGTH) ==> AllDigits(fs[i].value)
                                                     && ContentLengthOf(fs) == Wrap64(DecimalValue(fs[i].value))
    ensures (forall j :: 0 <= j < |fs| ==> !fs[j].Is(CONTENT_LENGTH)) ==> ContentLengthOf(fs) == 0
    decreases |fs|
  {
    hide SameNoCase, DecimalValue, Wrap64;
    if fs != [] {
      var before := fs[..|fs| - 1];
      assert forall j :: 0 <= j < |before| ==> before[j] == fs[j];
      ContentLengthUnique(before, i);
    }
  }

  predicate IsOption(f: Field) { f.Is(CONNECTION) && (SameNoCase(f.value, CLOSE) || SameNoCase(f.value, KEEP_ALIVE)) }

  /** The last recognised Connection option decides, and without one the version does. */
  lemma {:induction false} KeepAliveExact(fs: seq<Field>, minor: nat, i: nat)
    requires i <= |fs| && forall j :: i <= j < |fs| ==> !IsOption(fs[j])
    ensures i > 0 && IsOption(fs[i - 1]) ==> KeepAliveOf(fs, minor) == !SameNoCase(fs[i - 1].value, CLOSE)
    ensures i == 0 ==> KeepAliveOf(fs, minor) == (minor >= 1)
    decreases |fs|
  {
    hide SameNoCase;
    if fs != [] && i < |fs| {
      var before := fs[..|fs| - 1];
      assert forall j :: 0 <= j < |before| ==> before[j] == fs[j];
      KeepAliveExact(before, minor, i);
    }
  }

  /** Path, question mark and query are the target again, and the path holds no question mark. */
  lemma PathSplits(s: seq<byte>, target: Slice)
    requires target.Within(|s|)
    ensures
      var (path, query) := PathOf(target, Text(s, target));
      && path.Within(|s|) && QUESTION !in Text(s, path)
      && (query.None? ==> path == target)
      && (query.Some? ==> query.value.Within(|s|)
                          && Text(s, target) == Text(s, path) + [QUESTION] + Text(s, query.value))
  {
    var text := Text(s, target);
    var q := IndexOf(text, QUESTION);
    var (path, query) := PathOf(target, text);
    assert Text(s, path) == text[..path.len];
    if q < |text| {
      assert text == text[..q] + [text[q]] + text[q + 1..];
      assert Text(s, query.value) == text[q + 1..];
    }
  }
}
