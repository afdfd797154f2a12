/**
 The multipart/form-data splitter (section 5.1.1 of RFC 2046): occurrence search, parameters of a
 part's headers, and the loop over the parts.
 */
module MultipartSpec {
  import opened Bytes
  import opened Options

  const QUOTE: byte := 34
  const DASH: byte := 45

  const CRLF_CRLF: seq<byte> := [13, 10, 13, 10]
  const DASH_DASH: seq<byte> := [45, 45]

  // "content-disposition:", "content-type:", "name=", "filename="
  const DISPOSITION: seq<byte> := [99, 111, 110, 116, 101, 110, 116, 45, 100, 105, 115, 112, 111, 115, 105, 116, 105,
      111, 110, 58]
  const TYPE: seq<byte> := [99, 111, 110, 116, 101, 110, 116, 45, 116, 121, 112, 101, 58]
  const NAME: seq<byte> := [110, 97, 109, 101, 61]
  const FILENAME: seq<byte> := [102, 105, 108, 101, 110, 97, 109, 101, 61]

  // ---- Searching ----

  predicate CiPrefix(s: seq<byte>, prefix: seq<byte>) {
    |prefix| <= |s| && forall i :: 0 <= i < |prefix| ==> Lower(s[i]) == Lower(prefix[i])
  }

  predicate OccursAt(s: seq<byte>, needle: seq<byte>, i: nat) {
    i + |needle| <= |s| && s[i..i + |needle|] == needle
  }

  ghost predicate Occurs(s: seq<byte>, needle: seq<byte>) { exists i: nat :: OccursAt(s, needle, i) }

  /** The first occurrence from `i` on, or `None`. */
  function FirstFrom(s: seq<byte>, needle: seq<byte>, i: nat): (r: Option<nat>)
    ensures r.Some? ==> i <= r.value && OccursAt(s, needle, r.value) && forall k :: i <= k < r.value
                                                                                    ==> !OccursAt(s, needle, k)
    ensures r.None? ==> forall k :: i <= k ==> !OccursAt(s, needle, k)
    decreases |s| - i
  {
    if i + |needle| > |s| then None else if OccursAt(s, needle, i) then Some(i) else FirstFrom(s, needle, i + 1)
  }

  function First(s: seq<byte>, needle: seq<byte>): Option<nat> { FirstFrom(s, needle, 0) }

  /** The same, ignoring the case of ASCII letters. */
  function CiFirst(s: seq<byte>, needle: seq<byte>, i: nat): (r: Option<nat>)
    ensures r.Some? ==> i <= r.value && r.value + |needle| <= |s| && CiPrefix(s[r.value..], needle)
                        && forall k :: i <= k < r.value ==> !CiPrefix(s[k..], needle)
    ensures r.None? ==> forall k :: i <= k <= |s| ==> !CiPrefix(s[k..], needle)
    decreases |s| - i
  {
    if i + |needle| > |s| then None else if CiPrefix(s[i..], needle) then Some(i) else CiFirst(s, needle, i + 1)
  }

  // ---- Parameters ----

  predicate EndsToken(b: byte) { b == SEMICOLON || b == SP || b == TAB || b == CR || b == LF }

  /** Up to the next quote or the end. */
  function Quoted(s: seq<byte>): seq<byte> {
    if s == [] || s[0] == QUOTE then [] else [s[0]] + Quoted(s[1..])
  }

  function Unquoted(s: seq<byte>): seq<byte> {
    if s == [] || EndsToken(s[0]) then [] else [s[0]] + Unquoted(s[1..])
  }

  /** A value, if anything follows the key. */
  function ValueOf(s: seq<byte>): Option<seq<byte>> {
    if s == [] then None else Some(if s[0] == QUOTE then Quoted(s[1..]) else Unquoted(s))
  }

  /** Where the value of the first `key` would start. */
  function KeyEnd(s: seq<byte>, key: seq<byte>): (r: Option<nat>)
    ensures r.Some? ==> r.value <= |s|
  {
    var found := CiFirst(s, key, 0);
    if found.None? then None else Some(found.value + |key|)
  }

  /** The value behind the first `key`, which may stand anywhere, also inside another parameter. */
  function Extract(s: seq<byte>, key: seq<byte>): Option<seq<byte>> {
    var end := KeyEnd(s, key);
    if end.None? then None else ValueOf(s[end.value..])
  }

  // ---- The headers of a part ----

  datatype Part = Part(name: Option<seq<byte>>, filename: Option<seq<byte>>, contentType: Option<seq<byte>>,
      data: seq<byte>)

  function DropBlanks(s: seq<byte>): seq<byte> {
    if s != [] && IsBlank(s[0]) then DropBlanks(s[1..]) else s
  }

  function TrimBlanks(s: seq<byte>): seq<byte> {
    if s != [] && IsBlank(s[|s| - 1]) then TrimBlanks(s[..|s| - 1]) else s
  }

  /** A parameter that is not found leaves the field as it was. */
  function Or<T>(a: Option<T>, b: Option<T>): Option<T> { if a.Some? then a else b }

  function ApplyLine(part: Part, line: seq<byte>): Part {
    var part' :=
      if !CiPrefix(line, DISPOSITION) then part
      else
        var val := DropBlanks(line[|DISPOSITION|..]);
        part.(name := Or(Extract(val, NAME), part.name), filename := Or(Extract(val, FILENAME), part.filename));
    if !CiPrefix(line, TYPE) then part'
    else part'.(contentType := Some(TrimBlanks(DropBlanks(line[|TYPE|..]))))
  }

  /** The end of the first line: its CR LF, or one byte short of the end of the headers. */
  function LineEnd(s: seq<byte>): (n: nat)
    ensures n <= |s|
  {
    if |s| < 2 || (s[0] == CR && s[1] == LF) then 0 else 1 + LineEnd(s[1..])
  }

  /** The part with its headers filled in, and whether a Content-Disposition line was among them. */
  function ParsePartHeaders(s: seq<byte>, part: Part): (Part, bool)
    decreases |s|
  {
    if s == [] then (part, false)
    else
      var n := LineEnd(s);
      var part' := ApplyLine(part, s[..n]);
      var found := CiPrefix(s[..n], DISPOSITION);
      if OccursAt(s, CRLF, n) then
        var (part'', found') := ParsePartHeaders(s[n + 2..], part');
        (part'', found || found')
      else (part', found)
  }

  // ---- The parts ----

  datatype Status = OK | INVALID | TOO_BIG

  /** The parts stored so far count even when parsing stops with an error. */
  datatype Outcome = Outcome(status: Status, parts: seq<Part>)

  datatype Config = Config(maxParts: nat, maxPartSize: nat, maxTotalSize: nat)

  const MAX_BOUNDARY: nat := 256

  function Delimiter(boundary: seq<byte>): seq<byte> { DASH_DASH + boundary }

  /** The data before a delimiter at `n`, without the line break that belongs to the delimiter. */
  function DataLength(s: seq<byte>, n: nat): (len: nat)
    requires n <= |s|
    ensures len <= n
  {
    if n >= 2 && s[n - 2] == CR && s[n - 1] == LF then n - 2 else n
  }

  function TotalSize(parts: seq<Part>): nat {
    if parts == [] then 0 else TotalSize(parts[..|parts| - 1]) + |parts[|parts| - 1].data|
  }

  /** From the headers of a part on; `capacity` is the room in the caller's array. */
  function ParseParts(s: seq<byte>, delim: seq<byte>, cfg: Config, capacity: nat, parts: seq<Part>): Outcome
    decreases |s|
  {
    if s == [] then Outcome(OK, parts)
    else
      var h := First(s, CRLF_CRLF);
      if h.None? then Outcome(INVALID, parts)
      else
        var body := s[h.value + 4..];
        var n := First(body, delim);
        if n.None? then Outcome(INVALID, parts)
        else
          var data := body[..DataLength(body, n.value)];
          if |data| > cfg.maxPartSize || TotalSize(parts) + |data| > cfg.maxTotalSize || |parts| >= capacity
              || |parts| >= cfg.maxParts then
            Outcome(TOO_BIG, parts)
          else
            var (part, found) := ParsePartHeaders(s[..h.value], Part(None, None, None, data));
            if !found then Outcome(INVALID, parts)
            else AfterPart(body[n.value + |delim|..], delim, cfg, capacity, parts + [part])
  }

  /** Behind a delimiter: the closing dashes, or a line break and the next part. */
  function AfterPart(s: seq<byte>, delim: seq<byte>, cfg: Config, capacity: nat, parts: seq<Part>): Outcome
    decreases |s|
  {
    if OccursAt(s, DASH_DASH, 0) then Outcome(OK, parts)
    else if !OccursAt(s, CRLF, 0) then Outcome(INVALID, parts)
    else ParseParts(s[2..], delim, cfg, capacity, parts)
  }

  function Parse(s: seq<byte>, boundary: seq<byte>, cfg: Config, capacity: nat): Outcome {
    if |s| > cfg.maxTotalSize then Outcome(TOO_BIG, [])
    else if s == [] then Outcome(OK, [])
    else if |boundary| > MAX_BOUNDARY then Outcome(INVALID, [])
    else
      var first := First(s, Delimiter(boundary));
      if first.None? then Outcome(INVALID, [])
      else AfterPart(s[first.value + |Delimiter(boundary)|..], Delimiter(boundary), cfg, capacity, [])
  }
}
