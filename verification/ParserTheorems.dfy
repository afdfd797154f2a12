/**
 Parsing is incremental and final: a verdict other than "need more" never changes when more
 bytes arrive, and a message of n bytes is not recognised before its n-th byte is there.
 */
module ParserTheorems {
  import opened Bytes
  import opened ParserSpec

  /** What was decided on the bytes received so far is what the longer input decides. */
  ghost predicate Final<T(!new)>(soFar: Parsed<T>, later: Parsed<T>) {
    soFar.More? || later == soFar
  }

  lemma {:induction false} ScanTokenFinal(s: seq<byte>, t: seq<byte>, i: nat, next: byte)
    requires s <= t && i <= |s|
    ensures Final(ScanToken(s, i, next), ScanToken(t, i, next))
    decreases |s| - i
  {
    if i < |s| { ScanTokenFinal(s, t, i + 1, next); }
  }

  lemma {:induction false} ScanTargetFinal(s: seq<byte>, t: seq<byte>, i: nat)
    requires s <= t && i <= |s|
    ensures Final(ScanTarget(s, i), ScanTarget(t, i))
    decreases |s| - i
  {
    if i < |s| { ScanTargetFinal(s, t, i + 1); }
  }

  lemma {:induction false} SkipSpacesFinal(s: seq<byte>, t: seq<byte>, i: nat)
    requires s <= t && i <= |s|
    ensures Final(SkipSpaces(s, i), SkipSpaces(t, i))
    decreases |s| - i
  {
    if i < |s| { SkipSpacesFinal(s, t, i + 1); }
  }

  lemma {:induction false} SkipBlanksFinal(s: seq<byte>, t: seq<byte>, i: nat)
    requires s <= t && i <= |s|
    ensures Final(SkipBlanks(s, i), SkipBlanks(t, i))
    decreases |s| - i
  {
    if i < |s| { SkipBlanksFinal(s, t, i + 1); }
  }

  lemma {:induction false} ScanToCtlFinal(s: seq<byte>, t: seq<byte>, i: nat)
    requires s <= t && i <= |s|
    ensures Final(ScanToCtl(s, i), ScanToCtl(t, i))
    decreases |s| - i
  {
    if i < |s| { ScanToCtlFinal(s, t, i + 1); }
  }

  lemma GetTokenToEolFinal(s: seq<byte>, t: seq<byte>, i: nat)
    requires s <= t && i <= |s|
    ensures Final(GetTokenToEol(s, i), GetTokenToEol(t, i))
  {
    ScanToCtlFinal(s, t, i);
  }

  lemma {:induction false} TrimmedLenSame(s: seq<byte>, t: seq<byte>, start: nat, len: nat)
    requires s <= t && start + len <= |s|
    ensures TrimmedLen(t, start, len) == TrimmedLen(s, start, len)
    decreases len
  {
    if len > 0 { TrimmedLenSame(s, t, start, len - 1); }
  }

  lemma ParseNameFinal(s: seq<byte>, t: seq<byte>, i: nat)
    requires s <= t && i <= |s|
    ensures Final(ParseName(s, i), ParseName(t, i))
  {
    ScanTokenFinal(s, t, i, COLON);
    var r := ParseToken(s, i, COLON);
    if r.Ok? { SkipBlanksFinal(s, t, r.pos + 1); }
  }

  lemma ValueFinal(s: seq<byte>, t: seq<byte>, i: nat)
    requires s <= t && i <= |s|
    ensures Final(GetTokenToEol(s, i), GetTokenToEol(t, i))
    ensures var r := GetTokenToEol(s, i); r.Ok? ==> TrimmedLen(t, i, r.value.len) == TrimmedLen(s, i, r.value.len)
  {
    GetTokenToEolFinal(s, t, i);
    var r := GetTokenToEol(s, i);
    if r.Ok? { TrimmedLenSame(s, t, i, r.value.len); }
  }

  lemma ParseHeaderLineFinal(s: seq<byte>, t: seq<byte>, i: nat, first: bool)
    requires s <= t && i < |s|
    ensures Final(ParseHeaderLine(s, i, first), ParseHeaderLine(t, i, first))
  {
    if !first && IsBlank(s[i]) {
      ValueFinal(s, t, i);
    } else {
      ParseNameFinal(s, t, i);
      var r := ParseName(s, i);
      if r.Ok? { ValueFinal(s, t, r.pos); }
    }
  }

  lemma {:induction false} ParseHeadersFinal(s: seq<byte>, t: seq<byte>, i: nat, n: nat, max: nat)
    requires s <= t && i <= |s| && n <= max
    ensures Final(ParseHeaders(s, i, n, max), ParseHeaders(t, i, n, max))
    decreases |s| - i
  {
    hide ParseHeaderLine, ParseEol;
    if i < |s| && s[i] != CR && s[i] != LF && n < max {
      ParseHeaderLineFinal(s, t, i, n == 0);
      var r := ParseHeaderLine(s, i, n == 0);
      if r.Ok? { ParseHeadersFinal(s, t, r.pos, n + 1, max); }
    } else if i < |s| {
      ParseEolFinal(s, t, i);
    }
  }

  lemma ParseEolFinal(s: seq<byte>, t: seq<byte>, i: nat)
    requires s <= t && i <= |s|
    ensures Final(ParseEol(s, i), ParseEol(t, i))
  {
  }

  lemma ParseHttpVersionFinal(s: seq<byte>, t: seq<byte>, i: nat)
    requires s <= t && i <= |s|
    ensures Final(ParseHttpVersion(s, i), ParseHttpVersion(t, i))
  {
    if |s| - i >= 9 { assert s[i..i + 7] == t[i..i + 7]; }
  }

  lemma ParseRequestLineFinal(s: seq<byte>, t: seq<byte>, i: nat)
    requires s <= t && i <= |s|
    ensures Final(ParseRequestLine(s, i), ParseRequestLine(t, i))
  {
    hide ScanToken, ScanTarget, SkipSpaces, ParseHttpVersion, ParseEol;
    ScanTokenFinal(s, t, i, SP);
    var r1 := ParseToken(s, i, SP);
    if r1.Ok? {
      SkipSpacesFinal(s, t, r1.pos + 1);
      var r2 := SkipSpaces(s, r1.pos + 1);
      if r2.Ok? {
        ScanTargetFinal(s, t, r2.pos);
        var r3 := ParseTarget(s, r2.pos);
        if r3.Ok? {
          SkipSpacesFinal(s, t, r3.pos + 1);
          var r4 := SkipSpaces(s, r3.pos + 1);
          if r4.Ok? {
            ParseHttpVersionFinal(s, t, r4.pos);
            var r5 := ParseHttpVersion(s, r4.pos);
            if r5.Ok? { ParseEolFinal(s, t, r5.pos); }
          }
        }
      }
    }
  }

  /** Appending bytes changes no verdict of the request parser, nor any slice it reported. */
  lemma ParseRequestFinal(s: seq<byte>, t: seq<byte>, max: nat)
    requires s <= t
    ensures Final(ParseRequest(s, max), ParseRequest(t, max))
  {
    hide ParseRequestLine, ParseHeaders;
    var r := SkipEmptyLine(s);
    if r.Ok? {
      ParseRequestLineFinal(s, t, r.pos);
      var r' := ParseRequestLine(s, r.pos);
      if r'.Ok? { ParseHeadersFinal(s, t, r'.pos, 0, max); }
    }
  }

  /** A request of n bytes asks for more on each of its proper prefixes. */
  lemma ParseRequestNeedsAll(s: seq<byte>, max: nat, k: nat)
    requires ParseRequest(s, max).Ok? && k < ParseRequest(s, max).pos
    ensures ParseRequest(s[..k], max).More?
  {
    hide ParseRequest;
    ParseRequestFinal(s[..k], s, max);
  }

  lemma {:induction false} DropSpacesSame(s: seq<byte>, t: seq<byte>, slice: Slice)
    requires s <= t && slice.Within(|s|)
    ensures DropSpaces(t, slice) == DropSpaces(s, slice)
    decreases slice.len
  {
    if slice.len > 0 { DropSpacesSame(s, t, Slice(slice.start + 1, slice.len - 1)); }
  }

  lemma ParseReasonFinal(s: seq<byte>, t: seq<byte>, i: nat)
    requires s <= t && i <= |s|
    ensures Final(ParseReason(s, i), ParseReason(t, i))
  {
    GetTokenToEolFinal(s, t, i);
    var r := GetTokenToEol(s, i);
    if r.Ok? { DropSpacesSame(s, t, r.value); }
  }

  lemma ParseStatusLineFinal(s: seq<byte>, t: seq<byte>)
    requires s <= t
    ensures Final(ParseStatusLine(s), ParseStatusLine(t))
  {
    hide ParseHttpVersion, SkipSpaces, ParseReason;
    ParseHttpVersionFinal(s, t, 0);
    var r := ParseHttpVersion(s, 0);
    if r.Ok? {
      SkipSpacesFinal(s, t, r.pos + 1);
      var r1 := SkipSpaces(s, r.pos + 1);
      if r1.Ok? {
        var r2 := ParseStatus(s, r1.pos);
        if r2.Ok? { ParseReasonFinal(s, t, r2.pos); }
      }
    }
  }

  /** The same for responses. */
  lemma ParseResponseFinal(s: seq<byte>, t: seq<byte>, max: nat)
    requires s <= t
    ensures Final(ParseResponse(s, max), ParseResponse(t, max))
  {
    hide ParseStatusLine, ParseHeaders;
    ParseStatusLineFinal(s, t);
    var r := ParseStatusLine(s);
    if r.Ok? { ParseHeadersFinal(s, t, r.pos, 0, max); }
  }

  lemma ParseResponseNeedsAll(s: seq<byte>, max: nat, k: nat)
    requires ParseResponse(s, max).Ok? && k < ParseResponse(s, max).pos
    ensures ParseResponse(s[..k], max).More?
  {
    hide ParseResponse;
    ParseResponseFinal(s[..k], s, max);
  }
}
