/**
 The other half of incremental parsing: a message is recognised as soon as its last byte is
 there. What was parsed from a longer input is parsed from every prefix that holds it.
 */
module ParserPrompt {
  import opened Bytes
  import opened ParserSpec
  import opened ParserTheorems

  lemma {:induction false} ScanTokenPrompt(s: seq<byte>, t: seq<byte>, i: nat, next: byte)
    requires s <= t && i <= |s| && ScanToken(t, i, next).Ok? && ScanToken(t, i, next).pos < |s|
    ensures ScanToken(s, i, next) == ScanToken(t, i, next)
    decreases |s| - i
  {
    if s[i] != next { ScanTokenPrompt(s, t, i + 1, next); }
  }

  lemma {:induction false} ScanTargetPrompt(s: seq<byte>, t: seq<byte>, i: nat)
    requires s <= t && i <= |s| && ScanTarget(t, i).Ok? && ScanTarget(t, i).pos < |s|
    ensures ScanTarget(s, i) == ScanTarget(t, i)
    decreases |s| - i
  {
    if s[i] != SP { ScanTargetPrompt(s, t, i + 1); }
  }

  lemma {:induction false} SkipSpacesPrompt(s: seq<byte>, t: seq<byte>, i: nat)
    requires s <= t && i <= |s| && SkipSpaces(t, i).Ok? && SkipSpaces(t, i).pos < |s|
    ensures SkipSpaces(s, i) == SkipSpaces(t, i)
    decreases |s| - i
  {
    if s[i] == SP { SkipSpacesPrompt(s, t, i + 1); }
  }

  lemma {:induction false} SkipBlanksPrompt(s: seq<byte>, t: seq<byte>, i: nat)
    requires s <= t && i <= |s| && SkipBlanks(t, i).Ok? && SkipBlanks(t, i).pos < |s|
    ensures SkipBlanks(s, i) == SkipBlanks(t, i)
    decreases |s| - i
  {
    if IsBlank(s[i]) { SkipBlanksPrompt(s, t, i + 1); }
  }

  lemma {:induction false} ScanToCtlPrompt(s: seq<byte>, t: seq<byte>, i: nat)
    requires s <= t && i <= |s| && ScanToCtl(t, i).Ok? && ScanToCtl(t, i).pos < |s|
    ensures ScanToCtl(s, i) == ScanToCtl(t, i)
    decreases |s| - i
  {
    if !IsCtl(s[i]) { ScanToCtlPrompt(s, t, i + 1); }
  }

  lemma EolPrompt(s: seq<byte>, t: seq<byte>, i: nat)
    requires s <= t && i <= |s| && ParseEol(t, i).Ok? && ParseEol(t, i).pos <= |s|
    ensures ParseEol(s, i) == ParseEol(t, i)
  {
  }

  lemma LinePrompt(s: seq<byte>, t: seq<byte>, i: nat)
    requires s <= t && i <= |s| && GetTokenToEol(t, i).Ok? && GetTokenToEol(t, i).pos <= |s|
    ensures GetTokenToEol(s, i) == GetTokenToEol(t, i)
    ensures var len := GetTokenToEol(t, i).value.len; TrimmedLen(s, i, len) == TrimmedLen(t, i, len)
  {
    hide ScanToCtl, TrimmedLen;
    var c := ScanToCtl(t, i).pos;
    ScanToCtlPrompt(s, t, i);
    EolPrompt(s, t, c);
    TrimmedLenSame(s, t, i, c - i);
  }

  lemma NamePrompt(s: seq<byte>, t: seq<byte>, i: nat)
    requires s <= t && i <= |s| && ParseName(t, i).Ok? && ParseName(t, i).pos < |s|
    ensures ParseName(s, i) == ParseName(t, i)
  {
    hide ScanToken, SkipBlanks;
    ScanTokenPrompt(s, t, i, COLON);
    SkipBlanksPrompt(s, t, ScanToken(t, i, COLON).pos + 1);
  }

  lemma HeaderLinePrompt(s: seq<byte>, t: seq<byte>, i: nat, first: bool)
    requires s <= t && i < |s| && ParseHeaderLine(t, i, first).Ok? && ParseHeaderLine(t, i, first).pos <= |s|
    ensures ParseHeaderLine(s, i, first) == ParseHeaderLine(t, i, first)
  {
    hide ParseName, GetTokenToEol, TrimmedLen;
    if !first && IsBlank(s[i]) {
      LinePrompt(s, t, i);
    } else {
      NamePrompt(s, t, i);
      LinePrompt(s, t, ParseName(t, i).pos);
    }
  }

  lemma {:induction false} HeadersPrompt(s: seq<byte>, t: seq<byte>, i: nat, n: nat, max: nat)
    requires s <= t && i <= |s| && n <= max && ParseHeaders(t, i, n, max).Ok? && ParseHeaders(t, i, n, max).pos <= |s|
    ensures ParseHeaders(s, i, n, max) == ParseHeaders(t, i, n, max)
    decreases |s| - i
  {
    hide ParseHeaderLine, ParseEol;
    if s[i] == CR || s[i] == LF {
      EolPrompt(s, t, i);
    } else {
      HeaderLinePrompt(s, t, i, n == 0);
      HeadersPrompt(s, t, ParseHeaderLine(t, i, n == 0).pos, n + 1, max);
    }
  }

  lemma VersionPrompt(s: seq<byte>, t: seq<byte>, i: nat)
    requires s <= t && i <= |s| && ParseHttpVersion(t, i).Ok? && ParseHttpVersion(t, i).pos < |s|
    ensures ParseHttpVersion(s, i) == ParseHttpVersion(t, i)
  {
    assert s[i..i + 7] == t[i..i + 7];
  }

  lemma RequestLinePrompt(s: seq<byte>, t: seq<byte>, i: nat)
    requires s <= t && i <= |s| && ParseRequestLine(t, i).Ok? && ParseRequestLine(t, i).pos <= |s|
    ensures ParseRequestLine(s, i) == ParseRequestLine(t, i)
  {
    hide ScanToken, ScanTarget, SkipSpaces, ParseHttpVersion, ParseEol;
    var e1 := ParseToken(t, i, SP).pos;
    var t1 := SkipSpaces(t, e1 + 1).pos;
    var e2 := ParseTarget(t, t1).pos;
    var v := SkipSpaces(t, e2 + 1).pos;
    ScanTokenPrompt(s, t, i, SP);
    SkipSpacesPrompt(s, t, e1 + 1);
    ScanTargetPrompt(s, t, t1);
    SkipSpacesPrompt(s, t, e2 + 1);
    VersionPrompt(s, t, v);
    EolPrompt(s, t, v + 8);
  }

  /** A request of n bytes is parsed, with the same slices, as soon as n bytes are there. */
  lemma RequestPrompt(s: seq<byte>, t: seq<byte>, max: nat)
    requires s <= t && ParseRequest(t, max).Ok? && ParseRequest(t, max).pos <= |s|
    ensures ParseRequest(s, max) == ParseRequest(t, max)
  {
    hide ParseRequestLine, ParseHeaders, ParseEol;
    var i := SkipEmptyLine(t).pos;
    assert SkipEmptyLine(s) == SkipEmptyLine(t) by { if t[0] == CR || t[0] == LF { EolPrompt(s, t, 0); } }
    var e := ParseRequestLine(t, i).pos;
    RequestLinePrompt(s, t, i);
    HeadersPrompt(s, t, e, 0, max);
  }

  lemma ReasonPrompt(s: seq<byte>, t: seq<byte>, i: nat)
    requires s <= t && i <= |s| && ParseReason(t, i).Ok? && ParseReason(t, i).pos <= |s|
    ensures ParseReason(s, i) == ParseReason(t, i)
  {
    hide GetTokenToEol, DropSpaces;
    LinePrompt(s, t, i);
    var line := GetTokenToEol(t, i).value;
    if line.Within(|s|) { DropSpacesSame(s, t, line); }
  }

  lemma StatusLinePrompt(s: seq<byte>, t: seq<byte>)
    requires s <= t && ParseStatusLine(t).Ok? && ParseStatusLine(t).pos <= |s|
    ensures ParseStatusLine(s) == ParseStatusLine(t)
  {
    hide ParseHttpVersion, SkipSpaces, ParseReason;
    VersionPrompt(s, t, 0);
    SkipSpacesPrompt(s, t, 9);
    var i := SkipSpaces(t, 9).pos;
    ReasonPrompt(s, t, i + 3);
  }

  /** The same for responses. */
  lemma ResponsePrompt(s: seq<byte>, t: seq<byte>, max: nat)
    requires s <= t && ParseResponse(t, max).Ok? && ParseResponse(t, max).pos <= |s|
    ensures ParseResponse(s, max) == ParseResponse(t, max)
  {
    hide ParseStatusLine, ParseHeaders;
    StatusLinePrompt(s, t);
    HeadersPrompt(s, t, ParseStatusLine(t).pos, 0, max);
  }
}
