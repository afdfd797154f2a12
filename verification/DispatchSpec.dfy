/**
 Dispatch: security checks, normalization, trailing-slash redirects, the method's own trie,
 HEAD served by GET, and the list of methods that would have matched.
 */
module DispatchSpec {
  import opened Bytes
  import opened Options
  import opened RadixSpec
  import opened PathSpec

  const METHOD_COUNT: nat := 9
  const GET: nat := 0
  const HEAD: nat := 5
  const MAX_PARAM_STORAGE: nat := 512

  /** One trie per method, if any route was registered for it. */
  type Router = r: seq<Option<Tree>> | |r| == METHOD_COUNT
    witness [None, None, None, None, None, None, None, None, None]

  function MethodName(i: nat): string {
    match i
    case 0 => "GET"
    case 1 => "POST"
    case 2 => "PUT"
    case 3 => "DELETE"
    case 4 => "PATCH"
    case 5 => "HEAD"
    case 6 => "OPTIONS"
    case 7 => "TRACE"
    case _ => "CONNECT"
  }

  datatype MatchStatus = Found | NotFound | MethodNotAllowed | Redirect

  datatype Result = Result(status: MatchStatus, route: Option<Route>, params: seq<Capture>, allowed: string,
      redirect: string)

  const NOT_FOUND := Result(NotFound, None, [], "", "")

  predicate EncodedNulAt(s: string, i: nat) { i + 2 < |s| && s[i] == '%' && s[i + 1] == '0' && s[i + 2] == '0' }

  predicate HasEncodedNul(s: string) { exists i: nat | i < |s| :: EncodedNulAt(s, i) }

  predicate EndsWithSlash(s: string) { |s| > 1 && s[|s| - 1] == '/' }

  function TreeMatch(r: Router, i: nat, path: string): Option<Match> {
    if i < METHOD_COUNT && r[i].Some? then LookupPath(r[i].value, path) else None
  }

  /** The captured values must fit, each with a NUL, into the result's own storage. */
  function StorageNeeded(caps: seq<Capture>): nat {
    if caps == [] then 0 else StorageNeeded(caps[..|caps| - 1]) + |caps[|caps| - 1].value| + 1
  }

  function Settle(m: Match): Result {
    if StorageNeeded(m.captures) <= MAX_PARAM_STORAGE then Result(Found, Some(m.route), m.captures, "", "")
    else Result(NotFound, Some(m.route), [], "", "")
  }

  /** The names of the first `n` methods, other than `verb`, whose tries match. */
  function Allowed(r: Router, verb: nat, path: string, n: nat): string
    requires n <= METHOD_COUNT
  {
    if n == 0 then ""
    else
      var before := Allowed(r, verb, path, n - 1);
      if n - 1 == verb || TreeMatch(r, n - 1, path).None? then before
      else before + (if before == "" then "" else ", ") + MethodName(n - 1)
  }

  /** Dispatch of a normalized path that needs no redirect. */
  function DispatchNormal(r: Router, verb: nat, path: string): Result {
    var own := TreeMatch(r, verb, path);
    var get := if verb == HEAD then TreeMatch(r, GET, path) else None;
    if own.Some? then Settle(own.value)
    else if get.Some? then Settle(get.value)
    else
      var allowed := Allowed(r, verb, path, METHOD_COUNT);
      if allowed == "" then NOT_FOUND else Result(MethodNotAllowed, None, [], allowed, "")
  }

  predicate AnyMatch(r: Router, path: string) { exists i: nat | i < METHOD_COUNT :: TreeMatch(r, i, path).Some? }

  function Dispatch(r: Router, verb: nat, path: string): Result {
    if path == "" || NUL in path || HasEncodedNul(path) then NOT_FOUND
    else
      var norm := Normalize(path, MAX_URI_SIZE);
      if norm.None? then NOT_FOUND
      else if EndsWithSlash(path) && !EndsWithSlash(norm.value) && AnyMatch(r, norm.value) then
        Result(Redirect, None, [], "", norm.value)
      else DispatchNormal(r, verb, norm.value)
  }

  // ---- Encoded NULs and normalization ----

  lemma {:induction false} EncodedNulInSegs(p: string, i: nat)
    requires i < |Segs(p)| && HasEncodedNul(Segs(p)[i])
    ensures HasEncodedNul(p)
    decreases |p|
  {
    if p[0] == '/' {
      EncodedNulInSegs(p[1..], i);
      ShiftEncodedNul(p, 1);
    } else if i == 0 {
      var k: nat :| k < |Seg(p)| && EncodedNulAt(Seg(p), k);
      assert EncodedNulAt(p, k);
    } else {
      EncodedNulInSegs(Rest(p), i - 1);
      ShiftEncodedNul(p, SegLen(p));
    }
  }

  lemma ShiftEncodedNul(p: string, n: nat)
    requires n <= |p| && HasEncodedNul(p[n..])
    ensures HasEncodedNul(p)
  {
    var k: nat :| k < |p[n..]| && EncodedNulAt(p[n..], k);
    assert EncodedNulAt(p, n + k);
  }

  lemma {:induction false} EncodedNulInStack(segs: seq<string>, i: nat)
    requires Resolve(segs).Some? && i < |Resolve(segs).value| && HasEncodedNul(Resolve(segs).value[i])
    ensures exists j :: 0 <= j < |segs| && HasEncodedNul(segs[j])
    decreases |segs|
  {
    hide HasEncodedNul;
    var n := |segs| - 1;
    var stack := Resolve(segs[..n]).value;
    if i < |stack| && Resolve(segs).value[i] == stack[i] {
      EncodedNulInStack(segs[..n], i);
      var j :| 0 <= j < n && HasEncodedNul(segs[..n][j]);
      assert HasEncodedNul(segs[j]);
    } else {
      assert HasEncodedNul(segs[n]);
    }
  }

  lemma {:induction false} EncodedNulInJoined(stack: seq<string>)
    requires HasEncodedNul(Joined(stack))
    ensures exists i :: 0 <= i < |stack| && HasEncodedNul(stack[i])
    decreases |stack|
  {
    var n := |stack| - 1;
    var before, s := Joined(stack[..n]), stack[n];
    var w := before + "/" + s;
    var k: nat :| k < |w| && EncodedNulAt(w, k);
    if k < |before| {
      assert w[|before|] == '/';
      assert EncodedNulAt(before, k);
      EncodedNulInJoined(stack[..n]);
      var i :| 0 <= i < n && HasEncodedNul(stack[..n][i]);
      assert HasEncodedNul(stack[i]);
    } else {
      assert EncodedNulAt(s, k - |before| - 1);
      assert HasEncodedNul(stack[n]);
    }
  }

  lemma NormalHasNoEncodedNul(path: string, outSize: nat)
    requires !HasEncodedNul(path) && Normalize(path, outSize).Some?
    ensures !HasEncodedNul(Normalize(path, outSize).value)
  {
    hide HasEncodedNul, Segs, Resolve;
    var stack := Resolve(Segs(path)).value;
    if HasEncodedNul(Join(stack)) {
      if stack == [] {
        SlashHasNone();
      } else {
        EncodedNulInJoined(stack);
        var i :| 0 <= i < |stack| && HasEncodedNul(stack[i]);
        EncodedNulInStack(Segs(path), i);
        var j :| 0 <= j < |Segs(path)| && HasEncodedNul(Segs(path)[j]);
        EncodedNulInSegs(path, j);
      }
    }
  }

  lemma SlashHasNone()
    ensures !HasEncodedNul("/")
  {
  }

  // ---- Dispatch and normal forms ----

  lemma NormalFormDispatch(r: Router, verb: nat, path: string)
    requires !HasEncodedNul(path) && Normalize(path, MAX_URI_SIZE).Some?
    ensures Dispatch(r, verb, Normalize(path, MAX_URI_SIZE).value) ==
            DispatchNormal(r, verb, Normalize(path, MAX_URI_SIZE).value)
  {
    hide HasEncodedNul, Normalize, DispatchNormal, AnyMatch;
    var n := Normalize(path, MAX_URI_SIZE).value;
    NormalHasNoEncodedNul(path, MAX_URI_SIZE);
    NormalizeIdempotent(path, MAX_URI_SIZE);
    NormalizeIsNormal(path, MAX_URI_SIZE);
  }

  /** A path without an encoded NUL and without a trailing slash is dispatched like its normal form. */
  lemma DispatchRespectsNormalization(r: Router, verb: nat, path: string)
    requires !HasEncodedNul(path) && !EndsWithSlash(path)
    ensures
      var n := Normalize(path, MAX_URI_SIZE);
      Dispatch(r, verb, path) == if n.Some? then Dispatch(r, verb, n.value) else NOT_FOUND
  {
    if Normalize(path, MAX_URI_SIZE).Some? { NormalFormDispatch(r, verb, path); }
  }

  /** With a trailing slash: redirected if any method matches the normal form, else the same. */
  lemma DispatchTrailingSlash(r: Router, verb: nat, path: string)
    requires !HasEncodedNul(path) && EndsWithSlash(path) && Normalize(path, MAX_URI_SIZE).Some?
    ensures
      var n := Normalize(path, MAX_URI_SIZE).value;
      Dispatch(r, verb, path) ==
      if AnyMatch(r, n) then Result(Redirect, None, [], "", n) else Dispatch(r, verb, n)
  {
    hide HasEncodedNul, DispatchNormal, AnyMatch;
    NormalFormDispatch(r, verb, path);
    NormalizeIsNormal(path, MAX_URI_SIZE);
  }

  /** A redirect target is never redirected again, whatever the method. */
  lemma RedirectsOnce(r: Router, verb: nat, verb': nat, path: string)
    requires Dispatch(r, verb, path).status == Redirect
    ensures Dispatch(r, verb', Dispatch(r, verb, path).redirect).status != Redirect
  {
    hide HasEncodedNul, AnyMatch;
    NormalFormDispatch(r, verb', path);
  }

  /** And some method's trie does match it. */
  lemma RedirectLeadsSomewhere(r: Router, verb: nat, path: string)
    requires Dispatch(r, verb, path).status == Redirect
    ensures
      exists i: nat | i < METHOD_COUNT ::
        TreeMatch(r, i, Dispatch(r, verb, path).redirect).Some?
        && Dispatch(r, i, Dispatch(r, verb, path).redirect) ==
             Settle(TreeMatch(r, i, Dispatch(r, verb, path).redirect).value)
  {
    hide HasEncodedNul, Normalize;
    var n := Dispatch(r, verb, path).redirect;
    var i: nat :| i < METHOD_COUNT && TreeMatch(r, i, n).Some?;
    NormalFormDispatch(r, i, path);
  }

  // ---- Found ----

  /** The match a method serves: its own, or for HEAD without one, that of GET. */
  ghost predicate Serves(r: Router, verb: nat, path: string, m: Match) {
    || TreeMatch(r, verb, path) == Some(m)
    || (verb == HEAD && TreeMatch(r, HEAD, path).None? && TreeMatch(r, GET, path) == Some(m))
  }

  /** "Found" exactly when there is such a match whose captures fit, and then with its route and captures. */
  lemma FoundExact(r: Router, verb: nat, path: string)
    ensures
      var d := DispatchNormal(r, verb, path);
      && (d.status == Found <==> exists m :: Serves(r, verb, path, m) && StorageNeeded(m.captures) <= MAX_PARAM_STORAGE)
      && (d.status == Found ==> d.route.Some? && Serves(r, verb, path, Match(d.route.value, d.params)))
  {
    hide TreeMatch, Allowed, StorageNeeded;
    var own, get := TreeMatch(r, verb, path), TreeMatch(r, GET, path);
    if own.Some? {
      assert Serves(r, verb, path, own.value);
    } else if verb == HEAD && get.Some? {
      assert Serves(r, verb, path, get.value);
    }
  }

  // ---- 405 ----

  /** One of the first `n` methods, other than `verb`, matches. */
  ghost predicate OtherMatch(r: Router, verb: nat, path: string, n: nat) {
    exists i: nat | i < n :: i != verb && TreeMatch(r, i, path).Some?
  }

  lemma OtherMatchStep(r: Router, verb: nat, path: string, n: nat)
    requires n > 0
    ensures OtherMatch(r, verb, path, n) <==> OtherMatch(r, verb, path, n - 1)
                                              || (n - 1 != verb && TreeMatch(r, n - 1, path).Some?)
  {
    hide TreeMatch;
    if i: nat :| i < n && i != verb && TreeMatch(r, i, path).Some? {
      assert i == n - 1 || OtherMatch(r, verb, path, n - 1);
    }
  }

  lemma {:induction false} AllowedNonEmpty(r: Router, verb: nat, path: string, n: nat)
    requires n <= METHOD_COUNT
    ensures Allowed(r, verb, path, n) != "" <==> OtherMatch(r, verb, path, n)
    decreases n
  {
    if n > 0 {
      hide TreeMatch, MethodName, OtherMatch;
      AllowedNonEmpty(r, verb, path, n - 1);
      MethodHasName(n - 1);
      OtherMatchStep(r, verb, path, n);
    } else {
      assert !OtherMatch(r, verb, path, 0);
    }
  }

  lemma MethodHasName(i: nat)
    ensures MethodName(i) != ""
  {
  }

  /** The first `n` methods, other than `verb`, whose tries match. */
  function AllowedList(r: Router, verb: nat, path: string, n: nat): seq<nat>
    requires n <= METHOD_COUNT
  {
    if n == 0 then []
    else AllowedList(r, verb, path, n - 1) + if n - 1 != verb && TreeMatch(r, n - 1, path).Some? then [n - 1] else []
  }

  function Listed(methods: seq<nat>): string {
    if methods == [] then ""
    else if |methods| == 1 then MethodName(methods[0])
    else Listed(methods[..|methods| - 1]) + ", " + MethodName(methods[|methods| - 1])
  }

  lemma ListedSnoc(methods: seq<nat>, i: nat)
    ensures Listed(methods + [i]) == Listed(methods) + (if methods == [] then "" else ", ") + MethodName(i)
    ensures methods != [] ==> Listed(methods) != ""
  {
    assert (methods + [i])[..|methods|] == methods;
  }

  lemma {:induction false} AllowedListExact(r: Router, verb: nat, path: string, n: nat)
    requires n <= METHOD_COUNT
    ensures forall i: nat :: i in AllowedList(r, verb, path, n) <==> i < n && i != verb && TreeMatch(r, i, path).Some?
    decreases n
  {
    hide TreeMatch;
    if n > 0 { AllowedListExact(r, verb, path, n - 1); }
  }

  lemma {:induction false} AllowedListOrdered(r: Router, verb: nat, path: string, n: nat, i: nat, j: nat)
    requires n <= METHOD_COUNT && i < j < |AllowedList(r, verb, path, n)|
    ensures AllowedList(r, verb, path, n)[i] < AllowedList(r, verb, path, n)[j]
    decreases n
  {
    hide TreeMatch;
    var before := AllowedList(r, verb, path, n - 1);
    AllowedListExact(r, verb, path, n - 1);
    if j < |before| {
      AllowedListOrdered(r, verb, path, n - 1, i, j);
    } else {
      assert before[i] in before;
    }
  }

  /** The header of a 405 lists exactly the other methods that match, in order. */
  lemma {:induction false} AllowedIsListed(r: Router, verb: nat, path: string, n: nat)
    requires n <= METHOD_COUNT
    ensures Allowed(r, verb, path, n) == Listed(AllowedList(r, verb, path, n))
    decreases n
  {
    hide TreeMatch, MethodName, Listed;
    NothingListed();
    if n > 0 {
      AllowedIsListed(r, verb, path, n - 1);
      var before := AllowedList(r, verb, path, n - 1);
      ListedSnoc(before, n - 1);
      assert before + [] == before;
    }
  }

  lemma NothingListed()
    ensures Listed([]) == ""
  {
  }

  /** "Method not allowed" exactly when this method has no match and another one has. */
  lemma NotAllowedExact(r: Router, verb: nat, path: string)
    ensures
      DispatchNormal(r, verb, path).status == MethodNotAllowed
      <==> && TreeMatch(r, verb, path).None?
           && (verb == HEAD ==> TreeMatch(r, GET, path).None?)
           && AnyMatch(r, path)
  {
    hide TreeMatch, Allowed;
    AllowedNonEmpty(r, verb, path, METHOD_COUNT);
    if AnyMatch(r, path) && TreeMatch(r, verb, path).None? {
      var i: nat :| i < METHOD_COUNT && TreeMatch(r, i, path).Some?;
      assert i != verb;
    }
  }
}
