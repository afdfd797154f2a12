/**
 What lookup can reach: the subtrees in which it finds something on every path, and those in
 which it finds something on some path. Captures run out, and a parameter may leave nothing
 for the wildcard beside it.
 */
module RadixReach {
  import opened Options
  import opened RadixSpec
  import opened RadixShape
  import opened RadixContents
  import opened RadixLookup
  import opened RadixPersistence

  // ---- Segments ----

  /** A static segment's text. */
  predicate IsSegment(x: string) { x != "" && '/' !in x && x[0] != ':' && x[0] != '*' }

  /** At the end, or in front of the next segment. */
  predicate AtSlash(s: string) { s == "" || s[0] == '/' }

  lemma {:induction false} SegOf(x: string, s: string)
    requires '/' !in x && AtSlash(s)
    ensures Seg(x + s) == x && Rest(x + s) == s
    decreases |x|
  {
    SegLenOf(x, s);
  }

  lemma {:induction false} SegLenOf(x: string, s: string)
    requires '/' !in x && AtSlash(s)
    ensures SegLen(x + s) == |x|
    decreases |x|
  {
    if x == "" {
      assert x + s == s;
    } else {
      assert (x + s)[1..] == x[1..] + s;
      SegLenOf(x[1..], s);
    }
  }

  /** A path that starts with the segment `x`. */
  lemma PathOf(x: string, s: string)
    requires x != "" && '/' !in x && AtSlash(s)
    ensures var text := Skip("/" + x + s); text == x + s != "" && Seg(text) == x && Rest(text) == s
  {
    assert ("/" + x + s)[1..] == x + s;
    SegOf(x, s);
  }

  // ---- Segments too long for the static search ----

  function Span(t: Tree): nat { SpanOf(t.kids) }

  /** No less than the length of any text that static edges below spell. */
  function SpanOf(kids: seq<Tree>): nat {
    if kids == [] then 0 else |kids[0].edge| + Span(kids[0]) + SpanOf(kids[1..])
  }

  lemma {:induction false} SpanKid(kids: seq<Tree>, i: nat)
    requires i < |kids|
    ensures |kids[i].edge| + Span(kids[i]) <= SpanOf(kids)
    decreases i
  {
    if i > 0 { SpanKid(kids[1..], i - 1); }
  }

  lemma SpanBelow(t: Tree, i: nat)
    requires i < |t.kids|
    ensures |t.kids[i].edge| + Span(t.kids[i]) <= Span(t)
  {
    hide SpanOf;
    SpanKid(t.kids, i);
  }

  lemma {:induction false} LongFails(t: Tree, text: string, i: nat, caps: seq<Capture>)
    requires i <= |t.kids| && |Seg(text)| > Span(t)
    ensures LookupStatic(t, text, i, caps).None?
    decreases t, |t.kids| - i
  {
    hide Lookup, Span;
    if i < |t.kids| {
      var c := t.kids[i];
      SpanBelow(t, i);
      if c.kind == Static && IsEdgeOf(c.edge, Seg(text)) {
        SegDrop(text, |c.edge|);
        LongFails(c, text[|c.edge|..], 0, caps);
      }
      LongFails(t, text, i + 1, caps);
    }
  }

  function Long(t: Tree): (x: string)
    ensures |x| == Span(t) + 1 && '/' !in x
  {
    seq(Span(t) + 1, _ => 'x')
  }

  // ---- One parameter child, one wildcard child ----

  lemma KidUnique(t: Tree, i: nat, j: nat)
    requires Shape(t) && i < |t.kids| && j < |t.kids| && t.kids[i].kind == t.kids[j].kind
    requires t.kids[i].kind == Static ==> t.kids[i].edge != "" && t.kids[j].edge != ""
                                          && t.kids[i].edge[0] == t.kids[j].edge[0]
    ensures i == j
  {
    assert i < j ==> Before(t.kids[i], t.kids[j]);
    assert j < i ==> Before(t.kids[j], t.kids[i]);
  }

  /** What lookup makes of the parameter child, if there is one. */
  function ByParam(t: Tree, text: string, caps: seq<Capture>): Option<Match> {
    var k := FindKind(t.kids, Param);
    if k == |t.kids| || |caps| >= MAX_PATH_PARAMS then None
    else Lookup(t.kids[k], Rest(text), caps + [Capture(t.kids[k].name, Seg(text))])
  }

  function ByWildcard(t: Tree, text: string, caps: seq<Capture>): Option<Match> {
    var k := FindKind(t.kids, Wildcard);
    if k == |t.kids| || |caps| >= MAX_PATH_PARAMS || t.kids[k].route.None? then None
    else Some(Match(t.kids[k].route.value, caps + [Capture(t.kids[k].name, text)]))
  }

  lemma {:induction false} OneParam(t: Tree, text: string, i: nat, caps: seq<Capture>)
    requires Shape(t) && i <= |t.kids|
    ensures
      var k := FindKind(t.kids, Param);
      LookupParam(t, text, i, caps) == if i <= k then ByParam(t, text, caps) else None
    decreases |t.kids| - i
  {
    hide Lookup, Seg, Rest, NodeOk;
    var k := FindKind(t.kids, Param);
    if i < |t.kids| {
      assert k < i ==> Before(t.kids[k], t.kids[i]);
      OneParam(t, text, i + 1, caps);
    }
  }

  lemma {:induction false} OneWildcard(t: Tree, text: string, i: nat, caps: seq<Capture>)
    requires Shape(t) && i <= |t.kids|
    ensures
      var k := FindKind(t.kids, Wildcard);
      LookupWildcard(t, text, i, caps) == if i <= k then ByWildcard(t, text, caps) else None
    decreases |t.kids| - i
  {
    hide NodeOk;
    var k := FindKind(t.kids, Wildcard);
    if i < |t.kids| {
      assert k < i ==> Before(t.kids[k], t.kids[i]);
      OneWildcard(t, text, i + 1, caps);
    }
  }

  /** Lookup, child by child. */
  lemma LookupByKind(t: Tree, path: string, caps: seq<Capture>)
    requires Shape(t)
    ensures
      var text := Skip(path);
      Lookup(t, path, caps)
      == if text == "" then if t.route.Some? then Some(Match(t.route.value, caps)) else None
         else if LookupStatic(t, text, 0, caps).Some? then LookupStatic(t, text, 0, caps)
         else if ByParam(t, text, caps).Some? then ByParam(t, text, caps)
         else ByWildcard(t, text, caps)
  {
    hide Shape, LookupStatic, LookupParam, LookupWildcard, ByParam, ByWildcard, Skip;
    OneParam(t, Skip(path), 0, caps);
    OneWildcard(t, Skip(path), 0, caps);
  }

  /** A long segment is for the parameter or the wildcard. */
  lemma LongLookup(t: Tree, rest: string, caps: seq<Capture>)
    requires Shape(t) && AtSlash(rest)
    ensures
      var text := Long(t) + rest;
      Lookup(t, "/" + Long(t) + rest, caps)
      == if ByParam(t, text, caps).Some? then ByParam(t, text, caps) else ByWildcard(t, text, caps)
    ensures Seg(Long(t) + rest) == Long(t) && Rest(Long(t) + rest) == rest
  {
    hide Shape, Lookup, LookupStatic, ByParam, ByWildcard, Long, Seg, Rest, Skip;
    PathOf(Long(t), rest);
    LongFails(t, Long(t) + rest, 0, caps);
    LookupByKind(t, "/" + Long(t) + rest, caps);
  }

  lemma FirstChild(t: Tree, text: string, k: nat, caps: seq<Capture>)
    requires k < |t.kids| && LookupAfter(t.kids[k], text, caps).Some?
    ensures LookupStatic(t, text, k, caps) == LookupAfter(t.kids[k], text, caps)
  {
    hide Lookup, Seg, Rest;
  }

  /** The static search has one child to go to. */
  lemma StaticAt(t: Tree, text: string, k: nat, caps: seq<Capture>)
    requires Shape(t) && k < |t.kids| && LookupAfter(t.kids[k], text, caps).Some?
    ensures LookupStatic(t, text, 0, caps) == LookupAfter(t.kids[k], text, caps)
  {
    hide Lookup, LookupStatic, Seg, Rest, Shape;
    KidShape(t, k);
    EdgeFirst(t.kids[k].edge, Seg(text));
    SkipOthers(t, text, 0, k, caps);
    FirstChild(t, text, k, caps);
  }

  lemma {:induction false} StaticFrom(t: Tree, text: string, i: nat, caps: seq<Capture>) returns (k: nat)
    requires i <= |t.kids| && LookupStatic(t, text, i, caps).Some?
    ensures k < |t.kids| && LookupAfter(t.kids[k], text, caps) == LookupStatic(t, text, i, caps)
    decreases |t.kids| - i
  {
    hide Lookup, Seg, Rest;
    if LookupAfter(t.kids[i], text, caps).Some? { k := i; } else { k := StaticFrom(t, text, i + 1, caps); }
  }

  // ---- What can be found ----

  /** Lookup below `t`, with `n` captures left, finds something on every path. */
  predicate Covers(t: Tree, n: nat)
    decreases t
  {
    var k, w := FindKind(t.kids, Param), FindKind(t.kids, Wildcard);
    t.route.Some? && n > 0 && (w < |t.kids| || (k < |t.kids| && Covers(t.kids[k], n - 1)))
  }

  /** The parameter child takes every path, so nothing is left for the wildcard. */
  predicate Shadowed(t: Tree, n: nat)
    requires n > 0
  {
    var k := FindKind(t.kids, Param);
    k < |t.kids| && Covers(t.kids[k], n - 1)
  }

  /** Lookup below `t`, with `n` captures left, finds something on some path. */
  ghost predicate CanFind(t: Tree, n: nat)
    decreases t, 0
  {
    t.route.Some? || exists i :: 0 <= i < |t.kids| && FindsBy(t.kids[i], n, n > 0 && Shadowed(t, n))
  }

  ghost predicate FindsBy(c: Tree, n: nat, shadowed: bool)
    decreases c, 1
  {
    match c.kind
    case Static => CanFind(c, n)
    case Param => n > 0 && CanFind(c, n - 1)
    case Wildcard => n > 0 && !shadowed
  }

  lemma {:induction false} CoversAll(t: Tree, n: nat, path: string, caps: seq<Capture>)
    requires Shape(t) && Covers(t, n) && |caps| + n == MAX_PATH_PARAMS
    ensures Lookup(t, path, caps).Some?
    decreases t
  {
    hide Shape, Lookup, LookupStatic;
    LookupByKind(t, path, caps);
    var text := Skip(path);
    var k, w := FindKind(t.kids, Param), FindKind(t.kids, Wildcard);
    if w < |t.kids| {
      KidShape(t, w);
    } else {
      KidShape(t, k);
      CoversAll(t.kids[k], n - 1, Rest(text), caps + [Capture(t.kids[k].name, Seg(text))]);
    }
  }

  lemma {:induction false} Missed(t: Tree, n: nat, caps: seq<Capture>) returns (path: string)
    requires Shape(t) && !Covers(t, n) && |caps| + n == MAX_PATH_PARAMS
    ensures AtSlash(path) && Lookup(t, path, caps).None?
    decreases t
  {
    hide Shape, Lookup, LookupStatic, Long, Seg, Rest;
    if t.route.None? {
      path := "";
      LookupByKind(t, path, caps);
    } else {
      var k := FindKind(t.kids, Param);
      var rest := "";
      if n > 0 && k < |t.kids| {
        KidShape(t, k);
        rest := Missed(t.kids[k], n - 1, caps + [Capture(t.kids[k].name, Long(t))]);
      }
      path := "/" + Long(t) + rest;
      LongLookup(t, rest, caps);
    }
  }

  /** Every path is found exactly if a chain of parameters, each with a route of its own, ends in a wildcard. */
  lemma CoversExactly(t: Tree, n: nat, caps: seq<Capture>)
    requires Shape(t) && |caps| + n == MAX_PATH_PARAMS
    ensures Covers(t, n) <==> forall path :: Lookup(t, path, caps).Some?
  {
    hide Shape, Lookup, Covers;
    if Covers(t, n) {
      forall path ensures Lookup(t, path, caps).Some? { CoversAll(t, n, path, caps); }
    } else {
      var path := Missed(t, n, caps);
    }
  }

  lemma {:induction false} LookupCanFind(t: Tree, n: nat, path: string, caps: seq<Capture>)
    requires Shape(t) && |caps| + n == MAX_PATH_PARAMS && Lookup(t, path, caps).Some?
    ensures CanFind(t, n)
    decreases t, 1
  {
    hide Shape, Lookup, LookupStatic, CanFind, Covers;
    LookupByKind(t, path, caps);
    var text := Skip(path);
    if text == "" {
      OwnRoute(t, n);
    } else if LookupStatic(t, text, 0, caps).Some? {
      var k := StaticCanFind(t, n, text, caps);
      KidFinds(t, n, k);
    } else if ByParam(t, text, caps).Some? {
      var k := FindKind(t.kids, Param);
      KidShape(t, k);
      LookupCanFind(t.kids[k], n - 1, Rest(text), caps + [Capture(t.kids[k].name, Seg(text))]);
      KidFinds(t, n, k);
    } else {
      if Shadowed(t, n) {
        var k := FindKind(t.kids, Param);
        KidShape(t, k);
        CoversAll(t.kids[k], n - 1, Rest(text), caps + [Capture(t.kids[k].name, Seg(text))]);
      }
      KidFinds(t, n, FindKind(t.kids, Wildcard));
    }
  }

  lemma {:induction false} StaticCanFind(t: Tree, n: nat, text: string, caps: seq<Capture>) returns (k: nat)
    requires Shape(t) && |caps| + n == MAX_PATH_PARAMS && LookupStatic(t, text, 0, caps).Some?
    ensures k < |t.kids| && t.kids[k].kind == Static && CanFind(t.kids[k], n)
    ensures LookupAfter(t.kids[k], text, caps) == LookupStatic(t, text, 0, caps)
    decreases t, 0
  {
    hide Shape, Lookup, LookupStatic, CanFind;
    k := StaticFrom(t, text, 0, caps);
    var c := t.kids[k];
    KidShape(t, k);
    if |c.edge| == |Seg(text)| {
      LookupCanFind(c, n, Rest(text), caps);
    } else {
      var j := StaticCanFind(c, n, text[|c.edge|..], caps);
      KidFinds(c, n, j);
    }
  }

  lemma OwnRoute(t: Tree, n: nat)
    requires t.route.Some?
    ensures CanFind(t, n)
  {
  }

  lemma KidFinds(t: Tree, n: nat, k: nat)
    requires k < |t.kids| && FindsBy(t.kids[k], n, n > 0 && Shadowed(t, n))
    ensures CanFind(t, n)
  {
    hide FindsBy, Shadowed;
  }

  /** Where something can be found, a path on which it is. */
  lemma {:induction false} FoundSomewhere(t: Tree, n: nat, caps: seq<Capture>)
    returns (path: string, key: seq<Tok>, q: Route)
    requires Shape(t) && CanFind(t, n) && |caps| + n == MAX_PATH_PARAMS
    ensures AtSlash(path) && HasKey(t, key, q) && FindsRoute(t, path, caps, q)
    decreases t
  {
    hide Shape, Lookup, LookupStatic, HasKey, Long, Seg, Rest, Covers;
    if t.route.Some? {
      path, key, q := "", [], t.route.value;
      EndHasKey(t, q);
      LookupByKind(t, path, caps);
    } else {
      var i :| 0 <= i < |t.kids| && FindsBy(t.kids[i], n, n > 0 && Shadowed(t, n));
      var c := t.kids[i];
      KidShape(t, i);
      match c.kind
      case Static =>
        path, key, q := FoundSomewhere(c, n, caps);
        EdgeStep(t, c, i, key, q);
        EdgePath(t, i, path, caps, q);
        path, key := "/" + c.edge + path, Chars(c.edge) + key;
      case Param =>
        path, key, q := FoundSomewhere(c, n - 1, caps + [Capture(c.name, Long(t))]);
        ParamKey(t, i, key, q);
        ParamPath(t, i, path, caps, q);
        path, key := "/" + Long(t) + path, [Par(c.name)] + key;
      case Wildcard =>
        key, q := [Wild(c.name)], c.route.value;
        assert Through(t.kids[i], key, q);
        ThroughHasKey(t, i, key, q);
        path := WildcardPath(t, i, n, caps);
        path := "/" + Long(t) + path;
    }
  }

  ghost predicate FindsRoute(t: Tree, path: string, caps: seq<Capture>, q: Route) {
    Lookup(t, path, caps).Some? && Lookup(t, path, caps).value.route == q
  }

  lemma EndHasKey(t: Tree, q: Route)
    requires t.route == Some(q)
    ensures HasKey(t, [], q)
  {
  }

  lemma ParamKey(t: Tree, i: nat, key: seq<Tok>, q: Route)
    requires i < |t.kids| && t.kids[i].kind == Param && HasKey(t.kids[i], key, q)
    ensures HasKey(t, [Par(t.kids[i].name)] + key, q)
  {
    hide HasKey;
    var k := [Par(t.kids[i].name)] + key;
    assert k[1..] == key;
    ParamStep(t, t.kids[i], i, k, q);
  }

  lemma KidIndex(t: Tree, i: nat)
    requires Shape(t) && i < |t.kids| && t.kids[i].kind != Static
    ensures FindKind(t.kids, t.kids[i].kind) == i
  {
    var j := FindKind(t.kids, t.kids[i].kind);
    assert j < i ==> Before(t.kids[j], t.kids[i]);
  }

  lemma EdgePath(t: Tree, i: nat, rest: string, caps: seq<Capture>, q: Route)
    requires Shape(t) && i < |t.kids| && t.kids[i].kind == Static && AtSlash(rest)
    requires FindsRoute(t.kids[i], rest, caps, q)
    ensures FindsRoute(t, "/" + t.kids[i].edge + rest, caps, q)
  {
    hide Shape, Lookup, LookupStatic, Seg, Rest, Skip;
    var c := t.kids[i];
    KidShape(t, i);
    PathOf(c.edge, rest);
    assert c.edge[..|c.edge|] == c.edge;
    StaticAt(t, c.edge + rest, i, caps);
    LookupByKind(t, "/" + c.edge + rest, caps);
  }

  lemma ParamPath(t: Tree, i: nat, rest: string, caps: seq<Capture>, q: Route)
    requires Shape(t) && i < |t.kids| && t.kids[i].kind == Param && AtSlash(rest) && |caps| < MAX_PATH_PARAMS
    requires FindsRoute(t.kids[i], rest, caps + [Capture(t.kids[i].name, Long(t))], q)
    ensures FindsRoute(t, "/" + Long(t) + rest, caps, q)
  {
    hide Shape, Lookup, Long, Seg, Rest;
    KidIndex(t, i);
    LongLookup(t, rest, caps);
  }

  lemma WildcardPath(t: Tree, i: nat, n: nat, caps: seq<Capture>) returns (rest: string)
    requires Shape(t) && i < |t.kids| && t.kids[i].kind == Wildcard && n > 0 && |caps| + n == MAX_PATH_PARAMS
    requires !Shadowed(t, n)
    ensures AtSlash(rest) && t.kids[i].route.Some?
            && FindsRoute(t, "/" + Long(t) + rest, caps, t.kids[i].route.value)
  {
    hide Shape, Lookup, Long, Seg, Rest, Covers;
    KidShape(t, i);
    KidIndex(t, i);
    var k := FindKind(t.kids, Param);
    rest := "";
    if k < |t.kids| {
      KidShape(t, k);
      rest := Missed(t.kids[k], n - 1, caps + [Capture(t.kids[k].name, Long(t))]);
    }
    LongLookup(t, rest, caps);
  }

  /** Something can be found below `t` exactly if lookup finds something on some path. */
  lemma CanFindExactly(t: Tree, n: nat, caps: seq<Capture>)
    requires Shape(t) && |caps| + n == MAX_PATH_PARAMS
    ensures CanFind(t, n) <==> exists path :: Lookup(t, path, caps).Some?
  {
    hide Shape, Lookup, CanFind;
    if CanFind(t, n) {
      var path, _, _ := FoundSomewhere(t, n, caps);
      assert Lookup(t, path, caps).Some?;
    }
    forall path | Lookup(t, path, caps).Some? ensures CanFind(t, n) { LookupCanFind(t, n, path, caps); }
  }
}
