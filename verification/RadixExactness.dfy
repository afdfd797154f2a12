/**
 When lookup finds only instances of the patterns. A trie node does not record whether its edge
 ended a segment, so between two static edges a slash may be missing or be one too many. It
 depends on the trie alone whether that ever happens: on whether something can be found, with
 the captures that are left, below a static child of a static node.
 */
module RadixExactness {
  import opened RadixSpec
  import opened RadixShape
  import opened RadixContents
  import opened RadixLookup
  import opened RadixPersistence
  import opened RadixReach

  // ---- Where slashes are lost ----

  /** Below a static child of a static node something can be found, with the captures left there. */
  ghost predicate Blurred(t: Tree, n: nat)
    decreases t, 0
  {
    exists i :: 0 <= i < |t.kids| && BlurredBy(t.kids[i], n)
  }

  ghost predicate BlurredBy(c: Tree, n: nat)
    decreases c, 1
  {
    match c.kind
    case Static => FindsOnEdge(c, n) || Blurred(c, n)
    case Param => n > 0 && Blurred(c, n - 1)
    case Wildcard => false
  }

  ghost predicate FindsOnEdge(c: Tree, n: nat) {
    exists j :: 0 <= j < |c.kids| && c.kids[j].kind == Static && CanFind(c.kids[j], n)
  }

  /** No pattern with this key has both paths as instances. */
  ghost predicate Apart(key: seq<Tok>, p1: string, p2: string) {
    forall rest :: Key(rest) == key ==> !(Instance(rest, p1) && Instance(rest, p2))
  }

  /** Two paths that lookup cannot tell apart although the patterns do. */
  lemma {:induction false} Confused(t: Tree, n: nat, caps: seq<Capture>)
    returns (p1: string, p2: string, key: seq<Tok>, q: Route)
    requires Shape(t) && Blurred(t, n) && |caps| + n == MAX_PATH_PARAMS
    ensures AtSlash(p1) && AtSlash(p2) && p1 != "" && p2 != "" && HasKey(t, key, q) && Apart(key, p1, p2)
    ensures FindsRoute(t, p1, caps, q) && FindsRoute(t, p2, caps, q)
    decreases t
  {
    hide Shape, FindsRoute, HasKey, Long, Seg, Rest, CanFind, Apart;
    var i :| 0 <= i < |t.kids| && BlurredBy(t.kids[i], n);
    var c := t.kids[i];
    KidShape(t, i);
    match c.kind
    case Static =>
      if FindsOnEdge(c, n) {
        var j :| 0 <= j < |c.kids| && c.kids[j].kind == Static && CanFind(c.kids[j], n);
        p1, p2, key, q := ConfusedHere(t, i, j, n, caps);
      } else {
        p1, p2, key, q := Confused(c, n, caps);
        EdgeStep(t, c, i, key, q);
        EdgePath(t, i, p1, caps, q);
        EdgePath(t, i, p2, caps, q);
        EdgeApart(c.edge, key, p1, p2);
        p1, p2, key := "/" + c.edge + p1, "/" + c.edge + p2, Chars(c.edge) + key;
      }
    case Param =>
      p1, p2, key, q := Confused(c, n - 1, caps + [Capture(c.name, Long(t))]);
      ParamKey(t, i, key, q);
      ParamPath(t, i, p1, caps, q);
      ParamPath(t, i, p2, caps, q);
      ParamApart(c.name, Long(t), key, p1, p2);
      p1, p2, key := "/" + Long(t) + p1, "/" + Long(t) + p2, [Par(c.name)] + key;
  }

  lemma ConfusedHere(t: Tree, i: nat, j: nat, n: nat, caps: seq<Capture>)
    returns (p1: string, p2: string, key: seq<Tok>, q: Route)
    requires Shape(t) && i < |t.kids| && t.kids[i].kind == Static && |caps| + n == MAX_PATH_PARAMS
    requires j < |t.kids[i].kids| && t.kids[i].kids[j].kind == Static && CanFind(t.kids[i].kids[j], n)
    ensures AtSlash(p1) && AtSlash(p2) && p1 != "" && p2 != "" && HasKey(t, key, q) && Apart(key, p1, p2)
    ensures FindsRoute(t, p1, caps, q) && FindsRoute(t, p2, caps, q)
  {
    hide Shape, FindsRoute, HasKey, Seg, Rest, CanFind, Apart;
    var c := t.kids[i];
    var d := c.kids[j];
    KidShape(t, i);
    KidShape(c, j);
    var rest, k, r := FoundSomewhere(d, n, caps);
    q := r;
    EdgeStep(c, d, j, k, q);
    EdgeStep(t, c, i, Chars(d.edge) + k, q);
    key := Chars(c.edge) + (Chars(d.edge) + k);
    EdgePath(c, j, rest, caps, q);
    EdgePath(t, i, "/" + d.edge + rest, caps, q);
    TwoEdgePath(t, i, j, rest, caps, q);
    p1, p2 := "/" + (c.edge + d.edge) + rest, "/" + c.edge + ("/" + d.edge + rest);
    HereApart(c.edge, d.edge, rest, Chars(d.edge) + k);
  }

  /** Both edges in one segment. */
  lemma TwoEdgePath(t: Tree, i: nat, j: nat, rest: string, caps: seq<Capture>, q: Route)
    requires Shape(t) && i < |t.kids| && t.kids[i].kind == Static && AtSlash(rest)
    requires j < |t.kids[i].kids| && t.kids[i].kids[j].kind == Static && FindsRoute(t.kids[i].kids[j], rest, caps, q)
    ensures FindsRoute(t, "/" + (t.kids[i].edge + t.kids[i].kids[j].edge) + rest, caps, q)
  {
    hide Shape, Lookup, LookupStatic, Seg, Rest, Skip;
    var c := t.kids[i];
    var d := c.kids[j];
    KidShape(t, i);
    KidShape(c, j);
    var e := c.edge + d.edge;
    var text := e + rest;
    PathOf(e, rest);
    PathOf(d.edge, rest);
    assert text[|c.edge|..] == d.edge + rest && e[..|c.edge|] == c.edge && d.edge[..|d.edge|] == d.edge;
    StaticAt(c, d.edge + rest, j, caps);
    StaticAt(t, text, i, caps);
    LookupByKind(t, "/" + e + rest, caps);
  }

  /** A pattern whose key starts with a character starts with a static segment. */
  lemma StaticKey(rest: string, path: string)
    requires Key(rest) != [] && Key(rest)[0].Ch? && Instance(rest, path)
    ensures
      var text, ptext := Skip(rest), Skip(path);
      && Seg(ptext) == Seg(text) && |Seg(text)| <= |Key(rest)| && Key(rest)[|Seg(text)|..] == Key(Rest(text))
      && Instance(Rest(text), Rest(ptext))
  {
    hide Seg, Rest;
  }

  lemma HereApart(e: string, d: string, s: string, key: seq<Tok>)
    requires e != "" && d != "" && '/' !in e && '/' !in d && AtSlash(s)
    ensures Apart(Chars(e) + key, "/" + (e + d) + s, "/" + e + ("/" + d + s))
  {
    hide Key, Instance, Seg, Rest, Skip;
    var p1, p2 := "/" + (e + d) + s, "/" + e + ("/" + d + s);
    PathOf(e + d, s);
    PathOf(e, "/" + d + s);
    assert |e + d| > |e|;
    forall rest | Key(rest) == Chars(e) + key && Instance(rest, p1) && Instance(rest, p2) ensures false {
      StaticKey(rest, p1);
      StaticKey(rest, p2);
    }
  }

  lemma EdgeApart(e: string, key: seq<Tok>, p1: string, p2: string)
    requires e != "" && '/' !in e && AtSlash(p1) && AtSlash(p2) && Apart(key, p1, p2)
    ensures Apart(Chars(e) + key, "/" + e + p1, "/" + e + p2)
  {
    hide Key, Instance, Seg, Rest, Skip;
    var q1, q2 := "/" + e + p1, "/" + e + p2;
    assert (Chars(e) + key)[|e|..] == key;
    PathOf(e, p1);
    PathOf(e, p2);
    forall rest | Key(rest) == Chars(e) + key && Instance(rest, q1) && Instance(rest, q2) ensures false {
      StaticKey(rest, q1);
      StaticKey(rest, q2);
    }
  }

  lemma ParamApart(name: string, x: string, key: seq<Tok>, p1: string, p2: string)
    requires x != "" && '/' !in x && AtSlash(p1) && AtSlash(p2) && Apart(key, p1, p2)
    ensures Apart([Par(name)] + key, "/" + x + p1, "/" + x + p2)
  {
    hide Key, Instance, Seg, Rest, Skip;
    var q1, q2 := "/" + x + p1, "/" + x + p2;
    PathOf(x, p1);
    PathOf(x, p2);
    forall rest | Key(rest) == [Par(name)] + key && Instance(rest, q1) && Instance(rest, q2) ensures false {
      ParamKeyNext(rest, q1);
      ParamKeyNext(rest, q2);
    }
  }

  lemma ParamKeyNext(rest: string, path: string)
    requires Key(rest) != [] && Key(rest)[0].Par? && Instance(rest, path)
    ensures
      var text, ptext := Skip(rest), Skip(path);
      Key(rest)[1..] == Key(Rest(text)) && Instance(Rest(text), Rest(ptext))
  {
    hide Seg, Rest, Chars;
  }

  // ---- Otherwise only instances are found ----

  /** What kind of segment a key starts with. */
  lemma KeyHead(rest: string)
    ensures
      var text := Skip(rest);
      var seg, next := Seg(text), Rest(text);
      if seg == "" then Key(rest) == []
      else if seg[0] == '*' then Key(rest) == [Wild(seg[1..])]
      else if seg[0] == ':' then Key(rest) != [] && Key(rest)[0] == Par(seg[1..]) && Key(rest)[1..] == Key(next)
      else |seg| <= |Key(rest)| && Key(rest)[|seg|..] == Key(next)
           && forall i :: 0 <= i < |seg| ==> Key(rest)[i] == Ch(seg[i])
  {
  }

  /** Every pattern registered for `q` under `key` has `path` as an instance. */
  ghost predicate Follows(t: Tree, key: seq<Tok>, q: Route, path: string) {
    forall rest :: Registered(t, rest, q) && Key(rest) == key ==> Instance(rest, path)
  }

  lemma {:induction false} ClearFinds(t: Tree, n: nat, path: string, caps: seq<Capture>) returns (key: seq<Tok>)
    requires Shape(t) && !Blurred(t, n) && |caps| + n == MAX_PATH_PARAMS && Lookup(t, path, caps).Some?
    ensures
      var q := Lookup(t, path, caps).value.route;
      HasKey(t, key, q) && Follows(t, key, q, path) && (key != [] && key[0].Ch? ==> FindsOnEdge(t, n))
    decreases t
  {
    hide Shape, Lookup, LookupStatic, HasKey, Follows, CanFind, Seg, Rest, NodeOk;
    LookupByKind(t, path, caps);
    var text, q := Skip(path), Lookup(t, path, caps).value.route;
    if text == "" {
      key := [];
      EndHasKey(t, q);
      EndFollows(t, q, path);
    } else if LookupStatic(t, text, 0, caps).Some? {
      var i := StaticCanFind(t, n, text, caps);
      var c := t.kids[i];
      KidShape(t, i);
      KidClear(t, i, n);
      WholeEdge(c, n, text, caps);
      key := ClearFinds(c, n, Rest(text), caps);
      EdgeStep(t, c, i, key, q);
      EdgeFollows(t, i, key, q, path);
      key := Chars(c.edge) + key;
    } else if ByParam(t, text, caps).Some? {
      var i := FindKind(t.kids, Param);
      KidShape(t, i);
      KidClear(t, i, n);
      key := ClearFinds(t.kids[i], n - 1, Rest(text), caps + [Capture(t.kids[i].name, Seg(text))]);
      ParamKey(t, i, key, q);
      ParamFollows(t, i, key, q, path);
      key := [Par(t.kids[i].name)] + key;
    } else {
      var i := FindKind(t.kids, Wildcard);
      key := [Wild(t.kids[i].name)];
      assert Through(t.kids[i], key, q);
      ThroughHasKey(t, i, key, q);
      WildcardFollows(t, t.kids[i].name, q, path);
    }
  }

  lemma WholeEdge(c: Tree, n: nat, text: string, caps: seq<Capture>)
    requires Shape(c) && !FindsOnEdge(c, n) && |caps| + n == MAX_PATH_PARAMS && LookupAfter(c, text, caps).Some?
    ensures c.edge == Seg(text) && LookupAfter(c, text, caps) == Lookup(c, Rest(text), caps)
  {
    hide Shape, Lookup, LookupStatic, CanFind;
    if |c.edge| != |Seg(text)| { var j := StaticCanFind(c, n, text[|c.edge|..], caps); }
    assert Seg(text)[..|Seg(text)|] == Seg(text);
  }

  lemma KidClear(t: Tree, i: nat, n: nat)
    requires !Blurred(t, n) && i < |t.kids|
    ensures t.kids[i].kind == Static ==> !FindsOnEdge(t.kids[i], n) && !Blurred(t.kids[i], n)
    ensures t.kids[i].kind == Param && n > 0 ==> !Blurred(t.kids[i], n - 1)
  {
    hide FindsOnEdge;
    assert !BlurredBy(t.kids[i], n);
  }

  lemma EndFollows(t: Tree, q: Route, path: string)
    requires Skip(path) == ""
    ensures Follows(t, [], q, path)
  {
    hide Key, Registered;
    forall rest | Registered(t, rest, q) && Key(rest) == [] ensures Instance(rest, path) { KeyHead(rest); }
  }

  lemma WildcardFollows(t: Tree, name: string, q: Route, path: string)
    requires Skip(path) != ""
    ensures Follows(t, [Wild(name)], q, path)
  {
    hide Key, Registered;
    forall rest | Registered(t, rest, q) && Key(rest) == [Wild(name)] ensures Instance(rest, path) {
      KeyHead(rest);
    }
  }

  lemma ParamFollows(t: Tree, i: nat, key: seq<Tok>, q: Route, path: string)
    requires Shape(t) && i < |t.kids| && t.kids[i].kind == Param && Skip(path) != ""
    requires Follows(t.kids[i], key, q, Rest(Skip(path)))
    ensures Follows(t, [Par(t.kids[i].name)] + key, q, path)
  {
    hide Shape, Key, Instance, OnEdges, Seg, Rest;
    var key' := [Par(t.kids[i].name)] + key;
    assert key'[1..] == key;
    forall rest | Registered(t, rest, q) && Key(rest) == key' ensures Instance(rest, path) {
      KeyHead(rest);
      var seg, next := Seg(Skip(rest)), Rest(Skip(rest));
      assert Key(rest)[0] == Par(t.kids[i].name);
      var c :| c in t.kids && c.kind == Param && c.name == seg[1..] && Registered(c, next, q);
      var j :| 0 <= j < |t.kids| && t.kids[j] == c;
      KidUnique(t, i, j);
      InstanceParam(rest, path);
    }
  }

  lemma InstanceParam(rest: string, path: string)
    requires Seg(Skip(rest)) != "" && Seg(Skip(rest))[0] == ':' && Skip(path) != ""
    requires Instance(Rest(Skip(rest)), Rest(Skip(path)))
    ensures Instance(rest, path)
  {
    hide Seg, Rest;
  }

  lemma InstanceEdge(rest: string, path: string)
    requires Seg(Skip(rest)) != "" && Seg(Skip(rest)) == Seg(Skip(path)) && Skip(path) != ""
    requires Instance(Rest(Skip(rest)), Rest(Skip(path)))
    ensures Instance(rest, path)
  {
    hide Rest;
  }

  lemma EdgeFollows(t: Tree, i: nat, key: seq<Tok>, q: Route, path: string)
    requires Shape(t) && i < |t.kids| && t.kids[i].kind == Static && (key != [] ==> !key[0].Ch?)
    requires Skip(path) != "" && Seg(Skip(path)) == t.kids[i].edge && Follows(t.kids[i], key, q, Rest(Skip(path)))
    ensures Follows(t, Chars(t.kids[i].edge) + key, q, path)
  {
    hide Shape, Key, Instance, OnEdges, Seg, Rest;
    var e := t.kids[i].edge;
    KidShape(t, i);
    var key' := Chars(e) + key;
    assert key'[|e|..] == key && key'[0] == Ch(e[0]);
    forall rest | Registered(t, rest, q) && Key(rest) == key' ensures Instance(rest, path) {
      SameSegment(t, i, rest, key, q);
      InstanceEdge(rest, path);
    }
  }

  /** A registered pattern's static segment is the edge of the one child that shares its first character. */
  lemma SameSegment(t: Tree, i: nat, rest: string, key: seq<Tok>, q: Route)
    requires Shape(t) && i < |t.kids| && t.kids[i].kind == Static && t.kids[i].edge != ""
    requires (key != [] ==> !key[0].Ch?) && Registered(t, rest, q) && Key(rest) == Chars(t.kids[i].edge) + key
    ensures
      var text := Skip(rest);
      Seg(text) == t.kids[i].edge && Registered(t.kids[i], Rest(text), q) && Key(Rest(text)) == key
  {
    hide Shape, Key, OnEdges, OnEdge, Rest, SegLen, Skip;
    var text, e := Skip(rest), t.kids[i].edge;
    var seg := Seg(text);
    KeyHead(rest);
    assert Key(rest)[0] == Ch(e[0]);
    var k := OnEdgesKid(t, text, q);
    var j :| 0 <= j < |t.kids| && t.kids[j] == k;
    assert k.kind == Static && k.edge != "" && IsEdgeOf(k.edge, seg) by { OnEdgeIs(k, text, q); }
    EdgeFirst(k.edge, seg);
    KidUnique(t, i, j);
    assert seg[..|seg|] == seg;
    OnEdgeIs(k, text, q);
    assert (Chars(e) + key)[|e|..] == key;
  }

  lemma OnEdgeIs(k: Tree, text: string, q: Route)
    requires Seg(text) != "" && OnEdge(k, text, q)
    ensures k.kind == Static && k.edge != "" && IsEdgeOf(k.edge, Seg(text))
    ensures |k.edge| == |Seg(text)| ==> Registered(k, Rest(text), q)
  {
    hide Registered, OnEdges;
  }

  lemma OnEdgesKid(t: Tree, text: string, q: Route) returns (k: Tree)
    requires Seg(text) != "" && OnEdges(t, text, q)
    ensures k in t.kids && OnEdge(k, text, q)
  {
    k :| k in t.kids && OnEdge(k, text, q);
  }

  // ---- Every reachable trie ----

  ghost predicate DistinctRoutes(attempts: seq<Attempt>) {
    forall i, j :: 0 <= i < j < |attempts| && Succeeded(attempts, i) && Succeeded(attempts, j)
                   ==> attempts[i].route != attempts[j].route
  }

  /** The route belongs to a pattern the path is an instance of. */
  ghost predicate InstanceFor(attempts: seq<Attempt>, path: string, q: Route) {
    exists i :: 0 <= i < |attempts| && Succeeded(attempts, i) && q == attempts[i].route
                && Instance(attempts[i].pattern, path)
  }

  ghost predicate FindsOnlyInstances(attempts: seq<Attempt>) {
    forall path :: LookupPath(Build(attempts), path).Some?
      ==> InstanceFor(attempts, path, LookupPath(Build(attempts), path).value.route)
  }

  /** In a trie that is not blurred, whatever is found belongs to a pattern the path is an instance of. */
  lemma ClearFindsInstances(attempts: seq<Attempt>, path: string)
    requires !Blurred(Build(attempts), MAX_PATH_PARAMS) && LookupPath(Build(attempts), path).Some?
    ensures InstanceFor(attempts, path, LookupPath(Build(attempts), path).value.route)
  {
    hide Insert, Lookup, HasKey, Key, Registered, Shape, Blurred, Instance, Build;
    var t, q := Build(attempts), LookupPath(Build(attempts), path).value.route;
    BuildShape(attempts);
    var key := ClearFinds(t, MAX_PATH_PARAMS, path, []);
    BuildKeys(attempts, key, q);
    var i :| 0 <= i < |attempts| && Succeeded(attempts, i) && key == Key(attempts[i].pattern)
        && q == attempts[i].route;
    RegisteredForever(attempts, i);
  }

  lemma BlurredFindsMore(attempts: seq<Attempt>)
    requires DistinctRoutes(attempts) && Blurred(Build(attempts), MAX_PATH_PARAMS)
    ensures !FindsOnlyInstances(attempts)
  {
    hide Insert, Lookup, HasKey, Key, Registered, Shape, Blurred, Instance, Build, Succeeded;
    var t := Build(attempts);
    BuildShape(attempts);
    var p1, p2, key, q := Confused(t, MAX_PATH_PARAMS, []);
    BuildKeys(attempts, key, q);
    var i :| 0 <= i < |attempts| && Succeeded(attempts, i) && key == Key(attempts[i].pattern)
        && q == attempts[i].route;
    assert LookupPath(t, p1).Some? && LookupPath(t, p1).value.route == q;
    assert LookupPath(t, p2).Some? && LookupPath(t, p2).value.route == q;
  }

  /**
   For patterns of every kind, inserted with or without success, and distinct routes: lookup finds
   only instances if and only if the trie is not blurred.
   */
  lemma OnlyInstancesExactly(attempts: seq<Attempt>)
    requires DistinctRoutes(attempts)
    ensures FindsOnlyInstances(attempts) <==> !Blurred(Build(attempts), MAX_PATH_PARAMS)
  {
    hide Build, Succeeded, Blurred, LookupPath, InstanceFor, DistinctRoutes;
    if Blurred(Build(attempts), MAX_PATH_PARAMS) {
      BlurredFindsMore(attempts);
    } else {
      forall path | LookupPath(Build(attempts), path).Some?
        ensures InstanceFor(attempts, path, LookupPath(Build(attempts), path).value.route)
      {
        ClearFindsInstances(attempts, path);
      }
    }
  }
}
