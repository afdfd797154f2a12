/**
 A registered pattern stays registered through every later insertion, every instance of it is
 found, an all-static pattern's own text finds its own handler, and whatever lookup finds was
 registered under a pattern that matches the path with the slashes erased.
 */
module RadixPersistence {
  import opened Options
  import opened RadixSpec
  import opened RadixShape
  import opened RadixContents
  import opened RadixLookup

  // ---- Registered patterns ----

  /** Walking the pattern `rest` from `t`, segment by segment, ends at the route `q`. */
  ghost predicate Registered(t: Tree, rest: string, q: Route)
    decreases |rest|, 1
  {
    var text := Skip(rest);
    var seg, next := Seg(text), Rest(text);
    if seg == "" then t.route == Some(q)
    else if seg[0] == '*' then
      next == "" && exists c :: c in t.kids && c.kind == Wildcard && c.name == seg[1..] && c.route == Some(q)
    else if seg[0] == ':' then exists c :: c in t.kids && c.kind == Param && c.name == seg[1..]
                                           && Registered(c, next, q)
    else OnEdges(t, text, q)
  }

  /** The same for the rest of a static segment, along one or several edges. */
  ghost predicate OnEdges(t: Tree, text: string, q: Route)
    requires Seg(text) != ""
    decreases |text|, 0
  {
    exists c :: c in t.kids && OnEdge(c, text, q)
  }

  ghost predicate OnEdge(c: Tree, text: string, q: Route)
    requires Seg(text) != ""
    decreases |text|, 0, 0
  {
    && c.kind == Static && c.edge != "" && IsEdgeOf(c.edge, Seg(text))
    && if |c.edge| == |Seg(text)| then Registered(c, Rest(text), q)
       else
         SegDrop(text, |c.edge|);
         OnEdges(c, text[|c.edge|..], q)
  }

  // ---- Insertion only adds ----

  /** Everything registered below `t` is registered below `t'`. */
  ghost predicate Grows(t: Tree, t': Tree) {
    && (forall rest, q :: Registered(t, rest, q) ==> Registered(t', rest, q))
    && (forall text, q :: Seg(text) != "" && OnEdges(t, text, q) ==> OnEdges(t', text, q))
  }

  ghost predicate EdgeGrows(c: Tree, c': Tree) {
    forall text, q :: Seg(text) != "" && OnEdge(c, text, q) ==> OnEdge(c', text, q)
  }

  /** `c'` can stand in for the child `c`. */
  ghost predicate Replaces(c: Tree, c': Tree) {
    && c'.kind == c.kind && c'.name == c.name
    && (c.route.Some? && c.kind == Wildcard ==> c'.route == c.route)
    && (c.kind == Static ==> EdgeGrows(c, c'))
    && (c.kind == Param ==> Grows(c, c'))
  }

  ghost predicate KidsReplaced(t: Tree, t': Tree) {
    && (t.route.Some? ==> t'.route == t.route)
    && forall c :: c in t.kids ==> exists c' :: c' in t'.kids && Replaces(c, c')
  }

  lemma ReplacesSelf(c: Tree)
    ensures Replaces(c, c)
  {
    hide Registered, OnEdge, OnEdges;
  }

  lemma KidsReplacedGrows(t: Tree, t': Tree)
    requires KidsReplaced(t, t')
    ensures Grows(t, t')
  {
    forall rest, q | Registered(t, rest, q) ensures Registered(t', rest, q) {
      RegisteredGrows(t, t', rest, q);
    }
    forall text, q | Seg(text) != "" && OnEdges(t, text, q) ensures OnEdges(t', text, q) {
      EdgesGrow(t, t', text, q);
    }
  }

  lemma EdgesGrow(t: Tree, t': Tree, text: string, q: Route)
    requires KidsReplaced(t, t') && Seg(text) != "" && OnEdges(t, text, q)
    ensures OnEdges(t', text, q)
  {
    hide OnEdge, Grows;
    var c :| c in t.kids && OnEdge(c, text, q);
    assert c.kind == Static by { OnEdgeStatic(c, text, q); }
    var c' :| c' in t'.kids && Replaces(c, c');
    assert OnEdge(c', text, q);
  }

  lemma OnEdgeStatic(c: Tree, text: string, q: Route)
    requires Seg(text) != "" && OnEdge(c, text, q)
    ensures c.kind == Static
  {
  }

  lemma RegisteredGrows(t: Tree, t': Tree, rest: string, q: Route)
    requires KidsReplaced(t, t') && Registered(t, rest, q)
    ensures Registered(t', rest, q)
  {
    hide OnEdges, EdgeGrows;
    var text := Skip(rest);
    var seg, next := Seg(text), Rest(text);
    if seg != "" {
      if seg[0] == '*' {
        var c :| c in t.kids && c.kind == Wildcard && c.name == seg[1..] && c.route == Some(q);
        var c' :| c' in t'.kids && Replaces(c, c');
        assert c'.kind == Wildcard && c'.name == seg[1..] && c'.route == Some(q);
      } else if seg[0] == ':' {
        var c :| c in t.kids && c.kind == Param && c.name == seg[1..] && Registered(c, next, q);
        var c' :| c' in t'.kids && Replaces(c, c');
        assert Registered(c', next, q);
      } else {
        EdgesGrow(t, t', text, q);
      }
    }
  }

  lemma WithChildGrows(t: Tree, i: nat, p: (Tree, Status))
    requires i < |t.kids| && Replaces(t.kids[i], p.0)
    ensures Grows(t, WithChild(t, i, p).0)
  {
    hide Replaces, Grows;
    var t' := WithChild(t, i, p).0;
    forall c | c in t.kids ensures exists c' :: c' in t'.kids && Replaces(c, c') {
      var j :| 0 <= j < |t.kids| && t.kids[j] == c;
      ReplacesSelf(c);
      assert t'.kids[j] in t'.kids && Replaces(c, t'.kids[j]);
    }
    KidsReplacedGrows(t, t');
  }

  lemma WithNewChildGrows(t: Tree, p: (Tree, Status))
    ensures Grows(t, WithNewChild(t, p).0)
  {
    hide Replaces, Grows, AddChild;
    var t' := WithNewChild(t, p).0;
    forall c | c in t.kids ensures exists c' :: c' in t'.kids && Replaces(c, c') {
      ReplacesSelf(c);
      assert c in t'.kids;
    }
    KidsReplacedGrows(t, t');
  }

  /** A static child whose contents grow keeps the routes on its edge. */
  lemma SameEdgeGrows(c: Tree, c': Tree)
    requires c.kind == Static && SameNode(c, c') && Grows(c, c')
    ensures EdgeGrows(c, c')
  {
    hide Registered, OnEdges;
    forall text, q | Seg(text) != "" && OnEdge(c, text, q) ensures OnEdge(c', text, q) {
      if |c.edge| < |Seg(text)| { SegDrop(text, |c.edge|); }
    }
  }

  lemma SplitEdge(c: Tree, n: nat, text: string, q: Route)
    requires c.kind == Static && 0 < n < |c.edge| && Seg(text) != "" && OnEdge(c, text, q)
    ensures OnEdge(Split(c, n), text, q)
  {
    hide Registered, SegLen, OnEdges;
    var mid, low := Split(c, n), c.(edge := c.edge[n..]);
    SegDrop(text, n);
    LowerHalf(c, n, text, q);
    hide OnEdge;
    assert IsEdgeOf(mid.edge, Seg(text));
    LowInMid(mid, low, text[n..], q);
    MidOnEdge(mid, text, n, q);
  }

  /** What was on the edge is on its lower half, from where the upper half ends. */
  lemma LowerHalf(c: Tree, n: nat, text: string, q: Route)
    requires c.kind == Static && 0 < n < |c.edge| && Seg(text) != "" && OnEdge(c, text, q)
    ensures
      n < |Seg(text)| && IsEdgeOf(c.edge[..n], Seg(text)) && Seg(text[n..]) != ""
          && OnEdge(c.(edge := c.edge[n..]), text[n..], q)
  {
    hide Registered, SegLen, OnEdges;
    var low, seg, text' := c.(edge := c.edge[n..]), Seg(text), text[n..];
    SegDrop(text, n);
    assert IsEdgeOf(c.edge[..n], seg) && IsEdgeOf(low.edge, Seg(text'));
    if |c.edge| == |seg| {
      LowRegistered(c, low, Rest(text), q);
    } else {
      SegDrop(text, |c.edge|);
      SegDrop(text', |low.edge|);
      assert text'[|low.edge|..] == text[|c.edge|..];
      LowEdges(c, low, text[|c.edge|..], q);
    }
  }

  lemma LowInMid(mid: Tree, low: Tree, text: string, q: Route)
    requires mid.kids == [low] && Seg(text) != "" && OnEdge(low, text, q)
    ensures OnEdges(mid, text, q)
  {
    hide OnEdge;
    assert low in mid.kids;
  }

  lemma MidOnEdge(mid: Tree, text: string, n: nat, q: Route)
    requires mid.kind == Static && |mid.edge| == n && 0 < n < |Seg(text)| && IsEdgeOf(mid.edge, Seg(text))
    requires Seg(text[n..]) != "" && OnEdges(mid, text[n..], q)
    ensures OnEdge(mid, text, q)
  {
    hide OnEdges, SegLen;
  }

  lemma LowRegistered(c: Tree, low: Tree, rest: string, q: Route)
    requires low.kids == c.kids && low.route == c.route
    ensures Registered(low, rest, q) <==> Registered(c, rest, q)
  {
    hide OnEdges;
    if Seg(Skip(rest)) != "" { LowEdges(c, low, Skip(rest), q); }
  }

  lemma LowEdges(c: Tree, low: Tree, text: string, q: Route)
    requires low.kids == c.kids && Seg(text) != ""
    ensures OnEdges(low, text, q) <==> OnEdges(c, text, q)
  {
  }

  lemma SplitGrows(c: Tree, n: nat)
    requires c.kind == Static && 0 < n < |c.edge|
    ensures EdgeGrows(c, Split(c, n))
  {
    forall text, q | Seg(text) != "" && OnEdge(c, text, q) ensures OnEdge(Split(c, n), text, q) {
      SplitEdge(c, n, text, q);
    }
  }

  lemma EdgeGrowsTrans(a: Tree, b: Tree, c: Tree)
    requires EdgeGrows(a, b) && EdgeGrows(b, c)
    ensures EdgeGrows(a, c)
  {
    hide OnEdge;
  }

  lemma StaticReplaces(c: Tree, c': Tree)
    requires c.kind == Static && c'.kind == Static && c'.name == c.name && EdgeGrows(c, c')
    ensures Replaces(c, c')
  {
  }

  lemma SetRouteGrows(t: Tree, r: Route)
    ensures Grows(t, SetRoute(t, r).0)
  {
    hide Grows, Replaces;
    forall c | c in t.kids ensures Replaces(c, c) { ReplacesSelf(c); }
    KidsReplacedGrows(t, SetRoute(t, r).0);
  }

  /** No insertion, successful or not, loses a registered pattern. */
  lemma {:induction false} InsertGrows(t: Tree, rest: string, r: Route)
    requires Shape(t) && t.kind != Wildcard
    ensures Grows(t, Insert(t, rest, r).0)
    decreases |rest|, 1
  {
    hide Grows, Replaces, Shape, AddChild, InsertStatic;
    var text := Skip(rest);
    var seg, next := Seg(text), Rest(text);
    GrowsSelf(t);
    if seg == "" {
      SetRouteGrows(t, r);
    } else if seg[0] == '*' {
      var j := FindKind(t.kids, Wildcard);
      if j == |t.kids| {
        WithNewChildGrows(t, (WildcardNode(seg[1..], r), Inserted));
      } else {
        assert SetRoute(t.kids[j], r) == (t.kids[j], Exists) by { WildcardHasRoute(t, j); }
        assert t.kids[j := t.kids[j]] == t.kids;
      }
    } else if seg[0] == ':' {
      var j := FindKind(t.kids, Param);
      if j == |t.kids| {
        WithNewChildGrows(t, Insert(ParamNode(seg[1..]), next, r));
      } else {
        KidShape(t, j);
        InsertGrows(t.kids[j], next, r);
        InsertShape(t.kids[j], next, r);
        ParamReplaces(t.kids[j], Insert(t.kids[j], next, r).0);
        WithChildGrows(t, j, Insert(t.kids[j], next, r));
      }
    } else {
      InsertStaticGrows(t, text, r);
    }
  }

  lemma GrowsSelf(t: Tree)
    ensures Grows(t, t)
  {
    hide Registered, OnEdges;
  }

  lemma WildcardHasRoute(t: Tree, j: nat)
    requires Shape(t) && j < |t.kids| && t.kids[j].kind == Wildcard
    ensures t.kids[j].route.Some?
  {
    KidShape(t, j);
  }

  lemma ParamReplaces(c: Tree, c': Tree)
    requires c.kind == Param && SameNode(c, c') && Grows(c, c')
    ensures Replaces(c, c')
  {
  }

  lemma {:induction false} InsertStaticGrows(t: Tree, text: string, r: Route)
    requires Shape(t) && t.kind != Wildcard && Seg(text) != ""
    ensures Grows(t, InsertStatic(t, text, r).0)
    decreases |text|, 0
  {
    hide Grows, EdgeGrows, Replaces, Shape, NodeOk, AddChild, Insert, CommonPrefixLen;
    var seg, next := Seg(text), Rest(text);
    var i := FindShared(t.kids, seg);
    if i == |t.kids| {
      WithNewChildGrows(t, Insert(StaticNode(seg), next, r));
    } else {
      var child := t.kids[i];
      KidShape(t, i);
      assert child.name == "" by { StaticOk(child, child); StaticName(child); }
      var n := CommonPrefixLen(seg, child.edge);
      var p;
      if n < |child.edge| {
        var mid := Split(child, n);
        SplitGrows(child, n);
        SplitShape(child, n);
        if n == |seg| {
          p := Insert(mid, next, r);
          InsertGrows(mid, next, r);
          InsertShape(mid, next, r);
        } else {
          p := WithNewChild(mid, Insert(StaticNode(seg[n..]), next, r));
          WithNewChildGrows(mid, Insert(StaticNode(seg[n..]), next, r));
        }
        SameEdgeGrows(mid, p.0);
        EdgeGrowsTrans(child, mid, p.0);
      } else {
        if n == |seg| {
          p := Insert(child, next, r);
          InsertGrows(child, next, r);
          InsertShape(child, next, r);
        } else {
          SegDrop(text, n);
          p := InsertStatic(child, text[n..], r);
          InsertStaticGrows(child, text[n..], r);
          InsertStaticShape(child, text[n..], r);
        }
        SameEdgeGrows(child, p.0);
      }
      StaticReplaces(child, p.0);
      WithChildGrows(t, i, p);
    }
  }

  lemma StaticName(c: Tree)
    requires c.kind == Static && NodeOk(c)
    ensures c.name == ""
  {
  }

  // ---- A successful insertion registers its pattern ----

  lemma {:induction false} InsertRegisters(t: Tree, rest: string, r: Route)
    requires Insert(t, rest, r).1 == Inserted && Shape(t) && t.kind != Wildcard
    ensures Registered(Insert(t, rest, r).0, rest, r)
    decreases |rest|, 1
  {
    hide AddChild, InsertStatic, OnEdges, Shape;
    var text := Skip(rest);
    var seg, next := Seg(text), Rest(text);
    var t' := Insert(t, rest, r).0;
    if seg != "" {
      if seg[0] == '*' {
        var j := FindKind(t.kids, Wildcard);
        if j == |t.kids| {
          assert WildcardNode(seg[1..], r) in t'.kids;
        } else {
          WildcardHasRoute(t, j);
        }
      } else if seg[0] == ':' {
        var j := FindKind(t.kids, Param);
        var c := if j == |t.kids| then ParamNode(seg[1..]) else t.kids[j];
        assert Shape(c) by { if j < |t.kids| { KidShape(t, j); } else { FreshShape(c); } }
        InsertRegisters(c, next, r);
        InsertShape(c, next, r);
        var c' := Insert(c, next, r).0;
        assert c' in t'.kids by { if j < |t.kids| { assert t'.kids[j] == c'; } }
      } else {
        InsertStaticRegisters(t, text, r);
      }
    }
  }

  lemma FullEdge(c: Tree, text: string, r: Route)
    requires Seg(text) != "" && c.kind == Static && c.edge == Seg(text) && Registered(c, Rest(text), r)
    ensures OnEdge(c, text, r)
  {
    hide Registered;
  }

  lemma PartEdge(c: Tree, text: string, n: nat, r: Route)
    requires 0 < n < |Seg(text)| && c.kind == Static && c.edge == Seg(text)[..n]
    requires Seg(text[n..]) != "" && OnEdges(c, text[n..], r)
    ensures OnEdge(c, text, r)
  {
    hide OnEdges, SegLen;
  }

  lemma {:induction false} InsertStaticRegisters(t: Tree, text: string, r: Route)
    requires Seg(text) != "" && InsertStatic(t, text, r).1 == Inserted && Shape(t) && t.kind != Wildcard
    ensures OnEdges(InsertStatic(t, text, r).0, text, r)
    decreases |text|, 0
  {
    hide AddChild, Insert, OnEdge, Shape, NodeOk, CommonPrefixLen, Registered;
    var seg, next := Seg(text), Rest(text);
    var t' := InsertStatic(t, text, r).0;
    var i := FindShared(t.kids, seg);
    SlashFree(text, 0);
    if i == |t.kids| {
      NewBranch(text, 0, r);
      assert text[0..] == text;
      assert Insert(StaticNode(seg[0..]), next, r).0 in t'.kids by { assert seg[0..] == seg; }
    } else {
      var child := t.kids[i];
      KidShape(t, i);
      var n := CommonPrefixLen(seg, child.edge);
      var c;
      if n < |child.edge| {
        var mid := Split(child, n);
        SplitShape(child, n);
        if n == |seg| {
          c := Insert(mid, next, r).0;
          InsertRegisters(mid, next, r);
          InsertShape(mid, next, r);
          assert seg[..n] == seg;
          FullEdge(c, text, r);
        } else {
          c := WithNewChild(mid, Insert(StaticNode(seg[n..]), next, r)).0;
          SegDrop(text, n);
          NewBranch(text, n, r);
          assert Insert(StaticNode(seg[n..]), next, r).0 in c.kids;
          PartEdge(c, text, n, r);
        }
      } else if n == |seg| {
        c := Insert(child, next, r).0;
        InsertRegisters(child, next, r);
        InsertShape(child, next, r);
        assert seg[..n] == seg && child.edge[..n] == child.edge;
        FullEdge(c, text, r);
      } else {
        SegDrop(text, n);
        c := InsertStatic(child, text[n..], r).0;
        InsertStaticRegisters(child, text[n..], r);
        InsertStaticShape(child, text[n..], r);
        assert child.edge[..n] == child.edge;
        PartEdge(c, text, n, r);
      }
      assert t'.kids[i] == c;
    }
  }

  lemma {:induction false} NewBranch(text: string, n: nat, r: Route)
    requires n < |Seg(text)| && Insert(StaticNode(Seg(text)[n..]), Rest(text), r).1 == Inserted
    ensures Seg(text[n..]) != "" && OnEdge(Insert(StaticNode(Seg(text)[n..]), Rest(text), r).0, text[n..], r)
    decreases |Rest(text)|, 2
  {
    hide Insert, OnEdge, Registered, Shape, NodeOk, SegLen;
    var edge, next := Seg(text)[n..], Rest(text);
    assert '/' !in edge by { SlashFree(text, n); }
    SegDrop(text, n);
    NewStatic(edge);
    InsertRegisters(StaticNode(edge), next, r);
    InsertShape(StaticNode(edge), next, r);
    FullEdge(Insert(StaticNode(edge), next, r).0, text[n..], r);
  }

  /** Once registered, registered after every further attempt. */
  lemma {:induction false} RegisteredForever(attempts: seq<Attempt>, i: nat)
    requires i < |attempts| && Succeeded(attempts, i)
    ensures Registered(Build(attempts), attempts[i].pattern, attempts[i].route)
    decreases |attempts|
  {
    hide Insert, Registered, OnEdges;
    var n := |attempts| - 1;
    var before, last := attempts[..n], attempts[n];
    BuildShape(before);
    if i == n {
      InsertRegisters(Build(before), last.pattern, last.route);
    } else {
      assert before[..i] == attempts[..i];
      RegisteredForever(before, i);
      InsertGrows(Build(before), last.pattern, last.route);
    }
  }

  // ---- Instances are found ----

  /** `path` is an instance of the pattern `rest`, segment by segment. */
  predicate Instance(rest: string, path: string)
    decreases |rest|
  {
    var text, ptext := Skip(rest), Skip(path);
    var seg, next := Seg(text), Rest(text);
    if seg == "" then ptext == ""
    else
      && ptext != ""
      && (seg[0] == '*' || (Instance(next, Rest(ptext)) && (seg[0] == ':' || Seg(ptext) == seg)))
  }

  /** How many captures an instance of the pattern makes. */
  function Captures(rest: string): nat
    decreases |rest|
  {
    var seg, next := Seg(Skip(rest)), Rest(Skip(rest));
    if seg == "" then 0
    else if seg[0] == '*' then 1
    else if seg[0] == ':' then 1 + Captures(next)
    else Captures(next)
  }

  lemma ParamDerives(t: Tree, path: string, i: nat, caps: seq<Capture>, sub: seq<nat>, m: Match)
    requires Skip(path) != "" && i < |t.kids| && t.kids[i].kind == Param && |caps| < MAX_PATH_PARAMS
    requires Derives(t.kids[i], Rest(Skip(path)), caps + [Capture(t.kids[i].name, Seg(Skip(path)))], sub, m)
    ensures Derives(t, path, caps, [i] + sub, m)
  {
    assert ([i] + sub)[1..] == sub;
  }

  lemma WildcardDerives(t: Tree, path: string, i: nat, caps: seq<Capture>)
    requires Skip(path) != "" && i < |t.kids| && t.kids[i].kind == Wildcard && t.kids[i].route.Some?
             && |caps| < MAX_PATH_PARAMS
    ensures Derives(t, path, caps, [i], Match(t.kids[i].route.value, caps + [Capture(t.kids[i].name, Skip(path))]))
  {
    assert [i][1..] == [];
  }

  lemma EdgeDerives(t: Tree, path: string, caps: seq<Capture>, ways: seq<nat>, m: Match)
    requires Skip(path) != "" && DerivesEdge(t, Skip(path), caps, ways, m)
    ensures Derives(t, path, caps, ways, m)
  {
  }

  lemma AfterDerivesEdge(t: Tree, text: string, i: nat, caps: seq<Capture>, sub: seq<nat>, m: Match)
    requires i < |t.kids| && After(t.kids[i], text, caps, sub, m)
    ensures DerivesEdge(t, text, caps, [i] + sub, m)
  {
    hide Derives;
    assert ([i] + sub)[1..] == sub;
  }

  lemma {:induction false} InstanceDerives(t: Tree, rest: string, q: Route, path: string, caps: seq<Capture>)
    returns (ways: seq<nat>, m: Match)
    requires Registered(t, rest, q) && Instance(rest, path) && |caps| + Captures(rest) <= MAX_PATH_PARAMS
    ensures Derives(t, path, caps, ways, m) && m.route == q
    decreases |rest|, 1
  {
    hide OnEdges, DerivesEdge;
    var text, ptext := Skip(rest), Skip(path);
    var seg, next := Seg(text), Rest(text);
    if seg == "" {
      ways, m := [], Match(q, caps);
    } else {
      hide Derives;
      if seg[0] == '*' {
        var c :| c in t.kids && c.kind == Wildcard && c.name == seg[1..] && c.route == Some(q);
        var i :| 0 <= i < |t.kids| && t.kids[i] == c;
        ways, m := [i], Match(q, caps + [Capture(c.name, ptext)]);
        WildcardDerives(t, path, i, caps);
      } else if seg[0] == ':' {
        var c :| c in t.kids && c.kind == Param && c.name == seg[1..] && Registered(c, next, q);
        var i :| 0 <= i < |t.kids| && t.kids[i] == c;
        ways, m := InstanceDerives(c, next, q, Rest(ptext), caps + [Capture(c.name, Seg(ptext))]);
        ParamDerives(t, path, i, caps, ways, m);
        ways := [i] + ways;
      } else {
        ways, m := InstanceOnEdges(t, text, q, ptext, caps);
        EdgeDerives(t, path, caps, ways, m);
      }
    }
  }

  lemma {:induction false} InstanceOnEdges(t: Tree, text: string, q: Route, ptext: string, caps: seq<Capture>)
    returns (ways: seq<nat>, m: Match)
    requires Seg(text) != "" && OnEdges(t, text, q) && Seg(ptext) == Seg(text)
    requires Instance(Rest(text), Rest(ptext)) && |caps| + Captures(Rest(text)) <= MAX_PATH_PARAMS
    ensures DerivesEdge(t, ptext, caps, ways, m) && m.route == q
    decreases |text|, 0
  {
    hide Registered, Derives, DerivesEdge, Instance, Captures, SegLen;
    var c :| c in t.kids && OnEdge(c, text, q);
    var i :| 0 <= i < |t.kids| && t.kids[i] == c;
    if |c.edge| == |Seg(text)| {
      ways, m := InstanceDerives(c, Rest(text), q, Rest(ptext), caps);
    } else {
      SegDrop(text, |c.edge|);
      SegDrop(ptext, |c.edge|);
      ways, m := InstanceOnEdges(c, text[|c.edge|..], q, ptext[|c.edge|..], caps);
    }
    assert After(c, ptext, caps, ways, m);
    AfterDerivesEdge(t, ptext, i, caps, ways, m);
    ways := [i] + ways;
  }

  /** Every instance of a successfully inserted pattern is found, whatever was inserted later. */
  lemma InstancesFound(attempts: seq<Attempt>, i: nat, path: string)
    requires i < |attempts| && Succeeded(attempts, i) && Captures(attempts[i].pattern) <= MAX_PATH_PARAMS
    requires path != "" && Instance(attempts[i].pattern, path)
    ensures LookupPath(Build(attempts), path).Some?
  {
    hide Insert, Registered, Lookup, Derives;
    RegisteredForever(attempts, i);
    BuildShape(attempts);
    var t, a := Build(attempts), attempts[i];
    var ways, m := InstanceDerives(t, a.pattern, a.route, path, []);
    var _ := LookupFirst(t, path, []);
  }

  // ---- A static pattern's own text ----

  /** Only static segments, none of them empty. */
  predicate AllStatic(rest: string)
    decreases |rest|
  {
    var text := Skip(rest);
    var seg := Seg(text);
    if seg == "" then text == "" else seg[0] != '*' && seg[0] != ':' && AllStatic(Rest(text))
  }

  lemma EdgeFirst(edge: string, seg: string)
    ensures IsEdgeOf(edge, seg) && edge != "" ==> seg != "" && seg[0] == edge[0]
  {
    assert IsEdgeOf(edge, seg) && edge != "" ==> seg[..|edge|][0] == seg[0];
  }

  lemma {:induction false} SkipOthers(t: Tree, text: string, i: nat, k: nat, caps: seq<Capture>)
    requires Shape(t) && i <= k < |t.kids| && Seg(text) != ""
    requires t.kids[k].kind == Static && t.kids[k].edge != "" && t.kids[k].edge[0] == Seg(text)[0]
    ensures LookupStatic(t, text, i, caps) == LookupStatic(t, text, k, caps)
    decreases k - i
  {
    if i < k {
      KidShape(t, i);
      assert Before(t.kids[i], t.kids[k]);
      EdgeFirst(t.kids[i].edge, Seg(text));
      SkipOthers(t, text, i + 1, k, caps);
    }
  }

  lemma {:induction false} OwnText(t: Tree, rest: string, q: Route, caps: seq<Capture>)
    requires Shape(t) && Registered(t, rest, q) && AllStatic(rest)
    ensures Lookup(t, rest, caps) == Some(Match(q, caps))
    decreases |rest|, 1
  {
    hide LookupStatic, LookupParam, LookupWildcard, OnEdges, Shape;
    var text := Skip(rest);
    if Seg(text) != "" { OwnEdges(t, text, q, caps); }
  }

  lemma {:induction false} OwnEdges(t: Tree, text: string, q: Route, caps: seq<Capture>)
    requires Shape(t) && Seg(text) != "" && OnEdges(t, text, q) && AllStatic(Rest(text))
    ensures LookupStatic(t, text, 0, caps) == Some(Match(q, caps))
    decreases |text|, 0
  {
    hide Shape, Registered, AllStatic;
    var c :| c in t.kids && OnEdge(c, text, q);
    var k :| 0 <= k < |t.kids| && t.kids[k] == c;
    KidShape(t, k);
    assert Seg(text)[..|c.edge|][0] == Seg(text)[0];
    SkipOthers(t, text, 0, k, caps);
    if |c.edge| == |Seg(text)| {
      OwnText(c, Rest(text), q, caps);
    } else {
      SegDrop(text, |c.edge|);
      OwnEdges(c, text[|c.edge|..], q, caps);
    }
  }

  /** An all-static pattern's own text finds its own handler and captures nothing. */
  lemma OwnTextFound(attempts: seq<Attempt>, i: nat)
    requires i < |attempts| && Succeeded(attempts, i) && AllStatic(attempts[i].pattern)
    ensures LookupPath(Build(attempts), attempts[i].pattern) == Some(Match(attempts[i].route, []))
  {
    hide Insert, Registered, Lookup;
    RegisteredForever(attempts, i);
    BuildShape(attempts);
    OwnText(Build(attempts), attempts[i].pattern, attempts[i].route, []);
  }

  // ---- What is found was registered ----

  /**
   `path` matches a slash-erased pattern: slashes may be skipped anywhere, a parameter takes
   a segment, a wildcard takes all that is left.
   */
  ghost predicate Matches(key: seq<Tok>, path: string, vs: seq<Capture>)
    decreases |path|, |key|
  {
    || (path != "" && path[0] == '/' && Matches(key, path[1..], vs))
    || (key == [] && path == "" && vs == [])
    || (key != [] && key[0].Ch? && path != "" && path[0] == key[0].c && Matches(key[1..], path[1..], vs))
    || (key != [] && key[0].Par? && vs != [] && vs[0] == Capture(key[0].name, Seg(path))
       && Matches(key[1..], Rest(path), vs[1..]))
    || (key != [] && key[0].Wild? && key[1..] == [] && path != "" && vs == [Capture(key[0].name, path)])
  }

  lemma MatchesSkip(key: seq<Tok>, path: string, vs: seq<Capture>)
    requires Matches(key, Skip(path), vs)
    ensures Matches(key, path, vs)
  {
  }

  lemma {:induction false} MatchesEdge(edge: string, key: seq<Tok>, path: string, vs: seq<Capture>)
    requires |edge| <= |path| && path[..|edge|] == edge && Matches(key, path[|edge|..], vs)
    ensures Matches(Chars(edge) + key, path, vs)
    decreases |edge|
  {
    if edge == "" {
      assert Chars(edge) + key == key && path[0..] == path;
    } else {
      assert path[1..][..|edge| - 1] == edge[1..] by { assert path[1..|edge|] == path[..|edge|][1..]; }
      assert path[1..][|edge| - 1..] == path[|edge|..];
      MatchesEdge(edge[1..], key, path[1..], vs);
      var k := Chars(edge) + key;
      assert k[1..] == Chars(edge[1..]) + key;
    }
  }

  lemma {:induction false} DerivedMatches(t: Tree, path: string, caps: seq<Capture>, ways: seq<nat>, m: Match)
    returns (key: seq<Tok>, vs: seq<Capture>)
    requires Derives(t, path, caps, ways, m)
    ensures HasKey(t, key, m.route) && m.captures == caps + vs && Matches(key, path, vs)
    decreases |ways|, 1
  {
    var text := Skip(path);
    if text == "" {
      key, vs := [], [];
    } else {
      var c := t.kids[ways[0]];
      match c.kind
      case Static =>
        key, vs := DerivedEdgeMatches(t, text, caps, ways, m);
      case Param =>
        var v := Capture(c.name, Seg(text));
        key, vs := DerivedMatches(c, Rest(text), caps + [v], ways[1..], m);
        key, vs := [Par(c.name)] + key, [v] + vs;
        ParamStep(t, c, ways[0], key, m.route);
        assert Matches(key, text, vs);
      case Wildcard =>
        key, vs := [Wild(c.name)], [Capture(c.name, text)];
        assert Through(t.kids[ways[0]], key, m.route);
        assert key[1..] == [];
        assert Matches(key, text, vs);
    }
    MatchesSkip(key, path, vs);
  }

  lemma ParamStep(t: Tree, c: Tree, i: nat, key: seq<Tok>, q: Route)
    requires i < |t.kids| && t.kids[i] == c && c.kind == Param && key != [] && key[0] == Par(c.name)
             && HasKey(c, key[1..], q)
    ensures HasKey(t, key, q)
  {
    hide HasKey;
    assert Through(t.kids[i], key, q);
    ThroughHasKey(t, i, key, q);
  }

  lemma ThroughHasKey(t: Tree, i: nat, key: seq<Tok>, q: Route)
    requires i < |t.kids| && Through(t.kids[i], key, q)
    ensures HasKey(t, key, q)
  {
    hide Through;
  }

  lemma EdgeStep(t: Tree, c: Tree, i: nat, key: seq<Tok>, q: Route)
    requires i < |t.kids| && t.kids[i] == c && c.kind == Static && HasKey(c, key, q)
    ensures HasKey(t, Chars(c.edge) + key, q)
  {
    hide HasKey;
    var k := Chars(c.edge) + key;
    assert k[..|c.edge|] == Chars(c.edge) && k[|c.edge|..] == key;
    assert Through(t.kids[i], k, q);
    ThroughHasKey(t, i, k, q);
  }

  lemma {:induction false} DerivedEdgeMatches(t: Tree, text: string, caps: seq<Capture>, ways: seq<nat>, m: Match)
    returns (key: seq<Tok>, vs: seq<Capture>)
    requires DerivesEdge(t, text, caps, ways, m)
    ensures HasKey(t, key, m.route) && m.captures == caps + vs && Matches(key, text, vs)
    decreases |ways|, 0
  {
    hide HasKey, Matches;
    var c := t.kids[ways[0]];
    var n := |c.edge|;
    assert text[..n] == c.edge by { assert Seg(text)[..n] == text[..n]; }
    if n == |Seg(text)| {
      key, vs := DerivedMatches(c, Rest(text), caps, ways[1..], m);
    } else {
      key, vs := DerivedEdgeMatches(c, text[n..], caps, ways[1..], m);
    }
    MatchesEdge(c.edge, key, text, vs);
    EdgeStep(t, c, ways[0], key, m.route);
    key := Chars(c.edge) + key;
  }

  /** A found route was registered by a successful insertion whose pattern, slashes erased, matches. */
  lemma FoundWasRegistered(attempts: seq<Attempt>, path: string)
    requires LookupPath(Build(attempts), path).Some?
    ensures
      var m := LookupPath(Build(attempts), path).value;
      exists i :: 0 <= i < |attempts| && Succeeded(attempts, i) && m.route == attempts[i].route
                  && Matches(Key(attempts[i].pattern), path, m.captures)
  {
    hide Insert, Lookup, Derives, HasKey, Matches, Key;
    var t, m := Build(attempts), LookupPath(Build(attempts), path).value;
    BuildShape(attempts);
    var ways := LookupFirst(t, path, []);
    var key, vs := DerivedMatches(t, path, [], ways, m);
    assert [] + vs == vs;
    BuildKeys(attempts, key, m.route);
  }
}
