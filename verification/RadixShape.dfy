/**
 The shape every trie built by insertions has, whatever succeeds or fails: children in lookup
 order, static edges non-empty and slash-free with distinct first characters, at most one
 parameter and one wildcard child, wildcards leaves with a handler.
 */
module RadixShape {
  import opened RadixSpec

  predicate NodeOk(c: Tree) {
    match c.kind
    case Static => c.edge != "" && '/' !in c.edge && c.name == ""
    case Param => c.edge == "" && c.name != "" && '/' !in c.name
    case Wildcard => c.edge == "" && c.name != "" && '/' !in c.name && c.kids == [] && c.route.Some?
  }

  /** `a` may stand before `b`. */
  predicate Before(a: Tree, b: Tree) {
    || a.kind.Rank() < b.kind.Rank()
    || (a.kind == b.kind == Static && a.edge != "" && b.edge != "" && a.edge[0] < b.edge[0])
  }

  predicate Ordered(kids: seq<Tree>) {
    forall i, j :: 0 <= i < j < |kids| ==> Before(kids[i], kids[j])
  }

  ghost predicate Shape(t: Tree) {
    Ordered(t.kids) && forall i :: 0 <= i < |t.kids| ==> NodeOk(t.kids[i]) && Shape(t.kids[i])
  }

  /** `c` has no rival among `kids` for its place. */
  predicate NoRival(kids: seq<Tree>, c: Tree) {
    forall i :: 0 <= i < |kids| && kids[i].kind == c.kind ==>
      c.kind == Static && c.edge != "" && kids[i].edge != "" && kids[i].edge[0] != c.edge[0]
  }

  lemma GoesBeforeIsBefore(c: Tree, k: Tree)
    requires NoRival([k], c)
    ensures GoesBefore(c, k) <==> Before(c, k)
    ensures !GoesBefore(c, k) ==> Before(k, c)
  {
    assert [k][0].kind == c.kind ==> c.kind == Static && c.edge != "" && k.edge != "" && k.edge[0] != c.edge[0];
  }

  lemma BeforeTrans(a: Tree, b: Tree, c: Tree)
    requires Before(a, b) && Before(b, c)
    ensures Before(a, c)
  {
  }

  lemma AddChildOrdered(kids: seq<Tree>, c: Tree)
    requires Ordered(kids) && NoRival(kids, c)
    ensures Ordered(AddChild(kids, c))
  {
    var p, r := AddPos(kids, c), AddChild(kids, c);
    forall i | 0 <= i < |kids|
      ensures if i < p then Before(kids[i], c) else Before(c, kids[i])
    {
      GoesBeforeIsBefore(c, kids[i]);
      if i >= p {
        GoesBeforeIsBefore(c, kids[p]);
        if i > p { BeforeTrans(c, kids[p], kids[i]); }
      }
    }
    forall i, j | 0 <= i < j < |r| ensures Before(r[i], r[j]) {
      var i', j' := if i < p then i else i - 1, if j < p then j else j - 1;
      if i != p && j != p {
        assert r[i] == kids[i'] && r[j] == kids[j'];
      } else if i == p {
        assert r[i] == c && r[j] == kids[j'];
      } else {
        assert r[i] == kids[i'] && r[j] == c;
      }
    }
  }

  lemma ReplaceOrdered(kids: seq<Tree>, i: nat, c: Tree)
    requires Ordered(kids) && i < |kids| && c.kind == kids[i].kind
    requires c.kind == Static ==> c.edge != "" && kids[i].edge != "" && c.edge[0] == kids[i].edge[0]
    ensures Ordered(kids[i := c])
  {
  }

  lemma AddChildShape(t: Tree, c: Tree)
    requires Shape(t) && NodeOk(c) && Shape(c) && NoRival(t.kids, c)
    ensures Shape(t.(kids := AddChild(t.kids, c)))
  {
    hide NodeOk;
    AddChildOrdered(t.kids, c);
    var r := AddChild(t.kids, c);
    forall i | 0 <= i < |r| ensures NodeOk(r[i]) && Shape(r[i]) { assert r[i] in r; }
  }

  lemma WithChildShape(t: Tree, i: nat, p: (Tree, Status))
    requires Shape(t) && i < |t.kids| && NodeOk(p.0) && Shape(p.0) && p.0.kind == t.kids[i].kind
    requires p.0.kind == Static ==> p.0.edge[0] == t.kids[i].edge[0]
    ensures Shape(WithChild(t, i, p).0)
  {
    ReplaceOrdered(t.kids, i, p.0);
  }

  lemma FreshShape(t: Tree)
    requires t.kids == []
    ensures Shape(t)
  {
  }

  lemma SplitShape(c: Tree, n: nat)
    requires NodeOk(c) && Shape(c) && c.kind == Static && 0 < n < |c.edge|
    ensures NodeOk(Split(c, n)) && Shape(Split(c, n))
  {
    var low := c.(edge := c.edge[n..]);
    assert Shape(low);
    assert Split(c, n).kids == [low];
  }

  /** What insertion never changes of a node: kind, edge, name; and a handler once set. */
  predicate SameNode(t: Tree, t': Tree) {
    t'.kind == t.kind && t'.edge == t.edge && t'.name == t.name && (t.route.Some? ==> t'.route == t.route)
  }

  /** Insertion keeps the shape and never overwrites a handler, whatever its outcome. */
  lemma {:induction false} InsertShape(t: Tree, rest: string, r: Route)
    requires Shape(t) && t.kind != Wildcard
    ensures Shape(Insert(t, rest, r).0) && SameNode(t, Insert(t, rest, r).0)
    decreases |rest|, 1
  {
    hide AddChild, Shape, NodeOk, InsertStatic;
    var text := Skip(rest);
    var seg, next := Seg(text), Rest(text);
    if seg == "" {
      SetRouteShape(t, r);
    } else if seg[0] == '*' {
      if next == "" && |seg| > 1 { InsertWildcardShape(t, seg[1..], r); }
    } else if seg[0] == ':' {
      if |seg| > 1 {
        var j := FindKind(t.kids, Param);
        if j == |t.kids| {
          var c := ParamNode(seg[1..]);
          FreshShape(c);
          InsertShape(c, next, r);
          var c' := Insert(c, next, r).0;
          assert NodeOk(c') by { ParamOk(c, c'); }
          assert NoRival(t.kids, c');
          AddChildShape(t, c');
        } else {
          KidShape(t, j);
          InsertShape(t.kids[j], next, r);
          assert NodeOk(Insert(t.kids[j], next, r).0) by { ParamOk(t.kids[j], Insert(t.kids[j], next, r).0); }
          WithChildShape(t, j, Insert(t.kids[j], next, r));
        }
      }
    } else {
      InsertStaticShape(t, text, r);
    }
  }

  lemma KidShape(t: Tree, j: nat)
    requires Shape(t) && j < |t.kids|
    ensures Shape(t.kids[j]) && NodeOk(t.kids[j])
  {
  }

  lemma ParamOk(c: Tree, c': Tree)
    requires (c.kind == Param && (NodeOk(c) || (c.edge == "" && c.name != "" && '/' !in c.name))) && SameNode(c, c')
    ensures NodeOk(c')
  {
  }

  lemma StaticOk(c: Tree, c': Tree)
    requires c.kind == Static && NodeOk(c) && SameNode(c, c')
    ensures NodeOk(c') && c'.edge != ""
  {
  }

  lemma SetRouteShape(t: Tree, r: Route)
    requires Shape(t)
    ensures Shape(SetRoute(t, r).0) && SameNode(t, SetRoute(t, r).0)
  {
  }

  lemma InsertWildcardShape(t: Tree, name: string, r: Route)
    requires Shape(t) && name != "" && '/' !in name
    ensures
      var j := FindKind(t.kids, Wildcard);
      if j == |t.kids| then Shape(WithNewChild(t, (WildcardNode(name, r), Inserted)).0)
      else Shape(WithChild(t, j, SetRoute(t.kids[j], r)).0)
  {
    hide AddChild;
    var j := FindKind(t.kids, Wildcard);
    if j == |t.kids| {
      var c := WildcardNode(name, r);
      FreshShape(c);
      AddChildShape(t, c);
    } else {
      KidShape(t, j);
      WithChildShape(t, j, SetRoute(t.kids[j], r));
    }
  }

  lemma NewStatic(edge: string)
    requires edge != "" && '/' !in edge
    ensures Shape(StaticNode(edge)) && NodeOk(StaticNode(edge))
  {
  }

  lemma SharedFirst(seg: string, edge: string)
    requires seg != "" && edge != ""
    ensures CommonPrefixLen(seg, edge) > 0 <==> seg[0] == edge[0]
  {
  }

  lemma NoSharedNoRival(t: Tree, seg: string, c: Tree)
    requires Shape(t) && seg != "" && FindShared(t.kids, seg) == |t.kids|
    requires c.kind == Static && c.edge == seg
    ensures NoRival(t.kids, c)
  {
    forall i | 0 <= i < |t.kids| && t.kids[i].kind == Static
      ensures t.kids[i].edge != "" && t.kids[i].edge[0] != seg[0]
    {
      KidShape(t, i);
      SharedFirst(seg, t.kids[i].edge);
    }
  }

  /** The new branch under a split edge: its first character differs from the old branch's. */
  lemma SplitNoRival(child: Tree, seg: string, c: Tree)
    requires
      var n := CommonPrefixLen(seg, child.edge);
      0 < n < |child.edge| && n < |seg| && c.kind == Static && c.edge == seg[n..]
    ensures NoRival(Split(child, CommonPrefixLen(seg, child.edge)).kids, c)
  {
    var n := CommonPrefixLen(seg, child.edge);
    assert child.edge[n..][0] == child.edge[n] && seg[n..][0] == seg[n];
  }

  lemma SlashFree(text: string, n: nat)
    requires n <= SegLen(text)
    ensures '/' !in Seg(text)[n..] && '/' !in Seg(text)
  {
  }

  lemma {:induction false} InsertStaticShape(t: Tree, text: string, r: Route)
    requires Shape(t) && t.kind != Wildcard && Seg(text) != ""
    ensures Shape(InsertStatic(t, text, r).0) && SameNode(t, InsertStatic(t, text, r).0)
    decreases |text|, 0
  {
    hide AddChild, Shape, NodeOk, Insert, CommonPrefixLen, NoRival, Split;
    var seg, next := Seg(text), Rest(text);
    var i := FindShared(t.kids, seg);
    SlashFree(text, 0);
    if i == |t.kids| {
      NewBranchShape(seg, next, r);
      NoSharedNoRival(t, seg, Insert(StaticNode(seg), next, r).0);
      AddChildShape(t, Insert(StaticNode(seg), next, r).0);
    } else {
      var child := t.kids[i];
      KidShape(t, i);
      var n := CommonPrefixLen(seg, child.edge);
      SharedChar(seg, child.edge);
      if n < |child.edge| {
        SplitShape(child, n);
        var mid := Split(child, n);
        SplitFirst(child, n);
        if n == |seg| {
          InsertShape(mid, next, r);
          StaticOk(mid, Insert(mid, next, r).0);
          WithChildShape(t, i, Insert(mid, next, r));
        } else {
          SlashFree(text, n);
          NewBranchShape(seg[n..], next, r);
          var p := Insert(StaticNode(seg[n..]), next, r);
          SplitNoRival(child, seg, p.0);
          AddChildShape(mid, p.0);
          StaticOk(mid, WithNewChild(mid, p).0);
          WithChildShape(t, i, WithNewChild(mid, p));
        }
      } else if n == |seg| {
        InsertShape(child, next, r);
        StaticOk(child, Insert(child, next, r).0);
        WithChildShape(t, i, Insert(child, next, r));
      } else {
        SegDrop(text, n);
        InsertStaticShape(child, text[n..], r);
        StaticOk(child, InsertStatic(child, text[n..], r).0);
        WithChildShape(t, i, InsertStatic(child, text[n..], r));
      }
    }
  }

  lemma SharedChar(seg: string, edge: string)
    requires CommonPrefixLen(seg, edge) > 0
    ensures seg != "" && edge != "" && seg[0] == edge[0]
  {
    var n := CommonPrefixLen(seg, edge);
    assert seg[..n][0] == edge[..n][0];
  }

  lemma SplitFirst(child: Tree, n: nat)
    requires 0 < n < |child.edge|
    ensures var mid := Split(child, n); mid.kind == Static && mid.edge != "" && mid.edge[0] == child.edge[0]
                                        && mid.route.None?
  {
  }

  lemma {:induction false} NewBranchShape(edge: string, next: string, r: Route)
    requires edge != "" && '/' !in edge
    ensures var c := Insert(StaticNode(edge), next, r).0; Shape(c) && NodeOk(c) && c.kind == Static && c.edge == edge
    decreases |next|, 2
  {
    hide Insert;
    NewStatic(edge);
    InsertShape(StaticNode(edge), next, r);
    StaticOk(StaticNode(edge), Insert(StaticNode(edge), next, r).0);
  }

  // ---- Every reachable trie ----

  datatype Attempt = Attempt(pattern: string, route: Route)

  /** The trie after a sequence of insertions, successful or not. */
  function Build(attempts: seq<Attempt>): Tree {
    if attempts == [] then EMPTY
    else
      var last := attempts[|attempts| - 1];
      InsertPattern(Build(attempts[..|attempts| - 1]), last.pattern, last.route).0
  }

  lemma {:induction false} BuildShape(attempts: seq<Attempt>)
    ensures Shape(Build(attempts)) && Build(attempts).kind == Static
    decreases |attempts|
  {
    hide Insert;
    if attempts != [] {
      var last := attempts[|attempts| - 1];
      var t := Build(attempts[..|attempts| - 1]);
      BuildShape(attempts[..|attempts| - 1]);
      InsertShape(t, last.pattern, last.route);
    }
  }
}
