/**
 The radix trie as it runs: heap nodes whose prefixes, handlers and child lists change in
 place, and a match record that lookup fills and backtracks.
 */
module RadixTrie {
  import opened Options
  import opened RadixSpec
  import opened RadixShape
  import opened RadixLookup

  /** The caller's match record: a route and up to eight captures, of which `count` are in use. */
  class MatchRecord {
    var route: Option<Route>
    const params: array<Capture>
    var count: nat

    constructor ()
      ensures Valid() && route == None && count == 0 && fresh(params)
    {
      route, count := None, 0;
      params := new Capture[MAX_PATH_PARAMS](_ => Capture("", ""));
    }

    ghost predicate Valid()
      reads this
    {
      params.Length == MAX_PATH_PARAMS && count <= MAX_PATH_PARAMS
    }

    ghost function Captures(): seq<Capture>
      requires Valid()
      reads this, params
    {
      params[..count]
    }

    /** What a lookup that ended with `found` left here, given the captures it started with. */
    ghost predicate Holds(found: bool, expected: Option<Match>, before: seq<Capture>)
      reads this, params
    {
      && Valid()
      && (found ==> route.Some? && expected == Some(Match(route.value, Captures())))
      && (!found ==> expected == None && Captures() == before)
    }

    method Push(c: Capture)
      requires Valid() && count < MAX_PATH_PARAMS
      modifies this, params
      ensures Valid() && Captures() == old(Captures()) + [c]
    {
      params[count] := c;
      count := count + 1;
    }
  }

  class Node {
    var prefix: string
    var kind: Kind
    var paramName: string
    var route: Option<Route>
    var children: seq<Node>

    /** The subtree as a value, and the nodes it consists of. */
    ghost var tree: Tree
    ghost var repr: set<Node>

    /** This node agrees with its tree, and its children's subtrees are its own and disjoint. */
    ghost predicate Local()
      reads this, repr
    {
      && this in repr
      && (forall i :: 0 <= i < |children| ==> children[i] in repr && children[i] in children[i].repr
                                              && children[i].repr < repr && this !in children[i].repr)
      && (forall i, j :: 0 <= i < j < |children| ==> children[i].repr !! children[j].repr)
      && |tree.kids| == |children|
      && (forall i :: 0 <= i < |children| ==> tree.kids[i] == children[i].tree)
      && tree.kind == kind && tree.edge == prefix && tree.name == paramName && tree.route == route
    }

    ghost predicate Valid()
      reads this, repr
      decreases repr
    {
      Local() && forall i :: 0 <= i < |children| ==> children[i].repr < repr && children[i].Valid()
    }

    lemma Unfold()
      requires Valid()
      ensures Local() && forall i :: 0 <= i < |children| ==> children[i].Valid()
    {
    }

    lemma Fold()
      requires Local() && forall i :: 0 <= i < |children| ==> children[i].Valid()
      ensures Valid()
    {
    }

    constructor (prefix: string, kind: Kind, paramName: string, route: Option<Route>)
      ensures Valid() && fresh(repr) && tree == Tree.Node(kind, prefix, paramName, route, [])
    {
      this.prefix, this.kind, this.paramName, this.route := prefix, kind, paramName, route;
      children := [];
      tree := Tree.Node(kind, prefix, paramName, route, []);
      repr := {this};
    }

    /** Shift the children from `pos` on and put `child` there. */
    method InsertAt(pos: nat, child: Node)
      requires Valid() && child.Valid() && repr !! child.repr && pos <= |children|
      modifies this
      ensures Valid() && repr == old(repr) + child.repr
      ensures |old(tree.kids)| == |old(children)|
      ensures tree == old(tree).(kids := old(tree.kids)[..pos] + [child.tree] + old(tree.kids)[pos..])
    {
      hide Valid;
      Unfold();
      child.Unfold();
      ghost var cs, ks := children, tree.kids;
      children := children[..pos] + [child] + children[pos..];
      tree := tree.(kids := ks[..pos] + [child.tree] + ks[pos..]);
      repr := repr + child.repr;
      forall i | 0 <= i < |children|
        ensures children[i] in repr && children[i] in children[i].repr && children[i].repr < repr
                && this !in children[i].repr
        ensures children[i].Valid() && tree.kids[i] == children[i].tree
      {
        var k := if i < pos then i else i - 1;
        if i != pos { assert children[i] == cs[k] && tree.kids[i] == ks[k]; }
      }
      forall i, j | 0 <= i < j < |children| ensures children[i].repr !! children[j].repr {
        var k, l := if i < pos then i else i - 1, if j < pos then j else j - 1;
        if i != pos { assert children[i] == cs[k]; }
        if j != pos { assert children[j] == cs[l]; }
      }
      Fold();
    }

    /** Insert `child` in sorted position. */
    method AddChild(child: Node)
      requires Valid() && child.Valid() && repr !! child.repr
      modifies this
      ensures Valid() && repr == old(repr) + child.repr
      ensures tree == old(tree).(kids := RadixSpec.AddChild(old(tree.kids), child.tree))
    {
      hide Valid;
      Unfold();
      child.Unfold();
      var pos := 0;
      while pos < |children|
        invariant pos <= |children|
        invariant Valid() && Local() && child.Valid() && child.Local() && unchanged(this)
        invariant forall i :: 0 <= i < pos ==> !GoesBefore(child.tree, tree.kids[i])
      {
        var existing := children[pos];
        Unfold();
        existing.Unfold();
        if child.kind.Rank() < existing.kind.Rank() { break; }
        if child.kind == existing.kind == Static && StrLess(child.prefix, existing.prefix) { break; }
        pos := pos + 1;
      }
      AddPosUnique(tree.kids, child.tree, pos);
      InsertAt(pos, child);
    }

    method SetHandler(r: Route) returns (st: Status)
      requires Valid()
      modifies this
      ensures Valid() && repr == old(repr) && (tree, st) == SetRoute(old(tree), r)
    {
      hide Valid;
      Unfold();
      if route.Some? { return Exists; }
      route := Some(r);
      tree := tree.(route := Some(r));
      Fold();
      return Inserted;
    }

    /** All of `Local` but for the `i`-th child's tree and extent. */
    ghost predicate Around(i: nat)
      reads this, children
    {
      && this in repr
      && (forall j :: 0 <= j < |children| ==> children[j] in children[j].repr && this !in children[j].repr)
      && (forall j :: 0 <= j < |children| && j != i ==> children[j] in repr && children[j].repr < repr)
      && (forall j, k :: 0 <= j < k < |children| ==> children[j].repr !! children[k].repr)
      && |tree.kids| == |children|
      && (forall j :: 0 <= j < |children| && j != i ==> tree.kids[j] == children[j].tree)
      && tree.kind == kind && tree.edge == prefix && tree.name == paramName && tree.route == route
    }

    /** Take note of what became of the `i`-th child. */
    ghost method Adopt(i: nat)
      requires i < |children| && Around(i)
      requires forall j :: 0 <= j < |children| ==> children[j].Valid()
      modifies `tree, `repr
      ensures Valid() && repr == old(repr) + children[i].repr
      ensures |old(tree.kids)| == |children| && tree == old(tree).(kids := old(tree.kids)[i := children[i].tree])
    {
      hide Valid;
      tree := tree.(kids := tree.kids[i := children[i].tree]);
      repr := repr + children[i].repr;
      Fold();
    }

    /** Shorten this node's prefix to the part behind `pos`. */
    method CutPrefix(pos: nat)
      requires Valid() && pos <= |prefix|
      modifies this
      ensures Valid() && repr == old(repr)
      ensures pos <= |old(tree.edge)| && tree == old(tree).(edge := old(tree.edge)[pos..])
    {
      hide Valid;
      Unfold();
      prefix := prefix[pos..];
      tree := tree.(edge := tree.edge[pos..]);
      Fold();
    }

    /** An intermediate node with the first `pos` characters of the prefix and this node below it. */
    method SplitOff(pos: nat) returns (mid: Node)
      requires Valid() && kind == Static && pos <= |prefix|
      modifies this
      ensures mid.Valid() && fresh(mid) && mid.repr >= old(repr) && fresh(mid.repr - old(repr))
      ensures pos <= |old(tree.edge)| && mid.tree == Split(old(tree), pos)
    {
      hide Valid;
      Unfold();
      mid := new Node(prefix[..pos], Static, "", None);
      CutPrefix(pos);
      mid.AddChild(this);
      assert RadixSpec.AddChild([], tree) == [tree];
    }

    /** Replace the static child at `i` by an intermediate node above it. */
    method SplitStaticNode(i: nat, pos: nat) returns (mid: Node)
      requires Valid() && i < |children| && children[i].kind == Static && pos <= |children[i].prefix|
      modifies this, children[i]
      ensures Valid() && fresh(repr - old(repr)) && old(repr) <= repr
      ensures |old(tree).kids| == |old(children)| && pos <= |old(tree).kids[i].edge| && fresh(mid)
      ensures children == old(children)[i := mid] && mid.tree == Split(old(tree).kids[i], pos)
      ensures tree == old(tree).(kids := old(tree).kids[i := mid.tree])
    {
      hide Valid;
      Unfold();
      mid := children[i].SplitOff(pos);
      mid.Unfold();
      children := children[i := mid];
      Adopt(i);
    }

    /** The first child of a kind, or the number of children. */
    method FindChild(wanted: Kind) returns (i: nat)
      requires Valid()
      ensures i == FindKind(tree.kids, wanted) && i <= |children|
    {
      hide Valid;
      Unfold();
      i := 0;
      while i < |children|
        invariant i <= |children| && forall j :: 0 <= j < i ==> tree.kids[j].kind != wanted
      {
        children[i].Unfold();
        if children[i].kind == wanted { break; }
        i := i + 1;
      }
      FindKindUnique(tree.kids, wanted, i);
    }

    /** Insert the pattern from `pos` on at this node. */
    method InsertRecursive(pattern: string, pos: nat, r: Route) returns (st: Status)
      requires Valid() && Shape(tree) && tree.kind != Wildcard && pos <= |pattern|
      modifies repr
      ensures Valid() && old(repr) <= repr && fresh(repr - old(repr))
      ensures (tree, st) == Insert(old(tree), pattern[pos..], r)
      decreases |pattern| - pos, 1
    {
      hide Valid, Shape, NodeOk, RadixSpec.AddChild, InsertStatic;
      Unfold();
      ghost var rest := pattern[pos..];
      var start, seglen := NextSegment(pattern, pos);
      var seg, next := pattern[start..start + seglen], start + seglen;
      assert pattern[start..] == Skip(rest) && seg == Seg(Skip(rest)) && pattern[next..] == Rest(Skip(rest));
      if seglen == 0 {
        st := SetHandler(r);
      } else if seg[0] == '*' {
        if next < |pattern| || seglen == 1 { return Invalid; }
        st := InsertWildcard(seg[1..], r);
      } else if seg[0] == ':' {
        if seglen == 1 { return Invalid; }
        st := InsertParam(pattern, seg[1..], next, r);
      } else {
        st := InsertStaticSegment(pattern, start, next, r);
      }
    }

    method SetChildHandler(j: nat, r: Route) returns (st: Status)
      requires Valid() && j < |children| == |tree.kids|
      modifies repr
      ensures Valid() && old(repr) <= repr && fresh(repr - old(repr))
      ensures (tree, st) == WithChild(old(tree), j, SetRoute(old(tree).kids[j], r))
    {
      hide Valid, SetRoute;
      Unfold();
      children[j].Unfold();
      st := children[j].SetHandler(r);
      children[j].Unfold();
      Adopt(j);
    }

    method InsertWildcard(name: string, r: Route) returns (st: Status)
      requires Valid()
      modifies repr
      ensures Valid() && old(repr) <= repr && fresh(repr - old(repr))
      ensures
        var t := old(tree);
        var j := FindKind(t.kids, Wildcard);
        (tree, st) == if j == |t.kids| then WithNewChild(t, (WildcardNode(name, r), Inserted))
                      else if t.kids[j].name != name then (t, Exists)
                      else WithChild(t, j, SetRoute(t.kids[j], r))
    {
      hide Valid, RadixSpec.AddChild, SetRoute;
      Unfold();
      var j := FindChild(Wildcard);
      if j < |children| {
        children[j].Unfold();
        if children[j].paramName != name { return Exists; }
        st := SetChildHandler(j, r);
      } else {
        var wc := new Node("", Wildcard, name, Some(r));
        AddChild(wc);
        st := Inserted;
      }
    }

    /** A new child with the rest of the pattern below it, added in its place. */
    method InsertNewChild(prefix: string, kind: Kind, name: string, pattern: string, next: nat, r: Route)
        returns (st: Status)
      requires Valid() && next <= |pattern| && kind != Wildcard
      modifies this
      ensures Valid() && old(repr) <= repr && fresh(repr - old(repr))
      ensures (tree, st) == WithNewChild(old(tree), Insert(Tree.Node(kind, prefix, name, None, []), pattern[next..], r))
      decreases |pattern| - next, 2
    {
      hide Valid, RadixSpec.AddChild, Shape, Insert;
      var child := new Node(prefix, kind, name, None);
      FreshShape(child.tree);
      st := child.InsertRecursive(pattern, next, r);
      AddChild(child);
    }

    /** Go on with the rest of the pattern at the `i`-th child. */
    method InsertBelow(i: nat, pattern: string, next: nat, r: Route) returns (st: Status)
      requires Valid() && Shape(tree) && next <= |pattern| && i < |children| == |tree.kids|
               && tree.kids[i].kind != Wildcard
      modifies repr
      ensures Valid() && old(repr) <= repr && fresh(repr - old(repr))
      ensures (tree, st) == WithChild(old(tree), i, Insert(old(tree).kids[i], pattern[next..], r))
      decreases |pattern| - next, 2
    {
      hide Valid, Shape, Insert;
      Unfold();
      KidShape(tree, i);
      st := children[i].InsertRecursive(pattern, next, r);
      children[i].Unfold();
      Adopt(i);
    }

    method InsertParam(pattern: string, name: string, next: nat, r: Route) returns (st: Status)
      requires Valid() && Shape(tree) && next <= |pattern|
      modifies repr
      ensures Valid() && old(repr) <= repr && fresh(repr - old(repr))
      ensures
        var t := old(tree);
        var j := FindKind(t.kids, Param);
        (tree, st) == if j == |t.kids| then WithNewChild(t, Insert(ParamNode(name), pattern[next..], r))
                      else if t.kids[j].name != name then (t, Exists)
                      else WithChild(t, j, Insert(t.kids[j], pattern[next..], r))
      decreases |pattern| - next, 3
    {
      hide Valid, RadixSpec.AddChild, Shape, Insert;
      Unfold();
      var j := FindChild(Param);
      if j < |children| {
        children[j].Unfold();
        if children[j].paramName != name { return Exists; }
        st := InsertBelow(j, pattern, next, r);
      } else {
        st := InsertNewChild("", Param, name, pattern, next, r);
      }
    }

    /** Insert the static segment `pattern[start..next]`, or what is left of it, and the pattern behind it. */
    method InsertStaticSegment(pattern: string, start: nat, next: nat, r: Route) returns (st: Status)
      requires Valid() && Shape(tree)
      requires start < next <= |pattern| && Seg(pattern[start..]) == pattern[start..next]
      modifies repr
      ensures Valid() && old(repr) <= repr && fresh(repr - old(repr))
      ensures Seg(pattern[start..]) != "" && (tree, st) == InsertStatic(old(tree), pattern[start..], r)
      decreases |pattern| - start, 0
    {
      hide Valid, RadixSpec.AddChild, Shape, Insert, CommonPrefixLen, SegLen, Split;
      assert Rest(pattern[start..]) == pattern[next..];
      var i, n := FindSharedChild(pattern, start, next);
      Unfold();
      if i == |children| {
        st := InsertNewChild(pattern[start..next], Static, "", pattern, next, r);
      } else {
        children[i].Unfold();
        if n == |children[i].prefix| && n == next - start {
          st := InsertBelow(i, pattern, next, r);
        } else if n < |children[i].prefix| {
          st := InsertSplitting(i, n, pattern, start, next, r);
        } else {
          st := InsertRestOfSegment(i, n, pattern, start, next, r);
        }
      }
    }

    /** The case of a static child whose whole prefix is shared, with more of the segment to go. */
    method InsertRestOfSegment(i: nat, n: nat, pattern: string, start: nat, next: nat, r: Route) returns (st: Status)
      requires Valid() && Shape(tree) && i < |children| == |tree.kids|
      requires start < start + n < next <= |pattern| && Seg(pattern[start..]) == pattern[start..next]
      modifies repr
      ensures Valid() && old(repr) <= repr && fresh(repr - old(repr))
      ensures Seg(pattern[start..][n..]) != ""
      ensures (tree, st) == WithChild(old(tree), i, InsertStatic(old(tree).kids[i], pattern[start..][n..], r))
      decreases |pattern| - start - n, 1
    {
      hide Valid, Shape, InsertStatic, SegLen;
      Unfold();
      KidShape(tree, i);
      SegDrop(pattern[start..], n);
      assert pattern[start..][n..] == pattern[start + n..];
      assert pattern[start..next][n..] == pattern[start + n..next];
      st := children[i].InsertStaticSegment(pattern, start + n, next, r);
      children[i].Unfold();
      Adopt(i);
    }

    /** The case of a static child whose prefix is only partly shared. */
    method InsertSplitting(i: nat, n: nat, pattern: string, start: nat, next: nat, r: Route) returns (st: Status)
      requires Valid() && Shape(tree) && start < next <= |pattern|
      requires i < |children| && |tree.kids| == |children| && children[i].kind == Static && tree.kids[i].kind == Static
      requires 0 < n <= next - start && n < |children[i].prefix| && n < |tree.kids[i].edge|
      modifies repr
      ensures Valid() && old(repr) <= repr && fresh(repr - old(repr))
      ensures
        var t, seg := old(tree), pattern[start..next];
        var mid := Split(t.kids[i], n);
        (tree, st) == WithChild(t, i, if n == |seg| then Insert(mid, pattern[next..], r)
                                      else WithNewChild(mid, Insert(StaticNode(seg[n..]), pattern[next..], r)))
      decreases |pattern| - next, 3
    {
      hide Valid, RadixSpec.AddChild, Shape, NodeOk, Insert, Split;
      Unfold();
      ghost var t := tree;
      KidShape(t, i);
      SplitShape(t.kids[i], n);
      SplitFirst(t.kids[i], n);
      var mid := SplitStaticNode(i, n);
      Unfold();
      assert children[i] == mid;
      if n == next - start {
        st := mid.InsertRecursive(pattern, next, r);
      } else {
        st := mid.InsertNewChild(pattern[start..next][n..], Static, "", pattern, next, r);
      }
      mid.Unfold();
      Adopt(i);
      assert t.kids[i := Split(t.kids[i], n)][i := mid.tree] == t.kids[i := mid.tree];
    }

    /** The first static child sharing a prefix with the segment, and how much of it. */
    method FindSharedChild(pattern: string, start: nat, next: nat) returns (i: nat, n: nat)
      requires Valid() && Shape(tree)
      requires start < next <= |pattern| && Seg(pattern[start..]) == pattern[start..next]
      ensures i == FindShared(tree.kids, pattern[start..next]) && i <= |children| == |tree.kids|
      ensures i < |children| ==> n == CommonPrefixLen(pattern[start..next], tree.kids[i].edge)
    {
      hide Valid, Shape, CommonPrefixLen, SegLen;
      Unfold();
      ghost var seg := pattern[start..next];
      i, n := 0, 0;
      while i < |children|
        invariant i <= |children|
        invariant forall j :: 0 <= j < i
                              ==> !(tree.kids[j].kind == Static && CommonPrefixLen(seg, tree.kids[j].edge) > 0)
      {
        children[i].Unfold();
        if children[i].kind == Static {
          KidShape(tree, i);
          n := CommonPrefixLen(pattern[start..], children[i].prefix);
          PrefixWithinSegment(pattern[start..], children[i].prefix);
          if n > 0 { break; }
        }
        i := i + 1;
      }
      FindSharedUnique(tree.kids, seg, i);
    }

    /** Match the rest of a segment, `path[start..end]`, against this static node's prefix and on. */
    method LookupEdge(path: string, start: nat, end: nat, m: MatchRecord) returns (found: bool)
      requires Valid() && m.Valid() && tree.kind == Static
      requires start <= end <= |path| && Seg(path[start..]) == path[start..end]
      modifies m, m.params
      ensures m.Holds(found, LookupAfter(tree, path[start..], old(m.Captures())), old(m.Captures()))
      decreases tree, |tree.kids| + 2
    {
      hide Valid, SegLen, Lookup, LookupStatic;
      Unfold();
      var n := |prefix|;
      if n > end - start || path[start..start + n] != prefix {
        NotEdge(prefix, path, start, end);
        return false;
      }
      assert path[start..end][..n] == path[start..start + n];
      assert Rest(path[start..]) == path[end..];
      if n == end - start {
        found := LookupRecursive(path, end, m);
      } else {
        SegDrop(path[start..], n);
        assert path[start..][n..] == path[start + n..] && path[start..end][n..] == path[start + n..end];
        found := LookupStaticChildren(path, start + n, end, m);
      }
    }

    method LookupStaticChildren(path: string, start: nat, end: nat, m: MatchRecord) returns (found: bool)
      requires Valid() && m.Valid()
      requires start <= end <= |path| && Seg(path[start..]) == path[start..end]
      modifies m, m.params
      ensures m.Holds(found, LookupStatic(tree, path[start..], 0, old(m.Captures())), old(m.Captures()))
      decreases tree, |tree.kids|
    {
      hide Valid, SegLen, Lookup;
      Unfold();
      ghost var text, caps := path[start..], m.Captures();
      var i := 0;
      while i < |children|
        invariant i <= |children|
        invariant m.Valid() && m.Captures() == caps
        invariant LookupStatic(tree, text, 0, caps) == LookupStatic(tree, text, i, caps)
      {
        children[i].Unfold();
        if children[i].kind == Static {
          found := children[i].LookupEdge(path, start, end, m);
          if found { return true; }
        }
        i := i + 1;
      }
      found := false;
    }

    method LookupParamChildren(path: string, start: nat, end: nat, m: MatchRecord) returns (found: bool)
      requires Valid() && m.Valid()
      requires start <= end <= |path| && Seg(path[start..]) == path[start..end]
      modifies m, m.params
      ensures m.Holds(found, LookupParam(tree, path[start..], 0, old(m.Captures())), old(m.Captures()))
      decreases tree, |tree.kids|
    {
      hide Valid, SegLen, Lookup;
      Unfold();
      ghost var text, caps := path[start..], m.Captures();
      assert Rest(text) == path[end..];
      var i := 0;
      while i < |children|
        invariant i <= |children|
        invariant m.Valid() && m.Captures() == caps
        invariant LookupParam(tree, text, 0, caps) == LookupParam(tree, text, i, caps)
      {
        var child := children[i];
        child.Unfold();
        if child.kind == Param {
          if m.count >= MAX_PATH_PARAMS { return false; }
          var savedCount := m.count;
          m.Push(Capture(child.paramName, path[start..end]));
          found := child.LookupRecursive(path, end, m);
          if found { return true; }
          m.count := savedCount;
          assert m.Captures() == (caps + [Capture(child.paramName, path[start..end])])[..savedCount];
        }
        i := i + 1;
      }
      found := false;
    }

    method LookupWildcardChildren(path: string, start: nat, m: MatchRecord) returns (found: bool)
      requires Valid() && m.Valid() && start <= |path|
      modifies m, m.params
      ensures m.Holds(found, LookupWildcard(tree, path[start..], 0, old(m.Captures())), old(m.Captures()))
    {
      hide Valid;
      Unfold();
      ghost var text, caps := path[start..], m.Captures();
      var i := 0;
      while i < |children|
        invariant i <= |children|
        invariant m.Valid() && m.Captures() == caps
        invariant LookupWildcard(tree, text, 0, caps) == LookupWildcard(tree, text, i, caps)
      {
        var child := children[i];
        child.Unfold();
        if child.kind == Wildcard && child.route.Some? {
          if m.count >= MAX_PATH_PARAMS { return false; }
          m.Push(Capture(child.paramName, path[start..]));
          m.route := child.route;
          return true;
        }
        i := i + 1;
      }
      found := false;
    }

    /** Match the path from `pos` on below this node; a failed search leaves the captures as they were. */
    method LookupRecursive(path: string, pos: nat, m: MatchRecord) returns (found: bool)
      requires Valid() && m.Valid() && pos <= |path|
      modifies m, m.params
      ensures m.Holds(found, Lookup(tree, path[pos..], old(m.Captures())), old(m.Captures()))
      decreases tree, |tree.kids| + 1
    {
      hide Valid, LookupStatic, LookupParam, LookupWildcard;
      Unfold();
      var start, len := NextSegment(path, pos);
      if start == |path| {
        if route.Some? {
          m.route := route;
          return true;
        }
        return false;
      }
      var end := start + len;
      assert Seg(path[start..]) == path[start..end];
      found := LookupStaticChildren(path, start, end, m);
      if found { return true; }
      found := LookupParamChildren(path, start, end, m);
      if found { return true; }
      found := LookupWildcardChildren(path, start, m);
    }
  }

  lemma NotEdge(edge: string, path: string, start: nat, end: nat)
    requires start <= end <= |path| && !(|edge| <= end - start && path[start..start + |edge|] == edge)
    ensures !IsEdgeOf(edge, path[start..end])
  {
    if |edge| <= end - start { assert path[start..end][..|edge|] == path[start..start + |edge|]; }
  }

  /** A trie: its root node, in the shape every insertion keeps. */
  class Trie {
    var root: Node

    ghost predicate Valid()
      reads this, root, root.repr
    {
      root in root.repr && root.Valid() && Shape(root.tree) && root.tree.kind == Static
    }

    constructor ()
      ensures Valid() && root.tree == EMPTY && fresh(root) && fresh(root.repr)
    {
      root := new Node("", Static, "", None);
    }

    method InsertPattern(pattern: string, r: Route) returns (st: Status)
      requires Valid()
      modifies root.repr
      ensures Valid() && root == old(root) && fresh(root.repr - old(root.repr))
      ensures (root.tree, st) == RadixSpec.InsertPattern(old(root.tree), pattern, r)
    {
      hide Insert, Shape;
      if |pattern| == 0 || pattern[0] != '/' { return Invalid; }
      assert pattern[0..] == pattern;
      InsertShape(root.tree, pattern, r);
      st := root.InsertRecursive(pattern, 0, r);
    }

    /** The first match in the trie, or nothing exactly when there is none. */
    method LookupPath(path: string, m: MatchRecord) returns (found: bool)
      requires Valid() && m.Valid()
      modifies m, m.params
      ensures m.Holds(found, RadixSpec.LookupPath(root.tree, path), [])
    {
      hide Lookup, Shape;
      m.route, m.count := None, 0;
      if |path| == 0 { return false; }
      assert path[0..] == path && m.Captures() == [];
      found := root.LookupRecursive(path, 0, m);
    }
  }

  /** A segment's start (one slash skipped) and length. */
  method NextSegment(pattern: string, pos: nat) returns (start: nat, len: nat)
    requires pos <= |pattern|
    ensures start + len <= |pattern| && pattern[start..] == Skip(pattern[pos..])
    ensures len == SegLen(pattern[start..])
  {
    start := pos;
    if start < |pattern| && pattern[start] == '/' { start := start + 1; }
    assert pattern[start..] == Skip(pattern[pos..]);
    var end := start;
    while end < |pattern| && pattern[end] != '/'
      invariant start <= end <= |pattern|
      invariant SegLen(pattern[start..]) == end - start + SegLen(pattern[end..])
    {
      assert pattern[end..][1..] == pattern[end + 1..];
      end := end + 1;
    }
    len := end - start;
  }

  /** A slash-free prefix is never shared beyond the segment. */
  lemma PrefixWithinSegment(text: string, edge: string)
    requires '/' !in edge
    ensures CommonPrefixLen(text, edge) == CommonPrefixLen(Seg(text), edge)
  {
    var n, m := CommonPrefixLen(text, edge), CommonPrefixLen(Seg(text), edge);
    PrefixLenUnique(text, edge, m);
  }

  lemma {:induction false} PrefixLenUnique(a: string, b: string, n: nat)
    requires n <= |a| && n <= |b| && a[..n] == b[..n] && (n < |a| && n < |b| ==> a[n] != b[n])
    ensures CommonPrefixLen(a, b) == n
    decreases |a|
  {
  }

  lemma FindKindUnique(kids: seq<Tree>, kind: Kind, i: nat)
    requires i <= |kids| && (i < |kids| ==> kids[i].kind == kind)
    requires forall j :: 0 <= j < i ==> kids[j].kind != kind
    ensures FindKind(kids, kind) == i
  {
  }

  lemma FindSharedUnique(kids: seq<Tree>, seg: string, i: nat)
    requires i <= |kids| && (i < |kids| ==> kids[i].kind == Static && CommonPrefixLen(seg, kids[i].edge) > 0)
    requires forall j :: 0 <= j < i ==> !(kids[j].kind == Static && CommonPrefixLen(seg, kids[j].edge) > 0)
    ensures FindShared(kids, seg) == i
  {
  }

  lemma {:induction false} AddPosUnique(kids: seq<Tree>, child: Tree, pos: nat)
    requires pos <= |kids| && (pos < |kids| ==> GoesBefore(child, kids[pos]))
    requires forall i :: 0 <= i < pos ==> !GoesBefore(child, kids[i])
    ensures AddPos(kids, child) == pos
  {
  }
}
