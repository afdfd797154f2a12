/**
 Tries of static patterns: for them it is settled, by the patterns alone, when lookup finds only
 instances of the patterns.
 */
module RadixStatic {
  import opened Options
  import opened RadixSpec
  import opened RadixShape
  import opened RadixContents
  import opened RadixPersistence
  import opened RadixReach
  import opened RadixExactness
  import opened RadixSlashes

  // ---- Tries of static patterns ----

  ghost predicate StaticOnly(attempts: seq<Attempt>) {
    forall i :: 0 <= i < |attempts| ==> AllStatic(attempts[i].pattern)
  }

  lemma KeyVia(t: Tree, i: nat, w: string, q: Route)
    requires i < |t.kids| && t.kids[i].kind == Static && HasKey(t.kids[i], Chars(w), q)
    ensures HasKey(t, Chars(t.kids[i].edge + w), q)
  {
    var c := t.kids[i];
    CharsAppend(c.edge, w);
    StartsWithText(c.edge + w, c.edge);
    assert (c.edge + w)[|c.edge|..] == w;
    assert Through(c, Chars(c.edge + w), q);
  }

  lemma {:induction false} KeyCanFind(t: Tree, w: string, q: Route, n: nat)
    requires Shape(t) && HasKey(t, Chars(w), q)
    ensures CanFind(t, n)
    decreases t
  {
    hide Shape, HasKey;
    if w == "" {
      EmptyText(t, q);
    } else {
      var k := StaticKid(t, w, q);
      KeyCanFind(t.kids[k], w[|t.kids[k].edge|..], q, n);
      hide CanFind;
      KidFinds(t, n, k);
    }
  }

  lemma EmptyText(t: Tree, q: Route)
    requires Shape(t) && HasKey(t, Chars(""), q)
    ensures t.route == Some(q)
  {
    NothingLeft(t, "", q);
  }

  // ---- Every attempt leaves its path in the trie ----

  /** After inserting a static pattern, successfully or not, walking it ends at a route. */
  lemma {:induction false} InsertReaches(t: Tree, rest: string, r: Route) returns (q: Route)
    requires AllStatic(rest) && Shape(t) && t.kind == Static
    ensures Registered(Insert(t, rest, r).0, rest, q)
    decreases |rest|, 1
  {
    hide AddChild, InsertStatic, OnEdges, Shape;
    if Seg(Skip(rest)) == "" {
      q := Insert(t, rest, r).0.route.value;
    } else {
      q := InsertStaticReaches(t, Skip(rest), r);
    }
  }

  lemma {:induction false} InsertStaticReaches(t: Tree, text: string, r: Route) returns (q: Route)
    requires Seg(text) != "" && AllStatic(Rest(text)) && Shape(t) && t.kind == Static
    ensures OnEdges(InsertStatic(t, text, r).0, text, q)
    decreases |text|, 0
  {
    hide AddChild, Insert, OnEdge, Shape, NodeOk, CommonPrefixLen, Registered, AllStatic;
    var seg, next := Seg(text), Rest(text);
    var t' := InsertStatic(t, text, r).0;
    var i := FindShared(t.kids, seg);
    SlashFree(text, 0);
    if i == |t.kids| {
      q := BranchReaches(text, 0, r);
      assert text[0..] == text;
      assert Insert(StaticNode(seg[0..]), next, r).0 in t'.kids by { assert seg[0..] == seg; }
    } else {
      var child := t.kids[i];
      KidShape(t, i);
      var n := CommonPrefixLen(seg, child.edge);
      var c;
      if n < |child.edge| {
        var mid := Split(child, n);
        SplitShape(child, n);
        if n == |seg| {
          c := Insert(mid, next, r).0;
          q := InsertReaches(mid, next, r);
          InsertShape(mid, next, r);
          assert seg[..n] == seg;
          FullEdge(c, text, q);
        } else {
          c := WithNewChild(mid, Insert(StaticNode(seg[n..]), next, r)).0;
          SegDrop(text, n);
          q := BranchReaches(text, n, r);
          assert Insert(StaticNode(seg[n..]), next, r).0 in c.kids;
          PartEdge(c, text, n, q);
        }
      } else if n == |seg| {
        c := Insert(child, next, r).0;
        q := InsertReaches(child, next, r);
        InsertShape(child, next, r);
        assert seg[..n] == seg && child.edge[..n] == child.edge;
        FullEdge(c, text, q);
      } else {
        SegDrop(text, n);
        c := InsertStatic(child, text[n..], r).0;
        q := InsertStaticReaches(child, text[n..], r);
        InsertStaticShape(child, text[n..], r);
        assert child.edge[..n] == child.edge;
        PartEdge(c, text, n, q);
      }
      assert t'.kids[i] == c;
    }
  }

  lemma {:induction false} BranchReaches(text: string, n: nat, r: Route) returns (q: Route)
    requires n < |Seg(text)| && AllStatic(Rest(text))
    ensures Seg(text[n..]) != "" && OnEdge(Insert(StaticNode(Seg(text)[n..]), Rest(text), r).0, text[n..], q)
    decreases |Rest(text)|, 2
  {
    hide Insert, OnEdge, Registered, Shape, NodeOk, SegLen, AllStatic;
    var edge, next := Seg(text)[n..], Rest(text);
    assert '/' !in edge by { SlashFree(text, n); }
    SegDrop(text, n);
    NewStatic(edge);
    q := InsertReaches(StaticNode(edge), next, r);
    InsertShape(StaticNode(edge), next, r);
    FullEdge(Insert(StaticNode(edge), next, r).0, text[n..], q);
  }

  /** The pattern of the `i`-th attempt, successful or not, is in the trie for good. */
  lemma {:induction false} ReachedForever(attempts: seq<Attempt>, i: nat) returns (q: Route)
    requires StaticOnly(attempts) && i < |attempts| && attempts[i].pattern != "" && attempts[i].pattern[0] == '/'
    ensures Registered(Build(attempts), attempts[i].pattern, q)
    decreases |attempts|
  {
    hide Insert, Registered, OnEdges, AllStatic;
    var n := |attempts| - 1;
    var before, last := attempts[..n], attempts[n];
    BuildShape(before);
    if i == n {
      q := InsertReaches(Build(before), last.pattern, last.route);
    } else {
      q := ReachedForever(before, i);
      InsertGrows(Build(before), last.pattern, last.route);
      InvalidKeeps(Build(before), last.pattern, last.route);
    }
  }

  lemma InvalidKeeps(t: Tree, pattern: string, r: Route)
    ensures InsertPattern(t, pattern, r).0 == t || InsertPattern(t, pattern, r).0 == Insert(t, pattern, r).0
  {
    hide Insert;
  }

  lemma {:induction false} RegisteredKey(t: Tree, rest: string, q: Route)
    requires Registered(t, rest, q) && AllStatic(rest)
    ensures HasKey(t, Chars(Erase(rest)), q)
    decreases |rest|, 1
  {
    hide OnEdges, HasKey, Erase, Chars;
    EraseSkip(rest);
    KeyStep(rest);
    hide Key;
    if Seg(Skip(rest)) == "" {
      EmptyKey(t, q);
    } else {
      EdgeKey(t, Skip(rest), q);
    }
  }

  lemma EmptyKey(t: Tree, q: Route)
    requires t.route == Some(q)
    ensures HasKey(t, Chars(Erase("")), q)
  {
  }

  lemma {:induction false} EdgeKey(t: Tree, text: string, q: Route)
    requires Seg(text) != "" && OnEdges(t, text, q) && AllStatic(Rest(text))
    ensures HasKey(t, Chars(Erase(text)), q)
    decreases |text|, 0
  {
    hide Registered, AllStatic, HasKey, Erase, Chars;
    var c :| c in t.kids && OnEdge(c, text, q);
    var k :| 0 <= k < |t.kids| && t.kids[k] == c;
    var e, text' := c.edge, text[|c.edge|..];
    EdgeOfText(e, text);
    assert text == e + text';
    ErasePrefix(e, text', 0);
    if |e| == |Seg(text)| {
      assert text' == Rest(text);
      RegisteredKey(c, text', q);
    } else {
      SegDrop(text, |e|);
      EdgeKey(c, text', q);
    }
    KeyVia(t, k, Erase(text'), q);
  }

  // ---- The condition on the patterns ----

  predicate Tried(a: Attempt) { a.pattern != "" && a.pattern[0] == '/' }

  /** A single segment, if any. */
  ghost predicate OneSegmentOnly(a: Attempt) {
    Tried(a) ==> forall b :: b in Breaks(a.pattern[1..], 0) ==> b >= |Erase(a.pattern)|
  }

  /** The same segment, or different first characters. */
  predicate ApartOrEqual(a: Attempt, b: Attempt) {
    var x, y := Erase(a.pattern), Erase(b.pattern);
    Tried(a) && Tried(b) && x != "" && y != "" && x[0] == y[0] ==> x == y
  }

  ghost predicate Simple(attempts: seq<Attempt>) {
    && (forall i :: 0 <= i < |attempts| ==> OneSegmentOnly(attempts[i]))
    && (forall i, j :: 0 <= i < |attempts| && 0 <= j < |attempts| ==> ApartOrEqual(attempts[i], attempts[j]))
  }

  // Not simple: blurred.

  lemma InnerIsBlurred(t: Tree, w: string, q: Route, n: nat, m: nat)
    requires Shape(t) && HasKey(t, Chars(w), q) && 0 < n < |w| && Boundary(t, w, n)
    ensures Blurred(t, m)
  {
    hide HasKey, Boundary, Shape, CanFind;
    var k := StaticKid(t, w, q);
    var c := t.kids[k];
    BoundaryBelow(t, w, n, k);
    var w' := w[|c.edge|..];
    var k' := StaticKid(c, w', q);
    KeyCanFind(c.kids[k'], w'[|c.kids[k'].edge|..], q, m);
    assert BlurredBy(t.kids[k], m);
  }

  lemma LongPatternBlurs(attempts: seq<Attempt>, i: nat, b: nat, n: nat)
    requires StaticOnly(attempts) && i < |attempts| && Tried(attempts[i])
    requires b in Breaks(attempts[i].pattern[1..], 0) && b < |Erase(attempts[i].pattern)|
    ensures Blurred(Build(attempts), n)
  {
    hide Build, Registered, HasKey, Boundary, Shape, Blurred, AllStatic, Breaks, Erase;
    var p := attempts[i].pattern;
    BuildShape(attempts);
    var q := ReachedForever(attempts, i);
    EraseSkip(p);
    RegisteredKey(Build(attempts), p, q);
    FirstBreakInside(p, b);
    OwnBreaks(Build(attempts), p, q, b);
    InnerIsBlurred(Build(attempts), Erase(p), q, b, n);
  }

  /** The text behind the first slash of a static pattern does not start with another. */
  lemma FirstBreakInside(pattern: string, b: nat)
    requires pattern != "" && pattern[0] == '/' && AllStatic(pattern) && b in Breaks(pattern[1..], 0)
    ensures b > 0
  {
    var text := Skip(pattern);
    SegSplit(text);
    assert Seg(text) == "" ==> text == "";
    assert text != "" && text[0] != '/';
    BreaksFrom(text[1..], 1, b);
  }

  lemma SharedStartBlurs(attempts: seq<Attempt>, i: nat, j: nat, m: nat)
    requires StaticOnly(attempts) && i < |attempts| && j < |attempts| && !ApartOrEqual(attempts[i], attempts[j])
    ensures Blurred(Build(attempts), m)
  {
    hide Build, Registered, HasKey, Boundary, Shape, Blurred, AllStatic, Erase;
    BuildShape(attempts);
    var t, x, y := Build(attempts), Erase(attempts[i].pattern), Erase(attempts[j].pattern);
    var q := ReachedForever(attempts, i);
    var q' := ReachedForever(attempts, j);
    RegisteredKey(t, attempts[i].pattern, q);
    RegisteredKey(t, attempts[j].pattern, q');
    var n := CommonPrefixLen(x, y);
    Parting(x, y);
    if n < |x| {
      DivergenceIsBoundary(t, x, q, Chars(y), q', n);
      InnerIsBlurred(t, x, q, n, m);
    } else {
      DivergenceIsBoundary(t, y, q', Chars(x), q, n);
      InnerIsBlurred(t, y, q', n, m);
    }
  }

  lemma Parting(x: string, y: string)
    requires x != "" && y != "" && x[0] == y[0] && x != y
    ensures
      var n := CommonPrefixLen(x, y);
      0 < n && (n < |x| ==> Diverges(Chars(y), x, n)) && (n == |x| ==> Diverges(Chars(x), y, n))
  {
    var n := CommonPrefixLen(x, y);
    assert n > 0;
    assert Chars(x)[..n] == Chars(x[..n]) && Chars(y)[..n] == Chars(y[..n]);
    assert x[..|x|] == x && y[..|y|] == y;
  }

  // Simple: not blurred.

  /** Nothing but leaves below the root, one for each segment tried. */
  ghost predicate Leafy(t: Tree, attempts: seq<Attempt>) {
    forall k :: 0 <= k < |t.kids| ==> t.kids[k].kind == Static && t.kids[k].kids == []
                                      && WasTried(attempts, t.kids[k].edge)
  }

  ghost predicate WasTried(attempts: seq<Attempt>, w: string) {
    exists i :: 0 <= i < |attempts| && Tried(attempts[i]) && Erase(attempts[i].pattern) == w
  }

  lemma TriedMore(before: seq<Attempt>, a: Attempt, w: string)
    requires WasTried(before, w) || (Tried(a) && w == Erase(a.pattern))
    ensures WasTried(before + [a], w)
  {
    if WasTried(before, w) {
      var i :| 0 <= i < |before| && Tried(before[i]) && Erase(before[i].pattern) == w;
      assert (before + [a])[i] == before[i];
    } else {
      assert (before + [a])[|before|] == a;
    }
  }

  lemma SimplePattern(a: Attempt)
    requires Tried(a) && AllStatic(a.pattern) && OneSegmentOnly(a)
    ensures Seg(Skip(a.pattern)) == Erase(a.pattern)
    ensures Erase(a.pattern) != "" ==> Skip(Rest(Skip(a.pattern))) == ""
  {
    var text := Skip(a.pattern);
    var seg, next := Seg(text), Rest(text);
    EraseSkip(a.pattern);
    SegSplit(text);
    ErasePrefix(seg, next, 0);
    hide Erase, Breaks;
    if seg == "" {
      assert text == "" && "" + next == next;
      NoSlashText("", 0);
    } else if next != "" {
      RestStarts(text);
      RestOfOne(next, |seg|);
    } else {
      NoSlashText("", 0);
    }
  }

  lemma RestStarts(text: string)
    requires Rest(text) != ""
    ensures Rest(text)[0] == '/'
  {
  }

  lemma RestOfOne(next: string, n: nat)
    requires next != "" && next[0] == '/' && AllStatic(next)
    ensures n in Breaks(next, n) && (Skip(next) != "" ==> Erase(next) != "") && (Skip(next) == "" ==> Erase(next) == "")
  {
    var text := Skip(next);
    if text != "" {
      SegSplit(text);
      ErasePrefix(Seg(text), Rest(text), 0);
    }
  }

  lemma InsertLeaf(t: Tree, before: seq<Attempt>, a: Attempt)
    requires Leafy(t, before) && Tried(a) && AllStatic(a.pattern) && OneSegmentOnly(a)
    requires forall i :: 0 <= i < |before| ==> ApartOrEqual(before[i], a)
    ensures Leafy(Insert(t, a.pattern, a.route).0, before + [a])
  {
    var w, text := Erase(a.pattern), Skip(a.pattern);
    SimplePattern(a);
    LeafyMore(t, before, a);
    TriedMore(before, a, w);
    hide Seg, Rest, Skip, Erase, AllStatic, OneSegmentOnly, WasTried;
    if w != "" {
      var i := FindShared(t.kids, w);
      if i == |t.kids| {
        NewLeaf(t, before + [a], a.route, Rest(text), w);
      } else {
        var c := t.kids[i];
        SameEdge(t, before, a, i);
        assert CommonPrefixLen(w, c.edge) == |w| by { WholePrefix(w); }
        assert Insert(c, Rest(text), a.route) == SetRoute(c, a.route) by { EndsHere(c, Rest(text), a.route); }
      }
    } else {
      EndsAtRoot(t, a);
    }
  }

  lemma LeafyMore(t: Tree, before: seq<Attempt>, a: Attempt)
    requires Leafy(t, before)
    ensures Leafy(t, before + [a])
  {
    hide WasTried;
    forall k | 0 <= k < |t.kids|
      ensures WasTried(before + [a], t.kids[k].edge) { TriedMore(before, a, t.kids[k].edge); }
  }

  lemma SameEdge(t: Tree, before: seq<Attempt>, a: Attempt, k: nat)
    requires Leafy(t, before) && Tried(a) && k < |t.kids| && CommonPrefixLen(Erase(a.pattern), t.kids[k].edge) > 0
    requires forall i :: 0 <= i < |before| ==> ApartOrEqual(before[i], a)
    ensures t.kids[k].edge == Erase(a.pattern)
  {
    hide Erase;
    var i :| 0 <= i < |before| && Tried(before[i]) && Erase(before[i].pattern) == t.kids[k].edge;
    SharedChar(Erase(a.pattern), t.kids[k].edge);
    assert ApartOrEqual(before[i], a);
  }

  lemma WholePrefix(w: string)
    ensures CommonPrefixLen(w, w) == |w|
  {
  }

  lemma EndsHere(t: Tree, rest: string, r: Route)
    requires Skip(rest) == ""
    ensures Insert(t, rest, r) == SetRoute(t, r)
  {
  }

  lemma EndsAtRoot(t: Tree, a: Attempt)
    requires Seg(Skip(a.pattern)) == ""
    ensures Insert(t, a.pattern, a.route) == SetRoute(t, a.route)
  {
  }

  lemma NewLeaf(t: Tree, attempts: seq<Attempt>, r: Route, rest: string, w: string)
    requires Leafy(t, attempts) && Skip(rest) == ""
    requires WasTried(attempts, w)
    ensures Leafy(WithNewChild(t, Insert(StaticNode(w), rest, r)).0, attempts)
  {
    EndsHere(StaticNode(w), rest, r);
    hide Insert;
    var c := SetRoute(StaticNode(w), r).0;
    var t' := WithNewChild(t, (c, Inserted)).0;
    forall k | 0 <= k < |t'.kids| ensures t'.kids[k] in t.kids || t'.kids[k] == c { assert t'.kids[k] in t'.kids; }
  }

  lemma {:induction false} BuildLeafy(attempts: seq<Attempt>)
    requires StaticOnly(attempts) && Simple(attempts)
    ensures Leafy(Build(attempts), attempts)
    decreases |attempts|
  {
    hide Insert, AllStatic, OneSegmentOnly, ApartOrEqual, Leafy;
    if attempts == [] {
      assert Leafy(EMPTY, []) by { NoLeaves(); }
    } else {
      var before, last := attempts[..|attempts| - 1], attempts[|attempts| - 1];
      assert attempts == before + [last];
      BuildLeafy(before);
      if Tried(last) {
        InsertLeaf(Build(before), before, last);
      } else {
        LeafyMore(Build(before), before, last);
      }
    }
  }

  lemma NoLeaves()
    ensures Leafy(EMPTY, [])
  {
  }

  lemma LeafyIsClear(t: Tree, attempts: seq<Attempt>, n: nat)
    requires Leafy(t, attempts)
    ensures !Blurred(t, n)
  {
    forall k | 0 <= k < |t.kids| ensures !BlurredBy(t.kids[k], n) { assert !Blurred(t.kids[k], n); }
  }

  /** A trie of static patterns is blurred exactly if the patterns tried are not simple. */
  lemma BlurredExactly(attempts: seq<Attempt>, n: nat)
    requires StaticOnly(attempts)
    ensures Blurred(Build(attempts), n) <==> !Simple(attempts)
  {
    hide Build, Blurred, Leafy, AllStatic, Breaks, Erase, ApartOrEqual;
    if Simple(attempts) {
      BuildLeafy(attempts);
      LeafyIsClear(Build(attempts), attempts, n);
    } else if i :| 0 <= i < |attempts| && !OneSegmentOnly(attempts[i]) {
      var b: nat :| b in Breaks(attempts[i].pattern[1..], 0) && b < |Erase(attempts[i].pattern)|;
      LongPatternBlurs(attempts, i, b, n);
    } else {
      var i, j :| 0 <= i < |attempts| && 0 <= j < |attempts| && !ApartOrEqual(attempts[i], attempts[j]);
      SharedStartBlurs(attempts, i, j, n);
    }
  }

  /**
   For static patterns with distinct routes: lookup finds only instances if and only if every
   pattern that was tried has a single segment and no two different ones start alike.
   */
  lemma OnlyInstancesIffSimple(attempts: seq<Attempt>)
    requires StaticOnly(attempts) && DistinctRoutes(attempts)
    ensures FindsOnlyInstances(attempts) <==> Simple(attempts)
  {
    hide Build, Blurred, FindsOnlyInstances, Simple, DistinctRoutes, StaticOnly;
    OnlyInstancesExactly(attempts);
    BlurredExactly(attempts, MAX_PATH_PARAMS);
  }
}
