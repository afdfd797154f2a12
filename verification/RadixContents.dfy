/**
 What a trie holds, exactly: the routes of the successful insertions under their patterns with
 the slashes between segments erased, and nothing else. Splitting edges, adding nodes and
 failing insertions change nothing of it.
 */
module RadixContents {
  import opened Options
  import opened RadixSpec
  import opened RadixShape

  /** A pattern with its slashes erased: characters, parameters, a wildcard. */
  datatype Tok = Ch(c: char) | Par(name: string) | Wild(name: string)

  function Chars(s: string): (k: seq<Tok>)
    ensures |k| == |s| && forall i :: 0 <= i < |s| ==> k[i] == Ch(s[i])
  {
    seq(|s|, i requires 0 <= i < |s| => Ch(s[i]))
  }

  function Key(rest: string): seq<Tok>
    decreases |rest|
  {
    var text := Skip(rest);
    var seg, next := Seg(text), Rest(text);
    if seg == "" then []
    else if seg[0] == '*' then [Wild(seg[1..])]
    else if seg[0] == ':' then [Par(seg[1..])] + Key(next)
    else Chars(seg) + Key(next)
  }

  predicate StartsWith(key: seq<Tok>, edge: string) {
    |edge| <= |key| && key[..|edge|] == Chars(edge)
  }

  /** `q` is stored below `t` under `key`. */
  ghost predicate HasKey(t: Tree, key: seq<Tok>, q: Route)
    decreases t, 0
  {
    || (key == [] && t.route == Some(q))
    || exists i :: 0 <= i < |t.kids| && Through(t.kids[i], key, q)
  }

  /** `q` is stored under `key` by way of the child `c`. */
  ghost predicate Through(c: Tree, key: seq<Tok>, q: Route)
    decreases c, 1
  {
    match c.kind
    case Static => StartsWith(key, c.edge) && HasKey(c, key[|c.edge|..], q)
    case Param => key != [] && key[0] == Par(c.name) && HasKey(c, key[1..], q)
    case Wildcard => key == [Wild(c.name)] && c.route == Some(q)
  }

  // ---- One node ----

  lemma WithChildKeys(t: Tree, i: nat, p: (Tree, Status), key: seq<Tok>, q: Route, extra: bool)
    requires i < |t.kids|
    requires Through(p.0, key, q) <==> Through(t.kids[i], key, q) || extra
    ensures HasKey(WithChild(t, i, p).0, key, q) <==> HasKey(t, key, q) || extra
  {
    hide Through;
    var t' := WithChild(t, i, p).0;
    if HasKey(t, key, q) && !(key == [] && t.route == Some(q)) {
      var j :| 0 <= j < |t.kids| && Through(t.kids[j], key, q);
      assert t'.kids[j] == if j == i then p.0 else t.kids[j];
      assert Through(t'.kids[j], key, q);
    }
    if extra { assert Through(t'.kids[i], key, q); }
    if HasKey(t', key, q) && !(key == [] && t.route == Some(q)) {
      var j :| 0 <= j < |t'.kids| && Through(t'.kids[j], key, q);
      assert t'.kids[j] == if j == i then p.0 else t.kids[j];
      if j != i { assert Through(t.kids[j], key, q); }
    }
  }

  lemma HasKeyIn(t: Tree, key: seq<Tok>, q: Route)
    ensures HasKey(t, key, q) <==> (key == [] && t.route == Some(q)) || exists c :: c in t.kids && Through(c, key, q)
  {
    hide Through;
    forall i | 0 <= i < |t.kids| ensures t.kids[i] in t.kids {}
    if c :| c in t.kids && Through(c, key, q) {
      var i :| 0 <= i < |t.kids| && t.kids[i] == c;
      assert Through(t.kids[i], key, q);
    }
  }

  lemma WithNewChildKeys(t: Tree, p: (Tree, Status), key: seq<Tok>, q: Route)
    ensures HasKey(WithNewChild(t, p).0, key, q) <==> HasKey(t, key, q) || Through(p.0, key, q)
  {
    hide Through, HasKey, AddChild;
    HasKeyIn(t, key, q);
    HasKeyIn(WithNewChild(t, p).0, key, q);
  }

  lemma NothingBelow(t: Tree, key: seq<Tok>, q: Route)
    requires t.kids == [] && t.route.None?
    ensures !HasKey(t, key, q)
  {
  }

  lemma SplitStartsWith(key: seq<Tok>, edge: string, n: nat)
    requires n <= |edge|
    ensures StartsWith(key, edge) <==> StartsWith(key, edge[..n]) && StartsWith(key[n..], edge[n..])
    ensures StartsWith(key, edge) ==> key[n..][|edge| - n..] == key[|edge|..]
  {
    assert Chars(edge) == Chars(edge[..n]) + Chars(edge[n..]);
    if StartsWith(key, edge[..n]) && StartsWith(key[n..], edge[n..]) {
      assert key[..|edge|] == key[..n] + key[n..][..|edge| - n];
    }
    if StartsWith(key, edge) {
      assert key[..n] == key[..|edge|][..n];
      assert key[n..][..|edge| - n] == key[..|edge|][n..];
    }
  }

  /** Splitting an edge moves no route. */
  lemma SplitKeys(c: Tree, n: nat, key: seq<Tok>, q: Route)
    requires c.kind == Static && n <= |c.edge|
    ensures Through(Split(c, n), key, q) <==> Through(c, key, q)
  {
    hide StartsWith, HasKey;
    var mid, low := Split(c, n), c.(edge := c.edge[n..]);
    SplitStartsWith(key, c.edge, n);
    StartsLen(key, c.edge[..n]);
    StartsLen(key, c.edge);
    if StartsWith(key, c.edge[..n]) {
      SingleKid(mid, low, key[n..], q);
      if StartsWith(key, c.edge) { LowKeys(c, low, key[|c.edge|..], q); }
    }
  }

  lemma SingleKid(mid: Tree, low: Tree, k: seq<Tok>, q: Route)
    requires mid.kids == [low] && mid.route.None?
    ensures HasKey(mid, k, q) <==> Through(low, k, q)
  {
    hide Through;
    if Through(low, k, q) { assert Through(mid.kids[0], k, q); }
  }

  lemma LowKeys(c: Tree, low: Tree, k: seq<Tok>, q: Route)
    requires low.kids == c.kids && low.route == c.route
    ensures HasKey(low, k, q) <==> HasKey(c, k, q)
  {
  }

  // ---- Insertion ----

  lemma StartsWithConcat(edge: string, tail: seq<Tok>, key: seq<Tok>)
    ensures StartsWith(key, edge) && key[|edge|..] == tail <==> key == Chars(edge) + tail
  {
    if StartsWith(key, edge) { assert key == key[..|edge|] + key[|edge|..]; }
  }

  lemma ParConcat(name: string, tail: seq<Tok>, key: seq<Tok>)
    ensures key != [] && key[0] == Par(name) && key[1..] == tail <==> key == [Par(name)] + tail
  {
    if key != [] { assert key == [key[0]] + key[1..]; }
  }

  /** What an insertion that reports `st` adds under `key`. */
  predicate Adds(st: Status, added: seq<Tok>, r: Route, key: seq<Tok>, q: Route) {
    st == Inserted && key == added && q == r
  }

  /** A child whose contents grew by `tail` makes its parent's grow by the edge and `tail`. */
  lemma StaticThrough(c: Tree, c': Tree, st: Status, tail: seq<Tok>, r: Route, key: seq<Tok>, q: Route)
    requires c.kind == Static && SameNode(c, c')
    requires |c.edge| <= |key|
             ==> var k := key[|c.edge|..]; (HasKey(c', k, q) <==> HasKey(c, k, q) || Adds(st, tail, r, k, q))
    ensures Through(c', key, q) <==> Through(c, key, q) || Adds(st, Chars(c.edge) + tail, r, key, q)
  {
    hide HasKey, StartsWith;
    StartsWithConcat(c.edge, tail, key);
    assert StartsWith(key, c.edge) ==> |c.edge| <= |key| by { StartsLen(key, c.edge); }
  }

  lemma StartsLen(key: seq<Tok>, edge: string)
    ensures StartsWith(key, edge) ==> |edge| <= |key|
  {
  }

  lemma ParamThrough(c: Tree, c': Tree, st: Status, tail: seq<Tok>, r: Route, key: seq<Tok>, q: Route)
    requires c.kind == Param && SameNode(c, c')
    requires key != [] ==> (HasKey(c', key[1..], q) <==> HasKey(c, key[1..], q) || Adds(st, tail, r, key[1..], q))
    ensures Through(c', key, q) <==> Through(c, key, q) || Adds(st, [Par(c.name)] + tail, r, key, q)
  {
    hide HasKey;
    ParConcat(c.name, tail, key);
  }

  /**
   Insertion changes a trie's contents by exactly its own route under its own key when it
   succeeds, and not at all when it fails.
   */
  lemma {:induction false} InsertKeys(t: Tree, rest: string, r: Route, key: seq<Tok>, q: Route)
    requires Shape(t) && t.kind != Wildcard
    ensures
      var p := Insert(t, rest, r);
      HasKey(p.0, key, q) <==> HasKey(t, key, q) || Adds(p.1, Key(rest), r, key, q)
    decreases |rest|, 1
  {
    hide HasKey, Through, Shape, AddChild, InsertStatic, Chars;
    var text := Skip(rest);
    var seg, next := Seg(text), Rest(text);
    if seg == "" {
      SetRouteKeys(t, r, key, q);
    } else if seg[0] == '*' {
      if next == "" && |seg| > 1 { WildcardKeys(t, seg[1..], r, key, q); }
    } else if seg[0] == ':' {
      if |seg| > 1 { ParamKeys(t, seg[1..], next, r, key, q); }
    } else {
      StaticKeys(t, text, r, key, q);
    }
  }

  lemma SetRouteKeys(t: Tree, r: Route, key: seq<Tok>, q: Route)
    ensures var p := SetRoute(t, r); HasKey(p.0, key, q) <==> HasKey(t, key, q) || Adds(p.1, [], r, key, q)
  {
    hide Through;
  }

  lemma WildcardKeys(t: Tree, name: string, r: Route, key: seq<Tok>, q: Route)
    requires Shape(t)
    ensures
      var j := FindKind(t.kids, Wildcard);
      if j == |t.kids| then
        HasKey(WithNewChild(t, (WildcardNode(name, r), Inserted)).0, key, q)
        <==> HasKey(t, key, q) || Adds(Inserted, [Wild(name)], r, key, q)
      else WithChild(t, j, SetRoute(t.kids[j], r)) == (t, Exists)
  {
    hide HasKey, AddChild;
    var j := FindKind(t.kids, Wildcard);
    if j == |t.kids| {
      WithNewChildKeys(t, (WildcardNode(name, r), Inserted), key, q);
    } else {
      KidShape(t, j);
      assert t.kids[j := t.kids[j]] == t.kids;
    }
  }

  lemma {:induction false} ParamKeys(t: Tree, name: string, next: string, r: Route, key: seq<Tok>, q: Route)
    requires Shape(t) && t.kind != Wildcard && name != "" && '/' !in name
    ensures
      var j := FindKind(t.kids, Param);
      var p := if j == |t.kids| then WithNewChild(t, Insert(ParamNode(name), next, r))
               else if t.kids[j].name != name then (t, Exists)
               else WithChild(t, j, Insert(t.kids[j], next, r));
      HasKey(p.0, key, q) <==> HasKey(t, key, q) || Adds(p.1, [Par(name)] + Key(next), r, key, q)
    decreases |next|, 2
  {
    hide HasKey, Through, Shape, AddChild, Insert, Key;
    var j := FindKind(t.kids, Param);
    var c := if j == |t.kids| then ParamNode(name) else t.kids[j];
    assert Shape(c) by { if j < |t.kids| { KidShape(t, j); } else { FreshShape(c); } }
    var p := Insert(c, next, r);
    InsertShape(c, next, r);
    if key != [] { InsertKeys(c, next, r, key[1..], q); }
    ParamThrough(c, p.0, p.1, Key(next), r, key, q);
    if j == |t.kids| {
      assert !Through(c, key, q) by { EmptyThrough(c, key, q); }
      WithNewChildKeys(t, p, key, q);
    } else if c.name == name {
      WithChildKeys(t, j, p, key, q, Adds(p.1, [Par(name)] + Key(next), r, key, q));
    }
  }

  lemma EmptyThrough(c: Tree, key: seq<Tok>, q: Route)
    requires c.kids == [] && c.route.None?
    ensures !Through(c, key, q)
  {
  }

  lemma {:induction false} NewBranchKeys(edge: string, next: string, r: Route, key: seq<Tok>, q: Route)
    requires edge != "" && '/' !in edge
    ensures
      var p := Insert(StaticNode(edge), next, r);
      Through(p.0, key, q) <==> Adds(p.1, Chars(edge) + Key(next), r, key, q)
    decreases |next|, 2
  {
    hide HasKey, Through, Shape, Insert, Key;
    var c := StaticNode(edge);
    NewStatic(edge);
    InsertShape(c, next, r);
    if |edge| <= |key| { InsertKeys(c, next, r, key[|edge|..], q); }
    StaticThrough(c, Insert(c, next, r).0, Insert(c, next, r).1, Key(next), r, key, q);
    EmptyThrough(c, key, q);
  }

  function StaticKey(text: string): seq<Tok> { Chars(Seg(text)) + Key(Rest(text)) }

  lemma StaticKeyDrop(text: string, n: nat)
    requires n <= SegLen(text)
    ensures Chars(Seg(text)[..n]) + StaticKey(text[n..]) == StaticKey(text)
  {
    hide Key, SegLen, Chars;
    SegDrop(text, n);
    CharsSplit(Seg(text), n);
  }

  lemma CharsSplit(seg: string, n: nat)
    requires n <= |seg|
    ensures Chars(seg) == Chars(seg[..n]) + Chars(seg[n..])
  {
  }

  lemma {:induction false} StaticKeys(t: Tree, text: string, r: Route, key: seq<Tok>, q: Route)
    requires Shape(t) && t.kind != Wildcard && Seg(text) != ""
    ensures
      var p := InsertStatic(t, text, r);
      HasKey(p.0, key, q) <==> HasKey(t, key, q) || Adds(p.1, StaticKey(text), r, key, q)
    decreases |text|, 0
  {
    hide HasKey, Through, Shape, NodeOk, AddChild, Insert, Key, Split, CommonPrefixLen;
    var seg, next := Seg(text), Rest(text);
    var i := FindShared(t.kids, seg);
    SlashFree(text, 0);
    if i == |t.kids| {
      NewBranchKeys(seg, next, r, key, q);
      WithNewChildKeys(t, Insert(StaticNode(seg), next, r), key, q);
    } else {
      var child := t.kids[i];
      KidShape(t, i);
      var n := CommonPrefixLen(seg, child.edge);
      if n < |child.edge| {
        SplitCaseKeys(child, text, r, key, q);
        var p := if n == |seg| then Insert(Split(child, n), next, r)
                 else WithNewChild(Split(child, n), Insert(StaticNode(seg[n..]), next, r));
        WithChildKeys(t, i, p, key, q, Adds(p.1, StaticKey(text), r, key, q));
      } else {
        assert child.edge == seg[..n];
        var p;
        if n == |seg| {
          p := Insert(child, next, r);
          assert seg[..n] == seg;
          InsertShape(child, next, r);
          if n <= |key| { InsertKeys(child, next, r, key[n..], q); }
          StaticThrough(child, p.0, p.1, Key(next), r, key, q);
        } else {
          SegDrop(text, n);
          p := InsertStatic(child, text[n..], r);
          InsertStaticShape(child, text[n..], r);
          if n <= |key| { StaticKeys(child, text[n..], r, key[n..], q); }
          StaticThrough(child, p.0, p.1, StaticKey(text[n..]), r, key, q);
          StaticKeyDrop(text, n);
        }
        WithChildKeys(t, i, p, key, q, Adds(p.1, StaticKey(text), r, key, q));
      }
    }
  }

  lemma {:induction false} SplitCaseKeys(child: Tree, text: string, r: Route, key: seq<Tok>, q: Route)
    requires Seg(text) != "" && child.kind == Static && Shape(child) && NodeOk(child)
    requires 0 < CommonPrefixLen(Seg(text), child.edge) < |child.edge|
    ensures
      var seg, next, n := Seg(text), Rest(text), CommonPrefixLen(Seg(text), child.edge);
      var mid := Split(child, n);
      var p := if n == |seg| then Insert(mid, next, r)
               else WithNewChild(mid, Insert(StaticNode(seg[n..]), next, r));
      Through(p.0, key, q) <==> Through(child, key, q) || Adds(p.1, StaticKey(text), r, key, q)
    decreases |Rest(text)|, 3
  {
    hide HasKey, Through, Shape, NodeOk, AddChild, Insert, Key, CommonPrefixLen;
    var seg, next, n := Seg(text), Rest(text), CommonPrefixLen(Seg(text), child.edge);
    var mid := Split(child, n);
    SplitShape(child, n);
    SplitKeys(child, n, key, q);
    assert mid.edge == seg[..n];
    if n == |seg| {
      assert seg[..n] == seg;
      InsertShape(mid, next, r);
      if n <= |key| { InsertKeys(mid, next, r, key[n..], q); }
      StaticThrough(mid, Insert(mid, next, r).0, Insert(mid, next, r).1, Key(next), r, key, q);
    } else {
      SlashFree(text, n);
      var p := Insert(StaticNode(seg[n..]), next, r);
      if n <= |key| {
        NewBranchKeys(seg[n..], next, r, key[n..], q);
        WithNewChildKeys(mid, p, key[n..], q);
      }
      StaticThrough(mid, WithNewChild(mid, p).0, p.1, Chars(seg[n..]) + Key(next), r, key, q);
      SegDrop(text, n);
      StaticKeyDrop(text, n);
    }
  }

  // ---- Every reachable trie ----

  /** The `i`-th attempt succeeded. */
  predicate Succeeded(attempts: seq<Attempt>, i: nat)
    requires i < |attempts|
  {
    InsertPattern(Build(attempts[..i]), attempts[i].pattern, attempts[i].route).1 == Inserted
  }

  /** Some successful attempt registered `q` under `key`. */
  ghost predicate WasInserted(attempts: seq<Attempt>, key: seq<Tok>, q: Route) {
    exists i :: 0 <= i < |attempts| && Succeeded(attempts, i) && key == Key(attempts[i].pattern)
        && q == attempts[i].route
  }

  lemma WasInsertedStep(attempts: seq<Attempt>, key: seq<Tok>, q: Route)
    requires attempts != []
    ensures
      var n := |attempts| - 1;
      WasInserted(attempts, key, q)
      <==> WasInserted(attempts[..n], key, q)
           || (Succeeded(attempts, n) && key == Key(attempts[n].pattern) && q == attempts[n].route)
  {
    hide InsertPattern, Key, Build;
    var n := |attempts| - 1;
    var before := attempts[..n];
    forall i | 0 <= i < n ensures before[i] == attempts[i] && (Succeeded(before, i) <==> Succeeded(attempts, i)) {
      assert before[..i] == attempts[..i];
    }
    if WasInserted(before, key, q) {
      var i :| 0 <= i < n && Succeeded(before, i) && key == Key(before[i].pattern) && q == before[i].route;
      assert Succeeded(attempts, i);
    }
  }

  /** The trie holds exactly what the successful insertions registered. */
  lemma {:induction false} BuildKeys(attempts: seq<Attempt>, key: seq<Tok>, q: Route)
    ensures HasKey(Build(attempts), key, q) <==> WasInserted(attempts, key, q)
    decreases |attempts|
  {
    hide Insert, HasKey, Key, WasInserted;
    if attempts == [] {
      NothingBelow(EMPTY, key, q);
      assert !WasInserted([], key, q) by { NoneInserted(key, q); }
    } else {
      var n := |attempts| - 1;
      var before, last := attempts[..n], attempts[n];
      BuildKeys(before, key, q);
      BuildShape(before);
      InsertKeys(Build(before), last.pattern, last.route, key, q);
      WasInsertedStep(attempts, key, q);
    }
  }

  lemma NoneInserted(key: seq<Tok>, q: Route)
    ensures !WasInserted([], key, q)
  {
  }
}
