/**
 Where slashes matter. A trie node does not record whether its edge ended a segment. So a
 static pattern is also found on every path that spells it with its slashes at other node
 boundaries: some of its own left out, or new ones where the edges of two patterns part.
 */
module RadixSlashes {
  import opened Options
  import opened RadixSpec
  import opened RadixShape
  import opened RadixContents
  import opened RadixPersistence
  import opened RadixReach

  // ---- Slashes of a text ----

  function Erase(s: string): (w: string)
    ensures '/' !in w
  {
    if s == "" then "" else if s[0] == '/' then Erase(s[1..]) else [s[0]] + Erase(s[1..])
  }

  /** Where the slashes of `s` stand, counted in other characters, of which `n` precede `s`. */
  function Breaks(s: string, n: nat): set<nat> {
    if s == "" then {} else if s[0] == '/' then {n} + Breaks(s[1..], n) else Breaks(s[1..], n + 1)
  }

  /** No slash at either end, no two in a row. */
  predicate Tidy(s: string) {
    && (s != "" ==> s[0] != '/' && s[|s| - 1] != '/')
    && forall i :: 0 <= i < |s| - 1 ==> !(s[i] == '/' && s[i + 1] == '/')
  }

  lemma {:induction false} ErasePrefix(x: string, s: string, n: nat)
    requires '/' !in x
    ensures Erase(x + s) == x + Erase(s) && Breaks(x + s, n) == Breaks(s, n + |x|)
    decreases |x|
  {
    if x == "" {
      assert x + s == s;
    } else {
      assert (x + s)[1..] == x[1..] + s;
      ErasePrefix(x[1..], s, n + 1);
    }
  }

  lemma {:induction false} BreaksShift(s: string, n: nat, k: nat, b: nat)
    ensures b + k in Breaks(s, n + k) <==> b in Breaks(s, n)
    decreases |s|
  {
    if s != "" { BreaksShift(s[1..], if s[0] == '/' then n else n + 1, k, b); }
  }

  lemma {:induction false} BreaksFrom(s: string, n: nat, b: nat)
    requires b in Breaks(s, n)
    ensures n <= b
    decreases |s|
  {
    if s[0] != '/' || b in Breaks(s[1..], n) { BreaksFrom(s[1..], if s[0] == '/' then n else n + 1, b); }
  }

  // ---- Node boundaries ----

  /** Walking `w` down the static edges from `t`, a node ends after `n` characters. */
  ghost predicate Boundary(t: Tree, w: string, n: nat)
    decreases t, 0
  {
    n == 0 || exists i :: 0 <= i < |t.kids| && BoundaryVia(t.kids[i], w, n)
  }

  ghost predicate BoundaryVia(c: Tree, w: string, n: nat)
    decreases c, 1
  {
    c.kind == Static && c.edge <= w && |c.edge| <= n && Boundary(c, w[|c.edge|..], n - |c.edge|)
  }

  /** `ptext` spells `w` along static edges to the route `q`, with at most one slash before each edge but the first. */
  ghost predicate Spaced(t: Tree, w: string, ptext: string, q: Route)
    decreases t, 0
  {
    if w == "" then ptext == "" && t.route == Some(q)
    else exists i :: 0 <= i < |t.kids| && SpacedVia(t.kids[i], w, ptext, q)
  }

  ghost predicate SpacedVia(c: Tree, w: string, ptext: string, q: Route)
    decreases c, 1
  {
    && c.kind == Static && c.edge <= w && c.edge <= ptext
    && var w', p' := w[|c.edge|..], ptext[|c.edge|..];
       Spaced(c, w', p', q) || (w' != "" && p' != "" && p'[0] == '/' && Spaced(c, w', p'[1..], q))
  }

  lemma SegAfter(edge: string, p: string)
    requires '/' !in edge && edge <= p
    ensures IsEdgeOf(edge, Seg(p))
    ensures |edge| == |Seg(p)| <==> p[|edge|..] == "" || p[|edge|..][0] == '/'
    ensures |edge| == |Seg(p)| ==> Rest(p) == p[|edge|..]
  {
    var n := SegLen(p);
    forall i | 0 <= i < |edge| ensures p[i] != '/' { assert edge[i] in edge; }
    forall i | 0 <= i < n ensures p[i] != '/' { assert p[i] in p[..n]; }
    assert p[..n][..|edge|] == edge;
  }

  /** Such a path finds the route: the static search comes first and has one way to go. */
  lemma {:induction false} SpacedFound(t: Tree, w: string, ptext: string, q: Route, caps: seq<Capture>)
    requires Shape(t) && w != "" && Spaced(t, w, ptext, q)
    ensures ptext != "" && LookupStatic(t, ptext, 0, caps) == Some(Match(q, caps))
    decreases t
  {
    hide Shape, LookupParam, LookupWildcard, Seg, Rest;
    var k :| 0 <= k < |t.kids| && SpacedVia(t.kids[k], w, ptext, q);
    var c := t.kids[k];
    KidShape(t, k);
    SegAfter(c.edge, ptext);
    assert Seg(ptext)[..|c.edge|][0] == Seg(ptext)[0];
    SkipOthers(t, ptext, 0, k, caps);
    var w', p' := w[|c.edge|..], ptext[|c.edge|..];
    hide LookupStatic;
    if w' == "" {
      SpacedEnd(c, p', q);
    } else if Spaced(c, w', p', q) {
      SpacedStart(c, w', p', q);
      SpacedFound(c, w', p', q, caps);
    } else {
      SpacedFound(c, w', p'[1..], q, caps);
      BehindSlash(c, p', caps);
    }
    FirstChild(t, ptext, k, caps);
  }

  lemma SpacedEnd(t: Tree, ptext: string, q: Route)
    requires Spaced(t, "", ptext, q)
    ensures ptext == "" && forall caps :: Lookup(t, "", caps) == Some(Match(q, caps))
  {
  }

  lemma BehindSlash(t: Tree, path: string, caps: seq<Capture>)
    requires path != "" && path[0] == '/' && path[1..] != "" && LookupStatic(t, path[1..], 0, caps).Some?
    ensures Lookup(t, path, caps) == LookupStatic(t, path[1..], 0, caps)
  {
    hide LookupStatic, LookupParam, LookupWildcard;
  }

  lemma SpacedStart(t: Tree, w: string, ptext: string, q: Route)
    requires Shape(t) && w != "" && Spaced(t, w, ptext, q)
    ensures ptext != "" && ptext[0] != '/'
  {
    var k :| 0 <= k < |t.kids| && SpacedVia(t.kids[k], w, ptext, q);
    KidShape(t, k);
  }

  // ---- From keys and boundaries to spaced paths ----

  lemma StartsWithText(w: string, edge: string)
    ensures StartsWith(Chars(w), edge) <==> edge <= w
    ensures edge <= w ==> Chars(w)[|edge|..] == Chars(w[|edge|..])
  {
    if edge <= w { assert Chars(w)[..|edge|] == Chars(edge); }
    if StartsWith(Chars(w), edge) {
      forall i | 0 <= i < |edge| ensures w[i] == edge[i] { assert Chars(w)[..|edge|][i] == Ch(w[i]); }
    }
  }

  /** The child through which a static text leads, the only one with its first character. */
  lemma StaticKid(t: Tree, w: string, q: Route) returns (k: nat)
    requires Shape(t) && w != "" && HasKey(t, Chars(w), q)
    ensures k < |t.kids| && t.kids[k].kind == Static && t.kids[k].edge != "" && '/' !in t.kids[k].edge
            && t.kids[k].edge <= w
    ensures Shape(t.kids[k]) && HasKey(t.kids[k], Chars(w[|t.kids[k].edge|..]), q)
  {
    var i :| 0 <= i < |t.kids| && Through(t.kids[i], Chars(w), q);
    k := i;
    KidShape(t, k);
    hide HasKey;
    assert Chars(w)[0] == Ch(w[0]);
    StartsWithText(w, t.kids[k].edge);
  }

  /** A boundary beyond the start lies at or beyond the end of the first edge. */
  lemma BoundaryBelow(t: Tree, w: string, n: nat, k: nat)
    requires Shape(t) && n > 0 && Boundary(t, w, n) && k < |t.kids|
    requires t.kids[k].kind == Static && t.kids[k].edge != "" && t.kids[k].edge <= w
    ensures |t.kids[k].edge| <= n && Boundary(t.kids[k], w[|t.kids[k].edge|..], n - |t.kids[k].edge|)
  {
    var i :| 0 <= i < |t.kids| && BoundaryVia(t.kids[i], w, n);
    KidShape(t, i);
    KidUnique(t, i, k);
  }

  /** All slashes of `ptext` stand at boundaries. */
  ghost predicate AtBoundaries(t: Tree, w: string, ptext: string) {
    forall b :: b in Breaks(ptext, 0) ==> Boundary(t, w, b)
  }

  lemma {:induction false} FirstBreak(p: string, n: nat) returns (k: nat)
    requires '/' in p
    ensures k < |p| && p[k] == '/' && '/' !in p[..k] && n + k in Breaks(p, n)
    decreases |p|
  {
    if p[0] == '/' {
      k := 0;
    } else {
      k := FirstBreak(p[1..], n + 1);
      assert p[..k + 1] == [p[0]] + p[1..][..k];
      k := k + 1;
    }
  }

  /** No slash inside the first edge. */
  lemma EdgeLeads(t: Tree, w: string, ptext: string, k: nat)
    requires Shape(t) && k < |t.kids| && t.kids[k].kind == Static && t.kids[k].edge != "" && '/' !in t.kids[k].edge
             && t.kids[k].edge <= w
    requires Erase(ptext) == w && Tidy(ptext) && AtBoundaries(t, w, ptext)
    ensures t.kids[k].edge <= ptext
  {
    hide Shape, Boundary;
    var e := t.kids[k].edge;
    if '/' in ptext {
      var n := FirstBreak(ptext, 0);
      BoundaryBelow(t, w, n, k);
      assert ptext == ptext[..n] + ptext[n..];
      ErasePrefix(ptext[..n], ptext[n..], 0);
      assert ptext[..n] <= w;
    } else {
      assert ptext + "" == ptext;
      ErasePrefix(ptext, "", 0);
    }
  }

  lemma TidyRest(e: string, ptext: string)
    requires e <= ptext && e != "" && '/' !in e && Tidy(ptext)
    ensures
      var p := ptext[|e|..];
      if p != "" && p[0] == '/' then Tidy(p[1..]) && p[1..] != "" else Tidy(p)
  {
    var p := ptext[|e|..];
    forall i | 0 <= i < |p| - 1 ensures !(p[i] == '/' && p[i + 1] == '/') {
      assert p[i] == ptext[|e| + i] && p[i + 1] == ptext[|e| + i + 1];
    }
  }

  /** What is asked of the path behind the first edge. */
  lemma BoundariesBelow(t: Tree, w: string, ptext: string, k: nat, p: string)
    requires Shape(t) && k < |t.kids| && t.kids[k].kind == Static && t.kids[k].edge != "" && '/' !in t.kids[k].edge
    requires t.kids[k].edge <= w && t.kids[k].edge <= ptext && AtBoundaries(t, w, ptext)
    requires ptext[|t.kids[k].edge|..] == p || ptext[|t.kids[k].edge|..] == "/" + p
    ensures AtBoundaries(t.kids[k], w[|t.kids[k].edge|..], p)
  {
    hide Shape, Boundary;
    var c := t.kids[k];
    var e := c.edge;
    assert ptext == e + ptext[|e|..];
    ErasePrefix(e, ptext[|e|..], 0);
    assert ("/" + p)[1..] == p;
    forall b | b in Breaks(p, 0) ensures Boundary(c, w[|e|..], b) {
      BreaksShift(p, 0, |e|, b);
      assert b + |e| in Breaks(ptext, 0);
      BoundaryBelow(t, w, b + |e|, k);
    }
  }

  lemma {:induction false} SpacedFromBoundaries(t: Tree, w: string, ptext: string, q: Route)
    requires Shape(t) && HasKey(t, Chars(w), q) && Erase(ptext) == w && Tidy(ptext) && AtBoundaries(t, w, ptext)
    ensures Spaced(t, w, ptext, q)
    decreases t
  {
    hide Shape, HasKey, AtBoundaries;
    if w == "" {
      NothingLeft(t, ptext, q);
    } else {
      var k := StaticKid(t, w, q);
      var c := t.kids[k];
      var e := c.edge;
      EdgeLeads(t, w, ptext, k);
      TidyRest(e, ptext);
      var w', p' := w[|e|..], ptext[|e|..];
      assert ptext == e + p' && e + w' == w;
      ErasePrefix(e, p', 0);
      assert Erase(p') == w' by { assert (e + Erase(p'))[|e|..] == Erase(p') && (e + w')[|e|..] == w'; }
      if p' != "" && p'[0] == '/' {
        BoundariesBelow(t, w, ptext, k, p'[1..]);
        SpacedFromBoundaries(c, w', p'[1..], q);
        assert w' != "" by { assert p'[1..][0] != '/'; }
      } else {
        BoundariesBelow(t, w, ptext, k, p');
        SpacedFromBoundaries(c, w', p', q);
      }
      assert SpacedVia(c, w, ptext, q);
    }
  }

  lemma NothingLeft(t: Tree, ptext: string, q: Route)
    requires Shape(t) && HasKey(t, Chars(""), q) && Erase(ptext) == "" && Tidy(ptext)
    ensures ptext == "" && t.route == Some(q)
  {
    assert Chars("") == [];
    forall i | 0 <= i < |t.kids| ensures !Through(t.kids[i], [], q) { KidShape(t, i); }
  }

  /** A path that spells a static key of the trie with its slashes at node boundaries finds the key's route. */
  lemma FoundAtBoundaries(t: Tree, w: string, path: string, q: Route)
    requires Shape(t) && HasKey(t, Chars(w), q) && path != "" && path[0] == '/'
    requires Erase(path[1..]) == w && Tidy(path[1..]) && AtBoundaries(t, w, path[1..])
    ensures LookupPath(t, path) == Some(Match(q, []))
  {
    hide Shape, HasKey, LookupStatic, LookupParam, LookupWildcard;
    SpacedFromBoundaries(t, w, path[1..], q);
    if w == "" {
      NothingLeft(t, path[1..], q);
    } else {
      SpacedFound(t, w, path[1..], q, []);
    }
  }

  // ---- The boundaries that patterns make ----

  lemma KeyStep(rest: string)
    requires AllStatic(rest)
    ensures
      var text := Skip(rest);
      if Seg(text) == "" then Key(rest) == [] && text == ""
      else Key(rest) == Chars(Seg(text)) + Key(Rest(text)) && AllStatic(Rest(text)) && |Rest(text)| < |rest|
  {
    SegSplit(Skip(rest));
    SkipShorter(rest);
    hide Seg, Rest, Chars, Skip;
  }

  lemma {:induction false} KeyOfStatic(rest: string)
    requires AllStatic(rest)
    ensures Key(rest) == Chars(Erase(rest))
    decreases |rest|
  {
    var text := Skip(rest);
    var seg, next := Seg(text), Rest(text);
    KeyStep(rest);
    SegSplit(text);
    EraseSkip(rest);
    ErasePrefix(seg, next, 0);
    CharsAppend(seg, Erase(next));
    hide Seg, Rest, Chars, Skip, Key, AllStatic;
    if seg != "" { KeyOfStatic(next); }
  }

  lemma EraseSkip(rest: string)
    ensures Erase(Skip(rest)) == Erase(rest)
  {
  }

  lemma CharsAppend(a: string, b: string)
    ensures Chars(a + b) == Chars(a) + Chars(b) && Chars("") == []
  {
  }

  /** The slashes of a registered static pattern are at boundaries. */
  lemma {:induction false} OwnBreaks(t: Tree, rest: string, q: Route, b: nat)
    requires Registered(t, rest, q) && AllStatic(rest) && b in Breaks(Skip(rest), 0)
    ensures Boundary(t, Erase(Skip(rest)), b)
    decreases |rest|, 1
  {
    hide OnEdges, Boundary;
    if Seg(Skip(rest)) != "" { OwnEdgeBreaks(t, Skip(rest), q, b); }
  }

  lemma {:induction false} OwnEdgeBreaks(t: Tree, text: string, q: Route, b: nat)
    requires Seg(text) != "" && OnEdges(t, text, q) && AllStatic(Rest(text)) && b in Breaks(text, 0)
    ensures Boundary(t, Erase(text), b)
    decreases |text|, 0
  {
    hide Registered, AllStatic, Boundary, Breaks, Erase;
    var c :| c in t.kids && OnEdge(c, text, q);
    var k :| 0 <= k < |t.kids| && t.kids[k] == c;
    var e, text' := c.edge, text[|c.edge|..];
    EdgeOfText(e, text);
    var b' := BreakBehind(e, text, b);
    if |e| == |Seg(text)| {
      assert text' == Rest(text);
      BelowBreaks(c, text', q, b');
    } else {
      SegDrop(text, |e|);
      OwnEdgeBreaks(c, text', q, b');
    }
    ViaKid(t, k, Erase(text), b);
  }

  lemma BreakBehind(e: string, text: string, b: nat) returns (b': nat)
    requires e <= text && '/' !in e && b in Breaks(text, 0)
    ensures b == b' + |e| && b' in Breaks(text[|e|..], 0)
    ensures e <= Erase(text) && Erase(text)[|e|..] == Erase(text[|e|..])
  {
    var text' := text[|e|..];
    assert text == e + text';
    ErasePrefix(e, text', 0);
    BreaksFrom(text', |e|, b);
    b' := b - |e|;
    BreaksShift(text', 0, |e|, b');
  }

  lemma BelowBreaks(c: Tree, rest: string, q: Route, b: nat)
    requires Registered(c, rest, q) && AllStatic(rest) && b in Breaks(rest, 0)
    ensures Boundary(c, Erase(rest), b)
    decreases |rest|, 2
  {
    hide Registered, AllStatic;
    EraseSkip(rest);
    if b > 0 { OwnBreaks(c, rest, q, b); }
  }

  lemma EdgeOfText(e: string, text: string)
    requires IsEdgeOf(e, Seg(text))
    ensures e <= text && '/' !in e
  {
    assert Seg(text)[..|e|] == text[..|e|];
  }

  lemma AtNode(t: Tree, w: string)
    ensures Boundary(t, w, 0)
  {
  }

  lemma ViaKid(t: Tree, k: nat, w: string, n: nat)
    requires k < |t.kids| && t.kids[k].kind == Static && t.kids[k].edge <= w && |t.kids[k].edge| <= n
    requires Boundary(t.kids[k], w[|t.kids[k].edge|..], n - |t.kids[k].edge|)
    ensures Boundary(t, w, n)
  {
    assert BoundaryVia(t.kids[k], w, n);
  }

  /** `key` goes along with `w` for `n` characters and then ends or goes elsewhere. */
  predicate Diverges(key: seq<Tok>, w: string, n: nat) {
    n < |w| && n <= |key| && key[..n] == Chars(w)[..n] && (n == |key| || key[n] != Ch(w[n]))
  }

  /** Where another key parts from a static one, a node ends. */
  lemma {:induction false} DivergenceIsBoundary(t: Tree, w: string, q: Route, key: seq<Tok>, q': Route, n: nat)
    requires Shape(t) && HasKey(t, Chars(w), q) && HasKey(t, key, q') && Diverges(key, w, n)
    ensures Boundary(t, w, n)
    decreases t
  {
    hide HasKey, Shape, Boundary, Through, StartsWith;
    if n > 0 {
      var k := StaticKid(t, w, q);
      var c := t.kids[k];
      assert key[0] == key[..n][0] == Ch(w[0]);
      var i := CharKid(t, key, q');
      KidUnique(t, i, k);
      DivergesBelow(c.edge, w, key, n);
      hide Diverges;
      DivergenceIsBoundary(c, w[|c.edge|..], q, key[|c.edge|..], q', n - |c.edge|);
      ViaKid(t, k, w, n);
    } else {
      AtNode(t, w);
    }
  }

  lemma CharKid(t: Tree, key: seq<Tok>, q: Route) returns (i: nat)
    requires Shape(t) && HasKey(t, key, q) && key != [] && key[0].Ch?
    ensures i < |t.kids| && t.kids[i].kind == Static && StartsWith(key, t.kids[i].edge) && t.kids[i].edge != ""
    ensures t.kids[i].edge[0] == key[0].c && HasKey(t.kids[i], key[|t.kids[i].edge|..], q)
  {
    i :| 0 <= i < |t.kids| && Through(t.kids[i], key, q);
    KidShape(t, i);
    hide HasKey;
    var c := t.kids[i];
    assert c.kind == Static ==> Chars(c.edge)[0] == key[..|c.edge|][0];
  }

  lemma Agree(e: string, w: string, key: seq<Tok>, n: nat)
    requires e <= w && StartsWith(key, e) && n < |e|
    ensures n < |key| && key[n] == Ch(w[n])
  {
    assert key[n] == key[..|e|][n];
  }

  lemma DivergesBelow(e: string, w: string, key: seq<Tok>, n: nat)
    requires e <= w && StartsWith(key, e) && Diverges(key, w, n)
    ensures |e| <= n && Diverges(key[|e|..], w[|e|..], n - |e|)
  {
    if |e| > n { Agree(e, w, key, n); }
    var m := n - |e|;
    assert key[|e|..][..m] == key[..n][|e|..];
    assert Chars(w[|e|..])[..m] == Chars(w)[..n][|e|..];
  }

  // ---- Every reachable trie ----

  /** A slash may stand here: the pattern has one, or another successful insertion parts from it here. */
  ghost predicate MayBreak(attempts: seq<Attempt>, i: nat, b: nat)
    requires i < |attempts| && attempts[i].pattern != ""
  {
    || b in Breaks(attempts[i].pattern[1..], 0)
    || exists j :: 0 <= j < |attempts| && Succeeded(attempts, j)
                   && Diverges(Key(attempts[j].pattern), Erase(attempts[i].pattern), b)
  }

  lemma MayBreakIsBoundary(attempts: seq<Attempt>, i: nat, b: nat)
    requires i < |attempts| && Succeeded(attempts, i) && AllStatic(attempts[i].pattern) && attempts[i].pattern != ""
    requires attempts[i].pattern[0] == '/' && MayBreak(attempts, i, b)
    ensures Boundary(Build(attempts), Erase(attempts[i].pattern), b)
  {
    hide Boundary, Registered, HasKey, Key, Shape, Build, AllStatic, InsertPattern, Diverges;
    var t, p, r := Build(attempts), attempts[i].pattern, attempts[i].route;
    BuildShape(attempts);
    assert Erase(p) == Erase(Skip(p));
    if b in Breaks(p[1..], 0) {
      RegisteredForever(attempts, i);
      OwnBreaks(t, p, r, b);
    } else {
      var j :| 0 <= j < |attempts| && Succeeded(attempts, j) && Diverges(Key(attempts[j].pattern), Erase(p), b);
      assert WasInserted(attempts, Key(attempts[j].pattern), attempts[j].route);
      BuildKeys(attempts, Key(attempts[j].pattern), attempts[j].route);
      StaticKeyHeld(attempts, i);
      DivergenceIsBoundary(t, Erase(p), r, Key(attempts[j].pattern), attempts[j].route, b);
    }
  }

  lemma StaticKeyHeld(attempts: seq<Attempt>, i: nat)
    requires i < |attempts| && Succeeded(attempts, i) && AllStatic(attempts[i].pattern)
    ensures HasKey(Build(attempts), Chars(Erase(attempts[i].pattern)), attempts[i].route)
  {
    hide HasKey, Key, Build, AllStatic, InsertPattern;
    KeyOfStatic(attempts[i].pattern);
    assert WasInserted(attempts, Key(attempts[i].pattern), attempts[i].route);
    BuildKeys(attempts, Key(attempts[i].pattern), attempts[i].route);
  }

  lemma PatternsStartWithSlash(attempts: seq<Attempt>, i: nat)
    requires i < |attempts| && Succeeded(attempts, i)
    ensures attempts[i].pattern != "" && attempts[i].pattern[0] == '/'
  {
  }

  /**
   In every reachable trie, a successfully inserted static pattern is found, by its own route and
   without captures, on every path that spells it with slashes where one may stand.
   */
  lemma SlashesForgotten(attempts: seq<Attempt>, i: nat, path: string)
    requires i < |attempts| && Succeeded(attempts, i) && AllStatic(attempts[i].pattern) && attempts[i].pattern != ""
    requires path != "" && path[0] == '/' && Tidy(path[1..]) && Erase(path) == Erase(attempts[i].pattern)
    requires forall b :: b in Breaks(path[1..], 0) ==> MayBreak(attempts, i, b)
    ensures LookupPath(Build(attempts), path) == Some(Match(attempts[i].route, []))
  {
    hide MayBreak, Boundary, HasKey, Build, AllStatic, Shape, LookupPath, Succeeded;
    var t, w := Build(attempts), Erase(attempts[i].pattern);
    assert Erase(path) == Erase(path[1..]);
    StaticKeyHeld(attempts, i);
    BuildShape(attempts);
    PatternsStartWithSlash(attempts, i);
    forall b | b in Breaks(path[1..], 0) ensures Boundary(t, w, b) { MayBreakIsBoundary(attempts, i, b); }
    FoundAtBoundaries(t, w, path, attempts[i].route);
  }

  // ---- And these paths are no instances ----

  lemma InstanceStep(rest: string, path: string)
    requires AllStatic(rest) && Instance(rest, path)
    ensures
      var text, ptext := Skip(rest), Skip(path);
      && Seg(text) == Seg(ptext) && text == Seg(text) + Rest(text) && ptext == Seg(ptext) + Rest(ptext)
      && (if Seg(text) == "" then text == ptext == "" else |Rest(text)| < |rest| && AllStatic(Rest(text))
                                                           && Instance(Rest(text), Rest(ptext)))
  {
    var text, ptext := Skip(rest), Skip(path);
    SegSplit(text);
    SegSplit(ptext);
    SkipShorter(rest);
    hide Seg, Rest, Skip;
  }

  lemma SegSplit(s: string)
    ensures s == Seg(s) + Rest(s) && |Rest(s)| == |s| - |Seg(s)| && (s == "" ==> Seg(s) == "")
  {
  }

  lemma SkipShorter(s: string)
    ensures |Skip(s)| <= |s|
  {
  }

  lemma {:induction false} InstanceSegments(rest: string, path: string)
    requires AllStatic(rest) && Instance(rest, path) && Tidy(Skip(rest)) && Tidy(Skip(path))
    ensures Skip(rest) == Skip(path)
    decreases |rest|
  {
    hide *;
    var text, ptext := Skip(rest), Skip(path);
    InstanceStep(rest, path);
    if Seg(text) != "" {
      TidyNext(text);
      TidyNext(ptext);
      InstanceSegments(Rest(text), Rest(ptext));
      SlashAgain(Rest(text));
      SlashAgain(Rest(ptext));
      LastSegment(text, ptext);
    }
  }

  lemma TidyNext(text: string)
    requires Tidy(text) && Seg(text) != ""
    ensures Tidy(Skip(Rest(text))) && (Rest(text) != "" ==> Rest(text)[0] == '/' && Skip(Rest(text)) != "")
  {
    TidyRest(Seg(text), text);
    assert text[|Seg(text)|..] == Rest(text);
  }

  lemma SlashAgain(rest: string)
    requires rest == "" || rest[0] == '/'
    ensures rest == if rest == "" then "" else "/" + Skip(rest)
  {
  }

  /** Equal behind their first segments, two tidy texts both end there or neither does. */
  lemma LastSegment(text: string, ptext: string)
    requires Tidy(text) && Tidy(ptext) && Seg(text) != "" && Seg(ptext) != "" && Skip(Rest(text)) == Skip(Rest(ptext))
    ensures Rest(text) == "" <==> Rest(ptext) == ""
  {
    TidyNext(text);
    TidyNext(ptext);
  }

  /** Of the tidy paths, only its own text is an instance of a tidy static pattern. */
  lemma InstanceIsText(pattern: string, path: string)
    requires pattern != "" && pattern[0] == '/' && path != "" && path[0] == '/' && AllStatic(pattern)
    requires Tidy(pattern[1..]) && Tidy(path[1..])
    ensures Instance(pattern, path) ==> path == pattern
  {
    if Instance(pattern, path) {
      InstanceSegments(pattern, path);
      assert path == "/" + path[1..] && pattern == "/" + pattern[1..];
    }
  }

  /** Leaving out any of a static pattern's slashes, the path still finds it, and is no instance of it. */
  lemma MissingSlashIsAccepted(attempts: seq<Attempt>, i: nat, path: string)
    requires i < |attempts| && Succeeded(attempts, i) && AllStatic(attempts[i].pattern)
    requires attempts[i].pattern != "" && Tidy(attempts[i].pattern[1..])
    requires path != "" && path[0] == '/' && Tidy(path[1..]) && Erase(path) == Erase(attempts[i].pattern)
    requires Breaks(path[1..], 0) <= Breaks(attempts[i].pattern[1..], 0)
    ensures LookupPath(Build(attempts), path) == Some(Match(attempts[i].route, []))
    ensures Instance(attempts[i].pattern, path) ==> path == attempts[i].pattern
  {
    hide LookupPath, Build, AllStatic, Succeeded, Instance;
    PatternsStartWithSlash(attempts, i);
    SlashesForgotten(attempts, i, path);
    InstanceIsText(attempts[i].pattern, path);
  }

  /** Where a second successful insertion parts from the segment `w`, a slash may be put into it. */
  lemma ExtraSlashIsAccepted(attempts: seq<Attempt>, i: nat, j: nat, w: string, n: nat)
    requires i < |attempts| && Succeeded(attempts, i) && attempts[i].pattern == "/" + w && IsSegment(w)
    requires j < |attempts| && Succeeded(attempts, j) && 0 < n < |w| && Diverges(Key(attempts[j].pattern), w, n)
    ensures
      var path := "/" + w[..n] + "/" + w[n..];
      LookupPath(Build(attempts), path) == Some(Match(attempts[i].route, [])) && !Instance(attempts[i].pattern, path)
  {
    hide LookupPath, Build, Succeeded, Key, InsertPattern, Diverges, Instance, Erase, Breaks, Tidy;
    var x, y := w[..n], w[n..];
    var p, path := "/" + w, "/" + x + "/" + y;
    Pieces(w, n);
    OneSegment(w);
    PathTexts(x, y);
    OneSlashText(x, y);
    NoSlashText(w, 0);
    OneSlashTidy(x, y);
    EraseSkip(p);
    EraseSkip(path);
    hide AllStatic;
    assert MayBreak(attempts, i, n);
    SlashesForgotten(attempts, i, path);
    InstanceIsText(p, path);
    assert |path| != |p|;
  }

  lemma Pieces(w: string, n: nat)
    requires 0 < n < |w| && '/' !in w
    ensures w[..n] + w[n..] == w && w[..n] != "" && w[n..] != "" && '/' !in w[..n] && '/' !in w[n..]
  {
  }

  lemma OneSegment(w: string)
    requires IsSegment(w)
    ensures ("/" + w)[1..] == w && AllStatic("/" + w)
  {
    assert w + "" == w;
    SegOf(w, "");
  }

  lemma NoSlashText(w: string, n: nat)
    requires '/' !in w
    ensures Erase(w) == w && Breaks(w, n) == {}
  {
    assert w + "" == w;
    ErasePrefix(w, "", n);
  }

  /** The text of two segments. */
  lemma OneSlashText(x: string, y: string)
    requires '/' !in x && '/' !in y
    ensures Erase(x + ("/" + y)) == x + y && Breaks(x + ("/" + y), 0) == {|x|}
  {
    hide Erase, Breaks;
    SlashFirst(y, |x|);
    NoSlashText(y, |x|);
    ErasePrefix(x, "/" + y, 0);
  }

  lemma SlashFirst(s: string, n: nat)
    ensures Erase("/" + s) == Erase(s) && Breaks("/" + s, n) == {n} + Breaks(s, n)
  {
    assert ("/" + s)[1..] == s;
  }

  /** The path of one segment and the path of two, behind their first slash. */
  lemma PathTexts(x: string, y: string)
    ensures ("/" + x + y)[1..] == x + y && ("/" + x + "/" + y)[1..] == x + ("/" + y)
    ensures ("/" + x + y)[0] == '/' && ("/" + x + "/" + y)[0] == '/'
  {
  }

  lemma OneSlashTidy(x: string, y: string)
    requires x != "" && y != "" && '/' !in x && '/' !in y
    ensures Tidy(x + ("/" + y)) && Tidy(x + y)
  {
    assert x[0] in x && y[|y| - 1] in y;
    var s := x + ("/" + y);
    forall k | 0 <= k < |s| - 1 ensures !(s[k] == '/' && s[k + 1] == '/') {
      assert k < |x| ==> s[k] == x[k] && x[k] in x;
      assert k >= |x| ==> s[k + 1] == y[k - |x|] && y[k - |x|] in y;
    }
    forall k | 0 <= k < |x + y| ensures (x + y)[k] != '/' {
      assert (x + y)[k] in x || (x + y)[k] in y;
    }
  }
}
