/**
 Lookup is an exact ordered search. A derivation of a path is the list of child indices that
 leads to a handler; lookup finds the lexicographically first one, and fails exactly when
 there is none.
 */
module RadixLookup {
  import opened Options
  import opened RadixSpec
  import opened RadixShape

  /** `ways` leads from `t` to `m` on `path`, with `caps` captured before. */
  ghost predicate Derives(t: Tree, path: string, caps: seq<Capture>, ways: seq<nat>, m: Match)
    decreases |ways|, 1
  {
    var text := Skip(path);
    if text == "" then ways == [] && t.route.Some? && m == Match(t.route.value, caps)
    else
      && ways != [] && ways[0] < |t.kids|
      && var c := t.kids[ways[0]];
         match c.kind
         case Static => DerivesEdge(t, text, caps, ways, m)
         case Param =>
           |caps| < MAX_PATH_PARAMS && Derives(c, Rest(text), caps + [Capture(c.name, Seg(text))], ways[1..], m)
         case Wildcard =>
           && |caps| < MAX_PATH_PARAMS && ways[1..] == [] && c.route.Some?
           && m == Match(c.route.value, caps + [Capture(c.name, text)])
  }

  /** `ways` starts with a static child whose edge is the next part of the segment. */
  ghost predicate DerivesEdge(t: Tree, text: string, caps: seq<Capture>, ways: seq<nat>, m: Match)
    decreases |ways|, 0
  {
    && ways != [] && ways[0] < |t.kids|
    && var c := t.kids[ways[0]];
       && c.kind == Static && IsEdgeOf(c.edge, Seg(text))
       && if |c.edge| == |Seg(text)| then Derives(c, Rest(text), caps, ways[1..], m)
          else DerivesEdge(c, text[|c.edge|..], caps, ways[1..], m)
  }

  /** Lexicographic order on derivations. */
  predicate LexLe(a: seq<nat>, b: seq<nat>) {
    a == [] || (b != [] && (a[0] < b[0] || (a[0] == b[0] && LexLe(a[1..], b[1..]))))
  }

  /** The derivations of the static search that start at the `i`-th child or later. */
  ghost predicate EdgeFrom(t: Tree, text: string, i: nat, caps: seq<Capture>, ways: seq<nat>, m: Match) {
    DerivesEdge(t, text, caps, ways, m) && ways[0] >= i
  }

  /** The rest of a derivation behind the static child `c`. */
  ghost predicate After(c: Tree, text: string, caps: seq<Capture>, ways: seq<nat>, m: Match) {
    && c.kind == Static && IsEdgeOf(c.edge, Seg(text))
    && if |c.edge| == |Seg(text)| then Derives(c, Rest(text), caps, ways, m)
       else DerivesEdge(c, text[|c.edge|..], caps, ways, m)
  }

  /** What lookup makes of the static child `c`. */
  function LookupAfter(c: Tree, text: string, caps: seq<Capture>): Option<Match> {
    if c.kind != Static || !IsEdgeOf(c.edge, Seg(text)) then None
    else if |c.edge| == |Seg(text)| then Lookup(c, Rest(text), caps)
    else LookupStatic(c, text[|c.edge|..], 0, caps)
  }

  lemma EdgeFromAfter(t: Tree, text: string, i: nat, caps: seq<Capture>, w: seq<nat>, m: Match)
    ensures EdgeFrom(t, text, i, caps, w, m)
            <==> w != [] && i <= w[0] < |t.kids| && After(t.kids[w[0]], text, caps, w[1..], m)
  {
  }

  lemma LexCons(i: nat, sub: seq<nat>, w: seq<nat>)
    requires w != [] && (i < w[0] || (i == w[0] && LexLe(sub, w[1..])))
    ensures LexLe([i] + sub, w)
  {
    assert ([i] + sub)[1..] == sub;
  }

  lemma {:induction false} AfterFirst(c: Tree, text: string, caps: seq<Capture>) returns (ways: seq<nat>)
    requires Shape(c)
    ensures
      var found := LookupAfter(c, text, caps);
      if found.Some? then
        After(c, text, caps, ways, found.value) && forall w, m :: After(c, text, caps, w, m) ==> LexLe(ways, w)
      else forall w, m :: !After(c, text, caps, w, m)
    decreases c, |c.kids| + 2
  {
    hide Lookup, LookupStatic, Derives, DerivesEdge, LexLe;
    ways := [];
    if c.kind == Static && IsEdgeOf(c.edge, Seg(text)) {
      if |c.edge| == |Seg(text)| {
        ways := LookupFirst(c, Rest(text), caps);
      } else {
        ways := StaticFirst(c, text[|c.edge|..], 0, caps);
        forall w, m | After(c, text, caps, w, m)
          ensures EdgeFrom(c, text[|c.edge|..], 0, caps, w, m)
        {
          EdgeNonEmpty(c, text[|c.edge|..], caps, w, m);
        }
      }
    }
  }

  lemma EdgeNonEmpty(t: Tree, text: string, caps: seq<Capture>, w: seq<nat>, m: Match)
    requires DerivesEdge(t, text, caps, w, m)
    ensures EdgeFrom(t, text, 0, caps, w, m)
  {
  }

  lemma {:induction false} StaticFirst(t: Tree, text: string, i: nat, caps: seq<Capture>) returns (ways: seq<nat>)
    requires Shape(t) && i <= |t.kids|
    ensures
      var found := LookupStatic(t, text, i, caps);
      if found.Some? then
        EdgeFrom(t, text, i, caps, ways, found.value)
        && forall w, m :: EdgeFrom(t, text, i, caps, w, m) ==> LexLe(ways, w)
      else forall w, m :: !EdgeFrom(t, text, i, caps, w, m)
    decreases t, |t.kids| - i
  {
    ways := [];
    if i == |t.kids| {
      forall w, m ensures !EdgeFrom(t, text, i, caps, w, m) { EdgeFromAfter(t, text, i, caps, w, m); }
    } else {
      hide Lookup, EdgeFrom, After, LexLe;
      var c := t.kids[i];
      KidShape(t, i);
      var rest := StaticFirst(t, text, i + 1, caps);
      var sub := AfterFirst(c, text, caps);
      var found := LookupAfter(c, text, caps);
      forall w, m | EdgeFrom(t, text, i, caps, w, m)
        ensures w != [] && (EdgeFrom(t, text, i + 1, caps, w, m) || After(c, text, caps, w[1..], m))
      {
        EdgeFromAfter(t, text, i, caps, w, m);
        EdgeFromAfter(t, text, i + 1, caps, w, m);
      }
      if found.Some? {
        ways := [i] + sub;
        assert ways[1..] == sub;
        EdgeFromAfter(t, text, i, caps, ways, found.value);
        forall w, m | EdgeFrom(t, text, i, caps, w, m) ensures LexLe(ways, w) {
          EdgeFromAfter(t, text, i, caps, w, m);
          LexCons(i, sub, w);
        }
      } else {
        ways := rest;
        if LookupStatic(t, text, i + 1, caps).Some? {
          EdgeFromAfter(t, text, i, caps, ways, LookupStatic(t, text, i + 1, caps).value);
          EdgeFromAfter(t, text, i + 1, caps, ways, LookupStatic(t, text, i + 1, caps).value);
        }
      }
    }
  }

  /** The derivations that start with a child of the given kind, the `i`-th or a later one. */
  ghost predicate FromKind(t: Tree, path: string, kind: Kind, i: nat, caps: seq<Capture>, ways: seq<nat>, m: Match) {
    Derives(t, path, caps, ways, m) && ways != [] && ways[0] < |t.kids| && ways[0] >= i && t.kids[ways[0]].kind == kind
  }

  lemma ParamFromKind(t: Tree, path: string, i: nat, caps: seq<Capture>, w: seq<nat>, m: Match)
    requires Skip(path) != ""
    ensures FromKind(t, path, Param, i, caps, w, m)
            <==> w != [] && i <= w[0] < |t.kids| && t.kids[w[0]].kind == Param && |caps| < MAX_PATH_PARAMS
                 && Derives(t.kids[w[0]], Rest(Skip(path)),
                            caps + [Capture(t.kids[w[0]].name, Seg(Skip(path)))], w[1..], m)
  {
  }

  lemma {:induction false} ParamFirst(t: Tree, path: string, i: nat, caps: seq<Capture>) returns (ways: seq<nat>)
    requires Shape(t) && i <= |t.kids| && Skip(path) != ""
    ensures
      var found := LookupParam(t, Skip(path), i, caps);
      if found.Some? then
        FromKind(t, path, Param, i, caps, ways, found.value)
        && forall w, m :: FromKind(t, path, Param, i, caps, w, m) ==> LexLe(ways, w)
      else forall w, m :: !FromKind(t, path, Param, i, caps, w, m)
    decreases t, |t.kids| - i
  {
    hide Lookup, Derives, LexLe, FromKind;
    ways := [];
    var text := Skip(path);
    if i == |t.kids| || |caps| >= MAX_PATH_PARAMS {
      forall w, m ensures !FromKind(t, path, Param, i, caps, w, m) { ParamFromKind(t, path, i, caps, w, m); }
      if |caps| >= MAX_PATH_PARAMS { NoParamRoom(t, text, i, caps); }
    } else {
      var c := t.kids[i];
      KidShape(t, i);
      var rest := ParamFirst(t, path, i + 1, caps);
      var caps' := caps + [Capture(c.name, Seg(text))];
      var sub := LookupFirst(c, Rest(text), caps');
      forall w, m | FromKind(t, path, Param, i, caps, w, m)
        ensures w != []
                && (FromKind(t, path, Param, i + 1, caps, w, m)
                   || (w[0] == i && c.kind == Param && Derives(c, Rest(text), caps', w[1..], m)))
      {
        ParamFromKind(t, path, i, caps, w, m);
        ParamFromKind(t, path, i + 1, caps, w, m);
      }
      if c.kind == Param && Lookup(c, Rest(text), caps').Some? {
        ways := [i] + sub;
        assert ways[1..] == sub;
        ParamFromKind(t, path, i, caps, ways, Lookup(c, Rest(text), caps').value);
        forall w, m | FromKind(t, path, Param, i, caps, w, m) ensures LexLe(ways, w) {
          ParamFromKind(t, path, i, caps, w, m);
          LexCons(i, sub, w);
        }
      } else {
        ways := rest;
        if LookupParam(t, text, i + 1, caps).Some? {
          ParamFromKind(t, path, i, caps, ways, LookupParam(t, text, i + 1, caps).value);
          ParamFromKind(t, path, i + 1, caps, ways, LookupParam(t, text, i + 1, caps).value);
        }
      }
    }
  }

  lemma {:induction false} NoParamRoom(t: Tree, text: string, i: nat, caps: seq<Capture>)
    requires i <= |t.kids| && |caps| >= MAX_PATH_PARAMS
    ensures LookupParam(t, text, i, caps).None?
    decreases |t.kids| - i
  {
    if i < |t.kids| { NoParamRoom(t, text, i + 1, caps); }
  }

  lemma {:induction false} WildcardFirst(t: Tree, path: string, i: nat, caps: seq<Capture>) returns (ways: seq<nat>)
    requires Shape(t) && i <= |t.kids| && Skip(path) != ""
    ensures
      var found := LookupWildcard(t, Skip(path), i, caps);
      if found.Some? then
        FromKind(t, path, Wildcard, i, caps, ways, found.value)
        && forall w, m :: FromKind(t, path, Wildcard, i, caps, w, m) ==> LexLe(ways, w)
      else forall w, m :: !FromKind(t, path, Wildcard, i, caps, w, m)
    decreases |t.kids| - i
  {
    ways := [];
    if i < |t.kids| {
      if t.kids[i].kind != Wildcard || t.kids[i].route.None? {
        ways := WildcardFirst(t, path, i + 1, caps);
        forall w, m | FromKind(t, path, Wildcard, i, caps, w, m)
          ensures FromKind(t, path, Wildcard, i + 1, caps, w, m) {}
      } else if |caps| < MAX_PATH_PARAMS {
        ways := [i];
        assert ways[1..] == [];
        assert FromKind(t, path, Wildcard, i, caps, ways, LookupWildcard(t, Skip(path), i, caps).value);
      }
    }
  }

  /** The static children come first, then the parameter, then the wildcard. */
  lemma KindOrder(t: Tree, i: nat, j: nat)
    requires Shape(t) && i < |t.kids| && j < |t.kids| && t.kids[i].kind.Rank() < t.kids[j].kind.Rank()
    ensures i < j
  {
    assert j < i ==> Before(t.kids[j], t.kids[i]);
  }

  lemma EdgeIsFromKind(t: Tree, path: string, caps: seq<Capture>, w: seq<nat>, m: Match)
    requires Skip(path) != ""
    ensures EdgeFrom(t, Skip(path), 0, caps, w, m) <==> FromKind(t, path, Static, 0, caps, w, m)
  {
  }

  /** Lookup returns the first derivation, and nothing exactly when there is no derivation. */
  lemma {:induction false} LookupFirst(t: Tree, path: string, caps: seq<Capture>) returns (ways: seq<nat>)
    requires Shape(t)
    ensures
      var found := Lookup(t, path, caps);
      if found.Some? then
        Derives(t, path, caps, ways, found.value)
        && forall w, m :: Derives(t, path, caps, w, m) ==> LexLe(ways, w)
      else forall w, m :: !Derives(t, path, caps, w, m)
    decreases t, |t.kids| + 1
  {
    ways := [];
    if Skip(path) != "" {
      hide LookupStatic, LookupParam, LookupWildcard, Shape;
      var text := Skip(path);
      var s := StaticFirst(t, text, 0, caps);
      var p := ParamFirst(t, path, 0, caps);
      var x := WildcardFirst(t, path, 0, caps);
      if LookupStatic(t, text, 0, caps).Some? {
        ways := s;
      } else if LookupParam(t, text, 0, caps).Some? {
        ways := p;
      } else {
        ways := x;
      }
      forall w, m | Derives(t, path, caps, w, m)
        ensures Lookup(t, path, caps).Some? && LexLe(ways, w)
      {
        FirstOfKinds(t, path, caps, s, p, x, ways, w, m);
      }
      if LookupStatic(t, text, 0, caps).Some? {
        EdgeIsFromKind(t, path, caps, s, LookupStatic(t, text, 0, caps).value);
      }
    }
  }

  lemma FirstOfKinds(t: Tree, path: string, caps: seq<Capture>, s: seq<nat>, p: seq<nat>, x: seq<nat>,
                     ways: seq<nat>, w: seq<nat>, m: Match)
    requires Shape(t) && Skip(path) != "" && Derives(t, path, caps, w, m)
    requires
      var found := LookupStatic(t, Skip(path), 0, caps);
      if found.Some? then
        EdgeFrom(t, Skip(path), 0, caps, s, found.value)
            && (forall w, m :: EdgeFrom(t, Skip(path), 0, caps, w, m) ==> LexLe(s, w))
      else forall w, m :: !EdgeFrom(t, Skip(path), 0, caps, w, m)
    requires
      var found := LookupParam(t, Skip(path), 0, caps);
      if found.Some? then
        FromKind(t, path, Param, 0, caps, p, found.value)
            && (forall w, m :: FromKind(t, path, Param, 0, caps, w, m) ==> LexLe(p, w))
      else forall w, m :: !FromKind(t, path, Param, 0, caps, w, m)
    requires
      var found := LookupWildcard(t, Skip(path), 0, caps);
      if found.Some? then
        FromKind(t, path, Wildcard, 0, caps, x, found.value)
            && (forall w, m :: FromKind(t, path, Wildcard, 0, caps, w, m) ==> LexLe(x, w))
      else forall w, m :: !FromKind(t, path, Wildcard, 0, caps, w, m)
    requires ways == if LookupStatic(t, Skip(path), 0, caps).Some? then s
                     else if LookupParam(t, Skip(path), 0, caps).Some? then p else x
    ensures Lookup(t, path, caps).Some? && LexLe(ways, w)
  {
    hide LookupStatic, LookupParam, LookupWildcard, Shape;
    var kind := t.kids[w[0]].kind;
    assert FromKind(t, path, kind, 0, caps, w, m);
    EdgeIsFromKind(t, path, caps, w, m);
    if LookupStatic(t, Skip(path), 0, caps).Some? && kind != Static {
      KindOrder(t, s[0], w[0]);
    }
    if LookupStatic(t, Skip(path), 0, caps).None? && LookupParam(t, Skip(path), 0, caps).Some? && kind == Wildcard {
      KindOrder(t, p[0], w[0]);
    }
  }
}
