/**
 The router's radix trie as a value: compressed static edges, parameter and wildcard nodes,
 insertion with edge splitting, and backtracking lookup. Characters stand for bytes.
 */
module RadixSpec {
  import opened Options

  /** Node kinds in the order lookup tries them. */
  datatype Kind = Static | Param | Wildcard {
    function Rank(): nat { match this case Static => 0 case Param => 1 case Wildcard => 2 }
  }

  /** The three addresses stored with a pattern; `handler` is never null. */
  datatype Route = Route(handler: nat, metadata: nat, meta: nat)

  datatype Tree = Node(kind: Kind, edge: string, name: string, route: Option<Route>, kids: seq<Tree>)

  const EMPTY := Node(Static, "", "", None, [])

  const MAX_PATH_PARAMS: nat := 8

  // ---- Segments ----

  /** The characters up to the next slash. */
  function SegLen(s: string): (n: nat)
    ensures n <= |s| && (n < |s| ==> s[n] == '/') && '/' !in s[..n]
  {
    if s == "" || s[0] == '/' then 0 else 1 + SegLen(s[1..])
  }

  function Seg(s: string): string { s[..SegLen(s)] }

  function Rest(s: string): string { s[SegLen(s)..] }

  /** Skip one leading slash. */
  function Skip(s: string): string { if s != "" && s[0] == '/' then s[1..] else s }

  // ---- Children ----

  /** `strcmp(a, b) < 0` */
  predicate StrLess(a: string, b: string) {
    b != "" && (a == "" || a[0] < b[0] || (a[0] == b[0] && StrLess(a[1..], b[1..])))
  }

  predicate GoesBefore(child: Tree, existing: Tree) {
    || child.kind.Rank() < existing.kind.Rank()
    || (child.kind == existing.kind == Static && StrLess(child.edge, existing.edge))
  }

  function AddPos(kids: seq<Tree>, child: Tree): (p: nat)
    ensures p <= |kids| && (p < |kids| ==> GoesBefore(child, kids[p]))
    ensures forall i :: 0 <= i < p ==> !GoesBefore(child, kids[i])
  {
    if kids == [] || GoesBefore(child, kids[0]) then 0 else 1 + AddPos(kids[1..], child)
  }

  function AddChild(kids: seq<Tree>, child: Tree): (r: seq<Tree>)
    ensures |r| == |kids| + 1
    ensures forall c :: c in r <==> c in kids || c == child
  {
    var p := AddPos(kids, child);
    assert kids == kids[..p] + kids[p..];
    kids[..p] + [child] + kids[p..]
  }

  function CommonPrefixLen(a: string, b: string): (n: nat)
    ensures n <= |a| && n <= |b| && a[..n] == b[..n]
    ensures n < |a| && n < |b| ==> a[n] != b[n]
  {
    if a != "" && b != "" && a[0] == b[0] then
      var n := CommonPrefixLen(a[1..], b[1..]);
      assert a[..n + 1] == [a[0]] + a[1..][..n] && b[..n + 1] == [b[0]] + b[1..][..n];
      n + 1
    else 0
  }

  /** The first static child that shares a first character with `seg`. */
  function FindShared(kids: seq<Tree>, seg: string): (i: nat)
    ensures i <= |kids|
    ensures i < |kids| ==> kids[i].kind == Static && CommonPrefixLen(seg, kids[i].edge) > 0
    ensures forall j :: 0 <= j < i ==> !(kids[j].kind == Static && CommonPrefixLen(seg, kids[j].edge) > 0)
  {
    if kids == [] || (kids[0].kind == Static && CommonPrefixLen(seg, kids[0].edge) > 0) then 0
    else 1 + FindShared(kids[1..], seg)
  }

  function FindKind(kids: seq<Tree>, kind: Kind): (i: nat)
    ensures i <= |kids| && (i < |kids| ==> kids[i].kind == kind)
    ensures forall j :: 0 <= j < i ==> kids[j].kind != kind
  {
    if kids == [] || kids[0].kind == kind then 0 else 1 + FindKind(kids[1..], kind)
  }

  // ---- Insertion ----

  datatype Status = Inserted | Exists | Invalid

  function SetRoute(t: Tree, r: Route): (Tree, Status) {
    if t.route.Some? then (t, Exists) else (t.(route := Some(r)), Inserted)
  }

  function StaticNode(edge: string): Tree { Node(Static, edge, "", None, []) }

  function ParamNode(name: string): Tree { Node(Param, "", name, None, []) }

  function WildcardNode(name: string, r: Route): Tree { Node(Wildcard, "", name, Some(r), []) }

  /** `t` with its `i`-th child replaced by what an insertion made of it. */
  function WithChild(t: Tree, i: nat, p: (Tree, Status)): (Tree, Status)
    requires i < |t.kids|
  {
    (t.(kids := t.kids[i := p.0]), p.1)
  }

  /** `t` with a child added in its place. */
  function WithNewChild(t: Tree, p: (Tree, Status)): (Tree, Status) {
    (t.(kids := AddChild(t.kids, p.0)), p.1)
  }

  /** Insert the pattern `rest` below `t`. The trie may change even when insertion fails. */
  function Insert(t: Tree, rest: string, r: Route): (Tree, Status)
    decreases |rest|, 1
  {
    var text := Skip(rest);
    var seg, next := Seg(text), Rest(text);
    if seg == "" then SetRoute(t, r)
    else if seg[0] == '*' then
      if next != "" || |seg| == 1 then (t, Invalid)
      else
        var j := FindKind(t.kids, Wildcard);
        if j == |t.kids| then WithNewChild(t, (WildcardNode(seg[1..], r), Inserted))
        else if t.kids[j].name != seg[1..] then (t, Exists)
        else WithChild(t, j, SetRoute(t.kids[j], r))
    else if seg[0] == ':' then
      if |seg| == 1 then (t, Invalid)
      else
        var j := FindKind(t.kids, Param);
        if j == |t.kids| then WithNewChild(t, Insert(ParamNode(seg[1..]), next, r))
        else if t.kids[j].name != seg[1..] then (t, Exists)
        else WithChild(t, j, Insert(t.kids[j], next, r))
    else InsertStatic(t, text, r)
  }

  /** Split an edge after `n` characters. */
  function Split(c: Tree, n: nat): Tree
    requires n <= |c.edge|
  {
    Node(Static, c.edge[..n], "", None, [c.(edge := c.edge[n..])])
  }

  /** Insert the rest of a static segment and the pattern behind it below `t`. */
  function InsertStatic(t: Tree, text: string, r: Route): (Tree, Status)
    requires Seg(text) != ""
    decreases |text|, 0
  {
    var seg, next := Seg(text), Rest(text);
    var i := FindShared(t.kids, seg);
    if i == |t.kids| then WithNewChild(t, Insert(StaticNode(seg), next, r))
    else
      var child := t.kids[i];
      var n := CommonPrefixLen(seg, child.edge);
      if n < |child.edge| then
        var mid := Split(child, n);
        if n == |seg| then WithChild(t, i, Insert(mid, next, r))
        else WithChild(t, i, WithNewChild(mid, Insert(StaticNode(seg[n..]), next, r)))
      else if n == |seg| then WithChild(t, i, Insert(child, next, r))
      else
        SegDrop(text, n);
        WithChild(t, i, InsertStatic(child, text[n..], r))
  }

  lemma {:induction false} SegLenDrop(text: string, n: nat)
    requires n <= SegLen(text)
    ensures SegLen(text[n..]) == SegLen(text) - n
    decreases n
  {
    if n == 0 {
      assert text[0..] == text;
    } else {
      SegLenDrop(text[1..], n - 1);
      assert text[1..][n - 1..] == text[n..];
    }
  }

  /** Dropping characters of a segment drops them from the text's segment. */
  lemma SegDrop(text: string, n: nat)
    requires n <= SegLen(text)
    ensures Seg(text[n..]) == Seg(text)[n..] && Rest(text[n..]) == Rest(text)
  {
    hide SegLen;
    SegLenDrop(text, n);
  }

  /** The public entry point: patterns start with a slash. */
  function InsertPattern(t: Tree, pattern: string, r: Route): (Tree, Status) {
    if pattern == "" || pattern[0] != '/' then (t, Invalid) else Insert(t, pattern, r)
  }

  // ---- Lookup ----

  datatype Capture = Capture(name: string, value: string)

  datatype Match = Match(route: Route, captures: seq<Capture>)

  predicate IsEdgeOf(edge: string, seg: string) { |edge| <= |seg| && seg[..|edge|] == edge }

  /** Try the static children of `t` from the `i`-th on against the rest of a segment. */
  function LookupStatic(t: Tree, text: string, i: nat, caps: seq<Capture>): Option<Match>
    requires i <= |t.kids|
    decreases t, |t.kids| - i
  {
    if i == |t.kids| then None
    else
      var c := t.kids[i];
      var found :=
        if c.kind != Static || !IsEdgeOf(c.edge, Seg(text)) then None
        else if |c.edge| == |Seg(text)| then Lookup(c, Rest(text), caps)
        else LookupStatic(c, text[|c.edge|..], 0, caps);
      if found.Some? then found else LookupStatic(t, text, i + 1, caps)
  }

  function LookupParam(t: Tree, text: string, i: nat, caps: seq<Capture>): Option<Match>
    requires i <= |t.kids|
    decreases t, |t.kids| - i
  {
    if i == |t.kids| then None
    else if t.kids[i].kind != Param then LookupParam(t, text, i + 1, caps)
    else if |caps| >= MAX_PATH_PARAMS then None
    else
      var found := Lookup(t.kids[i], Rest(text), caps + [Capture(t.kids[i].name, Seg(text))]);
      if found.Some? then found else LookupParam(t, text, i + 1, caps)
  }

  function LookupWildcard(t: Tree, text: string, i: nat, caps: seq<Capture>): Option<Match>
    requires i <= |t.kids|
    decreases |t.kids| - i
  {
    if i == |t.kids| then None
    else if t.kids[i].kind != Wildcard || t.kids[i].route.None? then LookupWildcard(t, text, i + 1, caps)
    else if |caps| >= MAX_PATH_PARAMS then None
    else Some(Match(t.kids[i].route.value, caps + [Capture(t.kids[i].name, text)]))
  }

  function Lookup(t: Tree, path: string, caps: seq<Capture>): Option<Match>
    decreases t, |t.kids| + 1
  {
    var text := Skip(path);
    if text == "" then
      if t.route.Some? then Some(Match(t.route.value, caps)) else None
    else
      var s := LookupStatic(t, text, 0, caps);
      if s.Some? then s
      else
        var p := LookupParam(t, text, 0, caps);
        if p.Some? then p else LookupWildcard(t, text, 0, caps)
  }

  /** The public entry point. */
  function LookupPath(t: Tree, path: string): Option<Match> {
    if path == "" then None else Lookup(t, path, [])
  }
}
