/**
 The router as it runs: one trie object per method, registration that creates tries on
 demand, and dispatch that fills a result step by step.
 */
module Router {
  import opened Bytes
  import opened Options
  import opened RadixSpec
  import RadixShape
  import RadixTrie
  import opened PathSpec
  import Path
  import opened DispatchSpec

  method HasEncodedNull(path: string) returns (found: bool)
    ensures found == HasEncodedNul(path)
  {
    var i := 0;
    while i + 2 < |path|
      invariant 0 <= i <= |path|
      invariant forall k: nat | k < i :: !EncodedNulAt(path, k)
    {
      if path[i] == '%' && path[i + 1] == '0' && path[i + 2] == '0' {
        assert EncodedNulAt(path, i);
        return true;
      }
      i := i + 1;
    }
    return false;
  }

  lemma {:induction false} StoragePrefix(caps: seq<Capture>, i: nat)
    requires i <= |caps|
    ensures StorageNeeded(caps[..i]) <= StorageNeeded(caps)
    decreases |caps| - i
  {
    if i == |caps| {
      assert caps[..i] == caps;
    } else {
      assert caps[..i + 1][..i] == caps[..i];
      StoragePrefix(caps, i + 1);
    }
  }

  /** Where the `i`-th value goes. */
  function Offset(caps: seq<Capture>, i: nat): nat
    requires i <= |caps|
  {
    StorageNeeded(caps[..i])
  }

  lemma OffsetNext(caps: seq<Capture>, i: nat)
    requires i < |caps|
    ensures Offset(caps, i + 1) == Offset(caps, i) + |caps[i].value| + 1
  {
    assert caps[..i + 1][..i] == caps[..i];
  }

  ghost predicate Stored(storage: seq<char>, caps: seq<Capture>, i: nat)
    requires i < |caps|
  {
    var at, v := Offset(caps, i), caps[i].value;
    at + |v| < |storage| && storage[at..at + |v|] == v && storage[at + |v|] == NUL
  }

  /** Writing behind the stored values leaves them stored. */
  lemma StillStored(was: seq<char>, now: seq<char>, caps: seq<Capture>, k: nat, used: nat)
    requires k < |caps| && Stored(was, caps, k) && Offset(caps, k) + |caps[k].value| < used <= |now| == |was|
    requires forall i :: 0 <= i < used ==> now[i] == was[i]
    ensures Stored(now, caps, k)
  {
    hide StorageNeeded;
    var at, w := Offset(caps, k), caps[k].value;
    assert now[at..at + |w|] == was[at..at + |w|];
  }

  /**
   Copy the captured values into the result's own storage, NUL-terminated, one behind the
   other. Fails exactly when they do not all fit.
   */
  method StabilizeParamValues(caps: seq<Capture>, storage: array<char>) returns (ok: bool, used: nat)
    requires storage.Length == MAX_PARAM_STORAGE
    modifies storage
    ensures ok == (StorageNeeded(caps) <= MAX_PARAM_STORAGE)
    ensures ok ==> used == StorageNeeded(caps) && forall i :: 0 <= i < |caps| ==> Stored(storage[..], caps, i)
  {
    hide StorageNeeded, Stored;
    used := 0;
    OffsetZero(caps);
    for i := 0 to |caps|
      invariant used == Offset(caps, i) <= MAX_PARAM_STORAGE
      invariant forall k :: 0 <= k < i ==> Offset(caps, k) + |caps[k].value| < used && Stored(storage[..], caps, k)
    {
      var v := caps[i].value;
      OffsetNext(caps, i);
      StoragePrefix(caps, i + 1);
      if used + |v| + 1 > MAX_PARAM_STORAGE { return false, 0; }
      ghost var was := storage[..];
      CopyValue(storage, used, v);
      forall k | 0 <= k < i ensures Stored(storage[..], caps, k) { StillStored(was, storage[..], caps, k, used); }
      JustStored(storage[..], caps, i);
      used := used + |v| + 1;
    }
    assert caps[..|caps|] == caps;
    ok := true;
  }

  lemma JustStored(storage: seq<char>, caps: seq<Capture>, i: nat)
    requires i < |caps|
    requires var at, v := Offset(caps, i), caps[i].value; at + |v| < |storage| && storage[at..at + |v|] == v
                                                          && storage[at + |v|] == NUL
    ensures Stored(storage, caps, i)
  {
  }

  lemma OffsetZero(caps: seq<Capture>)
    ensures Offset(caps, 0) == 0
  {
    assert caps[..0] == [];
  }

  method CopyValue(storage: array<char>, at: nat, v: string)
    requires at + |v| < storage.Length
    modifies storage
    ensures storage[..][at..at + |v|] == v && storage[at + |v|] == NUL
    ensures forall k :: 0 <= k < at ==> storage[k] == old(storage[k])
  {
    Path.CopyTo(storage, at, v);
    storage[at + |v|] := NUL;
    assert storage[..][at..at + |v|] == v;
  }

  class Router {
    const trees: array<RadixTrie.Trie?>

    /** The tries as values, and the objects they consist of. */
    ghost var value: DispatchSpec.Router
    ghost var repr: set<object>

    ghost predicate Holds(i: nat)
      requires i < METHOD_COUNT && trees.Length == METHOD_COUNT && this in repr && trees in repr
      reads this, repr
    {
      if trees[i] == null then value[i] == None
      else
        && trees[i] in repr && trees[i].root in repr && trees[i].root.repr <= repr
        && trees[i].Valid() && value[i] == Some(trees[i].root.tree)
    }

    ghost predicate Valid()
      reads this, repr
    {
      && this in repr && trees in repr && trees.Length == METHOD_COUNT
      && (forall i :: 0 <= i < METHOD_COUNT ==> Holds(i))
      && (forall i, j :: 0 <= i < j < METHOD_COUNT && trees[i] != null && trees[j] != null ==>
            Holds(i) && Holds(j) && trees[i] != trees[j] && trees[i].root.repr !! trees[j].root.repr)
    }

    constructor ()
      ensures Valid() && fresh(repr) && forall i :: 0 <= i < METHOD_COUNT ==> value[i] == None
    {
      trees := new RadixTrie.Trie?[METHOD_COUNT](_ => null);
      value := [None, None, None, None, None, None, None, None, None];
      new;
      repr := {this, trees};
    }

    /** Create the method's trie if it has none yet. */
    method EnsureTree(verb: nat)
      requires Valid() && verb < METHOD_COUNT
      modifies this, trees
      ensures Valid() && old(repr) <= repr && fresh(repr - old(repr)) && trees[verb] != null
      ensures value == old(value)[verb := Some(if old(value)[verb].Some? then old(value)[verb].value else EMPTY)]
      ensures forall i :: 0 <= i < METHOD_COUNT && i != verb ==> trees[i] == old(trees[i])
    {
      hide RadixTrie.Node.Valid, RadixShape.Shape;
      assert Holds(verb);
      if trees[verb] == null {
        var t := new RadixTrie.Trie();
        trees[verb] := t;
        value := value[verb := Some(EMPTY)];
        repr := repr + {t, t.root} + t.root.repr;
        forall i | 0 <= i < METHOD_COUNT ensures Holds(i) { assert i != verb ==> old(Holds(i)); }
      }
    }

    /** Register a route; other methods' tries are untouched. */
    method AddRoute(verb: nat, pattern: string, r: Route) returns (st: Status)
      requires Valid()
      modifies repr
      ensures Valid() && old(repr) <= repr && fresh(repr - old(repr))
      ensures verb >= METHOD_COUNT ==> st == Invalid && value == old(value)
      ensures verb < METHOD_COUNT ==>
        var t := if old(value)[verb].Some? then old(value)[verb].value else EMPTY;
        var p := InsertPattern(t, pattern, r);
        st == p.1 && value == old(value)[verb := Some(p.0)]
    {
      hide RadixTrie.Node.Valid, RadixShape.Shape, InsertPattern;
      if verb >= METHOD_COUNT { return Invalid; }
      EnsureTree(verb);
      assert Holds(verb);
      label before:
      st := trees[verb].InsertPattern(pattern, r);
      value := value[verb := Some(trees[verb].root.tree)];
      repr := repr + trees[verb].root.repr;
      forall i | 0 <= i < METHOD_COUNT ensures Holds(i) { assert i != verb ==> old@before(Holds(i)); }
    }

    /** Look the path up in one method's trie. */
    method MatchTree(i: nat, path: string) returns (m: Option<Match>)
      requires Valid()
      ensures m == TreeMatch(value, i, path)
    {
      hide LookupPath;
      if i >= METHOD_COUNT { return None; }
      assert Holds(i);
      if trees[i] == null { return None; }
      var rec := new RadixTrie.MatchRecord();
      var found := trees[i].LookupPath(path, rec);
      if found { return Some(Match(rec.route.value, rec.params[..rec.count])); }
      return None;
    }

    method SettleMatch(m: Match) returns (result: Result)
      ensures result == Settle(m)
    {
      var storage := new char[MAX_PARAM_STORAGE](_ => NUL);
      var ok, used := StabilizeParamValues(m.captures, storage);
      result := if ok then Result(Found, Some(m.route), m.captures, "", "")
                else Result(NotFound, Some(m.route), [], "", "");
    }

    method AllowedMethods(verb: nat, path: string) returns (allowed: string)
      requires Valid()
      ensures allowed == Allowed(value, verb, path, METHOD_COUNT)
    {
      hide TreeMatch, Valid, MethodName;
      allowed := "";
      for i := 0 to METHOD_COUNT
        invariant allowed == Allowed(value, verb, path, i)
      {
        if i != verb {
          var m := MatchTree(i, path);
          if m.Some? {
            allowed := allowed + (if allowed == "" then "" else ", ") + MethodName(i);
          }
        }
      }
    }

    method AnyTreeMatches(path: string) returns (any: bool)
      requires Valid()
      ensures any == AnyMatch(value, path)
    {
      hide TreeMatch, Valid;
      for i := 0 to METHOD_COUNT
        invariant forall k: nat | k < i :: TreeMatch(value, k, path).None?
      {
        var m := MatchTree(i, path);
        if m.Some? { return true; }
      }
      return false;
    }

    method DispatchMethod(verb: nat, normalized: string) returns (result: Result)
      requires Valid()
      ensures result == DispatchNormal(value, verb, normalized)
    {
      hide TreeMatch, Allowed, Valid;
      var own := MatchTree(verb, normalized);
      if own.Some? {
        result := SettleMatch(own.value);
        return;
      }
      if verb == HEAD {
        var get := MatchTree(GET, normalized);
        if get.Some? {
          result := SettleMatch(get.value);
          return;
        }
      }
      var allowed := AllowedMethods(verb, normalized);
      result := if allowed == "" then NOT_FOUND else Result(MethodNotAllowed, None, [], allowed, "");
    }

    method Dispatch(verb: nat, path: string) returns (result: Result)
      requires Valid()
      ensures result == DispatchSpec.Dispatch(value, verb, path)
    {
      hide Normalize, HasEncodedNul, AnyMatch, DispatchNormal, Valid;
      if |path| == 0 { return NOT_FOUND; }
      var nul := Path.HasNul(path);
      if nul { return NOT_FOUND; }
      var encoded := HasEncodedNull(path);
      if encoded { return NOT_FOUND; }
      var buf := new char[MAX_URI_SIZE](_ => NUL);
      var ok, len := Path.NormalizePath(path, buf);
      if !ok { return NOT_FOUND; }
      var normalized := buf[..len];
      var hadTrailing := |path| > 1 && path[|path| - 1] == '/';
      var normTrailing := len > 1 && normalized[len - 1] == '/';
      if hadTrailing && !normTrailing {
        var any := AnyTreeMatches(normalized);
        if any { return Result(Redirect, None, [], "", normalized); }
      }
      result := DispatchMethod(verb, normalized);
    }
  }
}
