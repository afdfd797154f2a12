/**
 Path normalization: collapse slashes, resolve "." and ".." (compare section 5.2.4 of RFC 3986),
 but reject a path that climbs above the root instead of stopping there.
 */
module PathSpec {
  import opened Options
  import opened RadixSpec

  const MAX_DEPTH: nat := 256

  /** The non-empty segments of a path. */
  function Segs(p: string): seq<string>
    decreases |p|
  {
    if p == "" then [] else if p[0] == '/' then Segs(p[1..]) else [Seg(p)] + Segs(Rest(p))
  }

  predicate IsDot(s: string) { s == "." }
  predicate IsDotDot(s: string) { s == ".." }
  predicate IsName(s: string) { !IsDot(s) && !IsDotDot(s) }

  /** The segment stack after one more segment; `None` above the root or too deep. */
  function Push(stack: seq<string>, s: string): Option<seq<string>> {
    if IsDot(s) then Some(stack)
    else if IsDotDot(s) then if stack == [] then None else Some(stack[..|stack| - 1])
    else if |stack| >= MAX_DEPTH then None
    else Some(stack + [s])
  }

  /** The segment stack at the end. */
  function Resolve(segs: seq<string>): Option<seq<string>> {
    if segs == [] then Some([])
    else
      var before := Resolve(segs[..|segs| - 1]);
      if before.None? then None else Push(before.value, segs[|segs| - 1])
  }

  function Joined(stack: seq<string>): string {
    if stack == [] then "" else Joined(stack[..|stack| - 1]) + "/" + stack[|stack| - 1]
  }

  function Join(stack: seq<string>): string { if stack == [] then "/" else Joined(stack) }

  const NUL: char := '\0'

  function Normalize(path: string, outSize: nat): Option<string> {
    if path == "" || path[0] != '/' || NUL in path then None
    else
      var stack := Resolve(Segs(path));
      if stack.None? || |Join(stack.value)| + 1 > outSize then None else Some(Join(stack.value))
  }

  // ---- Which segments survive ----

  /** How deep the path is after the given segments. */
  function Depth(segs: seq<string>): int {
    if segs == [] then 0
    else
      var s := segs[|segs| - 1];
      Depth(segs[..|segs| - 1]) + if IsDot(s) then 0 else if IsDotDot(s) then -1 else 1
  }

  /** Never above the root, never too deep. */
  predicate StaysInside(segs: seq<string>) {
    forall k :: 0 <= k <= |segs| ==> 0 <= Depth(segs[..k]) <= MAX_DEPTH
  }

  /** A name that no later ".." takes back. */
  predicate Survives(segs: seq<string>, j: nat)
    requires j < |segs|
  {
    IsName(segs[j]) && forall k :: j < k <= |segs| ==> Depth(segs[..k]) > Depth(segs[..j])
  }

  /** Among the first `n` segments, those that survive and lie less than `d` deep. */
  function Shallow(segs: seq<string>, n: nat, d: int): seq<string>
    requires n <= |segs|
  {
    if n == 0 then []
    else Shallow(segs, n - 1, d) + if Survives(segs, n - 1) && Depth(segs[..n - 1]) < d then [segs[n - 1]] else []
  }

  /** The surviving segments, in order. */
  function Survivors(segs: seq<string>, n: nat): seq<string>
    requires n <= |segs|
  {
    if n == 0 then []
    else Survivors(segs, n - 1) + if Survives(segs, n - 1) then [segs[n - 1]] else []
  }

  lemma StaysInsidePrefix(segs: seq<string>, n: nat)
    requires StaysInside(segs) && n <= |segs|
    ensures StaysInside(segs[..n])
  {
    hide Depth;
    forall k | 0 <= k <= n ensures 0 <= Depth(segs[..n][..k]) <= MAX_DEPTH { assert segs[..n][..k] == segs[..k]; }
  }

  lemma StaysInsideSnoc(segs: seq<string>)
    requires segs != []
    ensures StaysInside(segs) <==> StaysInside(segs[..|segs| - 1]) && 0 <= Depth(segs) <= MAX_DEPTH
  {
    hide StaysInside, Depth;
    StaysInsideDepth(segs);
    if StaysInside(segs) { StaysInsidePrefix(segs, |segs| - 1); }
    if StaysInside(segs[..|segs| - 1]) && 0 <= Depth(segs) <= MAX_DEPTH { StaysInsideExtend(segs); }
  }

  lemma StaysInsideExtend(segs: seq<string>)
    requires segs != [] && StaysInside(segs[..|segs| - 1]) && 0 <= Depth(segs) <= MAX_DEPTH
    ensures StaysInside(segs)
  {
    hide Depth;
    var n := |segs| - 1;
    forall k | 0 <= k <= |segs| ensures 0 <= Depth(segs[..k]) <= MAX_DEPTH {
      if k <= n { assert segs[..n][..k] == segs[..k]; } else { assert segs[..k] == segs; }
    }
  }

  lemma StaysInsideDepth(segs: seq<string>)
    ensures StaysInside(segs) ==> 0 <= Depth(segs) <= MAX_DEPTH
  {
    hide Depth;
    assert segs[..|segs|] == segs;
  }

  /** Resolution succeeds exactly when the path neither climbs above the root nor gets too deep. */
  lemma {:induction false} ResolveSucceeds(segs: seq<string>)
    ensures Resolve(segs).Some? <==> StaysInside(segs)
    ensures Resolve(segs).Some? ==> |Resolve(segs).value| == Depth(segs)
    decreases |segs|
  {
    if segs == [] {
      assert segs[..0] == [];
    } else {
      hide StaysInside;
      ResolveSucceeds(segs[..|segs| - 1]);
      StaysInsideSnoc(segs);
      StaysInsideDepth(segs[..|segs| - 1]);
    }
  }

  /** A further segment takes back what lies at or below the depth it leads to. */
  lemma SurvivesSnoc(segs: seq<string>, j: nat)
    requires j < |segs| - 1
    ensures Survives(segs, j) <==> Survives(segs[..|segs| - 1], j) && Depth(segs) > Depth(segs[..j])
    ensures segs[..|segs| - 1][..j] == segs[..j]
  {
    hide Depth;
    var n := |segs| - 1;
    var before := segs[..n];
    assert segs[..|segs|] == segs && before[..j] == segs[..j];
    forall k | j < k <= n ensures before[..k] == segs[..k] {}
    if Survives(before, j) && Depth(segs) > Depth(segs[..j]) {
      forall k | j < k <= |segs| ensures Depth(segs[..k]) > Depth(segs[..j]) {
        if k <= n { assert before[..k] == segs[..k]; }
      }
    }
    if Survives(segs, j) {
      forall k | j < k <= n ensures Depth(before[..k]) > Depth(before[..j]) { assert before[..k] == segs[..k]; }
    }
  }

  lemma {:induction false} ShallowSnoc(segs: seq<string>, n: nat, d: int, d': int)
    requires n < |segs|
    requires d' == if d < Depth(segs) then d else Depth(segs)
    ensures Shallow(segs, n, d) == Shallow(segs[..|segs| - 1], n, d')
    decreases n
  {
    hide Survives, Depth;
    if n > 0 {
      ShallowSnoc(segs, n - 1, d, d');
      SurvivesSnoc(segs, n - 1);
    }
  }

  function Take(stack: seq<string>, d: int): seq<string> {
    if d <= 0 then [] else if d < |stack| then stack[..d] else stack
  }

  lemma SnocSurvives(segs: seq<string>)
    requires segs != []
    ensures Survives(segs, |segs| - 1) <==> IsName(segs[|segs| - 1])
  {
    assert segs[..|segs|] == segs;
  }

  /** The stack holds, at depth d, the one surviving segment that lies at depth d. */
  lemma {:induction false} StackIsShallow(segs: seq<string>, d: int)
    requires Resolve(segs).Some?
    ensures Shallow(segs, |segs|, d) == Take(Resolve(segs).value, d)
    decreases |segs|
  {
    if segs != [] {
      hide Survives, Depth;
      var n := |segs| - 1;
      var before, x := segs[..n], segs[n];
      var stack := Resolve(before).value;
      ResolveSucceeds(before);
      ResolveSucceeds(segs);
      var d' := if d < Depth(segs) then d else Depth(segs);
      ShallowSnoc(segs, n, d, d');
      StackIsShallow(before, d');
      SnocSurvives(segs);
    }
  }

  lemma {:induction false} SurvivorsAreShallow(segs: seq<string>, n: nat, d: int)
    requires n <= |segs| && forall j :: 0 <= j < n ==> Depth(segs[..j]) < d
    ensures Survivors(segs, n) == Shallow(segs, n, d)
    decreases n
  {
    if n > 0 { SurvivorsAreShallow(segs, n - 1, d); }
  }

  /** Resolution keeps exactly the surviving segments, in order. */
  lemma ResolveKeepsSurvivors(segs: seq<string>)
    requires Resolve(segs).Some?
    ensures Resolve(segs).value == Survivors(segs, |segs|)
  {
    hide Depth, Survives, Resolve;
    ResolveSucceeds(segs);
    SurvivorsAreShallow(segs, |segs|, MAX_DEPTH + 1);
    StackIsShallow(segs, MAX_DEPTH + 1);
    StaysInsideDepth(segs);
  }

  // ---- Normal forms ----

  predicate IsSegName(s: string) { s != "" && '/' !in s && IsName(s) }

  predicate IsStack(stack: seq<string>) {
    |stack| <= MAX_DEPTH && forall i :: 0 <= i < |stack| ==> IsSegName(stack[i])
  }

  lemma {:induction false} SegsNonEmpty(p: string)
    ensures forall i :: 0 <= i < |Segs(p)| ==> Segs(p)[i] != "" && '/' !in Segs(p)[i]
    decreases |p|
  {
    if p != "" {
      if p[0] == '/' { SegsNonEmpty(p[1..]); } else { SegsNonEmpty(Rest(p)); }
    }
  }

  lemma {:induction false} ResolveIsStack(segs: seq<string>)
    requires Resolve(segs).Some? && forall i :: 0 <= i < |segs| ==> segs[i] != "" && '/' !in segs[i]
    ensures IsStack(Resolve(segs).value)
    decreases |segs|
  {
    if segs != [] { ResolveIsStack(segs[..|segs| - 1]); }
  }

  lemma {:induction false} SegsAppend(q: string, s: string)
    requires s != "" && '/' !in s
    ensures Segs(q + ("/" + s)) == Segs(q) + [s]
    decreases |q|
  {
    hide SegLen, Seg, Rest;
    var w := q + ("/" + s);
    if q == "" {
      assert w == "/" + s && w[1..] == s;
      SegsOne(s);
    } else if q[0] == '/' {
      assert w[1..] == q[1..] + ("/" + s);
      SegsAppend(q[1..], s);
    } else {
      RestShorter(q);
      SegAppend(q, "/" + s);
      SegsAppend(Rest(q), s);
      assert [Seg(q)] + (Segs(Rest(q)) + [s]) == [Seg(q)] + Segs(Rest(q)) + [s];
    }
  }

  lemma RestShorter(q: string)
    requires q != "" && q[0] != '/'
    ensures |Rest(q)| < |q|
  {
  }

  lemma {:induction false} SegAppend(q: string, t: string)
    requires t != "" && t[0] == '/'
    ensures Seg(q + t) == Seg(q) && Rest(q + t) == Rest(q) + t
  {
    hide SegLen;
    SegLenAppend(q, t);
    var n := SegLen(q);
    assert (q + t)[..n] == q[..n] && (q + t)[n..] == q[n..] + t;
  }

  lemma {:induction false} SegLenAppend(q: string, t: string)
    requires t != "" && t[0] == '/'
    ensures SegLen(q + t) == SegLen(q)
    decreases |q|
  {
    if q == "" {
      assert q + t == t;
    } else if q[0] != '/' {
      assert (q + t)[1..] == q[1..] + t;
      SegLenAppend(q[1..], t);
    }
  }

  lemma {:induction false} SegsOne(s: string)
    requires s != "" && '/' !in s
    ensures Segs(s) == [s]
  {
    WholeSeg(s);
  }

  lemma {:induction false} WholeSeg(s: string)
    requires '/' !in s
    ensures Seg(s) == s && Rest(s) == ""
    decreases |s|
  {
    if s != "" { WholeSeg(s[1..]); }
  }

  lemma {:induction false} SegsOfJoined(stack: seq<string>)
    requires IsStack(stack)
    ensures Segs(Joined(stack)) == stack && (stack == [] || (Joined(stack) != "" && Joined(stack)[0] == '/'))
    decreases |stack|
  {
    if stack != [] {
      var before, s := stack[..|stack| - 1], stack[|stack| - 1];
      SegsOfJoined(before);
      SegsAppend(Joined(before), s);
      assert Joined(before) + "/" + s == Joined(before) + ("/" + s);
      assert stack == before + [s];
    }
  }

  lemma SegsOfJoin(stack: seq<string>)
    requires IsStack(stack)
    ensures Segs(Join(stack)) == stack && Join(stack) != "" && Join(stack)[0] == '/'
  {
    SegsOfJoined(stack);
    if stack == [] { assert "/"[1..] == ""; }
  }

  lemma {:induction false} ResolveOfStack(stack: seq<string>)
    requires IsStack(stack)
    ensures Resolve(stack) == Some(stack)
    decreases |stack|
  {
    if stack != [] {
      ResolveOfStack(stack[..|stack| - 1]);
      assert stack == stack[..|stack| - 1] + [stack[|stack| - 1]];
    }
  }

  lemma {:induction false} JoinedChars(stack: seq<string>, c: char)
    requires c in Joined(stack) && c != '/'
    ensures exists i :: 0 <= i < |stack| && c in stack[i]
    decreases |stack|
  {
    if stack != [] {
      var before, s := stack[..|stack| - 1], stack[|stack| - 1];
      if c in s {
      } else {
        JoinedChars(before, c);
        var i :| 0 <= i < |before| && c in before[i];
        assert c in stack[i];
      }
    }
  }

  lemma {:induction false} SegsChars(p: string, c: char)
    requires c !in p
    ensures forall i :: 0 <= i < |Segs(p)| ==> c !in Segs(p)[i]
    decreases |p|
  {
    if p != "" {
      if p[0] == '/' { SegsChars(p[1..], c); } else { SegsChars(Rest(p), c); }
    }
  }

  lemma {:induction false} ResolveChars(segs: seq<string>, c: char)
    requires Resolve(segs).Some? && forall i :: 0 <= i < |segs| ==> c !in segs[i]
    ensures forall i :: 0 <= i < |Resolve(segs).value| ==> c !in Resolve(segs).value[i]
    decreases |segs|
  {
    if segs != [] { ResolveChars(segs[..|segs| - 1], c); }
  }

  lemma StackOf(path: string)
    requires Resolve(Segs(path)).Some?
    ensures IsStack(Resolve(Segs(path)).value)
    ensures NUL !in path ==> NUL !in Join(Resolve(Segs(path)).value)
  {
    hide Segs, Resolve, IsStack;
    var stack := Resolve(Segs(path)).value;
    SegsNonEmpty(path);
    ResolveIsStack(Segs(path));
    if NUL !in path && NUL in Join(stack) {
      SegsChars(path, NUL);
      ResolveChars(Segs(path), NUL);
      JoinedChars(stack, NUL);
    }
  }

  /**
   Normalization succeeds exactly when the path starts with a slash, holds no NUL, neither
   climbs above the root nor gets too deep, and the result fits with its NUL; the result joins
   the surviving segments.
   */
  lemma NormalizeExact(path: string, outSize: nat)
    ensures
      var segs := Segs(path);
      Normalize(path, outSize).Some?
      <==> path != "" && path[0] == '/' && NUL !in path && StaysInside(segs)
           && |Join(Survivors(segs, |segs|))| + 1 <= outSize
    ensures Normalize(path, outSize).Some?
            ==> Normalize(path, outSize).value == Join(Survivors(Segs(path), |Segs(path)|))
  {
    hide Segs, Resolve, StaysInside, Survivors;
    ResolveSucceeds(Segs(path));
    if Resolve(Segs(path)).Some? { ResolveKeepsSurvivors(Segs(path)); }
  }

  /** A normal form: "/" or slash-separated names, without "." or "..", without a slash at the end. */
  predicate IsNormal(p: string) {
    && p != "" && p[0] == '/' && NUL !in p
    && IsStack(Segs(p)) && p == Join(Segs(p))
    && (p[|p| - 1] == '/' ==> p == "/")
  }

  lemma {:induction false} JoinedEnd(stack: seq<string>)
    requires IsStack(stack) && stack != []
    ensures Joined(stack) != "" && Joined(stack)[|Joined(stack)| - 1] != '/'
  {
    var s := stack[|stack| - 1];
    assert IsSegName(s) && s[|s| - 1] in s;
  }

  lemma NormalizeIsNormal(path: string, outSize: nat)
    requires Normalize(path, outSize).Some?
    ensures IsNormal(Normalize(path, outSize).value)
  {
    hide Resolve, Segs, IsStack;
    var stack := Resolve(Segs(path)).value;
    StackOf(path);
    SegsOfJoin(stack);
    if stack != [] { JoinedEnd(stack); }
  }

  lemma NormalFixed(p: string, outSize: nat)
    requires IsNormal(p) && |p| + 1 <= outSize
    ensures Normalize(p, outSize) == Some(p)
  {
    hide Resolve, Segs, IsStack;
    ResolveOfStack(Segs(p));
  }

  /** Normalizing again changes nothing. */
  lemma NormalizeIdempotent(path: string, outSize: nat)
    requires Normalize(path, outSize).Some?
    ensures Normalize(Normalize(path, outSize).value, outSize) == Normalize(path, outSize)
  {
    hide IsNormal;
    NormalizeIsNormal(path, outSize);
    NormalFixed(Normalize(path, outSize).value, outSize);
  }
}
