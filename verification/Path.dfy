/**
 Path normalization as it runs: a scan that keeps the start and length of each segment on a
 stack in two arrays, then a copy into the caller's buffer.
 */
module Path {
  import opened Options
  import opened RadixSpec
  import opened PathSpec

  lemma {:induction false} ResolvePrefix(segs: seq<string>, more: seq<string>)
    requires Resolve(segs).None?
    ensures Resolve(segs + more).None?
    decreases |more|
  {
    if more == [] {
      assert segs + more == segs;
    } else {
      var all := segs + more;
      assert all[..|all| - 1] == segs + more[..|more| - 1];
      ResolvePrefix(segs, more[..|more| - 1]);
    }
  }

  lemma ResolveNext(segs: seq<string>, s: string)
    ensures Resolve(segs + [s]) == if Resolve(segs).None? then None else Push(Resolve(segs).value, s)
  {
    assert (segs + [s])[..|segs|] == segs;
  }

  /** The `i`-th segment on the stack. */
  function At(path: string, starts: seq<nat>, lens: seq<nat>, i: nat): string
    requires i < |starts| && i < |lens| && starts[i] + lens[i] <= |path|
  {
    path[starts[i]..starts[i] + lens[i]]
  }

  ghost predicate OnStack(path: string, starts: seq<nat>, lens: seq<nat>, stack: seq<string>) {
    && |stack| <= |starts| && |stack| <= |lens|
    && forall i :: 0 <= i < |stack| ==> starts[i] + lens[i] <= |path| && At(path, starts, lens, i) == stack[i]
  }

  method SkipSlashes(path: string, pos: nat) returns (start: nat)
    requires pos <= |path|
    ensures pos <= start <= |path| && (start < |path| ==> path[start] != '/')
    ensures Segs(path[pos..]) == Segs(path[start..])
  {
    start := pos;
    while start < |path| && path[start] == '/'
      invariant pos <= start <= |path| && Segs(path[pos..]) == Segs(path[start..])
    {
      assert path[start..][1..] == path[start + 1..];
      start := start + 1;
    }
  }

  method SegmentEnd(path: string, start: nat) returns (end: nat)
    requires start < |path| && path[start] != '/'
    ensures start < end <= |path|
    ensures Seg(path[start..]) == path[start..end] && Rest(path[start..]) == path[end..]
  {
    end := start;
    while end < |path| && path[end] != '/'
      invariant start <= end <= |path|
      invariant SegLen(path[start..]) == end - start + SegLen(path[end..])
    {
      assert path[end..][1..] == path[end + 1..];
      end := end + 1;
    }
    ghost var n := end - start;
    assert SegLen(path[start..]) == n;
    assert path[start..][..n] == path[start..end] && path[start..][n..] == path[end..];
  }

  lemma SegsAt(path: string, start: nat, end: nat)
    requires start < end <= |path| && path[start] != '/'
    requires Seg(path[start..]) == path[start..end] && Rest(path[start..]) == path[end..]
    ensures Segs(path[start..]) == [path[start..end]] + Segs(path[end..])
  {
    hide Seg, Rest;
    assert path[start..][0] == path[start];
  }

  /** What one segment does to the stack. */
  method PushSegment(path: string, start: nat, end: nat, starts: array<nat>, lens: array<nat>, depth: nat,
                     ghost stack: seq<string>)
    returns (ok: bool, depth': nat, ghost stack': seq<string>)
    requires starts != lens && starts.Length == lens.Length == MAX_DEPTH
    requires start < end <= |path| && depth == |stack| <= MAX_DEPTH && OnStack(path, starts[..], lens[..], stack)
    modifies starts, lens
    ensures ok == Push(stack, path[start..end]).Some?
    ensures ok ==> stack' == Push(stack, path[start..end]).value && depth' == |stack'| <= MAX_DEPTH
    ensures ok ==> OnStack(path, starts[..], lens[..], stack')
  {
    ghost var s := path[start..end];
    var len := end - start;
    ok, depth', stack' := true, depth, stack;
    if len == 1 && path[start] == '.' {
      assert s == ".";
      return;
    }
    if len == 2 && path[start] == '.' && path[start + 1] == '.' {
      assert s == "..";
      if depth == 0 { return false, 0, []; }
      depth', stack' := depth - 1, stack[..depth - 1];
      return;
    }
    assert s != "." by { assert len == 1 ==> s[0] == path[start]; }
    assert s != ".." by { assert len == 2 ==> s[0] == path[start] && s[1] == path[start + 1]; }
    if depth >= 256 { return false, 0, []; }
    starts[depth] := start;
    lens[depth] := len;
    depth', stack' := depth + 1, stack + [s];
  }

  /** Resolve the path onto a stack of at most 256 segments. */
  method ScanPath(path: string, starts: array<nat>, lens: array<nat>)
      returns (ok: bool, depth: nat, ghost stack: seq<string>)
    requires starts != lens && starts.Length == lens.Length == MAX_DEPTH
    modifies starts, lens
    ensures ok == Resolve(Segs(path)).Some?
    ensures ok ==> stack == Resolve(Segs(path)).value && depth == |stack| <= MAX_DEPTH
                   && OnStack(path, starts[..], lens[..], stack)
  {
    hide Segs, Resolve, Push;
    var pos := 0;
    depth, stack := 0, [];
    ghost var done: seq<string> := [];
    assert path[0..] == path && [] + Segs(path) == Segs(path);
    ResolveEmpty();
    while pos < |path|
      invariant pos <= |path| && depth == |stack| <= MAX_DEPTH
      invariant Segs(path) == done + Segs(path[pos..]) && Resolve(done) == Some(stack)
      invariant OnStack(path, starts[..], lens[..], stack)
    {
      hide OnStack;
      var start := SkipSlashes(path, pos);
      if start >= |path| {
        pos := start;
        break;
      }
      var end := SegmentEnd(path, start);
      SegsAt(path, start, end);
      ghost var s, rest := path[start..end], Segs(path[end..]);
      assert done + ([s] + rest) == done + [s] + rest;
      ResolveNext(done, s);
      done := done + [s];
      pos := end;
      ok, depth, stack := PushSegment(path, start, end, starts, lens, depth, stack);
      if !ok {
        ResolvePrefix(done, rest);
        return;
      }
    }
    SegsEnd();
    assert path[|path|..] == "" && done + [] == done;
    ok := true;
  }

  lemma ResolveEmpty()
    ensures Resolve([]) == Some([])
  {
  }

  lemma SegsEnd()
    ensures Segs("") == []
  {
  }

  lemma {:induction false} JoinedPrefix(stack: seq<string>, i: nat)
    requires i <= |stack|
    ensures |Joined(stack[..i])| <= |Joined(stack)|
    decreases |stack| - i
  {
    if i == |stack| {
      assert stack[..i] == stack;
    } else {
      assert stack[..i + 1][..i] == stack[..i];
      JoinedPrefix(stack, i + 1);
    }
  }

  /** Copy `text` to `out` from `at` on. */
  method CopyTo(out: array<char>, at: nat, text: string)
    requires at + |text| <= out.Length
    modifies out
    ensures out[..at + |text|] == old(out[..at]) + text
    ensures forall i :: at + |text| <= i < out.Length ==> out[i] == old(out[i])
  {
    forall i | 0 <= i < |text| { out[at + i] := text[i]; }
    forall i | 0 <= i < |text| ensures out[..at + |text|][at + i] == text[i] { assert out[at + i] == text[i]; }
  }

  /** Write the segments on the stack, each behind a slash, as long as they fit with a NUL. */
  method WriteStack(path: string, starts: array<nat>, lens: array<nat>, depth: nat, ghost stack: seq<string>,
                    out: array<char>)
    returns (ok: bool, written: nat)
    requires out.Length > 0 && depth == |stack| && OnStack(path, starts[..], lens[..], stack)
    requires 0 < depth && starts.Length == lens.Length == MAX_DEPTH
    modifies out
    ensures ok == (|Joined(stack)| < out.Length)
    ensures ok ==> written == |Joined(stack)| && out[..written] == Joined(stack)
    ensures ok ==> forall k :: written <= k < out.Length ==> out[k] == old(out[k])
  {
    ghost var s, l := starts[..], lens[..];
    written := 0;
    for i := 0 to depth
      invariant s == starts[..] && l == lens[..]
      invariant written == |Joined(stack[..i])| < out.Length
      invariant out[..written] == Joined(stack[..i])
      invariant forall k :: written <= k < out.Length ==> out[k] == old(out[k])
    {
      assert At(path, s, l, i) == stack[i];
      assert stack[..i + 1][..i] == stack[..i];
      JoinedPrefix(stack, i + 1);
      if written + 1 + lens[i] >= out.Length { return false, 0; }
      var piece := "/" + path[starts[i]..starts[i] + lens[i]];
      CopyTo(out, written, piece);
      assert Joined(stack[..i]) + piece == Joined(stack[..i]) + "/" + stack[i];
      written := written + |piece|;
    }
    assert stack[..depth] == stack;
    ok := true;
  }

  method HasNul(path: string) returns (found: bool)
    ensures found == (NUL in path)
  {
    for i := 0 to |path|
      invariant NUL !in path[..i]
    {
      if path[i] == NUL { return true; }
    }
    assert path[..|path|] == path;
    return false;
  }

  /**
   The result, if the path is accepted and fits, stands at the front of `out` with a NUL
   behind it; nothing behind the NUL changes.
   */
  method NormalizePath(path: string, out: array<char>) returns (ok: bool, outLen: nat)
    modifies out
    ensures ok == Normalize(path, out.Length).Some?
    ensures ok ==> outLen < out.Length && Normalize(path, out.Length) == Some(out[..outLen]) && out[outLen] == NUL
    ensures ok ==> forall i :: outLen < i < out.Length ==> out[i] == old(out[i])
  {
    hide Segs, Resolve, OnStack;
    ok, outLen := false, 0;
    if out.Length == 0 { return; }
    if |path| == 0 || path[0] != '/' { return; }
    var nul := HasNul(path);
    if nul { return; }
    var starts, lens := new nat[256], new nat[256];
    var scanned, depth, stack := ScanPath(path, starts, lens);
    if !scanned { return; }
    var written := 0;
    if depth == 0 {
      if out.Length < 2 { return; }
      out[0] := '/';
      written := 1;
      assert out[..1] == "/";
    } else {
      var fits;
      fits, written := WriteStack(path, starts, lens, depth, stack, out);
      if !fits { return; }
    }
    ghost var result := out[..written];
    out[written] := NUL;
    assert out[..written] == result;
    ok, outLen := true, written;
  }
}
