/** `vroot_path_clean` and its phases, in place on a character buffer. */
module CleanBuffer {
  import opened CStrings
  import opened Clean

  method CollapseInPlace(buf: array<char>, ghost s: string)
    requires Holds(buf[..], 0, s)
    modifies buf
    ensures Holds(buf[..], 0, CollapseSlashes(s))
    ensures SameOutside(old(buf[..]), buf[..], 0, |s|)
  {
    ghost var cur := s;
    HoldsIsUnique(buf[..], 0, cur);
    var ptr := StrStr(StrAt(buf[..], 0), "//");
    while ptr >= 0
      invariant Holds(buf[..], 0, cur) && |cur| <= |s|
      invariant CollapseSlashes(cur) == CollapseSlashes(s)
      invariant ptr == StrStr(cur, "//")
      invariant SameOutside(old(buf[..]), buf[..], 0, |s|)
      decreases |cur|
    {
      Splice(buf, 0, cur, ptr, ptr + 1);
      cur := cur[..ptr] + cur[ptr + 1..];
      HoldsIsUnique(buf[..], 0, cur);
      ptr := StrStr(StrAt(buf[..], 0), "//");
    }
  }

  method DropCurrentInPlace(buf: array<char>, ghost s: string)
    requires Holds(buf[..], 0, s)
    modifies buf
    ensures Holds(buf[..], 0, DropCurrent(s))
    ensures SameOutside(old(buf[..]), buf[..], 0, |s|)
  {
    ghost var cur := s;
    HoldsIsUnique(buf[..], 0, cur);
    var ptr := StrStr(StrAt(buf[..], 0), "/./");
    while ptr >= 0
      invariant Holds(buf[..], 0, cur) && |cur| <= |s|
      invariant DropCurrent(cur) == DropCurrent(s)
      invariant ptr == StrStr(cur, "/./")
      invariant SameOutside(old(buf[..]), buf[..], 0, |s|)
      decreases |cur|
    {
      Splice(buf, 0, cur, ptr, ptr + 2);
      cur := cur[..ptr] + cur[ptr + 2..];
      HoldsIsUnique(buf[..], 0, cur);
      ptr := StrStr(StrAt(buf[..], 0), "/./");
    }
  }

  /** Steps over leading "../"; returns the address of the text after them. */
  method SkipParents(buf: array<char>, ghost s: string) returns (path: nat)
    requires Holds(buf[..], 0, s)
    ensures path == ParentPrefix(s)
  {
    path := 0;
    HoldsSuffix(buf[..], 0, s, 0);
    HoldsIsUnique(buf[..], 0, s);
    while "../" <= StrAt(buf[..], path)
      invariant path <= |s| && path + ParentPrefix(s[path..]) == ParentPrefix(s)
      invariant Terminated(buf[..], path) && StrAt(buf[..], path) == s[path..]
      decreases |s| - path
    {
      assert s[path..][3..] == s[path + 3..];
      path := path + 3;
      HoldsSuffix(buf[..], 0, s, path);
      HoldsIsUnique(buf[..], path, s[path..]);
    }
  }

  /** A leading "/../" is cancelled by moving the rest down by three. */
  lemma CancelAtRoot(t: string)
    requires "/../" <= t
    ensures StrStr(t, "/../") == 0 && CancelAt(t, 0) == t[3..]
  {
    assert t[..1] + t[4..] == t[3..];
  }

  /** The pointer walk to the start of the component in front of `k`. */
  method FindCancelPoint(buf: array<char>, path: nat, ghost t: string, k: nat) returns (ptr: nat)
    requires Holds(buf[..], path, t) && OccursAt(t, "/../", k)
    ensures ptr == path + CancelPoint(t, k)
  {
    assert t[k] == t[k..k + 4][0];
    ptr := path + k;
    if ptr != path && buf[ptr] == '/' {
      ptr := ptr - 1;
    }
    while ptr != path && buf[ptr] != '/'
      invariant path <= ptr < path + |t|
      invariant BackScan(t, ptr - path) == BackScan(t, if k > 0 then k - 1 else 0)
    {
      ptr := ptr - 1;
    }
    if buf[ptr] == '/' {
      ptr := ptr + 1;
    }
  }

  /** Moves the rest of an absolute path down over each leading "/.." in turn. */
  method DropLeadingParents(buf: array<char>, path: nat, ghost t: string) returns (ghost cur: string)
    requires Holds(buf[..], path, t)
    modifies buf
    ensures Holds(buf[..], path, cur) && |cur| <= |t|
    ensures CancelParents(cur) == CancelParents(t)
    ensures SameOutside(old(buf[..]), buf[..], path, path + |t|)
  {
    cur := t;
    HoldsIsUnique(buf[..], path, cur);
    while "/../" <= StrAt(buf[..], path)
      invariant Holds(buf[..], path, cur) && |cur| <= |t|
      invariant Terminated(buf[..], path) && StrAt(buf[..], path) == cur
      invariant CancelParents(cur) == CancelParents(t)
      invariant SameOutside(old(buf[..]), buf[..], path, path + |t|)
      decreases |cur|
    {
      ghost var m := buf[..];
      CancelAtRoot(cur);
      Splice(buf, path, cur, 0, 3);
      SameOutsideChain(old(buf[..]), m, buf[..], path, path + |t|, path, path + |cur| - 3);
      assert cur[..0] + cur[3..] == cur[3..];
      cur := cur[3..];
      HoldsIsUnique(buf[..], path, cur);
    }
  }

  method CancelParentsInPlace(buf: array<char>, path: nat, ghost t: string)
    requires Holds(buf[..], path, t)
    modifies buf
    ensures Holds(buf[..], path, CancelParents(t))
    ensures SameOutside(old(buf[..]), buf[..], path, path + |t|)
  {
    ghost var cur := t;
    HoldsIsUnique(buf[..], path, cur);
    var ptr := StrStr(StrAt(buf[..], path), "/../");
    if ptr == 0 {
      cur := DropLeadingParents(buf, path, t);
      HoldsIsUnique(buf[..], path, cur);
      ptr := StrStr(StrAt(buf[..], path), "/../");
    }
    while ptr >= 0
      invariant Holds(buf[..], path, cur) && |cur| <= |t|
      invariant ptr == StrStr(cur, "/../")
      invariant CancelParents(cur) == CancelParents(t)
      invariant SameOutside(old(buf[..]), buf[..], path, path + |t|)
      decreases |cur|
    {
      ghost var m := buf[..];
      var nextElem := path + ptr + 4;
      var dst := FindCancelPoint(buf, path, cur, ptr);
      Splice(buf, path, cur, dst - path, nextElem - path);
      SameOutsideChain(old(buf[..]), m, buf[..], path, path + |t|, dst, path + |cur| - (nextElem - dst));
      cur := CancelAt(cur, ptr);
      HoldsIsUnique(buf[..], path, cur);
      ptr := StrStr(StrAt(buf[..], path), "/../");
    }
  }

  /** A final "/.." at `ptr`: back up to just after the slash before it. */
  method CutToParent(buf: array<char>, path: nat, ghost t: string, ptr: nat)
    requires Holds(buf[..], path, t) && path <= ptr && ptr + 3 == path + |t|
    modifies buf
    ensures Holds(buf[..], path,
      var u := t[..ptr - path]; var k := LastSlash(u); if k < 0 then "/" else u[..k + 1])
    ensures SameOutside(old(buf[..]), buf[..], path, path + |t|)
  {
    ghost var u := t[..ptr - path];
    Cut(buf, path, t, ptr - path);
    HoldsIsUnique(buf[..], path, u);
    var slash := LastSlash(StrAt(buf[..], path));
    if slash < 0 {
      buf[path] := '/';
      buf[path + 1] := '\0';
    } else {
      Cut(buf, path, u, slash + 1);
    }
  }

  method FixTrailingDotsInPlace(buf: array<char>, path: nat, ghost t: string)
    requires Holds(buf[..], path, t) && t != ""
    modifies buf
    ensures Holds(buf[..], path, FixTrailingDots(t))
    ensures SameOutside(old(buf[..]), buf[..], path, path + |t|)
  {
    HoldsIsUnique(buf[..], path, t);
    var ptr := path + |StrAt(buf[..], path)| - 1;
    assert buf[ptr] == t[|t| - 1];
    if buf[ptr] != '.' || ptr == path {
      return;
    }
    ptr := ptr - 1;
    assert buf[ptr] == t[|t| - 2];
    if buf[ptr] == '/' || ptr == path {
      Cut(buf, path, t, ptr + 1 - path);
      return;
    }
    if buf[ptr] != '.' || ptr == path {
      return;
    }
    FixParentInPlace(buf, path, t, ptr - 1);
  }

  /** Text that ends in ".." after the byte at `ptr`. */
  method FixParentInPlace(buf: array<char>, path: nat, ghost t: string, ptr: nat)
    requires Holds(buf[..], path, t) && path <= ptr && ptr + 3 == path + |t|
    requires t[|t| - 2] == '.' && t[|t| - 1] == '.'
    modifies buf
    ensures Holds(buf[..], path, FixTrailingDots(t))
    ensures SameOutside(old(buf[..]), buf[..], path, path + |t|)
  {
    assert buf[ptr] == t[|t| - 3];
    if buf[ptr] != '/' {
      return;
    }
    CutToParent(buf, path, t, ptr);
  }

  /** The run of slashes after a leading ".". */
  method SkipSlashes(buf: array<char>, path: nat, ghost t: string) returns (ptr: nat)
    requires Holds(buf[..], path, t) && t != ""
    ensures ptr == path + 1 + SlashRun(t, 1)
  {
    ptr := path + 1;
    while buf[ptr] == '/'
      invariant path + 1 <= ptr <= path + |t|
      invariant ptr - path - 1 + SlashRun(t, ptr - path) == SlashRun(t, 1)
      decreases path + |t| - ptr
    {
      assert ptr < path + |t| && buf[ptr] == t[ptr - path];
      ptr := ptr + 1;
    }
    assert ptr < path + |t| ==> buf[ptr] == t[ptr - path];
  }

  method FixDotsInPlace(buf: array<char>, path: nat, ghost t: string)
    requires Holds(buf[..], path, t)
    modifies buf
    ensures Holds(buf[..], path, FixDots(t))
    ensures SameOutside(old(buf[..]), buf[..], path, path + |t|)
  {
    ghost var was := buf[..];
    assert t != "" ==> buf[path] == t[0];
    assert |t| >= 2 ==> buf[path + 1] == t[1];
    var ptr := path;
    if buf[ptr] == '.' {
      ptr := ptr + 1;
      if buf[ptr] == '\0' {
        return;
      }
      if buf[ptr] == '/' {
        ptr := SkipSlashes(buf, path, t);
        FinishAfterDot(buf, path, t, ptr - path);
        return;
      }
    }
    if buf[ptr] == '\0' {
      return;
    }
    FixTrailingDotsInPlace(buf, path, t);
  }

  /** Drops the first `j` bytes, then goes by the byte that is left at `j`. */
  method FinishAfterDot(buf: array<char>, path: nat, ghost t: string, j: nat)
    requires Holds(buf[..], path, t) && 0 < j <= |t|
    modifies buf
    ensures Holds(buf[..], path, if |t| == j || |t| == 2 * j then t[j..] else FixTrailingDots(t[j..]))
    ensures SameOutside(old(buf[..]), buf[..], path, path + |t|)
  {
    ghost var was := buf[..];
    Splice(buf, path, t, 0, j);
    ghost var m := buf[..];
    assert t[..0] + t[j..] == t[j..];
    StaleByte(m, path, t, j, was);
    if buf[path + j] == '\0' {
      return;
    }
    FixTrailingDotsInPlace(buf, path, t[j..]);
    SameOutsideChain(was, m, buf[..], path, path + |t|, path, path + |t| - j);
  }

  /** The byte left at `j` once the text at `j` has been moved to the front. */
  lemma StaleByte(m: seq<char>, path: nat, t: string, j: nat, was: seq<char>)
    requires 0 < j <= |t| && Holds(was, path, t) && Holds(m, path, t[j..])
    requires SameOutside(was, m, path, path + |t| - j)
    ensures m[path + j] == '\0' <==> |t| == j || |t| == 2 * j
  {
    var r := t[j..];
    if j < |r| {
      assert m[path + j] == r[j];
    } else if j > |r| && j < |t| {
      assert m[path + j] == was[path + j] == t[j];
    }
  }

  /** The whole in-place cleaner refines the pure rewriting, for every string. */
  method CleanInPlace(buf: array<char>)
    requires Terminated(buf[..], 0)
    modifies buf
    ensures Holds(buf[..], 0, CleanPath(old(StrAt(buf[..], 0))))
    ensures SameOutside(old(buf[..]), buf[..], 0, |old(StrAt(buf[..], 0))|)
  {
    ghost var s := StrAt(buf[..], 0);
    if buf[0] == '\0' {
      return;
    }
    ghost var a, m0 := CollapseSlashes(s), buf[..];
    CollapseInPlace(buf, s);
    CollapseSlashesShrinks(s);
    ghost var b, m1 := DropCurrent(a), buf[..];
    DropCurrentInPlace(buf, a);
    DropCurrentShrinks(a);
    ghost var m2 := buf[..];
    SameOutsideChain(m0, m1, m2, 0, |s|, 0, |a|);
    CleanTailInPlace(buf, b);
    SameOutsideChain(m0, m2, buf[..], 0, |s|, 0, |b|);
  }

  /** The phases that work on the text after leading "../". */
  method CleanTailInPlace(buf: array<char>, ghost b: string)
    requires Holds(buf[..], 0, b)
    modifies buf
    ensures Holds(buf[..], 0, b[..ParentPrefix(b)] + CleanTail(b[ParentPrefix(b)..]))
    ensures SameOutside(old(buf[..]), buf[..], 0, |b|)
  {
    var path := SkipParents(buf, b);
    ghost var t, m2 := b[path..], buf[..];
    HoldsSuffix(m2, 0, b, path);
    CancelParentsInPlace(buf, path, t);
    CancelParentsShrinks(t);
    ghost var m3 := buf[..];
    FixDotsInPlace(buf, path, CancelParents(t));
    SameOutsideChain(m2, m3, buf[..], path, |b|, path, path + |CancelParents(t)|);
    HoldsPrefixed(m2, buf[..], b, path, CleanTail(t));
  }

  /** A string rewritten from `k` on keeps its first `k` characters. */
  lemma HoldsPrefixed(m: seq<char>, r: seq<char>, b: string, k: nat, f: string)
    requires Holds(m, 0, b) && k <= |b| && Holds(r, k, f)
    requires SameOutside(m, r, k, |b|)
    ensures Holds(r, 0, b[..k] + f)
  {
    var s := b[..k] + f;
    assert forall i :: k <= i < |s| ==> s[i] == f[i - k];
  }

  /** Cleans a fresh copy of the text. */
  method CleanedString(text: string) returns (r: string)
    requires '\0' !in text
    ensures r == CleanPath(text) && '\0' !in r
  {
    var buf := new char[|text| + 1](_ => '\0');
    PutString(buf, 0, text);
    HoldsIsUnique(buf[..], 0, text);
    CleanInPlace(buf);
    HoldsIsUnique(buf[..], 0, CleanPath(text));
    r := StrAt(buf[..], 0);
  }
}
