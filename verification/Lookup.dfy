/** `vroot_path_lookup` without the alias search, as a function of strings. */
module Lookup {
  import opened CStrings
  import opened Components
  import opened Clean
  import opened CleanAbsolute
  import CleanRelative

  datatype Errno = EINVAL | EPERM | ENAMETOOLONG | EACCES | EEXIST | ENOENT

  /** What a lookup leaves in the vpath buffer, and the error if it failed. */
  datatype Outcome = Found(vpath: string) | Failed(errno: Errno, left: string)

  /** The string in the vpath buffer, whether the lookup succeeded or not. */
  function TextLeft(o: Outcome): string {
    if o.Found? then o.vpath else o.left
  }

  /** The cleaned copy of the input: "." stands for the current directory. */
  function Scratch(path: string, cwd: string, scratch: nat): string
    requires scratch > 0
  {
    Bounded(if path == "." then cwd else path, scratch)
  }

  /** The base is followed by a slash in the text. */
  predicate Strips(base: string, x: string) {
    base <= x && |x| > |base| && x[|base|] == '/'
  }

  function StripBase(base: string, x: string): string {
    if Strips(base, x) then x[|base|..] else x
  }

  /**
    * The loop over leading ".." and "/": each step resets vpath to the base. The second component
    * is the text left over; a final ".." leaves none.
    */
  function Walk(root: string, v: string, x: string): (string, string)
    decreases |x|
  {
    if x == ".." then (root, "")
    else if "../" <= x then Walk(root, root, x[3..])
    else if x != "" && x[0] == '/' then Walk(root, root, x[1..])
    else (v, x)
  }

  /** The test for a ".." component among the text left over. */
  predicate Refused(x: string) {
    var k := StrStr(x, "..");
    && k >= 0 && |x| - k >= 3
    && ((k == 0 && x[2] == '/') || (k != 0 && x[k - 1] == '/' && x[k + 2] == '/'))
  }

  /** The text left over is checked, appended after a slash, and the whole is cleaned. */
  function Append(size: nat, v: string, rest: string): Outcome {
    if rest == "" then Found(CleanPath(v))
    else if Refused(rest) then Failed(EPERM, v)
    else if |v| + |rest| + 1 >= size then Failed(ENAMETOOLONG, v)
    else Found(CleanPath(v + "/" + rest))
  }

  /** The lookup of already cleaned text. */
  function Place(base: string, size: nat, x: string): Outcome
    requires size > 0
  {
    var w := Walk(Bounded(base + "/", size), "", StripBase(base, x));
    Append(size, w.0, w.1)
  }

  function LookupPath(base: string, size: nat, scratch: nat, path: string, cwd: string): Outcome
    requires size > 0 && scratch > 0
  {
    Place(base, size, CleanPath(Scratch(path, cwd, scratch)))
  }

  /** A base is a list of one or more proper components, each after a slash. */
  ghost predicate NormalBase(base: string) {
    Absolute(base) && Norm(base) != [] && AllProper(Norm(base)) && base == Join(Norm(base))
  }

  /** The shape of base that `vroot_fsio_chroot` sets: absolute, clean, and not ending in a slash. */
  lemma NormalBaseIff(base: string)
    ensures NormalBase(base) <==> Absolute(base) && CleanPath(base) == base && base[|base| - 1] != '/'
  {
    if NormalBase(base) {
      var bs := Norm(base);
      var x := bs[|bs| - 1];
      JoinStartsWithSlash(bs);
      assert Join(bs) + "" == base && base[|base| - 1] == x[|x| - 1];
      CleanFixesRender(bs, false);
    }
    if Absolute(base) && CleanPath(base) == base && base[|base| - 1] != '/' {
      CleanRenders(base);
      NormIsProper(base);
      assert Join(Norm(base)) + "" == Join(Norm(base));
    }
  }

  lemma BaseIsJoin(base: string)
    requires NormalBase(base)
    ensures Split(base) == [""] + Norm(base)
  {
    SplitJoin(Norm(base));
  }

  /** The lookup's environment: a normal base, and room in vpath for it and a slash. */
  ghost predicate Ready(base: string, size: nat, scratch: nat) {
    NormalBase(base) && |base| + 1 < size && scratch > 0
  }

  /** A successful lookup's result fits in vpath. */
  lemma FoundFits(base: string, size: nat, scratch: nat, path: string, cwd: string)
    requires Ready(base, size, scratch) && LookupPath(base, size, scratch, path, cwd).Found?
    ensures |LookupPath(base, size, scratch, path, cwd).vpath| < size
  {
    var w := Walk(Bounded(base + "/", size), "", StripBase(base, CleanPath(Scratch(path, cwd, scratch))));
    WalkFits(Bounded(base + "/", size), "", StripBase(base, CleanPath(Scratch(path, cwd, scratch))), size);
    AppendFits(size, w.0, w.1);
  }

  lemma AppendFits(size: nat, v: string, rest: string)
    requires |v| < size && Append(size, v, rest).Found?
    ensures |Append(size, v, rest).vpath| < size
  {
    CleanNeverGrows(v);
    CleanNeverGrows(v + "/" + rest);
  }

  lemma {:induction false} WalkFits(root: string, v: string, x: string, size: nat)
    requires |root| < size && |v| < size
    ensures |Walk(root, v, x).0| < size
    decreases |x|
  {
    if x != ".." {
      if "../" <= x {
        WalkFits(root, root, x[3..], size);
      } else if x != "" && x[0] == '/' {
        WalkFits(root, root, x[1..], size);
      }
    }
  }

  // ----- the EPERM branches are dead

  /** Text that cannot be refused: no leading ".." step, and no ".." component further in. */
  ghost predicate Settled(r: string) {
    NoInnerParent(r) && r != ".." && !("../" <= r)
  }

  lemma SettledNotRefused(r: string)
    requires Settled(r)
    ensures !Refused(r)
  {
    var k := StrStr(r, "..");
    if k >= 0 { assert r[k..k + 2] == [r[k], r[k + 1]]; }
  }

  lemma {:induction false} WalkSettles(root: string, v: string, x: string)
    requires Walkable(x)
    ensures Settled(Walk(root, v, x).1)
    ensures Absolute(x) || x == ".." || "../" <= x ==> Walk(root, v, x).0 == root
    ensures !(Absolute(x) || x == ".." || "../" <= x) ==> Walk(root, v, x) == (v, x)
    decreases |x|
  {
    if "../" <= x {
      if NoInnerParent(x) { NoInnerParentSuffix(x, 3); }
      WalkSettles(root, root, x[3..]);
    } else if Absolute(x) {
      NoInnerParentSuffix(x, 1);
      WalkSettles(root, root, x[1..]);
    }
  }

  lemma NoInnerParentSuffix(x: string, k: nat)
    requires NoInnerParent(x) && k <= |x|
    ensures NoInnerParent(x[k..])
  {
    assert forall i :: 0 <= i < |x[k..]| ==> x[k..][i] == x[k + i];
  }

  lemma StripBaseWalkable(base: string, x: string)
    requires Absolute(base) && Walkable(x)
    ensures Walkable(StripBase(base, x))
  {
    if Strips(base, x) {
      assert x[0] == base[0];
      NoInnerParentSuffix(x, |base|);
    }
  }

  /** For every input, relative ones included, the lookup never answers EPERM. */
  lemma NeverForbidden(base: string, size: nat, scratch: nat, path: string, cwd: string)
    requires Ready(base, size, scratch)
    ensures LookupPath(base, size, scratch, path, cwd).Failed? ==>
      LookupPath(base, size, scratch, path, cwd).errno == ENAMETOOLONG
  {
    var p := Scratch(path, cwd, scratch);
    CleanIsWalkable(p);
    StripBaseWalkable(base, CleanPath(p));
    var x := StripBase(base, CleanPath(p));
    WalkSettles(Bounded(base + "/", size), "", x);
    SettledNotRefused(Walk(Bounded(base + "/", size), "", x).1);
  }

  // ----- absolute paths: the exact result

  /** `cs` (with a trailing slash if `d`) lies strictly below `bs`. */
  predicate Below(bs: Segments, cs: Segments, d: bool) {
    bs <= cs && (|cs| > |bs| || d)
  }

  /** The components left after one leading copy of the base is taken off. */
  function Within(bs: Segments, cs: Segments, d: bool): Segments {
    if Below(bs, cs, d) then cs[|bs|..] else cs
  }

  lemma BelowStrips(bs: Segments, cs: Segments, d: bool)
    requires bs != [] && Below(bs, cs, d)
    ensures Render(cs, d) == Join(bs) + Render(cs[|bs|..], d)
    ensures Strips(Join(bs), Render(cs, d))
    ensures StripBase(Join(bs), Render(cs, d)) == Render(cs[|bs|..], d)
  {
    var rest := cs[|bs|..];
    assert bs + rest == cs;
    RenderConcat(bs, rest, d);
    RenderStartsWithSlash(rest, d);
    StripsAppend(Join(bs), Render(rest, d));
  }

  lemma StripsAppend(base: string, x: string)
    requires Absolute(x)
    ensures Strips(base, base + x) && StripBase(base, base + x) == x
  {
    assert (base + x)[|base|..] == x;
  }

  lemma StripsBelow(bs: Segments, cs: Segments, d: bool)
    requires AllProper(bs) && AllProper(cs) && bs != []
    requires Strips(Join(bs), Render(cs, d))
    ensures Below(bs, cs, d)
  {
    var base, x := Join(bs), Render(cs, d);
    var r := x[|base| + 1..];
    assert x == base + "/" + r;
    SplitConcat(base, r);
    SplitJoin(bs);
    SplitRender(cs, d);
    SegmentPrefix(bs, Split(r), cs, if d || cs == [] then [""] else []);
  }

  lemma SegmentPrefix(bs: Segments, rs: Segments, cs: Segments, tail: Segments)
    requires [""] + bs + rs == [""] + cs + tail && |rs| > 0 && |tail| <= 1
    ensures bs <= cs && (|cs| > |bs| || tail != [])
  {
    var x, y := [""] + bs + rs, [""] + cs + tail;
    assert |x| == |y|;
    assert forall i :: 0 <= i < |bs| ==> x[i + 1] == bs[i];
    assert forall i :: 0 <= i < |cs| ==> y[i + 1] == cs[i];
  }

  /** The string test for the base is the component test. */
  lemma StripsIsBelow(bs: Segments, cs: Segments, d: bool)
    requires AllProper(bs) && AllProper(cs) && bs != []
    ensures Strips(Join(bs), Render(cs, d)) <==> Below(bs, cs, d)
    ensures StripBase(Join(bs), Render(cs, d)) == Render(Within(bs, cs, d), d)
  {
    if Below(bs, cs, d) {
      BelowStrips(bs, cs, d);
    } else if Strips(Join(bs), Render(cs, d)) {
      StripsBelow(bs, cs, d);
      assert false;
    }
  }

  /** Text whose first segment is a proper name is left alone by the loop. */
  lemma WalkStops(root: string, v: string, r: string)
    requires r == "" || Proper(Split(r)[0])
    ensures Walk(root, v, r) == (v, r)
  {
    SplitPlain("..");
    if "../" <= r { ParentFirst(r); }
  }

  lemma ParentFirst(r: string)
    requires "../" <= r
    ensures Split(r)[0] == ".."
  {
    SplitPlain("..");
    SplitConcat("..", r[3..]);
    assert r == ".." + "/" + r[3..];
  }

  /** The text after the first slash of a rendered path. */
  lemma RenderTail(cs: Segments, d: bool)
    requires AllProper(cs)
    ensures var r := Render(cs, d)[1..];
      && (r == "" <==> cs == [])
      && (cs != [] ==> Split(r) == cs + (if d then [""] else []))
  {
    var x := Render(cs, d);
    RenderStartsWithSlash(cs, d);
    var r := x[1..];
    SplitRender(cs, d);
    assert Split(x) == [""] + Split(r);
    assert ([""] + Split(r))[1..] == Split(r);
    var tail: Segments := if d || cs == [] then [""] else [];
    assert ([""] + cs + tail)[1..] == cs + tail;
    if cs != [] {
      assert Split(r)[0] == cs[0];
    }
  }

  lemma {:induction false} WalkRender(root: string, v: string, cs: Segments, d: bool)
    requires AllProper(cs)
    ensures Walk(root, v, Render(cs, d)) == (root, Render(cs, d)[1..])
  {
    RenderStartsWithSlash(cs, d);
    RenderTail(cs, d);
    WalkStops(root, root, Render(cs, d)[1..]);
  }

  /** Appending text to the base and cleaning, in components. */
  lemma AppendRenders(base: string, r: string)
    requires NormalBase(base)
    ensures CleanPath(base + "/" + "/" + r) == Render(Resolve(Norm(base), Split(r)), DirLike(r))
    ensures CleanPath(base + "/") == Render(Norm(base), true)
  {
    var bs := Norm(base);
    assert base + "/" == base + "/" + "";
    NormConcat(base, "");
    assert Split("") == [""] && [""][1..] == [];
    assert Norm(base + "/") == bs;
    NormConcat(base + "/", r);
    CleanRenders(base + "/" + "/" + r);
    CleanRenders(base + "/");
  }

  lemma CleanAppended(base: string, q: string)
    requires NormalBase(base)
    ensures CleanPath(base + "/" + q) == Render(Resolve(Norm(base), Split(q)), DirLike(q))
  {
    NormConcat(base, q);
    CleanRenders(base + "/" + q);
  }

  lemma AppendBelow(base: string, c: Segments, d: bool)
    requires NormalBase(base) && AllProper(c) && c != []
    ensures CleanPath(base + "/" + "/" + Render(c, d)[1..]) == Render(Norm(base) + c, d)
  {
    var bs, r := Norm(base), Render(c, d)[1..];
    AppendRenders(base, r);
    RenderTail(c, d);
    var tail: Segments := if d then [""] else [];
    ResolveConcat(bs, c, tail);
    ResolveProper(bs, c);
    assert Resolve(bs + c, tail) == bs + c by { assert [""][1..] == []; }
    assert LastSegment(r) == (c + tail)[|c + tail| - 1];
  }

  lemma PlaceRendered(base: string, size: nat, cs: Segments, d: bool)
    requires Ready(base, size, 1) && AllProper(cs)
    ensures var c := Within(Norm(base), cs, d);
      var r := Render(c, d)[1..];
      Place(base, size, Render(cs, d)) ==
        if r != "" && |base| + |r| + 2 >= size then Failed(ENAMETOOLONG, base + "/")
        else Found(Render(Norm(base) + c, d || c == []))
  {
    BaseIsJoin(base);
    StripsIsBelow(Norm(base), cs, d);
    var c := Within(Norm(base), cs, d);
    WalkRender(base + "/", "", c, d);
    RenderTail(c, d);
    if c == [] {
      AppendRenders(base, "");
      assert Norm(base) + c == Norm(base);
    } else {
      RestNotRefused(c, d);
      AppendBelow(base, c, d);
    }
  }

  lemma RestNotRefused(c: Segments, d: bool)
    requires AllProper(c)
    ensures !Refused(Render(c, d)[1..])
  {
    CleanFixesRender(c, d);
    CleanIsWalkable(Render(c, d));
    RenderStartsWithSlash(c, d);
    WalkSettles("", "", Render(c, d));
    WalkRender("", "", c, d);
    SettledNotRefused(Render(c, d)[1..]);
  }

  /**
    * The lookup of an absolute path is exact: the base, then the normalised path less one leading copy
    * of the base. It fails only for length, exactly when base, slashes, rest and terminator do not fit.
    */
  lemma LookupAbsolute(base: string, size: nat, scratch: nat, path: string, cwd: string)
    requires Ready(base, size, scratch) && Absolute(Scratch(path, cwd, scratch))
    ensures var p := Scratch(path, cwd, scratch);
      var c := Within(Norm(base), Norm(p), DirLike(p));
      var r := Render(c, DirLike(p))[1..];
      LookupPath(base, size, scratch, path, cwd) ==
        if r != "" && |base| + |r| + 2 >= size then Failed(ENAMETOOLONG, base + "/")
        else Found(Render(Norm(base) + c, DirLike(p) || c == []))
  {
    var p := Scratch(path, cwd, scratch);
    CleanRenders(p);
    NormIsProper(p);
    PlaceRendered(base, size, Norm(p), DirLike(p));
  }

  /** A path below the base starts with the base and a slash. */
  lemma BelowStartsWithBase(base: string, c: Segments, d: bool)
    requires NormalBase(base)
    ensures base + "/" <= Render(Norm(base) + c, d || c == [])
  {
    BaseIsJoin(base);
    RenderConcat(Norm(base), c, d || c == []);
    RenderStartsWithSlash(c, d || c == []);
    PrefixOfAppend(base, Render(c, d || c == []));
  }

  lemma PrefixOfAppend(base: string, x: string)
    requires Absolute(x)
    ensures base + "/" <= base + x
  {
    assert (base + x)[..|base| + 1] == base + [x[0]];
  }

  /** The shape of every result for an absolute path. */
  lemma FoundShape(base: string, size: nat, scratch: nat, path: string, cwd: string)
    returns (c: Segments, d: bool)
    requires Ready(base, size, scratch) && Absolute(Scratch(path, cwd, scratch))
    requires LookupPath(base, size, scratch, path, cwd).Found?
    ensures AllProper(c) && (c == [] ==> d)
    ensures c == [] || |base| + |Render(c, d)| + 1 < size
    ensures LookupPath(base, size, scratch, path, cwd).vpath == Render(Norm(base) + c, d) == base + Render(c, d)
  {
    var p := Scratch(path, cwd, scratch);
    LookupAbsolute(base, size, scratch, path, cwd);
    NormIsProper(p);
    BaseIsJoin(base);
    c := Within(Norm(base), Norm(p), DirLike(p));
    d := DirLike(p) || c == [];
    assert Render(c, DirLike(p)) == Render(c, d);
    RenderTail(c, d);
    RenderStartsWithSlash(c, d);
    RenderConcat(Norm(base), c, d);
  }

  /** What the lookup of an absolute path leaves in vpath, whether it succeeds or not. */
  lemma LeftShape(base: string, size: nat, scratch: nat, path: string, cwd: string)
    returns (cs: Segments, d: bool)
    requires Ready(base, size, scratch) && Absolute(Scratch(path, cwd, scratch))
    ensures AllProper(cs) && base + "/" <= Render(cs, d)
    ensures TextLeft(LookupPath(base, size, scratch, path, cwd)) == Render(cs, d)
    ensures LookupPath(base, size, scratch, path, cwd).Failed? ==> Render(cs, d) == base + "/"
  {
    if LookupPath(base, size, scratch, path, cwd).Found? {
      var c;
      c, d := FoundShape(base, size, scratch, path, cwd);
      cs := Norm(base) + c;
      BelowStartsWithBase(base, c, d);
    } else {
      LookupAbsolute(base, size, scratch, path, cwd);
      cs, d := Norm(base), true;
    }
  }

  /** Text that cleaning leaves alone is looked up as it is. */
  lemma LookupCleaned(base: string, size: nat, scratch: nat, v: string, cwd: string)
    requires size > 0 && v != "." && |v| < scratch && CleanPath(v) == v
    ensures LookupPath(base, size, scratch, v, cwd) == Place(base, size, v)
  {
  }

  lemma PlaceAgain(base: string, size: nat, c: Segments, d: bool)
    requires Ready(base, size, 1) && AllProper(c) && (c == [] ==> d)
    requires c == [] || |base| + |Render(c, d)| + 1 < size
    ensures Place(base, size, Render(Norm(base) + c, d)) == Found(Render(Norm(base) + c, d))
  {
    var bs := Norm(base);
    PlaceRendered(base, size, bs + c, d);
    RenderTail(c, d);
    RenderStartsWithSlash(c, d);
    assert bs == (bs + c)[..|bs|] && c == (bs + c)[|bs|..];
  }

  /** The lookup of a path already under the base. */
  lemma LookupAgain(base: string, size: nat, scratch: nat, c: Segments, d: bool, cwd: string)
    requires Ready(base, size, scratch) && size <= scratch && AllProper(c) && (c == [] ==> d)
    requires c == [] || |base| + |Render(c, d)| + 1 < size
    ensures var v := Render(Norm(base) + c, d);
      LookupPath(base, size, scratch, v, cwd) == Found(v)
  {
    var cs := Norm(base) + c;
    PlaceAgain(base, size, c, d);
    RenderConcat(Norm(base), c, d);
    RenderStartsWithSlash(cs, d);
    CleanFixesRender(cs, d);
    LookupCleaned(base, size, scratch, Render(cs, d), cwd);
  }

  /** What is left in vpath is always a normal path under the base, and the virtual root on failure. */
  lemma LeftIsNormal(base: string, size: nat, scratch: nat, path: string, cwd: string)
    requires Ready(base, size, scratch) && Absolute(Scratch(path, cwd, scratch))
    ensures var o := LookupPath(base, size, scratch, path, cwd);
      var s := TextLeft(o);
      Normal(s) && base + "/" <= s && (o.Failed? ==> s == base + "/")
  {
    var cs, d := LeftShape(base, size, scratch, path, cwd);
    RenderIsNormal(cs, d);
  }

  /** The lookup of "/" is the virtual root. */
  lemma LookupOfRoot(base: string, size: nat, scratch: nat, cwd: string, s: string)
    requires Ready(base, size, scratch) && scratch > 1 && s == "/"
    ensures LookupPath(base, size, scratch, s, cwd) == Found(base + "/")
  {
    var bs := Norm(base);
    assert Render([], true) == s;
    CleanFixesRender([], true);
    LookupCleaned(base, size, scratch, s, cwd);
    PlaceRendered(base, size, [], true);
    assert Within(bs, [], true) == [] && bs + [] == bs;
  }

  // ----- every path: where the result lies

  /** The cleaned text begins with "/" or a ".." component, so the loop resets vpath to the base. */
  predicate Anchored(x: string) {
    Absolute(x) || x == ".." || "../" <= x
  }

  predicate UnderBase(base: string, v: string) {
    v == base || base + "/" <= v
  }

  /** How many ".." find the stack empty: the height climbed above its bottom. */
  function ClimbDepth(stack: Segments, segs: Segments): nat
    decreases |segs|
  {
    if segs == [] then 0
    else
      (if segs[0] == ".." && stack == [] then 1 else 0) + ClimbDepth(Push(stack, segs[0]), segs[1..])
  }

  /** `a` without its last `h` components, or without any if it has fewer. */
  function Sink(a: Segments, h: nat): Segments {
    if h <= |a| then a[..|a| - h] else []
  }

  /** On top of `a`, segments give what they give alone, above what their climbing leaves of `a`. */
  lemma {:induction false} ResolveOnTop(a: Segments, b: Segments, segs: Segments)
    ensures Resolve(a + b, segs) == Sink(a, ClimbDepth(b, segs)) + Resolve(b, segs)
    decreases |segs|
  {
    if segs == [] {
      assert Sink(a, 0) == a;
    } else if segs[0] == ".." && b == [] {
      var a1 := Sink(a, 1);
      assert a + b == a && Push(a, "..") == a1 && a1 + [] == a1;
      ResolveOnTop(a1, [], segs[1..]);
      assert Sink(a1, ClimbDepth([], segs[1..])) == Sink(a, ClimbDepth(b, segs));
    } else {
      assert Push(a + b, segs[0]) == a + Push(b, segs[0]);
      ResolveOnTop(a, Push(b, segs[0]), segs[1..]);
    }
  }

  lemma {:induction false} NoParentNoClimb(stack: Segments, segs: Segments)
    requires ".." !in segs
    ensures ClimbDepth(stack, segs) == 0
    decreases |segs|
  {
    if segs != [] { NoParentNoClimb(Push(stack, segs[0]), segs[1..]); }
  }

  lemma {:induction false} SettledSegments(r: string)
    requires Settled(r)
    ensures ".." !in Split(r)
    decreases |r|
  {
    var k := LastSlash(r);
    if k < 0 {
      SplitPlain(r);
    } else {
      var f, l := r[..k], r[k + 1..];
      assert r == f + "/" + l;
      SettledFront(r, k);
      SettledBack(r, k);
      SettledSegments(f);
      SplitConcat(f, l);
      SplitPlain(l);
    }
  }

  lemma SettledFront(r: string, k: nat)
    requires Settled(r) && k < |r| && r[k] == '/'
    ensures Settled(r[..k])
  {
    var f := r[..k];
    assert forall i :: 0 <= i < |f| ==> f[i] == r[i];
    assert k == 2 ==> r[..3] == [r[0], r[1], r[2]];
  }

  lemma SettledBack(r: string, k: nat)
    requires NoInnerParent(r) && k < |r| && r[k] == '/'
    ensures r[k + 1..] != ".."
  {
    var l := r[k + 1..];
    assert |l| == 2 ==> l == [r[k + 1], r[k + 2]];
  }

  /** A final "." or ".." or slash is all that a path without components can end in. */
  lemma RootIsDirLike(p: string)
    requires Norm(p) == []
    ensures DirLike(p)
  {
    if !DirLike(p) {
      LastOnTop([], p);
      assert false;
    }
  }

  /** A path whose last segment is a name has that name on top of its stack. */
  lemma LastOnTop(stack: Segments, r: string)
    requires !DirLike(r)
    ensures var s := Split(r);
      Resolve(stack, s) == Resolve(stack, s[..|s| - 1]) + [LastSegment(r)]
  {
    var s := Split(r);
    var f, l := s[..|s| - 1], s[|s| - 1];
    assert f + [l] == s;
    ResolveConcat(stack, f, [l]);
    assert [l][1..] == [];
  }

  /** Settled text after the base: its components go on top, and the length has been paid for. */
  lemma AppendShape(base: string, size: nat, r: string) returns (c: Segments, d: bool)
    requires NormalBase(base) && Settled(r) && Append(size, base + "/", r).Found?
    ensures AllProper(c) && (c == [] ==> d) && Append(size, base + "/", r).vpath == Render(Norm(base) + c, d)
    ensures c == [] || |base| + |Render(c, d)| + 1 < size
  {
    AppendRenders(base, r);
    if r == "" {
      c, d := [], true;
      assert Norm(base) + [] == Norm(base);
    } else {
      c, d := SettledShape(base, r);
    }
  }

  lemma SettledShape(base: string, r: string) returns (c: Segments, d: bool)
    requires NormalBase(base) && Settled(r)
    ensures AllProper(c) && (c == [] ==> d)
    ensures Render(Resolve(Norm(base), Split(r)), DirLike(r)) == Render(Norm(base) + c, d)
    ensures |Render(c, d)| <= |r| + 1
  {
    var bs := Norm(base);
    c, d := Resolve([], Split(r)), DirLike(r);
    SettledOnTop(bs, r);
    if !d { LastOnTop([], r); }
    SettledLength(base, r, c, d);
  }

  lemma SettledOnTop(bs: Segments, r: string)
    requires Settled(r)
    ensures var c := Resolve([], Split(r));
      AllProper(c) && Resolve(bs, Split(r)) == bs + c
  {
    SettledSegments(r);
    NoParentNoClimb([], Split(r));
    ResolveOnTop(bs, [], Split(r));
    assert bs + [] == bs && Sink(bs, 0) == bs;
    NormIsProper(r);
  }

  /** Cleaning the base, one slash and the text gives that path too, so it is no longer than they are. */
  lemma SettledLength(base: string, r: string, c: Segments, d: bool)
    requires NormalBase(base) && Resolve(Norm(base), Split(r)) == Norm(base) + c && d == DirLike(r)
    requires c == [] ==> d
    ensures |Render(c, d)| <= |r| + 1
  {
    CleanAppended(base, r);
    AppendedLength(base, r);
    RenderConcat(Norm(base), c, d);
  }

  lemma AppendedLength(base: string, r: string)
    ensures |CleanPath(base + "/" + r)| <= |base| + 1 + |r|
  {
    CleanNeverGrows(base + "/" + r);
  }

  lemma PlaceAnchored(base: string, size: nat, x: string) returns (c: Segments, d: bool)
    requires Ready(base, size, 1) && Walkable(x) && Anchored(x) && Place(base, size, x).Found?
    ensures AllProper(c) && (c == [] ==> d) && Place(base, size, x).vpath == Render(Norm(base) + c, d)
    ensures c == [] || |base| + |Render(c, d)| + 1 < size
  {
    StripBaseWalkable(base, x);
    var y := StripBase(base, x);
    WalkSettles(base + "/", "", y);
    c, d := AppendShape(base, size, Walk(base + "/", "", y).1);
  }

  /** The shape of every result for anchored text. */
  lemma AnchoredShape(base: string, size: nat, scratch: nat, path: string, cwd: string)
    returns (c: Segments, d: bool)
    requires Ready(base, size, scratch)
    requires Anchored(CleanPath(Scratch(path, cwd, scratch)))
    requires LookupPath(base, size, scratch, path, cwd).Found?
    ensures AllProper(c) && (c == [] ==> d)
    ensures LookupPath(base, size, scratch, path, cwd).vpath == Render(Norm(base) + c, d)
    ensures c == [] || |base| + |Render(c, d)| + 1 < size
  {
    CleanIsWalkable(Scratch(path, cwd, scratch));
    c, d := PlaceAnchored(base, size, CleanPath(Scratch(path, cwd, scratch)));
  }

  // ----- anchored paths: the exact result

  /** What the loop steps over: "../" and "/", in any order. */
  ghost predicate Steps(p: string) {
    && (p != "" ==> p[|p| - 1] == '/')
    && forall i :: 0 <= i < |Split(p)| ==> Split(p)[i] == "" || Split(p)[i] == ".."
  }

  /** `p` is all that the loop steps over in `y`. */
  ghost predicate AllSteps(y: string, p: string) {
    p <= y && Steps(p) && !Absolute(y[|p|..]) && !("../" <= y[|p|..])
  }

  /** Only one prefix is all the steps. */
  lemma {:induction false} StepsAreUnique(y: string, p: string, q: string)
    requires AllSteps(y, p) && AllSteps(y, q) && |p| <= |q|
    ensures p == q
  {
    if |p| < |q| {
      var z := q[|p|..];
      assert q == p + z && z == y[|p|..|q|];
      if p != "" {
        assert p == p[..|p| - 1] + "/" && q == p[..|p| - 1] + "/" + z;
        SplitConcat(p[..|p| - 1], z);
        var a := Split(p[..|p| - 1]);
        assert forall i :: 0 <= i < |Split(z)| ==> Split(q)[|a| + i] == Split(z)[i];
      } else {
        assert q == z;
      }
      assert z <= y[|p|..];
      StepsStart(z);
    }
  }

  lemma StepsStart(z: string)
    requires z != "" && z[|z| - 1] == '/' && (Split(z)[0] == "" || Split(z)[0] == "..")
    ensures Absolute(z) || "../" <= z
  {
    if Split(z)[0] == ".." {
      var k := FirstSlash(z);
      FirstSegment(z);
      assert z[..k] == ".." && z[k] == '/';
      assert z[..3] == "../";
    }
  }

  lemma {:induction false} FirstSegment(s: string)
    ensures var k := FirstSlash(s);
      Split(s)[0] == if k >= 0 then s[..k] else s
  {
    if s != "" && s[0] != '/' { FirstSegment(s[1..]); }
  }

  /** The loop steps over all of them; at the root they mean nothing. */
  lemma {:induction false} WalkSteps(root: string, v: string, y: string) returns (p: string)
    ensures AllSteps(y, p)
    ensures var r := y[|p|..];
      && Walk(root, v, y) == (if p == "" && r != ".." then v else root, if r == ".." then "" else r)
      && Norm(y) == Norm(r) && LastSegment(y) == LastSegment(r)
    decreases |y|
  {
    if "../" <= y {
      var q := WalkSteps(root, root, y[3..]);
      p := ".." + "/" + q;
      assert y == ".." + "/" + y[3..];
      StepOver("..", y[3..], q);
    } else if Absolute(y) {
      var q := WalkSteps(root, root, y[1..]);
      p := "" + "/" + q;
      assert y == "" + "/" + y[1..];
      StepOver("", y[1..], q);
    } else {
      p := "";
      assert y[0..] == y && Split("") == [""];
    }
  }

  lemma StepOver(x: string, z: string, q: string)
    requires (x == "" || x == "..") && AllSteps(z, q)
    ensures AllSteps(x + "/" + z, x + "/" + q)
    ensures (x + "/" + z)[|x + "/" + q|..] == z[|q|..]
    ensures Norm(x + "/" + z) == Norm(z) && LastSegment(x + "/" + z) == LastSegment(z)
  {
    SplitConcat(x, q);
    SplitPlain(x);
    NormConcat(x, z);
    OneSegment(x);
    assert q == z[..|q|];
  }

  lemma OneSegment(x: string)
    requires '/' !in x
    ensures Norm(x) == Push([], x)
  {
    SplitPlain(x);
    var s := Split(x);
    assert s[1..] == [] && Resolve([], s) == Resolve(Push([], x), s[1..]);
  }

  /** A rooted path has the components of its text. */
  lemma NormRooted(y: string)
    ensures Norm("/" + y) == Norm(y) && LastSegment("/" + y) == LastSegment(y)
  {
    assert "/" + y == "" + "/" + y;
    NormConcat("", y);
    assert Norm("") == [] by { assert [""][1..] == []; }
  }

  /** What is left in vpath when the text after the steps is `r`: its components below the base, if they fit. */
  function AnchoredAnswer(base: string, size: nat, y: string, r: string): Outcome {
    if r != "" && r != ".." && |base| + |r| + 2 >= size then Failed(ENAMETOOLONG, base + "/")
    else Found(Render(Norm(base) + Norm("/" + y), DirLike(y) || Norm("/" + y) == []))
  }

  lemma AppendExact(base: string, size: nat, r: string)
    requires NormalBase(base) && Settled(r)
    ensures Append(size, base + "/", r) ==
      if r != "" && |base| + |r| + 2 >= size then Failed(ENAMETOOLONG, base + "/")
      else Found(Render(Norm(base) + Norm(r), DirLike(r) || Norm(r) == []))
  {
    SettledNotRefused(r);
    AppendRenders(base, r);
    SettledOnTop(Norm(base), r);
    if r == "" {
      assert Norm(r) == [] by { assert [""][1..] == []; }
      assert Norm(base) + [] == Norm(base);
    } else if Norm(r) == [] {
      RootIsDirLike(r);
    }
  }

  /**
    * The lookup of anchored text is exact: past one leading copy of the base, its components go below the base,
    * where a ".." at the top means nothing. It fails only for length, by the text after all leading steps.
    */
  lemma AnchoredExact(base: string, size: nat, scratch: nat, path: string, cwd: string) returns (p: string)
    requires Ready(base, size, scratch) && Anchored(CleanPath(Scratch(path, cwd, scratch)))
    ensures var y := StripBase(base, CleanPath(Scratch(path, cwd, scratch)));
      AllSteps(y, p) && LookupPath(base, size, scratch, path, cwd) == AnchoredAnswer(base, size, y, y[|p|..])
  {
    var x := CleanPath(Scratch(path, cwd, scratch));
    CleanIsWalkable(Scratch(path, cwd, scratch));
    p := PlaceExact(base, size, x);
  }

  lemma PlaceExact(base: string, size: nat, x: string) returns (p: string)
    requires Ready(base, size, 1) && Walkable(x) && Anchored(x)
    ensures var y := StripBase(base, x);
      AllSteps(y, p) && Place(base, size, x) == AnchoredAnswer(base, size, y, y[|p|..])
  {
    StripBaseWalkable(base, x);
    var y := StripBase(base, x);
    WalkSettles(base + "/", "", y);
    p := WalkSteps(base + "/", "", y);
    StepsAnswer(base, size, y, y[|p|..]);
  }

  lemma StepsAnswer(base: string, size: nat, y: string, r: string)
    requires NormalBase(base) && Norm(y) == Norm(r) && LastSegment(y) == LastSegment(r)
    requires Settled(if r == ".." then "" else r)
    ensures Append(size, base + "/", if r == ".." then "" else r) == AnchoredAnswer(base, size, y, r)
  {
    NormRooted(y);
    if r == ".." { ParentMeansNothing(r); }
    AppendExact(base, size, if r == ".." then "" else r);
  }

  lemma ParentMeansNothing(r: string)
    requires r == ".."
    ensures Norm(r) == [] && LastSegment(r) == ".." && Norm("") == []
  {
    SplitPlain(r);
    assert [".."][1..] == [] && [""][1..] == [];
  }

  /** A normal path strictly under the base, in components and in text. */
  ghost predicate StrictlyUnder(base: string, v: string) {
    Normal(v) && Norm(base) <= Norm(v) && base + "/" <= v
  }

  lemma ShapeStrictlyUnder(base: string, c: Segments, d: bool)
    requires NormalBase(base) && AllProper(c) && (c == [] ==> d)
    ensures StrictlyUnder(base, Render(Norm(base) + c, d))
  {
    BelowStartsWithBase(base, c, d);
    assert AllProper(Norm(base) + c);
    NormRender(Norm(base) + c, d);
  }

  /** Confinement: whatever anchored text is looked up, the result is a normal path strictly under the base. */
  lemma AnchoredStaysUnder(base: string, size: nat, scratch: nat, path: string, cwd: string)
    requires Ready(base, size, scratch)
    requires Anchored(CleanPath(Scratch(path, cwd, scratch)))
    requires LookupPath(base, size, scratch, path, cwd).Found?
    ensures StrictlyUnder(base, LookupPath(base, size, scratch, path, cwd).vpath)
  {
    var c, d := AnchoredShape(base, size, scratch, path, cwd);
    ShapeStrictlyUnder(base, c, d);
  }

  /** Looking up a result again gives the same result, even when the base recurs inside the path. */
  lemma LookupIdempotent(base: string, size: nat, scratch: nat, path: string, cwd: string, cwd': string)
    requires Ready(base, size, scratch) && size <= scratch && Anchored(CleanPath(Scratch(path, cwd, scratch)))
    ensures var o := LookupPath(base, size, scratch, path, cwd);
      o.Found? ==> LookupPath(base, size, scratch, o.vpath, cwd') == o
  {
    if LookupPath(base, size, scratch, path, cwd).Found? {
      var c, d := AnchoredShape(base, size, scratch, path, cwd);
      LookupAgain(base, size, scratch, c, d, cwd');
    }
  }

  lemma NotStripped(base: string, x: string)
    requires Absolute(base) && !Absolute(x)
    ensures !Strips(base, x)
  {
  }

  /** Text that is not anchored is placed under the real root instead. */
  lemma RelativeGoesToRoot(base: string, size: nat, scratch: nat, path: string, cwd: string)
    requires Ready(base, size, scratch)
    requires !Anchored(CleanPath(Scratch(path, cwd, scratch)))
    ensures var x := CleanPath(Scratch(path, cwd, scratch));
      LookupPath(base, size, scratch, path, cwd) ==
        if x == "" then Found("")
        else if |x| + 1 >= size then Failed(ENAMETOOLONG, "")
        else Found(Render(Norm("/" + x), DirLike("/" + x)))
  {
    CleanIsWalkable(Scratch(path, cwd, scratch));
    PlaceUnanchored(base, size, CleanPath(Scratch(path, cwd, scratch)));
  }

  lemma PlaceUnanchored(base: string, size: nat, x: string)
    requires Ready(base, size, 1) && Walkable(x) && !Anchored(x)
    ensures Place(base, size, x) ==
      if x == "" then Found("")
      else if |x| + 1 >= size then Failed(ENAMETOOLONG, "")
      else Found(Render(Norm("/" + x), DirLike("/" + x)))
  {
    NotStripped(base, x);
    WalkSettles(base + "/", "", x);
    AppendUnanchored(size, x);
  }

  lemma AppendUnanchored(size: nat, x: string)
    requires Settled(x)
    ensures Append(size, "", x) ==
      if x == "" then Found("")
      else if |x| + 1 >= size then Failed(ENAMETOOLONG, "")
      else Found(Render(Norm("/" + x), DirLike("/" + x)))
  {
    if x == "" {
      CleanEmpty(x);
    } else {
      SettledNotRefused(x);
      assert "" + "/" + x == "/" + x;
      CleanRenders("/" + x);
    }
  }

  lemma CleanEmpty(s: string)
    requires s == ""
    ensures CleanPath(s) == ""
  {
    assert s[0..] == s && s[..0] + "" == "";
  }

  /** Exactly when a successful lookup ends at or below the base. */
  lemma UnderBaseIff(base: string, size: nat, scratch: nat, path: string, cwd: string)
    requires Ready(base, size, scratch)
    requires LookupPath(base, size, scratch, path, cwd).Found?
    ensures var x := CleanPath(Scratch(path, cwd, scratch));
      UnderBase(base, LookupPath(base, size, scratch, path, cwd).vpath) <==>
        Anchored(x) || Norm(base) <= Norm("/" + x)
  {
    var x := CleanPath(Scratch(path, cwd, scratch));
    if Anchored(x) {
      AnchoredStaysUnder(base, size, scratch, path, cwd);
    } else {
      RelativeGoesToRoot(base, size, scratch, path, cwd);
      if x == "" {
        EmptyNotUnder(base, "/" + x);
      } else {
        NormIsProper("/" + x);
        RenderUnderBase(base, Norm("/" + x), DirLike("/" + x));
      }
    }
  }

  /** The text is resolved to a path strictly under the base, by name only. */
  predicate NamesInside(base: string, x: string) {
    Below(Norm(base), Norm("/" + x), DirLike("/" + x))
  }

  /**
    * For every path: a result looks up to itself exactly when its text was anchored or empty, or named a path
    * strictly under the base all the same, the virtual root or one that leaves a byte of vpath to spare.
    */
  lemma LookupIdempotentIff(base: string, size: nat, scratch: nat, path: string, cwd: string, cwd': string)
    requires Ready(base, size, scratch) && size <= scratch
    requires LookupPath(base, size, scratch, path, cwd).Found?
    ensures var x, o := CleanPath(Scratch(path, cwd, scratch)), LookupPath(base, size, scratch, path, cwd);
      LookupPath(base, size, scratch, o.vpath, cwd') == o <==>
        || Anchored(x) || x == ""
        || (NamesInside(base, x) && (Norm("/" + x) == Norm(base) || |o.vpath| + 1 < size))
  {
    var x := CleanPath(Scratch(path, cwd, scratch));
    if Anchored(x) {
      LookupIdempotent(base, size, scratch, path, cwd, cwd');
    } else {
      RelativeGoesToRoot(base, size, scratch, path, cwd);
      if x == "" {
        EmptyAgain(base, size, scratch, x, cwd');
      } else {
        RootedAgain(base, size, scratch, "/" + x, cwd');
      }
    }
  }

  lemma EmptyAgain(base: string, size: nat, scratch: nat, x: string, cwd: string)
    requires Ready(base, size, scratch) && x == ""
    ensures LookupPath(base, size, scratch, x, cwd) == Found(x)
  {
    CleanEmpty(x);
    PlaceUnanchored(base, size, x);
  }

  /** The result for text that is not anchored, looked up again. */
  lemma RootedAgain(base: string, size: nat, scratch: nat, s: string, cwd: string)
    requires Ready(base, size, scratch) && size <= scratch && Absolute(s) && |s| < size
    ensures var v := Render(Norm(s), DirLike(s));
      LookupPath(base, size, scratch, v, cwd) == Found(v) <==>
        Below(Norm(base), Norm(s), DirLike(s)) && (Norm(s) == Norm(base) || |v| + 1 < size)
  {
    var cs, d := Norm(s), DirLike(s);
    CleanRenders(s);
    CleanNeverGrows(s);
    NormIsProper(s);
    RenderStartsWithSlash(cs, d);
    CleanFixesRender(cs, d);
    LookupCleaned(base, size, scratch, Render(cs, d), cwd);
    PlaceAgainIff(base, size, cs, d);
    if cs == [] { RootIsDirLike(s); }
  }

  lemma PlaceAgainIff(base: string, size: nat, cs: Segments, d: bool)
    requires Ready(base, size, 1) && AllProper(cs)
    ensures Place(base, size, Render(cs, d)) == Found(Render(cs, d)) <==>
      Below(Norm(base), cs, d) && (cs == Norm(base) || |Render(cs, d)| + 1 < size)
  {
    PlaceRendered(base, size, cs, d);
    if Below(Norm(base), cs, d) { BelowAgain(base, cs, d); } else { OutsideAgain(base, cs, d); }
  }

  lemma BelowAgain(base: string, cs: Segments, d: bool)
    requires NormalBase(base) && AllProper(cs) && Below(Norm(base), cs, d)
    ensures var c := cs[|Norm(base)|..];
      && Norm(base) + c == cs && (c == [] ==> d)
      && |Render(cs, d)| == |base| + 1 + |Render(c, d)[1..]|
      && (Render(c, d)[1..] == "" <==> cs == Norm(base))
  {
    var c := cs[|Norm(base)|..];
    assert Norm(base) + c == cs;
    BelowStrips(Norm(base), cs, d);
    RenderTail(c, d);
    RenderStartsWithSlash(c, d);
  }

  lemma OutsideAgain(base: string, cs: Segments, d: bool)
    requires NormalBase(base) && AllProper(cs)
    ensures Render(Norm(base) + cs, d || cs == []) != Render(cs, d)
  {
    var bs := Norm(base);
    assert AllProper(bs + cs) && |bs + cs| > |cs|;
    NormRender(bs + cs, d || cs == []);
    NormRender(cs, d);
  }

  /** Whatever the path, what a lookup finds is a normal path, or nothing. */
  lemma FoundIsNormal(base: string, size: nat, scratch: nat, path: string, cwd: string)
    requires Ready(base, size, scratch) && LookupPath(base, size, scratch, path, cwd).Found?
    ensures var v := LookupPath(base, size, scratch, path, cwd).vpath;
      v == "" || Normal(v)
  {
    var x := CleanPath(Scratch(path, cwd, scratch));
    if Anchored(x) {
      AnchoredStaysUnder(base, size, scratch, path, cwd);
    } else {
      RelativeGoesToRoot(base, size, scratch, path, cwd);
      NormIsProper("/" + x);
      RenderIsNormal(Norm("/" + x), DirLike("/" + x));
    }
  }

  lemma EmptyNotUnder(base: string, s: string)
    requires NormalBase(base) && s == "/"
    ensures !UnderBase(base, "") && !(Norm(base) <= Norm(s))
  {
    RootNorm(s);
    BaseIsJoin(base);
  }

  lemma RootNorm(s: string)
    requires s == "/"
    ensures Norm(s) == []
  {
    SplitConcat("", "");
    assert s == "" + "/" + "";
    ResolveConcat([], [""], [""]);
    assert [""][1..] == [];
  }

  lemma RenderUnderBase(base: string, cs: Segments, d: bool)
    requires NormalBase(base) && AllProper(cs)
    ensures UnderBase(base, Render(cs, d)) <==> Norm(base) <= cs
  {
    var bs := Norm(base);
    BaseIsJoin(base);
    StripsIsBelow(bs, cs, d);
    var x := Render(cs, d);
    PrefixSlash(base, x);
    if x == base { NormRender(cs, d); }
    if bs == cs && !d { assert x == base + ""; }
  }

  lemma PrefixSlash(base: string, x: string)
    ensures Strips(base, x) <==> base + "/" <= x
  {
    if |x| > |base| {
      assert x[..|base| + 1] == x[..|base|] + [x[|base|]];
    }
  }

  // ----- which inputs are anchored

  lemma {:induction false} CollapseSlashesKeepsParent(s: string)
    requires "../" <= s
    ensures "../" <= CollapseSlashes(s)
    decreases |s|
  {
    var k := StrStr(s, "//");
    if k >= 0 {
      assert s[k..k + 2] == [s[k], s[k + 1]];
      CollapseSlashesKeepsParent(s[..k] + s[k + 1..]);
    }
  }

  lemma {:induction false} DropCurrentKeepsParent(s: string)
    requires "../" <= s
    ensures "../" <= DropCurrent(s)
    decreases |s|
  {
    var k := StrStr(s, "/./");
    if k >= 0 {
      assert s[k..k + 3] == [s[k], s[k + 1], s[k + 2]];
      DropCurrentKeepsParent(s[..k] + s[k + 2..]);
    }
  }

  /** Absolute input and input that begins with "../" is anchored. */
  lemma AnchoredInputs(p: string)
    requires Absolute(p) || "../" <= p
    ensures Anchored(CleanPath(p))
  {
    if Absolute(p) {
      CleanRenders(p);
      RenderStartsWithSlash(Norm(p), DirLike(p));
    } else {
      CollapseSlashesKeepsParent(p);
      DropCurrentKeepsParent(CollapseSlashes(p));
    }
  }

  /** Dot-dot paths, and absolute ones, stay inside whatever follows their first component. */
  lemma DotDotStaysUnder(base: string, size: nat, scratch: nat, path: string, cwd: string)
    requires Ready(base, size, scratch)
    requires Absolute(Scratch(path, cwd, scratch)) || "../" <= Scratch(path, cwd, scratch)
    requires LookupPath(base, size, scratch, path, cwd).Found?
    ensures StrictlyUnder(base, LookupPath(base, size, scratch, path, cwd).vpath)
  {
    AnchoredInputs(Scratch(path, cwd, scratch));
    AnchoredStaysUnder(base, size, scratch, path, cwd);
  }

  /** A bare ".." is not anchored: cleaning turns it into ".", and the result is the real root. */
  lemma BareParentEscapes(base: string, size: nat, scratch: nat, cwd: string)
    requires Ready(base, size, scratch) && scratch > 2
    ensures LookupPath(base, size, scratch, "..", cwd) == Found("/")
    ensures !UnderBase(base, "/")
  {
    BareParentCleans("..");
    PlaceDot(base, size, ".");
    BaseIsJoin(base);
    RenderUnderBase(base, [], true);
  }

  lemma BareParentCleans(s: string)
    requires s == ".."
    ensures CleanPath(s) == "."
  {
    CleanRelative.LosesDot('.');
    assert s == ['.', '.'];
  }

  lemma PlaceDot(base: string, size: nat, x: string)
    requires Ready(base, size, 1) && x == "."
    ensures Place(base, size, x) == Found("/")
  {
    assert NoInnerParent(x);
    PlaceUnanchored(base, size, x);
    RootDot("/" + x);
    BaseIsJoin(base);
  }

  lemma RootDot(s: string)
    requires s == "/."
    ensures Norm(s) == [] && DirLike(s)
  {
    SplitConcat("", ".");
    SplitPlain(".");
    assert "" + "/" + "." == s;
    ResolveConcat([], [""], ["."]);
    assert ["."][1..] == [];
    assert [""][1..] == [];
  }
}
