/** Paths as lists of components: the reference meaning that the string code is held to. */
module Components {
  type Segments = seq<string>

  /** The raw text between slashes; a path with n slashes has n + 1 segments. */
  function Split(s: string): (r: Segments)
    ensures |r| > 0
  {
    if s == "" then [""]
    else
      var r := Split(s[1..]);
      if s[0] == '/' then [""] + r else [[s[0]] + r[0]] + r[1..]
  }

  function LastSegment(s: string): string {
    var r := Split(s);
    r[|r| - 1]
  }

  /** A segment that names something: not empty, "." or "..", and without a slash. */
  ghost predicate Proper(c: string) {
    c != "" && c != "." && c != ".." && '/' !in c
  }

  ghost predicate AllProper(cs: Segments) {
    forall i :: 0 <= i < |cs| ==> Proper(cs[i])
  }

  /** One step of the component stack. */
  function Push(stack: Segments, c: string): Segments {
    if c == "" || c == "." then stack
    else if c == ".." then if stack == [] then [] else stack[..|stack| - 1]
    else stack + [c]
  }

  function Resolve(stack: Segments, segs: Segments): Segments
    decreases |segs|
  {
    if segs == [] then stack else Resolve(Push(stack, segs[0]), segs[1..])
  }

  /** The components an absolute path stands for. */
  function Norm(s: string): Segments {
    Resolve([], Split(s))
  }

  /** The last raw segment names the directory itself: empty, "." or "..". */
  predicate DirLike(s: string) {
    LastSegment(s) == "" || LastSegment(s) == "." || LastSegment(s) == ".."
  }

  /** "/" before every component. */
  function Join(cs: Segments): string {
    if cs == [] then "" else Join(cs[..|cs| - 1]) + "/" + cs[|cs| - 1]
  }

  /** The text of a normal path; the root and directory-like paths end in a slash. */
  function Render(cs: Segments, trail: bool): string {
    Join(cs) + (if trail || cs == [] then "/" else "")
  }

  /** The text of a normal path: it reads back as its own components and ending. */
  ghost predicate Normal(s: string) {
    s == Render(Norm(s), DirLike(s))
  }

  // ----- Split and Resolve distribute over concatenation

  /** One step of `Split`, for any text. */
  lemma SplitCons(c: char, s: string)
    ensures var r := Split(s);
      Split([c] + s) == if c == '/' then [""] + r else [[c] + r[0]] + r[1..]
  {
    assert ([c] + s)[1..] == s;
  }

  lemma ConsSegments(c: char, r: Segments, q: Segments)
    requires |r| > 0
    ensures [[c] + (r + q)[0]] + (r + q)[1..] == [[c] + r[0]] + r[1..] + q
    ensures [""] + (r + q) == [""] + r + q
  {
  }

  lemma {:induction false} SplitConcat(a: string, b: string)
    ensures Split(a + "/" + b) == Split(a) + Split(b)
  {
    if a == "" {
      SplitCons('/', b);
      assert a + "/" + b == ['/'] + b;
    } else {
      var c, f := a[0], a[1..];
      SplitConcat(f, b);
      SplitCons(c, f + "/" + b);
      SplitCons(c, f);
      ConsSegments(c, Split(f), Split(b));
      assert a == [c] + f && a + "/" + b == [c] + (f + "/" + b);
    }
  }

  lemma {:induction false} SplitPlain(x: string)
    requires '/' !in x
    ensures Split(x) == [x]
  {
    if x != "" {
      SplitPlain(x[1..]);
      assert [x[0]] + x[1..] == x;
    }
  }

  lemma {:induction false} ResolveConcat(stack: Segments, x: Segments, y: Segments)
    ensures Resolve(stack, x + y) == Resolve(Resolve(stack, x), y)
    decreases |x|
  {
    if x == [] {
      assert x + y == y;
    } else {
      assert (x + y)[1..] == x[1..] + y;
      ResolveConcat(Push(stack, x[0]), x[1..], y);
    }
  }

  lemma {:induction false} ResolveProper(stack: Segments, cs: Segments)
    requires AllProper(cs)
    ensures Resolve(stack, cs) == stack + cs
    decreases |cs|
  {
    if cs == [] {
      assert stack + cs == stack;
    } else {
      ResolveProper(stack + [cs[0]], cs[1..]);
      assert stack + [cs[0]] + cs[1..] == stack + cs;
    }
  }

  /** Segments never contain a slash, and resolving yields proper components only. */
  lemma {:induction false} SplitSlashFree(s: string)
    ensures forall i :: 0 <= i < |Split(s)| ==> '/' !in Split(s)[i]
  {
    if s != "" {
      SplitSlashFree(s[1..]);
      var r := Split(s[1..]);
      forall i | 0 <= i < |Split(s)| ensures '/' !in Split(s)[i] {
        if s[0] == '/' {
          if i > 0 { assert Split(s)[i] == r[i - 1]; }
        } else if i > 0 {
          assert Split(s)[i] == r[i];
        }
      }
    }
  }

  lemma {:induction false} ResolveKeepsProper(stack: Segments, segs: Segments)
    requires AllProper(stack)
    requires forall i :: 0 <= i < |segs| ==> '/' !in segs[i]
    ensures AllProper(Resolve(stack, segs))
    decreases |segs|
  {
    if segs != [] {
      ResolveKeepsProper(Push(stack, segs[0]), segs[1..]);
    }
  }

  lemma NormIsProper(s: string)
    ensures AllProper(Norm(s))
  {
    SplitSlashFree(s);
    ResolveKeepsProper([], Split(s));
  }

  /** The pieces of `a + "/" + b`, resolved. */
  lemma NormConcat(a: string, b: string)
    ensures Norm(a + "/" + b) == Resolve(Norm(a), Split(b))
    ensures LastSegment(a + "/" + b) == LastSegment(b)
  {
    SplitConcat(a, b);
    ResolveConcat([], Split(a), Split(b));
  }

  // ----- Render is a section of Norm

  lemma {:induction false} SplitJoin(cs: Segments)
    requires AllProper(cs)
    ensures Split(Join(cs)) == [""] + cs
  {
    if cs != [] {
      var front, x := cs[..|cs| - 1], cs[|cs| - 1];
      SplitJoin(front);
      SplitConcat(Join(front), x);
      SplitPlain(x);
      assert front + [x] == cs;
      assert [""] + front + [x] == [""] + cs;
    }
  }

  /** The segments of a rendered path: a leading "", the components, and a final "" when it ends in a slash. */
  lemma SplitRender(cs: Segments, trail: bool)
    requires AllProper(cs)
    ensures Split(Render(cs, trail)) == [""] + cs + (if trail || cs == [] then [""] else [])
  {
    SplitJoin(cs);
    if trail || cs == [] {
      SplitConcat(Join(cs), "");
      assert Join(cs) + "/" + "" == Render(cs, trail);
    } else {
      assert Join(cs) + "" == Join(cs);
    }
  }

  /** Rendering loses nothing: the components and the trailing slash can be read back. */
  lemma NormRender(cs: Segments, trail: bool)
    requires AllProper(cs)
    ensures Norm(Render(cs, trail)) == cs
    ensures DirLike(Render(cs, trail)) <==> trail || cs == []
  {
    SplitRender(cs, trail);
    var tail: Segments := if trail || cs == [] then [""] else [];
    ResolveConcat([], [""] + cs, tail);
    ResolveConcat([], [""], cs);
    assert Resolve([], [""]) == [] by { assert [""][1..] == []; }
    ResolveProper([], cs);
    assert Resolve(cs, [""]) == cs by { assert [""][1..] == []; }
    var all := [""] + cs + tail;
    assert LastSegment(Render(cs, trail)) == all[|all| - 1];
  }

  lemma {:induction false} JoinConcat(a: Segments, b: Segments)
    ensures Join(a + b) == Join(a) + Join(b)
  {
    if b == [] {
      assert a + b == a;
    } else {
      var c := a + b;
      assert c[..|c| - 1] == a + b[..|b| - 1];
      JoinConcat(a, b[..|b| - 1]);
      assert Join(b) == Join(b[..|b| - 1]) + "/" + b[|b| - 1];
    }
  }

  lemma JoinStartsWithSlash(cs: Segments)
    requires cs != []
    ensures Join(cs) != "" && Join(cs)[0] == '/'
  {
    JoinConcat([cs[0]], cs[1..]);
    assert [cs[0]] + cs[1..] == cs;
    assert Join([cs[0]]) == "/" + cs[0] by { assert [cs[0]][..0] == []; }
  }

  lemma RenderStartsWithSlash(cs: Segments, trail: bool)
    ensures Render(cs, trail) != "" && Render(cs, trail)[0] == '/'
  {
    if cs != [] { JoinStartsWithSlash(cs); }
  }

  /** A path below `a` is the text of `a` followed by the text of the rest. */
  lemma RenderConcat(a: Segments, b: Segments, trail: bool)
    requires a != [] && (b == [] ==> trail)
    ensures Render(a + b, trail) == Join(a) + Render(b, trail)
  {
    JoinConcat(a, b);
    var t := if trail then "/" else "";
    assert Join(a) + Join(b) + t == Join(a) + (Join(b) + t);
  }

  lemma RenderIsNormal(cs: Segments, trail: bool)
    requires AllProper(cs)
    ensures Normal(Render(cs, trail))
  {
    NormRender(cs, trail);
  }

  // ----- normal paths, taken apart

  /** The segments determine the text. */
  lemma {:induction false} SplitInjective(a: string, b: string)
    requires Split(a) == Split(b)
    ensures a == b
  {
    if a != "" && b != "" {
      assert a[0] == '/' <==> b[0] == '/' by {
        assert a[0] != '/' ==> Split(a)[0] != "" && Split(a)[0][0] == a[0];
        assert b[0] != '/' ==> Split(b)[0] != "" && Split(b)[0][0] == b[0];
      }
      TailSegments(a);
      TailSegments(b);
      SplitInjective(a[1..], b[1..]);
    }
  }

  /** The segments of the text after the first character. */
  lemma TailSegments(s: string)
    requires s != ""
    ensures var r := Split(s);
      Split(s[1..]) == if s[0] == '/' then r[1..] else [r[0][1..]] + r[1..]
  {
    var q := Split(s[1..]);
    assert [q[0]] + q[1..] == q;
  }

  /** The segments of a normal path: nothing before the first slash, names, and nothing after a final slash. */
  lemma NormalSegments(s: string) returns (tail: Segments)
    requires Normal(s)
    ensures AllProper(Norm(s)) && Split(s) == [""] + Norm(s) + tail
    ensures tail == (if DirLike(s) || Norm(s) == [] then [""] else [])
  {
    NormIsProper(s);
    SplitRender(Norm(s), DirLike(s));
    tail := if DirLike(s) || Norm(s) == [] then [""] else [];
  }

  /** A normal path cut at a slash: both parts have the names on their side, and the second is normal again. */
  lemma NormalCut(s: string, k: nat) returns (j: nat)
    requires Normal(s) && k < |s| && s[k] == '/'
    ensures AllProper(Norm(s)) && j <= |Norm(s)|
    ensures Split(s[..k]) == [""] + Norm(s)[..j] && Norm(s[..k]) == Norm(s)[..j]
    ensures Normal(s[k..]) && Norm(s[k..]) == Norm(s)[j..]
    ensures Split(s[k + 1..])[0] == if j < |Norm(s)| then Norm(s)[j] else ""
  {
    var tail := NormalSegments(s);
    j := SegmentsCut(s, k, Norm(s), tail);
    ResolveProperAfterRoot(Norm(s)[..j]);
    assert s[k..][1..] == s[k + 1..];
    RestIsNormal(s[k..], Norm(s)[j..], tail);
  }

  lemma SegmentsCut(s: string, k: nat, cs: Segments, tail: Segments) returns (j: nat)
    requires k < |s| && s[k] == '/'
    requires Split(s) == [""] + cs + tail && (tail == [] || tail == [""])
    ensures j <= |cs| && Split(s[..k]) == [""] + cs[..j] && Split(s[k + 1..]) == cs[j..] + tail
    ensures |cs[j..] + tail| > 0 && Split(s[k + 1..])[0] == if j < |cs| then cs[j] else ""
  {
    var a, b := Split(s[..k]), Split(s[k + 1..]);
    assert s == s[..k] + "/" + s[k + 1..];
    SplitConcat(s[..k], s[k + 1..]);
    j := |a| - 1;
    SplitSegments(a, b, cs, tail);
  }

  lemma SplitSegments(a: Segments, b: Segments, cs: Segments, tail: Segments)
    requires a + b == [""] + cs + tail && |a| > 0 && |b| > 0 && |tail| <= 1 && (tail != [] ==> tail == [""])
    ensures var j := |a| - 1;
      && j <= |cs| && a == [""] + cs[..j] && b == cs[j..] + tail
      && b[0] == if j < |cs| then cs[j] else ""
  {
    var x, j := a + b, |a| - 1;
    assert |x| == 1 + |cs| + |tail|;
    assert a == x[..|a|] && b == x[|a|..];
    assert ([""] + cs + tail)[..j + 1] == [""] + cs[..j];
  }

  lemma ResolveProperAfterRoot(cs: Segments)
    requires AllProper(cs)
    ensures Resolve([], [""] + cs) == cs
  {
    assert ([""] + cs)[1..] == cs;
    ResolveProper([], cs);
    assert [] + cs == cs;
  }

  lemma RestIsNormal(rest: string, ws: Segments, tail: Segments)
    requires rest != "" && rest[0] == '/' && AllProper(ws) && (tail == [] || tail == [""])
    requires Split(rest[1..]) == ws + tail && |ws + tail| > 0
    ensures Normal(rest) && Norm(rest) == ws
  {
    var d := tail != [];
    assert Split(rest) == [""] + ws + tail;
    SplitRender(ws, d);
    SplitInjective(rest, Render(ws, d));
    NormRender(ws, d);
  }
}
