/** Cleaning an absolute path computes exactly the component-stack normal form. */
module CleanAbsolute {
  import opened CStrings
  import opened Components
  import opened Clean

  predicate Absolute(s: string) {
    s != "" && s[0] == '/'
  }

  /** `a` and `b` stand for the same components and end in the same raw segment. */
  ghost predicate SameMeaning(a: string, b: string) {
    Norm(a) == Norm(b) && LastSegment(a) == LastSegment(b)
  }

  // ----- every rewriting step keeps the meaning

  /** Dropping a segment that the stack ignores. */
  lemma DropIgnored(a: string, m: string, b: string)
    requires m == "" || m == "."
    ensures SameMeaning(a + "/" + m + "/" + b, a + "/" + b)
  {
    var t := m + "/" + b;
    assert a + "/" + m + "/" + b == a + "/" + t;
    NormConcat(a, t);
    NormConcat(a, b);
    SplitConcat(m, b);
    SplitPlain(m);
    NormConcat(m, b);
    assert ([m] + Split(b))[1..] == Split(b);
  }

  /** The text around a "/" + m + "/" found at `k`. */
  lemma IgnoredText(s: string, m: string, k: nat)
    requires OccursAt(s, "/" + m + "/", k)
    ensures s == s[..k] + "/" + m + "/" + s[k + |m| + 2..]
    ensures s[..k] + s[k + |m| + 1..] == s[..k] + "/" + s[k + |m| + 2..]
  {
    var n := |m| + 2;
    var w := s[k..k + n];
    assert w == "/" + m + "/";
    assert s == s[..k] + w + s[k + n..];
    assert s[k + n - 1] == w[n - 1];
  }

  lemma {:induction false} CollapseSlashesMeaning(s: string)
    ensures SameMeaning(CollapseSlashes(s), s)
    ensures Absolute(s) ==> Absolute(CollapseSlashes(s))
    decreases |s|
  {
    var k := StrStr(s, "//");
    if k >= 0 {
      IgnoredText(s, "", k);
      DropIgnored(s[..k], "", s[k + 2..]);
      CollapseSlashesMeaning(s[..k] + s[k + 1..]);
    }
  }

  lemma {:induction false} DropCurrentMeaning(s: string)
    ensures SameMeaning(DropCurrent(s), s)
    ensures Absolute(s) ==> Absolute(DropCurrent(s))
    decreases |s|
  {
    var k := StrStr(s, "/./");
    if k >= 0 {
      IgnoredText(s, ".", k);
      DropIgnored(s[..k], ".", s[k + 3..]);
      DropCurrentMeaning(s[..k] + s[k + 2..]);
    }
  }

  lemma SplitCancelled(x: string, b: string)
    requires Proper(x)
    ensures Split(x + "/" + (".." + "/" + b)) == [x] + ([".."] + Split(b))
  {
    SplitConcat(x, ".." + "/" + b);
    SplitConcat("..", b);
    SplitPlain(x);
    SplitPlain("..");
  }

  lemma ResolveCancelled(n: Segments, x: string, s: Segments)
    requires Proper(x)
    ensures Resolve(n, [x] + ([".."] + s)) == Resolve(n, s)
  {
    assert ([x] + ([".."] + s))[1..] == [".."] + s;
    assert ([".."] + s)[1..] == s;
    assert Push(Push(n, x), "..") == n;
  }

  lemma PushPopSplit(a: string, x: string, b: string)
    requires Proper(x)
    ensures SameMeaning(a + "/" + (x + "/" + (".." + "/" + b)), a + "/" + b)
  {
    NormConcat(a, x + "/" + (".." + "/" + b));
    NormConcat(a, b);
    SplitCancelled(x, b);
    ResolveCancelled(Norm(a), x, Split(b));
    NormConcat(x, ".." + "/" + b);
    NormConcat("..", b);
  }

  /** A proper component followed by ".." leaves the stack as it was. */
  lemma PushPop(a: string, x: string, b: string)
    requires Proper(x)
    ensures SameMeaning(a + "/" + x + "/../" + b, a + "/" + b)
  {
    assert a + "/" + x + "/../" + b == a + "/" + (x + "/" + (".." + "/" + b));
    PushPopSplit(a, x, b);
  }

  /** A leading "/../" pops the empty stack. */
  lemma PopRoot(b: string)
    ensures SameMeaning("/../" + b, "/" + b)
  {
    var u := ".." + "/" + b;
    assert "/../" + b == "" + "/" + u;
    assert "/" + b == "" + "/" + b;
    NormConcat("", u);
    NormConcat("", b);
    SplitConcat("..", b);
    SplitPlain("..");
    NormConcat("..", b);
    assert ([".."] + Split(b))[1..] == Split(b);
    assert Norm("") == [] by { assert [""][1..] == []; }
  }

  lemma ParentAt(t: string, k: int)
    ensures OccursAt(t, "/../", k) <==>
      0 <= k < |t| - 3 && t[k] == '/' && t[k + 1] == '.' && t[k + 2] == '.' && t[k + 3] == '/'
  {
    if 0 <= k < |t| - 3 {
      assert t[k..k + 4] == [t[k], t[k + 1], t[k + 2], t[k + 3]];
    }
  }

  /** The component in front of the first "/../" is a proper one. */
  lemma CancelledIsProper(t: string, k: nat)
    requires Absolute(t) && NoDouble(t) && NoCurrent(t) && k > 0
    requires OccursAt(t, "/../", k) && forall j :: 0 <= j < k ==> !OccursAt(t, "/../", j)
    ensures 0 < CancelPoint(t, k) <= k && Proper(t[CancelPoint(t, k)..k])
  {
    var c := CancelPoint(t, k);
    var x := t[c..k];
    ParentAt(t, k);
    ParentAt(t, c - 1);
    assert t[c] != '/' && !(t[c] == '.' && t[c + 1] == '/');
    assert !(t[c] == '.' && t[c + 1] == '.' && t[c + 2] == '/');
    assert forall i :: 0 <= i < |x| ==> x[i] == t[c + i];
  }

  /** The text around a "/../" at `k`, cut at the start `c` of the component before it. */
  lemma CancelledText(t: string, c: nat, k: nat)
    requires OccursAt(t, "/../", k) && 0 < c <= k && t[c - 1] == '/'
    ensures t == t[..c - 1] + "/" + t[c..k] + "/../" + t[k + 4..]
    ensures t[..c] + t[k + 4..] == t[..c - 1] + "/" + t[k + 4..]
  {
    assert t == t[..k] + t[k..k + 4] + t[k + 4..];
    assert t[..k] == t[..c] + t[c..k];
    assert t[..c] == t[..c - 1] + "/";
  }

  lemma CancelAtMeaning(t: string, k: nat)
    requires Absolute(t) && NoDouble(t) && NoCurrent(t)
    requires OccursAt(t, "/../", k) && forall j :: 0 <= j < k ==> !OccursAt(t, "/../", j)
    ensures SameMeaning(CancelAt(t, k), t)
    ensures Absolute(CancelAt(t, k))
  {
    if k == 0 {
      CancelRoot(t);
    } else {
      CancelledIsProper(t, k);
      CancelInner(t, k, CancelPoint(t, k));
    }
  }

  lemma CancelRoot(t: string)
    requires OccursAt(t, "/../", 0)
    ensures SameMeaning(CancelAt(t, 0), t) && Absolute(CancelAt(t, 0))
  {
    PopRoot(t[4..]);
    assert CancelAt(t, 0) == "/" + t[4..];
    assert t == t[0..4] + t[4..];
  }

  lemma CancelInner(t: string, k: nat, c: nat)
    requires Absolute(t) && OccursAt(t, "/../", k)
    requires 0 < c == CancelPoint(t, k) <= k && Proper(t[c..k])
    ensures SameMeaning(CancelAt(t, k), t) && Absolute(CancelAt(t, k))
  {
    CancelledText(t, c, k);
    PushPop(t[..c - 1], t[c..k], t[k + 4..]);
  }

  lemma {:induction false} CancelParentsMeaning(t: string)
    requires Absolute(t) && NoDouble(t) && NoCurrent(t)
    ensures SameMeaning(CancelParents(t), t)
    ensures Absolute(CancelParents(t))
    decreases |t|
  {
    var k := StrStr(t, "/../");
    if k >= 0 {
      CancelAtMeaning(t, k);
      CancelAtKeeps(t, k);
      CancelParentsMeaning(CancelAt(t, k));
    }
  }

  // ----- text without "//", "/./" and "/../" is a rendering, up to its last segment

  /** `a`, followed by a slash, is free of the three patterns. */
  ghost predicate Tidy(a: string) {
    NoDouble(a + "/") && NoCurrent(a + "/") && NoParent(a + "/")
  }

  lemma TidyLast(a: string, k: nat)
    requires Tidy(a) && k < |a| && a[k] == '/' && forall j :: k < j < |a| ==> a[j] != '/'
    ensures Proper(a[k + 1..]) && Tidy(a[..k])
  {
    var e, f, x := a + "/", a[..k] + "/", a[k + 1..];
    assert forall i :: 0 <= i <= k ==> f[i] == e[i];
    assert e[k] == '/' && e[|a|] == '/';
    assert forall i :: 0 <= i < |x| ==> x[i] == e[k + 1 + i];
    assert e[k + 1] != '/';
    assert !(e[k + 1] == '.' && e[k + 2] == '/');
    assert |x| == 2 ==> e[k + 3] == '/';
  }

  lemma InteriorStep(f: string, x: string)
    requires f == Join(Norm(f)) && AllProper(Norm(f)) && Proper(x)
    ensures f + "/" + x == Join(Norm(f + "/" + x)) && AllProper(Norm(f + "/" + x))
  {
    NormConcat(f, x);
    SplitPlain(x);
    var cs := Norm(f) + [x];
    assert Resolve(Norm(f), [x]) == cs by { assert [x][1..] == []; }
    assert cs[..|cs| - 1] == Norm(f);
  }

  lemma {:induction false} Interior(a: string)
    requires (a == "" || Absolute(a)) && Tidy(a)
    ensures a == Join(Norm(a)) && AllProper(Norm(a))
    decreases |a|
  {
    if a == "" {
      assert [""][1..] == [];
    } else {
      var k := LastSlash(a);
      TidyLast(a, k);
      Interior(a[..k]);
      InteriorStep(a[..k], a[k + 1..]);
      assert a == a[..k] + "/" + a[k + 1..];
    }
  }

  lemma TidyPrefix(t: string, k: nat)
    requires k < |t| && t[k] == '/' && NoDouble(t) && NoCurrent(t) && NoParent(t)
    ensures Tidy(t[..k])
  {
    var e := t[..k] + "/";
    assert forall i :: 0 <= i < |e| ==> e[i] == t[i];
  }

  lemma FixDotsRenders(t: string)
    requires Absolute(t) && NoDouble(t) && NoCurrent(t) && NoParent(t)
    ensures FixDots(t) == Render(Norm(t), DirLike(t))
  {
    var k := LastSlash(t);
    var a, l := t[..k], t[k + 1..];
    TidyPrefix(t, k);
    Interior(a);
    RenderLast(t, a, l);
  }

  lemma RenderLast(t: string, a: string, l: string)
    requires t == a + "/" + l && '/' !in l && Absolute(t)
    requires a == Join(Norm(a)) && AllProper(Norm(a))
    ensures FixDots(t) == Render(Norm(t), DirLike(t))
  {
    NormConcat(a, l);
    SplitPlain(l);
    var cs := Norm(a);
    assert Resolve(cs, [l]) == Push(cs, l) by { assert [l][1..] == []; }
    LastSegmentCases(t, a, l, cs);
  }

  /** The four ways the last segment can look, against the code's backwards tests. */
  lemma LastSegmentCases(t: string, a: string, l: string, cs: Segments)
    requires t == a + "/" + l && '/' !in l && Absolute(t)
    requires a == Join(cs) && AllProper(cs)
    ensures FixDots(t) == Render(Push(cs, l), l == "" || l == "." || l == "..")
  {
    var n := |t|;
    if l == ".." {
      DropLast(t, a, cs);
    } else if l == "." {
      assert t[..n - 1] == a + "/";
    } else if l == "" {
      assert t == a + "/";
    } else {
      var r := cs + [l];
      assert r[..|r| - 1] == cs;
      assert Join(r) + "" == t;
      LastChars(t, a, l);
    }
  }

  lemma LastChars(t: string, a: string, l: string)
    requires t == a + "/" + l && l != "" && l != "." && l != ".." && '/' !in l
    ensures FixTrailingDots(t) == t
  {
    var n := |t|;
    assert forall i :: 0 <= i < |l| ==> t[|a| + 1 + i] == l[i];
    if |l| == 1 {
      assert t[n - 1] == l[0] && l == [l[0]];
    } else if |l| == 2 {
      assert t[n - 2] == l[0] && t[n - 1] == l[1] && l == [l[0], l[1]];
    } else {
      assert t[n - 3] == l[|l| - 3] && t[n - 2] == l[|l| - 2];
    }
  }

  lemma DropLast(t: string, a: string, cs: Segments)
    requires t == a + "/.." && Absolute(t)
    requires a == Join(cs) && AllProper(cs)
    ensures FixDots(t) == Render(Push(cs, ".."), true)
  {
    var n := |t|;
    assert t[n - 1] == '.' && t[n - 2] == '.' && t[n - 3] == '/';
    assert t[..n - 3] == a;
    if cs != [] {
      var front, x := cs[..|cs| - 1], cs[|cs| - 1];
      assert a == Join(front) + "/" + x;
      assert forall j :: |Join(front)| < j < |a| ==> a[j] == x[j - |Join(front)| - 1];
      assert a[|Join(front)|] == '/';
      assert LastSlash(a) == |Join(front)|;
      assert a[..|Join(front)| + 1] == Join(front) + "/";
    }
  }

  // ----- main results

  /** Cleaning preserves meaning: the result is the component stack, rendered. */
  lemma CleanRenders(s: string)
    requires Absolute(s)
    ensures CleanPath(s) == Render(Norm(s), DirLike(s))
  {
    var a := CollapseSlashes(s);
    CollapseSlashesMeaning(s);
    CollapseSlashesNoDouble(s);
    var b := DropCurrent(a);
    DropCurrentMeaning(a);
    DropCurrentNoCurrent(a);
    assert ParentPrefix(b) == 0 by { assert b[0] == '/'; }
    assert b[0..] == b && b[..0] + CleanTail(b) == CleanTail(b);
    CancelParentsMeaning(b);
    CancelParentsNoParent(b);
    FixDotsRenders(CancelParents(b));
  }

  /** A rendered path is left alone. */
  lemma CleanFixesRender(cs: Segments, trail: bool)
    requires AllProper(cs)
    ensures CleanPath(Render(cs, trail)) == Render(cs, trail)
  {
    RenderStartsWithSlash(cs, trail);
    NormRender(cs, trail);
    CleanRenders(Render(cs, trail));
  }

  /** Cleaning twice is cleaning once. */
  lemma CleanIdempotent(s: string)
    requires Absolute(s)
    ensures CleanPath(CleanPath(s)) == CleanPath(s)
  {
    CleanRenders(s);
    NormIsProper(s);
    CleanFixesRender(Norm(s), DirLike(s));
  }

  /** Text that the first phases leave alone. */
  lemma CleanPlain(s: string)
    requires NoDouble(s) && NoCurrent(s) && NoParent(s) && !("../" <= s)
    ensures CleanPath(s) == FixDots(s)
  {
    NoPattern(s);
    assert s[0..] == s;
    assert s[..0] + FixDots(s) == FixDots(s);
  }

  lemma NoPattern(s: string)
    ensures NoDouble(s) ==> StrStr(s, "//") == -1
    ensures NoCurrent(s) ==> StrStr(s, "/./") == -1
    ensures NoParent(s) ==> StrStr(s, "/../") == -1
  {
    var i, j, k := StrStr(s, "//"), StrStr(s, "/./"), StrStr(s, "/../");
    ParentAt(s, k);
    if i >= 0 { assert s[i..i + 2] == [s[i], s[i + 1]]; }
    if j >= 0 { assert s[j..j + 3] == [s[j], s[j + 1], s[j + 2]]; }
  }
}
