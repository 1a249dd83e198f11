/** Cleaning in segments, for relative text as well: each phase against a reference on the list of segments. */
module CleanSegments {
  import opened CStrings
  import opened Components
  import opened Clean
  import opened CleanAbsolute
  import opened CleanRelative
  import opened SegmentText

  /** How many ".." lead the segments, the last one apart. */
  function Ups(segs: Segments): nat {
    if |segs| > 1 && segs[0] == ".." then 1 + Ups(segs[1..]) else 0
  }

  function Parents(n: nat): Segments {
    if n == 0 then [] else [".."] + Parents(n - 1)
  }

  /** The first ".." at or after `i` that is not the last segment, or -1. */
  function ParentFrom(segs: Segments, i: nat): (r: int)
    ensures r == -1 || (i <= r < |segs| - 1 && segs[r] == "..")
    ensures forall j :: i <= j < |segs| - 1 && (r == -1 || j < r) ==> segs[j] != ".."
    decreases |segs| - i
  {
    if i >= |segs| - 1 then -1 else if segs[i] == ".." then i else ParentFrom(segs, i + 1)
  }

  /** Each inner ".." takes the segment before it away, whatever it is, but for the root's own. */
  function Cancelled(segs: Segments): Segments
    decreases |segs|
  {
    var i := ParentFrom(segs, 1);
    if i < 0 then segs
    else if i == 1 && segs[0] == "" then Cancelled([""] + segs[2..])
    else Cancelled(segs[..i - 1] + segs[i + 1..])
  }

  // ----- doubled slashes and "."

  /** The first phase drops every empty segment but the first and the last. */
  lemma {:induction false} CollapseSegments(s: string)
    ensures Split(CollapseSlashes(s)) == InsideWithout(Split(s), "")
    decreases |s|
  {
    var k := StrStr(s, "//");
    assert "/" + "" + "/" == "//";
    if k < 0 {
      NothingInside(s, "");
    } else {
      DropSlash(s, k);
      CollapseSegments(s[..k] + s[k + 1..]);
    }
  }

  lemma DropSlash(s: string, k: nat)
    requires OccursAt(s, "//", k)
    ensures InsideWithout(Split(s[..k] + s[k + 1..]), "") == InsideWithout(Split(s), "")
  {
    assert "/" + "" + "/" == "//" && |""| == 0;
    DropOne(s, "", k);
  }

  /** The second phase drops every "." but the first and the last. */
  lemma {:induction false} DropCurrentSegments(s: string)
    ensures Split(DropCurrent(s)) == InsideWithout(Split(s), ".")
    decreases |s|
  {
    var k := StrStr(s, "/./");
    assert "/" + "." + "/" == "/./";
    if k < 0 {
      NothingInside(s, ".");
    } else {
      DropOne(s, ".", k);
      DropCurrentSegments(s[..k] + s[k + 2..]);
    }
  }

  lemma DropOne(s: string, x: string, k: nat)
    requires '/' !in x && OccursAt(s, "/" + x + "/", k)
    ensures InsideWithout(Split(s[..k] + s[k + |x| + 1..]), x) == InsideWithout(Split(s), x)
  {
    var a, b := s[..k], s[k + |x| + 2..];
    SegmentsAround(s, x, k);
    assert s[k..k + |x| + 2][|x| + 1] == '/';
    assert s[k + |x| + 1..] == "/" + b;
    assert s[..k] + s[k + |x| + 1..] == a + "/" + b;
    SplitConcat(a, b);
    InsideDrops(Split(a), Split(b), x);
  }

  // ----- the lead

  lemma {:induction false} LeadSegments(a: string)
    ensures ParentPrefix(a) == 3 * Ups(Split(a)) && Ups(Split(a)) < |Split(a)|
    ensures Split(a[ParentPrefix(a)..]) == Split(a)[Ups(Split(a))..]
    decreases |a|
  {
    if "../" <= a {
      ParentStart(a);
      LeadSegments(a[3..]);
      assert a[3..][ParentPrefix(a[3..])..] == a[ParentPrefix(a)..];
      assert Split(a)[1..] == Split(a[3..]);
    } else {
      assert a[0..] == a;
      NoParentStart(a);
    }
  }

  lemma ParentStart(a: string)
    requires "../" <= a
    ensures Split(a) == [".."] + Split(a[3..])
  {
    assert a == ".." + "/" + a[3..];
    SplitConcat("..", a[3..]);
    SplitPlain("..");
  }

  lemma NoParentStart(a: string)
    requires !("../" <= a)
    ensures Ups(Split(a)) == 0
  {
    if |Split(a)| > 1 && Split(a)[0] == ".." {
      var k := SplitAt(a, 0);
      assert a[..k + 1] == a[..k] + [a[k]];
      SplitPlain("..");
      SplitInjective(a[..k], "..");
    }
  }

  // ----- cancelling

  /** The first "/../" in the text is the first inner "..". */
  lemma FirstParent(t: string)
    ensures var k, i := StrStr(t, "/../"), ParentFrom(Split(t), 1);
      && (k < 0 <==> i < 0)
      && (k >= 0 ==> Split(t[..k]) == Split(t)[..i] && Split(t[k + 4..]) == Split(t)[i + 1..])
  {
    var k, i := StrStr(t, "/../"), ParentFrom(Split(t), 1);
    assert "/" + ".." + "/" == "/../";
    if k >= 0 { ParentFound(t, k); }
    if i >= 0 {
      var m := SegmentAt(t, i);
      assert Split(t)[i] == "..";
      if k >= 0 { SameParent(t, k, i, m); }
    }
  }

  lemma ParentFound(t: string, k: nat)
    requires OccursAt(t, "/../", k)
    ensures ParentFrom(Split(t), 1) >= 0
  {
    assert "/" + ".." + "/" == "/../";
    SegmentsAround(t, "..", k);
    assert Split(t)[|Split(t[..k])|] == "..";
  }

  lemma SameParent(t: string, k: nat, i: nat, m: nat)
    requires OccursAt(t, "/../", k) && k <= m && i == ParentFrom(Split(t), 1)
    requires OccursAt(t, "/../", m) && Split(t[..m]) == Split(t)[..i]
    ensures Split(t[..k]) == Split(t)[..i] && Split(t[k + 4..]) == Split(t)[i + 1..]
  {
    var a, b := Split(t[..k]), Split(t[k + 4..]);
    SegmentsAround(t, "..", k);
    var j := |a|;
    assert Split(t)[j] == "..";
    ParentAt(t, k);
    NotBefore(t, k, m);
    assert i == j;
    assert a + [".."] + b == Split(t);
  }

  /** Fewer segments come before an earlier slash. */
  lemma NotBefore(t: string, k: nat, m: nat)
    requires k <= m < |t| && t[k] == '/'
    ensures k < m ==> |Split(t[..k])| < |Split(t[..m])|
  {
    if k < m {
      assert t[..m] == t[..k] + "/" + t[k + 1..m];
      SplitConcat(t[..k], t[k + 1..m]);
    }
  }

  lemma CancelAtSegments(t: string, k: nat)
    requires OccursAt(t, "/../", k)
    ensures var a, b := Split(t[..k]), Split(t[k + 4..]);
      Split(CancelAt(t, k)) == if k == 0 then [""] + b else a[..|a| - 1] + b
  {
    ParentAt(t, k);
    var c, b := CancelPoint(t, k), t[k + 4..];
    if k == 0 {
      assert CancelAt(t, 0) == "" + "/" + b;
      SplitConcat("", b);
    } else if c == 0 {
      SplitPlain(t[..k]);
      assert CancelAt(t, k) == b;
    } else {
      CancelNamed(t, k, c);
    }
  }

  lemma CancelNamed(t: string, k: nat, c: nat)
    requires OccursAt(t, "/../", k) && 0 < c == CancelPoint(t, k) <= k
    ensures var a, b := Split(t[..k]), Split(t[k + 4..]);
      Split(CancelAt(t, k)) == a[..|a| - 1] + b
  {
    var f, x, b := t[..c - 1], t[c..k], t[k + 4..];
    assert t[..k] == f + "/" + x;
    assert CancelAt(t, k) == f + "/" + b;
    SplitConcat(f, x);
    SplitPlain(x);
    SplitConcat(f, b);
  }

  /** The third phase cancels as the reference does, absolute or not. */
  lemma {:induction false} CancelSegments(t: string)
    ensures Split(CancelParents(t)) == Cancelled(Split(t))
    decreases |t|
  {
    var k := StrStr(t, "/../");
    FirstParent(t);
    if k >= 0 {
      CancelStep(t, k, ParentFrom(Split(t), 1));
      CancelSegments(CancelAt(t, k));
    }
  }

  lemma CancelStep(t: string, k: nat, i: nat)
    requires OccursAt(t, "/../", k) && 1 <= i < |Split(t)| - 1
    requires Split(t[..k]) == Split(t)[..i] && Split(t[k + 4..]) == Split(t)[i + 1..]
    ensures var us := Split(t);
      Split(CancelAt(t, k)) == if i == 1 && us[0] == "" then [""] + us[2..] else us[..i - 1] + us[i + 1..]
  {
    var us := Split(t);
    CancelAtSegments(t, k);
    RootOnly(t, k);
    assert us[..i][..i - 1] == us[..i - 1];
    assert i == 1 ==> us[..i] == [us[0]];
  }

  /** The match is at the very start exactly when only an empty segment is before it. */
  lemma RootOnly(t: string, k: nat)
    requires k <= |t|
    ensures k == 0 <==> Split(t[..k]) == [""]
  {
    assert t[..0] == "";
    if Split(t[..k]) == [""] { SplitInjective(t[..k], ""); }
  }

  /** For every path: the lead, and the text that the last phases work on, in segments. */
  lemma CleanInSegments(s: string)
    ensures var g := InsideWithout(InsideWithout(Split(s), ""), ".");
      && CleanPath(s) == Lead(s) + FixDots(BeforeDots(s))
      && Ups(g) < |g|
      && Split(Lead(s)) == Parents(Ups(g)) + [""]
      && Split(BeforeDots(s)) == Cancelled(g[Ups(g)..])
  {
    CollapseSegments(s);
    DropCurrentSegments(CollapseSlashes(s));
    var a := Collapsed(s);
    LeadSegments(a);
    LeadText(a);
    CancelSegments(a[ParentPrefix(a)..]);
  }

  lemma {:induction false} LeadText(a: string)
    ensures Split(a[..ParentPrefix(a)]) == Parents(Ups(Split(a))) + [""]
    decreases |a|
  {
    if "../" <= a {
      ParentStart(a);
      LeadText(a[3..]);
      LeadStep(a, ParentPrefix(a[3..]));
      assert Split(a)[1..] == Split(a[3..]);
      assert [".."] + (Parents(Ups(Split(a[3..]))) + [""]) == Parents(Ups(Split(a))) + [""];
    } else {
      NoParentStart(a);
      assert a[..0] == "";
    }
  }

  lemma LeadStep(a: string, k: nat)
    requires "../" <= a && k <= |a| - 3
    ensures Split(a[..3 + k]) == [".."] + Split(a[3..][..k])
  {
    assert a[..3 + k] == ".." + "/" + a[3..][..k];
    SplitConcat("..", a[3..][..k]);
    SplitPlain("..");
  }

  // ----- the last phase

  /** The last phase, by the last segment: "." goes, ".." takes a name with it, and a dot after one character goes. */
  lemma FixTrailingSegments(t: string)
    requires t != ""
    ensures var us, r := Split(t), FixTrailingDots(t);
      var n := |us|;
      if n == 1 then r == (if |t| == 2 && t[1] == '.' then t[..1] else t)
      else if us[n - 1] == "." then Split(r) == us[..n - 1] + [""]
      else if us[n - 1] == ".." then Split(r) == (if n == 2 then [""] else us[..n - 2]) + [""]
      else r == t
  {
    var k := LastSlash(t);
    if k < 0 {
      SplitPlain(t);
      OneName(t);
    } else {
      LastPiece(t, k);
      SeveralPieces(t, k);
    }
  }

  lemma OneName(t: string)
    requires t != "" && '/' !in t
    ensures FixTrailingDots(t) == if |t| == 2 && t[1] == '.' then t[..1] else t
  {
  }

  lemma SeveralPieces(t: string, k: nat)
    requires k == LastSlash(t)
    ensures var f, x, r := Split(t[..k]), t[k + 1..], FixTrailingDots(t);
      if x == "." then Split(r) == f + [""]
      else if x == ".." then Split(r) == (if |f| == 1 then [""] else f[..|f| - 1]) + [""]
      else r == t
  {
    LastPiece(t, k);
    if t[k + 1..] == "." {
      DotPiece(t, t[..k]);
    } else if t[k + 1..] == ".." {
      ParentPiece(t, t[..k]);
    } else {
      LastBytes(t, k);
    }
  }

  /** With a slash in it, the text is changed only at a last "." or "..". */
  lemma LastBytes(t: string, k: nat)
    requires k == LastSlash(t) && t[k + 1..] != "." && t[k + 1..] != ".."
    ensures t != "" && FixTrailingDots(t) == t
  {
    var n, x := |t|, t[k + 1..];
    assert forall i :: 0 <= i < |x| ==> x[i] == t[k + 1 + i] && x[i] != '/';
  }

  lemma DotPiece(t: string, f: string)
    requires t == f + "/" + "."
    ensures Split(FixTrailingDots(t)) == Split(f) + [""]
  {
    assert t[..|t| - 1] == f + "/" + "";
    SplitConcat(f, "");
  }

  lemma LastPiece(t: string, k: nat)
    requires k == LastSlash(t)
    ensures var us := Split(t);
      && |us| > 1 && us == Split(t[..k]) + [t[k + 1..]] && t == t[..k] + "/" + t[k + 1..]
  {
    var f, x := t[..k], t[k + 1..];
    assert t == f + "/" + x;
    assert forall i :: 0 <= i < |x| ==> x[i] == t[k + 1 + i];
    SplitConcat(f, x);
    SplitPlain(x);
  }

  lemma ParentPiece(t: string, f: string)
    requires t == f + "/" + ".."
    ensures var us := Split(f);
      Split(FixTrailingDots(t)) == (if |us| == 1 then [""] else us[..|us| - 1]) + [""]
  {
    assert t[..|t| - 3] == f;
    var k := LastSlash(f);
    if k < 0 {
      SplitPlain(f);
      SplitConcat("", "");
      assert "" + "/" + "" == "/";
    } else {
      LastPiece(f, k);
      assert f[..k + 1] == f[..k] + "/" + "";
      SplitConcat(f[..k], "");
    }
  }
}
