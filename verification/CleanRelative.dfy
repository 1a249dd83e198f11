/** What cleaning does to relative paths: exactly when it is idempotent, clean, and true to the last name. */
module CleanRelative {
  import opened CStrings
  import opened Components
  import opened Clean
  import opened CleanAbsolute

  /** The text after the first two phases. */
  function Collapsed(s: string): string {
    DropCurrent(CollapseSlashes(s))
  }

  /** The leading "../" that is stepped over. */
  function Lead(s: string): string {
    Collapsed(s)[..ParentPrefix(Collapsed(s))]
  }

  /** The text that the dot phases work on. */
  function BeforeDots(s: string): string {
    CancelParents(Collapsed(s)[ParentPrefix(Collapsed(s))..])
  }

  lemma CleanParts(s: string)
    ensures CleanPath(s) == Lead(s) + FixDots(BeforeDots(s))
  {
  }

  // ----- the three ways in which a cleaned path is not clean

  /** Under a leading "../", a name and ".." are cut to a slash of their own. */
  predicate CutsToSlash(lead: string, u: string) {
    lead != "" && |u| >= 3 && u[|u| - 3..] == "/.." && '/' !in u[..|u| - 3]
  }

  /** The dot phases stop at "./" and two more characters, the last of them a dot. */
  predicate SkipsDot(u: string) {
    |u| == 4 && u[0] == '.' && u[1] == '/' && u[3] == '.'
  }

  /** Cancelling has uncovered a "../" in front of a one-character name with a dot. */
  predicate UncoversDot(u: string) {
    |u| == 5 && "../" <= u && u[3] != '.' && u[4] == '.'
  }

  // ----- what is known of the text before the dot phases

  /** No doubled slash, no "." and no ".." inside. */
  ghost predicate Tidied(t: string) {
    NoDouble(t) && NoCurrent(t) && NoParent(t)
  }

  /** Text that may follow a slash. */
  predicate MayFollow(t: string) {
    !(|t| >= 1 && t[0] == '/') && !(|t| >= 2 && t[0] == '.' && t[1] == '/')
  }

  lemma {:induction false} CancelParentsMayFollow(t: string)
    requires NoDouble(t) && NoCurrent(t) && MayFollow(t)
    ensures MayFollow(CancelParents(t))
    decreases |t|
  {
    var k := StrStr(t, "/../");
    if k >= 0 {
      ParentAt(t, k);
      var c := CancelPoint(t, k);
      assert c != 1;
      assert c == 0 ==> forall i :: 0 <= i < |CancelAt(t, k)| ==> CancelAt(t, k)[i] == t[k + 4 + i];
      CancelAtKeeps(t, k);
      CancelParentsMayFollow(CancelAt(t, k));
    }
  }

  lemma {:induction false} ParentPrefixEnds(a: string)
    ensures var k := ParentPrefix(a);
      (k > 0 ==> k >= 3 && a[k - 1] == '/') && !("../" <= a[k..])
    decreases |a|
  {
    if "../" <= a {
      ParentPrefixEnds(a[3..]);
      assert a[2] == '/';
      assert a[3..][ParentPrefix(a[3..])..] == a[ParentPrefix(a)..];
    } else {
      assert a[0..] == a;
    }
  }

  lemma SuffixTidy(a: string, k: nat)
    requires k <= |a| && NoDouble(a) && NoCurrent(a)
    ensures NoDouble(a[k..]) && NoCurrent(a[k..])
    ensures k > 0 && a[k - 1] == '/' ==> MayFollow(a[k..])
  {
    var t := a[k..];
    assert forall i :: 0 <= i < |t| ==> t[i] == a[i + k];
    if k > 0 && a[k - 1] == '/' && k < |a| { assert a[(k - 1) + 1] == t[0]; }
  }

  lemma BeforeDotsTidied(s: string)
    ensures Tidied(BeforeDots(s))
    ensures Lead(s) != "" ==> MayFollow(BeforeDots(s))
    ensures NoDouble(Lead(s)) && NoCurrent(Lead(s))
    ensures Lead(s) != "" ==> |Lead(s)| >= 3 && Lead(s)[|Lead(s)| - 1] == '/'
  {
    CollapseSlashesNoDouble(s);
    DropCurrentNoCurrent(CollapseSlashes(s));
    var a := Collapsed(s);
    var k := ParentPrefix(a);
    ParentPrefixEnds(a);
    SuffixTidy(a, k);
    CancelParentsNoParent(a[k..]);
    if k > 0 { CancelParentsMayFollow(a[k..]); }
    assert forall i :: 0 <= i < |Lead(s)| ==> Lead(s)[i] == a[i];
  }

  // ----- the dot phases

  /** The last phase finds nothing to do. */
  predicate EndsWell(t: string) {
    var n := |t|;
    !(n > 1 && t[n - 1] == '.' && (n == 2 || t[n - 2] == '/' || (t[n - 2] == '.' && t[n - 3] == '/')))
  }

  lemma EndsWellIff(t: string)
    requires t != ""
    ensures FixTrailingDots(t) == t <==> EndsWell(t)
    ensures EndsWell(FixTrailingDots(t))
  {
    var n := |t|;
    if n > 2 && t[n - 1] == '.' && t[n - 2] == '.' && t[n - 3] == '/' {
      var u := t[..n - 3];
      var k := LastSlash(u);
      if k >= 0 { assert u[..k + 1][k] == '/'; }
    }
  }

  /** The result is the text, a prefix of it that ends in a slash, its first character, or "/". */
  lemma FixTrailingDotsShape(t: string)
    requires t != ""
    ensures var r := FixTrailingDots(t);
      r == t || (r != "" && |r| < |t| && r == t[..|r|] && (r[|r| - 1] == '/' || |t| == 2)) || r == "/"
  {
    var n := |t|;
    if n > 2 && t[n - 1] == '.' && t[n - 2] == '.' && t[n - 3] == '/' {
      var u := t[..n - 3];
      var k := LastSlash(u);
      if k >= 0 { assert u[..k + 1] == t[..k + 1]; }
    }
  }

  /** When the last phase gives a lone slash. */
  lemma LoneSlash(t: string)
    requires t != "" && t[0] != '/'
    ensures FixTrailingDots(t)[..1] == "/" <==>
      |t| >= 3 && t[|t| - 3..] == "/.." && '/' !in t[..|t| - 3]
    ensures FixTrailingDots(t) != ""
  {
    var n := |t|;
    if n >= 3 {
      assert t[n - 3..] == [t[n - 3], t[n - 2], t[n - 1]];
      var u := t[..n - 3];
      var k := LastSlash(u);
      if k >= 0 { assert u[..k + 1][0] == t[0]; }
    }
  }

  /** The dot phases find nothing to do. */
  predicate Settles(x: string) {
    x == "" || x == "." || (!("./" <= x) && EndsWell(x))
  }

  lemma SettlesIff(x: string)
    ensures FixDots(x) == x <==> Settles(x)
  {
    if |x| >= 2 { assert x[..2] == [x[0], x[1]]; }
    if x != "" { EndsWellIff(x); }
  }

  lemma FixDotsOther(u: string)
    requires u != "" && u != "." && !("./" <= u)
    ensures FixDots(u) == FixTrailingDots(u)
  {
    if |u| >= 2 { assert u[..2] == [u[0], u[1]]; }
  }

  lemma FixDotsAfterDot(u: string)
    requires "./" <= u && NoDouble(u)
    ensures FixDots(u) == if |u| == 2 || |u| == 4 then u[2..] else FixTrailingDots(u[2..])
  {
    assert u[0] == '.' && u[1] == '/';
    assert |u| > 2 ==> u[1 + 1] != '/';
    assert SlashRun(u, 1) == 1;
  }

  // ----- the last phases leave text that settles, but for two shapes

  lemma TailTidied(t: string, k: nat)
    requires Tidied(t) && k <= |t|
    ensures Tidied(t[k..])
    ensures 0 < k && t[k - 1] == '/' ==> MayFollow(t[k..]) && !("../" <= t[k..])
  {
    SuffixTidy(t, k);
    var r := t[k..];
    assert forall i :: 0 <= i < |r| ==> r[i] == t[i + k];
    if |r| >= 3 { assert r[..3] == [r[0], r[1], r[2]]; }
  }

  lemma PrefixTidied(t: string, k: nat)
    requires Tidied(t) && k <= |t|
    ensures Tidied(t[..k])
  {
    assert forall i :: 0 <= i < k ==> t[..k][i] == t[i];
  }

  /** The last phase keeps tidy text tidy, and starts it with nothing new but a lone slash. */
  lemma TrailingKeeps(t: string)
    requires t != "" && Tidied(t)
    ensures var r := FixTrailingDots(t);
      Tidied(r) && r != "" && (r == "/" || r <= t)
  {
    FixTrailingDotsShape(t);
    var r := FixTrailingDots(t);
    if r != "/" {
      PrefixTidied(t, |r|);
      assert t[..|t|] == t;
    }
  }

  /** Text after "./", or without a leading "../", settles in one go. */
  lemma TrailingSettles(t: string)
    requires t != "" && Tidied(t) && !("./" <= t) && !("../" <= t)
    ensures var r := FixTrailingDots(t);
      ParentPrefix(r) == 0 && Settles(r)
  {
    TrailingKeeps(t);
    EndsWellIff(t);
  }

  /** With a leading "../" it settles unless the name behind it is one character and a dot. */
  lemma TrailingAfterParent(t: string)
    requires Tidied(t) && "../" <= t
    ensures var r := FixTrailingDots(t);
      Settles(r[ParentPrefix(r)..]) <==> !UncoversDot(t)
  {
    var r := FixTrailingDots(t);
    TrailingKeeps(t);
    EndsWellIff(t);
    FixTrailingDotsShape(t);
    if "../" <= r {
      AfterParent(r);
      var x := r[3..];
      assert forall i :: 0 <= i < |x| ==> x[i] == r[i + 3];
      if UncoversDot(t) {
        assert t[..3] == "../" && t[2] == "../"[2] && t[2 + 1] != '/';
        assert r == t;
      } else if x != "" {
        assert EndsWell(x);
      }
    } else {
      ShortAfterParent(t);
    }
  }

  lemma AfterParent(r: string)
    requires Tidied(r) && "../" <= r
    ensures ParentPrefix(r) == 3 && !("./" <= r[3..])
  {
    assert r[2] == '/';
    TailTidied(r, 3);
    var x := r[3..];
    if |x| >= 2 { assert x[..2] == [x[0], x[1]]; }
  }

  /** What is left of "../" and more without its start is a lone slash. */
  lemma ShortAfterParent(t: string)
    requires Tidied(t) && "../" <= t && !("../" <= FixTrailingDots(t))
    ensures FixTrailingDots(t) == "/" && !UncoversDot(t)
  {
    FixTrailingDotsShape(t);
    EndsWellIff(t);
    var r := FixTrailingDots(t);
    assert t[0] == "../"[0] && t[1] == "../"[1] && t[2] == "../"[2];
    if r != "/" && |r| >= 3 { LongerPrefix(t, r); }
    assert t[2] == '/' && (|t| > 3 ==> t[2 + 1] != '/');
  }

  lemma LongerPrefix(t: string, r: string)
    requires "../" <= t && r <= t && 3 <= |r|
    ensures "../" <= r
  {
    assert r[..3] == t[..|r|][..3] == t[..3];
  }

  lemma DotsSettleIff(u: string)
    requires Tidied(u)
    ensures var f := FixDots(u);
      Settles(f[ParentPrefix(f)..]) <==> !(SkipsDot(u) || UncoversDot(u))
  {
    var f := FixDots(u);
    if u == "" || u == "." {
      assert f[0..] == f;
    } else if "./" <= u {
      FixDotsAfterDot(u);
      AfterDotSettles(u);
    } else {
      FixDotsOther(u);
      OtherSettles(u);
    }
  }

  lemma OtherSettles(u: string)
    requires Tidied(u) && u != "" && !("./" <= u)
    ensures var f := FixTrailingDots(u);
      Settles(f[ParentPrefix(f)..]) <==> !UncoversDot(u)
    ensures !SkipsDot(u)
  {
    if |u| >= 2 { assert u[..2] == [u[0], u[1]]; }
    if "../" <= u {
      TrailingAfterParent(u);
    } else {
      TrailingSettles(u);
      var f := FixTrailingDots(u);
      assert f[0..] == f;
    }
  }

  lemma AfterDotSettles(u: string)
    requires Tidied(u) && "./" <= u
    ensures var f := if |u| == 2 || |u| == 4 then u[2..] else FixTrailingDots(u[2..]);
      Settles(f[ParentPrefix(f)..]) <==> !SkipsDot(u)
    ensures !UncoversDot(u)
  {
    assert u[0] == '.' && u[1] == '/';
    TailTidied(u, 2);
    var x := u[2..];
    assert forall i :: 0 <= i < |x| ==> x[i] == u[i + 2];
    if |x| >= 2 { assert x[..2] == [x[0], x[1]]; }
    if |u| == 2 || |u| == 4 {
      ShortSettles(x);
    } else {
      LongSettles(x);
    }
  }

  lemma ShortSettles(x: string)
    requires |x| == 0 || (|x| == 2 && x[0] != '/')
    requires !("./" <= x)
    ensures Settles(x[ParentPrefix(x)..]) <==> !(|x| == 2 && x[1] == '.')
  {
    assert x[0..] == x;
  }

  lemma LongSettles(x: string)
    requires Tidied(x) && MayFollow(x) && x != "" && |x| != 2 && !("../" <= x)
    ensures var f := FixTrailingDots(x);
      Settles(f[ParentPrefix(f)..])
  {
    TrailingSettles(x);
    var f := FixTrailingDots(x);
    assert f[0..] == f;
  }

  // ----- fixed points of cleaning

  lemma CollapseFixedIff(r: string)
    ensures CollapseSlashes(r) == r <==> NoDouble(r)
    ensures !NoDouble(r) ==> |CollapseSlashes(r)| < |r|
  {
    NoPattern(r);
    var k := StrStr(r, "//");
    if k >= 0 {
      CollapseSlashesShrinks(r[..k] + r[k + 1..]);
    } else {
      CollapseSlashesNoDouble(r);
    }
  }

  lemma DropFixedIff(r: string)
    requires NoDouble(r)
    ensures DropCurrent(r) == r <==> NoCurrent(r)
    ensures !NoCurrent(r) ==> |DropCurrent(r)| < |r|
  {
    NoPattern(r);
    var k := StrStr(r, "/./");
    if k >= 0 {
      DropCurrentShrinks(r[..k] + r[k + 2..]);
    } else {
      DropCurrentNoCurrent(r);
    }
  }

  lemma CancelFixedIff(r: string)
    requires NoDouble(r) && NoCurrent(r)
    ensures CancelParents(r) == r <==> NoParent(r)
    ensures !NoParent(r) ==> |CancelParents(r)| < |r|
  {
    NoPattern(r);
    var k := StrStr(r, "/../");
    if k >= 0 {
      CancelParentsShrinks(CancelAt(r, k));
    } else {
      CancelParentsNoParent(r);
    }
  }

  /** A path is left alone exactly when every phase finds nothing to do. */
  lemma CleanFixedIff(r: string)
    ensures var x := r[ParentPrefix(r)..];
      CleanPath(r) == r <==> NoDouble(r) && NoCurrent(r) && NoParent(x) && Settles(x)
  {
    CollapseFixedIff(r);
    if !NoDouble(r) {
      CleanShorter(r, CollapseSlashes(r));
    } else {
      DropFixedIff(r);
      if !NoCurrent(r) {
        CleanShorter(r, DropCurrent(r));
      } else {
        TailFixedIff(r);
      }
    }
  }

  lemma CleanShorter(r: string, a: string)
    requires |a| < |r| && (a == CollapseSlashes(r) || (NoDouble(r) && a == DropCurrent(r)))
    ensures CleanPath(r) != r
  {
    CollapseFixedIff(r);
    DropCurrentShrinks(CollapseSlashes(r));
    var b := DropCurrent(CollapseSlashes(r));
    CancelParentsShrinks(b[ParentPrefix(b)..]);
  }

  lemma TailFixedIff(r: string)
    requires NoDouble(r) && NoCurrent(r)
    ensures var x := r[ParentPrefix(r)..];
      CleanPath(r) == r <==> NoParent(x) && Settles(x)
  {
    CollapseFixedIff(r);
    DropFixedIff(r);
    var k := ParentPrefix(r);
    SuffixTidy(r, k);
    assert CleanPath(r) == r[..k] + CleanTail(r[k..]);
    SameTail(r, k, CleanTail(r[k..]));
    CleanTailFixedIff(r[k..]);
  }

  lemma SameTail(r: string, k: nat, y: string)
    requires k <= |r|
    ensures r[..k] + y == r <==> y == r[k..]
  {
    assert r == r[..k] + r[k..];
    assert (r[..k] + y)[k..] == y;
  }

  lemma CleanTailFixedIff(x: string)
    requires NoDouble(x) && NoCurrent(x)
    ensures CleanTail(x) == x <==> NoParent(x) && Settles(x)
  {
    CancelFixedIff(x);
    SettlesIff(x);
  }

  // ----- the cleaned path, taken apart again

  lemma {:induction false} PrefixOfLead(a: string, f: string)
    ensures var p := a[..ParentPrefix(a)];
      ParentPrefix(p + f) == |p| + ParentPrefix(f)
    decreases |a|
  {
    var k := ParentPrefix(a);
    if "../" <= a {
      PrefixOfLead(a[3..], f);
      assert (a[..k] + f)[..3] == a[..3];
      assert (a[..k] + f)[3..] == a[3..][..k - 3] + f;
    } else {
      assert a[..k] + f == f;
    }
  }

  lemma TidyJoin(p: string, f: string)
    requires NoDouble(p) && NoCurrent(p) && NoDouble(f) && NoCurrent(f)
    requires p != "" ==> p[|p| - 1] == '/' && |p| >= 3 && !("./" <= f)
    ensures NoDouble(p + f) <==> !(p != "" && f[..if f == "" then 0 else 1] == "/")
    ensures NoDouble(p + f) && (p != "" ==> p[|p| - 2] != '/') ==> NoCurrent(p + f)
  {
    var r := p + f;
    assert forall i :: 0 <= i < |p| ==> r[i] == p[i];
    assert forall i :: |p| <= i < |r| ==> r[i] == f[i - |p|];
    if |f| >= 2 { assert f[..2] == [f[0], f[1]]; }
    if p != "" && f != "" && f[0] == '/' { assert r[|p| - 1] == '/' && r[(|p| - 1) + 1] == '/'; }
  }

  // ----- the dot phases, after a lead

  /** No doubled slash, no "." and no ".." comes out of the dot phases that did not go in. */
  lemma FixDotsKeeps(u: string)
    requires Tidied(u)
    ensures Tidied(FixDots(u)) && !("./" <= FixDots(u))
  {
    if u != "" && u != "." {
      if "./" <= u {
        FixDotsAfterDot(u);
        AfterDotKeeps(u);
      } else {
        FixDotsOther(u);
        TrailingKeeps(u);
        NoDotSlash(u, FixTrailingDots(u));
      }
    }
  }

  lemma AfterDotKeeps(u: string)
    requires Tidied(u) && "./" <= u
    ensures Tidied(u[2..]) && !("./" <= u[2..])
    ensures |u| != 2 ==> Tidied(FixTrailingDots(u[2..])) && !("./" <= FixTrailingDots(u[2..]))
  {
    assert u[1] == "./"[1];
    TailTidied(u, 2);
    var x := u[2..];
    if |x| >= 2 { assert x[..2] == [x[0], x[1]]; }
    if x != "" {
      TrailingKeeps(x);
      NoDotSlash(x, FixTrailingDots(x));
    }
  }

  lemma NoDotSlash(t: string, r: string)
    requires !("./" <= t) && (r == "/" || r <= t)
    ensures !("./" <= r)
  {
    assert r <= t && |r| >= 2 ==> r == t[..|r|] && r[0] == t[0] && r[1] == t[1];
    if |t| >= 2 { assert t[..2] == [t[0], t[1]]; }
  }

  /** After a lead, the dot phases give text that starts with a slash in one case only. */
  lemma SlashAfterLead(lead: string, u: string)
    requires Tidied(u) && lead != "" && MayFollow(u)
    ensures FixDots(u) != "" && FixDots(u)[..1] == "/" <==> CutsToSlash(lead, u)
  {
    if |u| >= 2 { assert u[..2] == [u[0], u[1]]; }
    if u != "" && u != "." {
      FixDotsOther(u);
      LoneSlash(u);
    }
  }

  lemma LeadIsTidy(s: string)
    ensures var p := Lead(s);
      && NoDouble(p) && NoCurrent(p)
      && (p != "" ==> |p| >= 3 && p[|p| - 1] == '/' && p[|p| - 2] == '.' && MayFollow(BeforeDots(s)))
  {
    BeforeDotsTidied(s);
    LeadBeforeSlash(Collapsed(s));
  }

  lemma JoinedParts(p: string, u: string)
    requires NoDouble(p) && NoCurrent(p) && Tidied(u)
    requires p != "" ==> |p| >= 3 && p[|p| - 1] == '/' && p[|p| - 2] == '.' && MayFollow(u)
    ensures var f := FixDots(u);
      && Tidied(f)
      && (NoDouble(p + f) <==> !CutsToSlash(p, u))
      && (NoDouble(p + f) ==> NoCurrent(p + f))
  {
    var f := FixDots(u);
    FixDotsKeeps(u);
    if p != "" { SlashAfterLead(p, u); }
    TidyJoin(p, f);
  }

  lemma CleanedParts(s: string)
    ensures var p, f := Lead(s), FixDots(BeforeDots(s));
      && CleanPath(s) == p + f && Tidied(f)
      && (NoDouble(p + f) <==> !CutsToSlash(p, BeforeDots(s)))
      && (NoDouble(p + f) ==> NoCurrent(p + f))
  {
    CleanParts(s);
    BeforeDotsTidied(s);
    LeadIsTidy(s);
    JoinedParts(Lead(s), BeforeDots(s));
  }

  /** Cleaning again steps over the same lead, and over one the dot phases may have left. */
  lemma CleanedTail(s: string, f: string)
    ensures var r := Lead(s) + f;
      r[ParentPrefix(r)..] == f[ParentPrefix(f)..]
  {
    PrefixOfLead(Collapsed(s), f);
    var p := Lead(s);
    assert (p + f)[|p| + ParentPrefix(f)..] == f[ParentPrefix(f)..];
  }

  lemma {:induction false} LeadBeforeSlash(a: string)
    ensures var k := ParentPrefix(a);
      k > 0 ==> k >= 3 && a[k - 2] == '.'
    decreases |a|
  {
    if "../" <= a {
      LeadBeforeSlash(a[3..]);
      assert a[1] == "../"[1];
    }
  }

  // ----- main results

  /** A cleaned path has a doubled slash exactly when a lead is followed by a name and "..". */
  lemma CleanNoDoubleIff(s: string)
    ensures NoDouble(CleanPath(s)) <==> !CutsToSlash(Lead(s), BeforeDots(s))
  {
    CleanedParts(s);
  }

  /** For every path, relative or not: cleaning twice is cleaning once, but for three shapes. */
  lemma CleanIdempotentIff(s: string)
    ensures CleanPath(CleanPath(s)) == CleanPath(s) <==>
      !(CutsToSlash(Lead(s), BeforeDots(s)) || SkipsDot(BeforeDots(s)) || UncoversDot(BeforeDots(s)))
  {
    var r, f := CleanPath(s), FixDots(BeforeDots(s));
    CleanedParts(s);
    CleanedTail(s, f);
    CleanFixedIff(r);
    TailTidied(f, ParentPrefix(f));
    BeforeDotsTidied(s);
    DotsSettleIff(BeforeDots(s));
  }

  // ----- the last name

  lemma PlainLast(x: string)
    requires '/' !in x
    ensures LastSegment(x) == x
  {
    SplitPlain(x);
  }

  lemma NoSlashFrom(t: string, k: nat)
    requires k <= |t| && forall j :: k <= j < |t| ==> t[j] != '/'
    ensures '/' !in t[k..]
  {
  }

  /** `l` is what follows the slash before `b`, the last one; it is all of `t` if `b` is 0. */
  ghost predicate EndsIn(t: string, b: nat, l: string) {
    b <= |t| && t == t[..b] + l && (b > 0 ==> t[b - 1] == '/') && '/' !in l
  }

  lemma SomeEnd(t: string)
    ensures var b := LastSlash(t) + 1;
      EndsIn(t, b, t[b..])
  {
    NoSlashFrom(t, LastSlash(t) + 1);
  }

  lemma EndsInIsLast(t: string, b: nat, l: string)
    requires EndsIn(t, b, l)
    ensures LastSegment(t) == l
  {
    PlainLast(l);
    assert t[b..] == l;
    if b == 0 { assert t == l; } else { LastAfterSlash(t, b); }
  }

  lemma LastAfterSlash(t: string, k: nat)
    requires 0 < k <= |t| && t[k - 1] == '/'
    ensures LastSegment(t[k..]) == LastSegment(t)
  {
    assert t == t[..k - 1] + "/" + t[k..];
    NormConcat(t[..k - 1], t[k..]);
  }

  lemma CancelAtLast(t: string, k: nat)
    requires OccursAt(t, "/../", k)
    ensures LastSegment(CancelAt(t, k)) == LastSegment(t)
  {
    ParentAt(t, k);
    var c, r := CancelPoint(t, k), CancelAt(t, k);
    LastAfterSlash(t, k + 4);
    assert r[c..] == t[k + 4..];
    if c > 0 { LastAfterSlash(r, c); } else { assert r[0..] == r; }
  }

  lemma {:induction false} CancelParentsLast(t: string)
    ensures LastSegment(CancelParents(t)) == LastSegment(t)
    decreases |t|
  {
    var k := StrStr(t, "/../");
    if k >= 0 {
      CancelAtLast(t, k);
      CancelParentsLast(CancelAt(t, k));
    }
  }

  lemma BeforeDotsLast(s: string)
    ensures LastSegment(BeforeDots(s)) == LastSegment(s)
  {
    CollapseSlashesMeaning(s);
    DropCurrentMeaning(CollapseSlashes(s));
    var a := Collapsed(s);
    ParentPrefixEnds(a);
    var k := ParentPrefix(a);
    if k > 0 { LastAfterSlash(a, k); } else { assert a[0..] == a; }
    CancelParentsLast(a[k..]);
  }

  /** All that is left is one character and a dot. */
  predicate DropsDot(u: string) {
    |u| == 2 && u[1] == '.'
  }

  lemma PlainNameKept(t: string)
    requires Proper(t) && !DropsDot(t)
    ensures FixTrailingDots(t) == t
  {
  }

  lemma TrailingKeepsName(t: string, b: nat, l: string)
    requires EndsIn(t, b, l) && Proper(l) && !DropsDot(t)
    ensures FixTrailingDots(t) == t
  {
    if b == 0 {
      assert t == l;
      PlainNameKept(t);
    } else {
      assert t == t[..b - 1] + "/" + l;
      LastChars(t, t[..b - 1], l);
    }
  }

  /** On text that ends in a name, the dot phases drop a leading "./" or the dot of the name, and no more. */
  lemma FixDotsName(u: string, b: nat, l: string)
    requires Tidied(u) && EndsIn(u, b, l) && Proper(l)
    ensures FixDots(u) == if DropsDot(u) then [u[0]] else if "./" <= u then u[2..] else u
    ensures DropsDot(u) ==> u == l
  {
    if "./" <= u {
      AfterDotName(u, b, l);
    } else {
      NotJustDots(u, b, l);
      FixDotsOther(u);
      if DropsDot(u) { TwoName(u, b, l); } else { TrailingKeepsName(u, b, l); }
    }
  }

  lemma NotJustDots(u: string, b: nat, l: string)
    requires EndsIn(u, b, l) && Proper(l)
    ensures u != "" && u != "."
  {
    assert |u| == b + |l|;
    if b == 0 { assert u == l; }
  }

  lemma TwoName(u: string, b: nat, l: string)
    requires DropsDot(u) && EndsIn(u, b, l) && Proper(l)
    ensures FixTrailingDots(u) == [u[0]] && u == l && u[0] != '/'
  {
    assert |u| == b + |l|;
    assert u[b..] == l && u[1..] == ".";
    assert u[..1] == [u[0]];
  }

  lemma AfterDotEnds(u: string, b: nat, l: string)
    requires "./" <= u && EndsIn(u, b, l) && Proper(l)
    ensures b >= 2 && EndsIn(u[2..], b - 2, l) && !DropsDot(u)
  {
    assert u[1] == "./"[1];
    assert u[2..] == u[2..b] + l && u[2..][..b - 2] == u[2..b];
  }

  lemma AfterDotName(u: string, b: nat, l: string)
    requires Tidied(u) && "./" <= u && EndsIn(u, b, l) && Proper(l)
    ensures FixDots(u) == u[2..] && !DropsDot(u) && b >= 2 && EndsIn(u[2..], b - 2, l)
  {
    FixDotsAfterDot(u);
    AfterDotEnds(u, b, l);
    var t := u[2..];
    if |u| != 2 && |u| != 4 {
      assert |t| != 2;
      TrailingKeepsName(t, b - 2, l);
    }
  }

  lemma FixDotsLast(u: string, b: nat, l: string)
    requires Tidied(u) && EndsIn(u, b, l) && Proper(l)
    ensures LastSegment(FixDots(u)) == if DropsDot(u) then [u[0]] else l
    ensures DropsDot(u) ==> u == l
  {
    FixDotsName(u, b, l);
    NameLast(u, b, l, FixDots(u));
  }

  lemma NameLast(u: string, b: nat, l: string, w: string)
    requires EndsIn(u, b, l) && Proper(l)
    requires w == if DropsDot(u) then [u[0]] else if "./" <= u then u[2..] else u
    ensures LastSegment(w) == if DropsDot(u) then [u[0]] else l
  {
    if DropsDot(u) {
      TwoName(u, b, l);
      PlainLast(w);
    } else if "./" <= u {
      AfterDotEnds(u, b, l);
      EndsInIsLast(w, b - 2, l);
    } else {
      EndsInIsLast(w, b, l);
    }
  }

  /**
    * A path that ends in a name still ends in it when cleaned, unless one character and a dot is all that
    * is left before the dot phases: then the dot is lost.
    */
  lemma FinalNameIff(s: string)
    requires Proper(LastSegment(s))
    ensures LastSegment(CleanPath(s)) == if DropsDot(BeforeDots(s)) then [BeforeDots(s)[0]] else LastSegment(s)
    ensures LastSegment(CleanPath(s)) == LastSegment(s) <==> !DropsDot(BeforeDots(s))
  {
    FinalNameOf(s, BeforeDots(s), LastSegment(s));
  }

  lemma FinalNameOf(s: string, u: string, l: string)
    requires u == BeforeDots(s) && l == LastSegment(s) && Proper(l)
    ensures LastSegment(CleanPath(s)) == if DropsDot(u) then [u[0]] else l
    ensures DropsDot(u) ==> u == l
  {
    BeforeDotsTidied(s);
    BeforeDotsLast(s);
    CleanedName(Lead(s), u, l);
    CleanParts(s);
  }

  lemma CleanedName(p: string, u: string, l: string)
    requires Tidied(u) && l == LastSegment(u) && Proper(l)
    requires p != "" ==> p[|p| - 1] == '/'
    ensures LastSegment(p + FixDots(u)) == if DropsDot(u) then [u[0]] else l
    ensures DropsDot(u) ==> u == l
  {
    var b := EndOfLast(u, l);
    FixDotsLast(u, b, l);
    LastAfterLead(p, FixDots(u));
  }

  lemma EndOfLast(u: string, l: string) returns (b: nat)
    requires l == LastSegment(u)
    ensures EndsIn(u, b, l)
  {
    b := LastSlash(u) + 1;
    SomeEnd(u);
    EndsInIsLast(u, b, u[b..]);
  }

  lemma LastAfterLead(p: string, f: string)
    requires p != "" ==> p[|p| - 1] == '/'
    ensures LastSegment(p + f) == LastSegment(f)
  {
    assert (p + f)[|p|..] == f;
    if p != "" { LastAfterSlash(p + f, |p|); } else { assert p + f == f; }
  }

  // ----- inputs that show each shape

  /** A two-character name loses its dot. */
  lemma LosesDot(c: char)
    requires c != '/'
    ensures CleanPath([c, '.']) == [c]
  {
    CleanPlain([c, '.']);
  }

  /** "./c." is cleaned to "c.", and that to "c". */
  lemma SkipsDotOnce(c: char)
    requires c != '/'
    ensures CleanPath(['.', '/', c, '.']) == [c, '.'] && CleanPath([c, '.']) == [c]
  {
    var s := ['.', '/', c, '.'];
    assert s[1] != "../"[1];
    CleanPlain(s);
    assert s[..2] == "./" && s[2..] == [c, '.'];
    FixDotsAfterDot(s);
    LosesDot(c);
  }

  /** "../c/.." is cleaned to "..//". */
  lemma LeavesDoubleSlash(c: char)
    requires c != '/' && c != '.'
    ensures CleanPath(['.', '.', '/', c, '/', '.', '.']) == "../" + "/"
  {
    var s, u := ['.', '.', '/', c, '/', '.', '.'], [c, '/', '.', '.'];
    ParentNameParent(s, u);
    AfterLead(s, u);
    NoPattern(u);
    CutName(u);
  }

  lemma ParentNameParent(s: string, u: string)
    requires |u| == 4 && u[0] != '/' && u[0] != '.' && u[1] == '/' && u[2] == '.' && u[3] == '.'
    requires |s| == 7 && s[0] == '.' && s[1] == '.' && s[2] == '/' && s[3..] == u
    ensures s == "../" + u && NoDouble(s) && NoCurrent(s) && NoParent(u) && !("../" <= u)
  {
    assert s[..3] == "../" && s == s[..3] + s[3..];
    assert u[0] != "../"[0];
    assert s[3] == u[0] && s[4] == u[1] && s[5] == u[2] && s[6] == u[3];
  }

  lemma CutName(u: string)
    requires |u| == 4 && u[0] != '/' && u[0] != '.' && u[1] == '/' && u[2] == '.' && u[3] == '.'
    ensures FixDots(u) == "/"
  {
    FixDotsOther(u);
    assert LastSlash(u[..1]) == -1;
  }

  /** Text with a lead of one "../" and nothing for the first phases to do. */
  lemma AfterLead(s: string, u: string)
    requires s == "../" + u && NoDouble(s) && NoCurrent(s) && !("../" <= u)
    ensures CleanPath(s) == "../" + FixDots(CancelParents(u))
  {
    NoPattern(s);
    assert s[..3] == "../" && s[3..] == u;
    assert ParentPrefix(s) == 3;
  }

  /** "a/../../c." is cleaned to "../c.", whose dot is lost when it is cleaned again. */
  lemma UncoversDotOnce(a: char, c: char, s: string, u: string)
    requires a != '/' && a != '.' && c != '/' && c != '.'
    requires u == "../" + [c, '.'] && s == [a, '/', '.', '.', '/'] + u
    ensures CleanPath(s) == u && CleanPath(u) == "../" + [c]
  {
    assert u[0] == '.' && u[1] == '.' && u[2] == '/' && u[3] == c && u[4] == '.';
    CancelledOnce(s, u);
    FixDotsOther(u);
    LosesDotAfterLead(u, c);
  }

  lemma CancelledOnce(s: string, u: string)
    requires |s| == 5 + |u| && s[5..] == u && s[0] != '/' && s[0] != '.'
    requires s[1] == '/' && s[2] == '.' && s[3] == '.' && s[4] == '/'
    requires NoDouble(s) && NoCurrent(s) && NoParent(u)
    ensures CleanPath(s) == FixDots(u)
  {
    CancelsFirst(s, u);
    NoPattern(s);
    assert s[0] != "../"[0];
    WholeTail(s, FixDots(u));
  }

  lemma WholeTail(s: string, y: string)
    requires NoDouble(s) && NoCurrent(s) && !("../" <= s) && y == CleanTail(s)
    ensures CleanPath(s) == y
  {
    NoPattern(s);
    assert s[0..] == s && s[..0] + y == y;
  }

  lemma CancelsFirst(s: string, u: string)
    requires |s| == 5 + |u| && s[5..] == u && s[0] != '/' && NoParent(u)
    requires s[1] == '/' && s[2] == '.' && s[3] == '.' && s[4] == '/'
    ensures CancelParents(s) == u
  {
    NoPattern(u);
    ParentAt(s, 0);
    ParentAt(s, 1);
    assert StrStr(s, "/../") == 1;
    assert CancelAt(s, 1) == u;
  }

  lemma LosesDotAfterLead(u: string, c: char)
    requires u == "../" + [c, '.'] && c != '/' && c != '.'
    ensures CleanPath(u) == "../" + [c]
  {
    var x := [c, '.'];
    NameAndDot(u, x);
    AfterLead(u, x);
    ShortName(x);
  }

  lemma ShortName(x: string)
    requires |x| == 2 && x[0] != '/' && x[0] != '.' && x[1] == '.' && NoParent(x)
    ensures FixDots(CancelParents(x)) == [x[0]]
  {
    NoPattern(x);
    FixDotsOther(x);
    assert x[..1] == [x[0]];
  }

  lemma NameAndDot(u: string, x: string)
    requires u == "../" + x && |x| == 2 && x[0] != '/' && x[0] != '.' && x[1] == '.'
    ensures NoDouble(u) && NoCurrent(u) && NoParent(x) && !("../" <= x)
  {
    assert x[0] != "../"[0];
    assert u[3] == x[0] && u[4] == x[1];
  }
}
