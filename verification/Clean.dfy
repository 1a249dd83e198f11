/** `vroot_path_clean` as pure string rewriting: one function per phase. */
module Clean {
  import opened CStrings

  /** Replaces "//" by "/" at its first occurrence until there is none. */
  function CollapseSlashes(s: string): string
    decreases |s|
  {
    var k := StrStr(s, "//");
    if k < 0 then s else CollapseSlashes(s[..k] + s[k + 1..])
  }

  /** Replaces "/./" by "/" at its first occurrence until there is none. */
  function DropCurrent(s: string): string
    decreases |s|
  {
    var k := StrStr(s, "/./");
    if k < 0 then s else DropCurrent(s[..k] + s[k + 2..])
  }

  /** How many characters of leading "../" the cleaner steps over, and leaves in place. */
  function ParentPrefix(s: string): (k: nat)
    ensures k <= |s|
    decreases |s|
  {
    if "../" <= s then 3 + ParentPrefix(s[3..]) else 0
  }

  /** The backwards scan: the nearest slash at or before `p`, or the start of the path. */
  function BackScan(t: string, p: nat): (r: nat)
    requires p < |t|
    ensures r <= p
    ensures r == 0 || t[r] == '/'
    ensures forall j :: r < j <= p ==> t[j] != '/'
  {
    if p == 0 || t[p] == '/' then p else BackScan(t, p - 1)
  }

  /** Where the text after a "/../" found at `k` is moved to. */
  function CancelPoint(t: string, k: nat): (c: nat)
    requires OccursAt(t, "/../", k)
    ensures c <= k + 1
    ensures c == 0 || t[c - 1] == '/'
    ensures k > 0 ==> c <= k && forall j :: c <= j < k ==> t[j] != '/'
  {
    var p := BackScan(t, if k > 0 then k - 1 else 0);
    if t[p] == '/' then p + 1 else p
  }

  function CancelAt(t: string, k: nat): (r: string)
    requires OccursAt(t, "/../", k)
    ensures |r| < |t|
  {
    t[..CancelPoint(t, k)] + t[k + 4..]
  }

  /** Cancels "X/../" at its first occurrence until there is no "/../". */
  function CancelParents(t: string): string
    decreases |t|
  {
    var k := StrStr(t, "/../");
    if k < 0 then t else CancelParents(CancelAt(t, k))
  }

  /** The number of slashes in a row from `i`. */
  function SlashRun(t: string, i: nat): (n: nat)
    requires i <= |t|
    ensures i + n <= |t|
    ensures forall j :: i <= j < i + n ==> t[j] == '/'
    ensures i + n < |t| ==> t[i + n] != '/'
    decreases |t| - i
  {
    if i < |t| && t[i] == '/' then 1 + SlashRun(t, i + 1) else 0
  }

  /** The last phase: a final "." or "..". */
  function FixTrailingDots(t: string): (r: string)
    requires t != ""
    ensures |r| <= |t|
  {
    var n := |t|;
    if t[n - 1] != '.' || n == 1 then t
    else if t[n - 2] == '/' || n == 2 then t[..n - 1]
    else if t[n - 2] != '.' || t[n - 3] != '/' then t
    else
      var u := t[..n - 3];
      var k := LastSlash(u);
      if k < 0 then "/" else u[..k + 1]
  }

  /**
    * A leading "." is dropped with the slashes after it. The code then tests the byte its pointer is
    * left on, `j` places into memory that has just been moved down by `j`: that byte is the terminator
    * exactly when nothing remains or what remains has length `j`, and the last phase is then skipped.
    */
  function FixDots(t: string): (r: string)
    ensures |r| <= |t|
  {
    if t == "" then t
    else if t[0] == '.' && |t| == 1 then t
    else if t[0] == '.' && t[1] == '/' then
      var j := 1 + SlashRun(t, 1);
      if |t| == j || |t| == 2 * j then t[j..] else FixTrailingDots(t[j..])
    else FixTrailingDots(t)
  }

  /** The text the last three phases work on, once "//" and "/./" are gone. */
  function CleanTail(t: string): string {
    FixDots(CancelParents(t))
  }

  function CleanPath(s: string): string {
    var a := DropCurrent(CollapseSlashes(s));
    var k := ParentPrefix(a);
    a[..k] + CleanTail(a[k..])
  }

  // ----- what each phase guarantees of the text, for every input

  ghost predicate NoDouble(t: string) {
    forall i :: 0 <= i < |t| - 1 && t[i] == '/' ==> t[i + 1] != '/'
  }

  ghost predicate NoCurrent(t: string) {
    forall i :: 0 <= i < |t| - 2 && t[i] == '/' ==> !(t[i + 1] == '.' && t[i + 2] == '/')
  }

  ghost predicate NoParent(t: string) {
    forall i :: 0 <= i < |t| - 3 && t[i] == '/' ==> !(t[i + 1] == '.' && t[i + 2] == '.' && t[i + 3] == '/')
  }

  /** No ".." component after the first one, not even at the end. */
  ghost predicate NoInnerParent(t: string) {
    && NoParent(t)
    && !(|t| >= 3 && t[|t| - 3] == '/' && t[|t| - 2] == '.' && t[|t| - 1] == '.')
  }

  lemma {:induction false} CollapseSlashesNoDouble(s: string)
    ensures NoDouble(CollapseSlashes(s))
    decreases |s|
  {
    var k := StrStr(s, "//");
    if k < 0 {
      forall i | 0 <= i < |s| - 1 && s[i] == '/' ensures s[i + 1] != '/' {
        assert !OccursAt(s, "//", i);
      }
    } else {
      CollapseSlashesNoDouble(s[..k] + s[k + 1..]);
    }
  }

  lemma {:induction false} DropCurrentNoCurrent(s: string)
    requires NoDouble(s)
    ensures NoDouble(DropCurrent(s)) && NoCurrent(DropCurrent(s))
    decreases |s|
  {
    var k := StrStr(s, "/./");
    if k < 0 {
      forall i | 0 <= i < |s| - 2 && s[i] == '/' ensures !(s[i + 1] == '.' && s[i + 2] == '/') {
        assert !OccursAt(s, "/./", i);
      }
    } else {
      var t := s[..k] + s[k + 2..];
      assert s[k..k + 3] == "/./";
      assert s[k] == '/' && s[k + 1] == '.' && s[k + 2] == '/';
      forall i | 0 <= i < |t| - 1 && t[i] == '/' ensures t[i + 1] != '/' {
        if i >= k { assert t[i] == s[i + 2] && t[i + 1] == s[i + 3]; }
      }
      DropCurrentNoCurrent(t);
    }
  }

  lemma CancelAtKeeps(t: string, k: nat)
    requires NoDouble(t) && NoCurrent(t) && OccursAt(t, "/../", k)
    ensures NoDouble(CancelAt(t, k)) && NoCurrent(CancelAt(t, k))
  {
    var c := CancelPoint(t, k);
    var d := k + 4 - c;
    var r := CancelAt(t, k);
    assert t[k..k + 4] == "/../";
    assert t[k + 3] == '/';
    assert forall i :: 0 <= i < c ==> r[i] == t[i];
    assert forall i :: c <= i < |r| ==> r[i] == t[i + d];
    forall i | 0 <= i < |r| - 1 && r[i] == '/' ensures r[i + 1] != '/' {
      if i == c - 1 { assert t[k + 3] == '/' && r[i + 1] == t[k + 4]; }
      else if i >= c { assert r[i] == t[i + d]; }
    }
    forall i | 0 <= i < |r| - 2 && r[i] == '/' ensures !(r[i + 1] == '.' && r[i + 2] == '/') {
      if i == c - 1 { assert t[k + 3] == '/' && r[i + 1] == t[k + 4] && r[i + 2] == t[k + 5]; }
      else if i >= c { assert r[i] == t[i + d]; }
    }
  }

  lemma {:induction false} CancelParentsNoParent(t: string)
    requires NoDouble(t) && NoCurrent(t)
    ensures NoDouble(CancelParents(t)) && NoCurrent(CancelParents(t)) && NoParent(CancelParents(t))
    decreases |t|
  {
    var k := StrStr(t, "/../");
    if k < 0 {
      forall i | 0 <= i < |t| - 3 && t[i] == '/'
        ensures !(t[i + 1] == '.' && t[i + 2] == '.' && t[i + 3] == '/')
      {
        assert !OccursAt(t, "/../", i);
      }
    } else {
      CancelAtKeeps(t, k);
      CancelParentsNoParent(CancelAt(t, k));
    }
  }

  lemma FixTrailingDotsNoParent(t: string)
    requires t != "" && NoParent(t)
    ensures NoParent(FixTrailingDots(t))
  {
    assert forall i :: 0 <= i < |FixTrailingDots(t)| ==> FixTrailingDots(t)[i] == t[i] || FixTrailingDots(t) == "/";
  }

  lemma FixTrailingDotsNoInnerParent(t: string)
    requires t != "" && NoParent(t)
    ensures NoInnerParent(FixTrailingDots(t))
  {
    FixTrailingDotsNoParent(t);
  }

  lemma FixDotsNoInnerParent(t: string)
    requires NoDouble(t) && NoParent(t)
    ensures NoInnerParent(FixDots(t))
  {
    if t != "" && !(t[0] == '.' && |t| == 1) {
      if t[0] == '.' && t[1] == '/' {
        assert |t| > 2 ==> t[1 + 1] != '/';
        assert SlashRun(t, 1) == 1;
        AfterDotNoInnerParent(t);
      } else {
        FixTrailingDotsNoInnerParent(t);
      }
    }
  }

  lemma AfterDotNoInnerParent(t: string)
    requires NoParent(t) && |t| >= 2
    ensures |t| != 2 ==> NoInnerParent(FixTrailingDots(t[2..]))
    ensures |t| == 2 || |t| == 4 ==> NoInnerParent(t[2..])
  {
    var r := t[2..];
    assert forall i :: 0 <= i < |r| ==> r[i] == t[i + 2];
    if r != "" { FixTrailingDotsNoInnerParent(r); }
  }

  /** Text that has only leading "../" steps, and no ".." component after them. */
  ghost predicate Walkable(x: string)
    decreases |x|
  {
    NoInnerParent(x) || ("../" <= x && Walkable(x[3..]))
  }

  /** For every input, relative ones included, the only ".." left after cleaning lead the path. */
  lemma CleanIsWalkable(s: string)
    ensures Walkable(CleanPath(s))
  {
    CollapseSlashesNoDouble(s);
    DropCurrentNoCurrent(CollapseSlashes(s));
    var a := DropCurrent(CollapseSlashes(s));
    var k := ParentPrefix(a);
    var t := a[k..];
    assert forall i :: 0 <= i < |t| ==> t[i] == a[i + k];
    CancelParentsNoParent(t);
    FixDotsNoInnerParent(CancelParents(t));
    PrefixIsWalkable(a, CleanTail(t));
  }

  lemma {:induction false} PrefixIsWalkable(a: string, f: string)
    requires NoInnerParent(f)
    ensures Walkable(a[..ParentPrefix(a)] + f)
    decreases |a|
  {
    var k := ParentPrefix(a);
    if "../" <= a {
      PrefixIsWalkable(a[3..], f);
      assert (a[..k] + f)[3..] == a[3..][..k - 3] + f;
    } else {
      assert a[..k] + f == f;
    }
  }

  // ----- length never grows

  lemma {:induction false} CollapseSlashesShrinks(s: string)
    ensures |CollapseSlashes(s)| <= |s|
    decreases |s|
  {
    var k := StrStr(s, "//");
    if k >= 0 { CollapseSlashesShrinks(s[..k] + s[k + 1..]); }
  }

  lemma {:induction false} DropCurrentShrinks(s: string)
    ensures |DropCurrent(s)| <= |s|
    decreases |s|
  {
    var k := StrStr(s, "/./");
    if k >= 0 { DropCurrentShrinks(s[..k] + s[k + 2..]); }
  }

  lemma {:induction false} CancelParentsShrinks(t: string)
    ensures |CancelParents(t)| <= |t|
    decreases |t|
  {
    var k := StrStr(t, "/../");
    if k >= 0 { CancelParentsShrinks(CancelAt(t, k)); }
  }

  /** Cleaning never lengthens a path, so it can always be done in place. */
  lemma CleanNeverGrows(s: string)
    ensures |CleanPath(s)| <= |s|
  {
    CollapseSlashesShrinks(s);
    DropCurrentShrinks(CollapseSlashes(s));
    var a := DropCurrent(CollapseSlashes(s));
    CancelParentsShrinks(a[ParentPrefix(a)..]);
  }
}
