/** The file-system calls of `fsio.c` whose correctness rests on the algebra of lookup. */
module Fsio {
  import opened CStrings
  import opened Components
  import opened Clean
  import opened CleanAbsolute
  import opened Lookup
  import opened Aliases
  import opened AliasMeaning
  import opened VRootPath
  import opened RealPath

  /** Either the call is refused, or the system call is made with this argument. */
  datatype SysCall = Refuse(errno: Errno) | Call(arg: string)

  // ----- chdir

  /** What is stored as the virtual directory: the path entered, less the base it begins with. */
  function VirtualCwd(base: string, entered: string): string {
    if base <= entered then entered[|base|..] else entered
  }

  /** The path entered: the one the alias was found under, or the vpath. */
  function Entered(tab: Table, v: string, size: nat, scratch: nat): string
    requires size > 0 && scratch > 0
  {
    var a := AliasPath(tab, v);
    if a.Some? then a.value else Substitute(tab, v, size, scratch)
  }

  /** A chdir, with the answer of the system call. */
  datatype Request = Request(path: string, sysOk: bool)

  /** The virtual directory after a request. */
  function NextCwd(base: string, size: nat, scratch: nat, tab: Table, cwd: string, r: Request): string
    requires size > 0 && scratch > 0
  {
    var o := LookupPath(base, size, scratch, r.path, cwd);
    if o.Failed? || !r.sysOk then cwd else VirtualCwd(base, Entered(tab, o.vpath, size, scratch))
  }

  /** `chdir`; `sysOk` is the answer of the system call. */
  method Chdir(vr: VRoot, passThrough: bool, path: string, sysOk: bool) returns (call: SysCall, ok: bool)
    requires vr.Valid() && '\0' !in path && vr.vrootBaseLen < vr.pathMax
    modifies vr`cwd
    ensures vr.Valid()
    ensures passThrough || vr.Base() == "" ==> call == Call(path) && ok == sysOk && vr.cwd == old(vr.cwd)
    ensures !(passThrough || vr.Base() == "") ==>
      var o := LookupPath(vr.Base(), vr.pathMax, vr.pathMax + 1, path, old(vr.cwd));
      var tab := vr.aliases.Entries();
      if o.Failed? then call == Refuse(o.errno) && !ok
      else call == Call(Substitute(tab, o.vpath, vr.pathMax, vr.pathMax + 1)) && ok == sysOk
    ensures !(passThrough || vr.Base() == "") ==>
      vr.cwd == NextCwd(vr.Base(), vr.pathMax, vr.pathMax + 1, vr.aliases.Entries(), old(vr.cwd), Request(path, sysOk))
  {
    var haveBase := vr.HaveBase();
    if passThrough || !haveBase {
      return Call(path), sysOk;
    }
    var status, vpath, aliasPath := LookupLocal(vr, path, false);
    if status != Ok {
      return Refuse(status.errno), false;
    }
    if !sysOk {
      return Call(vpath), false;
    }
    StoreCwd(vr, if aliasPath.Some? then aliasPath.value else vpath);
    return Call(vpath), true;
  }

  /** Stores the path entered as the current directory, less the base it begins with. */
  method StoreCwd(vr: VRoot, entered: string)
    requires vr.Valid() && '\0' !in entered
    modifies vr`cwd
    ensures vr.Valid() && vr.cwd == VirtualCwd(vr.Base(), entered)
  {
    var vpathp := entered;
    var base, baselen := vr.GetBase();
    if base <= vpathp {
      vpathp := vpathp[baselen..];
    }
    vr.cwd := vpathp;
  }

  lemma {:induction false} JoinNoDouble(cs: Segments)
    requires AllProper(cs)
    ensures NoDouble(Join(cs) + "/")
  {
    if cs != [] {
      var front, x := cs[..|cs| - 1], cs[|cs| - 1];
      JoinNoDouble(front);
      var f, t := Join(front) + "/", Join(cs) + "/";
      assert t == f + x + "/";
      assert forall i :: 0 <= i < |f| ==> t[i] == f[i];
      assert forall i :: |f| <= i < |f| + |x| ==> t[i] == x[i - |f|] && t[i] != '/';
      assert forall i :: 0 <= i < |f| - 1 && f[i] == '/' ==> f[i + 1] != '/';
    }
  }

  lemma RenderNoDouble(cs: Segments, d: bool)
    requires AllProper(cs)
    ensures NoDouble(Render(cs, d))
  {
    JoinNoDouble(cs);
    var t, x := Join(cs) + "/", Render(cs, d);
    assert forall i :: 0 <= i < |x| ==> x[i] == t[i];
  }

  /** Aliased or not, the path entered is the vpath as it was before substitution. */
  lemma EnteredIsVpath(tab: Table, cs: Segments, d: bool, size: nat, scratch: nat)
    requires size > 0 && scratch > 0 && AllProper(cs)
    ensures Entered(tab, Render(cs, d), size, scratch) == Render(cs, d)
  {
    RenderNoDouble(cs, d);
    AliasPathIsPath(tab, Render(cs, d));
  }

  /** The lookup of a virtual path gives it back under the base unless it begins with the base. */
  lemma LookupVirtual(base: string, size: nat, scratch: nat, c: Segments, d: bool)
    requires Ready(base, size, scratch) && size <= scratch && AllProper(c) && (c == [] ==> d)
    requires c == [] || |base| + |Render(c, d)| + 1 < size
    ensures var x := Render(c, d);
      LookupPath(base, size, scratch, ".", x) == Found(Render(Norm(base) + c, d)) <==> !Strips(base, x)
  {
    RenderStartsWithSlash(c, d);
    CleanFixesRender(c, d);
    PlaceVirtual(base, size, c, d);
  }

  lemma PlaceVirtual(base: string, size: nat, c: Segments, d: bool)
    requires Ready(base, size, 1) && AllProper(c) && (c == [] ==> d)
    requires c == [] || |base| + |Render(c, d)| + 1 < size
    ensures Place(base, size, Render(c, d)) == Found(Render(Norm(base) + c, d)) <==> !Strips(base, Render(c, d))
  {
    PlaceRendered(base, size, c, d);
    StripsIsBelow(Norm(base), c, d);
    RenderTail(c, d);
    RenderStartsWithSlash(c, d);
    if Below(Norm(base), c, d) { StripsToAnother(Norm(base), c, d); }
  }

  lemma StripsToAnother(bs: Segments, c: Segments, d: bool)
    requires AllProper(bs) && bs != [] && AllProper(c) && Below(bs, c, d)
    ensures var w := c[|bs|..];
      Render(bs + w, d || w == []) != Render(bs + c, d)
  {
    var w := c[|bs|..];
    assert |bs + c| > |bs + w|;
    NormRender(bs + c, d);
    NormRender(bs + w, d || w == []);
  }

  /** The path entered is the vpath for everything a lookup finds. */
  lemma EnteredText(tab: Table, v: string, size: nat, scratch: nat)
    requires size > 0 && scratch > 0 && (v == "" || Normal(v))
    ensures Entered(tab, v, size, scratch) == v
  {
    if v == "" {
      AliasPathIsPath(tab, v);
    } else {
      NormIsProper(v);
      EnteredIsVpath(tab, Norm(v), DirLike(v), size, scratch);
    }
  }

  /** A chdir that succeeds stores the vpath less the base, or all of it if it does not begin with the base. */
  lemma ChdirStores(base: string, size: nat, scratch: nat, tab: Table, path: string, cwd: string)
    requires Ready(base, size, scratch) && LookupPath(base, size, scratch, path, cwd).Found?
    ensures var v := LookupPath(base, size, scratch, path, cwd).vpath;
      var stored := NextCwd(base, size, scratch, tab, cwd, Request(path, true));
      if base <= v then base + stored == v else stored == v
  {
    FoundIsNormal(base, size, scratch, path, cwd);
    EnteredText(tab, LookupPath(base, size, scratch, path, cwd).vpath, size, scratch);
  }

  /** A chdir that fails, in the lookup or in the system, leaves the directory as it was. */
  lemma ChdirKeeps(base: string, size: nat, scratch: nat, tab: Table, r: Request, cwd: string)
    requires size > 0 && scratch > 0
    requires LookupPath(base, size, scratch, r.path, cwd).Failed? || !r.sysOk
    ensures NextCwd(base, size, scratch, tab, cwd, r) == cwd
  {
  }

  /**
    * After a successful chdir to an absolute path the stored directory is the vpath less the base, and
    * "." looks up the directory entered, exactly when the stored directory does not begin with the base.
    */
  lemma DotAfterChdir(base: string, size: nat, scratch: nat, path: string, cwd: string, tab: Table)
    requires Ready(base, size, scratch) && size <= scratch && Absolute(Scratch(path, cwd, scratch))
    requires LookupPath(base, size, scratch, path, cwd).Found?
    ensures var v := LookupPath(base, size, scratch, path, cwd).vpath;
      var stored := NextCwd(base, size, scratch, tab, cwd, Request(path, true));
      && base + stored == v
      && (LookupPath(base, size, scratch, ".", stored) == Found(v) <==> !Strips(base, stored))
  {
    var c, d := FoundShape(base, size, scratch, path, cwd);
    DotAt(base, size, scratch, c, d, tab);
  }

  lemma DotAt(base: string, size: nat, scratch: nat, c: Segments, d: bool, tab: Table)
    requires Ready(base, size, scratch) && size <= scratch && AllProper(c) && (c == [] ==> d)
    requires c == [] || |base| + |Render(c, d)| + 1 < size
    requires Render(Norm(base) + c, d) == base + Render(c, d)
    ensures var v := Render(Norm(base) + c, d);
      var entered := VirtualCwd(base, Entered(tab, v, size, scratch));
      && base + entered == v
      && (LookupPath(base, size, scratch, ".", entered) == Found(v) <==> !Strips(base, entered))
  {
    var x := Render(c, d);
    EnteredIsVpath(tab, Norm(base) + c, d, size, scratch);
    PrefixDropped(base, x);
    LookupVirtual(base, size, scratch, c, d);
  }

  lemma PrefixDropped(base: string, x: string)
    ensures VirtualCwd(base, base + x) == x
  {
    assert (base + x)[|base|..] == x;
  }

  /** chdir to the base, the base again and more below it: "." then drops one of the two. */
  lemma DotMisread(base: string, size: nat, scratch: nat, r: Segments, cwd: string, tab: Table)
    requires Ready(base, size, scratch) && size <= scratch && AllProper(r) && r != []
    requires 2 * |base| + |Render(r, false)| + 1 < size
    ensures var path := base + base + Join(r);
      && LookupPath(base, size, scratch, path, cwd) == Found(path)
      && NextCwd(base, size, scratch, tab, cwd, Request(path, true)) == base + Join(r)
      && LookupPath(base, size, scratch, ".", base + Join(r)) == Found(base + Join(r))
  {
    TwiceFound(base, size, scratch, r, cwd);
    assert base + (base + Join(r)) == base + base + Join(r);
    TwiceStored(base, size, scratch, base + base + Join(r), cwd, tab, base + Join(r));
    OnceByDot(base, size, scratch, r);
  }

  lemma TwiceFound(base: string, size: nat, scratch: nat, r: Segments, cwd: string)
    requires Ready(base, size, scratch) && size <= scratch && AllProper(r) && r != []
    requires 2 * |base| + |Render(r, false)| + 1 < size
    ensures LookupPath(base, size, scratch, base + base + Join(r), cwd) == Found(base + base + Join(r))
  {
    TwiceUnder(base, r);
    assert base + (base + Join(r)) == base + base + Join(r);
    LookupAgain(base, size, scratch, Norm(base) + r, false, cwd);
  }

  lemma TwiceStored(base: string, size: nat, scratch: nat, path: string, cwd: string, tab: Table, stored: string)
    requires Ready(base, size, scratch) && LookupPath(base, size, scratch, path, cwd) == Found(path)
    requires path == base + stored
    ensures NextCwd(base, size, scratch, tab, cwd, Request(path, true)) == stored
  {
    ChdirStores(base, size, scratch, tab, path, cwd);
    PrefixDropped(base, stored);
    PrefixDropped(base, NextCwd(base, size, scratch, tab, cwd, Request(path, true)));
  }

  lemma OnceByDot(base: string, size: nat, scratch: nat, r: Segments)
    requires Ready(base, size, scratch) && size <= scratch && AllProper(r) && r != []
    requires |base| + |Render(r, false)| + 1 < size
    ensures LookupPath(base, size, scratch, ".", base + Join(r)) == Found(base + Join(r))
  {
    TwiceUnder(base, r);
    DotIsPath(base, size, scratch, Norm(base) + r);
    LookupAgain(base, size, scratch, r, false, "/");
  }

  lemma TwiceUnder(base: string, r: Segments)
    requires NormalBase(base) && r != []
    ensures Render(Norm(base) + r, false) == base + Join(r) && Render(r, false) == Join(r)
    ensures Render(Norm(base) + (Norm(base) + r), false) == base + (base + Join(r))
  {
    CanonicalIsRender(r);
    RenderConcat(Norm(base), r, false);
    RenderConcat(Norm(base), Norm(base) + r, false);
  }

  /** "." is looked up as the path that is stored. */
  lemma DotIsPath(base: string, size: nat, scratch: nat, cs: Segments)
    requires size > 0 && scratch > 0 && AllProper(cs)
    ensures LookupPath(base, size, scratch, ".", Render(cs, false))
      == LookupPath(base, size, scratch, Render(cs, false), "/")
  {
    RenderStartsWithSlash(cs, false);
  }

  // ----- whole sessions of chdir

  /** An absolute path, the current directory, or a path that starts upwards. */
  predicate Rooted(path: string) {
    path == "." || Absolute(path) || "../" <= path
  }

  /**
    * A call's argument is the vpath, a normal path strictly under the base, or lies at or below the source of
    * the vpath's longest alias; its text is the source with the rest of the vpath, as far as that fits.
    */
  ghost predicate Contained(base: string, tab: Table, v: string, size: nat, arg: string)
    requires size > 0
  {
    && StrictlyUnder(base, v)
    && var c := AliasCut(tab, v);
       if c < 0 then arg == v
       else
         && LongestAlias(tab, v, c)
         && arg == Bounded(tab[v[..c]] + v[c..], size)
         && Norm(tab[v[..c]]) <= Norm(arg)
  }

  /** The system call of every request of the session that gets as far as one is made inside. */
  ghost predicate StaysInside(base: string, size: nat, scratch: nat, tab: Table, cwd: string, requests: seq<Request>)
    requires size > 0 && scratch > 0
    decreases |requests|
  {
    requests == [] ||
    (var o := LookupPath(base, size, scratch, requests[0].path, cwd);
     && (o.Found? ==> Contained(base, tab, o.vpath, size, Substitute(tab, o.vpath, size, scratch)))
     && StaysInside(base, size, scratch, tab, NextCwd(base, size, scratch, tab, cwd, requests[0]), requests[1..]))
  }

  /** No request of the session is cut off after its alias's source and "/..". */
  predicate NeverCut(base: string, size: nat, scratch: nat, tab: Table, cwd: string, requests: seq<Request>)
    requires size > 0 && scratch > 0
    decreases |requests|
  {
    requests == [] ||
    (var o := LookupPath(base, size, scratch, requests[0].path, cwd);
     && (o.Found? ==> !AliasCutToParent(tab, o.vpath, size))
     && NeverCut(base, size, scratch, tab, NextCwd(base, size, scratch, tab, cwd, requests[0]), requests[1..]))
  }

  lemma ContainedIff(base: string, tab: Table, v: string, size: nat, scratch: nat)
    requires SourcesFit(tab, size) && 0 < size && |v| < scratch && StrictlyUnder(base, v)
    ensures Contained(base, tab, v, size, Substitute(tab, v, size, scratch)) <==> !AliasCutToParent(tab, v, size)
  {
    SubstituteText(tab, v, size, scratch);
    if AliasCut(tab, v) >= 0 { SubstituteBelowSourceIff(tab, v, size, scratch); }
  }

  /** After a rooted request the virtual directory is absolute again. */
  lemma NextCwdAbsolute(base: string, size: nat, scratch: nat, tab: Table, cwd: string, r: Request)
    requires Ready(base, size, scratch) && scratch > 3 && Absolute(cwd) && Rooted(r.path)
    ensures Absolute(NextCwd(base, size, scratch, tab, cwd, r))
    ensures var o := LookupPath(base, size, scratch, r.path, cwd);
      o.Found? ==> StrictlyUnder(base, o.vpath)
  {
    AnchoredInputs(Scratch(r.path, cwd, scratch));
    if LookupPath(base, size, scratch, r.path, cwd).Found? {
      AnchoredStaysUnder(base, size, scratch, r.path, cwd);
      EnteredAbsolute(base, tab, LookupPath(base, size, scratch, r.path, cwd).vpath, size, scratch);
    }
  }

  lemma EnteredAbsolute(base: string, tab: Table, v: string, size: nat, scratch: nat)
    requires size > 0 && scratch > 0 && StrictlyUnder(base, v)
    ensures Absolute(VirtualCwd(base, Entered(tab, v, size, scratch)))
  {
    NormIsProper(v);
    EnteredIsVpath(tab, Norm(v), DirLike(v), size, scratch);
    DropBase(base, v);
  }

  lemma DropBase(base: string, v: string)
    requires base + "/" <= v
    ensures Absolute(VirtualCwd(base, v))
  {
    assert v[..|base| + 1] == base + "/";
    assert base <= v && v[|base|] == '/';
  }

  lemma RequestContainedIff(base: string, size: nat, scratch: nat, tab: Table, cwd: string, r: Request)
    requires Ready(base, size, scratch) && size <= scratch && scratch > 3 && Absolute(cwd) && Rooted(r.path)
    requires SourcesFit(tab, size)
    ensures var o := LookupPath(base, size, scratch, r.path, cwd);
      o.Found? ==> (Contained(base, tab, o.vpath, size, Substitute(tab, o.vpath, size, scratch)) <==>
                    !AliasCutToParent(tab, o.vpath, size))
  {
    NextCwdAbsolute(base, size, scratch, tab, cwd, r);
    var o := LookupPath(base, size, scratch, r.path, cwd);
    if o.Found? {
      FoundFits(base, size, scratch, r.path, cwd);
      ContainedIff(base, tab, o.vpath, size, scratch);
    }
  }

  /**
    * A sequence of rooted requests, whatever the system answers, keeps every call inside the base and the
    * sources exactly when none is cut off after a source and "/..".
    */
  lemma {:induction false} SessionStaysInsideIff(base: string, size: nat, scratch: nat, tab: Table, cwd: string,
                                                 requests: seq<Request>)
    requires Ready(base, size, scratch) && size <= scratch && scratch > 3 && Absolute(cwd) && SourcesFit(tab, size)
    requires forall i :: 0 <= i < |requests| ==> Rooted(requests[i].path)
    ensures StaysInside(base, size, scratch, tab, cwd, requests) <==>
      NeverCut(base, size, scratch, tab, cwd, requests)
    decreases |requests|
  {
    if requests != [] {
      var cwd' := NextCwd(base, size, scratch, tab, cwd, requests[0]);
      NextCwdAbsolute(base, size, scratch, tab, cwd, requests[0]);
      RequestContainedIff(base, size, scratch, tab, cwd, requests[0]);
      SessionStaysInsideIff(base, size, scratch, tab, cwd', requests[1..]);
    }
  }

  lemma {:induction false} NoSuchSourceNeverCut(base: string, size: nat, scratch: nat, tab: Table, cwd: string,
                                                requests: seq<Request>)
    requires size > 0 && scratch > 0
    requires forall k :: k in tab ==> |tab[k]| + 4 != size || Norm(tab[k]) == []
    ensures NeverCut(base, size, scratch, tab, cwd, requests)
    decreases |requests|
  {
    if requests != [] {
      var cwd' := NextCwd(base, size, scratch, tab, cwd, requests[0]);
      NoSuchSourceNeverCut(base, size, scratch, tab, cwd', requests[1..]);
    }
  }

  /** With no source four short of the buffer's size, no session of rooted requests leads a call outside. */
  lemma SessionStaysInside(base: string, size: nat, scratch: nat, tab: Table, cwd: string, requests: seq<Request>)
    requires Ready(base, size, scratch) && size <= scratch && scratch > 3 && Absolute(cwd) && SourcesFit(tab, size)
    requires forall i :: 0 <= i < |requests| ==> Rooted(requests[i].path)
    requires forall k :: k in tab ==> |tab[k]| + 4 != size || Norm(tab[k]) == []
    ensures StaysInside(base, size, scratch, tab, cwd, requests)
  {
    NoSuchSourceNeverCut(base, size, scratch, tab, cwd, requests);
    SessionStaysInsideIff(base, size, scratch, tab, cwd, requests);
  }

  /** A request that is cut off so: "/a/..x", with "/a" an alias for such a source, goes to the source's parent. */
  lemma ChdirToParent(base: string, size: nat, scratch: nat, tab: Table, a: Segments, x: string, cwd: string)
    requires Ready(base, size, scratch) && size <= scratch
    requires AllProper(a) && a != [] && Proper(x) && ".." <= x
    requires |base| + |Render(a + [x], false)| + 1 < size && !Below(Norm(base), a + [x], false)
    requires tab.Keys == {base + Join(a)} && |tab[base + Join(a)]| + 4 == size && Norm(tab[base + Join(a)]) != []
    ensures var v := base + Render(a + [x], false);
      var source := tab[base + Join(a)];
      && LookupPath(base, size, scratch, Render(a + [x], false), cwd) == Found(v)
      && Substitute(tab, v, size, scratch) == source + "/.."
      && Norm(source + "/..") == Norm(source)[..|Norm(source)| - 1]
  {
    var cs := a + [x];
    LookupRendered(base, size, scratch, cs, false, cwd);
    RenderConcat(Norm(base), cs, false);
    assert AllProper(Norm(base) + cs);
    RenderIsNormal(Norm(base) + cs, false);
    KeyAndName(base, a, x);
    CutAfterKey(tab, base + Join(a), base + Render(cs, false), x, size, scratch);
  }

  lemma CutAfterKey(tab: Table, key: string, v: string, x: string, size: nat, scratch: nat)
    requires tab.Keys == {key} && key != "" && v == key + "/" + x && Proper(x) && ".." <= x && Normal(v)
    requires |v| < scratch && |tab[key]| + 4 == size && Norm(tab[key]) != []
    ensures Substitute(tab, v, size, scratch) == tab[key] + "/.."
    ensures Norm(tab[key] + "/..") == Norm(tab[key])[..|Norm(tab[key])| - 1]
  {
    NameAfterKey(tab, key, v, x);
    assert ("/" + x)[..3] == "/" + x[..2];
    SubstituteBelowSourceIff(tab, v, size, scratch);
  }

  lemma KeyAndName(base: string, a: Segments, x: string)
    ensures base + Render(a + [x], false) == base + Join(a) + "/" + x
  {
    var cs := a + [x];
    assert cs[..|cs| - 1] == a && cs[|cs| - 1] == x;
    assert Join(cs) + "" == Join(a) + "/" + x;
    assert base + (Join(a) + "/" + x) == base + Join(a) + "/" + x;
  }

  lemma NameAfterKey(tab: Table, key: string, v: string, x: string)
    requires tab.Keys == {key} && key != "" && v == key + "/" + x && '/' !in x
    ensures AliasCut(tab, v) == |key| && v[..|key|] == key && v[|key|..] == "/" + x
  {
    assert v[..|key|] == key && v[|key|] == '/';
    assert LongestAlias(tab, v, |key|);
    LongestAliasFound(tab, v, |key|);
  }

  /** The lookup of a rendered path that is not below the base's own components. */
  lemma LookupRendered(base: string, size: nat, scratch: nat, c: Segments, d: bool, cwd: string)
    requires Ready(base, size, scratch) && size <= scratch && AllProper(c) && c != []
    requires |base| + |Render(c, d)| + 1 < size && !Below(Norm(base), c, d)
    ensures LookupPath(base, size, scratch, Render(c, d), cwd) == Found(base + Render(c, d))
  {
    RenderStartsWithSlash(c, d);
    CleanFixesRender(c, d);
    LookupCleaned(base, size, scratch, Render(c, d), cwd);
    PlaceRendered(base, size, c, d);
    RenderTail(c, d);
    RenderConcat(Norm(base), c, d);
  }

  // ----- the directory after a session

  /** The virtual directory after a session. */
  function CwdAfter(base: string, size: nat, scratch: nat, tab: Table, cwd: string, requests: seq<Request>): string
    requires size > 0 && scratch > 0
    decreases |requests|
  {
    if requests == [] then cwd
    else
      var n := |requests| - 1;
      NextCwd(base, size, scratch, tab, CwdAfter(base, size, scratch, tab, cwd, requests[..n]), requests[n])
  }

  predicate Succeeds(base: string, size: nat, scratch: nat, cwd: string, r: Request) {
    size > 0 && scratch > 0 && LookupPath(base, size, scratch, r.path, cwd).Found? && r.sysOk
  }

  /** Which requests succeed in a given directory. */
  function Success(base: string, size: nat, scratch: nat): (string, Request) -> bool {
    (cwd, r) => Succeeds(base, size, scratch, cwd, r)
  }

  /** No request from `i` on succeeds in that directory. */
  ghost predicate NoneFrom(ok: (string, Request) -> bool, cwd: string, requests: seq<Request>, i: nat) {
    forall j :: i <= j < |requests| ==> !ok(cwd, requests[j])
  }

  /** Request `i` of the session succeeds, and `final` is its vpath less the base. */
  ghost predicate Leads(base: string, size: nat, scratch: nat, tab: Table, cwd: string, requests: seq<Request>,
                        i: nat, final: string)
    requires size > 0 && scratch > 0 && i < |requests|
  {
    var before := CwdAfter(base, size, scratch, tab, cwd, requests[..i]);
    && Succeeds(base, size, scratch, before, requests[i])
    && base + final == LookupPath(base, size, scratch, requests[i].path, before).vpath
  }

  /** After a session of rooted requests the directory is that of the last one that succeeded, or the first one. */
  lemma {:induction false} SessionCwd(base: string, size: nat, scratch: nat, tab: Table, cwd: string,
                                      requests: seq<Request>)
    returns (i: int)
    requires Ready(base, size, scratch) && scratch > 3 && Absolute(cwd)
    requires forall i :: 0 <= i < |requests| ==> Rooted(requests[i].path)
    ensures LastLeads(base, size, scratch, tab, cwd, requests, i, CwdAfter(base, size, scratch, tab, cwd, requests))
    decreases |requests|
  {
    if requests == [] {
      i := -1;
    } else {
      var n := |requests| - 1;
      i := SessionCwd(base, size, scratch, tab, cwd, requests[..n]);
      i := OneMore(base, size, scratch, tab, cwd, requests, i);
    }
  }

  /** `final` is the directory after the session: that of request `i`, the last that succeeded, or the first one. */
  ghost predicate LastLeads(base: string, size: nat, scratch: nat, tab: Table, cwd: string, requests: seq<Request>,
                            i: int, final: string)
    requires size > 0 && scratch > 0
  {
    && -1 <= i < |requests| && Absolute(final)
    && (if i < 0 then final == cwd else Leads(base, size, scratch, tab, cwd, requests, i, final))
    && NoneFrom(Success(base, size, scratch), final, requests, i + 1)
  }

  lemma OneMore(base: string, size: nat, scratch: nat, tab: Table, cwd: string, requests: seq<Request>, i: int)
    returns (k: int)
    requires Ready(base, size, scratch) && scratch > 3 && requests != [] && Rooted(requests[|requests| - 1].path)
    requires var front := requests[..|requests| - 1];
      LastLeads(base, size, scratch, tab, cwd, front, i, CwdAfter(base, size, scratch, tab, cwd, front))
    ensures LastLeads(base, size, scratch, tab, cwd, requests, k, CwdAfter(base, size, scratch, tab, cwd, requests))
  {
    var n := |requests| - 1;
    var before, r := CwdAfter(base, size, scratch, tab, cwd, requests[..n]), requests[n];
    NextCwdAbsolute(base, size, scratch, tab, before, r);
    if Succeeds(base, size, scratch, before, r) {
      StoresUnderBase(base, size, scratch, tab, before, r.path);
      k := n;
    } else {
      ChdirKeeps(base, size, scratch, tab, r, before);
      LastStill(base, size, scratch, tab, cwd, requests, i, before);
      k := i;
    }
  }

  lemma LastStill(base: string, size: nat, scratch: nat, tab: Table, cwd: string, requests: seq<Request>,
                  i: int, final: string)
    requires size > 0 && scratch > 0 && requests != []
    requires LastLeads(base, size, scratch, tab, cwd, requests[..|requests| - 1], i, final)
    requires !Succeeds(base, size, scratch, final, requests[|requests| - 1])
    ensures LastLeads(base, size, scratch, tab, cwd, requests, i, final)
  {
    NoneStill(Success(base, size, scratch), final, requests, i + 1);
    if i >= 0 { LeadsStill(base, size, scratch, tab, cwd, requests, i, final); }
  }

  lemma NoneStill(ok: (string, Request) -> bool, cwd: string, requests: seq<Request>, i: nat)
    requires requests != [] && NoneFrom(ok, cwd, requests[..|requests| - 1], i)
    requires !ok(cwd, requests[|requests| - 1])
    ensures NoneFrom(ok, cwd, requests, i)
  {
    var front := requests[..|requests| - 1];
    assert forall j :: 0 <= j < |front| ==> front[j] == requests[j];
  }

  lemma LeadsStill(base: string, size: nat, scratch: nat, tab: Table, cwd: string, requests: seq<Request>,
                   i: nat, final: string)
    requires size > 0 && scratch > 0 && i + 1 < |requests|
    requires Leads(base, size, scratch, tab, cwd, requests[..|requests| - 1], i, final)
    ensures Leads(base, size, scratch, tab, cwd, requests, i, final)
  {
    var front := requests[..|requests| - 1];
    assert front[..i] == requests[..i] && front[i] == requests[i];
  }

  lemma StoresUnderBase(base: string, size: nat, scratch: nat, tab: Table, cwd: string, path: string)
    requires Ready(base, size, scratch) && scratch > 3 && Absolute(cwd) && Rooted(path)
    requires LookupPath(base, size, scratch, path, cwd).Found?
    ensures base + NextCwd(base, size, scratch, tab, cwd, Request(path, true))
      == LookupPath(base, size, scratch, path, cwd).vpath
  {
    NextCwdAbsolute(base, size, scratch, tab, cwd, Request(path, true));
    ChdirStores(base, size, scratch, tab, path, cwd);
    BasePrefix(base, LookupPath(base, size, scratch, path, cwd).vpath);
  }

  lemma BasePrefix(base: string, v: string)
    requires base + "/" <= v
    ensures base <= v
  {
    assert v[..|base|] == (base + "/")[..|base|];
  }

  // ----- chroot

  /** Final slashes removed, down to one character. */
  function TrimSlashes(s: string): string {
    if |s| > 1 && s[|s| - 1] == '/' then TrimSlashes(s[..|s| - 1]) else s
  }

  /** `chroot` without VRootServerRoot; `cleaned` is the path as the core's own cleaner leaves it. */
  method Chroot(vr: VRoot, path: Option<string>, cleaned: string) returns (status: Status)
    requires vr.Valid() && '\0' !in cleaned && 0 < |cleaned| <= vr.pathMax
    modifies vr`vrootBaseLen, vr.vrootBase
    ensures vr.Valid()
    ensures path == None || path.value == "" ==> status == Err(EINVAL) && vr.Base() == old(vr.Base())
    ensures path == Some("/") ==> status == Ok && vr.Base() == old(vr.Base())
    ensures path.Some? && path.value != "" && path.value != "/" ==>
      if |TrimSlashes(cleaned)| >= vr.pathMax then status == Err(ENAMETOOLONG) && vr.Base() == old(vr.Base())
      else status == Ok && vr.Base() == TrimSlashes(cleaned)
  {
    if path == None || path.value == "" {
      return Err(EINVAL);
    }
    if path.value == "/" {
      return Ok;
    }
    var base := cleaned;
    var tmp := |base| - 1;
    while tmp != 0 && base[tmp] == '/'
      invariant 0 <= tmp < |base| && tmp == |base| - 1
      invariant TrimSlashes(base) == TrimSlashes(cleaned) && '\0' !in base
    {
      base := base[..tmp];
      tmp := tmp - 1;
    }
    if |base| >= vr.pathMax {
      return Err(ENAMETOOLONG);
    }
    status := vr.SetBase(Some(base), |base|);
    assert base[..|base|] == base;
  }

  /** A cleaned path becomes a normal base exactly when it is not the real root. */
  lemma ChrootBaseNormal(cs: Segments, d: bool)
    requires AllProper(cs)
    ensures TrimSlashes(Render(cs, d)) == Canonical(cs)
    ensures NormalBase(TrimSlashes(Render(cs, d))) <==> cs != []
  {
    StripRendered(cs, d);
    NormCanonical(cs);
    if cs != [] {
      JoinEndsWithName(cs);
      assert (Join(cs) + "/")[..|Join(cs)|] == Join(cs);
      assert Join(cs) + "" == Join(cs);
    }
  }

  // ----- unlink and rmdir

  /** Aliases are refused; otherwise the path is looked up again with aliases. */
  function DeleteTarget(tab: Table, o: Outcome, size: nat, scratch: nat): SysCall
    requires size > 0 && scratch > 0
  {
    if o.Failed? then Refuse(o.errno)
    else if o.vpath in tab then Refuse(EACCES)
    else Call(Substitute(tab, o.vpath, size, scratch))
  }

  method Unlink(vr: VRoot, path: string) returns (call: SysCall)
    requires vr.Valid() && '\0' !in path && vr.vrootBaseLen < vr.pathMax
    ensures call ==
      if vr.Base() == "" then Call(path)
      else DeleteTarget(vr.aliases.Entries(), LookupPath(vr.Base(), vr.pathMax, vr.pathMax + 1, path, vr.cwd),
                        vr.pathMax, vr.pathMax + 1)
  {
    var haveBase := vr.HaveBase();
    if !haveBase {
      return Call(path);
    }
    var status, vpath, aliasPath := LookupLocal(vr, path, true);
    if status != Ok {
      return Refuse(status.errno);
    }
    var isAlias := vr.aliases.Exists(Some(vpath));
    if isAlias {
      return Refuse(EACCES);
    }
    // Only the alias search is new in the second lookup, so it cannot fail.
    status, vpath, aliasPath := LookupLocal(vr, path, false);
    assert status == Ok;
    return Call(vpath);
  }

  method Rmdir(vr: VRoot, passThrough: bool, path: string) returns (call: SysCall)
    requires vr.Valid() && '\0' !in path && vr.vrootBaseLen < vr.pathMax
    ensures call ==
      if passThrough || vr.Base() == "" then Call(path)
      else DeleteTarget(vr.aliases.Entries(), LookupPath(vr.Base(), vr.pathMax, vr.pathMax + 1, path, vr.cwd),
                        vr.pathMax, vr.pathMax + 1)
  {
    if passThrough {
      return Call(path);
    }
    call := Unlink(vr, path);
  }

  /** When a deletion is refused: too long a path, or an alias; in every other case there is a call. */
  lemma DeleteRefusedIff(base: string, size: nat, scratch: nat, tab: Table, path: string, cwd: string)
    requires Ready(base, size, scratch)
    ensures var o := LookupPath(base, size, scratch, path, cwd);
      var call := DeleteTarget(tab, o, size, scratch);
      && (call == Refuse(ENAMETOOLONG) <==> o.Failed?)
      && (call == Refuse(EACCES) <==> o.Found? && o.vpath in tab)
      && (call.Call? <==> o.Found? && o.vpath !in tab)
  {
    NeverForbidden(base, size, scratch, path, cwd);
  }

  /** These are the components of a source. */
  ghost predicate Named(tab: Table, cs: Segments) {
    exists k :: k in tab && Norm(tab[k]) == cs
  }

  /** The call is made on an alias's source itself, however it is spelled. */
  ghost predicate ReachesSource(tab: Table, call: SysCall) {
    call.Call? && Named(tab, Norm(call.arg))
  }

  /**
    * The lookups that reach a source if they are not refused: a path under no alias that names one; a path that
    * is an alias and a slash; a path under an alias, whose source leads down to another source; and a path cut
    * off after the source of its alias, see below.
    */
  ghost predicate DeletesSource(tab: Table, v: string, size: nat)
    requires SourcesFit(tab, size)
  {
    var c := AliasCut(tab, v);
    if c < 0 then Named(tab, Norm(v))
    else v[..c] in tab && RestDeletesSource(tab, tab[v[..c]], v[c..], size)
  }

  /** If all fits, a slash leads to the source itself, and names lead on to another source. */
  ghost predicate RestDeletesSource(tab: Table, source: string, rest: string, size: nat)
    requires |source| < size
  {
    if |source| + |rest| < size then rest == "/" || Named(tab, Norm(source) + Norm(rest))
    else CutDeletesSource(tab, Norm(source), rest[..size - 1 - |source|])
  }

  /** Nothing is kept after the source, or the last segment kept, perhaps only part of it, leads to a source. */
  ghost predicate CutDeletesSource(tab: Table, ss: Segments, kept: string) {
    || kept == ""
    || (LastSlash(kept) >= 0 && Named(tab, Push(ss + Norm(FrontPart(kept)), LastPart(kept))))
  }

  /** Deleting an alias is refused; a source is reached by exactly the other lookups listed above. */
  lemma AliasDeleteIff(tab: Table, v: string, size: nat, scratch: nat)
    requires SourcesFit(tab, size) && |v| < size <= scratch && (v == "" || Normal(v))
    ensures DeleteTarget(tab, Found(v), size, scratch) == Refuse(EACCES) <==> v in tab
    ensures ReachesSource(tab, DeleteTarget(tab, Found(v), size, scratch)) <==> v !in tab && DeletesSource(tab, v, size)
  {
    SubstituteText(tab, v, size, scratch);
    if v in tab {
      WholeCut(tab, v);
    } else if AliasCut(tab, v) >= 0 {
      CoveredDeletes(tab, v, size);
    }
  }

  lemma WholeCut(tab: Table, v: string)
    ensures v in tab <==> AliasCut(tab, v) == |v| && v[..|v|] in tab
  {
    AliasCutIsLongest(tab, v);
    assert v[..|v|] == v;
  }

  lemma CoveredDeletes(tab: Table, v: string, size: nat)
    requires SourcesFit(tab, size) && AliasCut(tab, v) >= 0 && v !in tab && (v == "" || Normal(v))
    ensures var c := AliasCut(tab, v);
      && v[..c] in tab
      && (Named(tab, Norm(Bounded(tab[v[..c]] + v[c..], size))) <==> DeletesSource(tab, v, size))
  {
    CoveredRest(tab, v);
    ReachesThrough(tab, v[..AliasCut(tab, v)], v[AliasCut(tab, v)..], size);
  }

  lemma CoveredRest(tab: Table, v: string)
    requires AliasCut(tab, v) >= 0 && v !in tab && (v == "" || Normal(v))
    ensures var c := AliasCut(tab, v);
      v[..c] in tab && Normal(v[c..])
  {
    AliasCutIsLongest(tab, v);
    assert v[..|v|] == v;
    var _ := RestIsNothingOrNormal(v, AliasCut(tab, v));
  }

  /** What the path below an alias reaches. */
  lemma ReachesThrough(tab: Table, a: string, rest: string, size: nat)
    requires a in tab && |tab[a]| < size && Normal(rest)
    ensures Named(tab, Norm(Bounded(tab[a] + rest, size))) <==> RestDeletesSource(tab, tab[a], rest, size)
  {
    var source := tab[a];
    var kept := Kept(source, rest, size);
    BoundedKeeps(source, rest, size);
    if |source| + |rest| < size {
      AddsNames(source, rest);
      if rest == "/" { OwnSource(tab, a, rest); }
    } else if kept == "" {
      assert source + kept == tab[a];
    } else {
      var _ := AddsCutNames(source, rest, |kept|);
    }
  }

  lemma OwnSource(tab: Table, a: string, rest: string)
    requires a in tab && rest == "/"
    ensures Named(tab, Norm(tab[a]) + Norm(rest))
  {
    RootNorm(rest);
    assert Norm(tab[a]) + [] == Norm(tab[a]);
  }

  /** Of what is kept after the source, these lead back to the source itself. */
  lemma CutReturnsIff(source: string, rest: string, m: nat)
    requires Normal(rest) && 0 < m <= |rest|
    ensures var kept, n := rest[..m], Norm(source);
      && LastSlash(kept) >= 0
      && var front, x := Norm(FrontPart(kept)), LastPart(kept);
         Norm(source + kept) == n <==>
           || (front == [] && (x == "" || x == "."))
           || (|front| == 1 && x == "..")
           || (front == [] && x == ".." && n == [])
  {
    var j := AddsCutNames(source, rest, m);
    PushReturns(Norm(source), Norm(FrontPart(rest[..m])), LastPart(rest[..m]));
  }

  lemma PushReturns(n: Segments, front: Segments, x: string)
    ensures Push(n + front, x) == n <==>
      || (front == [] && (x == "" || x == "."))
      || (|front| == 1 && x == "..")
      || (front == [] && x == ".." && n == [])
  {
    if front == [] {
      assert n + front == n;
      if n != [] { assert |n[..|n| - 1]| != |n|; }
    } else if |front| == 1 {
      assert (n + front)[..|n + front| - 1] == n;
    }
    assert |Push(n + front, x)| == |n| + |front| + if x == "" || x == "." then 0 else if x != ".." then 1
      else if n + front == [] then 0 else -1;
  }

  /** One source is a proper descendant of the other. */
  ghost predicate Nested(upper: string, lower: string) {
    Norm(upper) < Norm(lower)
  }

  /** With sources apart from each other and room enough, there are two ways to a source. */
  lemma DeleteApartIff(tab: Table, v: string, size: nat, scratch: nat)
    requires SourcesFit(tab, size) && |v| < size <= scratch && v !in tab && (v == "" || Normal(v))
    requires forall j, k :: j in tab && k in tab ==> !Nested(tab[j], tab[k])
    requires forall k :: k in tab ==> |tab[k]| + |v| < size
    ensures ReachesSource(tab, DeleteTarget(tab, Found(v), size, scratch)) <==>
      || (AliasCut(tab, v) < 0 && Named(tab, Norm(v)))
      || (|v| > 1 && v[|v| - 1] == '/' && v[..|v| - 1] in tab)
  {
    AliasDeleteIff(tab, v, size, scratch);
    if AliasCut(tab, v) >= 0 { CoveredApart(tab, v, size); }
    KeyAndSlash(tab, v);
  }

  lemma CoveredApart(tab: Table, v: string, size: nat)
    requires SourcesFit(tab, size) && Normal(v) && AliasCut(tab, v) >= 0
    requires forall j, k :: j in tab && k in tab ==> !Nested(tab[j], tab[k])
    requires v !in tab && forall k :: k in tab ==> |tab[k]| + |v| < size
    ensures DeletesSource(tab, v, size) <==> v[AliasCut(tab, v)..] == "/"
  {
    CoveredRest(tab, v);
    ApartNotNamed(tab, v[..AliasCut(tab, v)], v[AliasCut(tab, v)..]);
  }

  lemma KeyAndSlash(tab: Table, v: string)
    requires v !in tab
    ensures AliasCut(tab, v) >= 0 && v[AliasCut(tab, v)..] == "/" <==>
      |v| > 1 && v[|v| - 1] == '/' && v[..|v| - 1] in tab
  {
    var c, n := AliasCut(tab, v), |v|;
    AliasCutIsLongest(tab, v);
    assert v[..n] == v;
    if c >= 0 && v[c..] == "/" { assert c == n - 1; }
    if n > 1 && v[n - 1] == '/' && v[..n - 1] in tab {
      assert LongestAlias(tab, v, n - 1);
      LongestAliasFound(tab, v, n - 1);
    }
  }

  lemma ApartNotNamed(tab: Table, a: string, rest: string)
    requires a in tab && Normal(rest)
    requires forall j, k :: j in tab && k in tab ==> !Nested(tab[j], tab[k])
    ensures Named(tab, Norm(tab[a]) + Norm(rest)) ==> rest == "/"
  {
    var n, ws := Norm(tab[a]), Norm(rest);
    if ws == [] {
      assert rest == Render([], DirLike(rest)) == "/";
    } else if k :| k in tab && Norm(tab[k]) == n + ws {
      assert Nested(tab[a], tab[k]);
      assert false;
    }
  }

  /** Without a final slash, what is deleted is the unaliased path, or the source and more of the path, if it fits. */
  lemma DeleteStaysBelowSource(tab: Table, v: string, size: nat, scratch: nat)
    requires size > 0 && |v| < scratch && v != "" && v[|v| - 1] != '/' && v !in tab
    ensures var call := DeleteTarget(tab, Found(v), size, scratch);
      var c := AliasCut(tab, v);
      if c < 0 then call == Call(v)
      else
        && LongestAlias(tab, v, c) && |v| - c >= 2 && v[c] == '/'
        && if |tab[v[..c]]| + |v| - c < size then call == Call(tab[v[..c]] + v[c..])
           else call == Call((tab[v[..c]] + v[c..])[..size - 1])
  {
    AliasCutIsLongest(tab, v);
    SubstituteText(tab, v, size, scratch);
    assert v[..|v|] == v;
  }

  /** A client's path "/c/", with "/c" an alias, is such a spelling: the call goes to the source and a slash. */
  lemma FinalSlashReaches(base: string, size: nat, scratch: nat, tab: Table, c: Segments, cwd: string)
    requires Ready(base, size, scratch) && size <= scratch && AllProper(c) && c != []
    requires |base| + |Render(c, true)| + 1 < size && !Below(Norm(base), c, true)
    requires base + Join(c) in tab && base + Join(c) + "/" !in tab && |tab[base + Join(c)]| + 1 < size
    ensures var o := LookupPath(base, size, scratch, Render(c, true), cwd);
      && o == Found(base + Join(c) + "/")
      && DeleteTarget(tab, o, size, scratch) == Call(tab[base + Join(c)] + "/")
  {
    LookupRendered(base, size, scratch, c, true, cwd);
    assert base + Render(c, true) == base + Join(c) + "/";
    SlashTarget(tab, base + Join(c), size, scratch);
  }

  lemma SlashTarget(tab: Table, key: string, size: nat, scratch: nat)
    requires key in tab && key != "" && key + "/" !in tab && |key| + 1 < scratch && |tab[key]| + 1 < size
    ensures DeleteTarget(tab, Found(key + "/"), size, scratch) == Call(tab[key] + "/")
  {
    SlashAfterKey(tab, key, size, scratch);
  }

  lemma SlashAfterKey(tab: Table, key: string, size: nat, scratch: nat)
    requires key in tab && key != "" && key + "/" !in tab && |key| + 1 < scratch && |tab[key]| + 1 < size
    ensures Substitute(tab, key + "/", size, scratch) == tab[key] + "/"
  {
    var v := key + "/";
    assert v[..|key|] == key && v[|key|..] == "/" && v[..|v|] == v;
    assert LongestAlias(tab, v, |key|);
    SubstituteIsLongestPrefix(tab, v, size, scratch, |key|);
  }

  // ----- opendir

  /** The path that opendir and lstat look up. */
  function ListedPath(path: string): string {
    StripSlash(CleanPath(path))
  }

  /** Where the components of a path are looked up: as they are if strictly below the base, else under it. */
  function Relocated(bs: Segments, ws: Segments): string {
    Render(bs + Within(bs, ws, false), Within(bs, ws, false) == [])
  }

  /** There is room in vpath for what is appended to the base. */
  predicate Room(base: string, c: Segments, size: nat) {
    c == [] || |base| + |Render(c, false)| + 1 < size
  }

  /** The lookup of any absolute path with its aliases, as opendir and lstat make it. */
  lemma ListedLookup(base: string, size: nat, scratch: nat, tab: Table, w: string, cwd: string)
    requires Ready(base, size, scratch) && size <= scratch && Absolute(w) && |w| < scratch
    ensures var ws := Norm(w);
      AliasedLookup(base, size, scratch, tab, ListedPath(w), cwd) ==
        if Room(base, Within(Norm(base), ws, false), size)
        then Found(Substitute(tab, Relocated(Norm(base), ws), size, scratch))
        else Failed(ENAMETOOLONG, base + "/")
  {
    RealPathRenders(w);
    NormIsProper(w);
    CleanNeverGrows(w);
    assert |ListedPath(w)| <= |w|;
    LookupCanonical(base, size, scratch, Norm(w), cwd);
  }

  /** A path is relocated to itself exactly when it is a clean path strictly below the base. */
  lemma RelocatedIff(base: string, w: string)
    requires NormalBase(base)
    ensures Relocated(Norm(base), Norm(w)) == w <==> Below(Norm(base), Norm(w), false) && w == Canonical(Norm(w))
    ensures Below(Norm(base), Norm(w), false) ==> Relocated(Norm(base), Norm(w)) == Canonical(Norm(w))
  {
    NormIsProper(w);
    if Below(Norm(base), Norm(w), false) {
      RelocatedInside(Norm(base), Norm(w));
    } else {
      RelocatedOutside(Norm(base), Norm(w));
    }
  }

  lemma RelocatedInside(bs: Segments, ws: Segments)
    requires Below(bs, ws, false)
    ensures Relocated(bs, ws) == Canonical(ws)
  {
    assert bs + ws[|bs|..] == ws;
    CanonicalIsRender(ws);
  }

  lemma RelocatedOutside(bs: Segments, ws: Segments)
    requires bs != [] && AllProper(bs) && AllProper(ws) && !Below(bs, ws, false)
    ensures Norm(Relocated(bs, ws)) != ws
  {
    assert AllProper(bs + ws) && |bs + ws| > |ws|;
    NormRender(bs + ws, ws == []);
  }

  /** What opendir opens is an absolute path that fits in its buffer. */
  lemma FirstLookup(base: string, size: nat, scratch: nat, tab: Table, path: string, cwd: string)
    requires Ready(base, size, scratch) && size <= scratch && Absolute(path) && |path| < scratch
    requires forall k :: k in tab ==> Absolute(tab[k])
    ensures var first := AliasedLookup(base, size, scratch, tab, ListedPath(path), cwd);
      first.Found? ==> Absolute(first.vpath) && |first.vpath| < size
  {
    var o := LookupPath(base, size, scratch, ListedPath(path), cwd);
    if o.Found? {
      RealPathRenders(path);
      NormIsProper(path);
      NormCanonical(Norm(path));
      CleanNeverGrows(path);
      FoundFits(base, size, scratch, ListedPath(path), cwd);
      AbsoluteFits(base, size, scratch, ListedPath(path), cwd);
      SubstituteText(tab, o.vpath, size, scratch);
    }
  }

  lemma AbsoluteFits(base: string, size: nat, scratch: nat, p: string, cwd: string)
    requires Ready(base, size, scratch) && Absolute(p) && |p| < scratch
    requires LookupPath(base, size, scratch, p, cwd).Found?
    ensures Absolute(LookupPath(base, size, scratch, p, cwd).vpath)
  {
    var c, d := FoundShape(base, size, scratch, p, cwd);
    RenderStartsWithSlash(Norm(base) + c, d);
  }

  /**
    * The longest alias of `place` leads to `w`: its source and the rest of `place` are `w`, or too long for the
    * buffer, with `w` what is left of them.
    */
  ghost predicate LeadsTo(tab: Table, place: string, w: string, size: nat) {
    var c := AliasCut(tab, place);
    && c >= 0 && place[..c] in tab
    && var source, rest := tab[place[..c]], place[c..];
       if |source| + |rest| < size then source + rest == w else |w| + 1 == size && w <= source + rest
  }

  lemma LeadsToIff(tab: Table, place: string, w: string, size: nat, scratch: nat)
    requires 0 < size && |place| < scratch && AliasCut(tab, place) >= 0
    ensures Substitute(tab, place, size, scratch) == w <==> LeadsTo(tab, place, w, size)
  {
    SubstituteText(tab, place, size, scratch);
    var c := AliasCut(tab, place);
    var all := tab[place[..c]] + place[c..];
    assert |all| >= size && |w| + 1 == size && w <= all ==> w == all[..|w|];
  }

  lemma PlaceFits(base: string, ws: Segments, size: nat)
    requires NormalBase(base) && |base| + 1 < size && Room(base, Within(Norm(base), ws, false), size)
    ensures |Relocated(Norm(base), ws)| < size
  {
    var c := Within(Norm(base), ws, false);
    RenderConcat(Norm(base), c, c == []);
  }

  /**
    * `opendir` passes its vpath `w`, aliases replaced, to `lstat`, which looks it up again in the same way.
    * The two agree exactly when the second lookup has room and either no alias covers the place where it
    * looks and `w` is a clean path strictly below the base, or the longest alias of that place leads to `w`.
    */
  lemma SecondLookup(base: string, size: nat, scratch: nat, tab: Table, path: string, cwd: string)
    requires Ready(base, size, scratch) && size <= scratch && Absolute(path) && |path| < scratch
    requires forall k :: k in tab ==> Absolute(tab[k])
    requires AliasedLookup(base, size, scratch, tab, ListedPath(path), cwd).Found?
    ensures var first := AliasedLookup(base, size, scratch, tab, ListedPath(path), cwd);
      var w := first.vpath;
      AliasedLookup(base, size, scratch, tab, ListedPath(w), cwd) == first <==> AgreesAt(base, tab, w, size)
  {
    FirstLookup(base, size, scratch, tab, path, cwd);
    var w := AliasedLookup(base, size, scratch, tab, ListedPath(path), cwd).vpath;
    LookedUpAgainIff(base, size, scratch, tab, w, cwd);
  }

  ghost predicate AgreesAt(base: string, tab: Table, w: string, size: nat) {
    var bs, ws := Norm(base), Norm(w);
    var place := Relocated(bs, ws);
    && Room(base, Within(bs, ws, false), size)
    && if AliasCut(tab, place) < 0 then Below(bs, ws, false) && w == Canonical(ws)
       else LeadsTo(tab, place, w, size)
  }

  lemma LookedUpAgainIff(base: string, size: nat, scratch: nat, tab: Table, w: string, cwd: string)
    requires Ready(base, size, scratch) && size <= scratch && Absolute(w) && |w| < scratch
    ensures AliasedLookup(base, size, scratch, tab, ListedPath(w), cwd) == Found(w) <==> AgreesAt(base, tab, w, size)
  {
    ListedLookup(base, size, scratch, tab, w, cwd);
    RelocatedIff(base, w);
    if Room(base, Within(Norm(base), Norm(w), false), size) {
      var place := Relocated(Norm(base), Norm(w));
      PlaceFits(base, Norm(w), size);
      if AliasCut(tab, place) >= 0 { LeadsToIff(tab, place, w, size, scratch); }
    }
  }

  /**
    * A clean path `w` strictly below the base is where lstat looks, too: it agrees exactly when no alias covers
    * `w`, or the longest one that does has the text it covers for its source, or one so long that `w` is left.
    */
  lemma SecondLookupInside(base: string, size: nat, scratch: nat, tab: Table, w: string, cwd: string)
    requires Ready(base, size, scratch) && size <= scratch && Absolute(w) && |w| < scratch
    requires Below(Norm(base), Norm(w), false) && w == Canonical(Norm(w))
    requires Room(base, Within(Norm(base), Norm(w), false), size)
    ensures AliasedLookup(base, size, scratch, tab, ListedPath(w), cwd) == Found(w) <==>
      AliasCut(tab, w) < 0 || LeadsToItself(tab, w, size)
  {
    LookedUpAgainIff(base, size, scratch, tab, w, cwd);
    RelocatedIff(base, w);
    if AliasCut(tab, w) >= 0 { LeadsToItselfIff(tab, w, size); }
  }

  ghost predicate LeadsToItself(tab: Table, w: string, size: nat) {
    var c := AliasCut(tab, w);
    && c >= 0 && w[..c] in tab
    && var source := tab[w[..c]];
       if |source| + |w| - c < size then source == w[..c] else |w| + 1 == size && w <= source + w[c..]
  }

  lemma LeadsToItselfIff(tab: Table, w: string, size: nat)
    requires AliasCut(tab, w) >= 0
    ensures LeadsTo(tab, w, w, size) <==> LeadsToItself(tab, w, size)
  {
    AliasCutIsLongest(tab, w);
    var c := AliasCut(tab, w);
    assert w[..c] + w[c..] == w;
    SameRest(tab[w[..c]], w[..c], w[c..]);
  }

  lemma SameRest(a: string, b: string, rest: string)
    ensures a + rest == b + rest <==> a == b
  {
    if a + rest == b + rest {
      assert (a + rest)[..|a + rest| - |rest|] == a;
      assert (b + rest)[..|b + rest| - |rest|] == b;
    }
  }

  /** A directory under no alias: the two agree but at the virtual root, which lstat takes for the base under itself. */
  lemma SecondLookupPlain(base: string, size: nat, scratch: nat, tab: Table, cs: Segments, cwd: string)
    requires Ready(base, size, scratch) && size <= scratch && AllProper(cs)
    requires Room(base, Within(Norm(base), cs, false), size)
    requires AliasCut(tab, Relocated(Norm(base), cs)) < 0
    ensures var v := Relocated(Norm(base), cs);
      var again := AliasedLookup(base, size, scratch, tab, ListedPath(v), cwd);
      && (v != base + "/" ==> again == Found(v))
      && (v == base + "/" && |base| + |base| + 1 < size ==> again == Found(Substitute(tab, base + base, size, scratch)))
      && (v == base + "/" && |base| + |base| + 1 >= size ==> again == Failed(ENAMETOOLONG, base + "/"))
  {
    var bs := Norm(base);
    var c := Within(bs, cs, false);
    var v := Relocated(bs, cs);
    assert AllProper(bs + c);
    NormRender(bs + c, c == []);
    RenderStartsWithSlash(bs + c, c == []);
    RenderConcat(bs, c, c == []);
    if c == [] {
      RelocatedRoot(base, v);
      ListedLookup(base, size, scratch, tab, v, cwd);
    } else {
      RelocatedBelow(base, c);
      ListedLookup(base, size, scratch, tab, v, cwd);
    }
  }

  lemma RelocatedRoot(base: string, v: string)
    requires NormalBase(base) && v == Render(Norm(base) + [], true)
    ensures v == base + "/" && Norm(v) == Norm(base)
    ensures Within(Norm(base), Norm(base), false) == Norm(base) && Relocated(Norm(base), Norm(base)) == base + base
    ensures Render(Norm(base), false) == base
  {
    var bs := Norm(base);
    assert bs + [] == bs;
    NormRender(bs, true);
    JoinConcat(bs, bs);
    assert Join(bs) + "" == base && Join(bs + bs) + "" == base + base;
  }

  lemma RelocatedBelow(base: string, c: Segments)
    requires NormalBase(base) && AllProper(c) && c != []
    ensures var v := Render(Norm(base) + c, false);
      && Norm(v) == Norm(base) + c && Relocated(Norm(base), Norm(v)) == v && v != base + "/"
      && Within(Norm(base), Norm(v), false) == c
  {
    var bs := Norm(base);
    var cs := bs + c;
    assert AllProper(cs);
    NormRender(cs, false);
    assert bs == cs[..|bs|] && c == cs[|bs|..];
    CanonicalIsRender(cs);
    JoinEndsWithName(cs);
  }

  /**
    * A directory under an alias whose source is not strictly below the base: lstat looks for the source
    * under the base, and agrees only if an alias there leads back to it.
    */
  lemma SecondLookupAliased(base: string, size: nat, scratch: nat, tab: Table, w: string, cwd: string)
    requires Ready(base, size, scratch) && size <= scratch && Absolute(w) && |w| < scratch
    requires !Below(Norm(base), Norm(w), false) && Room(base, Norm(w), size)
    ensures var place := Relocated(Norm(base), Norm(w));
      var again := AliasedLookup(base, size, scratch, tab, ListedPath(w), cwd);
      && base + "/" <= place
      && again == Found(Substitute(tab, place, size, scratch))
      && (AliasCut(tab, place) < 0 ==> again == Found(place) && place != w)
  {
    ListedLookup(base, size, scratch, tab, w, cwd);
    RelocatedIff(base, w);
    NormIsProper(w);
    BelowStartsWithBase(base, Norm(w), false);
  }

  lemma LookupCanonical(base: string, size: nat, scratch: nat, cs: Segments, cwd: string)
    requires Ready(base, size, scratch) && AllProper(cs) && |Canonical(cs)| < scratch
    ensures var c := Within(Norm(base), cs, false);
      LookupPath(base, size, scratch, Canonical(cs), cwd) ==
        if c != [] && |base| + |Render(c, false)| + 1 >= size then Failed(ENAMETOOLONG, base + "/")
        else Found(Render(Norm(base) + c, c == []))
  {
    CanonicalIsRender(cs);
    RenderStartsWithSlash(cs, false);
    CleanFixesRender(cs, false);
    LookupCleaned(base, size, scratch, Canonical(cs), cwd);
    PlaceRendered(base, size, cs, false);
    var c := Within(Norm(base), cs, false);
    RenderTail(c, false);
    RenderStartsWithSlash(c, false);
  }
}
