/** `lstat`, `readlink`, and the loop over symbolic links that `opendir` builds from them. */
module Links {
  import opened CStrings
  import opened Components
  import opened Clean
  import opened CleanAbsolute
  import opened Lookup
  import opened Aliases
  import opened VRootPath
  import opened RealPath
  import opened Fsio

  /** What a lookup goes by: base, buffer size, aliases, and the two current directories. */
  datatype View = View(base: string, size: nat, tab: Table, cwd: string, vwd: string)

  /** The system call made on a path, aliases replaced, or the error of its lookup. */
  function Asked(e: View, path: string): SysCall
    requires e.size > 0
  {
    var o := AliasedLookup(e.base, e.size, e.size + 1, e.tab, path, e.cwd);
    if o.Found? then Call(o.vpath) else Refuse(o.errno)
  }

  /** An alias covers the path. */
  predicate Covered(e: View, path: string)
    requires e.size > 0
  {
    var o := LookupPath(e.base, e.size, e.size + 1, path, e.cwd);
    o.Found? && AliasPath(e.tab, o.vpath).Some?
  }

  /** The call that lstat makes: for the cleaned path without a final slash. */
  function StatTarget(e: View, path: string): SysCall
    requires e.size > 0
  {
    Asked(e, ListedPath(path))
  }

  /** The call that readlink makes: for the real path if an alias covers it, else for the path as given. */
  function LinkTarget(e: View, path: string): SysCall
    requires e.size > 0
  {
    var full := RealPathOf(e.vwd, path, true);
    if Asked(e, full).Refuse? || Covered(e, full) then Asked(e, full) else Asked(e, path)
  }

  /** Neither call is refused, so the system says whether the path is a link, and gives its text. */
  predicate Followable(e: View, path: string) {
    e.size > 0 && StatTarget(e, path).Call? && LinkTarget(e, path).Call?
  }

  function CanFollow(e: View): string -> bool {
    path => Followable(e, path)
  }

  /**
    * Where the loop ends: `links` are the texts the system gives in turn while the path is a link. A text is
    * taken as it is; the loop also ends at a path that cannot be followed.
    */
  function Followed(can: string -> bool, size: nat, w: string, links: seq<string>): string
    decreases |links|
  {
    if links == [] || !can(w) then w else Followed(can, size, Bounded(links[0], size + 1), links[1..])
  }

  /** The path that opendir opens: the one looked up, or where its links end. */
  function OpenTarget(e: View, path: string, links: seq<string>): SysCall
    requires e.size > 0
  {
    var first := StatTarget(e, path);
    if first.Refuse? then first else Call(Followed(CanFollow(e), e.size, first.arg, links))
  }

  method ListedString(path: string) returns (r: string)
    requires '\0' !in path
    ensures r == ListedPath(path) && '\0' !in r
  {
    var buf := CanonicalCopy(path);
    HoldsIsUnique(buf[..], 0, ListedPath(path));
    r := StrAt(buf[..], 0);
  }

  /** A lookup into a local buffer, and whether it found an alias. */
  method Ask(vr: VRoot, path: string, ghost e: View) returns (call: SysCall, covered: bool)
    requires vr.Valid() && '\0' !in path && vr.vrootBaseLen < vr.pathMax
    requires e == View(vr.Base(), vr.pathMax, vr.aliases.Entries(), vr.cwd, e.vwd)
    ensures call == Asked(e, path) && (covered <==> Covered(e, path)) && (call.Call? ==> '\0' !in call.arg)
  {
    var status, vpath, aliasPath := LookupLocal(vr, path, false);
    AnswerIsAsked(e, path, status, vpath, aliasPath);
    call := if status == Ok then Call(vpath) else Refuse(status.errno);
    covered := aliasPath.Some?;
  }

  lemma AnswerIsAsked(e: View, path: string, status: Status, vpath: string, aliasPath: Option<string>)
    requires e.size > 0
    requires var o := LookupPath(e.base, e.size, e.size + 1, path, e.cwd);
      LocalAnswer(o, e.tab, false, e.size, status, vpath, aliasPath)
    ensures Asked(e, path) == if status == Ok then Call(vpath) else Refuse(status.errno)
    ensures aliasPath.Some? <==> Covered(e, path)
  {
  }

  /** `lstat` with a base in force; `stat`, which may follow, asks for the same path. */
  method Lstat(vr: VRoot, path: string, ghost e: View) returns (call: SysCall)
    requires vr.Valid() && '\0' !in path && vr.vrootBaseLen < vr.pathMax
    requires e == View(vr.Base(), vr.pathMax, vr.aliases.Entries(), vr.cwd, e.vwd)
    ensures call == StatTarget(e, path) && (call.Call? ==> '\0' !in call.arg)
  {
    var listed := ListedString(path);
    var covered;
    call, covered := Ask(vr, listed, e);
  }

  /** `readlink` with a base in force. */
  method Readlink(vr: VRoot, path: string, vwd: string, ghost e: View) returns (call: SysCall)
    requires vr.Valid() && '\0' !in path && '\0' !in vwd && vr.vrootBaseLen < vr.pathMax
    requires e == View(vr.Base(), vr.pathMax, vr.aliases.Entries(), vr.cwd, vwd)
    ensures call == LinkTarget(e, path)
  {
    var full := RealString(path, vwd);
    var covered;
    call, covered := Ask(vr, full, e);
    if call.Call? && !covered {
      call, covered := Ask(vr, path, e);
    }
  }

  method RealString(path: string, vwd: string) returns (r: string)
    requires '\0' !in path && '\0' !in vwd
    ensures r == RealPathOf(vwd, path, true) && '\0' !in r
  {
    var buf := Realpath(true, Some(path), vwd, true);
    HoldsIsUnique(buf[..], 0, RealPathOf(vwd, path, true));
    r := StrAt(buf[..], 0);
  }

  /** The two calls of one turn of the loop. */
  method Follow(vr: VRoot, path: string, vwd: string, ghost e: View) returns (can: bool)
    requires vr.Valid() && '\0' !in path && '\0' !in vwd && vr.vrootBaseLen < vr.pathMax
    requires e == View(vr.Base(), vr.pathMax, vr.aliases.Entries(), vr.cwd, vwd)
    ensures can <==> CanFollow(e)(path)
  {
    var stat := Lstat(vr, path, e);
    if stat.Refuse? {
      return false;
    }
    var link := Readlink(vr, path, vwd, e);
    return link.Call?;
  }

  /** The loop in `opendir`: while the path is a link, it becomes the link's text. */
  method FollowLinks(vr: VRoot, start: string, vwd: string, links: seq<string>, ghost e: View) returns (vpath: string)
    requires vr.Valid() && '\0' !in start && '\0' !in vwd && vr.vrootBaseLen < vr.pathMax
    requires forall i :: 0 <= i < |links| ==> '\0' !in links[i]
    requires e == View(vr.Base(), vr.pathMax, vr.aliases.Entries(), vr.cwd, vwd)
    ensures vpath == Followed(CanFollow(e), vr.pathMax, start, links) && '\0' !in vpath
  {
    ghost var can := CanFollow(e);
    vpath := start;
    var i := 0;
    while i < |links|
      invariant i <= |links| && '\0' !in vpath
      invariant Followed(can, vr.pathMax, vpath, links[i..]) == Followed(can, vr.pathMax, start, links)
    {
      var follow := Follow(vr, vpath, vwd, e);
      if !follow {
        break;
      }
      FollowedStep(can, vr.pathMax, vpath, links, i);
      vpath := Bounded(links[i], vr.pathMax + 1);
      i := i + 1;
    }
  }

  lemma FollowedStep(can: string -> bool, size: nat, w: string, links: seq<string>, i: nat)
    requires i < |links| && can(w)
    ensures Followed(can, size, w, links[i..]) == Followed(can, size, Bounded(links[i], size + 1), links[i + 1..])
  {
    assert links[i..][1..] == links[i + 1..];
  }

  /** The part of `opendir` before the system call: its own lookup is the one that lstat makes, too. */
  method OpenPath(vr: VRoot, path: string, vwd: string, links: seq<string>, ghost e: View) returns (call: SysCall)
    requires vr.Valid() && '\0' !in path && '\0' !in vwd && vr.vrootBaseLen < vr.pathMax
    requires forall i :: 0 <= i < |links| ==> '\0' !in links[i]
    requires e == View(vr.Base(), vr.pathMax, vr.aliases.Entries(), vr.cwd, vwd)
    ensures call == OpenTarget(e, path, links)
  {
    var listed := ListedString(path);
    var covered;
    call, covered := Ask(vr, listed, e);
    if call.Call? {
      var target := FollowLinks(vr, call.arg, vwd, links, e);
      call := Call(target);
    }
  }

  // ----- what the calls are for, in components

  /** The call for the place of some components: below the base, aliases replaced, or refused for length. */
  function PlaceCall(e: View, cs: Segments): SysCall
    requires e.size > 0
  {
    if Room(e.base, Within(Norm(e.base), cs, false), e.size)
    then Call(Substitute(e.tab, Relocated(Norm(e.base), cs), e.size, e.size + 1))
    else Refuse(ENAMETOOLONG)
  }

  /** lstat asks for the place of the path's components, however the path ends. */
  lemma LstatAsks(e: View, path: string)
    requires Ready(e.base, e.size, e.size + 1) && Absolute(path) && |path| <= e.size
    ensures StatTarget(e, path) == PlaceCall(e, Norm(path))
  {
    RealPathRenders(path);
    NormIsProper(path);
    CleanNeverGrows(path);
    CanonicalAsked(e, Norm(path));
  }

  /** The components that a path stands for in the virtual directory. */
  function RealComponents(vwd: string, path: string): Segments {
    if Absolute(path) then Norm(path) else Resolve(Norm(vwd), Split(path))
  }

  /**
    * readlink asks for the place of the real path if there is an alias over it. Otherwise it looks the path up
    * as it was given, and is refused, too, when the real path is too long.
    */
  lemma ReadlinkAsks(e: View, path: string)
    requires Ready(e.base, e.size, e.size + 1) && Absolute(e.vwd)
    requires |Canonical(RealComponents(e.vwd, path))| <= e.size
    ensures var cs := RealComponents(e.vwd, path);
      var given := AliasedLookup(e.base, e.size, e.size + 1, e.tab, path, e.cwd);
      LinkTarget(e, path) ==
        if PlaceCall(e, cs).Refuse? || AliasCut(e.tab, Relocated(Norm(e.base), cs)) >= 0 then PlaceCall(e, cs)
        else if given.Found? then Call(given.vpath) else Refuse(given.errno)
  {
    RealIsCanonical(e, path);
    CanonicalAsked(e, RealComponents(e.vwd, path));
    AskedIs(e, path);
  }

  lemma AskedIs(e: View, path: string)
    requires e.size > 0
    ensures var o := AliasedLookup(e.base, e.size, e.size + 1, e.tab, path, e.cwd);
      Asked(e, path) == if o.Found? then Call(o.vpath) else Refuse(o.errno)
  {
  }

  lemma RealIsCanonical(e: View, path: string)
    requires Absolute(e.vwd)
    ensures AllProper(RealComponents(e.vwd, path))
    ensures RealPathOf(e.vwd, path, true) == Canonical(RealComponents(e.vwd, path))
  {
    NormIsProper(path);
    if Absolute(path) {
      RealPathRenders(path);
    } else {
      RealPathRelative(e.vwd, path);
      NormIsProper(e.vwd);
      SplitSlashFree(path);
      ResolveKeepsProper(Norm(e.vwd), Split(path));
    }
  }

  lemma CanonicalAsked(e: View, cs: Segments)
    requires Ready(e.base, e.size, e.size + 1) && AllProper(cs) && |Canonical(cs)| <= e.size
    ensures Asked(e, Canonical(cs)) == PlaceCall(e, cs)
    ensures Covered(e, Canonical(cs)) <==>
      PlaceCall(e, cs).Call? && AliasCut(e.tab, Relocated(Norm(e.base), cs)) >= 0
  {
    LookupCanonical(e.base, e.size, e.size + 1, cs, e.cwd);
    AskedFrom(e, Canonical(cs), LookupPath(e.base, e.size, e.size + 1, Canonical(cs), e.cwd));
  }

  lemma AskedFrom(e: View, path: string, o: Outcome)
    requires e.size > 0 && o == LookupPath(e.base, e.size, e.size + 1, path, e.cwd)
    ensures Asked(e, path) ==
      if o.Found? then Call(Substitute(e.tab, o.vpath, e.size, e.size + 1)) else Refuse(o.errno)
    ensures Covered(e, path) <==> o.Found? && AliasCut(e.tab, o.vpath) >= 0
  {
  }

  /** opendir with no link on the way opens the place of the path's components. */
  lemma OpensPlace(e: View, path: string)
    requires Ready(e.base, e.size, e.size + 1) && Absolute(path) && |path| <= e.size
    ensures OpenTarget(e, path, []) == PlaceCall(e, Norm(path))
  {
    LstatAsks(e, path);
  }

  /** That place is under the base, strictly, and is what is opened unless an alias covers it. */
  lemma PlaceUnderBase(e: View, cs: Segments)
    requires Ready(e.base, e.size, e.size + 1) && AllProper(cs)
    ensures var place := Relocated(Norm(e.base), cs);
      && StrictlyUnder(e.base, place)
      && Norm(place) == Norm(e.base) + Within(Norm(e.base), cs, false)
      && (AliasCut(e.tab, place) < 0 && PlaceCall(e, cs).Call? ==> PlaceCall(e, cs) == Call(place))
  {
    var c := Within(Norm(e.base), cs, false);
    ShapeStrictlyUnder(e.base, c, c == []);
    assert AllProper(Norm(e.base) + c);
    NormRender(Norm(e.base) + c, c == []);
  }

  /** With links, what is opened is that place or the text of a link, each path before it having been followed. */
  lemma OpensThroughLinks(e: View, path: string, links: seq<string>) returns (n: nat)
    requires Ready(e.base, e.size, e.size + 1) && Absolute(path) && |path| <= e.size
    ensures PlaceCall(e, Norm(path)).Refuse? ==> OpenTarget(e, path, links) == Refuse(ENAMETOOLONG)
    ensures PlaceCall(e, Norm(path)).Call? ==>
      var w := PlaceCall(e, Norm(path)).arg;
      && n <= |links| && OpenTarget(e, path, links) == Call(TextAt(e.size, w, links, n))
      && (forall i :: 0 <= i < n ==>
            StatTarget(e, TextAt(e.size, w, links, i)).Call? && LinkTarget(e, TextAt(e.size, w, links, i)).Call?)
      && (n < |links| ==>
            var t := TextAt(e.size, w, links, n);
            StatTarget(e, t).Refuse? || LinkTarget(e, t).Refuse?)
  {
    n := 0;
    LstatAsks(e, path);
    if PlaceCall(e, Norm(path)).Call? {
      n := FollowedEnds(CanFollow(e), e.size, PlaceCall(e, Norm(path)).arg, links);
    }
  }

  /** The path after `i` links. */
  function TextAt(size: nat, w: string, links: seq<string>, i: nat): string
    requires i <= |links|
  {
    if i == 0 then w else Bounded(links[i - 1], size + 1)
  }

  /** The path opened is a link's text as it is, the first one that cannot be followed or the last one given. */
  lemma {:induction false} FollowedEnds(can: string -> bool, size: nat, w: string, links: seq<string>)
    returns (n: nat)
    ensures n <= |links| && Followed(can, size, w, links) == TextAt(size, w, links, n)
    ensures forall i :: 0 <= i < n ==> can(TextAt(size, w, links, i))
    ensures n < |links| ==> !can(TextAt(size, w, links, n))
    decreases |links|
  {
    if links == [] || !can(w) {
      n := 0;
    } else {
      var w', rest := Bounded(links[0], size + 1), links[1..];
      n := FollowedEnds(can, size, w', rest);
      forall i | 0 <= i <= n ensures TextAt(size, w, links, i + 1) == TextAt(size, w', rest, i) {
        if i > 0 { assert links[i] == rest[i - 1]; }
      }
      forall i | 0 <= i < n + 1 ensures can(TextAt(size, w, links, i)) {
        if i > 0 { assert TextAt(size, w, links, (i - 1) + 1) == TextAt(size, w', rest, i - 1); }
      }
      n := n + 1;
    }
  }
}
