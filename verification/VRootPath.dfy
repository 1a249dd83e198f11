/** The state of `path.c` and `vroot_path_lookup` on its two buffers. */
module VRootPath {
  import opened CStrings
  import opened Clean
  import opened CleanBuffer
  import opened Lookup
  import opened Aliases

  /** vpath after a reset: the base and a slash, as far as they fit. */
  function Root(base: string, size: nat): string
    requires size > 0
  {
    Bounded(base + "/", size)
  }

  /** What vpath holds at the head of the loop: nothing at all, or the base and a slash. */
  ghost predicate AtLoop(m: seq<char>, size: nat, base: string, v: string) {
    && 0 < size <= |m| && Holds(m, 0, v) && |v| < size
    && ((v == "" && forall i :: 0 <= i < size ==> m[i] == '\0') || v == Root(base, size))
  }

  class VRoot {
    const pathMax: nat
    const vrootBase: array<char>
    var vrootBaseLen: nat
    const aliases: AliasTable
    var cwd: string

    ghost predicate Valid()
      reads this, vrootBase, aliases
    {
      && vrootBase.Length == pathMax + 1
      && Terminated(vrootBase[..], 0) && vrootBaseLen == |Base()|
      && '\0' !in cwd
      && forall k :: k in aliases.Entries() ==> '\0' !in aliases.Entries()[k]
    }

    ghost function Base(): string
      reads this, vrootBase
      requires Terminated(vrootBase[..], 0)
    {
      StrAt(vrootBase[..], 0)
    }

    constructor (pathMax: nat, aliases: AliasTable)
      requires forall k :: k in aliases.Entries() ==> '\0' !in aliases.Entries()[k]
      ensures Valid() && fresh(vrootBase) && Base() == "" && cwd == "/"
      ensures this.pathMax == pathMax && this.aliases == aliases
    {
      this.pathMax := pathMax;
      this.aliases := aliases;
      vrootBase := new char[pathMax + 1];
      vrootBaseLen := 0;
      cwd := "/";
      new;
      vrootBase[0] := '\0';
      HoldsIsUnique(vrootBase[..], 0, "");
    }

    method HaveBase() returns (r: bool)
      requires Valid()
      ensures r <==> Base() != ""
    {
      return vrootBase[0] != '\0';
    }

    method GetBase() returns (base: string, baselen: nat)
      requires Valid()
      ensures base == Base() && baselen == |Base()|
    {
      return StrAt(vrootBase[..], 0), vrootBaseLen;
    }

    /** The first `baselen` characters become the base; one that is too long is refused. */
    method SetBase(base: Option<string>, baselen: nat) returns (status: Status)
      requires Valid()
      requires base.Some? && baselen < vrootBase.Length ==> baselen <= |base.value| && '\0' !in base.value
      modifies this`vrootBaseLen, vrootBase
      ensures Valid()
      ensures base == None || baselen > pathMax ==> status == Err(EINVAL) && Base() == old(Base())
      ensures base.Some? && baselen <= pathMax ==> status == Ok && Base() == base.value[..baselen]
    {
      if base == None || baselen >= vrootBase.Length {
        return Err(EINVAL);
      }
      Zero(vrootBase, vrootBase.Length);
      PutString(vrootBase, 0, base.value[..baselen]);
      vrootBaseLen := baselen;
      HoldsIsUnique(vrootBase[..], 0, base.value[..baselen]);
      return Ok;
    }

    /** One step of a leading "..": cut vpath back, then put the base in, as the test always allows. */
    method ResetVpath(vpath: array<char>, vpathsz: nat, ghost v: string)
      requires Valid() && vpath != vrootBase && vrootBaseLen < vpathsz <= vpath.Length
      requires AtLoop(vpath[..], vpathsz, Base(), v)
      modifies vpath
      ensures AtLoop(vpath[..], vpathsz, Base(), Root(Base(), vpathsz))
      ensures SameFrom(old(vpath[..]), vpath[..], vpathsz)
    {
      CutLastName(vpath, vpathsz, v);
      var base := StrAt(vrootBase[..], 0);
      var hit := base <= StrAt(vpath[..], 0) || vpath[vrootBaseLen] != '/';
      assert hit;
      if hit {
        PutRoot(vpath, vpathsz);
      }
    }

    /** Puts the base and a slash into vpath. */
    method PutRoot(vpath: array<char>, vpathsz: nat)
      requires Valid() && vpath != vrootBase && 0 < vpathsz <= vpath.Length
      modifies vpath
      ensures AtLoop(vpath[..], vpathsz, Base(), Root(Base(), vpathsz))
      ensures SameFrom(old(vpath[..]), vpath[..], vpathsz)
    {
      PutString(vpath, 0, Bounded(StrAt(vrootBase[..], 0) + "/", vpathsz));
    }

    /** Ends vpath at its last slash; then it starts with the base, or has no slash where the base would end. */
    method CutLastName(vpath: array<char>, vpathsz: nat, ghost v: string)
      requires Valid() && vpath != vrootBase && vrootBaseLen < vpathsz <= vpath.Length
      requires AtLoop(vpath[..], vpathsz, Base(), v)
      modifies vpath
      ensures Terminated(vpath[..], 0) && (Base() <= StrAt(vpath[..], 0) || vpath[vrootBaseLen] != '/')
      ensures SameFrom(old(vpath[..]), vpath[..], vpathsz)
    {
      ghost var m := vpath[..];
      HoldsIsUnique(m, 0, v);
      var ptr := LastSlash(StrAt(vpath[..], 0));
      if ptr >= 0 {
        vpath[ptr] := '\0';
        HoldsCut(m, 0, v, ptr);
        HoldsIsUnique(vpath[..], 0, v[..ptr]);
        CutRoot(Base(), vpathsz, v, ptr);
      } else {
        vpath[0] := '\0';
        HoldsIsUnique(vpath[..], 0, "");
      }
    }

    /** One turn of the loop; `more` says whether it is taken again, `pending` whether text is left. */
    method Turn(vpath: array<char>, vpathsz: nat, buf: array<char>, at: nat, ghost v: string, ghost cur: string)
      returns (bufp: nat, more: bool, pending: bool, ghost v': string, ghost cur': string)
      requires Valid() && vpath != vrootBase && buf != vpath && vrootBaseLen < vpathsz <= vpath.Length
      requires AtLoop(vpath[..], vpathsz, Base(), v) && Holds(buf[..], at, cur)
      modifies vpath
      ensures AtLoop(vpath[..], vpathsz, Base(), v')
      ensures var root := Root(Base(), vpathsz);
        if more then
          pending && Holds(buf[..], bufp, cur') && |cur'| < |cur| && Walk(root, v', cur') == Walk(root, v, cur)
        else if pending then Holds(buf[..], bufp, cur') && Walk(root, v, cur) == (v', cur')
        else Walk(root, v, cur) == (v', "")
      ensures SameFrom(old(vpath[..]), vpath[..], vpathsz)
    {
      WalkStep(buf[..], at, cur);
      bufp, v', cur' := at, v, cur;
      if buf[at] == '.' && buf[at + 1] == '.' && (buf[at + 2] == '\0' || buf[at + 2] == '/') {
        ResetVpath(vpath, vpathsz, v);
        v' := Root(Base(), vpathsz);
        if buf[at + 2] == '/' {
          HoldsSuffix(buf[..], at, cur, 3);
          bufp, more, pending, cur' := at + 3, true, true, cur[3..];
        } else {
          more, pending := false, false;
        }
      } else if buf[at] == '/' {
        PutRoot(vpath, vpathsz);
        v' := Root(Base(), vpathsz);
        HoldsSuffix(buf[..], at, cur, 1);
        bufp, more, pending, cur' := at + 1, true, true, cur[1..];
      } else {
        more, pending := false, true;
      }
    }

    /** The loop over leading ".." and "/" in the cleaned input. */
    method WalkInPlace(vpath: array<char>, vpathsz: nat, buf: array<char>, start: nat, ghost x: string)
      returns (bufp: nat, pending: bool)
      requires Valid() && vpath != vrootBase && buf != vpath && vrootBaseLen < vpathsz <= vpath.Length
      requires AtLoop(vpath[..], vpathsz, Base(), "") && Holds(buf[..], start, x)
      modifies vpath
      ensures var w := Walk(Root(Base(), vpathsz), "", x);
        && Holds(vpath[..], 0, w.0) && |w.0| < vpathsz
        && (pending ==> Holds(buf[..], bufp, w.1))
        && (!pending ==> w.1 == "")
      ensures SameFrom(old(vpath[..]), vpath[..], vpathsz)
    {
      var more := true;
      bufp, pending := start, true;
      ghost var cur, v := x, "";
      while more
        invariant Valid() && AtLoop(vpath[..], vpathsz, Base(), v)
        invariant SameFrom(old(vpath[..]), vpath[..], vpathsz)
        invariant pending ==> Holds(buf[..], bufp, cur)
        invariant more ==> pending && Walk(Root(Base(), vpathsz), v, cur) == Walk(Root(Base(), vpathsz), "", x)
        invariant !more ==> Walk(Root(Base(), vpathsz), "", x) == (v, if pending then cur else "")
        decreases more, |cur|
      {
        bufp, more, pending, v, cur := Turn(vpath, vpathsz, buf, bufp, v, cur);
      }
    }

    /** Checks the text left over, then writes it after a slash if it fits. */
    method AppendInPlace(vpath: array<char>, vpathsz: nat, buf: array<char>, bufp: nat,
                         ghost v: string, ghost rest: string)
      returns (status: Status)
      requires vpath != buf && |v| < vpathsz <= vpath.Length && rest != ""
      requires Holds(vpath[..], 0, v) && Holds(buf[..], bufp, rest)
      modifies vpath
      ensures Refused(rest) ==> status == Err(EPERM) && Holds(vpath[..], 0, v)
      ensures !Refused(rest) && |v| + |rest| + 1 >= vpathsz ==> status == Err(ENAMETOOLONG) && Holds(vpath[..], 0, v)
      ensures !Refused(rest) && |v| + |rest| + 1 < vpathsz ==> status == Ok && Holds(vpath[..], 0, v + "/" + rest)
      ensures SameFrom(old(vpath[..]), vpath[..], vpathsz)
    {
      HoldsIsUnique(vpath[..], 0, v);
      HoldsIsUnique(buf[..], bufp, rest);
      var text := StrAt(buf[..], bufp);
      var ptr := StrStr(text, "..");
      if ptr >= 0 {
        if |text| - ptr >= 3 {
          if ptr == 0 && text[ptr + 2] == '/' {
            return Err(EPERM);
          }
          if ptr != 0 && text[ptr - 1] == '/' && text[ptr + 2] == '/' {
            return Err(EPERM);
          }
        }
      }
      var buflen := |text| + 1;
      var tmplen := |StrAt(vpath[..], 0)|;
      if tmplen + buflen >= vpathsz {
        return Err(ENAMETOOLONG);
      }
      ghost var m := vpath[..];
      vpath[tmplen] := '/';
      PutString(vpath, tmplen + 1, text);
      HoldsAppendSlash(m, vpath[..], v, text);
      return Ok;
    }

    /** Copies the input, or the current directory for ".", into a scratch buffer and cleans it. */
    method CleanedCopy(path: string) returns (buf: array<char>)
      requires Valid() && '\0' !in path
      ensures fresh(buf) && buf.Length == pathMax + 1
      ensures Holds(buf[..], 0, CleanPath(Scratch(path, cwd, pathMax + 1)))
    {
      buf := new char[pathMax + 1](_ => '\0');
      var text := Bounded(if path != "." then path else cwd, buf.Length);
      PutString(buf, 0, text);
      HoldsIsUnique(buf[..], 0, text);
      CleanInPlace(buf);
    }

    /** The text left over, if any, is appended, and vpath is cleaned. */
    method FinishInPlace(vpath: array<char>, vpathsz: nat, buf: array<char>, bufp: nat, pending: bool,
                         ghost v: string, ghost rest: string)
      returns (status: Status)
      requires vpath != buf && |v| < vpathsz <= vpath.Length && Holds(vpath[..], 0, v)
      requires if pending then Holds(buf[..], bufp, rest) else rest == ""
      modifies vpath
      ensures var o := Append(vpathsz, v, rest);
        && status == (if o.Found? then Ok else Err(o.errno))
        && Holds(vpath[..], 0, TextLeft(o))
      ensures SameFrom(old(vpath[..]), vpath[..], vpathsz)
    {
      ghost var text := v;
      if pending {
        WalkStep(buf[..], bufp, rest);
      }
      if pending && buf[bufp] != '\0' {
        status := AppendInPlace(vpath, vpathsz, buf, bufp, v, rest);
        if status != Ok {
          return;
        }
        text := v + "/" + rest;
      }
      HoldsIsUnique(vpath[..], 0, text);
      CleanInPlace(vpath);
      return Ok;
    }

    /** `vroot_path_lookup` up to the alias search. */
    method PlaceInPlace(vpath: array<char>, vpathsz: nat, buf: array<char>, ghost x: string) returns (status: Status)
      requires Valid() && vpath != vrootBase && buf != vpath && vrootBaseLen < vpathsz <= vpath.Length
      requires Holds(buf[..], 0, x)
      modifies vpath
      ensures var o := Place(Base(), vpathsz, x);
        && status == (if o.Found? then Ok else Err(o.errno))
        && Holds(vpath[..], 0, TextLeft(o))
        && (o.Found? ==> |o.vpath| < vpathsz)
      ensures SameFrom(old(vpath[..]), vpath[..], vpathsz)
    {
      ghost var y := StripBase(Base(), x);
      ghost var w := Walk(Root(Base(), vpathsz), "", y);
      var start := SkipBase(buf, x);
      Zero(vpath, vpathsz);
      var bufp, pending := WalkInPlace(vpath, vpathsz, buf, start, y);
      status := FinishInPlace(vpath, vpathsz, buf, bufp, pending, w.0, w.1);
      if status == Ok {
        AppendFits(vpathsz, w.0, w.1);
      }
    }

    /** The address past one leading copy of the base, if a slash follows it. */
    method SkipBase(buf: array<char>, ghost x: string) returns (start: nat)
      requires Valid() && Holds(buf[..], 0, x)
      ensures Holds(buf[..], start, StripBase(Base(), x))
    {
      HoldsIsUnique(buf[..], 0, x);
      var base := StrAt(vrootBase[..], 0);
      start := if Strips(base, StrAt(buf[..], 0)) then vrootBaseLen else 0;
      HoldsSuffix(buf[..], 0, x, start);
      assert StripBase(base, x) == x[start..];
    }

    /** The alias search, made only when there are aliases. */
    method ApplyAliases(vpath: array<char>, vpathsz: nat, buf: array<char>, ghost v: string)
      returns (aliasPath: Option<string>)
      requires Valid() && vpath != vrootBase && buf != vrootBase && vpath != buf
      requires 0 < buf.Length && |v| < vpathsz <= vpath.Length && Holds(vpath[..], 0, v)
      modifies vpath, buf
      ensures Holds(vpath[..], 0, Substitute(aliases.Entries(), v, vpathsz, buf.Length))
      ensures SameFrom(old(vpath[..]), vpath[..], vpathsz)
      ensures aliasPath == AliasPath(aliases.Entries(), v)
      ensures aliasPath.Some? ==> '\0' !in aliasPath.value
    {
      AliasPathNulFree(aliases.Entries(), v);
      var aliasCount := aliases.Count();
      if aliasCount > 0 {
        aliasPath := SearchAliases(aliases, vpath, vpathsz, buf, v);
      } else {
        NoAliasNoChange(aliases.Entries(), v, vpathsz, buf.Length);
        aliasPath := None;
      }
    }

    /** The lookup of text already cleaned in `buf`. */
    method Answer(vpath: array<char>, vpathsz: nat, buf: array<char>, ghost x: string, noAlias: bool)
      returns (status: Status, aliasPath: Option<string>)
      requires Valid() && vpath != vrootBase && buf != vrootBase && buf != vpath
      requires vrootBaseLen < vpathsz <= vpath.Length && Holds(buf[..], 0, x)
      modifies vpath, buf
      ensures LookedUp(Place(Base(), vpathsz, x), aliases.Entries(), noAlias, vpathsz, buf.Length,
                       vpath[..], status, aliasPath)
      ensures SameFrom(old(vpath[..]), vpath[..], vpathsz)
    {
      ghost var o := Place(Base(), vpathsz, x);
      aliasPath := None;
      status := PlaceInPlace(vpath, vpathsz, buf, x);
      if status == Ok && !noAlias {
        aliasPath := ApplyAliases(vpath, vpathsz, buf, o.vpath);
      }
    }

    /** `vroot_path_lookup`. */
    method LookupVpath(vpath: array?<char>, vpathsz: nat, path: Option<string>, noAlias: bool)
      returns (status: Status, aliasPath: Option<string>)
      requires Valid()
      requires vpath != null ==> vpath != vrootBase && vrootBaseLen < vpathsz <= vpath.Length
      requires path.Some? ==> '\0' !in path.value
      modifies if vpath == null then {} else {vpath}
      ensures vpath == null || path == None ==> status == Err(EINVAL) && aliasPath == None
      ensures vpath != null && path.Some? ==>
        LookedUp(LookupPath(Base(), vpathsz, pathMax + 1, path.value, cwd), aliases.Entries(), noAlias,
                 vpathsz, pathMax + 1, vpath[..], status, aliasPath)
      ensures vpath != null ==> SameFrom(old(vpath[..]), vpath[..], vpathsz)
    {
      if vpath == null || path == None {
        return Err(EINVAL), None;
      }
      var buf := CleanedCopy(path.value);
      status, aliasPath := Answer(vpath, vpathsz, buf, CleanPath(Scratch(path.value, cwd, pathMax + 1)), noAlias);
    }
  }

  /** How a lookup answers: the status, the string left in the buffer, and the alias path. */
  ghost predicate LookedUp(o: Outcome, tab: Table, noAlias: bool, size: nat, scratch: nat,
                           m: seq<char>, status: Status, aliasPath: Option<string>)
    requires size > 0 && scratch > 0
  {
    && status == (if o.Found? then Ok else Err(o.errno))
    && Holds(m, 0, Answered(o, tab, noAlias, size, scratch))
    && aliasPath == (if o.Found? && !noAlias then AliasPath(tab, o.vpath) else None)
    && (aliasPath.Some? ==> '\0' !in aliasPath.value)
  }

  /** A lookup into a local buffer of `pathMax` characters, as the file-system calls make it. */
  method LookupLocal(vr: VRoot, path: string, noAlias: bool)
    returns (status: Status, vpath: string, aliasPath: Option<string>)
    requires vr.Valid() && '\0' !in path && vr.vrootBaseLen < vr.pathMax
    ensures var o := LookupPath(vr.Base(), vr.pathMax, vr.pathMax + 1, path, vr.cwd);
      LocalAnswer(o, vr.aliases.Entries(), noAlias, vr.pathMax, status, vpath, aliasPath)
  {
    var buf := new char[vr.pathMax + 1];
    status, aliasPath := vr.LookupVpath(buf, vr.pathMax, Some(path), noAlias);
    ghost var o := LookupPath(vr.Base(), vr.pathMax, vr.pathMax + 1, path, vr.cwd);
    AnswerIsHeld(o, vr.aliases.Entries(), noAlias, vr.pathMax, buf[..], status, aliasPath);
    vpath := StrAt(buf[..], 0);
  }

  /** The string a lookup leaves in its buffer. */
  function Answered(o: Outcome, tab: Table, noAlias: bool, size: nat, scratch: nat): string
    requires size > 0 && scratch > 0
  {
    if o.Failed? || noAlias then TextLeft(o) else Substitute(tab, o.vpath, size, scratch)
  }

  /** A lookup with its alias search, as most callers make it. */
  function AliasedLookup(base: string, size: nat, scratch: nat, tab: Table, path: string, cwd: string): Outcome
    requires size > 0 && scratch > 0
  {
    var o := LookupPath(base, size, scratch, path, cwd);
    if o.Found? then Found(Substitute(tab, o.vpath, size, scratch)) else o
  }

  /** What a caller has after the lookup: the status, the string and the alias path. */
  ghost predicate LocalAnswer(o: Outcome, tab: Table, noAlias: bool, size: nat,
                              status: Status, vpath: string, aliasPath: Option<string>)
    requires size > 0
  {
    && status == (if o.Found? then Ok else Err(o.errno))
    && vpath == Answered(o, tab, noAlias, size, size + 1)
    && aliasPath == (if o.Found? && !noAlias then AliasPath(tab, o.vpath) else None)
    && '\0' !in vpath && (aliasPath.Some? ==> '\0' !in aliasPath.value)
  }

  lemma AnswerIsHeld(o: Outcome, tab: Table, noAlias: bool, size: nat, m: seq<char>,
                     status: Status, aliasPath: Option<string>)
    requires size > 0 && LookedUp(o, tab, noAlias, size, size + 1, m, status, aliasPath)
    ensures Terminated(m, 0) && LocalAnswer(o, tab, noAlias, size, status, StrAt(m, 0), aliasPath)
  {
    HoldsIsUnique(m, 0, Answered(o, tab, noAlias, size, size + 1));
  }

  lemma HoldsAppendSlash(m: seq<char>, r: seq<char>, v: string, s: string)
    requires Holds(m, 0, v) && |v| + 1 < |m|
    requires Holds(r, |v| + 1, s) && SameOutside(m[|v| := '/'], r, |v| + 1, |v| + 1 + |s|)
    ensures Holds(r, 0, v + "/" + s)
  {
    var t := v + "/" + s;
    forall i | 0 <= i < |t| ensures r[i] == t[i] {
      if i > |v| { assert r[|v| + 1 + (i - |v| - 1)] == s[i - |v| - 1]; }
    }
  }

  /** Cutting the root at its last slash leaves the base, or a terminator where the test looks. */
  lemma CutRoot(base: string, size: nat, v: string, k: nat)
    requires |base| < size && v == Root(base, size) && k == LastSlash(v)
    ensures v[..k] == base || (k < |base| && v == base)
  {
    if |base| + 1 < size {
      assert v[|base|] == '/';
    }
  }

  /** The bytes at `p` tell which step the loop takes. */
  lemma WalkStep(m: seq<char>, p: nat, x: string)
    requires Holds(m, p, x)
    ensures x == "" <==> m[p] == '\0'
    ensures x != "" ==> m[p] == x[0]
    ensures |x| >= 2 ==> m[p + 1] == x[1]
    ensures |x| >= 3 ==> m[p + 2] == x[2]
    ensures x == ".." <==> |x| >= 2 && x[0] == '.' && x[1] == '.' && m[p + 2] == '\0'
    ensures "../" <= x <==> |x| >= 3 && x[0] == '.' && x[1] == '.' && x[2] == '/'
  {
    assert x != "" ==> m[p + 0] == x[0];
    if |x| >= 3 { assert x[..3] == [x[0], x[1], x[2]]; }
    if |x| == 2 { assert x == [x[0], x[1]]; }
  }
}
