/** `vroot_realpath`: cleaning, then dropping a final slash. */
module RealPath {
  import opened CStrings
  import opened Components
  import opened Clean
  import opened CleanAbsolute
  import opened CleanBuffer
  import opened Aliases
  import opened CleanRelative

  function StripSlash(s: string): string {
    if |s| > 1 && s[|s| - 1] == '/' then s[..|s| - 1] else s
  }

  /** The text that is cleaned: with the flag set, a relative path is joined to the virtual directory. */
  function Located(vwd: string, path: string, absPath: bool): string {
    if !Absolute(path) && absPath then PDirCat(vwd, path) else path
  }

  function RealPathOf(vwd: string, path: string, absPath: bool): string {
    StripSlash(CleanPath(Located(vwd, path, absPath)))
  }

  /** The text of a component list, "/" being the empty one. */
  function Canonical(cs: Segments): string {
    if cs == [] then "/" else Join(cs)
  }

  lemma CanonicalIsRender(cs: Segments)
    ensures Canonical(cs) == Render(cs, false)
  {
    assert Join(cs) + "" == Join(cs);
  }

  lemma {:induction false} JoinEndsWithName(cs: Segments)
    requires AllProper(cs) && cs != []
    ensures |Join(cs)| > 1 && Join(cs)[|Join(cs)| - 1] != '/'
  {
    var x := cs[|cs| - 1];
    assert Join(cs)[|Join(cs)| - 1] == x[|x| - 1];
  }

  lemma StripRendered(cs: Segments, trail: bool)
    requires AllProper(cs)
    ensures StripSlash(Render(cs, trail)) == Canonical(cs)
  {
    if cs != [] {
      JoinEndsWithName(cs);
      assert (Join(cs) + "/")[..|Join(cs)|] == Join(cs);
      assert Join(cs) + "" == Join(cs);
    }
  }

  lemma RealPathRenders(s: string)
    requires Absolute(s)
    ensures StripSlash(CleanPath(s)) == Canonical(Norm(s))
  {
    CleanRenders(s);
    NormIsProper(s);
    StripRendered(Norm(s), DirLike(s));
  }

  lemma NormCanonical(cs: Segments)
    requires AllProper(cs)
    ensures Norm(Canonical(cs)) == cs && Absolute(Canonical(cs))
  {
    CanonicalIsRender(cs);
    NormRender(cs, false);
    RenderStartsWithSlash(cs, false);
  }

  /** Two absolute paths have the same real path exactly when they stand for the same components. */
  lemma RealPathComplete(a: string, b: string, vwd: string, absPath: bool)
    requires Absolute(a) && Absolute(b)
    ensures RealPathOf(vwd, a, absPath) == RealPathOf(vwd, b, absPath) <==> Norm(a) == Norm(b)
  {
    RealPathRenders(a);
    RealPathRenders(b);
    NormIsProper(a);
    NormIsProper(b);
    NormCanonical(Norm(a));
    NormCanonical(Norm(b));
  }

  /** A real path is its own real path, and only the root ends in a slash. */
  lemma RealPathIdempotent(a: string, vwd: string, vwd': string, absPath: bool, absPath': bool)
    requires Absolute(a)
    ensures var r := RealPathOf(vwd, a, absPath);
      && RealPathOf(vwd', r, absPath') == r
      && Absolute(r) && (r[|r| - 1] == '/' <==> r == "/")
  {
    RealPathRenders(a);
    NormIsProper(a);
    var cs := Norm(a);
    NormCanonical(cs);
    RealPathRenders(Canonical(cs));
    if cs != [] { JoinEndsWithName(cs); }
  }

  /** A relative path is resolved on top of the virtual working directory. */
  lemma RealPathRelative(vwd: string, path: string)
    requires Absolute(vwd) && !Absolute(path)
    ensures RealPathOf(vwd, path, true) == Canonical(Resolve(Norm(vwd), Split(path)))
  {
    var j := PDirCat(vwd, path);
    if vwd[|vwd| - 1] == '/' {
      var a := vwd[..|vwd| - 1];
      assert vwd == a + "/" + "";
      assert j == a + "/" + path;
      NormConcat(a, "");
      NormConcat(a, path);
      assert [""][1..] == [];
    } else {
      NormConcat(vwd, path);
    }
    RealPathRenders(j);
  }

  /** Without the flag the virtual directory plays no part: the path is cleaned as it is, and keeps its name. */
  lemma RealPathUnflagged(vwd: string, path: string)
    ensures var r, q := RealPathOf(vwd, path, false), CleanPath(path);
      if |q| > 1 && q[|q| - 1] == '/' then r + "/" == q else r == q
    ensures Proper(LastSegment(path)) ==>
      LastSegment(RealPathOf(vwd, path, false)) ==
        if DropsDot(BeforeDots(path)) then [BeforeDots(path)[0]] else LastSegment(path)
  {
    var q := CleanPath(path);
    if |q| > 1 && q[|q| - 1] == '/' {
      assert q == q[..|q| - 1] + "/";
      EndsInSlash(q);
    }
    if Proper(LastSegment(path)) {
      FinalNameIff(path);
    }
  }

  lemma EndsInSlash(r: string)
    requires r != "" && r[|r| - 1] == '/'
    ensures LastSegment(r) == ""
  {
    var a := r[..|r| - 1];
    assert r == a + "/" + "";
    NormConcat(a, "");
  }

  method StripSlashInPlace(buf: array<char>, ghost s: string)
    requires Holds(buf[..], 0, s)
    modifies buf
    ensures Holds(buf[..], 0, StripSlash(s))
  {
    HoldsIsUnique(buf[..], 0, s);
    var len := |StrAt(buf[..], 0)|;
    assert len > 1 ==> buf[0 + (len - 1)] == s[len - 1];
    if len > 1 && buf[len - 1] == '/' {
      Cut(buf, 0, s, len - 1);
    }
  }

  /** A new buffer with the text cleaned and without a final slash. */
  method CanonicalCopy(text: string) returns (r: array<char>)
    requires '\0' !in text
    ensures fresh(r) && Holds(r[..], 0, StripSlash(CleanPath(text)))
  {
    r := new char[|text| + 1](_ => '\0');
    PutString(r, 0, text);
    HoldsIsUnique(r[..], 0, text);
    CleanInPlace(r);
    StripSlashInPlace(r, CleanPath(text));
  }

  /** `vroot_realpath`: NULL without a pool or a path, otherwise a new buffer. */
  method Realpath(pool: bool, path: Option<string>, vwd: string, absPath: bool) returns (r: array?<char>)
    requires path.Some? ==> '\0' !in path.value
    requires '\0' !in vwd
    ensures !pool || path == None ==> r == null
    ensures pool && path.Some? ==>
      r != null && fresh(r) && Holds(r[..], 0, RealPathOf(vwd, path.value, absPath))
  {
    if !pool || path == None {
      return null;
    }
    r := CanonicalCopy(Located(vwd, path.value, absPath));
  }
}
