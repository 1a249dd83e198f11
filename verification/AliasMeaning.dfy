/** What an alias's substitution means in components, and when it leaves the source. */
module AliasMeaning {
  import opened CStrings
  import opened Components
  import opened Aliases

  /** As much of the rest of the path as fits after the source. */
  function Kept(source: string, rest: string, size: nat): string
    requires |source| < size
  {
    if |source| + |rest| < size then rest else rest[..size - 1 - |source|]
  }

  lemma BoundedKeeps(source: string, rest: string, size: nat)
    requires |source| < size
    ensures Bounded(source + rest, size) == source + Kept(source, rest, size)
  {
  }

  /** The last segment of text with a slash in it, and the text before that slash. */
  function LastPart(s: string): string {
    s[LastSlash(s) + 1..]
  }

  function FrontPart(s: string): string
    requires LastSlash(s) >= 0
  {
    s[..LastSlash(s)]
  }

  /** The rest of a normal path after a cut is nothing, or normal again. */
  lemma RestIsNothingOrNormal(v: string, c: int) returns (j: nat)
    requires Normal(v) && IsCut(v, c)
    ensures v[c..] == "" || (Normal(v[c..]) && v[c..][0] == '/')
    ensures j <= |Norm(v)| && (v[c..] != "" ==> Norm(v[..c]) == Norm(v)[..j] && Norm(v[c..]) == Norm(v)[j..])
  {
    if c < |v| { j := NormalCut(v, c); } else { j := 0; }
  }

  /** All of a normal rest after a source: its names are added. */
  lemma AddsNames(source: string, rest: string)
    requires Normal(rest)
    ensures Norm(source + rest) == Norm(source) + Norm(rest)
  {
    var tail := NormalSegments(rest);
    var n, ws := Norm(source), Norm(rest);
    assert [""] + ws + tail == [""] + (ws + tail);
    AfterSource(source, rest, ws + tail);
    ResolveNames(n, ws, tail);
  }

  /** Text that starts with a slash is resolved on top of what is before it. */
  lemma AfterSource(source: string, rest: string, segs: Segments)
    requires Split(rest) == [""] + segs && |segs| > 0
    ensures Norm(source + rest) == Resolve(Norm(source), segs)
  {
    NothingBeforeSlash(rest);
    assert source + rest == source + "/" + rest[1..];
    NormConcat(source, rest[1..]);
    TailSegments(rest);
    assert ([""] + segs)[1..] == segs;
  }

  lemma NothingBeforeSlash(rest: string)
    requires |Split(rest)| > 1 && Split(rest)[0] == ""
    ensures rest != "" && rest[0] == '/'
  {
    var first := Split(rest)[0];
    assert |first| == 0;
  }

  lemma ResolveNames(n: Segments, ws: Segments, tail: Segments)
    requires AllProper(ws) && (tail == [] || tail == [""])
    ensures Resolve(n, ws + tail) == n + ws
  {
    ResolveConcat(n, ws, tail);
    ResolveProper(n, ws);
    assert [""][1..] == [];
  }

  /**
    * A prefix of a normal rest after a source: the names before its last segment are added, then the last
    * segment, which may have been cut short, takes one more step.
    */
  lemma AddsCutNames(source: string, rest: string, m: nat) returns (j: nat)
    requires Normal(rest) && 0 < m <= |rest|
    ensures var kept, ws := rest[..m], Norm(rest);
      && LastSlash(kept) >= 0 && j <= |ws| && AllProper(ws)
      && Split(FrontPart(kept)) == [""] + ws[..j] && Norm(FrontPart(kept)) == ws[..j]
      && LastPart(kept) <= (if j < |ws| then ws[j] else "")
      && Norm(source + kept) == Push(Norm(source) + ws[..j], LastPart(kept))
  {
    var kept := rest[..m];
    SlashInside(rest, m);
    var k := LastSlash(kept);
    j := NormalCut(rest, k);
    assert kept[..k] == rest[..k];
    CutSegment(rest, m, k);
    KeptResolves(source, kept, k, Norm(rest)[..j]);
  }

  lemma SlashInside(rest: string, m: nat)
    requires Normal(rest) && 0 < m <= |rest|
    ensures var k := LastSlash(rest[..m]);
      0 <= k < m && rest[k] == '/'
  {
    RenderStartsWithSlash(Norm(rest), DirLike(rest));
    assert rest[..m][0] == '/';
  }

  /** The last segment of the prefix is a prefix of the segment there. */
  lemma CutSegment(rest: string, m: nat, k: nat)
    requires 0 < m <= |rest| && k == LastSlash(rest[..m]) >= 0
    ensures rest[..m][k + 1..] <= Split(rest[k + 1..])[0]
  {
    var x, r := rest[..m][k + 1..], rest[k + 1..];
    assert x == r[..|x|];
    assert forall i :: 0 <= i < |x| ==> x[i] == rest[..m][k + 1 + i];
    PlainPrefix(x, r);
  }

  lemma {:induction false} PlainPrefix(x: string, r: string)
    requires x <= r && '/' !in x
    ensures x <= Split(r)[0]
  {
    if x != "" {
      assert x[0] == r[0];
      PlainPrefix(x[1..], r[1..]);
      var q := Split(r[1..])[0];
      assert Split(r)[0] == [r[0]] + q && x == [x[0]] + x[1..];
    }
  }

  lemma KeptResolves(source: string, kept: string, k: nat, front: Segments)
    requires k == LastSlash(kept) && Split(kept[..k]) == [""] + front && AllProper(front)
    ensures Norm(source + kept) == Push(Norm(source) + front, kept[k + 1..])
  {
    KeptSegments(kept, k, front);
    AfterSource(source, kept, front + [kept[k + 1..]]);
    ResolvePush(Norm(source), front, kept[k + 1..]);
  }

  lemma KeptSegments(kept: string, k: nat, front: Segments)
    requires k == LastSlash(kept) && Split(kept[..k]) == [""] + front
    ensures Split(kept) == [""] + (front + [kept[k + 1..]])
  {
    var x := kept[k + 1..];
    LastIsPlain(kept, k);
    assert kept == kept[..k] + "/" + x;
    SplitConcat(kept[..k], x);
    assert [""] + front + [x] == [""] + (front + [x]);
  }

  lemma LastIsPlain(kept: string, k: nat)
    requires k == LastSlash(kept)
    ensures Split(kept[k + 1..]) == [kept[k + 1..]]
  {
    var x := kept[k + 1..];
    assert forall i :: 0 <= i < |x| ==> x[i] == kept[k + 1 + i];
    SplitPlain(x);
  }

  lemma ResolvePush(n: Segments, front: Segments, x: string)
    requires AllProper(front)
    ensures Resolve(n, front + [x]) == Push(n + front, x)
  {
    ResolveConcat(n, front, [x]);
    ResolveProper(n, front);
    assert [x][1..] == [];
  }

  // ----- when the source is left

  /** The rest is cut off after "/..", so that the source's parent is named. */
  predicate CutToParent(source: string, rest: string, size: nat) {
    |source| + 4 == size && "/.." <= rest && Norm(source) != []
  }

  lemma ParentNotNormal(s: string)
    requires s == "/.."
    ensures !Normal(s)
  {
    assert s == "" + "/" + "..";
    SplitConcat("", "..");
    SplitPlain("..");
    ResolveConcat([], [""], [".."]);
    assert [""][1..] == [] && [".."][1..] == [];
  }

  /** The one prefix of a normal rest that leads upwards. */
  lemma ClimbsIff(source: string, rest: string, m: nat)
    requires Normal(rest) && m <= |rest|
    ensures Norm(source) <= Norm(source + rest[..m]) <==> !(rest[..m] == "/.." && Norm(source) != [])
    ensures rest[..m] == "/.." && Norm(source) != [] ==>
      Norm(source + rest[..m]) == Norm(source)[..|Norm(source)| - 1]
  {
    if m == 0 {
      assert source + rest[..0] == source;
    } else {
      var j := AddsCutNames(source, rest, m);
      var kept := rest[..m];
      var x, front := LastPart(kept), Norm(rest)[..j];
      PushKeeps(Norm(source), front, x);
      UpwardText(kept, front);
    }
  }

  lemma PushKeeps(n: Segments, front: Segments, x: string)
    ensures n <= Push(n + front, x) <==> !(x == ".." && front == [] && n != [])
    ensures x == ".." && front == [] && n != [] ==> Push(n + front, x) == n[..|n| - 1]
  {
    var r := Push(n + front, x);
    if front == [] {
      assert n + front == n;
    } else if x == ".." {
      assert r == n + front[..|front| - 1];
    } else if x != "" && x != "." {
      assert r == n + (front + [x]);
    }
  }

  lemma UpwardText(kept: string, front: Segments)
    requires LastSlash(kept) >= 0 && Split(FrontPart(kept)) == [""] + front
    ensures kept == "/.." <==> LastPart(kept) == ".." && front == []
  {
    var k := LastSlash(kept);
    assert kept == kept[..k] + "/" + kept[k + 1..];
    if front == [] {
      assert Split("") == [""] + front;
      SplitInjective(FrontPart(kept), "");
    }
    if kept == "/.." { assert k == 0 && kept[..0] == ""; }
  }

  /** For a source with something after it: it is left exactly when the rest is cut off after "/..". */
  lemma LeavesSourceIff(source: string, rest: string, size: nat)
    requires |source| < size && (rest == "" || Normal(rest))
    ensures var arg := Bounded(source + rest, size);
      && (Norm(source) <= Norm(arg) <==> !CutToParent(source, rest, size))
      && (CutToParent(source, rest, size) ==>
            arg == source + "/.." && Norm(arg) == Norm(source)[..|Norm(source)| - 1])
      && (|source| + |rest| < size ==> Norm(arg) == Norm(source) + if rest == "" then [] else Norm(rest))
  {
    BoundedKeeps(source, rest, size);
    if rest == "" {
      assert source + rest == source;
    } else {
      var m := |Kept(source, rest, size)|;
      assert rest[..|rest|] == rest;
      ClimbsIff(source, rest, m);
      ParentCutIff(source, rest, size);
      if |source| + |rest| < size { AddsNames(source, rest); }
    }
  }

  lemma ParentCutIff(source: string, rest: string, size: nat)
    requires |source| < size && Normal(rest)
    ensures Kept(source, rest, size) == "/.." && Norm(source) != [] <==> CutToParent(source, rest, size)
  {
    assert rest[..|rest|] == rest;
    assert "/.." <= rest ==> rest[..3] == "/..";
    ParentNotNormal("/..");
  }

  /** The lookup `v` is under an alias and is cut off after the alias and "/..". */
  predicate AliasCutToParent(tab: Table, v: string, size: nat) {
    var c := AliasCut(tab, v);
    c >= 0 && v[..c] in tab && CutToParent(tab[v[..c]], v[c..], size)
  }

  /**
    * The path a call gets lies at or below the source of the longest alias, exactly when it is not cut off
    * after the source and "/.."; then it names the source's parent.
    */
  lemma SubstituteBelowSourceIff(tab: Table, v: string, size: nat, scratch: nat)
    requires SourcesFit(tab, size) && 0 < size && |v| < scratch && Normal(v) && AliasCut(tab, v) >= 0
    ensures LongestAlias(tab, v, AliasCut(tab, v))
    ensures var source, arg := tab[v[..AliasCut(tab, v)]], Substitute(tab, v, size, scratch);
      && (Norm(source) <= Norm(arg) <==> !AliasCutToParent(tab, v, size))
      && (AliasCutToParent(tab, v, size) ==>
            arg == source + "/.." && Norm(arg) == Norm(source)[..|Norm(source)| - 1])
  {
    AliasCutIsLongest(tab, v);
    SubstituteText(tab, v, size, scratch);
    var c := AliasCut(tab, v);
    var _ := RestIsNothingOrNormal(v, c);
    LeavesSourceIff(tab[v[..c]], v[c..], size);
  }
}
