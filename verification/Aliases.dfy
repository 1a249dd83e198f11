/** The alias table of `alias.c`, and the search for the alias that covers a path. */
module Aliases {
  import opened CStrings
  import opened Clean
  import opened Lookup

  datatype Option<+T> = None | Some(value: T)
  datatype Status = Ok | Err(errno: Errno)
  type Table = map<string, string>

  /**
    * The table is allocated by the first `Init` and dropped by `Free`. `None` stands for a NULL
    * argument or result; adding under a key that is present fails and keeps the first entry.
    */
  class AliasTable {
    var aliasTab: Option<Table>

    ghost function Entries(): Table
      reads this
    {
      if aliasTab.Some? then aliasTab.value else map[]
    }

    constructor ()
      ensures aliasTab == None
    {
      aliasTab := None;
    }

    method Init(pool: bool) returns (status: Status)
      modifies this
      ensures status == if pool then Ok else Err(EINVAL)
      ensures pool ==> aliasTab.Some?
      ensures Entries() == old(Entries())
    {
      if !pool {
        return Err(EINVAL);
      }
      if aliasTab == None {
        aliasTab := Some(map[]);
      }
      return Ok;
    }

    method Free()
      modifies this
      ensures aliasTab == None && Entries() == map[]
    {
      aliasTab := None;
    }

    method Count() returns (n: nat)
      ensures n == |Entries()|
    {
      if aliasTab == None {
        return 0;
      }
      return |aliasTab.value|;
    }

    method Get(path: Option<string>) returns (source: Option<string>)
      ensures source == if path.Some? && path.value in Entries() then Some(Entries()[path.value]) else None
    {
      if path == None || aliasTab == None {
        return None;
      }
      return if path.value in aliasTab.value then Some(aliasTab.value[path.value]) else None;
    }

    method Exists(path: Option<string>) returns (found: bool)
      ensures found <==> path.Some? && path.value in Entries()
    {
      var v := Get(path);
      return v != None;
    }

    method Add(dstPath: Option<string>, srcPath: Option<string>) returns (status: Status)
      modifies this
      ensures dstPath == None || srcPath == None || old(aliasTab) == None ==> status == Err(EINVAL)
      ensures dstPath.Some? && srcPath.Some? && old(aliasTab).Some? ==>
        status == if dstPath.value in old(Entries()) then Err(EEXIST) else Ok
      ensures Entries() ==
        if status == Ok then AddFirst(old(Entries()), dstPath.value, srcPath.value) else old(Entries())
      ensures aliasTab.Some? <==> old(aliasTab).Some?
    {
      if dstPath == None || srcPath == None || aliasTab == None {
        return Err(EINVAL);
      }
      if dstPath.value in aliasTab.value {
        return Err(EEXIST);
      }
      aliasTab := Some(aliasTab.value[dstPath.value := srcPath.value]);
      return Ok;
    }
  }

  /** Adding under a key that is present changes nothing. */
  function AddFirst(tab: Table, key: string, source: string): Table {
    if key in tab then tab else tab[key := source]
  }

  // ----- the search

  /** The right-to-left search: try `v[..c]`, then cut at the slash before. */
  function CutFrom(tab: Table, v: string, c: nat): (r: int)
    requires c <= |v|
    ensures -1 <= r <= c
    decreases c
  {
    if v[..c] in tab then c
    else
      var k := LastSlash(v[..c]);
      if k <= 0 then -1 else CutFrom(tab, v, k)
  }

  function AliasCut(tab: Table, v: string): (r: int)
    ensures -1 <= r <= |v|
  {
    CutFrom(tab, v, |v|)
  }

  /** The path with the alias it starts with replaced by the alias's source. */
  function Substitute(tab: Table, v: string, size: nat, scratch: nat): string
    requires size > 0 && scratch > 0
  {
    var c := AliasCut(tab, v);
    if c < 0 || v[..c] !in tab then v
    else if c == |v| then Bounded(tab[v[..c]], size)
    else Bounded(Bounded(tab[v[..c]], size) + Bounded(v[c..], scratch), size)
  }

  /** The path under which the alias was found, as reported to the caller. */
  function AliasPath(tab: Table, v: string): Option<string> {
    var c := AliasCut(tab, v);
    if c < 0 then None
    else if c == |v| then Some(v[..c])
    else Some(PDirCat(v[..c], v[c + 1..]))
  }

  /** The places where a path may be cut: its end, and the slashes after its first character. */
  ghost predicate IsCut(v: string, c: int) {
    c == |v| || (0 < c < |v| && v[c] == '/')
  }

  /** `c` is the longest cut whose prefix is an alias. */
  ghost predicate LongestAlias(tab: Table, v: string, c: int) {
    && IsCut(v, c) && v[..c] in tab
    && forall c' :: IsCut(v, c') && c < c' ==> v[..c'] !in tab
  }

  lemma {:induction false} CutFromIsLongest(tab: Table, v: string, c: nat)
    requires IsCut(v, c) && forall c' :: IsCut(v, c') && c < c' ==> v[..c'] !in tab
    ensures var r := CutFrom(tab, v, c);
      if r < 0 then forall c' :: IsCut(v, c') ==> v[..c'] !in tab else LongestAlias(tab, v, r)
    decreases c
  {
    if v[..c] !in tab {
      var k := LastSlash(v[..c]);
      assert forall c' :: IsCut(v, c') && k < c' < c ==> v[..c][c'] == '/';
      if k > 0 {
        assert v[..c][k] == v[k];
        CutFromIsLongest(tab, v, k);
      }
    }
  }

  /** The search finds the longest alias, and none exactly when there is none. */
  lemma AliasCutIsLongest(tab: Table, v: string)
    ensures var r := AliasCut(tab, v);
      if r < 0 then forall c :: IsCut(v, c) ==> v[..c] !in tab else LongestAlias(tab, v, r)
  {
    CutFromIsLongest(tab, v, |v|);
  }

  /** Only one cut can be the longest. */
  lemma LongestAliasFound(tab: Table, v: string, c: int)
    requires LongestAlias(tab, v, c)
    ensures AliasCut(tab, v) == c
  {
    AliasCutIsLongest(tab, v);
  }

  /** Every source fits in a buffer of `size`; registration sees to that. */
  ghost predicate SourcesFit(tab: Table, size: nat) {
    forall k :: k in tab ==> |tab[k]| < size
  }

  /** The result is one bounded copy of the source of the longest alias and the rest of the path. */
  lemma SubstituteText(tab: Table, v: string, size: nat, scratch: nat)
    requires 0 < size && |v| < scratch
    ensures AliasCut(tab, v) >= 0 ==> v[..AliasCut(tab, v)] in tab
    ensures var c := AliasCut(tab, v);
      Substitute(tab, v, size, scratch) == if c < 0 then v else Bounded(tab[v[..c]] + v[c..], size)
  {
    AliasCutIsLongest(tab, v);
    var c := AliasCut(tab, v);
    if c >= 0 { BoundedTwice(tab[v[..c]], v[c..], size); }
  }

  lemma BoundedTwice(a: string, b: string, size: nat)
    requires size > 0
    ensures Bounded(Bounded(a, size) + b, size) == Bounded(a + b, size)
    ensures Bounded(a + "", size) == Bounded(a, size)
  {
    assert a + "" == a;
    if |a| >= size {
      assert (a[..size - 1] + b)[..size - 1] == a[..size - 1] == (a + b)[..size - 1];
      assert a[..size - 1] + "" == a[..size - 1];
    }
  }

  /** Longest-prefix matching: the result is the source of the longest alias, then the rest of the path. */
  lemma SubstituteIsLongestPrefix(tab: Table, v: string, size: nat, scratch: nat, c: int)
    requires 0 < size && |v| < scratch
    requires LongestAlias(tab, v, c) && |tab[v[..c]]| + |v| - c < size
    ensures Substitute(tab, v, size, scratch) == tab[v[..c]] + v[c..]
  {
    LongestAliasFound(tab, v, c);
    SubstituteText(tab, v, size, scratch);
  }

  lemma NoAliasNoChange(tab: Table, v: string, size: nat, scratch: nat)
    requires size > 0 && scratch > 0
    requires forall c :: IsCut(v, c) ==> v[..c] !in tab
    ensures Substitute(tab, v, size, scratch) == v && AliasPath(tab, v) == None
  {
    AliasCutIsLongest(tab, v);
  }

  /** The alias path reported for a path without doubled slashes is that path, wherever it was cut. */
  lemma AliasPathIsPath(tab: Table, v: string)
    requires NoDouble(v)
    ensures AliasPath(tab, v) == if AliasCut(tab, v) < 0 then None else Some(v)
  {
    AliasCutIsLongest(tab, v);
    var c := AliasCut(tab, v);
    if c == |v| {
      assert v[..c] == v;
    } else if c >= 0 {
      assert v[(c - 1) + 1] == '/';
      assert v == v[..c] + "/" + v[c + 1..];
    }
  }

  lemma AliasPathNulFree(tab: Table, v: string)
    requires '\0' !in v
    ensures AliasPath(tab, v).Some? ==> '\0' !in AliasPath(tab, v).value
  {
  }

  // ----- the search in place

  /**
    * Cuts the path at slash after slash by planting a terminator, and puts each slash back before it
    * moves on; `buf` keeps the text that was cut off.
    */
  method SearchAliases(aliases: AliasTable, vpath: array<char>, vpathsz: nat, buf: array<char>, ghost v: string)
    returns (aliasPath: Option<string>)
    requires vpath != buf && 0 < buf.Length && |v| < vpathsz <= vpath.Length
    requires Holds(vpath[..], 0, v)
    requires forall k :: k in aliases.Entries() ==> '\0' !in aliases.Entries()[k]
    modifies vpath, buf
    ensures Holds(vpath[..], 0, Substitute(aliases.Entries(), v, vpathsz, buf.Length))
    ensures AliasCut(aliases.Entries(), v) < 0 ==> vpath[..] == old(vpath[..])
    ensures SameFrom(old(vpath[..]), vpath[..], vpathsz)
    ensures aliasPath == AliasPath(aliases.Entries(), v)
  {
    ghost var was := vpath[..];
    ghost var tab := aliases.Entries();
    var endPtr := -1;
    ghost var c := |v|;
    assert v[..c] == v;
    while true
      invariant 0 <= c <= |v| && CutFrom(tab, v, c) == AliasCut(tab, v)
      invariant CutAt(vpath[..], buf[..], was, v, endPtr, c)
      decreases c
    {
      HoldsIsUnique(vpath[..], 0, v[..c]);
      var start := StrAt(vpath[..], 0);
      var srcPath := aliases.Get(Some(start));
      if srcPath.Some? {
        if endPtr != -1 {
          HoldsCutTail(was, v, c);
          aliasPath := Some(PDirCat(start, StrAt(vpath[..], endPtr + 1)));
        } else {
          aliasPath := Some(start);
        }
        ReplaceBySource(vpath, vpathsz, srcPath.value, buf, endPtr != -1, v[c..]);
        return;
      }
      var ptr := LastSlash(start);
      if endPtr != -1 {
        vpath[endPtr] := '/';
      }
      assert vpath[..] == was;
      if ptr == -1 || ptr == 0 {
        return None;
      }
      assert v[..c][ptr] == v[ptr];
      CutBack(vpath, buf, v, ptr);
      endPtr, c := ptr, ptr;
    }
  }

  /** The buffers at the head of the search: a terminator planted at `endPtr`, the rest saved in `buf`. */
  ghost predicate CutAt(m: seq<char>, b: seq<char>, was: seq<char>, v: string, endPtr: int, c: nat) {
    && c <= |v| && Holds(was, 0, v) && Holds(m, 0, v[..c]) && |b| > 0
    && (endPtr == -1 ==> c == |v| && m == was)
    && (endPtr != -1 ==>
          && 0 < c == endPtr < |v| && v[c] == '/' && m == was[c := '\0']
          && Holds(b, 0, Bounded(v[c..], |b|)))
  }

  /** Saves the text from `ptr` on, and plants a terminator there. */
  method CutBack(vpath: array<char>, buf: array<char>, ghost v: string, ptr: nat)
    requires vpath != buf && 0 < buf.Length && Holds(vpath[..], 0, v) && 0 < ptr < |v| && v[ptr] == '/'
    modifies vpath, buf
    ensures CutAt(vpath[..], buf[..], old(vpath[..]), v, ptr, ptr)
  {
    ghost var was := vpath[..];
    HoldsSuffix(was, 0, v, ptr);
    HoldsIsUnique(was, ptr, v[ptr..]);
    PutString(buf, 0, Bounded(StrAt(vpath[..], ptr), buf.Length));
    HoldsCut(was, 0, v, ptr);
    vpath[ptr] := '\0';
    assert vpath[..] == was[ptr := '\0'];
  }

  /** The text after a planted terminator is still there. */
  lemma HoldsCutTail(m: seq<char>, v: string, c: nat)
    requires Holds(m, 0, v) && c < |v|
    ensures Terminated(m[c := '\0'], c + 1) && StrAt(m[c := '\0'], c + 1) == v[c + 1..]
  {
    HoldsSuffix(m, 0, v, c + 1);
    HoldsIsUnique(m[c := '\0'], c + 1, v[c + 1..]);
  }

  /** `sstrncpy` of the source, then `sstrcat` of the saved suffix, both bounded. */
  method ReplaceBySource(vpath: array<char>, vpathsz: nat, source: string, buf: array<char>, cut: bool,
                         ghost rest: string)
    requires vpath != buf && 0 < vpathsz <= vpath.Length && '\0' !in source && '\0' !in rest && buf.Length > 0
    requires cut ==> Holds(buf[..], 0, Bounded(rest, buf.Length))
    modifies vpath
    ensures Holds(vpath[..], 0,
      if cut then Bounded(Bounded(source, vpathsz) + Bounded(rest, buf.Length), vpathsz) else Bounded(source, vpathsz))
    ensures SameFrom(old(vpath[..]), vpath[..], vpathsz)
  {
    PutString(vpath, 0, Bounded(source, vpathsz));
    if cut {
      HoldsIsUnique(buf[..], 0, Bounded(rest, buf.Length));
      StrCat(vpath, vpathsz, StrAt(buf[..], 0), Bounded(source, vpathsz));
    }
  }

  /** `sstrcat`: appends what fits. */
  method StrCat(dst: array<char>, size: nat, s: string, ghost held: string)
    requires 0 < size <= dst.Length && '\0' !in s && |held| < size && Holds(dst[..], 0, held)
    modifies dst
    ensures Holds(dst[..], 0, Bounded(held + s, size))
    ensures SameFrom(old(dst[..]), dst[..], size)
  {
    ghost var m := dst[..];
    HoldsIsUnique(m, 0, held);
    var end := |StrAt(dst[..], 0)|;
    var part := Bounded(s, size - end);
    PutString(dst, end, part);
    HoldsAppend(m, dst[..], held, part);
    assert held + part == Bounded(held + s, size);
  }
}
