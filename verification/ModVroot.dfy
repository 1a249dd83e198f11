/** The parts of `mod_vroot.c` that feed and follow lookup: alias registration and path fix-up. */
module ModVroot {
  import opened CStrings
  import opened Components
  import opened Clean
  import opened CleanAbsolute
  import opened CleanBuffer
  import opened Lookup
  import opened Aliases
  import opened VRootPath
  import opened RealPath

  /** One VRootAlias record, its variables substituted and its destination made a best path. */
  datatype AliasConfig = AliasConfig(src: string, dst: string)

  // ----- registration

  /** The key is whatever the lookup of the destination leaves in the buffer: its status is ignored. */
  function KeyOf(base: string, pathMax: nat, cwd: string, dst: string): string
    requires pathMax > 0
  {
    TextLeft(LookupPath(base, pathMax, pathMax + 1, dst, cwd))
  }

  function SourceOf(pathMax: nat, src: string): (r: string)
    requires pathMax > 0
  {
    CleanPath(Bounded(src, pathMax))
  }

  /** A record as the key and source it registers. */
  datatype Entry = Entry(key: string, source: string)

  function EntryOf(base: string, pathMax: nat, cwd: string, c: AliasConfig): Entry
    requires pathMax > 0
  {
    Entry(KeyOf(base, pathMax, cwd, c.dst), SourceOf(pathMax, c.src))
  }

  function EntriesOf(base: string, pathMax: nat, cwd: string, configs: seq<AliasConfig>): (r: seq<Entry>)
    requires pathMax > 0
    ensures |r| == |configs|
    ensures forall i :: 0 <= i < |r| ==> r[i] == EntryOf(base, pathMax, cwd, configs[i])
  {
    seq(|configs|, i requires 0 <= i < |configs| => EntryOf(base, pathMax, cwd, configs[i]))
  }

  function Register(tab: Table, entries: seq<Entry>): Table
    decreases |entries|
  {
    if entries == [] then tab
    else Register(AddFirst(tab, entries[0].key, entries[0].source), entries[1..])
  }

  /** `handle_vrootaliases`. */
  method HandleVRootAliases(vr: VRoot, configs: seq<AliasConfig>)
    requires vr.Valid() && vr.vrootBaseLen < vr.pathMax && vr.aliases.aliasTab.Some?
    requires forall i :: 0 <= i < |configs| ==> '\0' !in configs[i].src && '\0' !in configs[i].dst
    modifies vr.aliases
    ensures vr.Valid() && vr.aliases.aliasTab.Some?
    ensures vr.aliases.Entries() ==
      Register(old(vr.aliases.Entries()), EntriesOf(vr.Base(), vr.pathMax, vr.cwd, configs))
  {
    ghost var all := EntriesOf(vr.Base(), vr.pathMax, vr.cwd, configs);
    var i := 0;
    while i < |configs|
      invariant i <= |configs|
      invariant vr.Valid() && vr.aliases.aliasTab.Some?
      invariant Register(vr.aliases.Entries(), all[i..]) == Register(old(vr.aliases.Entries()), all)
    {
      assert all[i..][1..] == all[i + 1..];
      RegisterOne(vr, configs[i]);
      i := i + 1;
    }
  }

  method RegisterOne(vr: VRoot, c: AliasConfig)
    requires vr.Valid() && vr.vrootBaseLen < vr.pathMax && vr.aliases.aliasTab.Some?
    requires '\0' !in c.src && '\0' !in c.dst
    modifies vr.aliases
    ensures vr.Valid() && vr.aliases.aliasTab.Some?
    ensures var e := EntryOf(vr.Base(), vr.pathMax, vr.cwd, c);
      vr.aliases.Entries() == AddFirst(old(vr.aliases.Entries()), e.key, e.source)
  {
    var srcPath := CleanedString(Bounded(c.src, vr.pathMax));
    var _, dstPath, _ := LookupLocal(vr, c.dst, true);
    var status := vr.aliases.Add(Some(dstPath), Some(srcPath));
  }

  lemma {:induction false} RegisterKeeps(tab: Table, entries: seq<Entry>, key: string)
    requires key in tab
    ensures key in Register(tab, entries) && Register(tab, entries)[key] == tab[key]
    decreases |entries|
  {
    if entries != [] {
      RegisterKeeps(AddFirst(tab, entries[0].key, entries[0].source), entries[1..], key);
    }
  }

  /** Entry `i` is the first for its key, and the table had none. */
  ghost predicate FirstFor(tab: Table, entries: seq<Entry>, i: nat) {
    && i < |entries| && entries[i].key !in tab
    && forall j :: 0 <= j < i ==> entries[j].key != entries[i].key
  }

  /** The first record for a key stays in force whatever follows it. */
  lemma {:induction false} FirstRecordWins(tab: Table, entries: seq<Entry>, i: nat)
    requires FirstFor(tab, entries, i)
    ensures entries[i].key in Register(tab, entries)
    ensures Register(tab, entries)[entries[i].key] == entries[i].source
    decreases |entries|
  {
    var tab' := AddFirst(tab, entries[0].key, entries[0].source);
    if i == 0 {
      RegisterKeeps(tab', entries[1..], entries[0].key);
    } else {
      assert forall j :: 0 <= j < i ==> entries[j].key != entries[i].key;
      assert entries[1..][i - 1] == entries[i];
      FirstRecordWins(tab', entries[1..], i - 1);
    }
  }

  /** Registered sources fit in a path buffer. */
  lemma {:induction false} RegisterFits(tab: Table, entries: seq<Entry>, size: nat)
    requires SourcesFit(tab, size) && forall i :: 0 <= i < |entries| ==> |entries[i].source| < size
    ensures SourcesFit(Register(tab, entries), size)
    decreases |entries|
  {
    if entries != [] {
      RegisterFits(AddFirst(tab, entries[0].key, entries[0].source), entries[1..], size);
    }
  }

  /** What registration of an absolute source adds fits and is a normal path; a final slash is kept. */
  lemma SourceFits(pathMax: nat, src: string)
    requires pathMax > 1
    ensures |SourceOf(pathMax, src)| < pathMax
    ensures Absolute(src) ==> Absolute(SourceOf(pathMax, src)) && Normal(SourceOf(pathMax, src))
    ensures Absolute(src) && |src| < pathMax ==>
      SourceOf(pathMax, src) == Render(Norm(src), DirLike(src))
  {
    CleanNeverGrows(Bounded(src, pathMax));
    if Absolute(src) {
      var s := Bounded(src, pathMax);
      CleanRenders(s);
      NormIsProper(s);
      RenderIsNormal(Norm(s), DirLike(s));
      RenderStartsWithSlash(Norm(s), DirLike(s));
    }
  }

  /** After registration every source fits in a path buffer, as deletions and sessions rely on. */
  lemma RegisteredSourcesFit(tab: Table, base: string, pathMax: nat, cwd: string, configs: seq<AliasConfig>)
    requires pathMax > 1 && SourcesFit(tab, pathMax)
    ensures SourcesFit(Register(tab, EntriesOf(base, pathMax, cwd, configs)), pathMax)
  {
    var entries := EntriesOf(base, pathMax, cwd, configs);
    forall i | 0 <= i < |entries| ensures |entries[i].source| < pathMax {
      SourceFits(pathMax, configs[i].src);
    }
    RegisterFits(tab, entries, pathMax);
  }

  /** Every registered key comes from a record. */
  lemma {:induction false} RegisteredKeys(tab: Table, entries: seq<Entry>, key: string)
    ensures key in Register(tab, entries) <==>
      key in tab || exists i :: 0 <= i < |entries| && entries[i].key == key
    decreases |entries|
  {
    if entries != [] {
      var rest := entries[1..];
      RegisteredKeys(AddFirst(tab, entries[0].key, entries[0].source), rest, key);
      if exists i :: 0 <= i < |entries| && entries[i].key == key {
        var i :| 0 <= i < |entries| && entries[i].key == key;
        if i > 0 { assert rest[i - 1].key == key; }
      }
    }
  }

  /** `v` is what the lookup of record `i`'s destination leaves, and no earlier record or entry has it. */
  ghost predicate FirstToPlace(tab: Table, base: string, pathMax: nat, cwd: string, configs: seq<AliasConfig>,
                               i: nat, v: string)
    requires pathMax > 0
  {
    && i < |configs| && v !in tab
    && TextLeft(LookupPath(base, pathMax, pathMax + 1, configs[i].dst, cwd)) == v
    && forall j :: 0 <= j < i ==> TextLeft(LookupPath(base, pathMax, pathMax + 1, configs[j].dst, cwd)) != v
  }

  lemma FirstToPlaceIsFirst(tab: Table, base: string, pathMax: nat, cwd: string, configs: seq<AliasConfig>,
                            i: nat, v: string)
    requires pathMax > 0 && FirstToPlace(tab, base, pathMax, cwd, configs, i, v)
    ensures var entries := EntriesOf(base, pathMax, cwd, configs);
      FirstFor(tab, entries, i) && entries[i] == Entry(v, SourceOf(pathMax, configs[i].src))
  {
    var entries := EntriesOf(base, pathMax, cwd, configs);
    forall j | 0 <= j < i ensures entries[j].key != v {
      assert entries[j] == EntryOf(base, pathMax, cwd, configs[j]);
    }
  }

  /** What lookup makes of a path once the records are registered. */
  ghost function Resolved(tab: Table, base: string, pathMax: nat, cwd: string, configs: seq<AliasConfig>,
                          path: string, cwd': string): Outcome
    requires pathMax > 0
  {
    AliasedLookup(base, pathMax, pathMax + 1, Register(tab, EntriesOf(base, pathMax, cwd, configs)), path, cwd')
  }

  /**
    * Registration and lookup agree: a path that is looked up to the same place as a record's destination, the
    * first there, resolves to the record's source, cleaned.
    */
  lemma RegisteredResolves(tab: Table, base: string, pathMax: nat, cwd: string, configs: seq<AliasConfig>,
                           i: nat, path: string, cwd': string, v: string)
    requires pathMax > 0 && FirstToPlace(tab, base, pathMax, cwd, configs, i, v)
    requires LookupPath(base, pathMax, pathMax + 1, path, cwd') == Found(v)
    ensures Resolved(tab, base, pathMax, cwd, configs, path, cwd')
      == Found(CleanPath(Bounded(configs[i].src, pathMax)))
  {
    var entries := EntriesOf(base, pathMax, cwd, configs);
    FirstToPlaceIsFirst(tab, base, pathMax, cwd, configs, i, v);
    FirstRecordWins(tab, entries, i);
    CleanNeverGrows(Bounded(configs[i].src, pathMax));
    WholePathAlias(Register(tab, entries), v, pathMax);
  }

  /** So does every absolute spelling of the destination that has its components and its kind of ending. */
  lemma RegisteredSpelling(tab: Table, base: string, pathMax: nat, cwd: string, configs: seq<AliasConfig>,
                           i: nat, path: string, cwd': string, v: string)
    requires Ready(base, pathMax, pathMax + 1) && FirstToPlace(tab, base, pathMax, cwd, configs, i, v)
    requires Absolute(path) && |path| <= pathMax && Absolute(configs[i].dst) && |configs[i].dst| <= pathMax
    requires Norm(path) == Norm(configs[i].dst) && DirLike(path) == DirLike(configs[i].dst)
    requires LookupPath(base, pathMax, pathMax + 1, configs[i].dst, cwd).Found?
    ensures Resolved(tab, base, pathMax, cwd, configs, path, cwd')
      == Found(CleanPath(Bounded(configs[i].src, pathMax)))
  {
    LookupAbsolute(base, pathMax, pathMax + 1, path, cwd');
    LookupAbsolute(base, pathMax, pathMax + 1, configs[i].dst, cwd);
    RegisteredResolves(tab, base, pathMax, cwd, configs, i, path, cwd', v);
  }

  /** The key of an absolute destination: the base and its components, or the virtual root if they do not fit. */
  lemma KeyText(base: string, pathMax: nat, cwd: string, dst: string)
    requires Ready(base, pathMax, pathMax + 1) && Absolute(dst) && |dst| <= pathMax
    ensures var d := DirLike(dst);
      var c := Within(Norm(base), Norm(dst), d);
      KeyOf(base, pathMax, cwd, dst) ==
        if c != [] && |base| + |Render(c, d)| + 1 >= pathMax then base + "/" else base + Render(c, d)
  {
    var d := DirLike(dst);
    var c := Within(Norm(base), Norm(dst), d);
    LookupAbsolute(base, pathMax, pathMax + 1, dst, cwd);
    NormIsProper(dst);
    RenderTail(c, d);
    RenderStartsWithSlash(c, d);
    RenderConcat(Norm(base), c, d || c == []);
  }

  lemma WholePathAlias(tab: Table, v: string, pathMax: nat)
    requires pathMax > 0 && v in tab && |tab[v]| < pathMax
    ensures Substitute(tab, v, pathMax, pathMax + 1) == tab[v]
  {
    assert v[..|v|] == v;
    assert LongestAlias(tab, v, |v|);
    LongestAliasFound(tab, v, |v|);
  }

  /**
    * A path below a record's destination, by components, resolves to the source and the rest, unless a longer
    * alias applies. The base is taken off both or neither; an absolute path that lies below the base, when the
    * destination does not, is looked up elsewhere.
    */
  lemma RegisteredResolvesBelow(tab: Table, base: string, pathMax: nat, cwd: string, configs: seq<AliasConfig>,
                                i: nat, path: string, cwd': string, rs: Segments, v: string)
    requires Ready(base, pathMax, pathMax + 1) && FirstToPlace(tab, base, pathMax, cwd, configs, i, v)
    requires BelowDestination(base, pathMax, path, configs[i].dst, rs)
    requires LookupPath(base, pathMax, pathMax + 1, configs[i].dst, cwd).Found?
    requires LookupPath(base, pathMax, pathMax + 1, path, cwd').Found?
    requires var rest := Render(rs, DirLike(path));
      && |CleanPath(Bounded(configs[i].src, pathMax))| + |rest| < pathMax
      && NoLongerAlias(Register(tab, EntriesOf(base, pathMax, cwd, configs)), v + rest, |v|)
    ensures Resolved(tab, base, pathMax, cwd, configs, path, cwd')
      == Found(CleanPath(Bounded(configs[i].src, pathMax)) + Render(rs, DirLike(path)))
  {
    PlacedBelow(base, pathMax, path, cwd', configs[i].dst, cwd, rs);
    FoundFits(base, pathMax, pathMax + 1, path, cwd');
    RestBelow(tab, base, pathMax, cwd, configs, i, v, rs, DirLike(path));
  }

  lemma RestBelow(tab: Table, base: string, pathMax: nat, cwd: string, configs: seq<AliasConfig>,
                  i: nat, v: string, rs: Segments, d: bool)
    requires pathMax > 0 && FirstToPlace(tab, base, pathMax, cwd, configs, i, v)
    requires v != "" && |v + Render(rs, d)| < pathMax
    requires |CleanPath(Bounded(configs[i].src, pathMax))| + |Render(rs, d)| < pathMax
    requires NoLongerAlias(Register(tab, EntriesOf(base, pathMax, cwd, configs)), v + Render(rs, d), |v|)
    ensures Substitute(Register(tab, EntriesOf(base, pathMax, cwd, configs)), v + Render(rs, d), pathMax, pathMax + 1)
      == CleanPath(Bounded(configs[i].src, pathMax)) + Render(rs, d)
  {
    var entries := EntriesOf(base, pathMax, cwd, configs);
    FirstToPlaceIsFirst(tab, base, pathMax, cwd, configs, i, v);
    FirstRecordWins(tab, entries, i);
    SlashFirst(Render(rs, d), rs, d);
    BelowKeyText(Register(tab, entries), v, Render(rs, d), pathMax);
  }

  lemma BelowKeyText(tab: Table, key: string, rest: string, pathMax: nat)
    requires key in tab && key != "" && rest != "" && rest == "/" + rest[1..]
    requires |key + rest| <= pathMax && |tab[key]| + |rest| < pathMax && NoLongerAlias(tab, key + rest, |key|)
    ensures Substitute(tab, key + rest, pathMax, pathMax + 1) == tab[key] + rest
  {
    SameSlash(key, rest);
    SameSlash(tab[key], rest);
    BelowKey(tab, key, rest[1..], pathMax);
  }

  lemma SameSlash(a: string, rest: string)
    requires rest != "" && rest == "/" + rest[1..]
    ensures a + "/" + rest[1..] == a + rest
  {
    assert a + "/" + rest[1..] == a + ("/" + rest[1..]);
  }

  lemma SlashFirst(rest: string, rs: Segments, d: bool)
    requires rest == Render(rs, d)
    ensures |rest| > 0 && rest == "/" + rest[1..]
  {
    RenderStartsWithSlash(rs, d);
  }

  /** The components of the path are those of the destination, a name, and `rs` more. */
  ghost predicate BelowDestination(base: string, pathMax: nat, path: string, dst: string, rs: Segments) {
    && Absolute(path) && |path| <= pathMax && Absolute(dst) && |dst| <= pathMax && !DirLike(dst)
    && rs != [] && Norm(path) == Norm(dst) + rs
    && (Below(Norm(base), Norm(path), DirLike(path)) <==> Below(Norm(base), Norm(dst), false))
  }

  lemma PlacedBelow(base: string, pathMax: nat, path: string, cwd': string, dst: string, cwd: string, rs: Segments)
    requires Ready(base, pathMax, pathMax + 1) && BelowDestination(base, pathMax, path, dst, rs)
    requires LookupPath(base, pathMax, pathMax + 1, dst, cwd).Found?
    requires LookupPath(base, pathMax, pathMax + 1, path, cwd').Found?
    ensures var key := LookupPath(base, pathMax, pathMax + 1, dst, cwd).vpath;
      && key != ""
      && LookupPath(base, pathMax, pathMax + 1, path, cwd').vpath == key + Render(rs, DirLike(path))
  {
    var bs, c := Norm(base), Within(Norm(base), Norm(dst), false);
    LookupAbsolute(base, pathMax, pathMax + 1, dst, cwd);
    LookupAbsolute(base, pathMax, pathMax + 1, path, cwd');
    if Norm(dst) == [] { RootIsDirLike(dst); }
    WithinBelow(bs, Norm(dst), rs, DirLike(path));
    TextBelow(bs, c, rs, DirLike(path));
  }

  lemma TextBelow(bs: Segments, c: Segments, rs: Segments, d: bool)
    requires c != [] && rs != []
    ensures Render(bs + c, false) != ""
    ensures Render(bs + (c + rs), d) == Render(bs + c, false) + Render(rs, d)
  {
    assert bs + (c + rs) == bs + c + rs;
    RenderConcat(bs + c, rs, d);
    assert Join(bs + c) + "" == Join(bs + c);
    RenderStartsWithSlash(bs + c, false);
  }

  lemma WithinBelow(bs: Segments, cs: Segments, rs: Segments, d: bool)
    requires rs != [] && (Below(bs, cs + rs, d) <==> Below(bs, cs, false))
    ensures Within(bs, cs + rs, d) == Within(bs, cs, false) + rs
    ensures cs != [] ==> Within(bs, cs, false) != []
  {
    if Below(bs, cs, false) { assert (cs + rs)[|bs|..] == cs[|bs|..] + rs; }
  }

  /** No alias covers more of `v` than its first `k` characters. */
  ghost predicate NoLongerAlias(tab: Table, v: string, k: nat) {
    forall c :: IsCut(v, c) && k < c ==> v[..c] !in tab
  }

  lemma BelowKey(tab: Table, key: string, rest: string, pathMax: nat)
    requires key in tab && key != "" && |key| + 1 + |rest| <= pathMax && |tab[key]| + 1 + |rest| < pathMax
    requires NoLongerAlias(tab, key + "/" + rest, |key|)
    ensures Substitute(tab, key + "/" + rest, pathMax, pathMax + 1) == tab[key] + "/" + rest
  {
    var v := key + "/" + rest;
    assert v[..|key|] == key && v[|key|] == '/';
    assert v[|key|..] == "/" + rest;
    assert LongestAlias(tab, v, |key|);
    SubstituteIsLongestPrefix(tab, v, pathMax, pathMax + 1, |key|);
    assert tab[key] + ("/" + rest) == tab[key] + "/" + rest;
  }

  /** Every absolute spelling of a destination has the destination's key. */
  lemma SameSpellingSameKey(base: string, pathMax: nat, cwd: string, a: string, b: string)
    requires Ready(base, pathMax, pathMax + 1)
    requires Absolute(a) && Absolute(b) && |a| <= pathMax && |b| <= pathMax
    requires Norm(a) == Norm(b) && DirLike(a) == DirLike(b)
    ensures KeyOf(base, pathMax, cwd, a) == KeyOf(base, pathMax, cwd, b)
  {
    LookupAbsolute(base, pathMax, pathMax + 1, a, cwd);
    LookupAbsolute(base, pathMax, pathMax + 1, b, cwd);
  }

  // ----- path fix-up for logging

  function FixedUp(base: string, vwd: string, path: string): string {
    if Absolute(path) then CleanPath(PDirCat(base, path)) else RealPathOf(vwd, path, true)
  }

  class CommandNotes {
    var notes: map<string, string>
  }

  /**
    * `vroot_cmd_fixup_path`: rewrites the note, if there is one. `best` is the answer of the core's own
    * best-path function, taken instead of the note when the caller asks for it.
    */
  method FixupPath(vr: VRoot, cmd: CommandNotes, key: string, useBestPath: bool, best: string, vwd: string)
    returns (realPath: Option<string>)
    requires vr.Valid() && '\0' !in vwd && '\0' !in best
    requires key in cmd.notes ==> '\0' !in cmd.notes[key]
    modifies cmd
    ensures key !in old(cmd.notes) ==> realPath == None && cmd.notes == old(cmd.notes)
    ensures key in old(cmd.notes) ==>
      && realPath == Some(FixedUp(vr.Base(), vwd, if useBestPath then best else old(cmd.notes)[key]))
      && cmd.notes == old(cmd.notes)[key := realPath.value]
  {
    if key !in cmd.notes {
      return None;
    }
    var path := if useBestPath then best else cmd.notes[key];
    var text: string;
    if path != "" && path[0] == '/' {
      var base, _ := vr.GetBase();
      text := CleanedString(PDirCat(base, path));
    } else {
      var r := Realpath(true, Some(path), vwd, true);
      HoldsIsUnique(r[..], 0, RealPathOf(vwd, path, true));
      text := StrAt(r[..], 0);
    }
    cmd.notes := cmd.notes[key := text];
    return Some(text);
  }

  /** A relative path is resolved on top of the virtual directory, and the base plays no part. */
  lemma FixupRelative(base: string, vwd: string, path: string)
    requires Absolute(vwd) && !Absolute(path)
    ensures FixedUp(base, vwd, path) == Canonical(Resolve(Norm(vwd), Split(path)))
  {
    RealPathRelative(vwd, path);
  }

  /** Fix-up resolves the segments on top of the base, so ".." can climb into it. */
  lemma FixupExact(base: string, vwd: string, path: string)
    requires NormalBase(base) && Absolute(path)
    ensures FixedUp(base, vwd, path) == Render(Resolve(Norm(base), Split(path)), DirLike(path))
  {
    JoinedText(base, path);
    CleanAppended(base, path[1..]);
    RootedSegments(path, Norm(base));
  }

  lemma JoinedText(base: string, path: string)
    requires NormalBase(base) && Absolute(path)
    ensures PDirCat(base, path) == base + "/" + path[1..]
  {
    assert path == "/" + path[1..];
    assert base + "/" + path[1..] == base + ("/" + path[1..]);
  }

  lemma RootedSegments(path: string, bs: Segments)
    requires Absolute(path)
    ensures Resolve(bs, Split(path)) == Resolve(bs, Split(path[1..]))
    ensures LastSegment(path) == LastSegment(path[1..])
  {
    assert ([""] + Split(path[1..]))[1..] == Split(path[1..]);
  }

  /** What the logged path keeps of the base, and what the path adds to it. */
  lemma FixupKeeps(base: string, vwd: string, path: string)
    requires NormalBase(base) && Absolute(path)
    ensures FixedUp(base, vwd, path) ==
      Render(Sink(Norm(base), ClimbDepth([], Split(path))) + Norm(path), DirLike(path))
  {
    FixupExact(base, vwd, path);
    ResolveOnTop(Norm(base), [], Split(path));
    assert Norm(base) + [] == Norm(base);
  }

  /** The components of the base that the path climbs out of, up to the real root. */
  function Lost(bs: Segments, h: nat): Segments {
    bs[|Sink(bs, h)|..]
  }

  lemma SinkAndLost(bs: Segments, h: nat, cs: Segments)
    ensures bs == Sink(bs, h) + Lost(bs, h)
    ensures bs <= Sink(bs, h) + cs <==> Lost(bs, h) <= cs
    ensures |Lost(bs, h)| == if h <= |bs| then h else |bs|
  {
    var s := Sink(bs, h);
    assert bs == s + bs[|s|..];
    if bs <= s + cs { assert bs[|s|..] == (s + cs)[..|bs|][|s|..] == cs[..|bs| - |s|]; }
    if Lost(bs, h) <= cs { assert (s + cs)[..|bs|] == s + cs[..|bs| - |s|]; }
  }

  /** The logged path of an absolute path ends at or below the base iff the path re-enters all it climbed out of. */
  lemma FixupUnderBaseIff(base: string, vwd: string, path: string)
    requires NormalBase(base) && Absolute(path)
    ensures UnderBase(base, FixedUp(base, vwd, path)) <==>
      Lost(Norm(base), ClimbDepth([], Split(path))) <= Norm(path)
  {
    var bs, h := Norm(base), ClimbDepth([], Split(path));
    FixupKeeps(base, vwd, path);
    NormIsProper(path);
    SinkAndLost(bs, h, Norm(path));
    assert AllProper(Sink(bs, h) + Norm(path));
    RenderUnderBase(base, Sink(bs, h) + Norm(path), DirLike(path));
  }

  /**
    * For every absolute path, the logged path is the path that lookup gives iff the path never climbs and
    * does not lie below the base's own components, or climbs out of the whole base and does.
    */
  lemma FixupAgreesIff(base: string, size: nat, scratch: nat, path: string, cwd: string, vwd: string)
    requires Ready(base, size, scratch) && Absolute(path) && |path| < scratch
    requires LookupPath(base, size, scratch, path, cwd).Found?
    ensures var bs, h := Norm(base), ClimbDepth([], Split(path));
      LookupPath(base, size, scratch, path, cwd).vpath == FixedUp(base, vwd, path) <==>
        if Below(bs, Norm(path), DirLike(path)) then h >= |bs| else h == 0
  {
    LookupAbsolute(base, size, scratch, path, cwd);
    FixupKeeps(base, vwd, path);
    NormIsProper(path);
    if Norm(path) == [] { RootIsDirLike(path); }
    SameTextIff(Norm(base), Norm(path), DirLike(path), ClimbDepth([], Split(path)));
  }

  lemma SameTextIff(bs: Segments, cs: Segments, d: bool, h: nat)
    requires bs != [] && AllProper(bs) && AllProper(cs) && (cs == [] ==> d)
    ensures var c := Within(bs, cs, d);
      Render(bs + c, d || c == []) == Render(Sink(bs, h) + cs, d) <==>
        if Below(bs, cs, d) then h >= |bs| else h == 0
  {
    var c, s := Within(bs, cs, d), Sink(bs, h);
    SinkAndLost(bs, h, cs);
    assert AllProper(s + cs) && AllProper(bs + c);
    NormRender(bs + c, d || c == []);
    NormRender(s + cs, d);
    if Below(bs, cs, d) {
      assert cs == bs + c;
      if h >= |bs| { assert s + cs == cs; }
    } else if h == 0 {
      assert s == bs;
    }
  }

  /** A cleaned absolute path never climbs. */
  lemma CleanedNeverClimbs(path: string)
    requires Absolute(path) && CleanPath(path) == path
    ensures ClimbDepth([], Split(path)) == 0
  {
    CleanRenders(path);
    NormIsProper(path);
    SplitRender(Norm(path), DirLike(path));
    NoParentNoClimb([], Split(path));
  }

  /** "/../x" climbs once: its logged path leaves the base, unless x is the base's last component. */
  lemma FixupClimbsOut(base: string, vwd: string, x: string)
    requires NormalBase(base) && Proper(x)
    ensures UnderBase(base, FixedUp(base, vwd, "/../" + x)) <==> x == Norm(base)[|Norm(base)| - 1]
  {
    var bs, path := Norm(base), "/../" + x;
    ClimbOnce(path, x);
    FixupUnderBaseIff(base, vwd, path);
    assert Lost(bs, 1) == [bs[|bs| - 1]];
  }

  lemma ClimbOnce(path: string, x: string)
    requires path == "/../" + x && Proper(x)
    ensures ClimbDepth([], Split(path)) == 1 && Norm(path) == [x]
  {
    SplitClimb(path, x);
    var one, two := [x], [".."] + [x];
    assert one[1..] == [] && two[1..] == one && ([""] + two)[1..] == two;
    assert ClimbDepth([], one) == ClimbDepth([x], one[1..]) == 0;
    assert Resolve([], one) == Resolve([x], one[1..]) == [x];
    assert ClimbDepth([], two) == 1 + ClimbDepth([], two[1..]);
    assert Resolve([], two) == Resolve([], two[1..]);
  }

  lemma SplitClimb(path: string, x: string)
    requires path == "/../" + x && Proper(x)
    ensures Split(path) == [""] + ([".."] + [x])
  {
    assert path == "" + "/" + (".." + "/" + x);
    SplitConcat("", ".." + "/" + x);
    SplitConcat("..", x);
    SplitPlain("..");
    SplitPlain(x);
  }
}
