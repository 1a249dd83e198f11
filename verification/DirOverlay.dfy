/** Directory listings with the aliased names merged in: the shared globals of `fsio.c` and their lifetimes. */
module DirOverlay {
  import opened CStrings
  import opened Components
  import opened Lookup
  import opened Aliases
  import opened VRootPath
  import opened Fsio
  import opened Links

  type Handle = nat

  /** `vroot_dirtab` and `vroot_dir_aliases`, each with the pool it was allocated from. */
  datatype DirTab = DirTab(pool: nat, entries: map<Handle, string>)
  datatype NameList = NameList(pool: nat, names: seq<string>)

  /** The globals, the pools that have been destroyed, and the number of the next pool. */
  datatype Dirs = Dirs(pool: Option<nat>, tab: Option<DirTab>, list: Option<NameList>, idx: int,
                       freed: set<nat>, nextPool: nat)

  const START: Dirs := Dirs(None, None, None, -1, {}, 0)

  // ----- which names an alias adds to a directory

  /** The rest of an alias path, without a slash at its start. */
  function Relative(rel: string): string {
    if rel != "" && rel[0] == '/' then rel[1..] else rel
  }

  /** `vroot_alias_dirscan` for one alias. */
  function ScanName(dir: string, aliasPath: string, realPath: string): Option<string> {
    if LastSlash(aliasPath) < 0 then None
    else if realPath == dir then None
    else if dir <= aliasPath then
      var name := Relative(aliasPath[|dir|..]);
      var k := FirstSlash(name);
      Some(if k >= 0 then name[..k] else name)
    else None
  }

  /** An order in which the table may hand out its keys. */
  ghost predicate Enumerates(tab: Table, order: seq<string>) {
    && KeysIn(tab, order)
    && (forall k :: k in tab ==> k in order)
    && forall i, j :: 0 <= i < j < |order| ==> order[i] != order[j]
  }

  predicate KeysIn(tab: Table, order: seq<string>) {
    forall i :: 0 <= i < |order| ==> order[i] in tab
  }

  /** All names, in the order in which the table hands out its keys. */
  function ScanAll(dir: string, tab: Table, order: seq<string>): seq<string>
    requires KeysIn(tab, order)
  {
    if order == [] then []
    else
      var n := ScanName(dir, order[0], tab[order[0]]);
      (if n.Some? then [n.value] else []) + ScanAll(dir, tab, order[1..])
  }

  lemma ScanAllStep(dir: string, tab: Table, order: seq<string>, i: nat)
    requires KeysIn(tab, order) && i < |order|
    ensures KeysIn(tab, order[i..]) && KeysIn(tab, order[i + 1..])
    ensures var n := ScanName(dir, order[i], tab[order[i]]);
      ScanAll(dir, tab, order[i..]) == (if n.Some? then [n.value] else []) + ScanAll(dir, tab, order[i + 1..])
  {
    assert order[i..][1..] == order[i + 1..];
  }

  /** The names come in the order of the aliases, one for each alias that adds one. */
  lemma {:induction false} ScanAllInOrder(dir: string, tab: Table, a: seq<string>, b: seq<string>)
    requires KeysIn(tab, a) && KeysIn(tab, b)
    ensures ScanAll(dir, tab, a + b) == ScanAll(dir, tab, a) + ScanAll(dir, tab, b)
    ensures |a| == 1 ==>
      var n := ScanName(dir, a[0], tab[a[0]]);
      ScanAll(dir, tab, a) == if n.Some? then [n.value] else []
    decreases |a|
  {
    if a == [] {
      assert a + b == b;
    } else {
      assert (a + b)[1..] == a[1..] + b;
      ScanAllInOrder(dir, tab, a[1..], b);
    }
  }

  /** A name is listed exactly when some alias adds it. */
  lemma {:induction false} ScanAllMember(dir: string, tab: Table, order: seq<string>, n: string)
    requires KeysIn(tab, order)
    ensures n in ScanAll(dir, tab, order) <==>
      exists i :: 0 <= i < |order| && ScanName(dir, order[i], tab[order[i]]) == Some(n)
  {
    if order != [] {
      var rest := order[1..];
      ScanAllMember(dir, tab, rest, n);
      assert forall i :: 0 <= i < |rest| ==> rest[i] == order[i + 1];
      if exists i :: 0 <= i < |order| && ScanName(dir, order[i], tab[order[i]]) == Some(n) {
        var i :| 0 <= i < |order| && ScanName(dir, order[i], tab[order[i]]) == Some(n);
        if i > 0 { assert rest[i - 1] == order[i]; }
      }
    }
  }

  /** The component below `ds` through which `cs` is reached. */
  function NextComponent(ds: Segments, cs: Segments): Option<string> {
    if ds <= cs && |ds| < |cs| then Some(cs[|ds|]) else None
  }

  lemma RelativeText(j: string, q: string, trail: bool)
    requires q != "" && q[0] != '/'
    ensures var dir, a := j + (if trail then "/" else ""), j + ("/" + q);
      dir <= a && Relative(a[|dir|..]) == q
  {
    var a := j + ("/" + q);
    assert a == (j + "/") + q;
    assert j + "" == j;
    assert a[|j|..] == "/" + q && a[|j| + 1..] == q;
  }

  /** Below a rendered directory, the text after it and one slash starts with the next component. */
  lemma NextAfterDirectory(ds: Segments, rest: Segments, t: bool, u: bool)
    requires AllProper(ds) && AllProper(rest) && rest != []
    ensures var dir, a := Render(ds, t), Render(ds + rest, u);
      dir <= a && Split(Relative(a[|dir|..]))[0] == rest[0]
  {
    var r := Render(rest, u);
    RenderStartsWithSlash(rest, u);
    RenderTail(rest, u);
    FirstSegment(r[1..]);
    assert r == "/" + r[1..];
    JoinThenRender(ds, rest, u);
    RelativeText(Join(ds), r[1..], t || ds == []);
  }

  lemma JoinThenRender(ds: Segments, rest: Segments, u: bool)
    requires rest != []
    ensures Render(ds + rest, u) == Join(ds) + Render(rest, u)
  {
    JoinConcat(ds, rest);
    var t := if u then "/" else "";
    assert Join(ds) + Join(rest) + t == Join(ds) + (Join(rest) + t);
  }

  /**
    * An alias adds the next component on the way to it when it lies strictly below the directory, and
    * nothing otherwise, except when the directory is only a textual prefix of it.
    */
  lemma ScanNameIff(ds: Segments, t: bool, cs: Segments, u: bool, realPath: string)
    requires AllProper(ds) && AllProper(cs)
    ensures var dir, a := Render(ds, t), Render(cs, u);
      ScanName(dir, a, realPath) == (if realPath == dir then None else NextComponent(ds, cs)) <==>
        !(realPath != dir && dir <= a && NextComponent(ds, cs) == None)
  {
    var dir, a := Render(ds, t), Render(cs, u);
    RenderStartsWithSlash(cs, u);
    if ds <= cs && |ds| < |cs| {
      var rest := cs[|ds|..];
      assert ds + rest == cs;
      NextAfterDirectory(ds, rest, t, u);
      FirstSegment(Relative(a[|dir|..]));
    }
  }

  /** An alias written as the directory itself, with another source, adds the empty name. */
  lemma OwnNameIsEmpty(ds: Segments, t: bool, realPath: string)
    requires AllProper(ds) && realPath != Render(ds, t)
    ensures ScanName(Render(ds, t), Render(ds, t), realPath) == Some("")
    ensures NextComponent(ds, ds) == None
  {
    var dir := Render(ds, t);
    RenderStartsWithSlash(ds, t);
    assert dir[0] == '/' && dir[|dir|..] == "";
  }

  /** The components of a sibling whose name is the directory's, followed by more letters. */
  function Lengthened(ds: Segments, letters: string): Segments
    requires ds != []
  {
    ds[..|ds| - 1] + [ds[|ds| - 1] + letters]
  }

  /** Such a prefix: the sibling is no part of the directory, but the letters are listed there. */
  lemma TextualPrefixIsListed(ds: Segments, letters: string, realPath: string)
    requires AllProper(ds) && ds != [] && letters != "" && '/' !in letters && realPath != Render(ds, false)
    ensures NextComponent(ds, Lengthened(ds, letters)) == None
    ensures ScanName(Render(ds, false), Render(Lengthened(ds, letters), false), realPath) == Some(letters)
  {
    var dir, a := Render(ds, false), Render(Lengthened(ds, letters), false);
    LengthenedText(ds, letters);
    assert a[|dir|..] == letters && dir <= a;
    RenderStartsWithSlash(ds, false);
    assert a[0] == '/';
  }

  lemma LengthenedText(ds: Segments, letters: string)
    requires ds != []
    ensures Render(Lengthened(ds, letters), false) == Render(ds, false) + letters
  {
    var front, x, cs := ds[..|ds| - 1], ds[|ds| - 1], Lengthened(ds, letters);
    assert cs[..|cs| - 1] == front && cs[|cs| - 1] == x + letters;
    assert Join(front) + "/" + (x + letters) == Join(front) + "/" + x + letters;
    assert Join(cs) + "" == Join(cs) && Join(ds) + "" == Join(ds);
  }

  /** The alias is written as a normal path, and the directory is not merely a textual prefix of it. */
  ghost predicate ScansWell(ds: Segments, t: bool, key: string, source: string) {
    && Normal(key)
    && (source != Render(ds, t) && Render(ds, t) <= key ==> NextComponent(ds, Norm(key)).Some?)
  }

  /** The alias shows up in the directory under this name. */
  ghost predicate ShowsAs(ds: Segments, t: bool, key: string, source: string, n: string) {
    source != Render(ds, t) && NextComponent(ds, Norm(key)) == Some(n)
  }

  lemma ScansWellShows(ds: Segments, t: bool, key: string, source: string, n: string)
    requires AllProper(ds) && ScansWell(ds, t, key, source)
    ensures ScanName(Render(ds, t), key, source) == Some(n) <==> ShowsAs(ds, t, key, source, n)
  {
    NormIsProper(key);
    ScanNameIff(ds, t, Norm(key), DirLike(key), source);
  }

  /** The listed names are exactly the next components, when no directory is only a textual prefix. */
  lemma OverlayNamesExact(ds: Segments, t: bool, tab: Table, order: seq<string>, n: string)
    requires AllProper(ds) && Enumerates(tab, order)
    requires forall k :: k in tab ==> ScansWell(ds, t, k, tab[k])
    ensures n in ScanAll(Render(ds, t), tab, order) <==> exists k :: k in tab && ShowsAs(ds, t, k, tab[k], n)
  {
    ScanAllMember(Render(ds, t), tab, order, n);
    forall k | k in tab
      ensures ScanName(Render(ds, t), k, tab[k]) == Some(n) <==> ShowsAs(ds, t, k, tab[k], n)
    {
      ScansWellShows(ds, t, k, tab[k], n);
    }
    if n in ScanAll(Render(ds, t), tab, order) {
      var i :| 0 <= i < |order| && ScanName(Render(ds, t), order[i], tab[order[i]]) == Some(n);
      assert order[i] in tab;
    }
    if k :| k in tab && ShowsAs(ds, t, k, tab[k], n) {
      var i :| 0 <= i < |order| && order[i] == k;
    }
  }

  // ----- one step on the globals

  /** A table in a new pool, when there is none. */
  function MakeTable(d: Dirs): (r: Dirs)
    ensures r.tab.Some?
  {
    if d.tab.Some? then d
    else d.(pool := Some(d.nextPool), tab := Some(DirTab(d.nextPool, map[])), nextPool := d.nextPool + 1)
  }

  /** The handle put into the table, and the list made anew; a key that is present stays, and so does the list. */
  function Enter(d: Dirs, h: Handle, vpath: string, tab: Table, order: seq<string>): Dirs
    requires d.tab.Some? && KeysIn(tab, order)
  {
    if h in d.tab.value.entries then d
    else
      var p := if d.pool.Some? then d.pool.value else 0;
      d.(tab := Some(DirTab(d.tab.value.pool, d.tab.value.entries[h := vpath])),
         list := Some(NameList(p, ScanAll(vpath, tab, order))),
         idx := 0)
  }

  /** `opendir` once the directory is open: nothing is tracked while there are no aliases. */
  function OpenStep(d: Dirs, h: Handle, vpath: string, tab: Table, order: seq<string>): Dirs
    requires KeysIn(tab, order)
  {
    if |tab| == 0 then d else Enter(MakeTable(d), h, vpath, tab, order)
  }

  /** `closedir`: the pool goes when the table is empty, and everything allocated from it. */
  function CloseStep(d: Dirs, h: Handle): Dirs {
    if d.tab == None then d
    else
      var entries := d.tab.value.entries - {h};
      if entries == map[] then
        Dirs(None, None, None, -1, d.freed + (if d.pool.Some? then {d.pool.value} else {}), d.nextPool)
      else d.(tab := Some(DirTab(d.tab.value.pool, entries)))
  }

  /** One `readdir`: what is returned, the real entries left, and the overlay index after it. */
  function ReadStep(dents: seq<string>, list: Option<seq<string>>, idx: int, nameSz: nat)
    : (Option<string>, seq<string>, int)
    requires nameSz > 0
    decreases |dents|
  {
    if dents == [] then
      if list == None || idx < 0 || idx >= |list.value| then (None, [], idx)
      else (Some(Bounded(list.value[idx], nameSz)), [], idx + 1)
    else if list.Some? && dents[0] in list.value then ReadStep(dents[1..], list, idx, nameSz)
    else (Some(dents[0]), dents[1..], idx)
  }

  // ----- the merged listing

  /** The index is inside the list, if there is one. */
  predicate IndexFits(list: Option<seq<string>>, idx: int) {
    list.Some? ==> 0 <= idx <= |list.value|
  }

  /** How much there is still to read. */
  function Remaining(dents: seq<string>, list: Option<seq<string>>, idx: int): nat
    requires IndexFits(list, idx)
  {
    |dents| + if list.Some? then |list.value| - idx else 0
  }

  /** Everything read before the first NULL. */
  function ReadAll(dents: seq<string>, list: Option<seq<string>>, idx: int, nameSz: nat): seq<string>
    requires nameSz > 0 && IndexFits(list, idx)
    decreases Remaining(dents, list, idx)
  {
    ReadStepShrinks(dents, list, idx, nameSz);
    var (n, dents', idx') := ReadStep(dents, list, idx, nameSz);
    if n == None then [] else [n.value] + ReadAll(dents', list, idx', nameSz)
  }

  lemma ReadStepShrinks(dents: seq<string>, list: Option<seq<string>>, idx: int, nameSz: nat)
    requires nameSz > 0 && IndexFits(list, idx)
    ensures var (n, dents', idx') := ReadStep(dents, list, idx, nameSz);
      && IndexFits(list, idx')
      && (n.Some? ==> Remaining(dents', list, idx') < Remaining(dents, list, idx))
    decreases |dents|
  {
    if dents != [] && list.Some? && dents[0] in list.value { ReadStepShrinks(dents[1..], list, idx, nameSz); }
  }

  function Unaliased(dents: seq<string>, names: seq<string>): seq<string> {
    if dents == [] then []
    else (if dents[0] in names then [] else [dents[0]]) + Unaliased(dents[1..], names)
  }

  /** The names as they are shown: as much of each as fits in `d_name`. */
  function Shown(names: seq<string>, nameSz: nat): seq<string>
    requires nameSz > 0
  {
    seq(|names|, i requires 0 <= i < |names| =>
      if |names[i]| < nameSz then names[i] else names[i][..nameSz - 1])
  }

  /** A listing is the real entries that no alias hides, in order, then the aliases, in order. */
  lemma {:induction false} ListingIsMerge(dents: seq<string>, names: seq<string>, idx: nat, nameSz: nat)
    requires nameSz > 0 && idx <= |names|
    ensures ReadAll(dents, Some(names), idx, nameSz) == Unaliased(dents, names) + Shown(names[idx..], nameSz)
    decreases |dents| + |names| - idx
  {
    if dents != [] {
      ListingIsMerge(dents[1..], names, idx, nameSz);
      if dents[0] in names {
        assert ReadAll(dents, Some(names), idx, nameSz) == ReadAll(dents[1..], Some(names), idx, nameSz);
      }
    } else if idx < |names| {
      ListingIsMerge([], names, idx + 1, nameSz);
      assert names[idx..] == [names[idx]] + names[idx + 1..];
      assert Shown(names[idx..], nameSz) == Shown([names[idx]], nameSz) + Shown(names[idx + 1..], nameSz);
    }
  }

  /** Without an overlay list, a listing is the real entries, all of them, in order. */
  lemma {:induction false} ListingIsPlain(dents: seq<string>, idx: int, nameSz: nat)
    requires nameSz > 0
    ensures ReadAll(dents, None, idx, nameSz) == dents
    decreases |dents|
  {
    if dents != [] { ListingIsPlain(dents[1..], idx, nameSz); }
  }

  /** The listing of a directory just opened, the last one to be tracked. */
  lemma OpenedListing(d: Dirs, h: Handle, vpath: string, tab: Table, order: seq<string>,
                      dents: seq<string>, nameSz: nat)
    requires nameSz > 0 && |tab| > 0 && KeysIn(tab, order)
    requires d.tab.Some? ==> h !in d.tab.value.entries
    ensures var names, d' := ScanAll(vpath, tab, order), OpenStep(d, h, vpath, tab, order);
      && Names(d') == Some(names) && d'.idx == 0
      && ReadAll(dents, Names(d'), d'.idx, nameSz) == Unaliased(dents, names) + Shown(names, nameSz)
  {
    ListingIsMerge(dents, ScanAll(vpath, tab, order), 0, nameSz);
    assert ScanAll(vpath, tab, order)[0..] == ScanAll(vpath, tab, order);
  }

  /** The listing of a directory opened without aliases while none is tracked: the real entries. */
  lemma OpenedPlain(s: History, h: Handle, vpath: string, tab: Table, order: seq<string>,
                    dents: seq<string>, nameSz: nat)
    requires nameSz > 0 && Inv(s) && s.tracked == map[] && tab == map[] && order == []
    ensures var d' := OpenStep(s.dirs, h, vpath, tab, order);
      Names(d') == None && ReadAll(dents, Names(d'), d'.idx, nameSz) == dents
  {
    ListingIsPlain(dents, OpenStep(s.dirs, h, vpath, tab, order).idx, nameSz);
  }

  /** Once NULL has been returned it is returned again, and nothing changes. */
  lemma {:induction false} NullPersists(dents: seq<string>, list: Option<seq<string>>, idx: int, nameSz: nat)
    requires nameSz > 0 && ReadStep(dents, list, idx, nameSz).0 == None
    ensures var (_, dents', idx') := ReadStep(dents, list, idx, nameSz);
      dents' == [] && idx' == idx && ReadStep(dents', list, idx', nameSz) == (None, [], idx)
    decreases |dents|
  {
    if dents != [] { NullPersists(dents[1..], list, idx, nameSz); }
  }

  // ----- safety over whole runs

  datatype Event =
    | Open(h: Handle, vpath: string, tab: Table, order: seq<string>)
    | Close(h: Handle)
    | Read(h: Handle, dents: seq<string>)

  /**
    * The state, the handles the system has open, those opened while there were aliases with the paths opened,
    * and the names found for the last of these.
    */
  datatype History = History(dirs: Dirs, open: set<Handle>, tracked: map<Handle, string>, last: seq<string>)

  ghost predicate Legal(s: History, e: Event) {
    match e
    case Open(h, _, tab, order) => h !in s.open && Enumerates(tab, order)
    case Close(h) => h in s.open
    case Read(h, _) => h in s.open
  }

  ghost function Step(s: History, e: Event, nameSz: nat): History
    requires Legal(s, e) && nameSz > 0
  {
    match e
    case Open(h, vpath, tab, order) =>
      var d := OpenStep(s.dirs, h, vpath, tab, order);
      if |tab| == 0 then History(d, s.open + {h}, s.tracked, s.last)
      else History(d, s.open + {h}, s.tracked[h := vpath], ScanAll(vpath, tab, order))
    case Close(h) =>
      History(CloseStep(s.dirs, h), s.open - {h}, s.tracked - {h}, s.last)
    case Read(_, dents) =>
      s.(dirs := s.dirs.(idx := ReadStep(dents, Names(s.dirs), s.dirs.idx, nameSz).2))
  }

  function Names(d: Dirs): Option<seq<string>> {
    if d.list.Some? then Some(d.list.value.names) else None
  }

  /** The pools a step reads from: the table's, on open and close; the list's, on read. */
  function PoolsRead(d: Dirs, e: Event): set<nat> {
    match e
    case Open(_, _, tab, _) =>
      if |tab| > 0 && d.tab.Some? then {d.tab.value.pool} + (if d.pool.Some? then {d.pool.value} else {}) else {}
    case Close(_) => if d.tab.Some? then {d.tab.value.pool} else {}
    case Read(_, _) => if d.list.Some? then {d.list.value.pool} else {}
  }

  /**
    * The table holds the tracked handles and their paths, the list the names of the last; table, list and index
    * are set exactly while there are any. Every pool ever made is the one in use or destroyed, so none is lost.
    */
  ghost predicate Inv(s: History) {
    var d := s.dirs;
    && s.tracked.Keys <= s.open
    && (d.tab.Some? <==> s.tracked != map[])
    && (d.list.Some? <==> s.tracked != map[])
    && (d.idx >= 0 <==> s.tracked != map[])
    && (d.pool.Some? <==> s.tracked != map[])
    && (d.tab.Some? ==> d.tab.value.entries == s.tracked)
    && (d.list.Some? ==> d.list.value.names == s.last)
    && (d.tab.Some? ==> d.pool.Some? && d.list.Some? && d.tab.value.pool == d.list.value.pool == d.pool.value)
    && (d.pool.Some? ==> d.pool.value !in d.freed && d.pool.value < d.nextPool)
    && (forall p :: p in d.freed ==> p < d.nextPool)
    && (forall p :: 0 <= p < d.nextPool ==> p in d.freed || d.pool == Some(p))
  }

  lemma ReadKeepsIndex(dents: seq<string>, list: Option<seq<string>>, idx: int, nameSz: nat)
    requires nameSz > 0
    ensures ReadStep(dents, list, idx, nameSz).2 >= 0 <==> idx >= 0
    decreases |dents|
  {
    if dents != [] && list.Some? && dents[0] in list.value { ReadKeepsIndex(dents[1..], list, idx, nameSz); }
  }

  lemma OpenKeepsInv(s: History, h: Handle, vpath: string, tab: Table, order: seq<string>, nameSz: nat)
    requires Inv(s) && Legal(s, Open(h, vpath, tab, order)) && nameSz > 0 && |tab| > 0
    ensures Inv(Step(s, Open(h, vpath, tab, order), nameSz))
  {
    var s' := Step(s, Open(h, vpath, tab, order), nameSz);
    assert h !in s.tracked && s'.tracked[h] == vpath;
    if s.tracked == map[] { assert s'.dirs.tab.value.entries == map[h := vpath]; }
  }

  lemma CloseKeepsInv(s: History, h: Handle, nameSz: nat)
    requires Inv(s) && Legal(s, Close(h)) && nameSz > 0
    ensures Inv(Step(s, Close(h), nameSz))
  {
    if s.dirs.tab == None { assert s.tracked - {h} == map[]; }
  }

  /** Closing one of several tracked handles leaves the place reached in the list. */
  lemma CloseKeepsPlace(s: History, h: Handle, nameSz: nat)
    requires Inv(s) && Legal(s, Close(h)) && nameSz > 0 && s.tracked - {h} != map[]
    ensures var d, d' := s.dirs, Step(s, Close(h), nameSz).dirs;
      && d'.idx == d.idx && d'.pool == d.pool && d'.freed == d.freed && d'.list == d.list
  {
    assert s.tracked != map[];
  }

  /** When the last tracked handle is closed, every pool ever made has been destroyed. */
  lemma LastCloseFreesAll(s: History, h: Handle, nameSz: nat)
    requires Inv(s) && Legal(s, Close(h)) && nameSz > 0 && s.tracked - {h} == map[]
    ensures var d' := Step(s, Close(h), nameSz).dirs;
      && d'.pool == None && d'.tab == None && d'.list == None && d'.idx < 0
      && d'.nextPool == s.dirs.nextPool && forall p :: 0 <= p < d'.nextPool ==> p in d'.freed
  {
    CloseKeepsInv(s, h, nameSz);
  }

  lemma StepKeepsInv(s: History, e: Event, nameSz: nat)
    requires Inv(s) && Legal(s, e) && nameSz > 0
    ensures Inv(Step(s, e, nameSz))
    ensures PoolsRead(s.dirs, e) !! s.dirs.freed
  {
    match e
    case Open(h, vpath, tab, order) =>
      if |tab| > 0 {
        OpenKeepsInv(s, h, vpath, tab, order, nameSz);
      }
    case Close(h) =>
      CloseKeepsInv(s, h, nameSz);
    case Read(_, dents) =>
      ReadKeepsIndex(dents, Names(s.dirs), s.dirs.idx, nameSz);
  }

  /** Every event of the run is legal where it happens. */
  ghost predicate LegalRun(s: History, run: seq<Event>, nameSz: nat)
    requires nameSz > 0
    decreases |run|
  {
    run == [] || (Legal(s, run[0]) && LegalRun(Step(s, run[0], nameSz), run[1..], nameSz))
  }

  ghost function Run(s: History, run: seq<Event>, nameSz: nat): History
    requires nameSz > 0 && LegalRun(s, run, nameSz)
    decreases |run|
  {
    if run == [] then s else Run(Step(s, run[0], nameSz), run[1..], nameSz)
  }

  /** No event of the run reads from a pool that has been destroyed. */
  ghost predicate SafeRun(s: History, run: seq<Event>, nameSz: nat)
    requires nameSz > 0 && LegalRun(s, run, nameSz)
    decreases |run|
  {
    run == [] || (PoolsRead(s.dirs, run[0]) !! s.dirs.freed && SafeRun(Step(s, run[0], nameSz), run[1..], nameSz))
  }

  lemma {:induction false} RunIsSafe(s: History, run: seq<Event>, nameSz: nat)
    requires nameSz > 0 && Inv(s) && LegalRun(s, run, nameSz)
    ensures Inv(Run(s, run, nameSz)) && SafeRun(s, run, nameSz)
    decreases |run|
  {
    if run != [] {
      StepKeepsInv(s, run[0], nameSz);
      RunIsSafe(Step(s, run[0], nameSz), run[1..], nameSz);
    }
  }

  /** From the initial globals, any interleaving of opens, reads and closes is safe. */
  lemma EveryRunIsSafe(run: seq<Event>, nameSz: nat)
    requires nameSz > 0 && LegalRun(History(START, {}, map[], []), run, nameSz)
    ensures Inv(Run(History(START, {}, map[], []), run, nameSz)) && SafeRun(History(START, {}, map[], []), run, nameSz)
  {
    RunIsSafe(History(START, {}, map[], []), run, nameSz);
  }

  // ----- the globals, updated in place

  class Overlay {
    const nameSz: nat
    var vrootDirPool: Option<nat>
    var vrootDirtab: Option<DirTab>
    var vrootDirAliases: Option<NameList>
    var vrootDirIdx: int
    var nextPool: nat
    /** The entries each open system stream has still to give. */
    var streams: map<Handle, seq<string>>
    ghost var freedPools: set<nat>
    ghost var tracked: map<Handle, string>
    ghost var last: seq<string>

    ghost function State(): Dirs
      reads this
    {
      Dirs(vrootDirPool, vrootDirtab, vrootDirAliases, vrootDirIdx, freedPools, nextPool)
    }

    ghost predicate Valid()
      reads this
    {
      nameSz > 0 && Inv(History(State(), streams.Keys, tracked, last))
    }

    constructor (nameSz: nat)
      requires nameSz > 0
      ensures Valid() && this.nameSz == nameSz && State() == START && streams == map[] && tracked == map[]
    {
      this.nameSz := nameSz;
      vrootDirPool, vrootDirtab, vrootDirAliases, vrootDirIdx := None, None, None, -1;
      freedPools, nextPool, streams, tracked, last := {}, 0, map[], map[], [];
    }

    // Every access to pool memory goes through one of these three, so it is made while the pool is alive.

    function LivePool(): nat
      reads this
      requires vrootDirPool.Some? && vrootDirPool.value !in freedPools
    {
      vrootDirPool.value
    }

    function TableEntries(): map<Handle, string>
      reads this
      requires vrootDirtab.Some? && vrootDirtab.value.pool !in freedPools
    {
      vrootDirtab.value.entries
    }

    function ListedNames(): seq<string>
      reads this
      requires vrootDirAliases.Some? && vrootDirAliases.value.pool !in freedPools
    {
      vrootDirAliases.value.names
    }

    /** `vroot_alias_do` with `vroot_alias_dirscan`: the names pushed in table order. */
    method DirScan(dir: string, aliases: AliasTable, order: seq<string>) returns (names: seq<string>)
      requires KeysIn(aliases.Entries(), order)
      ensures names == ScanAll(dir, aliases.Entries(), order)
    {
      names := [];
      var i := 0;
      while i < |order|
        invariant i <= |order|
        invariant names + ScanAll(dir, aliases.Entries(), order[i..]) == ScanAll(dir, aliases.Entries(), order)
      {
        var source := aliases.Get(Some(order[i]));
        var n := ScanName(dir, order[i], source.value);
        ScanAllStep(dir, aliases.Entries(), order, i);
        ghost var rest := ScanAll(dir, aliases.Entries(), order[i + 1..]);
        if n.Some? {
          assert names + ([n.value] + rest) == names + [n.value] + rest;
          names := names + [n.value];
        } else {
          assert [] + rest == rest;
        }
        i := i + 1;
      }
    }

    /** The table, allocated with its pool when there is none. */
    method EnsureTable()
      requires Valid()
      modifies this`vrootDirPool, this`vrootDirtab, this`nextPool
      ensures vrootDirtab.Some? && vrootDirPool == Some(vrootDirtab.value.pool) && vrootDirPool.value !in freedPools
      ensures State() == MakeTable(old(State()))
    {
      if vrootDirtab == None {
        vrootDirPool := Some(nextPool);
        vrootDirtab := Some(DirTab(nextPool, map[]));
        nextPool := nextPool + 1;
      }
    }

    /** Adds the handle to the table and makes the overlay list of its directory; a key that is present stays. */
    method Stash(dirh: Handle, vpath: string, aliases: AliasTable, order: seq<string>)
      requires vrootDirtab.Some? && vrootDirPool == Some(vrootDirtab.value.pool) && vrootDirPool.value !in freedPools
      requires KeysIn(aliases.Entries(), order)
      modifies this`vrootDirtab, this`vrootDirAliases, this`vrootDirIdx
      ensures State() == Enter(old(State()), dirh, vpath, aliases.Entries(), order)
    {
      if dirh !in TableEntries() {
        vrootDirtab := Some(DirTab(LivePool(), TableEntries()[dirh := vpath]));
        var names := DirScan(vpath, aliases, order);
        vrootDirAliases := Some(NameList(LivePool(), names));
        vrootDirIdx := 0;
      }
    }

    /** The part of `opendir` after the system call has given a handle. */
    method Track(dirh: Handle, vpath: string, aliases: AliasTable, order: seq<string>)
      requires Valid() && dirh in streams && dirh !in tracked && Enumerates(aliases.Entries(), order)
      modifies this`vrootDirPool, this`vrootDirtab, this`vrootDirAliases, this`vrootDirIdx, this`nextPool,
        this`tracked, this`last
      ensures Valid()
      ensures State() == OpenStep(old(State()), dirh, vpath, aliases.Entries(), order)
    {
      var aliasCount := aliases.Count();
      if aliasCount > 0 {
        TrackAliased(dirh, vpath, aliases, order);
      }
    }

    method TrackAliased(dirh: Handle, vpath: string, aliases: AliasTable, order: seq<string>)
      requires Valid() && dirh in streams && dirh !in tracked && Enumerates(aliases.Entries(), order)
      requires |aliases.Entries()| > 0
      modifies this`vrootDirPool, this`vrootDirtab, this`vrootDirAliases, this`vrootDirIdx, this`nextPool,
        this`tracked, this`last
      ensures Valid()
      ensures State() == OpenStep(old(State()), dirh, vpath, aliases.Entries(), order)
    {
      ghost var s, tab := History(State(), streams.Keys - {dirh}, tracked, last), aliases.Entries();
      OpenKeepsInv(s, dirh, vpath, tab, order, nameSz);
      EnsureTable();
      Stash(dirh, vpath, aliases, order);
      assert State() == OpenStep(s.dirs, dirh, vpath, tab, order);
      tracked, last := tracked[dirh := vpath], ScanAll(vpath, tab, order);
      assert streams.Keys - {dirh} + {dirh} == streams.Keys;
    }

    /**
      * `opendir`: `links` are the texts the system gives in turn while the path is a link, `given` is the handle
      * it returns for the path opened, one not open already, with its entries, or None when it fails.
      */
    method Opendir(vr: VRoot, passThrough: bool, path: string, order: seq<string>, vwd: string,
                   links: seq<string>, given: Option<(Handle, seq<string>)>)
      returns (call: SysCall, dirh: Option<Handle>)
      requires Valid() && (given.Some? ==> given.value.0 !in streams)
      requires vr.Valid() && '\0' !in path && '\0' !in vwd && vr.vrootBaseLen < vr.pathMax
      requires forall i :: 0 <= i < |links| ==> '\0' !in links[i]
      requires Enumerates(vr.aliases.Entries(), order)
      modifies this
      ensures Valid()
      ensures passThrough || vr.Base() == "" ==> call == Call(path) && State() == old(State())
      ensures !(passThrough || vr.Base() == "") ==>
        var e := View(vr.Base(), vr.pathMax, vr.aliases.Entries(), vr.cwd, vwd);
        && call == OpenTarget(e, path, links)
        && State() == if call.Call? && given.Some?
                      then OpenStep(old(State()), given.value.0, call.arg, vr.aliases.Entries(), order)
                      else old(State())
      ensures dirh == if call.Call? && given.Some? then Some(given.value.0) else None
      ensures streams == if dirh.Some? then old(streams)[dirh.value := given.value.1] else old(streams)
    {
      var haveBase := vr.HaveBase();
      if passThrough || !haveBase {
        call := Call(path);
      } else {
        call := OpenPath(vr, path, vwd, links, View(vr.Base(), vr.pathMax, vr.aliases.Entries(), vr.cwd, vwd));
      }
      dirh := OpenStream(vr, !passThrough && haveBase, call, order, given);
    }

    /** The part of `opendir` from the system call on. */
    method OpenStream(vr: VRoot, active: bool, call: SysCall, order: seq<string>,
                      given: Option<(Handle, seq<string>)>)
      returns (dirh: Option<Handle>)
      requires Valid() && (given.Some? ==> given.value.0 !in streams)
      requires Enumerates(vr.aliases.Entries(), order)
      modifies this
      ensures Valid()
      ensures State() == if active && call.Call? && given.Some?
                         then OpenStep(old(State()), given.value.0, call.arg, vr.aliases.Entries(), order)
                         else old(State())
      ensures dirh == if call.Call? && given.Some? then Some(given.value.0) else None
      ensures streams == if dirh.Some? then old(streams)[dirh.value := given.value.1] else old(streams)
    {
      dirh := None;
      if call.Call? && given.Some? {
        dirh := Some(given.value.0);
        Opened(vr, active, given.value.0, given.value.1, call.arg, order);
      }
    }

    /** The stream is open; the handle is tracked unless the call was passed through. */
    method Opened(vr: VRoot, active: bool, dirh: Handle, dents: seq<string>, target: string, order: seq<string>)
      requires Valid() && dirh !in streams && Enumerates(vr.aliases.Entries(), order)
      modifies this
      ensures Valid() && streams == old(streams)[dirh := dents]
      ensures State() ==
        if active then OpenStep(old(State()), dirh, target, vr.aliases.Entries(), order) else old(State())
    {
      ghost var before := streams.Keys;
      streams := streams[dirh := dents];
      assert streams.Keys == before + {dirh};
      if active {
        Track(dirh, target, vr.aliases, order);
      }
    }

    /** `readdir`, with its jump back to the next entry. */
    method Readdir(dirh: Handle) returns (dent: Option<string>)
      requires Valid() && dirh in streams
      modifies this`streams, this`vrootDirIdx
      ensures Valid()
      ensures var (n, dents, idx) := ReadStep(old(streams)[dirh], Names(old(State())), old(vrootDirIdx), nameSz);
        dent == n && streams == old(streams)[dirh := dents] && vrootDirIdx == idx
    {
      ghost var goal := ReadStep(streams[dirh], Names(State()), vrootDirIdx, nameSz);
      StepKeepsInv(History(State(), streams.Keys, tracked, last), Read(dirh, streams[dirh]), nameSz);
      while true
        invariant dirh in streams && streams.Keys == old(streams).Keys
        invariant ReadStep(streams[dirh], Names(State()), vrootDirIdx, nameSz) == goal
        invariant streams == old(streams)[dirh := streams[dirh]] && vrootDirIdx == old(vrootDirIdx)
        decreases |streams[dirh]|
      {
        if streams[dirh] == [] {
          dent := None;
        } else {
          dent := Some(streams[dirh][0]);
          streams := streams[dirh := streams[dirh][1..]];
        }
        if vrootDirAliases.Some? {
          var elts := ListedNames();
          if dent.Some? {
            if dent.value in elts {
              continue;
            }
          } else {
            if vrootDirIdx < 0 || vrootDirIdx >= |elts| {
              return None;
            }
            dent := Some(Bounded(elts[vrootDirIdx], nameSz));
            vrootDirIdx := vrootDirIdx + 1;
          }
        }
        return dent;
      }
    }

    /** The part of `closedir` after the system call: the pool goes with the last entry. */
    method Untrack(dirh: Handle)
      requires vrootDirtab.Some? ==>
        vrootDirPool == Some(vrootDirtab.value.pool) && vrootDirPool.value !in freedPools
      modifies this`vrootDirPool, this`vrootDirtab, this`vrootDirAliases, this`vrootDirIdx, this`freedPools
      ensures State() == CloseStep(old(State()), dirh)
    {
      if vrootDirtab.Some? {
        var entries := TableEntries() - {dirh};
        vrootDirtab := Some(DirTab(LivePool(), entries));
        if |entries| == 0 {
          freedPools := freedPools + {LivePool()};
          vrootDirPool, vrootDirtab, vrootDirAliases, vrootDirIdx := None, None, None, -1;
        }
      }
    }

    /** `closedir`. */
    method Closedir(dirh: Handle)
      requires Valid() && dirh in streams
      modifies this
      ensures Valid()
      ensures State() == CloseStep(old(State()), dirh)
      ensures streams == old(streams) - {dirh}
    {
      StepKeepsInv(History(State(), streams.Keys, tracked, last), Close(dirh), nameSz);
      ghost var open := streams.Keys;
      streams := streams - {dirh};
      assert streams.Keys == open - {dirh};
      Untrack(dirh);
      tracked := tracked - {dirh};
    }
  }
}
