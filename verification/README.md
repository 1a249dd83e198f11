# mod_vroot: virtual-root path mapping

mod_vroot gives each FTP session a virtual root: every path a client sends is cleaned, placed under a
base directory, and perhaps redirected by an alias, all by editing C strings in place. This project models
that code and proves what the mapping means.

There are three layers.

- **Memory.** `CStrings`, `CleanBuffer`, `VRootPath` and the search in `Aliases` work on character arrays
  with terminators, as the C code does: overlapping copies, pointer scans, planted terminators, fixed buffer sizes.
- **Strings.** `Clean`, `Lookup` and `Aliases` give each piece of code as a function of strings, phase by phase
  and branch by branch. The array methods are proved equal to these functions, on every input.
- **Components.** `Components` is the reference meaning: a path is split at slashes, "" and "." are skipped,
  ".." pops a stack and does nothing at the root. `CleanAbsolute`, `Lookup`, `RealPath`, `AliasMeaning`,
  `Fsio`, `ModVroot` and `DirOverlay` relate the string functions to this meaning; `SegmentText` and
  `CleanSegments` hold cleaning to a reference on raw segments, and `CleanRelative` says what it does to relative paths,
  whose meaning it does not keep.

Terms: a *base* is normal if it has at least one component, each after one slash, and no final slash
(`Lookup.NormalBase`; `Lookup.NormalBaseIff` says it in terms of cleaning). `Ready` adds that the vpath buffer holds
the base, a slash and a terminator. `Render(cs, d)` is the text of components `cs`, with a final slash if `d` or if
there are none; such text is *normal*. `Norm(s)` is the resolved components of `s`; `DirLike(s)` says that the last
raw segment is "", "." or "..". The sizes of the buffers are parameters (`pathMax` is `PR_TUNABLE_PATH_MAX`). The
*place* of some components (`Fsio.Relocated`) is the base's components and then these, less one leading copy of the
base's. In a cleaned path, the *lead* is the leading "../" that cleaning steps over, and `BeforeDots(s)` is the text
after it as the last phases find it, when "//", "/./" and "/../" are gone. `ClimbDepth([], segs)` is how many levels
above its start a path climbs; `Lost(bs, h)` is the last `h` components of `bs`, or all of them.

## What the code does that its description does not say

- A bare `..` is not confined: cleaning turns it into `.`, and its lookup is `/` (`Lookup.BareParentEscapes`). Results
  lie at or below the base exactly when the cleaned text is *anchored*, starting with `/` or a `..` component, or when
  its own components begin with the base's (`Lookup.UnderBaseIff`).
- Cleaning a relative path is not idempotent on exactly three shapes of `BeforeDots`
  (`CleanRelative.CleanIdempotentIff`): "./c." is cleaned to "c." and that to "c"; "../c." uncovered by cancelling, as
  in "a/../../c.", loses its dot the second time; and a lead followed by a name and "..", as in "../c/..", is cleaned
  to "..//". The last is the one way to a doubled slash (`CleanRelative.CleanNoDoubleIff`).
- A path that ends in a name keeps it unless `BeforeDots` is one character and a dot, as in "a.": then the dot is lost
  (`CleanRelative.FinalNameIff`).
- Deleting is refused exactly when the lookup is an alias. The source of an alias, in whatever spelling, is reached
  all the same by exactly these other lookups: an alias and a slash; a path under no alias that names the source; a
  path under one alias whose source leads down to another source; and, when source and rest do not fit, a path cut off
  where nothing is kept of the rest or where the segment that is cut leads to a source, "." and ".." included
  (`Fsio.AliasDeleteIff`, `Fsio.CutReturnsIff`). When no source is below another and there is room, only the first two
  are left (`Fsio.DeleteApartIff`).
- The virtual directory kept by chdir is misread by a later "." exactly when it begins with the base and a slash
  (`Fsio.DotAfterChdir`, `Fsio.DotMisread`).
- opendir has lstat look its result up a second time, aliases included. For a directory under no alias this is
  harmless but at the virtual root, which lstat takes for the base under itself (`Fsio.SecondLookupPlain`). When
  opendir's result is a source strictly below the base, lstat agrees iff no alias covers it, or the longest one that
  does is an alias of itself, or so long that its start is left (`Fsio.SecondLookupInside`). When it is not strictly
  below the base, lstat looks under the base for a path that is not the source, and agrees only if an alias there
  leads back to it (`Fsio.SecondLookupAliased`; the exact condition for every case is in `Fsio.SecondLookup`).
- opendir opens the place of the path's components below the base (`Links.OpensPlace`, `Links.PlaceUnderBase`), but
  takes a symbolic link's text as it is, without a lookup, and opens it (`Links.OpensThroughLinks`).
- An alias applies to every path that is looked up to the same place as its destination
  (`ModVroot.RegisteredResolves`), and to paths below the destination's components if lookup takes the base's own
  components off both or off neither (`ModVroot.RegisteredResolvesBelow`).
- chdir confines the path that is looked up, not the path the system gets: under an alias that is its source, wherever
  it is, with the rest after it as far as that fits. It lies at or below the source unless the source is four short of
  the buffer's size and the rest starts with "/..", as in "/..x": then what fits is the source and "/..", which is its
  parent (`AliasMeaning.SubstituteBelowSourceIff`, `Fsio.ChdirToParent`). Without such a source no session leads
  outside (`Fsio.SessionStaysInside`; for any table, `Fsio.SessionStaysInsideIff`).
- A result looks up to itself for every anchored path; for other paths only when they name nothing, or something
  strictly under the base anyway, with a byte to spare (`Lookup.LookupIdempotentIff`).
- Registration ignores the lookup's status, so an overlong alias destination becomes an alias for the virtual root
  (`Lookup.LeftIsNormal`, `Lookup.LookupOfRoot`).
- The logged path is resolved on top of the base, so ".." climbs into the base. It is the path that lookup gives iff
  the path never climbs above the root and does not lie below the base's own components, or lies below them and climbs
  out of the whole base (`ModVroot.FixupAgreesIff`). It ends at or below the base iff the path re-enters every
  component of the base it climbed out of (`ModVroot.FixupUnderBaseIff`): with base "/b", "/../x" leaves it and
  "/../b" does not. Four of the six callers, the SCP and SFTP ones (mod_vroot.c:302, 328, 399 and 425), ask for the
  core's best path first. The other two, which log RETR, STOR and APPE (mod_vroot.c:374 and 471), take the note as it
  stands; what wrote it is not part of this model. A path that is already clean never climbs
  (`ModVroot.CleanedNeverClimbs`), so climbing needs a note that is not.
- An alias is listed in a directory that is only a textual prefix of it (`DirOverlay.ScanNameIff`,
  `DirOverlay.TextualPrefixIsListed`), and an alias of the directory itself is listed there under the empty name
  (`DirOverlay.OwnNameIsEmpty`).

## Model

| member | source | states |
|---|---|---|
| CStrings.StrMove | path.c:37-48 | on overlapping memory with the destination first, the string read at the source is held at the destination and no other byte changes |
| CStrings.HoldsSplice | path.c:37-48 | a move inside one string splices out exactly the text between the two addresses |
| CleanBuffer.CleanInPlace | path.c:91-213 | the whole in-place cleaner leaves the string that the phases compute, for every terminated buffer, relative paths included; nothing after the old terminator changes |
| CleanBuffer.FindCancelPoint | path.c:138-152 | the backwards pointer walk stays inside the string and stops where the component before "/../" starts |
| CleanBuffer.StaleByte | path.c:168-179 | after the leading "./" is dropped, the byte still under the pointer is a terminator exactly when nothing is left or as much is left as was dropped |
| Clean.CleanNeverGrows | path.c:91-213 | cleaning never lengthens any string |
| Clean.CleanIsWalkable | path.c:115-212 | for every input, the only ".." components left after cleaning lead the path |
| CleanSegments.CollapseSegments | path.c:99-105 | for any text, the first phase drops every empty segment but the first and the last |
| CleanSegments.DropCurrentSegments | path.c:107-113 | for any text, the second phase drops every "." segment but the first and the last |
| CleanSegments.CancelSegments | path.c:121-156 | for any text, absolute or not, the third phase takes away each inner ".." in turn, with the segment before it, whatever that is, but for the root's |
| CleanSegments.CleanInSegments | path.c:91-213 | for any text, the lead is the ".." segments it starts with, and what the last phases work on is the rest with its inner ".." cancelled |
| CleanSegments.FixTrailingSegments | path.c:180-212 | for any text, the last phase takes a last "." off, a last ".." with the segment before it, leaving "/" if there is no other, and the dot of a lone character and a dot; it changes nothing else |
| CleanAbsolute.CleanRenders | path.c:91-213 | for every absolute path the result is the component-stack normal form, with a final slash iff the last raw segment was empty, "." or ".." or the stack is empty |
| CleanAbsolute.CancelAtMeaning | path.c:133-156 | cancelling the first "/../" of tidy absolute text keeps the components and the last segment |
| CleanAbsolute.CleanIdempotent | path.c:91-213 | cleaning an absolute path twice is cleaning it once |
| CleanRelative.CleanIdempotentIff | path.c:91-213 | for every path, cleaning twice is cleaning once iff the text the dot phases work on has none of three shapes: a name and ".." after a lead, "./" before one character and a dot, "../" before one character and a dot |
| CleanRelative.CleanNoDoubleIff | path.c:115-210 | a cleaned path has a doubled slash iff a lead was followed by a name and ".." |
| CleanRelative.FinalNameIff | path.c:159-192 | a path that ends in a name still ends in it when cleaned iff one character and a dot is not all that is left for the dot phases; otherwise it ends in that character |
| CleanRelative.CleanFixedIff | path.c:91-213 | a path is its own cleaned form iff no phase finds anything to do in it |
| CleanRelative.LosesDot | path.c:187-192 | a two-character name ending in a dot loses the dot, so the failing side of FinalNameIff is not empty |
| CleanRelative.SkipsDotOnce | path.c:161-179 | "./c." is cleaned to "c.", and that to "c" |
| CleanRelative.LeavesDoubleSlash | path.c:115-210 | "../c/.." is cleaned to "..//" |
| CleanRelative.UncoversDotOnce | path.c:115-192 | "a/../../c." is cleaned to "../c.", and that to "../c" |
| RealPath.RealPathComplete | path.c:215-247 | two absolute paths have the same real path iff they stand for the same components |
| RealPath.RealPathIdempotent | path.c:234-244 | the real path of an absolute path is its own real path, absolute, and ends in a slash only if it is "/" |
| RealPath.RealPathRelative | path.c:225-234 | with the flag, a relative path is resolved on top of the virtual working directory |
| RealPath.RealPathUnflagged | path.c:225-244 | without the flag the virtual directory plays no part: the result is the cleaned path without a final slash, and ends in the path's name unless that loses its dot |
| RealPath.Realpath | path.c:215-247 | NULL without pool or path; otherwise a new buffer with exactly the real path |
| VRootPath.VRoot.SetBase | path.c:71-86 | a missing or overlong base is refused and leaves the old one; otherwise the base is the given prefix |
| VRootPath.VRoot.HaveBase | path.c:50-56 | there is a base iff it is not empty |
| VRootPath.VRoot.ResetVpath | path.c:303-314 | after a leading ".." the guard always holds and vpath becomes the base and a slash, given that it held nothing or just that |
| VRootPath.VRoot.Turn | path.c:294-326 | at the loop's label vpath holds nothing, or the base and a slash; each turn keeps that, shortens the text left, and takes the step of the walk |
| VRootPath.VRoot.WalkInPlace | path.c:294-326 | the loop terminates and leaves the vpath and the text that the walk leaves |
| VRootPath.VRoot.AppendInPlace | path.c:328-375 | EPERM, ENAMETOOLONG or the appended text, each exactly when the length and ".." tests say; no byte at or after vpathsz is written |
| VRootPath.VRoot.LookupVpath | path.c:250-463 | EINVAL on NULL; otherwise status, vpath and alias path are those of the string functions, for every base and input, and every buffer larger than the base; no byte at or after vpathsz is written |
| Lookup.NormalBaseIff | fsio.c:506-539 | a base is normal iff it is absolute, left alone by cleaning, and does not end in a slash |
| Lookup.LookupAbsolute | path.c:276-378 | for absolute input the result is the base's components, then the normalised path less one leading copy of the base; the only failure is ENAMETOOLONG, exactly when baselen + rest + 2 >= vpathsz for a non-empty rest |
| Lookup.AnchoredExact | path.c:276-378 | for every anchored text, "../" paths included: past one leading copy of the base, its components, with ".." meaning nothing at the top, go below the base's; the only failure is ENAMETOOLONG, exactly when the text after all leading "../" and "/" is neither empty nor ".." and does not fit |
| Lookup.StepsAreUnique | path.c:294-326 | those leading "../" and "/" are one prefix only, so the result is determined |
| Lookup.StripsIsBelow | path.c:280-292 | the textual base test is the component test: strictly below the base, or the base with a final slash |
| Lookup.NeverForbidden | path.c:332-363 | the EPERM branches are unreachable for every input |
| Lookup.LookupIdempotent | path.c:280-378 | whatever anchored path is looked up, looking up the result again gives the same result, even when the base recurs in it, and never fails for length |
| Lookup.LookupIdempotentIff | path.c:280-378 | for every path, the result looks up to itself iff the cleaned text is anchored or empty, or names the virtual root or, with a byte of vpath to spare, something strictly below it |
| Lookup.AnchoredStaysUnder | path.c:294-378 | whatever cleaned text starts with "/" or a ".." component, a successful lookup is a normal path strictly under the base, in text and in components |
| Lookup.DotDotStaysUnder | path.c:294-378 | for absolute paths and paths starting with "../" a successful lookup is a normal path whose components begin with the base's |
| Lookup.FoundIsNormal | path.c:276-378 | what a lookup of any path finds is a normal path, or nothing |
| Lookup.RelativeGoesToRoot | path.c:328-378 | any other text is placed under the real root, with the exact result and length bound |
| Lookup.UnderBaseIff | path.c:276-378 | a successful lookup ends at or below the base iff the cleaned text is anchored or its own components begin with the base |
| Lookup.BareParentEscapes | path.c:187-192 | the lookup of ".." is "/" |
| Aliases.AliasTable.Add | alias.c:82-94 | first entry wins: a key that is present is refused with EEXIST and the table is unchanged |
| Aliases.AliasTable.Get | alias.c:70-80 | the source of the key, or NULL; NULL table and NULL path included |
| Aliases.AliasTable.Init | alias.c:96-110 | the table exists after it and keeps its entries; NULL pool is refused |
| Aliases.AliasTable.Free | alias.c:112-121 | no table and no entries are left |
| Aliases.AliasCutIsLongest | path.c:392-452 | the right-to-left search finds the longest prefix at a slash boundary (or the whole path) that is an alias, and none iff there is none |
| Aliases.SubstituteIsLongestPrefix | path.c:403-431 | the result is the source of that alias, then the rest of the path, if it fits |
| Aliases.AliasPathIsPath | path.c:411-421 | the alias path reported for a path without doubled slashes is the path before substitution |
| AliasMeaning.SubstituteBelowSourceIff | path.c:403-431 | the components of the substituted path begin with those of the source iff it is not the case that the source is four short of the buffer's size, the rest starts with "/.." and the source is not the root; in that case the result is the source and "/.." |
| AliasMeaning.LeavesSourceIff | path.c:403-431 | the same for any source and any normal rest; if both fit, the components of the rest are added to the source's |
| AliasMeaning.AddsCutNames | path.c:423-431 | for a rest cut off anywhere, the whole names before the cut are added to the source's components and the piece of a name that is left takes one more step |
| Aliases.SearchAliases | path.c:392-452 | the search by planted terminators computes that result, and restores the buffer byte for byte when nothing matches |
| Fsio.ChdirStores | fsio.c:581-603 | a chdir that succeeds, to any path, stores the looked-up path less the base, or all of it if it does not begin with the base |
| Fsio.ChdirKeeps | fsio.c:564-579 | a chdir that fails, in the lookup or in the system, leaves the directory as it was |
| Fsio.SessionCwd | fsio.c:564-603 | after any session of rooted requests, base and directory are the looked-up path of the last request that succeeded, or the directory is the first one if none did |
| Fsio.DotAfterChdir | fsio.c:564-603 | after chdir the stored directory is the vpath less the base, aliased or not, and "." looks up the directory entered iff the stored directory does not begin with the base and a slash |
| Fsio.DotMisread | fsio.c:564-603 | chdir to the base, the base again and more is such a directory: "." then drops one of the two |
| Fsio.Chdir | fsio.c:544-607 | the path the system call gets or the error, the status, and the directory after it |
| Fsio.SessionStaysInsideIff | fsio.c:564-603 | in any sequence of chdirs to absolute paths, "." or "../" paths, with any answers from the system and any aliases whose sources fit a path buffer, every call's argument is a normal vpath strictly under the base, or has the source of its longest alias as the start of its components, iff no vpath on the way is cut off after a source and "/.." |
| Fsio.SessionStaysInside | fsio.c:564-603 | every such session stays inside when no source but the root is four short of the buffer's size |
| Fsio.ChdirToParent | fsio.c:564-603 | a client's path below an alias with such a source whose next name starts with ".." is looked up as it is, and the call goes to the source's parent |
| Fsio.AliasDeleteIff | fsio.c:170-189 | for everything a lookup finds: EACCES iff it is an alias key; the call's argument has the components of some source iff the lookup is no key and names a source under no alias, or is an alias and a slash, or leads from its alias's source to the components of another, or is cut off where its last, partial segment leads to a source |
| Fsio.CutReturnsIff | fsio.c:170-189 | what is kept after a source leads back to it iff the last segment kept is empty or "." with no name before it, or ".." with one, or the source is the root |
| Fsio.DeleteApartIff | fsio.c:170-189 | with no source's components properly below another's and room enough, a source is reached iff the path is an alias key and a slash, or is under no alias and has a source's components |
| Fsio.FinalSlashReaches | fsio.c:170-189 | the client's path to an alias with a final slash is looked up as the key and a slash, and the call goes to the source and a slash |
| Fsio.DeleteStaysBelowSource | fsio.c:1027-1046 | without a final slash the call gets the unaliased path, or the source of the longest alias and a non-empty rest if the two fit; otherwise the first characters of that, one fewer than the buffer's size |
| Fsio.DeleteRefusedIff | fsio.c:170-189 | ENAMETOOLONG iff the lookup fails, EACCES iff it finds an alias, and a call in every other case |
| Fsio.Unlink | fsio.c:160-190 | the call made or the error returned, for every path and table |
| Fsio.Rmdir | fsio.c:1014-1047 | the same as unlink for an active session, and the plain call otherwise |
| Fsio.SecondLookup | fsio.c:791-817 | with absolute sources, the lookup repeated by lstat, aliases included, agrees with opendir's iff it has room and either no alias covers the place it looks at and the opened path is canonical and strictly below the base, or the source of the place's longest alias and the rest of the place are the opened path, or too long for the buffer with the opened path as their start |
| Fsio.SecondLookupInside | fsio.c:791-817 | for an opened path that is canonical and strictly below the base, the two agree iff no alias covers it, or its longest alias has itself as its source, or is so long that the opened path is what fits |
| Fsio.SecondLookupPlain | fsio.c:791-817 | for a directory under no alias the two agree unless it is the virtual root; there lstat gets what the base under itself leads to, or ENAMETOOLONG |
| Fsio.SecondLookupAliased | fsio.c:791-817 | for an opened path not strictly below the base, lstat looks at a path under the base, and without an alias there gets that other path |
| Fsio.Chroot | fsio.c:430-542 | EINVAL, no change for "/", ENAMETOOLONG, or the base set to the cleaned path without final slashes |
| Fsio.ChrootBaseNormal | fsio.c:506-539 | the base set from a cleaned path is normal iff the path has a component |
| ModVroot.HandleVRootAliases | mod_vroot.c:50-111 | the table after registration is the fold of the records, in order, first wins |
| ModVroot.FirstRecordWins | mod_vroot.c:86-104 | the first record for a key stays in force whatever follows |
| ModVroot.RegisteredKeys | mod_vroot.c:86-89 | after registration the keys are the old ones and those of the records |
| ModVroot.RegisteredResolves | mod_vroot.c:77-104 | any path whose lookup is what the lookup of a record's destination leaves, with no earlier record or entry there, resolves to the record's source, cleaned |
| ModVroot.RegisteredSpelling | mod_vroot.c:77-104 | so does every absolute path with the components and the kind of ending of an absolute destination |
| ModVroot.KeyText | mod_vroot.c:85-89 | the key of an absolute destination is the base and its components, less one leading copy of the base's, or the virtual root if they do not fit |
| ModVroot.RegisteredResolvesBelow | mod_vroot.c:77-104 | an absolute path whose components are those of the destination and more resolves to the source and the rest, if they fit, unless a longer alias applies or the base is taken off only one of the two |
| ModVroot.SameSpellingSameKey | mod_vroot.c:85-87 | absolute spellings with the same components and the same kind of ending have the same key |
| ModVroot.RegisteredSourcesFit | mod_vroot.c:71-104 | every source that registration adds is shorter than a path buffer, as the theorems on deletion and sessions ask |
| ModVroot.SourceFits | mod_vroot.c:71-78 | an absolute source is registered as a normal path with the components and the ending it was configured with, a final slash included, if it fits |
| Lookup.LeftIsNormal | mod_vroot.c:85-89 | what registration takes as the key of an absolute destination is a normal path under the base, and the virtual root when the lookup failed for length |
| Lookup.LookupOfRoot | path.c:323-378 | the lookup of "/" is the base and a slash |
| ModVroot.FixupPath | mod_vroot.c:246-279 | the note, or the best path when the caller asks for it, is fixed up and overwrites the note; an absent note stays absent |
| ModVroot.FixupExact | mod_vroot.c:261-266 | the logged path of an absolute path is its segments resolved on top of the base's components |
| ModVroot.FixupRelative | mod_vroot.c:267-269 | the logged path of a relative path is resolved on top of the virtual directory, and the base plays no part |
| ModVroot.FixupKeeps | mod_vroot.c:261-266 | the logged path is the base less the components climbed out of, then the components of the path, with the path's kind of ending |
| ModVroot.FixupAgreesIff | mod_vroot.c:261-266 | for every absolute path, the logged path is the lookup's path iff the path climbs nowhere and is not below the base's components, or is below them and climbs out of the whole base |
| ModVroot.FixupUnderBaseIff | mod_vroot.c:261-266 | for every absolute path, the logged path ends at or below the base iff the path's components begin with those of the base it climbed out of |
| ModVroot.CleanedNeverClimbs | mod_vroot.c:261-266 | an already cleaned absolute path never climbs above the root |
| ModVroot.FixupClimbsOut | mod_vroot.c:261-266 | the logged path of "/../x" is at or below the base iff x is its last component |
| DirOverlay.ScanNameIff | fsio.c:702-744 | an alias adds the next component below the directory if it lies strictly below it and its source is another, and nothing otherwise, iff the directory's text is not a prefix of the alias without the alias lying strictly below it: a textual prefix only, or the directory itself |
| DirOverlay.TextualPrefixIsListed | fsio.c:719-742 | for every directory and every sibling whose name is the directory's with letters after it, an alias at the sibling with another source is no part of the directory, but the letters are listed there |
| DirOverlay.OwnNameIsEmpty | fsio.c:719-742 | an alias at the directory itself with another source adds the empty name |
| DirOverlay.OverlayNamesExact | fsio.c:702-746 | when no directory is merely a textual prefix, the pushed names are exactly the next components of the aliases strictly below it whose source is another directory |
| DirOverlay.ScanAllInOrder | fsio.c:702-746 | the names are pushed in the order in which the table gives its keys, one for each alias that adds one |
| DirOverlay.ListingIsMerge | fsio.c:909-964 | with an overlay list, everything read before the first NULL is the real entries no alias names, in order, then the aliases, in order, as much of each as fits |
| DirOverlay.ListingIsPlain | fsio.c:909-964 | without one, it is the real entries, all of them, in order |
| DirOverlay.OpenedListing | fsio.c:878-903 | the listing of a directory just opened while there are aliases, from its globals |
| DirOverlay.OpenedPlain | fsio.c:848-849 | the listing of a directory opened without aliases is its entries |
| DirOverlay.NullPersists | fsio.c:942-946 | once NULL has been returned it is returned again and nothing changes |
| DirOverlay.EveryRunIsSafe | fsio.c:849-992 | over every interleaving of open, read and close the table holds exactly the open tracked handles with the paths they were opened at, the list the names of the last; table, list and index are set exactly while there are any; no step reads a destroyed pool, and no pool is lost |
| DirOverlay.StepKeepsInv | fsio.c:849-992 | the same for one step from any state that satisfies it |
| DirOverlay.CloseKeepsPlace | fsio.c:971-989 | closing one of several tracked handles changes neither the list nor the place reached in it, and destroys nothing |
| DirOverlay.LastCloseFreesAll | fsio.c:978-989 | closing the last one leaves no table and no list, and every pool ever made destroyed |
| Links.Lstat | fsio.c:86-109 | the call made: the path cleaned, without a final slash, and looked up with aliases, or the lookup's error |
| Links.LstatAsks | fsio.c:86-109 | for an absolute path, lstat's call is for the place of its components, aliases replaced, however the path ends, or refused for length |
| Links.Readlink | fsio.c:304-332 | the call made: for the real path if an alias covers it, else for the path as given; or the error of either lookup |
| Links.ReadlinkAsks | fsio.c:304-332 | readlink's call is for the place of the path's components in the virtual directory if an alias covers it, and otherwise for the lookup of the path as given; it is refused if either is too long |
| Links.FollowLinks | fsio.c:817-835 | the loop over symbolic links ends where the recursive definition does, for any answers of the system |
| Links.FollowedEnds | fsio.c:817-835 | the path opened is the one looked up or the text of a link as it is: every path before it could be followed, and it could not or was the last |
| Links.OpenPath | fsio.c:791-837 | the path that is opened, or the error of the first lookup |
| Links.OpensPlace | fsio.c:791-837 | with no link, opendir's call for an absolute path is for the place of its components, aliases replaced, or refused with ENAMETOOLONG, exactly when they do not fit |
| Links.PlaceUnderBase | fsio.c:791-837 | that place is strictly under the base, the base's components followed by the path's, less one leading copy of the base's, and is what is opened if no alias covers it |
| Links.OpensThroughLinks | fsio.c:817-837 | with links, opendir's call is for that place or for a link's text as it is: lstat and readlink make a call for each path before it, starting with that place, and one of them is refused for it or it is the last |
| DirOverlay.Overlay.Opendir | fsio.c:766-907 | the path opened after its links, the error returned, and the globals after it; table and list are reached only through accessors that ask for a live pool |
| DirOverlay.Overlay.Readdir | fsio.c:909-964 | one entry, skipping aliased ones, and the state after it; the list read is in a live pool |
| DirOverlay.Overlay.Closedir | fsio.c:966-992 | the globals after it; the pool goes with the last tracked handle, and is live until then |

## Left out

- All system calls: their answers are parameters (`sysOk`, `given`, the entries of a directory), and the calls other than chdir, unlink, rmdir and opendir are thin wrappers around one lookup.
- VRootPath.VRoot.LookupVpath: a vpathsz not larger than the base is left out, because the source then reads vpath[baselen] beyond the size it was given; chroot refuses such bases for the buffers that are used.
- Links.FollowLinks: the system's answers are a given list of link texts, so a cycle of links, on which the loop does not end, is not modelled.
- Which of lstat and stat has the last word in lstat's result: both are asked for the same path.
- The VRootServerRoot branch of chroot and the session note it writes.
- Core functions of ProFTPD, which are not part of this model: `pdircat` is taken as a join with one slash at the seam, `pr_table_*` as a finite map whose iteration order is a parameter, `pr_fs_getcwd` and `pr_fs_setcwd` as a stored string, the bounded copies as truncation; `pr_fs_clean_path`, `dir_best_path` and `path_subst_uservar` have been applied to the inputs already, and the answer of `dir_best_path` in the fix-up is a parameter.
- NULL arguments of `strmove`, `vroot_path_clean` and `vroot_path_get_base`, and whether the caller of lookup wants the alias path: it is always computed.
- What a relative path means once it is cleaned: cleaning does not keep the meaning. Proved are its result in raw segments, and exactly when that is clean, is a fixed point, and keeps the last name.
- Empty or non-normal bases in the component results, and a base that fills vpath so that not even a slash fits: the memory layer covers every base, the lemmas those that chroot sets with that room left.
- The merged contents of several listings read at once: their lifetimes are proved, and each read is exact, but the shared list is that of the directory opened last.
- Directive parsing, logging, tracing, signals, memory pools other than the directory pool, and errno bookkeeping.
