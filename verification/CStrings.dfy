/** C strings held in character memory, and the C library calls the module makes on them. */
module CStrings {

  /** `m` holds the NUL-terminated string `s` starting at index `off`. */
  ghost predicate Holds(m: seq<char>, off: nat, s: string) {
    && off + |s| < |m|
    && (forall i :: 0 <= i < |s| ==> m[off + i] == s[i])
    && m[off + |s|] == '\0'
    && '\0' !in s
  }

  /** Nothing outside `lo..hi` (inclusive) differs. */
  ghost predicate SameOutside(m: seq<char>, r: seq<char>, lo: nat, hi: nat) {
    |m| == |r| && forall i :: 0 <= i < |m| && (i < lo || hi < i) ==> m[i] == r[i]
  }

  /** Nothing at or after `n` differs. */
  ghost predicate SameFrom(m: seq<char>, r: seq<char>, n: nat) {
    |m| == |r| && forall i :: n <= i < |m| ==> m[i] == r[i]
  }

  /** Some terminator is found at or after `off`. */
  ghost predicate Terminated(m: seq<char>, off: nat) {
    exists i :: off <= i < |m| && m[i] == '\0'
  }

  /** Two rewritings, the second within the reach of the first. */
  lemma SameOutsideChain(m: seq<char>, r: seq<char>, q: seq<char>, lo: nat, hi: nat, lo': nat, hi': nat)
    requires SameOutside(m, r, lo, hi) && SameOutside(r, q, lo', hi') && lo <= lo' && hi' <= hi
    ensures SameOutside(m, q, lo, hi)
  {
  }

  /** Reads the string that starts at `off`, up to its terminator. */
  function StrAt(m: seq<char>, off: nat): (s: string)
    requires Terminated(m, off)
    ensures Holds(m, off, s)
    decreases |m| - off
  {
    if m[off] == '\0' then "" else [m[off]] + StrAt(m, off + 1)
  }

  lemma {:induction false} HoldsIsUnique(m: seq<char>, off: nat, s: string)
    requires Holds(m, off, s)
    ensures Terminated(m, off) && StrAt(m, off) == s
    decreases |s|
  {
    if s != "" {
      var u := s[1..];
      assert forall i :: 0 <= i < |u| ==> u[i] == s[i + 1];
      assert m[off] == s[0];
      HoldsIsUnique(m, off + 1, s[1..]);
    }
  }

  /** The first terminator ends the string. */
  lemma FirstNul(m: seq<char>, off: nat, end: nat)
    requires off <= end < |m| && m[end] == '\0'
    requires forall k :: off <= k < end ==> m[k] != '\0'
    ensures Terminated(m, off) && StrAt(m, off) == m[off..end]
  {
    HoldsIsUnique(m, off, m[off..end]);
  }

  /** A suffix of a held string is itself held, at the shifted address. */
  lemma HoldsSuffix(m: seq<char>, off: nat, s: string, k: nat)
    requires Holds(m, off, s) && k <= |s|
    ensures Holds(m, off + k, s[k..])
  {
  }

  /** What holds a string in a memory holds the prefix before a terminator planted inside it. */
  lemma HoldsCut(m: seq<char>, off: nat, s: string, k: nat)
    requires Holds(m, off, s) && k <= |s|
    ensures Holds(m[off + k := '\0'], off, s[..k])
  {
  }

  /** Text written over the terminator is appended. */
  lemma HoldsAppend(m: seq<char>, r: seq<char>, a: string, b: string)
    requires Holds(m, 0, a) && Holds(r, |a|, b) && SameOutside(m, r, |a|, |a| + |b|)
    ensures Holds(r, 0, a + b)
  {
    var t := a + b;
    forall i | 0 <= i < |t| ensures r[i] == t[i] {
      if i >= |a| { assert r[|a| + (i - |a|)] == b[i - |a|]; }
    }
  }

  // ----- searching

  predicate OccursAt(s: string, pat: string, k: int) {
    0 <= k && k + |pat| <= |s| && s[k..k + |pat|] == pat
  }

  /** `strstr`: the first occurrence of `pat` at or after `from`, or -1. */
  function StrStrFrom(s: string, pat: string, from: nat): (r: int)
    requires from <= |s|
    ensures r == -1 || (from <= r && OccursAt(s, pat, r))
    ensures forall j :: from <= j && (r == -1 || j < r) ==> !OccursAt(s, pat, j)
    decreases |s| - from
  {
    if OccursAt(s, pat, from) then from
    else if from == |s| then -1
    else StrStrFrom(s, pat, from + 1)
  }

  function StrStr(s: string, pat: string): (r: int)
    ensures r == -1 || OccursAt(s, pat, r)
    ensures forall j :: 0 <= j && (r == -1 || j < r) ==> !OccursAt(s, pat, j)
  {
    StrStrFrom(s, pat, 0)
  }

  /** `strrchr(s, '/')`: the last slash, or -1. */
  function LastSlash(s: string): (r: int)
    ensures -1 <= r < |s|
    ensures r >= 0 ==> s[r] == '/'
    ensures forall j :: r < j < |s| ==> s[j] != '/'
  {
    if s == "" then -1
    else if s[|s| - 1] == '/' then |s| - 1
    else LastSlash(s[..|s| - 1])
  }

  /** `strchr(s, '/')`: the first slash, or -1. */
  function FirstSlash(s: string): (r: int)
    ensures -1 <= r < |s|
    ensures r >= 0 ==> s[r] == '/'
    ensures forall j :: 0 <= j < |s| && (r == -1 || j < r) ==> s[j] != '/'
  {
    if s == "" then -1
    else if s[0] == '/' then 0
    else var r := FirstSlash(s[1..]); if r == -1 then -1 else r + 1
  }

  // ----- bounded copies

  /** What a bounded copy into `size` bytes keeps, one byte being the terminator. */
  function Bounded(s: string, size: nat): (r: string)
    requires size > 0
    ensures |r| < size && r <= s
    ensures |s| < size ==> r == s
  {
    if |s| < size then s else s[..size - 1]
  }

  /** `pdircat` of two strings: a join with exactly one slash at the seam. */
  function PDirCat(a: string, b: string): string {
    if a == "" then b
    else if a[|a| - 1] == '/' && b != "" && b[0] == '/' then a + b[1..]
    else if a[|a| - 1] != '/' && (b == "" || b[0] != '/') then a + "/" + b
    else a + b
  }

  // ----- moving bytes

  /** `strmove`: the byte-by-byte copy, safe on overlapping memory because it runs forwards. */
  method StrMove(buf: array<char>, dst: nat, src: nat)
    requires dst <= src && Terminated(buf[..], src)
    modifies buf
    ensures Holds(buf[..], dst, old(StrAt(buf[..], src)))
    ensures SameOutside(old(buf[..]), buf[..], dst, dst + |old(StrAt(buf[..], src))|)
  {
    ghost var was := buf[..];
    ghost var end :| src <= end < |was| && was[end] == '\0';
    var d, i := dst, src;
    while buf[i] != '\0'
      invariant src <= i <= end && d - dst == i - src
      invariant forall k :: src <= k < i ==> was[k] != '\0'
      invariant forall k :: 0 <= k < dst || d <= k < buf.Length ==> buf[k] == was[k]
      invariant buf[dst..d] == was[src..i]
      decreases end - i
    {
      buf[d] := buf[i];
      assert buf[dst..d + 1] == buf[dst..d] + [buf[d]];
      d, i := d + 1, i + 1;
    }
    FirstNul(was, src, i);
    buf[d] := '\0';
    HoldsSlice(buf[..], dst, d);
  }

  lemma HoldsSlice(m: seq<char>, off: nat, end: nat)
    requires off <= end < |m| && m[end] == '\0' && '\0' !in m[off..end]
    ensures Holds(m, off, m[off..end])
  {
  }

  /** Seen as strings, a move inside one string splices out the text between `i` and `j`. */
  lemma HoldsSplice(m: seq<char>, r: seq<char>, off: nat, s: string, i: nat, j: nat)
    requires Holds(m, off, s) && i <= j <= |s|
    requires Holds(r, off + i, s[j..]) && SameOutside(m, r, off + i, off + |s| - (j - i))
    ensures Holds(r, off, s[..i] + s[j..])
  {
    var t := s[..i] + s[j..];
    assert forall k :: i <= k < |t| ==> t[k] == s[j..][k - i];
    forall k | 0 <= k < |t| ensures r[off + k] == t[k] {
      if k >= i { assert r[off + i + (k - i)] == s[j..][k - i]; }
    }
  }

  /** Moves the text at `j` of the string at `off` down to `i`. */
  method Splice(buf: array<char>, off: nat, ghost s: string, i: nat, j: nat)
    requires Holds(buf[..], off, s) && i <= j <= |s|
    modifies buf
    ensures Holds(buf[..], off, s[..i] + s[j..])
    ensures SameOutside(old(buf[..]), buf[..], off + i, off + |s| - (j - i))
  {
    ghost var m := buf[..];
    HoldsSuffix(m, off, s, j);
    HoldsIsUnique(m, off + j, s[j..]);
    StrMove(buf, off + i, off + j);
    HoldsSplice(m, buf[..], off, s, i, j);
  }

  /** Plants a terminator in the string at `off`. */
  method Cut(buf: array<char>, off: nat, ghost s: string, k: nat)
    requires Holds(buf[..], off, s) && k <= |s|
    modifies buf
    ensures Holds(buf[..], off, s[..k])
    ensures buf[..] == old(buf[..])[off + k := '\0']
  {
    buf[off + k] := '\0';
  }

  /** Writes `s` and a terminator at `off`: `memcpy` of a whole string, `snprintf("%s")`, `sstrncpy`. */
  method PutString(buf: array<char>, off: nat, s: string)
    requires off + |s| < buf.Length && '\0' !in s
    modifies buf
    ensures Holds(buf[..], off, s)
    ensures SameOutside(old(buf[..]), buf[..], off, off + |s|)
  {
    for i := 0 to |s|
      invariant forall k :: 0 <= k < i ==> buf[off + k] == s[k]
      invariant forall k :: 0 <= k < buf.Length && (k < off || off + i <= k) ==> buf[k] == old(buf[k])
    {
      buf[off + i] := s[i];
    }
    buf[off + |s|] := '\0';
  }

  /** `memset(buf, 0, n)`. */
  method Zero(buf: array<char>, n: nat)
    requires n <= buf.Length
    modifies buf
    ensures forall k :: 0 <= k < n ==> buf[k] == '\0'
    ensures forall k :: n <= k < buf.Length ==> buf[k] == old(buf[k])
  {
    for i := 0 to n
      invariant forall k :: 0 <= k < i ==> buf[k] == '\0'
      invariant forall k :: i <= k < buf.Length ==> buf[k] == old(buf[k])
    {
      buf[i] := '\0';
    }
  }
}
