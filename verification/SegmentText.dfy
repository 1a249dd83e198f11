/** Where the segments of a path are in its text, and what is left when one is taken out. */
module SegmentText {
  import opened CStrings
  import opened Components

  function Without(segs: Segments, x: string): Segments {
    if segs == [] then [] else (if segs[0] == x then [] else [segs[0]]) + Without(segs[1..], x)
  }

  /** The segments, without `x` anywhere but at the two ends. */
  function InsideWithout(segs: Segments, x: string): Segments {
    if |segs| <= 1 then segs
    else [segs[0]] + Without(segs[1..|segs| - 1], x) + [segs[|segs| - 1]]
  }

  // ----- where a segment is in the text

  /** The text on either side of a slash. */
  lemma {:induction false} SplitAt(s: string, i: nat) returns (k: nat)
    requires i + 1 < |Split(s)|
    ensures k < |s| && s[k] == '/'
    ensures Split(s[..k]) == Split(s)[..i + 1] && Split(s[k + 1..]) == Split(s)[i + 1..]
  {
    TailSegments(s);
    if s[0] == '/' && i == 0 {
      k := 0;
      assert s[..0] == "" && Split(s)[..1] == [""];
    } else {
      var j := if s[0] == '/' then i - 1 else i;
      k := SplitAt(s[1..], j);
      k := k + 1;
      SplitAtNext(s, k, i, j);
    }
  }

  lemma SplitAtNext(s: string, k: nat, i: nat, j: nat)
    requires 0 < k < |s| && i + 1 < |Split(s)| && j == (if s[0] == '/' then i - 1 else i)
    requires Split(s[1..][..k - 1]) == Split(s[1..])[..j + 1]
    requires Split(s[1..][k..]) == Split(s[1..])[j + 1..]
    ensures Split(s[..k]) == Split(s)[..i + 1] && Split(s[k + 1..]) == Split(s)[i + 1..]
  {
    FrontSegments(s, k);
    SplitCons(s[0], s[1..]);
    assert [s[0]] + s[1..] == s && s[1..][k..] == s[k + 1..];
    if s[0] == '/' {
      SlashParts(Split(s[1..]), j);
    } else {
      NameParts(Split(s[1..]), j, s[0]);
    }
  }

  lemma SlashParts(q: Segments, j: int)
    requires -1 <= j < |q|
    ensures ([""] + q)[..j + 2] == [""] + q[..j + 1] && ([""] + q)[j + 2..] == q[j + 1..]
  {
  }

  lemma NameParts(q: Segments, j: int, c: char)
    requires 0 <= j < |q|
    ensures var all, p := [[c] + q[0]] + q[1..], q[..j + 1];
      all[..j + 1] == [[c] + p[0]] + p[1..] && all[j + 1..] == q[j + 1..]
  {
  }

  /** The segments of a prefix, from those of the prefix without its first character. */
  lemma FrontSegments(s: string, k: nat)
    requires 0 < k <= |s|
    ensures var q := Split(s[1..][..k - 1]);
      Split(s[..k]) == if s[0] == '/' then [""] + q else [[s[0]] + q[0]] + q[1..]
  {
    assert [s[0]] + s[1..][..k - 1] == s[..k];
    SplitCons(s[0], s[1..][..k - 1]);
  }

  /** An inner segment stands between two slashes. */
  lemma SegmentAt(s: string, i: nat) returns (k: nat)
    requires 0 < i < |Split(s)| - 1
    ensures OccursAt(s, "/" + Split(s)[i] + "/", k) && Split(s[..k]) == Split(s)[..i]
  {
    k := SplitAt(s, i - 1);
    FirstBeforeSlash(s[k + 1..]);
    var x := Split(s)[i];
    assert Split(s[k + 1..])[0] == x;
    assert s[k..k + |x| + 2] == [s[k]] + s[k + 1..][..|x| + 1];
  }

  /** The first of several segments has a slash after it. */
  lemma FirstBeforeSlash(s: string)
    requires |Split(s)| > 1
    ensures Split(s)[0] + "/" <= s
  {
    var m := SplitAt(s, 0);
    var x := Split(s)[0];
    SplitSlashFree(s);
    SplitPlain(x);
    assert Split(s[..m]) == [x];
    SplitInjective(s[..m], x);
    assert s[..m + 1] == s[..m] + [s[m]];
  }

  /** A pattern between two slashes is an inner segment. */
  lemma SegmentsAround(s: string, x: string, k: nat)
    requires '/' !in x && OccursAt(s, "/" + x + "/", k)
    ensures Split(s) == Split(s[..k]) + [x] + Split(s[k + |x| + 2..])
  {
    var a, b := s[..k], s[k + |x| + 2..];
    assert s == a + "/" + (x + "/" + b) by {
      assert s == s[..k] + s[k..k + |x| + 2] + s[k + |x| + 2..];
    }
    SplitConcat(a, x + "/" + b);
    SplitConcat(x, b);
    SplitPlain(x);
  }

  // ----- a segment left out

  lemma {:induction false} WithoutConcat(a: Segments, b: Segments, x: string)
    ensures Without(a + b, x) == Without(a, x) + Without(b, x)
    decreases |a|
  {
    if a == [] {
      assert a + b == b;
    } else {
      assert (a + b)[1..] == a[1..] + b;
      WithoutConcat(a[1..], b, x);
    }
  }

  /** An inner `x` makes no difference. */
  lemma InsideDrops(a: Segments, b: Segments, x: string)
    requires a != [] && b != []
    ensures InsideWithout(a + [x] + b, x) == InsideWithout(a + b, x)
  {
    InsideParts(a, [x] + b, x);
    InsideParts(a, b, x);
    assert a + [x] + b == a + ([x] + b);
    assert ([x] + b)[..|b|] == [x] + b[..|b| - 1];
    assert ([x] + b[..|b| - 1])[1..] == b[..|b| - 1];
  }

  lemma InsideParts(a: Segments, b: Segments, x: string)
    requires a != [] && b != []
    ensures InsideWithout(a + b, x) == [a[0]] + (Without(a[1..], x) + Without(b[..|b| - 1], x)) + [b[|b| - 1]]
  {
    var all := a + b;
    assert all[1..|all| - 1] == a[1..] + b[..|b| - 1];
    WithoutConcat(a[1..], b[..|b| - 1], x);
  }

  lemma {:induction false} NothingWithout(segs: Segments, x: string)
    requires x !in segs
    ensures Without(segs, x) == segs
    decreases |segs|
  {
    if segs != [] { NothingWithout(segs[1..], x); }
  }

  lemma NothingInside(s: string, x: string)
    requires StrStr(s, "/" + x + "/") == -1
    ensures InsideWithout(Split(s), x) == Split(s)
  {
    if |Split(s)| > 1 {
      NoneInner(s, x);
      InsideAll(Split(s), x);
    }
  }

  lemma InsideAll(segs: Segments, x: string)
    requires |segs| > 1 && x !in segs[1..|segs| - 1]
    ensures InsideWithout(segs, x) == segs
  {
    var inner := segs[1..|segs| - 1];
    NothingWithout(inner, x);
    assert segs == [segs[0]] + inner + [segs[|segs| - 1]];
  }

  lemma NoneInner(s: string, x: string)
    requires StrStr(s, "/" + x + "/") == -1 && |Split(s)| > 1
    ensures x !in Split(s)[1..|Split(s)| - 1]
  {
    var segs := Split(s);
    if x in segs[1..|segs| - 1] {
      var i :| 0 <= i < |segs| - 2 && segs[1..|segs| - 1][i] == x;
      var k := SegmentAt(s, i + 1);
      assert false;
    }
  }
}
