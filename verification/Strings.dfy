/**
  The `str` operations the sources lean on: `find`, `rfind`, `starts_with`,
  `split`, `join`.  Each search carries its full meaning in its contract, so
  later proofs use the contract and never the recursion.
*/
module Strings {
  import opened Wrappers

  predicate OccursAt(s: string, n: string, i: int) {
    0 <= i && i + |n| <= |s| && s[i..i + |n|] == n
  }

  predicate StartsWith(s: string, n: string) {
    |n| <= |s| && s[..|n|] == n
  }

  predicate EndsWith(s: string, n: string) {
    |n| <= |s| && s[|s| - |n|..] == n
  }

  /** `s[from..].find(n)`, as an absolute position: the first occurrence. */
  function FindFrom(s: string, n: string, from: nat): (r: Option<nat>)
    requires from <= |s|
    ensures r.Some? ==> from <= r.value && OccursAt(s, n, r.value)
    ensures r.Some? ==> forall j :: from <= j < r.value ==> !OccursAt(s, n, j)
    ensures r.None? ==> forall j :: from <= j ==> !OccursAt(s, n, j)
    decreases |s| - from
  {
    if OccursAt(s, n, from) then Some(from)
    else if from == |s| then None
    else FindFrom(s, n, from + 1)
  }

  function Find(s: string, n: string): (r: Option<nat>)
    ensures r.Some? ==> r.value + |n| <= |s|
    ensures r.Some? ==> OccursAt(s, n, r.value)
    ensures r.Some? ==> forall j :: 0 <= j < r.value ==> !OccursAt(s, n, j)
    ensures r.None? ==> forall j :: !OccursAt(s, n, j)
  {
    FindFrom(s, n, 0)
  }

  predicate Contains(s: string, n: string) {
    Find(s, n).Some?
  }

  /** `s.rfind(n)`: the last occurrence. */
  function RFind(s: string, n: string): (r: Option<nat>)
    ensures r.Some? ==> OccursAt(s, n, r.value)
    ensures r.Some? ==> forall j :: r.value < j ==> !OccursAt(s, n, j)
    ensures r.None? ==> forall j :: !OccursAt(s, n, j)
  {
    RFindUpTo(s, n, |s|)
  }

  function RFindUpTo(s: string, n: string, last: nat): (r: Option<nat>)
    requires last <= |s|
    ensures r.Some? ==> r.value <= last && OccursAt(s, n, r.value)
    ensures r.Some? ==> forall j :: r.value < j <= last ==> !OccursAt(s, n, j)
    ensures r.None? ==> forall j :: j <= last ==> !OccursAt(s, n, j)
  {
    if OccursAt(s, n, last) then Some(last)
    else if last == 0 then None
    else RFindUpTo(s, n, last - 1)
  }

  function LowerChar(c: char): char {
    if 'A' <= c <= 'Z' then c + ' ' else c
  }

  /** `to_ascii_lowercase`. */
  function Lower(s: string): (r: string)
    ensures |r| == |s|
    ensures forall i :: 0 <= i < |s| ==> r[i] == LowerChar(s[i])
  {
    seq(|s|, i requires 0 <= i < |s| => LowerChar(s[i]))
  }

  /** `s.split(c)`: always at least one piece, none of them holding `c`. */
  function Split(s: string, c: char): (r: seq<string>)
    ensures |r| >= 1
    ensures forall i :: 0 <= i < |r| ==> c !in r[i]
  {
    if s == "" then [""]
    else
      var rest := Split(s[1..], c);
      if s[0] == c then [""] + rest else [[s[0]] + rest[0]] + rest[1..]
  }

  /** `pieces.join(c)`. */
  function Join(pieces: seq<string>, c: char): string {
    if |pieces| == 0 then ""
    else if |pieces| == 1 then pieces[0]
    else pieces[0] + [c] + Join(pieces[1..], c)
  }

  lemma {:induction false} JoinAppend(a: seq<string>, b: seq<string>, c: char)
    requires |a| > 0 && |b| > 0
    ensures Join(a + b, c) == Join(a, c) + [c] + Join(b, c)
  {
    if |a| == 1 {
      assert (a + b)[1..] == b;
    } else {
      assert (a + b)[1..] == a[1..] + b;
      JoinAppend(a[1..], b, c);
    }
  }

  /** Gluing two joined texts merges the two pieces at the seam. */
  lemma {:induction false} JoinGlue(a: seq<string>, x: string, y: string, b: seq<string>, c: char)
    ensures Join(a + [x], c) + Join([y] + b, c) == Join(a + [x + y] + b, c)
  {
    GlueFirst(x, y, b, c);
    var z := [x + y] + b;
    if |a| == 0 {
      assert a + [x] == [x] && a + [y] == [y] && a + [x + y] + b == z;
    } else {
      hide Join;
      JoinAppend(a, [x], c);
      JoinAppend(a, z, c);
      assert a + [x + y] + b == a + z;
      Regroup(Join(a, c) + [c], Join([x], c), Join([y] + b, c));
    }
  }

  lemma Regroup(p: string, x: string, r: string)
    ensures (p + x) + r == p + (x + r)
  {
  }

  lemma GlueFirst(x: string, y: string, b: seq<string>, c: char)
    ensures Join([x], c) + Join([y] + b, c) == Join([x + y] + b, c)
  {
    if |b| > 0 {
      assert ([y] + b)[1..] == b && ([x + y] + b)[1..] == b;
    }
  }

  lemma {:induction false} SplitOfJoin(pieces: seq<string>, c: char)
    requires |pieces| > 0
    requires forall i :: 0 <= i < |pieces| ==> c !in pieces[i]
    ensures Split(Join(pieces, c), c) == pieces
    decreases |pieces|, |pieces[0]|
  {
    var s := Join(pieces, c);
    if pieces[0] == "" {
      if |pieces| > 1 {
        SplitOfJoin(pieces[1..], c);
        assert s[1..] == Join(pieces[1..], c);
      }
    } else {
      var shorter := [pieces[0][1..]] + pieces[1..];
      SplitOfJoin(shorter, c);
      assert shorter[1..] == pieces[1..];
      assert s[1..] == Join(shorter, c);
      assert s[0] == pieces[0][0] != c;
      assert [s[0]] + shorter[0] == pieces[0];
      assert Split(s, c) == [pieces[0]] + pieces[1..];
    }
  }

  lemma {:induction false} JoinOfSplit(s: string, c: char)
    ensures Join(Split(s, c), c) == s
  {
    if s != "" {
      JoinOfSplit(s[1..], c);
      var rest := Split(s[1..], c);
      if s[0] == c {
        assert ([""] + rest)[1..] == rest;
      } else {
        assert ([[s[0]] + rest[0]] + rest[1..])[1..] == rest[1..];
      }
    }
  }

  lemma {:induction false} SplitAppend(a: string, b: string, c: char)
    ensures Split(a + [c] + b, c) == Split(a, c) + Split(b, c)
  {
    JoinOfSplit(a, c);
    JoinOfSplit(b, c);
    JoinAppend(Split(a, c), Split(b, c), c);
    SplitOfJoin(Split(a, c) + Split(b, c), c);
  }

  /** Start position of piece `i` inside `Join(pieces, c)`. */
  function Offset(pieces: seq<string>, i: nat): nat
    requires i < |pieces|
  {
    if i == 0 then 0 else |pieces[0]| + 1 + Offset(pieces[1..], i - 1)
  }

  /** Cutting a joined text inside piece `i` cuts that piece and keeps the others. */
  lemma {:induction false} CutJoin(pieces: seq<string>, i: nat, d: nat, c: char)
    requires i < |pieces| && d <= |pieces[i]|
    ensures Offset(pieces, i) + d <= |Join(pieces, c)|
    ensures Join(pieces, c)[..Offset(pieces, i) + d] == Join(pieces[..i] + [pieces[i][..d]], c)
    ensures Join(pieces, c)[Offset(pieces, i) + d..] == Join([pieces[i][d..]] + pieces[i + 1..], c)
  {
    if i == 0 {
      assert pieces[..0] + [pieces[0][..d]] == [pieces[0][..d]];
      assert ([pieces[0][d..]] + pieces[1..])[1..] == pieces[1..];
    } else {
      hide Join;
      CutJoin(pieces[1..], i - 1, d, c);
      var head := pieces[..i] + [pieces[i][..d]];
      assert head[1..] == pieces[1..][..i - 1] + [pieces[1..][i - 1][..d]];
      assert pieces[1..][i..] == pieces[i + 1..];
      JoinUncons(pieces, c);
      JoinUncons(head, c);
      CutAfterHead(pieces[0] + [c], Join(pieces[1..], c), Offset(pieces[1..], i - 1) + d);
    }
  }

  lemma JoinUncons(pieces: seq<string>, c: char)
    requires |pieces| > 1
    ensures Join(pieces, c) == pieces[0] + [c] + Join(pieces[1..], c)
  {
  }

  lemma CutAfterHead(head: string, rest: string, k: nat)
    requires k <= |rest|
    ensures (head + rest)[..|head| + k] == head + rest[..k]
    ensures (head + rest)[|head| + k..] == rest[k..]
  {
  }

  lemma {:induction false} OffsetPrefix(a: seq<string>, b: seq<string>, i: nat)
    requires i < |a| && i < |b| && a[..i] == b[..i]
    ensures Offset(a, i) == Offset(b, i)
  {
    if i > 0 {
      assert a[0] == a[..i][0] == b[0];
      assert a[1..][..i - 1] == a[..i][1..] == b[..i][1..] == b[1..][..i - 1];
      OffsetPrefix(a[1..], b[1..], i - 1);
    }
  }
}
