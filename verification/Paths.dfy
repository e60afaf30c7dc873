/**
  POSIX paths as the cache uses them: `Path::join` on strings, and the location a
  path string names once `.`, `..` and repeated slashes are resolved.
*/
module Paths {
  import opened Strings

  /** A resolved location: path segments from the root or the working directory. */
  type Location = seq<string>

  /** `Path::join`. */
  function JoinPath(a: string, b: string): string {
    if StartsWith(b, "/") then b
    else if a == "" then b
    else if EndsWith(a, "/") then a + b
    else a + "/" + b
  }

  function Enter(at: Location, segment: string): Location {
    if segment == "" || segment == "." then at
    else if segment == ".." && at != [] && at[|at| - 1] != ".." then at[..|at| - 1]
    else at + [segment]
  }

  function Walk(at: Location, segments: seq<string>): Location
    decreases |segments|
  {
    if segments == [] then at else Walk(Enter(at, segments[0]), segments[1..])
  }

  /** The location a path string names. */
  function Locate(path: string): Location {
    Walk([], Split(path, '/'))
  }

  /** The segments of a relative path that move: neither empty nor `.`. */
  function Moves(segments: seq<string>): (r: seq<string>)
    ensures forall s | s in r :: s in segments && s != "" && s != "."
  {
    if segments == [] then []
    else if segments[0] == "" || segments[0] == "." then Moves(segments[1..])
    else [segments[0]] + Moves(segments[1..])
  }

  predicate Beneath(dir: Location, at: Location) {
    dir <= at
  }

  lemma {:induction false} WalkAppend(at: Location, a: seq<string>, b: seq<string>)
    ensures Walk(at, a + b) == Walk(Walk(at, a), b)
    decreases |a|
  {
    if a == [] {
      assert a + b == b;
    } else {
      assert (a + b)[1..] == a[1..] + b;
      WalkAppend(Enter(at, a[0]), a[1..], b);
    }
  }

  /** Without `..` a walk only goes down, by its moving segments. */
  lemma {:induction false} WalkDown(at: Location, segments: seq<string>)
    requires ".." !in segments
    ensures Walk(at, segments) == at + Moves(segments)
    decreases |segments|
  {
    if segments != [] {
      WalkDown(Enter(at, segments[0]), segments[1..]);
      assert at + [segments[0]] + Moves(segments[1..]) == at + ([segments[0]] + Moves(segments[1..]));
    }
  }

  /** Joining a relative path walks it from where the first path leads. */
  lemma LocateJoin(a: string, b: string)
    requires !StartsWith(b, "/")
    ensures Locate(JoinPath(a, b)) == Walk(Locate(a), Split(b, '/'))
  {
    if a == "" {
      assert Split(a, '/') == [""];
      assert [""][1..] == [];
    } else if EndsWith(a, "/") {
      var front := a[..|a| - 1];
      assert a == front + "/" && a + b == front + "/" + b && a == front + "/" + "";
      SplitAppend(front, b, '/');
      SplitAppend(front, "", '/');
      WalkAppend([], Split(front, '/'), Split(b, '/'));
      WalkAppend([], Split(front, '/'), [""]);
      assert [""][1..] == [];
    } else {
      SplitAppend(a, b, '/');
      WalkAppend([], Split(a, '/'), Split(b, '/'));
    }
  }

  /** Every segment occurs in the path it was split from. */
  lemma SegmentOccurs(path: string, i: nat)
    requires i < |Split(path, '/')|
    ensures Contains(path, Split(path, '/')[i])
  {
    hide FindFrom, Split;
    var pieces := Split(path, '/');
    var piece, at := pieces[i], Offset(pieces, i);
    JoinOfSplit(path, '/');
    CutJoin(pieces, i, |piece|, '/');
    var upTo := pieces[..i] + [piece[..|piece|]];
    OffsetPrefix(upTo, pieces, i);
    CutJoin(upTo, i, 0, '/');
    assert upTo[i][0..] == piece && upTo[i + 1..] == [];
    assert [piece] + [] == [piece] && Join([piece], '/') == piece;
    assert path[at..at + |piece|] == path[..at + |piece|][at..];
    assert OccursAt(path, piece, at);
  }

  /** A path without the text `..` has no `..` segment. */
  lemma NoParentSegment(path: string)
    requires !Contains(path, "..")
    ensures ".." !in Split(path, '/')
  {
    hide FindFrom, Contains, Split;
    forall i | 0 <= i < |Split(path, '/')| ensures Split(path, '/')[i] != ".." {
      SegmentOccurs(path, i);
    }
  }

  lemma {:induction false} SplitSingle(s: string)
    requires '/' !in s
    ensures Split(s, '/') == [s]
  {
    assert Join([s], '/') == s;
    SplitOfJoin([s], '/');
  }

  // ---- paths as they are typed ---------------------------------------------------

  /** One slash between a path and a relative name, whether or not the path ends in one. */
  lemma OneSlashJoinsPaths(a: string, b: string)
    requires a != "" && a[|a| - 1] != '/' && (b != "" ==> b[0] != '/')
    ensures JoinPath(a, b) == a + "/" + b && JoinPath(a + "/", b) == a + "/" + b
  {
    assert a[|a| - 1..] == [a[|a| - 1]];
    assert (a + "/")[|a|..] == "/";
    if b != "" { assert b[..1] == [b[0]]; }
  }

  /** A segment that names something, in place. */
  predicate Proper(segment: string) {
    '/' !in segment && segment != "" && segment != "." && segment != ".."
  }

  lemma {:induction false} WalkPlain(at: Location, segments: seq<string>)
    requires forall s | s in segments :: Proper(s)
    ensures Walk(at, segments) == at + segments
    decreases |segments|
  {
    if segments != [] {
      assert segments[0] in segments && Enter(at, segments[0]) == at + [segments[0]];
      WalkPlain(at + [segments[0]], segments[1..]);
      assert at + [segments[0]] + segments[1..] == at + segments;
    } else {
      assert at + segments == at;
    }
  }

  /** Proper segments joined by slashes are the location; a leading, trailing or double slash adds nothing. */
  lemma LocateSpelled(segments: seq<string>, path: string, name: string)
    requires segments != [] && (forall s | s in segments :: Proper(s)) && Proper(name)
    ensures Locate(Join(segments, '/')) == segments
    ensures Locate(path + "/") == Locate(path) == Locate(path + "/" + ".")
    ensures Locate(path + "/" + name) == Locate(path) + [name]
    ensures Locate(path + "/" + name + "/" + "..") == Locate(path)
  {
    hide Locate;
    assert forall i :: 0 <= i < |segments| ==> segments[i] in segments;
    SplitOfJoin(segments, '/');
    WalkPlain([], segments);
    assert Locate(Join(segments, '/')) == segments by { LocateIs(Join(segments, '/')); assert [] + segments == segments; }
    LocateAfter(path, "");
    LocateAfter(path, ".");
    LocateAfter(path, name);
    LocateAfter(path + "/" + name, "..");
    assert path + "/" == path + "/" + "";
  }

  lemma LocateIs(path: string)
    ensures Locate(path) == Walk([], Split(path, '/'))
  {
  }

  /** One more segment. */
  lemma LocateAfter(path: string, segment: string)
    requires '/' !in segment
    ensures Locate(path + "/" + segment) == Enter(Locate(path), segment)
  {
    SplitAppend(path, segment, '/');
    SplitSingle(segment);
    WalkAppend([], Split(path, '/'), [segment]);
    assert [segment][1..] == [];
    assert path + "/" + segment == path + ['/'] + segment;
  }
}
