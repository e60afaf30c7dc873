/**
  Longest-prefix lookup in the mount table.  A line is its whitespace-separated
  fields: device, mount point, file-system type, and options.
*/
module Mounts {
  import opened Wrappers
  import opened Strings

  type Line = seq<string>

  /** The test both lookups apply to a mount point. */
  predicate OnMount(target: string, mp: string) {
    target == mp || StartsWith(target, mp + "/")
  }

  predicate DeviceLine(line: Line, target: string) {
    |line| >= 2 && StartsWith(line[0], "/dev/") && OnMount(target, line[1])
  }

  predicate FsLine(line: Line, target: string) {
    |line| >= 3 && OnMount(target, line[1])
  }

  /** Line `i` passes the test, none that passes has a longer mount point, none before it an equal one. */
  ghost predicate IsBest(lines: seq<Line>, passes: Line -> bool, i: nat) {
    && i < |lines| && |lines[i]| >= 2 && passes(lines[i])
    && (forall j :: 0 <= j < |lines| && |lines[j]| >= 2 && passes(lines[j]) ==> |lines[j][1]| <= |lines[i][1]|)
    && (forall j :: 0 <= j < i && |lines[j]| >= 2 && passes(lines[j]) ==> |lines[j][1]| < |lines[i][1]|)
  }

  ghost predicate NonePasses(lines: seq<Line>, passes: Line -> bool) {
    forall j :: 0 <= j < |lines| && |lines[j]| >= 2 ==> !passes(lines[j])
  }

  /** `device_for_mount`, from the canonical target on. */
  method DeviceForMount(lines: seq<Line>, target: string) returns (r: Option<string>)
    ensures r.None? ==> NonePasses(lines, line => DeviceLine(line, target))
    ensures r.Some? ==> exists i: nat :: IsBest(lines, line => DeviceLine(line, target), i) && r.value == lines[i][0]
  {
    hide OnMount, StartsWith;
    var best: Option<(nat, string)> := None;
    ghost var at := 0;
    for k := 0 to |lines|
      invariant best.None? ==> forall j :: 0 <= j < k ==> !DeviceLine(lines[j], target)
      invariant best.Some? ==> at < k && DeviceLine(lines[at], target) && best.value == (|lines[at][1]|, lines[at][0])
      invariant best.Some? ==> forall j :: 0 <= j < k && DeviceLine(lines[j], target) ==> |lines[j][1]| <= |lines[at][1]|
      invariant best.Some? ==> forall j :: 0 <= j < at && DeviceLine(lines[j], target) ==> |lines[j][1]| < |lines[at][1]|
    {
      var fields := lines[k];
      if |fields| < 2 {
        continue;
      }
      var dev, mp := fields[0], fields[1];
      if !StartsWith(dev, "/dev/") {
        continue;
      }
      if OnMount(target, mp) && (best.None? || |mp| > best.value.0) {
        best := Some((|mp|, dev));
        at := k;
      }
    }
    if best.None? {
      return None;
    }
    assert IsBest(lines, line => DeviceLine(line, target), at);
    return Some(best.value.1);
  }

  /** `filesystem_type`: any source counts, and the type field must be there. */
  method FilesystemType(lines: seq<Line>, target: string) returns (r: Option<string>)
    ensures r.None? ==> NonePasses(lines, line => FsLine(line, target))
    ensures r.Some? ==> exists i: nat :: (IsBest(lines, line => FsLine(line, target), i) && |lines[i]| >= 3 && r.value == lines[i][2])
  {
    hide OnMount, StartsWith;
    var best: Option<(string, nat)> := None;
    ghost var at := 0;
    for k := 0 to |lines|
      invariant best.None? ==> forall j :: 0 <= j < k ==> !FsLine(lines[j], target)
      invariant best.Some? ==> at < k && FsLine(lines[at], target) && best.value == (lines[at][2], |lines[at][1]|)
      invariant best.Some? ==> forall j :: 0 <= j < k && FsLine(lines[j], target) ==> |lines[j][1]| <= |lines[at][1]|
      invariant best.Some? ==> forall j :: 0 <= j < at && FsLine(lines[j], target) ==> |lines[j][1]| < |lines[at][1]|
    {
      var fields := lines[k];
      if |fields| < 3 {
        continue;
      }
      var mp, fs := fields[1], fields[2];
      if OnMount(target, mp) && (best.None? || |mp| > best.value.1) {
        best := Some((fs, |mp|));
        at := k;
      }
    }
    if best.None? {
      return None;
    }
    assert IsBest(lines, line => FsLine(line, target), at);
    return Some(best.value.0);
  }

  // ---- what a match is -------------------------------------------------------------

  lemma {:induction false} JoinPrefix(a: seq<string>, b: seq<string>)
    requires |a| > 0 && a <= b
    ensures OnMount(Join(b, '/'), Join(a, '/'))
  {
    var rest := b[|a|..];
    assert b == a + rest;
    if rest == [] {
      assert a == b;
    } else {
      JoinAppend(a, rest, '/');
      var mp, t := Join(a, '/'), Join(b, '/');
      assert t == mp + "/" + Join(rest, '/');
      assert t[..|mp + "/"|] == mp + "/";
    }
  }

  /** A mount point matches exactly when its path components are the target's first ones. */
  lemma MatchIsComponentPrefix(target: string, mp: string)
    ensures OnMount(target, mp) <==> Split(mp, '/') <= Split(target, '/')
  {
    hide Split, Join;
    JoinOfSplit(mp, '/');
    JoinOfSplit(target, '/');
    if Split(mp, '/') <= Split(target, '/') {
      JoinPrefix(Split(mp, '/'), Split(target, '/'));
    }
    if OnMount(target, mp) && target != mp {
      var rest := target[|mp| + 1..];
      assert target == target[..|mp + "/"|] + rest;
      SplitAppend(mp, rest, '/');
    }
  }

  /** The root mount point matches the root, and else only what starts with `//`, which no canonical path does. */
  lemma RootMatchesOnlyRoot(target: string)
    ensures OnMount(target, "/") <==> target == "/" || StartsWith(target, "//")
  {
    assert "/" + "/" == "//";
  }

  /** Matching mount points of equal length are equal. */
  lemma EqualLengthMatchesAreEqual(target: string, a: string, b: string)
    requires OnMount(target, a) && OnMount(target, b) && |a| == |b|
    ensures a == b
  {
    assert StartsWith(target, a + "/") ==> target[..|a|] == target[..|a + "/"|][..|a|] == a;
    assert StartsWith(target, b + "/") ==> target[..|b|] == target[..|b + "/"|][..|b|] == b;
    assert target == a ==> target[..|a|] == a;
    assert target == b ==> target[..|b|] == b;
  }

  /** The chosen mount point does not depend on the order of the lines. */
  lemma MountPointIgnoresOrder(lines: seq<Line>, reordered: seq<Line>, target: string, i: nat, j: nat)
    requires multiset(lines) == multiset(reordered)
    requires IsBest(lines, line => DeviceLine(line, target), i)
    requires IsBest(reordered, line => DeviceLine(line, target), j)
    ensures lines[i][1] == reordered[j][1]
  {
    hide OnMount, StartsWith;
    assert lines[i] in multiset(reordered) && reordered[j] in multiset(lines);
    var i' :| 0 <= i' < |reordered| && reordered[i'] == lines[i];
    var j' :| 0 <= j' < |lines| && lines[j'] == reordered[j];
    EqualLengthMatchesAreEqual(target, lines[i][1], reordered[j][1]);
  }

  /** The mount point a lookup chooses, or none. */
  ghost predicate Chooses(lines: seq<Line>, passes: Line -> bool, mp: Option<string>) {
    match mp
    case None => NonePasses(lines, passes)
    case Some(m) => exists i: nat :: IsBest(lines, passes, i) && lines[i][1] == m
  }

  /**
    On every table and target, both lookups choose the same mount point, or both
    none, exactly when: no /dev line matches, if no line with a type field does;
    otherwise some /dev line has the mount point the typed lookup chose, and no
    matching /dev line (it would have two fields only) a longer one.
  */
  lemma LookupsAgreeIff(lines: seq<Line>, target: string, d: Option<string>, f: Option<string>)
    requires Chooses(lines, line => DeviceLine(line, target), d)
    requires Chooses(lines, line => FsLine(line, target), f)
    ensures d == f <==>
            match f
            case None => forall k :: 0 <= k < |lines| ==> !DeviceLine(lines[k], target)
            case Some(m) =>
              && (exists k :: 0 <= k < |lines| && DeviceLine(lines[k], target) && lines[k][1] == m)
              && (forall k :: 0 <= k < |lines| && DeviceLine(lines[k], target) ==> |lines[k][1]| <= |m|)
  {
    hide OnMount, StartsWith;
    if d.Some? && f.Some? {
      var i: nat :| IsBest(lines, line => DeviceLine(line, target), i) && lines[i][1] == d.value;
      var k: nat :| IsBest(lines, line => FsLine(line, target), k) && lines[k][1] == f.value;
      if |d.value| == |f.value| { EqualLengthMatchesAreEqual(target, d.value, f.value); }
    }
  }
}
