/**
  Block-device names: from a whole disk and a number to a partition, and back.
*/
module Devices {
  import opened Wrappers
  import opened Strings
  import opened ListingScanner
  import opened Alphabets

  // ---- decimal numbers ----------------------------------------------------------

  /** `{n}` in a format string. */
  function Decimal(n: nat): (r: string)
    ensures r != "" && AllDigits(r)
  {
    var d := [((n % 10) + '0' as int) as char];
    if n < 10 then d else Decimal(n / 10) + d
  }

  lemma {:induction false} DecimalReadsBack(n: nat)
    ensures DecimalValue(Decimal(n)) == n
  {
    var s := Decimal(n);
    if n < 10 {
      assert s[..|s| - 1] == "";
    } else {
      assert s[..|s| - 1] == Decimal(n / 10);
      DecimalReadsBack(n / 10);
    }
  }

  // ---- naming partitions ------------------------------------------------------------

  predicate NeedsP(dev: string) {
    StartsWith(dev, "/dev/nvme") || StartsWith(dev, "/dev/mmcblk") || StartsWith(dev, "/dev/loop")
  }

  /** `partition_path`. */
  function PartitionPath(dev: string, n: nat): string {
    if NeedsP(dev) then dev + "p" + Decimal(n) else dev + Decimal(n)
  }

  predicate EndsInDigit(s: string) {
    s != "" && IsDigit(s[|s| - 1])
  }

  /** `partition2_path`, which looks at the last character instead of the prefix. */
  function Partition2Path(dev: string): string {
    if EndsInDigit(dev) then dev + "p2" else dev + "2"
  }

  // ---- and back -------------------------------------------------------------------------

  predicate IsAlpha(c: char) {
    'a' <= c <= 'z' || 'A' <= c <= 'Z'
  }

  predicate SataPrefix(stem: string) {
    StartsWith(stem, "sd") || StartsWith(stem, "vd") || StartsWith(stem, "hd") || StartsWith(stem, "xvd")
  }

  /** Where the trailing run of digits starts. */
  function DigitsStart(s: string): (r: nat)
    ensures r <= |s| && AllDigits(s[r..]) && (r > 0 ==> !IsDigit(s[r - 1]))
  {
    if EndsInDigit(s) then DigitsStart(s[..|s| - 1]) else |s|
  }

  /** What `parent_disk` decides once the digit run is known. */
  function StripAt(stem: string, start: nat): (r: Option<string>)
    requires start <= |stem|
    ensures r.Some? ==> start > 0 && (|r.value| == 5 + start || (|r.value| == 4 + start && stem[start - 1] == 'p'))
  {
    if start == |stem| || start == 0 then None
    else if stem[start - 1] == 'p' && start >= 2 && IsDigit(stem[start - 2]) then Some("/dev/" + stem[..start - 1])
    else if SataPrefix(stem) && IsAlpha(stem[start - 1]) then Some("/dev/" + stem[..start])
    else None
  }

  function ParentOf(partition: string): Option<string> {
    if !StartsWith(partition, "/dev/") then None
    else
      var stem := partition[5..];
      StripAt(stem, DigitsStart(stem))
  }

  method ParentDisk(partition: string) returns (r: Option<string>)
    ensures r == ParentOf(partition)
  {
    if !StartsWith(partition, "/dev/") {
      return None;
    }
    var stem := partition[5..];
    if stem == "" {
      return None;
    }
    hide StripAt;
    var digitsStart := |stem|;
    assert stem[..digitsStart] == stem;
    while digitsStart > 0 && IsDigit(stem[digitsStart - 1])
      invariant 0 <= digitsStart <= |stem|
      invariant DigitsStart(stem) == DigitsStart(stem[..digitsStart])
    {
      assert stem[..digitsStart][..digitsStart - 1] == stem[..digitsStart - 1];
      digitsStart := digitsStart - 1;
    }
    return StripAt(stem, digitsStart);
  }

  // ---- exactly when the two are inverse ------------------------------------------------------

  lemma {:induction false} DigitsStartAppend(s: string, digits: string)
    requires AllDigits(digits)
    ensures DigitsStart(s + digits) == DigitsStart(s)
  {
    if digits == "" {
      assert s + digits == s;
    } else {
      var front := digits[..|digits| - 1];
      assert (s + digits)[..|s + digits| - 1] == s + front;
      DigitsStartAppend(s, front);
    }
  }

  /** A name `parent_disk` finds again after `partition_path` extended it. */
  predicate Recoverable(dev: string) {
    StartsWith(dev, "/dev/") && |dev| > 5 &&
    var stem := dev[5..];
    var last := stem[|stem| - 1];
    if NeedsP(dev) then IsDigit(last)
    else SataPrefix(stem) && IsAlpha(last) && !(last == 'p' && |stem| >= 2 && IsDigit(stem[|stem| - 2]))
  }

  lemma SataPrefixOfExtension(stem: string, digits: string)
    requires AllDigits(digits)
    ensures SataPrefix(stem + digits) <==> SataPrefix(stem)
  {
    var s := stem + digits;
    assert |s| >= 2 ==> s[..2][0] == s[0] && s[..2][1] == s[1];
    assert |s| >= 3 ==> s[..3][0] == s[0] && s[..3][1] == s[1] && s[..3][2] == s[2];
    assert |stem| >= 2 ==> s[..2] == stem[..2];
    assert |stem| >= 3 ==> s[..3] == stem[..3];
  }

  lemma PFamilyIsNotSata(dev: string)
    requires NeedsP(dev)
    ensures |dev| > 5 && StartsWith(dev, "/dev/") && (dev[5] == 'n' || dev[5] == 'm' || dev[5] == 'l')
  {
    assert |dev| >= 9 ==> dev[..9][..5] == dev[..5];
    assert |dev| >= 11 ==> dev[..11][..5] == dev[..5] && dev[..11][5] == dev[5];
    assert |dev| >= 9 ==> dev[..9][5] == dev[5];
  }

  lemma DevPrefixOfExtension(dev: string, tail: string)
    requires forall i :: 0 <= i < |tail| ==> tail[i] != '/'
    ensures StartsWith(dev + tail, "/dev/") <==> StartsWith(dev, "/dev/")
  {
    var s := dev + tail;
    if |dev| >= 5 {
      assert s[..5] == dev[..5];
    } else if |s| >= 5 {
      assert s[..5][4] == tail[4 - |dev|];
    }
  }

  /** For every name and number: the partition leads back to the name exactly when it is recoverable. */
  lemma ParentUndoesPartitionIff(dev: string, n: nat)
    ensures ParentOf(PartitionPath(dev, n)) == Some(dev) <==> Recoverable(dev)
  {
    var digits := Decimal(n);
    var tail := if NeedsP(dev) then "p" + digits else digits;
    var part := PartitionPath(dev, n);
    assert part == dev + tail;
    DevPrefixOfExtension(dev, tail);
    if StartsWith(dev, "/dev/") {
      var stem := dev[5..];
      assert part[5..] == stem + tail;
      assert dev == "/dev/" + stem;
      if NeedsP(dev) {
        PFamilyIsNotSata(dev);
        StripP(stem, digits);
      } else {
        StripDigits(stem, digits);
      }
    }
  }

  lemma StripP(stem: string, digits: string)
    requires stem != "" && (stem[0] == 'n' || stem[0] == 'm' || stem[0] == 'l') && digits != "" && AllDigits(digits)
    ensures var s := stem + ("p" + digits);
            StripAt(s, DigitsStart(s)) == Some("/dev/" + stem) <==> EndsInDigit(stem)
  {
    var s := stem + ("p" + digits);
    assert s == (stem + "p") + digits;
    DigitsStartAppend(stem + "p", digits);
    assert !EndsInDigit(stem + "p");
    assert DigitsStart(s) == |stem| + 1;
    assert s[..|stem|] == stem;
    assert !SataPrefix(s) by {
      assert s[..2][0] == s[0];
      assert |s| >= 3 ==> s[..3][0] == s[0];
    }
  }

  lemma StripDigits(stem: string, digits: string)
    requires digits != "" && AllDigits(digits)
    ensures var s := stem + digits;
            StripAt(s, DigitsStart(s)) == Some("/dev/" + stem) <==>
            stem != "" && SataPrefix(stem) && IsAlpha(stem[|stem| - 1]) &&
            !(stem[|stem| - 1] == 'p' && |stem| >= 2 && IsDigit(stem[|stem| - 2]))
  {
    var s := stem + digits;
    DigitsStartAppend(stem, digits);
    SataPrefixOfExtension(stem, digits);
    assert s[..|stem|] == stem;
    assert EndsInDigit(stem) ==> DigitsStart(s) < |stem|;
    assert !EndsInDigit(stem) ==> DigitsStart(s) == |stem|;
    assert |"/dev/" + stem| == 5 + |stem|;
  }

  // ---- the kernel's whole-disk families --------------------------------------------------------

  datatype Disk =
    | Sata(prefix: string, letters: string)
    | Nvme(controller: nat, namespace: nat)
    | Mmc(index: nat)
    | Loop(index: nat)

  ghost predicate DiskOk(d: Disk) {
    d.Sata? ==>
      && (d.prefix == "sd" || d.prefix == "vd" || d.prefix == "hd" || d.prefix == "xvd")
      && d.letters != "" && forall i :: 0 <= i < |d.letters| ==> 'a' <= d.letters[i] <= 'z'
  }

  function DevPath(d: Disk): string {
    match d
    case Sata(prefix, letters) => "/dev/" + (prefix + letters)
    case Nvme(controller, namespace) => "/dev/" + ("nvme" + Decimal(controller) + "n" + Decimal(namespace))
    case Mmc(index) => "/dev/" + ("mmcblk" + Decimal(index))
    case Loop(index) => "/dev/" + ("loop" + Decimal(index))
  }

  /** A numbered family's name: the digits at its end follow a letter no partition name has there. */
  lemma NumberedDisk(stem: string, base: string, n: nat)
    requires stem == base + Decimal(n) && base != "" && !IsDigit(base[|base| - 1])
    requires base[|base| - 1] == 'p' ==> |base| >= 2 && !IsDigit(base[|base| - 2])
    requires base[0] == 'n' || base[0] == 'm' || base[0] == 'l'
    ensures EndsInDigit(stem) && ParentOf("/dev/" + stem).None?
  {
    hide Decimal, SataPrefix;
    DigitsStartAppend(base, Decimal(n));
    assert DigitsStart(base) == |base|;
    NotSata(stem);
    ParentUnderDev(stem);
  }

  lemma NotSata(stem: string)
    requires stem != "" && stem[0] != 's' && stem[0] != 'v' && stem[0] != 'h' && stem[0] != 'x'
    ensures !SataPrefix(stem)
  {
    assert |stem| >= 2 ==> stem[..2][0] == stem[0];
    assert |stem| >= 3 ==> stem[..3][0] == stem[0];
  }

  lemma ParentUnderDev(stem: string)
    ensures ParentOf("/dev/" + stem) == StripAt(stem, DigitsStart(stem))
  {
    hide StripAt, DigitsStart;
    assert ("/dev/" + stem)[..5] == "/dev/" && ("/dev/" + stem)[5..] == stem;
  }

  lemma SataStem(prefix: string, letters: string)
    requires DiskOk(Sata(prefix, letters))
    ensures var stem := prefix + letters;
            && SataPrefix(stem) && |stem| >= 3 && (stem[0] == 's' || stem[0] == 'v' || stem[0] == 'h' || stem[0] == 'x')
            && (forall i :: 0 <= i < |stem| ==> !IsDigit(stem[i])) && IsAlpha(stem[|stem| - 1])
  {
    var stem := prefix + letters;
    assert stem[..|prefix|] == prefix && stem[|stem| - 1] == letters[|letters| - 1];
  }

  lemma SataDisk(prefix: string, letters: string)
    requires DiskOk(Sata(prefix, letters))
    ensures var dev := DevPath(Sata(prefix, letters));
            Recoverable(dev) && ParentOf(dev).None? && !NeedsP(dev) && !EndsInDigit(dev)
  {
    SataStem(prefix, letters);
    LetteredDisk(prefix + letters);
  }

  /** A lettered disk without digits. */
  lemma LetteredDisk(stem: string)
    requires SataPrefix(stem) && |stem| >= 3 && (stem[0] == 's' || stem[0] == 'v' || stem[0] == 'h' || stem[0] == 'x')
    requires (forall i :: 0 <= i < |stem| ==> !IsDigit(stem[i])) && IsAlpha(stem[|stem| - 1])
    ensures var dev := "/dev/" + stem; Recoverable(dev) && ParentOf(dev).None? && !NeedsP(dev) && !EndsInDigit(dev)
  {
    hide SataPrefix, IsAlpha, NeedsP, ParentOf;
    var dev := "/dev/" + stem;
    SataIsNotP(dev, stem);
    ParentUnderDev(stem);
    DevStarts(stem);
    assert dev[5..] == stem && dev[|dev| - 1] == stem[|stem| - 1];
    assert DigitsStart(stem) == |stem|;
  }

  /** A name of a numbered family, opened by the family's own prefix. */
  lemma NumberedIsRecoverable(dev: string, base: string, n: nat)
    requires dev == "/dev/" + (base + Decimal(n)) && NeedsP(dev) && base != "" && !IsDigit(base[|base| - 1])
    requires base[|base| - 1] == 'p' ==> |base| >= 2 && !IsDigit(base[|base| - 2])
    ensures Recoverable(dev) && ParentOf(dev).None? && EndsInDigit(dev)
  {
    hide ParentOf, NeedsP;
    var stem := base + Decimal(n);
    PFamilyIsNotSata(dev);
    assert dev[5] == stem[0] == base[0];
    NumberedDisk(stem, base, n);
    assert dev[5..] == stem && dev[|dev| - 1] == stem[|stem| - 1];
  }

  lemma WholeDiskIsRecoverable(d: Disk)
    requires DiskOk(d)
    ensures Recoverable(DevPath(d)) && ParentOf(DevPath(d)).None?
    ensures NeedsP(DevPath(d)) <==> EndsInDigit(DevPath(d))
  {
    hide Recoverable, ParentOf, EndsInDigit;
    match d
    case Sata(prefix, letters) =>
      SataDisk(prefix, letters);
    case Nvme(controller, namespace) =>
      var base := "nvme" + Decimal(controller) + "n";
      assert DevPath(d)[..9] == "/dev/nvme";
      NumberedIsRecoverable(DevPath(d), base, namespace);
    case Mmc(index) =>
      assert DevPath(d)[..11] == "/dev/mmcblk";
      NumberedIsRecoverable(DevPath(d), "mmcblk", index);
    case Loop(index) =>
      assert DevPath(d)[..9] == "/dev/loop";
      NumberedIsRecoverable(DevPath(d), "loop", index);
  }

  lemma SataIsNotP(dev: string, stem: string)
    requires dev == "/dev/" + stem && |stem| >= 2 && (stem[0] == 's' || stem[0] == 'v' || stem[0] == 'h' || stem[0] == 'x')
    ensures !NeedsP(dev)
  {
    assert dev[5] == stem[0];
    if NeedsP(dev) { PFamilyIsNotSata(dev); }
  }

  /** Naming a partition of a whole disk and asking for its parent gives the disk back. */
  lemma PartitionRoundTrip(d: Disk, n: nat)
    requires DiskOk(d)
    ensures ParentOf(PartitionPath(DevPath(d), n)) == Some(DevPath(d)) && ParentOf(DevPath(d)).None?
    ensures Partition2Path(DevPath(d)) == PartitionPath(DevPath(d), 2)
  {
    hide DevPath, Recoverable, ParentOf;
    WholeDiskIsRecoverable(d);
    ParentUndoesPartitionIff(DevPath(d), n);
    Partition2AgreesIff(DevPath(d));
  }

  /** Two different disk and number pairs never share a partition path. */
  lemma PartitionPathIsInjective(d: Disk, n: nat, e: Disk, m: nat)
    requires DiskOk(d) && DiskOk(e) && PartitionPath(DevPath(d), n) == PartitionPath(DevPath(e), m)
    ensures DevPath(d) == DevPath(e) && n == m
  {
    hide DevPath, Recoverable, ParentOf, NeedsP;
    PartitionRoundTrip(d, n);
    PartitionRoundTrip(e, m);
    var dev, part := DevPath(d), PartitionPath(DevPath(d), n);
    var base := if NeedsP(dev) then dev + "p" else dev;
    assert part[|base|..] == Decimal(n) && part[|base|..] == Decimal(m);
    DecimalReadsBack(n);
    DecimalReadsBack(m);
  }

  /** The two ways to name partition 2 agree exactly where prefix and last character agree. */
  lemma Partition2AgreesIff(dev: string)
    ensures Partition2Path(dev) == PartitionPath(dev, 2) <==> (EndsInDigit(dev) <==> NeedsP(dev))
  {
    hide NeedsP;
    assert Decimal(2) == "2";
    assert dev + "p" + "2" == dev + "p2";
    assert |dev + "p2"| != |dev + "2"|;
  }

  /** A witness outside the families: the bare name `loop` is not recovered. */
  lemma BareLoopIsLost()
    ensures ParentOf(PartitionPath("/dev/loop", 1)) != Some("/dev/loop")
  {
    assert "/dev/loop"[..9] == "/dev/loop" && "/dev/loop"[5..] == "loop";
    ParentUndoesPartitionIff("/dev/loop", 1);
  }

  // ---- both functions as they are typed ----------------------------------------------------

  lemma {:induction false} NoLeadingZero(n: nat)
    ensures n == 0 ==> Decimal(n) == "0"
    ensures n > 0 ==> Decimal(n)[0] != '0'
  {
    if n >= 10 { NoLeadingZero(n / 10); }
  }

  /** The number is written in decimal, without leading zeros, after a `p` for the three numbered families. */
  lemma PartitionPathSpelled(dev: string, n: nat)
    ensures var sep := if StartsWith(dev, "/dev/nvme") || StartsWith(dev, "/dev/mmcblk") || StartsWith(dev, "/dev/loop") then "p" else "";
            exists tail: string ::
              && PartitionPath(dev, n) == dev + sep + tail && tail != "" && AllDigits(tail)
              && DecimalValue(tail) == n && (tail == "0" || tail[0] != '0')
  {
    hide Decimal, DecimalValue, StartsWith;
    DecimalReadsBack(n);
    NoLeadingZero(n);
    var tail := Decimal(n);
    assert dev + "" == dev;
  }

  /** A disk whose partitions are numbered after a `p`. */
  ghost predicate NumberedName(d: string) {
    StartsWith(d, "/dev/") && |d| > 5 && d[|d| - 1] in DIGITS
  }

  /** A disk whose partitions are numbered right after its letters. */
  ghost predicate LetteredName(d: string) {
    && (StartsWith(d, "/dev/sd") || StartsWith(d, "/dev/vd") || StartsWith(d, "/dev/hd") || StartsWith(d, "/dev/xvd"))
    && (d[|d| - 1] in LOWER || d[|d| - 1] in UPPER)
    && !(d[|d| - 1] == 'p' && d[|d| - 2] in DIGITS)
  }

  lemma LetteredIs(stem: string)
    requires stem != ""
    ensures LetteredName("/dev/" + stem) <==>
            SataPrefix(stem) && IsAlpha(stem[|stem| - 1]) && !(stem[|stem| - 1] == 'p' && |stem| >= 2 && IsDigit(stem[|stem| - 2]))
  {
    hide DIGITS, LOWER, UPPER;
    var d := "/dev/" + stem;
    Members(d[|d| - 1]);
    Members(d[|d| - 2]);
    PrefixUnderDev(stem, "sd");
    PrefixUnderDev(stem, "vd");
    PrefixUnderDev(stem, "hd");
    PrefixUnderDev(stem, "xvd");
    assert "/dev/" + "sd" == "/dev/sd" && "/dev/" + "vd" == "/dev/vd" && "/dev/" + "hd" == "/dev/hd" && "/dev/" + "xvd" == "/dev/xvd";
    hide StartsWith;
    assert |stem| == 1 ==> d[|d| - 2] == '/';
  }

  lemma PrefixUnderDev(stem: string, prefix: string)
    ensures StartsWith("/dev/" + stem, "/dev/" + prefix) <==> StartsWith(stem, prefix)
  {
    var d, p := "/dev/" + stem, "/dev/" + prefix;
    if |prefix| <= |stem| {
      assert d[..|p|] == "/dev/" + stem[..|prefix|];
      assert ("/dev/" + stem[..|prefix|])[5..] == stem[..|prefix|] && p[5..] == prefix;
    }
  }

  /** The digits at the end of a name, cut off. */
  lemma DigitsEndAt(stem: string, digits: string)
    requires digits != "" && AllDigits(digits) && stem != "" && !IsDigit(stem[|stem| - 1])
    ensures DigitsStart(stem + digits) == |stem|
  {
    DigitsStartAppend(stem, digits);
  }

  /** What a partition path that has a parent looks like. */
  ghost predicate IsPartitionOf(p: string, d: string, digits: string) {
    && digits != "" && AllDigits(digits)
    && ((NumberedName(d) && p == d + "p" + digits) || (LetteredName(d) && p == d + digits))
  }

  lemma StripAtIff(stem: string, parent: string)
    ensures StripAt(stem, DigitsStart(stem)) == Some("/dev/" + parent) <==>
            exists digits :: IsPartitionOf("/dev/" + stem, "/dev/" + parent, digits)
  {
    hide LetteredName, DIGITS, StripAt, IsPartitionOf;
    if StripAt(stem, DigitsStart(stem)) == Some("/dev/" + parent) {
      StrippedIsPartition(stem, parent);
    }
    if digits :| IsPartitionOf("/dev/" + stem, "/dev/" + parent, digits) {
      PartitionIsStripped(stem, parent, digits);
    }
  }

  lemma StrippedIsPartition(stem: string, parent: string)
    requires StripAt(stem, DigitsStart(stem)) == Some("/dev/" + parent)
    ensures IsPartitionOf("/dev/" + stem, "/dev/" + parent, stem[DigitsStart(stem)..])
  {
    hide SataPrefix, IsAlpha, IsPartitionOf;
    var start := DigitsStart(stem);
    var digits := stem[start..];
    if stem[start - 1] == 'p' && start >= 2 && IsDigit(stem[start - 2]) {
      SameUnderDev(parent, stem[..start - 1]);
      assert stem == parent + "p" + digits;
      NumberedPartition(parent, digits);
    } else {
      SameUnderDev(parent, stem[..start]);
      assert stem == parent + digits;
      LetteredPartition(parent, digits);
    }
  }

  lemma NumberedPartition(parent: string, digits: string)
    requires digits != "" && AllDigits(digits) && EndsInDigit(parent)
    ensures IsPartitionOf("/dev/" + (parent + "p" + digits), "/dev/" + parent, digits)
  {
    hide LetteredName, DIGITS, AllDigits;
    Members(parent[|parent| - 1]);
    DevStarts(parent);
    assert "/dev/" + (parent + "p" + digits) == "/dev/" + parent + "p" + digits;
  }

  lemma LetteredPartition(parent: string, digits: string)
    requires digits != "" && AllDigits(digits) && parent != "" && SataPrefix(parent + digits) && IsAlpha(parent[|parent| - 1])
    requires !(parent[|parent| - 1] == 'p' && |parent| >= 2 && IsDigit(parent[|parent| - 2]))
    ensures IsPartitionOf("/dev/" + (parent + digits), "/dev/" + parent, digits)
  {
    hide LetteredName, NumberedName, SataPrefix, IsAlpha;
    SataPrefixOfExtension(parent, digits);
    LetteredIs(parent);
    assert "/dev/" + (parent + digits) == "/dev/" + parent + digits;
  }

  lemma SameUnderDev(a: string, b: string)
    requires "/dev/" + a == "/dev/" + b
    ensures a == b
  {
    assert ("/dev/" + a)[5..] == a && ("/dev/" + b)[5..] == b;
  }

  lemma DevStarts(parent: string)
    ensures StartsWith("/dev/" + parent, "/dev/")
  {
    assert ("/dev/" + parent)[..5] == "/dev/";
  }

  lemma PartitionIsStripped(stem: string, parent: string, digits: string)
    requires IsPartitionOf("/dev/" + stem, "/dev/" + parent, digits)
    ensures StripAt(stem, DigitsStart(stem)) == Some("/dev/" + parent)
  {
    hide LetteredName, DIGITS, SataPrefix, IsAlpha, DecimalValue, LOWER, UPPER;
    var d := "/dev/" + parent;
    if NumberedName(d) && "/dev/" + stem == d + "p" + digits {
      assert d + "p" + digits == "/dev/" + (parent + "p" + digits);
      SameUnderDev(stem, parent + "p" + digits);
      Members(parent[|parent| - 1]);
      DigitsEndAt(parent + "p", digits);
      assert stem[..|parent|] == parent;
    } else {
      assert d + digits == "/dev/" + (parent + digits);
      SameUnderDev(stem, parent + digits);
      LetteredIsLong(parent);
      LetteredIs(parent);
      AlphaIsNoDigit(parent[|parent| - 1]);
      DigitsEndAt(parent, digits);
      SataPrefixOfExtension(parent, digits);
      assert stem[..|parent|] == parent;
    }
  }

  lemma LetteredIsLong(parent: string)
    requires LetteredName("/dev/" + parent)
    ensures parent != ""
  {
  }

  lemma AlphaIsNoDigit(c: char)
    ensures IsAlpha(c) ==> !IsDigit(c)
  {
  }

  /** For every path: it has a parent exactly when it reads as that disk and a partition number. */
  lemma ParentOfIff(p: string, d: string)
    ensures ParentOf(p) == Some(d) <==> exists digits :: IsPartitionOf(p, d, digits)
  {
    hide StripAt, LetteredName, DIGITS;
    if ParentOf(p) == Some(d) {
      ParentIsUnderDev(p, d);
      assert d == "/dev/" + d[5..] && p == "/dev/" + p[5..];
      StripAtIff(p[5..], d[5..]);
    }
    if digits :| IsPartitionOf(p, d, digits) {
      PartitionIsUnderDev(p, d, digits);
      assert d == "/dev/" + d[5..] && p == "/dev/" + p[5..];
      StripAtIff(p[5..], d[5..]);
    }
  }

  lemma ParentIsUnderDev(p: string, d: string)
    requires ParentOf(p) == Some(d)
    ensures StartsWith(p, "/dev/") && StartsWith(d, "/dev/")
  {
    var stem := p[5..];
    var start := DigitsStart(stem);
    DevStarts(stem[..start]);
    if start > 0 { DevStarts(stem[..start - 1]); }
  }

  lemma PartitionIsUnderDev(p: string, d: string, digits: string)
    requires IsPartitionOf(p, d, digits)
    ensures StartsWith(p, "/dev/") && StartsWith(d, "/dev/")
  {
    hide DIGITS, LOWER, UPPER;
    DevFromLonger(d);
    assert p[..|d|] == d;
    assert |d| >= 5;
    assert p[..5] == p[..|d|][..5] == d[..5];
  }

  lemma DevFromLonger(d: string)
    requires StartsWith(d, "/dev/") || StartsWith(d, "/dev/sd") || StartsWith(d, "/dev/vd") || StartsWith(d, "/dev/hd") || StartsWith(d, "/dev/xvd")
    ensures StartsWith(d, "/dev/")
  {
    assert |d| >= 7 ==> d[..7][..5] == d[..5];
    assert |d| >= 8 ==> d[..8][..5] == d[..5];
    assert "/dev/sd"[..5] == "/dev/" && "/dev/vd"[..5] == "/dev/" && "/dev/hd"[..5] == "/dev/" && "/dev/xvd"[..5] == "/dev/";
  }
}
