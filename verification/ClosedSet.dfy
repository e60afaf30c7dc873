/**
  The manifest's closed set of ESP files: the check looks only for missing paths
  and counts entries, and by pigeonhole that excludes extras and duplicates too.
*/
module ClosedSet {
  import opened Wrappers
  import opened Strings

  type Bytes = seq<bv8>

  datatype EspFileEntry = EspFileEntry(path: string, sha256: string, sizeBytes: nat)

  const ESP_DEST_SHIM := "::/EFI/BOOT/BOOTX64.EFI"
  const ESP_DEST_GRUB := "::/EFI/BOOT/grubx64.efi"
  const ESP_DEST_GRUB_CFG_BOOT := "::/EFI/BOOT/grub.cfg"
  const ESP_DEST_GRUB_CFG_UBUNTU := "::/EFI/ubuntu/grub.cfg"
  const ESP_DEST_KERNEL := "::/vmlinuz"
  const ESP_DEST_INITRD := "::/initrd.img"

  function CanonicalEspPaths(): (r: seq<string>)
    ensures |r| == 6
  {
    [ESP_DEST_SHIM, ESP_DEST_GRUB, ESP_DEST_GRUB_CFG_BOOT, ESP_DEST_GRUB_CFG_UBUNTU, ESP_DEST_KERNEL, ESP_DEST_INITRD]
  }

  function LowerAll(paths: seq<string>): (r: seq<string>)
    ensures |r| == |paths|
    ensures forall i :: 0 <= i < |r| ==> r[i] == Lower(paths[i])
  {
    seq(|paths|, i requires 0 <= i < |paths| => Lower(paths[i]))
  }

  function PathsOf(files: seq<EspFileEntry>): (r: seq<string>)
    ensures |r| == |files|
    ensures forall i :: 0 <= i < |r| ==> r[i] == files[i].path
  {
    seq(|files|, i requires 0 <= i < |files| => files[i].path)
  }

  /** The case-folded paths are the canonical ones, each exactly once, in some order. */
  ghost predicate IsCanonicalSet(files: seq<EspFileEntry>) {
    multiset(LowerAll(PathsOf(files))) == multiset(LowerAll(CanonicalEspPaths()))
  }

  // ---- pigeonhole ---------------------------------------------------------------

  ghost predicate NoRepeats<T>(s: seq<T>) {
    forall i, j :: 0 <= i < j < |s| ==> s[i] != s[j]
  }

  /** As many items as distinct required ones, none missing: the items are exactly those. */
  lemma {:induction false} Pigeonhole<T>(required: seq<T>, items: seq<T>)
    requires NoRepeats(required) && |items| == |required|
    requires forall x | x in required :: x in items
    ensures multiset(items) == multiset(required)
  {
    if required != [] {
      var x := required[0];
      assert required == [x] + required[1..];
      assert x in items;
      var k :| 0 <= k < |items| && items[k] == x;
      var others := items[..k] + items[k + 1..];
      assert items == items[..k] + [x] + items[k + 1..];
      forall y | y in required[1..] ensures y in others {
        assert y in required && y != x;
      }
      Pigeonhole(required[1..], others);
    }
  }

  /** The canonical paths stay distinct when case is folded. */
  lemma CanonicalPathsAreDistinct()
    ensures NoRepeats(LowerAll(CanonicalEspPaths()))
  {
    hide Lower;
    var c, l := CanonicalEspPaths(), LowerAll(CanonicalEspPaths());
    assert l[0][12] == LowerChar(c[0][12]) == 'b';
    assert l[1][12] == LowerChar(c[1][12]) == 'g';
    assert forall i, j :: 0 <= i < j < 6 && (i != 0 || j != 1) ==> |c[i]| != |c[j]|;
    assert forall i :: 0 <= i < 6 ==> |l[i]| == |c[i]|;
  }

  /** `esp_files_cover_canonical_set`. */
  method EspFilesCoverCanonicalSet(files: seq<EspFileEntry>) returns (covered: bool)
    ensures covered <==> IsCanonicalSet(files)
  {
    hide Lower;
    var canonical := CanonicalEspPaths();
    ghost var required, items := LowerAll(canonical), LowerAll(PathsOf(files));
    CanonicalPathsAreDistinct();
    SameMultiset(required, items);
    if |files| != 6 {
      return false;
    }
    for i := 0 to |canonical|
      invariant forall j :: 0 <= j < i ==> required[j] in items
    {
      var lower := Lower(canonical[i]);
      var found := exists k :: 0 <= k < |files| && Lower(files[k].path) == lower;
      AnyIsMembership(files, lower);
      if !found {
        assert required[i] in required && required[i] !in items;
        return false;
      }
    }
    Pigeonhole(required, items);
    return true;
  }

  lemma AnyIsMembership(files: seq<EspFileEntry>, lower: string)
    ensures (exists k :: 0 <= k < |files| && Lower(files[k].path) == lower) <==> lower in LowerAll(PathsOf(files))
  {
    hide Lower;
    var items := LowerAll(PathsOf(files));
    if lower in items {
      var k :| 0 <= k < |items| && items[k] == lower;
      assert Lower(files[k].path) == lower;
    }
    if exists k :: 0 <= k < |files| && Lower(files[k].path) == lower {
      var k :| 0 <= k < |files| && Lower(files[k].path) == lower;
      assert items[k] == lower;
    }
  }

  lemma SameMultiset(required: seq<string>, items: seq<string>)
    ensures multiset(items) == multiset(required) ==> |items| == |required| && forall x | x in required :: x in items
  {
    if multiset(items) == multiset(required) {
      assert |multiset(items)| == |items| && |multiset(required)| == |required|;
      forall x | x in required ensures x in items {
        assert x in multiset(required);
      }
    }
  }

  /** The closed set as it is typed: these six paths, in whatever case, each exactly once. */
  lemma CanonicalSetSpelled(files: seq<EspFileEntry>)
    ensures IsCanonicalSet(files) <==>
            multiset(LowerAll(PathsOf(files))) ==
              multiset{"::/efi/boot/bootx64.efi", "::/efi/boot/grubx64.efi", "::/efi/boot/grub.cfg",
                       "::/efi/ubuntu/grub.cfg", "::/vmlinuz", "::/initrd.img"}
  {
    hide ESP_DEST_SHIM, ESP_DEST_GRUB, ESP_DEST_GRUB_CFG_BOOT, ESP_DEST_GRUB_CFG_UBUNTU, ESP_DEST_KERNEL, ESP_DEST_INITRD;
    FoldedEfi();
    FoldedRest();
    assert LowerAll(CanonicalEspPaths()) ==
           ["::/efi/boot/bootx64.efi", "::/efi/boot/grubx64.efi", "::/efi/boot/grub.cfg",
            "::/efi/ubuntu/grub.cfg", "::/vmlinuz", "::/initrd.img"];
  }

  lemma FoldedEfi()
    ensures Lower(ESP_DEST_SHIM) == "::/efi/boot/bootx64.efi" && Lower(ESP_DEST_GRUB) == "::/efi/boot/grubx64.efi"
  {
  }

  lemma FoldedRest()
    ensures Lower(ESP_DEST_GRUB_CFG_BOOT) == "::/efi/boot/grub.cfg" && Lower(ESP_DEST_GRUB_CFG_UBUNTU) == "::/efi/ubuntu/grub.cfg"
    ensures Lower(ESP_DEST_KERNEL) == "::/vmlinuz" && Lower(ESP_DEST_INITRD) == "::/initrd.img"
  {
  }

  /** A canonical set has no extra path and no path twice, though the code checks neither. */
  lemma CanonicalSetHasNoExtras(files: seq<EspFileEntry>)
    requires IsCanonicalSet(files)
    ensures forall f | f in files :: Lower(f.path) in LowerAll(CanonicalEspPaths())
    ensures NoRepeats(LowerAll(PathsOf(files)))
  {
    hide Lower;
    CanonicalPathsAreDistinct();
    var required, items := LowerAll(CanonicalEspPaths()), LowerAll(PathsOf(files));
    forall f | f in files ensures Lower(f.path) in required {
      var k :| 0 <= k < |files| && files[k] == f;
      assert items[k] in multiset(items);
    }
    forall i, j | 0 <= i < j < |items| ensures items[i] != items[j] {
      if items[i] == items[j] {
        OccursTwice(items, i, j);
        OccursOnce(required, items[i]);
      }
    }
  }

  lemma OccursTwice(s: seq<string>, i: nat, j: nat)
    requires i < j < |s| && s[i] == s[j]
    ensures multiset(s)[s[i]] >= 2
  {
    assert s == s[..j] + s[j..];
    assert s[..j][i] == s[i] && s[j..][0] == s[i];
    assert s[i] in s[..j] && s[i] in s[j..];
  }

  lemma {:induction false} OccursOnce(s: seq<string>, x: string)
    requires NoRepeats(s)
    ensures multiset(s)[x] <= 1
  {
    if s != [] {
      assert s == [s[0]] + s[1..];
      OccursOnce(s[1..], x);
      assert s[0] !in s[1..];
    }
  }

  // ---- building the entries ---------------------------------------------------------

  datatype EspStagingSources = EspStagingSources(shim: string, grub: string, grubCfg: string, kernel: string, combinedInitrd: string)

  /** The six destination and source pairs, in canonical order; grub.cfg feeds two. */
  function Pairs(s: EspStagingSources): (r: seq<(string, string)>)
    ensures |r| == 6 && forall i :: 0 <= i < 6 ==> r[i].0 == CanonicalEspPaths()[i]
  {
    [(ESP_DEST_SHIM, s.shim), (ESP_DEST_GRUB, s.grub), (ESP_DEST_GRUB_CFG_BOOT, s.grubCfg),
     (ESP_DEST_GRUB_CFG_UBUNTU, s.grubCfg), (ESP_DEST_KERNEL, s.kernel), (ESP_DEST_INITRD, s.combinedInitrd)]
  }

  /** The entry has the pair's destination, the hash of the source's bytes, and the size the source reports. */
  predicate Describes(e: EspFileEntry, pair: (string, string), read: string -> Option<Bytes>, stat: string -> Option<nat>,
                      sha256Hex: Bytes -> string)
  {
    read(pair.1).Some? && stat(pair.1).Some? && e == EspFileEntry(pair.0, sha256Hex(read(pair.1).value), stat(pair.1).value)
  }

  /** Every built entry list passes the check, and each row describes its own source file. */
  method ComputeEspFileHashes(sources: EspStagingSources, read: string -> Option<Bytes>, stat: string -> Option<nat>,
                              sha256Hex: Bytes -> string)
    returns (r: Result<seq<EspFileEntry>, ()>)
    ensures r.Err? <==> exists i :: 0 <= i < 6 && (read(Pairs(sources)[i].1).None? || stat(Pairs(sources)[i].1).None?)
    ensures r.Ok? ==> |r.value| == 6 && IsCanonicalSet(r.value)
    ensures r.Ok? ==>
              && Describes(r.value[0], ("::/EFI/BOOT/BOOTX64.EFI", sources.shim), read, stat, sha256Hex)
              && Describes(r.value[1], ("::/EFI/BOOT/grubx64.efi", sources.grub), read, stat, sha256Hex)
              && Describes(r.value[2], ("::/EFI/BOOT/grub.cfg", sources.grubCfg), read, stat, sha256Hex)
              && Describes(r.value[3], ("::/EFI/ubuntu/grub.cfg", sources.grubCfg), read, stat, sha256Hex)
              && Describes(r.value[4], ("::/vmlinuz", sources.kernel), read, stat, sha256Hex)
              && Describes(r.value[5], ("::/initrd.img", sources.combinedInitrd), read, stat, sha256Hex)
  {
    var pairs := Pairs(sources);
    var out: seq<EspFileEntry> := [];
    for k := 0 to |pairs|
      invariant |out| == k
      invariant forall i :: 0 <= i < k ==> Describes(out[i], pairs[i], read, stat, sha256Hex)
    {
      var (dest, src) := pairs[k];
      var body := read(src);
      if body.None? {
        assert read(Pairs(sources)[k].1).None?;
        return Err(());
      }
      var size := stat(src);
      if size.None? {
        assert stat(Pairs(sources)[k].1).None?;
        return Err(());
      }
      out := out + [EspFileEntry(dest, sha256Hex(body.value), size.value)];
    }
    assert PathsOf(out) == CanonicalEspPaths();
    return Ok(out);
  }
}
