/**
  Concrete hosts on which the cache's guarantees fail in the ways their exact
  conditions name: two spellings of one path, a false size, a respelled reserved
  name, and a rollback accepted because the epoch file could not be read.
*/
module BundleWitness {
  import opened Wrappers
  import opened Strings
  import opened Paths
  import opened BundleVerify
  import opened BundleCache
  import opened BundleCacheLaws
  import TrustEpoch

  const BODY: Bytes := [1]
  const SIG: Bytes := [2]
  const PLAIN: Bytes := [3]
  const OTHER: Bytes := [4]

  function Hex(c: char): (r: string)
    ensures |r| == 64 && forall i :: 0 <= i < 64 ==> r[i] == c
  {
    seq(64, _ => c)
  }

  /** One hash for each of the two published files, a third for everything else. */
  function Hash(b: Bytes): (r: string) {
    if b == PLAIN then Hex('a') else if b == OTHER then Hex('b') else Hex('c')
  }

  lemma HexDiffers(a: char, b: char)
    ensures a != b ==> Hex(a) != Hex(b)
  {
    assert Hex(a)[0] == a && Hex(b)[0] == b;
  }

  const PLAIN_PATH := "k"
  const PLAIN_RESPELLED := "./k"
  const NAME_RESPELLED := "./bundle-manifest.json"

  const REQUEST := Request("o", "c", Anchor(1, {1}, {1}), 0)

  function Published(url: string): Bytes {
    if url == JoinUrl(REQUEST.originUrl, PLAIN_PATH) then PLAIN else OTHER
  }

  function Respond(n: nat, url: string): Result<Bytes, DownloadError> {
    if url == JoinUrl(REQUEST.originUrl, MANIFEST_NAME) then Ok(BODY)
    else if url == JoinUrl(REQUEST.originUrl, SIGNATURE_NAME) then Ok(SIG)
    else Ok(Published(url))
  }

  /** A host without faults that serves `m`, signed, and two files. */
  function Host(m: Manifest): Env {
    Env(Library(_ => Some(m), (_, _, _) => GoodSignature, Hash), Respond, _ => Works)
  }

  const EMPTY := World(map[], [], [], 0)

  predicate EntryPath(p: string) {
    p == PLAIN_PATH || p == PLAIN_RESPELLED || p == NAME_RESPELLED
  }

  /** A manifest this host can publish. */
  ghost predicate Publishable(m: Manifest) {
    && m.schemaVersion == 1 && m.keyEpoch == 1 && m.bundleVersion == "v" && m.files != [] && DistinctRoles(m.files)
    && forall e | e in m.files ::
         && EntryPath(e.path)
         && e.sha256 == (if e.path == PLAIN_PATH then Hex('a') else Hex('b')) && e.sizeBytes > 0
  }

  lemma PathsAreRelative()
    ensures RelativePath(PLAIN_PATH) && RelativePath(PLAIN_RESPELLED) && RelativePath(NAME_RESPELLED)
  {
    hide FindFrom;
    NoTwoDots(PLAIN_PATH);
    NoTwoDots(PLAIN_RESPELLED);
    NoTwoDots(NAME_RESPELLED);
    assert PLAIN_PATH[0] == 'k' && PLAIN_RESPELLED[0] == '.' && NAME_RESPELLED[0] == '.';
  }

  lemma NoTwoDots(p: string)
    requires forall i :: 0 <= i < |p| - 1 ==> p[i] != '.' || p[i + 1] != '.'
    ensures !Contains(p, "..")
  {
    hide FindFrom;
    forall i ensures !OccursAt(p, "..", i) {
      if 0 <= i && i + 2 <= |p| { assert p[i..i + 2][0] == p[i] && p[i..i + 2][1] == p[i + 1]; }
    }
  }

  lemma UrlIsInjective(p: string, q: string)
    ensures JoinUrl("o", p) == JoinUrl("o", q) ==> p == q
  {
    assert JoinUrl("o", p)[2..] == p && JoinUrl("o", q)[2..] == q;
  }

  lemma NamesDiffer()
    ensures MANIFEST_NAME != SIGNATURE_NAME && PLAIN_RESPELLED != PLAIN_PATH && NAME_RESPELLED != PLAIN_PATH
    ensures forall p | EntryPath(p) :: p != MANIFEST_NAME && p != SIGNATURE_NAME
  {
    assert |MANIFEST_NAME| != |SIGNATURE_NAME|;
    assert MANIFEST_NAME[0] == 'b' && SIGNATURE_NAME[0] == 'b';
    assert PLAIN_PATH[0] == 'k' && PLAIN_RESPELLED[0] == '.' && NAME_RESPELLED[0] == '.';
  }

  lemma UrlOf(p: string)
    requires EntryPath(p)
    ensures forall n :: Respond(n, JoinUrl(REQUEST.originUrl, p)) == Ok(if p == PLAIN_PATH then PLAIN else OTHER)
    ensures Published(JoinUrl(REQUEST.originUrl, p)) == if p == PLAIN_PATH then PLAIN else OTHER
  {
    hide JoinUrl;
    NamesDiffer();
    UrlIsInjective(p, MANIFEST_NAME);
    UrlIsInjective(p, SIGNATURE_NAME);
    UrlIsInjective(p, PLAIN_PATH);
  }

  /** Whatever well-shaped manifest it decodes to, the host serves it signed and accepted. */
  lemma HostServes(m: Manifest)
    requires Publishable(m) && forall e | e in m.files :: EntryShapeOk(e)
    ensures NoFaults(Host(m)) && Serves(Host(m), REQUEST, BODY, SIG, m)
  {
    hide JoinUrl, EntryShapeOk, VerifyBundleManifest, DistinctRoles;
    NamesDiffer();
    UrlIsInjective(MANIFEST_NAME, SIGNATURE_NAME);
    AcceptedWhen(Host(m).lib, REQUEST.anchor, BODY, SIG, REQUEST.seenEpoch, m);
  }

  lemma EntriesAreShaped(m: Manifest)
    requires Publishable(m)
    ensures forall e | e in m.files :: EntryShapeOk(e)
  {
    hide RelativePath;
    PathsAreRelative();
  }

  /** The host serves the bundle honestly, at any time. */
  lemma HostIsHonest(m: Manifest)
    requires Publishable(m)
    ensures NoFaults(Host(m)) && Serves(Host(m), REQUEST, BODY, SIG, m)
    ensures Honest(Host(m), REQUEST.originUrl, m.files, Published) && IsSafePathSegment("v")
    ensures NoSelfHash(Host(m), m.files, BODY, SIG)
  {
    hide JoinUrl, Respond, Published, Serves, Hex, EntryShapeOk;
    EntriesAreShaped(m);
    HostServes(m);
    HexDiffers('a', 'c');
    HexDiffers('b', 'c');
    forall e | e in m.files { UrlOf(e.path); }
  }

  lemma VersionIsSafe()
    ensures IsSafePathSegment("v")
  {
    assert "v"[..1][0] == 'v';
  }

  lemma BundleReturned(m: Manifest)
    requires Publishable(m)
    ensures Fetch(Host(m), EMPTY, REQUEST).1.Ok?
    ensures var b := Fetch(Host(m), EMPTY, REQUEST).1.value;
            b.manifest == m && b.cacheDir == JoinPath(REQUEST.cacheBase, "v")
  {
    hide Fetch, Honest, Serves, NoFaults, DistinctRoles, NoSelfHash, IsSafePathSegment;
    HostIsHonest(m);
    SafeSegmentIff("v");
    HonestRunSucceeds(Host(m), EMPTY, REQUEST, BODY, SIG, m, Published);
  }

  // ---- two spellings of one path -------------------------------------------------

  const TWO_SPELLINGS := Manifest(1, 1, "v",
    [FileEntry(Kernel, PLAIN_PATH, Hex('a'), 1), FileEntry(Initrd, PLAIN_RESPELLED, Hex('b'), 1)])

  lemma Respelled(name: string)
    requires '/' !in name && name != "" && name != "."
    ensures Moves(Split("./" + name, '/')) == [name] == Moves(Split(name, '/'))
  {
    SplitSingle(name);
    SplitSingle(".");
    SplitAppend(".", name, '/');
    assert "." + ['/'] + name == "./" + name;
    assert ["."] + [name] == [".", name] && [".", name][1..] == [name] && [name][1..] == [];
    assert Moves([name]) == [name] + Moves([]);
  }

  /** A run returns a bundle whose kernel file does not have the kernel's hash. */
  lemma DisagreeingSpellingsReturn()
    ensures var (w, r) := Fetch(Host(TWO_SPELLINGS), EMPTY, REQUEST);
            r.Ok? && !ConsistentPaths(TWO_SPELLINGS.files) &&
            exists e | e in TWO_SPELLINGS.files :: !Holds(Host(TWO_SPELLINGS), w.files, r.value.cacheDir, e)
  {
    hide Fetch, Split, Moves, Holds, Locate, JoinPath;
    var m := TWO_SPELLINGS;
    BundleReturned(m);
    Respelled(PLAIN_PATH);
    HexDiffers('a', 'b');
    assert m.files[0] in m.files && m.files[1] in m.files;
    assert "./" + PLAIN_PATH == PLAIN_RESPELLED;
    ReturnedBundleIsVerified(Host(m), EMPTY, REQUEST, Fetch(Host(m), EMPTY, REQUEST).1.value);
  }

  // ---- noisy reruns --------------------------------------------------------------

  const FALSE_SIZE := Manifest(1, 1, "v", [FileEntry(Kernel, PLAIN_PATH, Hex('a'), 2)])

  const RESERVED_NAME := Manifest(1, 1, "v", [FileEntry(Kernel, NAME_RESPELLED, Hex('b'), 1)])

  ghost predicate RerunIsNoisy(m: Manifest) {
    var (w1, r) := Fetch(Host(m), EMPTY, REQUEST);
    var w2 := Fetch(Host(m), w1, REQUEST).0;
    r.Ok? && w2.gets != w1.gets + [JoinUrl(REQUEST.originUrl, MANIFEST_NAME), JoinUrl(REQUEST.originUrl, SIGNATURE_NAME)]
  }

  /** The file is published with one byte and listed with two: every rerun downloads it again. */
  lemma FalseSizeIsNoisy()
    ensures RerunIsNoisy(FALSE_SIZE)
  {
    hide Fetch, Split, Moves, Locate, JoinPath, JoinUrl;
    var m := FALSE_SIZE;
    BundleReturned(m);
    HostIsHonest(m);
    HexDiffers('a', 'b');
    HexDiffers('a', 'c');
    var (w1, r) := Fetch(Host(m), EMPTY, REQUEST);
    var e := m.files[0];
    assert e in m.files;
    ReturnedBundleIsVerified(Host(m), EMPTY, REQUEST, r.value);
    assert Holds(Host(m), w1.files, r.value.cacheDir, e);
    assert w1.files[Target(r.value.cacheDir, e)] == PLAIN;
    RerunIsSilentIff(Host(m), EMPTY, REQUEST, BODY, SIG, m);
  }

  /** An entry that spells the manifest's own file: each run overwrites it and downloads it again. */
  lemma ReservedNameIsNoisy()
    ensures RerunIsNoisy(RESERVED_NAME)
  {
    hide Fetch, Split, Moves, Locate, JoinPath, JoinUrl, IsSafePathSegment, Contains, StartsWith, RelativePath;
    var m := RESERVED_NAME;
    BundleReturned(m);
    HostIsHonest(m);
    SameFile(m.files[0]);
    assert m.files[0] in m.files;
    RerunIsSilentIff(Host(m), EMPTY, REQUEST, BODY, SIG, m);
  }

  lemma SameFile(e: FileEntry)
    requires e.path == NAME_RESPELLED
    ensures var dir := JoinPath(REQUEST.cacheBase, "v"); Target(dir, e) == ManifestAt(dir)
  {
    hide Split, Moves, Locate, JoinPath, FindFrom, Contains, StartsWith, IsSafePathSegment, RelativePath;
    ReservedPathsAreInside();
    PlainNames();
    assert "./" + MANIFEST_NAME == NAME_RESPELLED;
    Respelled(MANIFEST_NAME);
    VersionIsSafe();
    EntryLocation(REQUEST.cacheBase, "v", NAME_RESPELLED);
    EntryLocation(REQUEST.cacheBase, "v", MANIFEST_NAME);
  }

  lemma ReservedPathsAreInside()
    ensures !StartsWith(NAME_RESPELLED, "/") && !Contains(NAME_RESPELLED, "..") && MANIFEST_NAME != "" && MANIFEST_NAME != "."
  {
    hide Contains;
    PathsAreRelative();
  }

  // ---- a rollback ------------------------------------------------------------------

  /** Epoch 5 was persisted, the file cannot be read, and a manifest of epoch 1 is accepted. */
  lemma UnreadableFileAcceptsRollback()
    ensures var run := TrustEpoch.Invocation(Host(FALSE_SIZE), REQUEST, TrustEpoch.Disk(false, true, true, true));
            var r := TrustEpoch.TryRun(TrustEpoch.State(EMPTY, TrustEpoch.Epoch(5)), run).1;
            r.Ok? && r.value.manifest.keyEpoch == 1 < 5
  {
    hide Fetch;
    BundleReturned(FALSE_SIZE);
  }
}
