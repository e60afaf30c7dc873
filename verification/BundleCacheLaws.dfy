/**
  What a run of the bundle cache guarantees: a refused manifest leaves no trace,
  writes stay in the bundle's own directory, a successful run leaves verified
  bytes whatever the cache held before, and a rerun is silent.
*/
module BundleCacheLaws {
  import opened Wrappers
  import opened Strings
  import opened Paths
  import opened BundleVerify
  import opened BundleCache

  // ---- addresses ------------------------------------------------------------------

  /** One slash between the origin and the name, whether or not the origin ends in one. */
  lemma OneSlashJoins(origin: string, rel: string)
    requires origin != "" ==> origin[|origin| - 1] != '/'
    ensures JoinUrl(origin, rel) == origin + "/" + rel
    ensures JoinUrl(origin + "/", rel) == origin + "/" + rel
  {
    if origin != "" { assert origin[|origin| - 1..] == [origin[|origin| - 1]]; }
    assert (origin + "/")[|origin|..] == "/";
  }

  // ---- a refused manifest -------------------------------------------------------

  /** Both GETs succeed and the manifest is refused: two GETs, and nothing else happened. */
  lemma RefusedManifestLeavesNoTrace(env: Env, w: World, req: Request, origin: string, body: Bytes, sig: Bytes, why: VerifyError)
    requires origin != "" ==> origin[|origin| - 1] != '/'
    requires req.originUrl == origin || req.originUrl == origin + "/"
    requires env.respond(|w.gets|, origin + "/" + "bundle-manifest.json") == Ok(body)
    requires env.respond(|w.gets| + 1, origin + "/" + "bundle-manifest.json.minisig") == Ok(sig)
    requires VerifyBundleManifest(env.lib, req.anchor, body, sig, req.seenEpoch) == Err(why)
    ensures Fetch(env, w, req) ==
            (w.(gets := w.gets + [origin + "/" + "bundle-manifest.json", origin + "/" + "bundle-manifest.json.minisig"]),
             Err(Verify(why)))
  {
    hide VerifyBundleManifest, JoinUrl, Fetch;
    OneSlashJoins(origin, MANIFEST_NAME);
    OneSlashJoins(origin, SIGNATURE_NAME);
    RefusedRun(env, w, req, body, sig, why);
  }

  lemma RefusedRun(env: Env, w: World, req: Request, body: Bytes, sig: Bytes, why: VerifyError)
    requires env.respond(|w.gets|, JoinUrl(req.originUrl, MANIFEST_NAME)) == Ok(body)
    requires env.respond(|w.gets| + 1, JoinUrl(req.originUrl, SIGNATURE_NAME)) == Ok(sig)
    requires VerifyBundleManifest(env.lib, req.anchor, body, sig, req.seenEpoch) == Err(why)
    ensures Fetch(env, w, req) ==
            (w.(gets := w.gets + [JoinUrl(req.originUrl, MANIFEST_NAME), JoinUrl(req.originUrl, SIGNATURE_NAME)]),
             Err(Verify(why)))
  {
    hide VerifyBundleManifest, JoinUrl;
    var m, s := JoinUrl(req.originUrl, MANIFEST_NAME), JoinUrl(req.originUrl, SIGNATURE_NAME);
    assert w.gets + [m] + [s] == w.gets + [m, s];
  }

  /** A run that returns a bundle had its manifest accepted against both floors. */
  lemma ReturnedBundleWasAccepted(env: Env, w: World, req: Request, b: BundlePaths)
    requires Fetch(env, w, req).1 == Ok(b)
    ensures exists body, sig :: VerifyBundleManifest(env.lib, req.anchor, body, sig, req.seenEpoch) == Ok(b.manifest)
    ensures b.manifest.keyEpoch >= req.anchor.minRequired && b.manifest.keyEpoch >= req.seenEpoch
    ensures forall e | e in b.manifest.files :: EntryShapeOk(e)
  {
    hide VerifyBundleManifest, EntryShapeOk, FetchFiles, Locate, JoinPath;
    var body := env.respond(|w.gets|, JoinUrl(req.originUrl, MANIFEST_NAME)).value;
    var sig := env.respond(|w.gets| + 1, JoinUrl(req.originUrl, SIGNATURE_NAME)).value;
    assert VerifyBundleManifest(env.lib, req.anchor, body, sig, req.seenEpoch) == Ok(b.manifest);
    AcceptedWhen(env.lib, req.anchor, body, sig, req.seenEpoch, b.manifest);
  }

  // ---- which bundle versions are refused ------------------------------------------

  /** The version names one directory of its own, and nothing a shell or another system would misread. */
  ghost predicate Usable(v: string) {
    && Moves(Split(v, '/')) == [v] && v != ".."
    && (forall c | c in v :: c != '\\' && c != '\0' && c != '\r' && c != '\n')
    && (v != "" ==> v[0] != '-')
  }

  lemma SafeSegmentIff(v: string)
    ensures IsSafePathSegment(v) <==> Usable(v)
  {
    hide Split, Moves;
    DashFirst(v);
    if '/' in v {
      SlashIsNoSegment(v);
    } else {
      SplitSingle(v);
      OneMove(v);
    }
  }

  lemma DashFirst(v: string)
    ensures StartsWith(v, "-") <==> v != "" && v[0] == '-'
  {
    if v != "" { assert v[..1] == [v[0]]; }
  }

  lemma OneMove(v: string)
    ensures Moves([v]) == (if v == "" || v == "." then [] else [v])
  {
    assert [v][1..] == [];
  }

  lemma SlashIsNoSegment(v: string)
    requires '/' in v
    ensures Moves(Split(v, '/')) != [v]
  {
    hide Split;
    assert Moves(Split(v, '/')) == [v] ==> v in Moves(Split(v, '/'));
    assert v in Moves(Split(v, '/')) ==> v in Split(v, '/');
  }

  lemma {:induction false} FilesNeverUnsafe(env: Env, w: World, origin: string, dir: string, entries: seq<FileEntry>, files: map<Role, string>)
    ensures var r := FetchFiles(env, w, origin, dir, entries, files).1;
            r.Err? ==> !r.error.UnsafeBundleVersion? && !r.error.Verify?
    decreases |entries|
  {
    hide Locate, JoinPath, JoinUrl;
    if entries != [] && entries[0].role !in files {
      var e := entries[0];
      var w1 := FetchFile(env, w, origin, JoinPath(dir, e.path), e).0;
      FilesNeverUnsafe(env, w1, origin, dir, entries[1..], files[e.role := JoinPath(dir, e.path)]);
    }
  }

  /** After an accepted manifest the run refuses its version exactly when it is not usable. */
  lemma UnsafeVersionIff(env: Env, w: World, req: Request, body: Bytes, sig: Bytes, m: Manifest)
    requires env.respond(|w.gets|, JoinUrl(req.originUrl, MANIFEST_NAME)) == Ok(body)
    requires env.respond(|w.gets| + 1, JoinUrl(req.originUrl, SIGNATURE_NAME)) == Ok(sig)
    requires VerifyBundleManifest(env.lib, req.anchor, body, sig, req.seenEpoch) == Ok(m)
    ensures Fetch(env, w, req).1 == Err(UnsafeBundleVersion(m.bundleVersion)) <==> !Usable(m.bundleVersion)
    ensures Fetch(env, w, req).1.Err? && Fetch(env, w, req).1.error.UnsafeBundleVersion? ==> !Usable(m.bundleVersion)
    ensures !Usable(m.bundleVersion) ==> Fetch(env, w, req).0.files == w.files && Fetch(env, w, req).0.writes == w.writes
  {
    hide VerifyBundleManifest, Usable, JoinUrl, Install;
    SafeSegmentIff(m.bundleVersion);
    var w2 := w.(gets := w.gets + [JoinUrl(req.originUrl, MANIFEST_NAME)] + [JoinUrl(req.originUrl, SIGNATURE_NAME)]);
    InstallRefusesIff(env, w2, req, m, body, sig);
  }

  lemma InstallRefusesIff(env: Env, w: World, req: Request, m: Manifest, body: Bytes, sig: Bytes)
    ensures var (w', r) := Install(env, w, req, m, body, sig);
            if IsSafePathSegment(m.bundleVersion) then r.Err? ==> !r.error.UnsafeBundleVersion?
            else w' == w && r == Err(UnsafeBundleVersion(m.bundleVersion))
  {
    hide IsSafePathSegment, Locate, JoinPath, FetchFiles, WriteFile;
    var dir := JoinPath(req.cacheBase, m.bundleVersion);
    var w1 := MakeDirs(env, w).0;
    var w2 := WriteFile(env, w1, Locate(JoinPath(dir, MANIFEST_NAME)), body).0;
    var w3 := WriteFile(env, w2, Locate(JoinPath(dir, SIGNATURE_NAME)), sig).0;
    FilesNeverUnsafe(env, w3, req.originUrl, dir, m.files, map[]);
  }

  // ---- where writes land -----------------------------------------------------------

  function BundleDir(req: Request, version: string): Location {
    Locate(req.cacheBase) + [version]
  }

  lemma CacheDirLocation(base: string, version: string)
    requires IsSafePathSegment(version)
    ensures Locate(JoinPath(base, version)) == Locate(base) + [version]
  {
    assert version[..1][0] == version[0];
    LocateJoin(base, version);
    SplitSingle(version);
    assert [version][1..] == [];
  }

  /** The two checks together: a safe version and an archive-relative path stay inside. */
  lemma EntryLocation(base: string, version: string, path: string)
    requires IsSafePathSegment(version) && !StartsWith(path, "/") && !Contains(path, "..")
    ensures Locate(JoinPath(JoinPath(base, version), path)) == Locate(base) + [version] + Moves(Split(path, '/'))
  {
    hide FindFrom, Locate, JoinPath, IsSafePathSegment, Split, Contains;
    CacheDirLocation(base, version);
    LocateJoin(JoinPath(base, version), path);
    NoParentSegment(path);
    WalkDown(Locate(base) + [version], Split(path, '/'));
  }

  /** Strictly below the bundle's directory, unless the path is all dots and slashes and names it. */
  lemma EntryIsBelowIff(base: string, version: string, path: string)
    requires IsSafePathSegment(version) && !StartsWith(path, "/") && !Contains(path, "..")
    ensures Locate(base) + [version] < Locate(JoinPath(JoinPath(base, version), path)) <==>
            exists s | s in Split(path, '/') :: s != "" && s != "."
  {
    hide FindFrom, Locate, JoinPath, IsSafePathSegment, Split, Contains, StartsWith;
    EntryLocation(base, version, path);
    MovesIff(Split(path, '/'));
    var root, moves := Locate(base) + [version], Moves(Split(path, '/'));
    assert moves == [] ==> root + moves == root;
    assert moves != [] ==> root < root + moves;
  }

  lemma {:induction false} MovesIff(segments: seq<string>)
    ensures Moves(segments) != [] <==> exists s | s in segments :: s != "" && s != "."
  {
    if segments != [] {
      MovesIff(segments[1..]);
      assert segments[0] in segments;
      assert forall s :: s in segments <==> s == segments[0] || s in segments[1..];
    }
  }

  lemma PlainNames()
    ensures !StartsWith(MANIFEST_NAME, "/") && !Contains(MANIFEST_NAME, "..")
    ensures !StartsWith(SIGNATURE_NAME, "/") && !Contains(SIGNATURE_NAME, "..")
    ensures '/' !in MANIFEST_NAME && '/' !in SIGNATURE_NAME && MANIFEST_NAME != SIGNATURE_NAME
  {
    hide FindFrom;
    assert MANIFEST_NAME[0] == SIGNATURE_NAME[0] == 'b';
    forall p ensures !OccursAt(MANIFEST_NAME, "..", p) && !OccursAt(SIGNATURE_NAME, "..", p) {
      var m, s := MANIFEST_NAME, SIGNATURE_NAME;
      if 0 <= p && p + 2 <= |m| { assert m[p..p + 2][0] == m[p] && m[p..p + 2][1] == m[p + 1]; }
      if 0 <= p && p + 2 <= |s| { assert s[p..p + 2][0] == s[p] && s[p..p + 2][1] == s[p + 1]; }
    }
    assert |MANIFEST_NAME| != |SIGNATURE_NAME|;
  }

  /** Between two snapshots only locations beneath `dir` were written or changed. */
  ghost predicate Confined(w: World, w': World, dir: Location) {
    && w.writes <= w'.writes
    && (forall i :: |w.writes| <= i < |w'.writes| ==> Beneath(dir, w'.writes[i]))
    && (forall p: Location :: !Beneath(dir, p) ==> (p in w.files <==> p in w'.files))
    && (forall p: Location :: !Beneath(dir, p) && p in w.files && p in w'.files ==> w.files[p] == w'.files[p])
  }

  lemma ConfinedTrans(a: World, b: World, c: World, dir: Location)
    requires Confined(a, b, dir) && Confined(b, c, dir)
    ensures Confined(a, c, dir)
  {
    forall i | |a.writes| <= i < |c.writes| ensures Beneath(dir, c.writes[i]) {
      if i < |b.writes| { assert c.writes[i] == b.writes[i]; }
    }
  }

  lemma WriteIsConfined(env: Env, w: World, at: Location, body: Bytes, dir: Location)
    requires Beneath(dir, at)
    ensures Confined(w, WriteFile(env, w, at, body).0, dir)
  {
  }

  lemma FetchFileIsConfined(env: Env, w: World, origin: string, dest: string, entry: FileEntry, dir: Location)
    requires Beneath(dir, Locate(dest))
    ensures Confined(w, FetchFile(env, w, origin, dest, entry).0, dir)
  {
    hide Locate, JoinUrl, Beneath, WriteFile;
    forall x: World, body { WriteIsConfined(env, x, Locate(dest), body, dir); }
  }

  lemma {:induction false} FetchFilesIsConfined(env: Env, w: World, origin: string, base: string, version: string, entries: seq<FileEntry>, files: map<Role, string>)
    requires IsSafePathSegment(version) && forall e | e in entries :: RelativePath(e.path)
    ensures Confined(w, FetchFiles(env, w, origin, JoinPath(base, version), entries, files).0, Locate(base) + [version])
    decreases |entries|
  {
    hide Locate, JoinPath, IsSafePathSegment, FetchFile, Contains, Split, Moves, Confined;
    var dir := Locate(base) + [version];
    if entries == [] {
      ConfinedRefl(w, dir);
    } else if entries[0].role !in files {
      EntryLocation(base, version, entries[0].path);
      var dest := JoinPath(JoinPath(base, version), entries[0].path);
      FetchFileIsConfined(env, w, origin, dest, entries[0], dir);
      var (w1, failed) := FetchFile(env, w, origin, dest, entries[0]);
      if failed.None? {
        FetchFilesIsConfined(env, w1, origin, base, version, entries[1..], files[entries[0].role := dest]);
        ConfinedTrans(w, w1, FetchFiles(env, w1, origin, JoinPath(base, version), entries[1..], files[entries[0].role := dest]).0, dir);
      }
    } else {
      ConfinedRefl(w, dir);
    }
  }

  lemma ConfinedRefl(w: World, dir: Location)
    ensures Confined(w, w, dir)
  {
  }

  /** The bundle version named by the manifest a run downloads, accepted or not. */
  function NamedVersion(env: Env, w: World, req: Request): Option<string> {
    match env.respond(|w.gets|, JoinUrl(req.originUrl, MANIFEST_NAME))
    case Err(_) => None
    case Ok(body) =>
      var m := env.lib.decode(body);
      if m.Some? then Some(m.value.bundleVersion) else None
  }

  /** Every write of a run, failed or not, lands beneath `cache_base/bundle_version`. */
  lemma WritesStayInBundleDir(env: Env, w: World, req: Request)
    ensures var w', version := Fetch(env, w, req).0, NamedVersion(env, w, req);
            if version.Some? && IsSafePathSegment(version.value)
            then Confined(w, w', BundleDir(req, version.value))
            else w'.files == w.files && w'.writes == w.writes
  {
    hide IsSafePathSegment, Confined, Install, Locate, JoinUrl, VerifyBundleManifest, BundleDir;
    var version := NamedVersion(env, w, req);
    var (w1, body) := HttpGet(env, w, JoinUrl(req.originUrl, MANIFEST_NAME));
    if version.Some? {
      ConfinedOps(w, w1, BundleDir(req, version.value));
    }
    if body.Ok? {
      var (w2, sig) := HttpGet(env, w1, JoinUrl(req.originUrl, SIGNATURE_NAME));
      if version.Some? {
        ConfinedOps(w, w2, BundleDir(req, version.value));
      }
      if sig.Ok? {
        var verified := VerifyBundleManifest(env.lib, req.anchor, body.value, sig.value, req.seenEpoch);
        if verified.Ok? {
          var m := verified.value;
          AcceptedWhen(env.lib, req.anchor, body.value, sig.value, req.seenEpoch, m);
          InstallIsConfined(env, w2, req, m, body.value, sig.value);
          if IsSafePathSegment(m.bundleVersion) {
            ConfinedTrans(w, w2, Install(env, w2, req, m, body.value, sig.value).0, BundleDir(req, m.bundleVersion));
          }
        }
      }
    }
  }

  lemma InstallIsConfined(env: Env, w: World, req: Request, m: Manifest, body: Bytes, sig: Bytes)
    requires forall i :: 0 <= i < |m.files| ==> EntryShapeOk(m.files[i])
    ensures var w' := Install(env, w, req, m, body, sig).0;
            if IsSafePathSegment(m.bundleVersion) then Confined(w, w', BundleDir(req, m.bundleVersion)) else w' == w
  {
    hide IsSafePathSegment, Locate, JoinPath, FetchFiles, Confined, WriteFile, Contains, Split, Moves, IsLowercaseHex64;
    if IsSafePathSegment(m.bundleVersion) {
      var dir, path := BundleDir(req, m.bundleVersion), JoinPath(req.cacheBase, m.bundleVersion);
      PlainNames();
      EntryLocation(req.cacheBase, m.bundleVersion, MANIFEST_NAME);
      EntryLocation(req.cacheBase, m.bundleVersion, SIGNATURE_NAME);
      var (w1, made) := MakeDirs(env, w);
      ConfinedOps(w, w1, dir);
      var (w2, ok2) := WriteFile(env, w1, Locate(JoinPath(path, MANIFEST_NAME)), body);
      WriteIsConfined(env, w1, Locate(JoinPath(path, MANIFEST_NAME)), body, dir);
      ConfinedTrans(w, w1, w2, dir);
      var (w3, ok3) := WriteFile(env, w2, Locate(JoinPath(path, SIGNATURE_NAME)), sig);
      WriteIsConfined(env, w2, Locate(JoinPath(path, SIGNATURE_NAME)), sig, dir);
      ConfinedTrans(w, w2, w3, dir);
      FetchFilesIsConfined(env, w3, req.originUrl, req.cacheBase, m.bundleVersion, m.files, map[]);
      ConfinedTrans(w, w3, FetchFiles(env, w3, req.originUrl, path, m.files, map[]).0, dir);
    }
  }

  lemma ConfinedOps(w: World, w': World, dir: Location)
    requires w.files == w'.files && w.writes == w'.writes
    ensures Confined(w, w', dir)
  {
  }

  // ---- what a successful run leaves behind ---------------------------------------------

  function Target(dir: string, e: FileEntry): Location {
    Locate(JoinPath(dir, e.path))
  }

  /** The entry's location holds bytes with the entry's hash. */
  ghost predicate Holds(env: Env, files: map<Location, Bytes>, dir: string, e: FileEntry) {
    Target(dir, e) in files && env.lib.sha256Hex(files[Target(dir, e)]) == e.sha256
  }

  /** Entries that name one location agree on its hash. */
  ghost predicate Agree(dir: string, entries: seq<FileEntry>) {
    forall a, b | a in entries && b in entries && Target(dir, a) == Target(dir, b) :: a.sha256 == b.sha256
  }

  /** The same, read off the manifest alone: paths compared up to `.` and extra slashes. */
  ghost predicate ConsistentPaths(entries: seq<FileEntry>) {
    forall a, b | a in entries && b in entries && Moves(Split(a.path, '/')) == Moves(Split(b.path, '/')) ::
      a.sha256 == b.sha256
  }

  lemma ConsistentIsAgree(base: string, version: string, entries: seq<FileEntry>)
    requires IsSafePathSegment(version) && forall e | e in entries :: RelativePath(e.path)
    ensures ConsistentPaths(entries) <==> Agree(JoinPath(base, version), entries)
    ensures forall e | e in entries :: Target(JoinPath(base, version), e) == Locate(base) + [version] + Moves(Split(e.path, '/'))
  {
    hide IsSafePathSegment, Locate, JoinPath, Split, Moves, Contains, StartsWith;
    var root := Locate(base) + [version];
    forall e | e in entries ensures Target(JoinPath(base, version), e) == root + Moves(Split(e.path, '/')) {
      EntryLocation(base, version, e.path);
    }
    forall a, b | a in entries && b in entries
      ensures Target(JoinPath(base, version), a) == Target(JoinPath(base, version), b) <==>
              Moves(Split(a.path, '/')) == Moves(Split(b.path, '/'))
    {
      SamePrefix(root, Moves(Split(a.path, '/')), Moves(Split(b.path, '/')));
    }
  }

  lemma SamePrefix(root: Location, a: Location, b: Location)
    ensures root + a == root + b <==> a == b
  {
    assert (root + a)[|root|..] == a && (root + b)[|root|..] == b;
  }

  lemma FetchFileHolds(env: Env, w: World, origin: string, dir: string, e: FileEntry)
    requires FetchFile(env, w, origin, JoinPath(dir, e.path), e).1.None?
    ensures var w' := FetchFile(env, w, origin, JoinPath(dir, e.path), e).0;
            Holds(env, w'.files, dir, e) &&
            forall d | Holds(env, w.files, dir, d) && (Target(dir, d) == Target(dir, e) ==> d.sha256 == e.sha256) ::
              Holds(env, w'.files, dir, d)
  {
    hide Locate, JoinPath, JoinUrl;
  }

  lemma {:induction false} FetchFilesHold(env: Env, w: World, origin: string, dir: string, done: seq<FileEntry>, entries: seq<FileEntry>, files: map<Role, string>)
    requires Agree(dir, done + entries) && forall d | d in done :: Holds(env, w.files, dir, d)
    requires FetchFiles(env, w, origin, dir, entries, files).1.Ok?
    ensures var w' := FetchFiles(env, w, origin, dir, entries, files).0;
            forall e | e in done + entries :: Holds(env, w'.files, dir, e)
    decreases |entries|
  {
    hide FetchFile, Locate, JoinPath, Target, Holds;
    if entries == [] {
      assert done + entries == done;
    } else {
      var e := entries[0];
      FetchFileHolds(env, w, origin, dir, e);
      var w1 := FetchFile(env, w, origin, JoinPath(dir, e.path), e).0;
      assert done + entries == (done + [e]) + entries[1..];
      assert e in done + entries && forall d | d in done :: d in done + entries;
      FetchFilesHold(env, w1, origin, dir, done + [e], entries[1..], files[e.role := JoinPath(dir, e.path)]);
    }
  }

  ghost predicate DistinctRoles(entries: seq<FileEntry>) {
    forall i, j :: 0 <= i < j < |entries| ==> entries[i].role != entries[j].role
  }

  lemma {:induction false} FetchFilesRoles(env: Env, w: World, origin: string, dir: string, entries: seq<FileEntry>, files: map<Role, string>)
    requires FetchFiles(env, w, origin, dir, entries, files).1.Ok?
    ensures var r := FetchFiles(env, w, origin, dir, entries, files).1.value;
            && r.Keys == files.Keys + (set e | e in entries :: e.role)
            && (forall e | e in entries :: e.role !in files && r[e.role] == JoinPath(dir, e.path))
            && (forall role | role in files :: r[role] == files[role])
    ensures DistinctRoles(entries)
    decreases |entries|
  {
    hide FetchFile, Locate, JoinPath;
    if entries != [] {
      var e := entries[0];
      var w1 := FetchFile(env, w, origin, JoinPath(dir, e.path), e).0;
      FetchFilesRoles(env, w1, origin, dir, entries[1..], files[e.role := JoinPath(dir, e.path)]);
      assert forall d :: d in entries <==> d == e || d in entries[1..];
    }
  }

  /** A returned bundle, traced back to the entry loop that produced it. */
  lemma ReturnedBundleLoop(env: Env, w: World, req: Request, b: BundlePaths)
    requires Fetch(env, w, req).1 == Ok(b)
    ensures IsSafePathSegment(b.manifest.bundleVersion) && b.cacheDir == JoinPath(req.cacheBase, b.manifest.bundleVersion)
    ensures exists w3 :: FetchFiles(env, w3, req.originUrl, b.cacheDir, b.manifest.files, map[]) ==
                         (Fetch(env, w, req).0, Ok(b.files))
  {
    hide VerifyBundleManifest, FetchFiles, Locate, JoinPath, WriteFile, JoinUrl, IsSafePathSegment;
    var (w1, body) := HttpGet(env, w, JoinUrl(req.originUrl, MANIFEST_NAME));
    var (w2, sig) := HttpGet(env, w1, JoinUrl(req.originUrl, SIGNATURE_NAME));
    var m := VerifyBundleManifest(env.lib, req.anchor, body.value, sig.value, req.seenEpoch).value;
    assert Fetch(env, w, req) == Install(env, w2, req, m, body.value, sig.value);
    InstallLoop(env, w2, req, m, body.value, sig.value, b);
  }

  lemma InstallLoop(env: Env, w: World, req: Request, m: Manifest, body: Bytes, sig: Bytes, b: BundlePaths)
    requires Install(env, w, req, m, body, sig).1 == Ok(b)
    ensures b.manifest == m && IsSafePathSegment(m.bundleVersion) && b.cacheDir == JoinPath(req.cacheBase, m.bundleVersion)
    ensures exists w3 :: FetchFiles(env, w3, req.originUrl, b.cacheDir, m.files, map[]) ==
                         (Install(env, w, req, m, body, sig).0, Ok(b.files))
  {
    hide FetchFiles, Locate, JoinPath, WriteFile, IsSafePathSegment;
    var dir := JoinPath(req.cacheBase, m.bundleVersion);
    var w1 := MakeDirs(env, w).0;
    var w2 := WriteFile(env, w1, Locate(JoinPath(dir, MANIFEST_NAME)), body).0;
    var w3 := WriteFile(env, w2, Locate(JoinPath(dir, SIGNATURE_NAME)), sig).0;
    var loop := FetchFiles(env, w3, req.originUrl, dir, m.files, map[]);
    assert loop == (loop.0, loop.1);
    assert Install(env, w, req, m, body, sig) == (loop.0, Ok(BundlePaths(dir, loop.1.value, m)));
  }

  /**
    From any cache contents: a returned bundle indexes exactly the manifest's
    roles, and every indexed file holds verified bytes at return if and only if
    entries naming one location agree on its hash.
  */
  lemma ReturnedBundleIsVerified(env: Env, w: World, req: Request, b: BundlePaths)
    requires Fetch(env, w, req).1 == Ok(b)
    ensures b.files.Keys == (set e | e in b.manifest.files :: e.role) && DistinctRoles(b.manifest.files)
    ensures forall e | e in b.manifest.files :: b.files[e.role] == JoinPath(b.cacheDir, e.path)
    ensures (forall e | e in b.manifest.files :: Holds(env, Fetch(env, w, req).0.files, b.cacheDir, e))
            <==> ConsistentPaths(b.manifest.files)
  {
    hide Fetch, FetchFiles, IsSafePathSegment, JoinPath, Locate, Split, Moves, Contains, IsLowercaseHex64;
    var m, dir := b.manifest, b.cacheDir;
    ReturnedBundleLoop(env, w, req, b);
    var w3 :| FetchFiles(env, w3, req.originUrl, dir, m.files, map[]) == (Fetch(env, w, req).0, Ok(b.files));
    FetchFilesRoles(env, w3, req.originUrl, dir, m.files, map[]);
    ReturnedBundleWasAccepted(env, w, req, b);
    ConsistentIsAgree(req.cacheBase, m.bundleVersion, m.files);
    if ConsistentPaths(m.files) {
      assert [] + m.files == m.files;
      FetchFilesHold(env, w3, req.originUrl, dir, [], m.files, map[]);
    }
  }

  // ---- the cache against a plain download -------------------------------------------------

  ghost predicate NoFaults(env: Env) {
    forall n :: env.io(n).Works?
  }

  /** The origin serves every listed file, at any time, with the listed hash. */
  ghost predicate Honest(env: Env, origin: string, entries: seq<FileEntry>, published: string -> Bytes) {
    forall e | e in entries ::
      && env.lib.sha256Hex(published(JoinUrl(origin, e.path))) == e.sha256
      && forall n :: env.respond(n, JoinUrl(origin, e.path)) == Ok(published(JoinUrl(origin, e.path)))
  }

  /** No other bytes have the hash of a published file. */
  ghost predicate NoCollision(env: Env, origin: string, entries: seq<FileEntry>, published: string -> Bytes) {
    forall e, x | e in entries && env.lib.sha256Hex(x) == e.sha256 :: x == published(JoinUrl(origin, e.path))
  }

  lemma {:induction false} HonestFilesArrive(env: Env, w: World, origin: string, dir: string, entries: seq<FileEntry>, files: map<Role, string>, published: string -> Bytes)
    requires NoFaults(env) && Honest(env, origin, entries, published) && DistinctRoles(entries)
    requires forall e | e in entries :: e.role !in files
    ensures FetchFiles(env, w, origin, dir, entries, files).1.Ok?
    decreases |entries|
  {
    hide Locate, JoinPath, JoinUrl, FetchFile;
    if entries != [] {
      var e := entries[0];
      assert e in entries;
      HonestFileArrives(env, w, origin, JoinPath(dir, e.path), e, published);
      var w1 := FetchFile(env, w, origin, JoinPath(dir, e.path), e).0;
      HonestFilesArrive(env, w1, origin, dir, entries[1..], files[e.role := JoinPath(dir, e.path)], published);
    }
  }

  lemma HonestFileArrives(env: Env, w: World, origin: string, dest: string, e: FileEntry, published: string -> Bytes)
    requires NoFaults(env) && Honest(env, origin, [e], published)
    ensures FetchFile(env, w, origin, dest, e).1.None?
  {
    hide Locate, JoinUrl;
    assert e in [e];
  }

  /** A manifest and signature the origin serves at any time, accepted under `req`. */
  ghost predicate Serves(env: Env, req: Request, body: Bytes, sig: Bytes, m: Manifest) {
    && (forall n :: env.respond(n, JoinUrl(req.originUrl, MANIFEST_NAME)) == Ok(body))
    && (forall n :: env.respond(n, JoinUrl(req.originUrl, SIGNATURE_NAME)) == Ok(sig))
    && VerifyBundleManifest(env.lib, req.anchor, body, sig, req.seenEpoch) == Ok(m)
  }

  lemma HonestRunSucceeds(env: Env, w: World, req: Request, body: Bytes, sig: Bytes, m: Manifest, published: string -> Bytes)
    requires NoFaults(env) && Serves(env, req, body, sig, m) && Honest(env, req.originUrl, m.files, published)
    requires Usable(m.bundleVersion) && DistinctRoles(m.files)
    ensures Fetch(env, w, req).1.Ok? && Fetch(env, w, req).1.value.manifest == m
    ensures Fetch(env, w, req).1.value.cacheDir == JoinPath(req.cacheBase, m.bundleVersion)
  {
    hide VerifyBundleManifest, Locate, JoinPath, JoinUrl, FetchFiles, IsSafePathSegment, Honest, DistinctRoles, Usable;
    SafeSegmentIff(m.bundleVersion);
    forall w3 { HonestFilesArrive(env, w3, req.originUrl, JoinPath(req.cacheBase, m.bundleVersion), m.files, map[], published); }
  }

  /**
    The cache refines downloading everything: whatever the cache holds before, a
    run against an honest origin returns the bundle, and each file is the byte
    string a plain download of its URL gives.
  */
  lemma CacheRefinesPlainDownload(env: Env, w: World, req: Request, body: Bytes, sig: Bytes, m: Manifest, published: string -> Bytes)
    requires NoFaults(env) && Serves(env, req, body, sig, m) && Honest(env, req.originUrl, m.files, published)
    requires Usable(m.bundleVersion) && DistinctRoles(m.files) && ConsistentPaths(m.files)
    requires NoCollision(env, req.originUrl, m.files, published)
    ensures var (w', r) := Fetch(env, w, req);
            r.Ok? && forall e | e in m.files ::
              Target(r.value.cacheDir, e) in w'.files &&
              w'.files[Target(r.value.cacheDir, e)] == published(JoinUrl(req.originUrl, e.path))
  {
    hide Fetch, FetchFiles, Serves, Honest, Usable, DistinctRoles, ConsistentPaths, Locate, JoinPath, JoinUrl, NoFaults;
    HonestRunSucceeds(env, w, req, body, sig, m, published);
    var b := Fetch(env, w, req).1.value;
    ReturnedBundleIsVerified(env, w, req, b);
    forall e | e in m.files ensures Holds(env, Fetch(env, w, req).0.files, b.cacheDir, e) {}
  }

  // ---- running again -------------------------------------------------------------------------

  /** The location holds the entry's bytes and they have the declared size. */
  ghost predicate Fresh(env: Env, files: map<Location, Bytes>, dir: string, e: FileEntry) {
    Holds(env, files, dir, e) && |files[Target(dir, e)]| == e.sizeBytes
  }

  lemma FreshFileIsKept(env: Env, w: World, origin: string, dir: string, e: FileEntry)
    requires NoFaults(env)
    ensures var (w', failed) := FetchFile(env, w, origin, JoinPath(dir, e.path), e);
            if Fresh(env, w.files, dir, e)
            then failed.None? && w' == w.(ops := w.ops + 3)
            else w'.gets == w.gets + [JoinUrl(origin, e.path)]
  {
    hide Locate, JoinPath, JoinUrl;
  }

  lemma {:induction false} GetsOnlyGrow(env: Env, w: World, origin: string, dir: string, entries: seq<FileEntry>, files: map<Role, string>)
    requires NoFaults(env)
    ensures |FetchFiles(env, w, origin, dir, entries, files).0.gets| >= |w.gets|
    decreases |entries|
  {
    hide FetchFile, JoinPath;
    if entries != [] && entries[0].role !in files {
      var e := entries[0];
      FreshFileIsKept(env, w, origin, dir, e);
      var w1 := FetchFile(env, w, origin, JoinPath(dir, e.path), e).0;
      GetsOnlyGrow(env, w1, origin, dir, entries[1..], files[e.role := JoinPath(dir, e.path)]);
    }
  }

  /** The entry loop is silent exactly when every entry is fresh on disk. */
  lemma {:induction false} SilentLoop(env: Env, w: World, origin: string, dir: string, entries: seq<FileEntry>, files: map<Role, string>)
    requires NoFaults(env) && DistinctRoles(entries) && forall e | e in entries :: e.role !in files
    ensures var (w', r) := FetchFiles(env, w, origin, dir, entries, files);
            && (w'.gets == w.gets <==> forall e | e in entries :: Fresh(env, w.files, dir, e))
            && (w'.gets == w.gets ==> r.Ok? && w' == w.(ops := w.ops + 3 * |entries|))
    decreases |entries|
  {
    hide FetchFile, JoinPath, Fresh, JoinUrl;
    if entries != [] {
      var e := entries[0];
      FreshFileIsKept(env, w, origin, dir, e);
      var (w1, failed) := FetchFile(env, w, origin, JoinPath(dir, e.path), e);
      assert forall d :: d in entries <==> d == e || d in entries[1..];
      if Fresh(env, w.files, dir, e) {
        SilentLoop(env, w1, origin, dir, entries[1..], files[e.role := JoinPath(dir, e.path)]);
      } else {
        GetsOnlyGrow(env, w1, origin, dir, entries[1..], files[e.role := JoinPath(dir, e.path)]);
      }
    }
  }

  function ManifestAt(dir: string): Location { Locate(JoinPath(dir, MANIFEST_NAME)) }

  function SignatureAt(dir: string): Location { Locate(JoinPath(dir, SIGNATURE_NAME)) }

  /** No entry is published under the name of the manifest or its signature. */
  ghost predicate NoReservedName(dir: string, entries: seq<FileEntry>) {
    forall e | e in entries :: Target(dir, e) != ManifestAt(dir) && Target(dir, e) != SignatureAt(dir)
  }

  ghost predicate TrueSizes(files: map<Location, Bytes>, dir: string, entries: seq<FileEntry>) {
    forall e | e in entries :: Target(dir, e) in files && |files[Target(dir, e)]| == e.sizeBytes
  }

  /** The manifest does not list the hash of its own bytes or of its signature. */
  ghost predicate NoSelfHash(env: Env, entries: seq<FileEntry>, body: Bytes, sig: Bytes) {
    forall e | e in entries :: env.lib.sha256Hex(body) != e.sha256 && env.lib.sha256Hex(sig) != e.sha256
  }

  /** A run against an origin without faults, seen from its entry loop. */
  lemma ServedRun(env: Env, w: World, req: Request, body: Bytes, sig: Bytes, m: Manifest)
    requires NoFaults(env) && Serves(env, req, body, sig, m) && IsSafePathSegment(m.bundleVersion)
    ensures var dir := JoinPath(req.cacheBase, m.bundleVersion);
            var w3 := World(w.files[ManifestAt(dir) := body][SignatureAt(dir) := sig],
                            w.gets + [JoinUrl(req.originUrl, MANIFEST_NAME), JoinUrl(req.originUrl, SIGNATURE_NAME)],
                            w.writes + [ManifestAt(dir), SignatureAt(dir)], w.ops + 3);
            var loop := FetchFiles(env, w3, req.originUrl, dir, m.files, map[]);
            Fetch(env, w, req) == (loop.0, if loop.1.Ok? then Ok(BundlePaths(dir, loop.1.value, m)) else Err(loop.1.error))
  {
    hide VerifyBundleManifest, Locate, JoinPath, JoinUrl, FetchFiles, IsSafePathSegment;
    var dir := JoinPath(req.cacheBase, m.bundleVersion);
    var a, b := JoinUrl(req.originUrl, MANIFEST_NAME), JoinUrl(req.originUrl, SIGNATURE_NAME);
    assert w.gets + [a] + [b] == w.gets + [a, b];
    assert w.writes + [ManifestAt(dir)] + [SignatureAt(dir)] == w.writes + [ManifestAt(dir), SignatureAt(dir)];
  }

  lemma {:induction false} FetchFilesSparesOthers(env: Env, w: World, origin: string, dir: string, entries: seq<FileEntry>, files: map<Role, string>, p: Location)
    requires p in w.files && forall e | e in entries :: Target(dir, e) != p
    ensures var w' := FetchFiles(env, w, origin, dir, entries, files).0;
            p in w'.files && w'.files[p] == w.files[p]
    decreases |entries|
  {
    hide JoinPath, Locate, FetchFile;
    if entries != [] && entries[0].role !in files {
      var e := entries[0];
      assert e in entries;
      FetchFileSparesOthers(env, w, origin, JoinPath(dir, e.path), e, p);
      var w1 := FetchFile(env, w, origin, JoinPath(dir, e.path), e).0;
      FetchFilesSparesOthers(env, w1, origin, dir, entries[1..], files[e.role := JoinPath(dir, e.path)], p);
    }
  }

  lemma FetchFileSparesOthers(env: Env, w: World, origin: string, dest: string, e: FileEntry, p: Location)
    requires p in w.files && Locate(dest) != p
    ensures var w' := FetchFile(env, w, origin, dest, e).0;
            p in w'.files && w'.files[p] == w.files[p]
  {
    hide JoinUrl, Locate;
  }

  /**
    After a successful run, running again against the same published bundle issues
    only the manifest and signature GETs, if and only if the declared sizes are
    true, entries spelling one path agree on its hash, and no entry's path leads to
    the manifest's or the signature's file.
  */
  lemma RerunIsSilentIff(env: Env, w: World, req: Request, body: Bytes, sig: Bytes, m: Manifest)
    requires NoFaults(env) && Serves(env, req, body, sig, m) && IsSafePathSegment(m.bundleVersion)
    requires Fetch(env, w, req).1.Ok? && NoSelfHash(env, m.files, body, sig)
    ensures var (w1, r) := Fetch(env, w, req);
            var w2 := Fetch(env, w1, req).0;
            w2.gets == w1.gets + [JoinUrl(req.originUrl, MANIFEST_NAME), JoinUrl(req.originUrl, SIGNATURE_NAME)]
            <==> && TrueSizes(w1.files, r.value.cacheDir, m.files) && ConsistentPaths(m.files)
                 && NoReservedName(r.value.cacheDir, m.files)
  {
    hide Fetch, FetchFiles, VerifyBundleManifest, IsSafePathSegment, JoinPath, JoinUrl, Locate, ConsistentPaths;
    var dir := JoinPath(req.cacheBase, m.bundleVersion);
    ServedRun(env, w, req, body, sig, m);
    var (w1, r) := Fetch(env, w, req);
    ReturnedBundleIsVerified(env, w, req, r.value);
    ServedRun(env, w1, req, body, sig, m);
    var files3 := w1.files[ManifestAt(dir) := body][SignatureAt(dir) := sig];
    var w3 := World(files3, w1.gets + [JoinUrl(req.originUrl, MANIFEST_NAME), JoinUrl(req.originUrl, SIGNATURE_NAME)],
                    w1.writes + [ManifestAt(dir), SignatureAt(dir)], w1.ops + 3);
    SilentLoop(env, w3, req.originUrl, dir, m.files, map[]);
    FreshAfterRewrite(env, w1.files, dir, m.files, body, sig);
  }

  lemma FreshAfterRewrite(env: Env, files: map<Location, Bytes>, dir: string, entries: seq<FileEntry>, body: Bytes, sig: Bytes)
    requires NoSelfHash(env, entries, body, sig)
    ensures (forall e | e in entries :: Fresh(env, files[ManifestAt(dir) := body][SignatureAt(dir) := sig], dir, e))
            <==> (forall e | e in entries :: Holds(env, files, dir, e)) && TrueSizes(files, dir, entries) && NoReservedName(dir, entries)
  {
    hide Locate, JoinPath;
    var files3 := files[ManifestAt(dir) := body][SignatureAt(dir) := sig];
    forall e | e in entries
      ensures Fresh(env, files3, dir, e) <==>
              Holds(env, files, dir, e) && |files[Target(dir, e)]| == e.sizeBytes &&
              Target(dir, e) != ManifestAt(dir) && Target(dir, e) != SignatureAt(dir)
    {
    }
  }

  /** Spelled as the manifest's own file, a bundle's only entry is refused on the first run already. */
  lemma OwnNameIsRefused(env: Env, w: World, req: Request, body: Bytes, sig: Bytes, m: Manifest, e: FileEntry)
    requires NoFaults(env) && Serves(env, req, body, sig, m) && IsSafePathSegment(m.bundleVersion)
    requires m.files == [e] && e.path == MANIFEST_NAME && NoSelfHash(env, m.files, body, sig)
    ensures Fetch(env, w, req).1 == Err(Sha256Mismatch(e.path))
  {
    hide Fetch, VerifyBundleManifest, IsSafePathSegment, JoinPath, JoinUrl, Locate;
    ServedRun(env, w, req, body, sig, m);
    TwoNames(req.cacheBase, m.bundleVersion);
    assert e in m.files;
  }

  /** A silent rerun returns the same bundle, leaves every file as it was, and makes three I/O calls and three an entry. */
  lemma SilentRerunChangesNothing(env: Env, w: World, req: Request, body: Bytes, sig: Bytes, m: Manifest)
    requires NoFaults(env) && Serves(env, req, body, sig, m) && IsSafePathSegment(m.bundleVersion)
    requires Fetch(env, w, req).1.Ok? && ConsistentPaths(m.files) && NoSelfHash(env, m.files, body, sig)
    requires TrueSizes(Fetch(env, w, req).0.files, Fetch(env, w, req).1.value.cacheDir, m.files)
    requires NoReservedName(Fetch(env, w, req).1.value.cacheDir, m.files)
    ensures var (w1, r) := Fetch(env, w, req);
            var (w2, again) := Fetch(env, w1, req);
            w2.files == w1.files && again.Ok? && again.value == r.value && w2.ops == w1.ops + 3 + 3 * |m.files|
  {
    hide Fetch, FetchFiles, VerifyBundleManifest, IsSafePathSegment, JoinPath, JoinUrl, Locate, ConsistentPaths;
    var dir := JoinPath(req.cacheBase, m.bundleVersion);
    ServedRun(env, w, req, body, sig, m);
    var (w1, r) := Fetch(env, w, req);
    var s3 := World(w.files[ManifestAt(dir) := body][SignatureAt(dir) := sig],
                    w.gets + [JoinUrl(req.originUrl, MANIFEST_NAME), JoinUrl(req.originUrl, SIGNATURE_NAME)],
                    w.writes + [ManifestAt(dir), SignatureAt(dir)], w.ops + 3);
    TwoNames(req.cacheBase, m.bundleVersion);
    FetchFilesSparesOthers(env, s3, req.originUrl, dir, m.files, map[], ManifestAt(dir));
    FetchFilesSparesOthers(env, s3, req.originUrl, dir, m.files, map[], SignatureAt(dir));
    assert w1.files[ManifestAt(dir) := body][SignatureAt(dir) := sig] == w1.files;
    ReturnedBundleIsVerified(env, w, req, r.value);
    ServedRun(env, w1, req, body, sig, m);
    var w3 := World(w1.files, w1.gets + [JoinUrl(req.originUrl, MANIFEST_NAME), JoinUrl(req.originUrl, SIGNATURE_NAME)],
                    w1.writes + [ManifestAt(dir), SignatureAt(dir)], w1.ops + 3);
    SilentLoop(env, w3, req.originUrl, dir, m.files, map[]);
    FreshAfterRewrite(env, w1.files, dir, m.files, body, sig);
    FetchFilesRoles(env, w3, req.originUrl, dir, m.files, map[]);
    var empty: map<Role, string> := map[];
    assert empty.Keys + (set e | e in m.files :: e.role) == (set e | e in m.files :: e.role);
    var again := FetchFiles(env, w3, req.originUrl, dir, m.files, map[]).1.value;
    assert again.Keys == (set e | e in m.files :: e.role);
    SameIndex(r.value.files, again, dir, m.files);
  }

  lemma TwoNames(base: string, version: string)
    requires IsSafePathSegment(version)
    ensures ManifestAt(JoinPath(base, version)) != SignatureAt(JoinPath(base, version))
  {
    hide IsSafePathSegment, Locate, JoinPath, Contains, FindFrom;
    PlainNames();
    EntryLocation(base, version, MANIFEST_NAME);
    EntryLocation(base, version, SIGNATURE_NAME);
    SplitSingle(MANIFEST_NAME);
    SplitSingle(SIGNATURE_NAME);
    assert [MANIFEST_NAME][1..] == [] && [SIGNATURE_NAME][1..] == [];
    SamePrefix(Locate(base) + [version], [MANIFEST_NAME], [SIGNATURE_NAME]);
  }

  lemma SameIndex(a: map<Role, string>, b: map<Role, string>, dir: string, entries: seq<FileEntry>)
    requires a.Keys == (set e | e in entries :: e.role) && b.Keys == (set e | e in entries :: e.role)
    requires forall e | e in entries :: a[e.role] == JoinPath(dir, e.path) && b[e.role] == JoinPath(dir, e.path)
    ensures a == b
  {
    hide JoinPath;
    assert a.Keys == b.Keys;
    forall role | role in a ensures a[role] == b[role] {
      var e :| e in entries && e.role == role;
    }
  }
}
