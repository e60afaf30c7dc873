/**
  Why a run of the bundle cache fails, for every kind of error, and what it has
  persisted of the manifest when it does not.
*/
module BundleFailures {
  import opened Wrappers
  import opened Strings
  import opened Paths
  import opened BundleVerify
  import opened BundleCache
  import opened BundleCacheLaws

  /** The manifest the run downloads and accepts. */
  function Accepted(env: Env, w: World, req: Request): Option<Manifest> {
    match (env.respond(|w.gets|, JoinUrl(req.originUrl, MANIFEST_NAME)),
           env.respond(|w.gets| + 1, JoinUrl(req.originUrl, SIGNATURE_NAME)))
    case (Ok(body), Ok(sig)) =>
      (match VerifyBundleManifest(env.lib, req.anchor, body, sig, req.seenEpoch)
       case Ok(m) => Some(m)
       case Err(_) => None)
    case _ => None
  }

  /** The last request between two snapshots, and its answer. */
  ghost predicate LastGet(env: Env, w: World, w': World, url: string, answer: Result<Bytes, DownloadError>) {
    && |w.gets| < |w'.gets| && w'.gets[|w'.gets| - 1] == url
    && env.respond(|w'.gets| - 1, url) == answer
  }

  ghost predicate SomeFault(env: Env, w: World, w': World) {
    exists k: nat :: w.ops <= k < w'.ops && !env.io(k).Works?
  }

  /** What a failure among these entries shows. */
  ghost predicate Shows(env: Env, w: World, w': World, origin: string, entries: seq<FileEntry>, why: CacheError) {
    match why
    case Download(cause) => exists e | e in entries :: LastGet(env, w, w', JoinUrl(origin, e.path), Err(cause))
    case Sha256Mismatch(path) =>
      exists e, body | e in entries && e.path == path && env.lib.sha256Hex(body) != e.sha256 ::
        LastGet(env, w, w', JoinUrl(origin, path), Ok(body))
    case Io => SomeFault(env, w, w')
    case _ => false
  }

  lemma FileFailure(env: Env, w: World, origin: string, dest: string, e: FileEntry)
    ensures var (w', failed) := FetchFile(env, w, origin, dest, e);
            && w.ops <= w'.ops && |w.gets| <= |w'.gets|
            && (failed.Some? ==> Shows(env, w, w', origin, [e], failed.value))
  {
    hide JoinUrl, Locate;
    var (w', failed) := FetchFile(env, w, origin, dest, e);
    assert e in [e];
    if failed == Some(Io) {
      assert SomeFault(env, w, w') by { assert w'.ops > w.ops && !env.io(w'.ops - 1).Works?; }
    }
  }

  lemma {:induction false} FilesFailure(env: Env, w: World, origin: string, dir: string, entries: seq<FileEntry>, files: map<Role, string>)
    ensures var (w', r) := FetchFiles(env, w, origin, dir, entries, files);
            && w.ops <= w'.ops && |w.gets| <= |w'.gets|
            && (r.Err? ==> r.error == UnknownRole || Shows(env, w, w', origin, entries, r.error))
            && (r == Err(UnknownRole) ==> !DistinctRoles(entries) || exists e | e in entries :: e.role in files)
    decreases |entries|
  {
    hide FetchFile, JoinPath, JoinUrl;
    if entries != [] && entries[0].role !in files {
      var e := entries[0];
      var dest := JoinPath(dir, e.path);
      FileFailure(env, w, origin, dest, e);
      var (w1, failed) := FetchFile(env, w, origin, dest, e);
      assert forall x :: x in [e] ==> x in entries;
      if failed.None? {
        FilesFailure(env, w1, origin, dir, entries[1..], files[e.role := dest]);
        var (w', r) := FetchFiles(env, w1, origin, dir, entries[1..], files[e.role := dest]);
        if r.Err? && r.error != UnknownRole { LaterFailure(env, w, w1, w', origin, entries, r.error); }
      }
    }
  }

  lemma LaterFailure(env: Env, w: World, w1: World, w': World, origin: string, entries: seq<FileEntry>, why: CacheError)
    requires entries != [] && Shows(env, w1, w', origin, entries[1..], why)
    requires w.ops <= w1.ops && |w.gets| <= |w1.gets|
    ensures Shows(env, w, w', origin, entries, why)
  {
    hide JoinUrl;
    assert forall e :: e in entries[1..] ==> e in entries;
  }

  /** Every error of every run, and what brought it about. */
  lemma FailureIsExplained(env: Env, w: World, req: Request)
    requires Fetch(env, w, req).1.Err?
    ensures var (w', r) := Fetch(env, w, req);
            var m := Accepted(env, w, req);
            match r.error
            case Verify(why) =>
              exists body, sig ::
                && env.respond(|w.gets|, JoinUrl(req.originUrl, MANIFEST_NAME)) == Ok(body)
                && env.respond(|w.gets| + 1, JoinUrl(req.originUrl, SIGNATURE_NAME)) == Ok(sig)
                && VerifyBundleManifest(env.lib, req.anchor, body, sig, req.seenEpoch) == Err(why)
            case UnsafeBundleVersion(v) => m.Some? && m.value.bundleVersion == v && !Usable(v)
            case UnknownRole => m.Some? && !DistinctRoles(m.value.files)
            case Download(cause) =>
              || LastGet(env, w, w', JoinUrl(req.originUrl, MANIFEST_NAME), Err(cause))
              || LastGet(env, w, w', JoinUrl(req.originUrl, SIGNATURE_NAME), Err(cause))
              || (m.Some? && Shows(env, w, w', req.originUrl, m.value.files, r.error))
            case Sha256Mismatch(_) => m.Some? && Shows(env, w, w', req.originUrl, m.value.files, r.error)
            case Io => m.Some? && SomeFault(env, w, w')
  {
    hide VerifyBundleManifest, FetchFiles, Locate, JoinPath, JoinUrl, IsSafePathSegment, Usable, DistinctRoles, Shows, SomeFault, Install;
    var (w1, body) := HttpGet(env, w, JoinUrl(req.originUrl, MANIFEST_NAME));
    if body.Ok? {
      var (w2, sig) := HttpGet(env, w1, JoinUrl(req.originUrl, SIGNATURE_NAME));
      if sig.Ok? {
        var verified := VerifyBundleManifest(env.lib, req.anchor, body.value, sig.value, req.seenEpoch);
        if verified.Ok? {
          InstallFailure(env, w, w2, req, verified.value, body.value, sig.value);
        }
      }
    }
  }

  lemma InstallFailure(env: Env, w: World, w2: World, req: Request, m: Manifest, body: Bytes, sig: Bytes)
    requires Install(env, w2, req, m, body, sig).1.Err? && |w.gets| <= |w2.gets| && w.ops == w2.ops
    ensures var (w', r) := Install(env, w2, req, m, body, sig);
            match r.error
            case Verify(_) => false
            case UnsafeBundleVersion(v) => m.bundleVersion == v && !Usable(v)
            case UnknownRole => !DistinctRoles(m.files)
            case Download(_) => Shows(env, w, w', req.originUrl, m.files, r.error)
            case Sha256Mismatch(_) => Shows(env, w, w', req.originUrl, m.files, r.error)
            case Io => SomeFault(env, w, w')
  {
    hide FetchFiles, Locate, JoinPath, JoinUrl, IsSafePathSegment, Usable, DistinctRoles;
    SafeSegmentIff(m.bundleVersion);
    var (w', r) := Install(env, w2, req, m, body, sig);
    var dir := JoinPath(req.cacheBase, m.bundleVersion);
    if IsSafePathSegment(m.bundleVersion) {
      var (w3, made) := MakeDirs(env, w2);
      var (w4, wroteBody) := WriteFile(env, w3, Locate(JoinPath(dir, MANIFEST_NAME)), body);
      var (w5, wroteSig) := WriteFile(env, w4, Locate(JoinPath(dir, SIGNATURE_NAME)), sig);
      if !made {
        assert !env.io(w2.ops).Works?;
      } else if !wroteBody {
        assert !env.io(w2.ops + 1).Works?;
      } else if !wroteSig {
        assert !env.io(w2.ops + 2).Works?;
      } else {
        FilesFailure(env, w5, req.originUrl, dir, m.files, map[]);
        if r.error != UnknownRole { Widen(env, w, w5, w', req.originUrl, m.files, r.error); }
      }
    }
  }

  lemma Widen(env: Env, w: World, w1: World, w': World, origin: string, entries: seq<FileEntry>, why: CacheError)
    requires Shows(env, w1, w', origin, entries, why) && w.ops <= w1.ops && |w.gets| <= |w1.gets|
    ensures Shows(env, w, w', origin, entries, why)
  {
    hide JoinUrl;
  }

  /** A returned bundle has its manifest and signature beside it, unless an entry took their place. */
  lemma ManifestIsPersisted(env: Env, w: World, req: Request, body: Bytes, sig: Bytes)
    requires env.respond(|w.gets|, JoinUrl(req.originUrl, MANIFEST_NAME)) == Ok(body)
    requires env.respond(|w.gets| + 1, JoinUrl(req.originUrl, SIGNATURE_NAME)) == Ok(sig)
    requires Fetch(env, w, req).1.Ok?
    ensures var (w', r) := Fetch(env, w, req);
            var b := r.value;
            NoReservedName(b.cacheDir, b.manifest.files) ==>
              && At(w'.files, b.cacheDir, "bundle-manifest.json") == Some(body)
              && At(w'.files, b.cacheDir, "bundle-manifest.json.minisig") == Some(sig)
  {
    hide VerifyBundleManifest, FetchFiles, Locate, JoinPath, JoinUrl, IsSafePathSegment;
    var (w', r) := Fetch(env, w, req);
    var dir, m := r.value.cacheDir, r.value.manifest;
    var (w1, _) := HttpGet(env, w, JoinUrl(req.originUrl, MANIFEST_NAME));
    var (w2, _) := HttpGet(env, w1, JoinUrl(req.originUrl, SIGNATURE_NAME));
    var w3 := MakeDirs(env, w2).0;
    var w4 := WriteFile(env, w3, ManifestAt(dir), body).0;
    var w5 := WriteFile(env, w4, SignatureAt(dir), sig).0;
    TwoNames(req.cacheBase, m.bundleVersion);
    if NoReservedName(dir, m.files) {
      FetchFilesSparesOthers(env, w5, req.originUrl, dir, m.files, map[], ManifestAt(dir));
      FetchFilesSparesOthers(env, w5, req.originUrl, dir, m.files, map[], SignatureAt(dir));
    }
  }

  function At(files: map<Location, Bytes>, dir: string, name: string): Option<Bytes> {
    var at := Locate(JoinPath(dir, name));
    if at in files then Some(files[at]) else None
  }
}
