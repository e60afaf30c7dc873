/**
  `fetch_bundle`: a content-addressed cache in front of a downloader.  `Fetch` is
  one whole run on a snapshot of the host; `BundleHost.FetchBundle` is the code's
  sequence of effects, proved to produce exactly that run.
*/
module BundleCache {
  import opened Wrappers
  import opened Strings
  import opened Paths
  import opened BundleVerify

  datatype DownloadError = Http(status: nat) | Transport | NotHttps

  datatype CacheError =
    | Download(cause: DownloadError)
    | UnknownRole
    | Sha256Mismatch(path: string)
    | Verify(refusal: VerifyError)
    | Io
    | UnsafeBundleVersion(version: string)

  /** A file-system call works, or fails and may leave other bytes behind. */
  datatype IoOutcome = Works | Fails(leftover: Option<Bytes>)

  /** What lies outside the program: any answers from the network, any I/O faults. */
  datatype Env = Env(
    lib: Library,
    respond: (nat, string) -> Result<Bytes, DownloadError>,
    io: nat -> IoOutcome)

  /** File contents, and the trace: URLs requested, locations written, I/O calls made. */
  datatype World = World(files: map<Location, Bytes>, gets: seq<string>, writes: seq<Location>, ops: nat)

  datatype Request = Request(originUrl: string, cacheBase: string, anchor: Anchor, seenEpoch: nat)

  datatype BundlePaths = BundlePaths(cacheDir: string, files: map<Role, string>, manifest: Manifest)

  const MANIFEST_NAME := "bundle-manifest.json"
  const SIGNATURE_NAME := "bundle-manifest.json.minisig"

  // ---- pure helpers of the source ---------------------------------------------

  predicate IsSafePathSegment(s: string) {
    && s != "" && s != "." && s != ".."
    && '/' !in s && '\\' !in s && '\0' !in s && '\r' !in s && '\n' !in s
    && !StartsWith(s, "-")
  }

  function JoinUrl(base: string, rel: string): string {
    if EndsWith(base, "/") then base + rel else base + "/" + rel
  }

  // ---- one effect each ------------------------------------------------------------

  function HttpGet(env: Env, w: World, url: string): (World, Result<Bytes, DownloadError>) {
    (w.(gets := w.gets + [url]), env.respond(|w.gets|, url))
  }

  function MakeDirs(env: Env, w: World): (World, bool) {
    (w.(ops := w.ops + 1), env.io(w.ops).Works?)
  }

  function FileLength(env: Env, w: World, at: Location): (World, Option<nat>) {
    (w.(ops := w.ops + 1), if env.io(w.ops).Works? && at in w.files then Some(|w.files[at]|) else None)
  }

  function ReadFile(env: Env, w: World, at: Location): (World, Option<Bytes>) {
    (w.(ops := w.ops + 1), if env.io(w.ops).Works? && at in w.files then Some(w.files[at]) else None)
  }

  function WriteFile(env: Env, w: World, at: Location, body: Bytes): (World, bool) {
    var next := w.(ops := w.ops + 1, writes := w.writes + [at]);
    match env.io(w.ops)
    case Works => (next.(files := w.files[at := body]), true)
    case Fails(None) => (next, false)
    case Fails(Some(leftover)) => (next.(files := w.files[at := leftover]), false)
  }

  // ---- the run ----------------------------------------------------------------------

  function DownloadFile(env: Env, w: World, origin: string, dest: string, entry: FileEntry): (World, Option<CacheError>) {
    var (w1, got) := HttpGet(env, w, JoinUrl(origin, entry.path));
    if got.Err? then (w1, Some(Download(got.error)))
    else if env.lib.sha256Hex(got.value) != entry.sha256 then (w1, Some(Sha256Mismatch(entry.path)))
    else
      var (w2, written) := WriteFile(env, w1, Locate(dest), got.value);
      (w2, if written then None else Some(Io))
  }

  /** One entry: a cached copy of the right size and hash is kept, else downloaded. */
  function FetchFile(env: Env, w: World, origin: string, dest: string, entry: FileEntry): (World, Option<CacheError>) {
    var (w1, made) := MakeDirs(env, w);
    if !made then (w1, Some(Io))
    else
      var (w2, length) := FileLength(env, w1, Locate(dest));
      if length != Some(entry.sizeBytes) then DownloadFile(env, w2, origin, dest, entry)
      else
        var (w3, cached) := ReadFile(env, w2, Locate(dest));
        if cached.None? then (w3, Some(Io))
        else if env.lib.sha256Hex(cached.value) == entry.sha256 then (w3, None)
        else DownloadFile(env, w3, origin, dest, entry)
  }

  function FetchFiles(env: Env, w: World, origin: string, dir: string, entries: seq<FileEntry>, files: map<Role, string>)
    : (World, Result<map<Role, string>, CacheError>)
    decreases |entries|
  {
    if entries == [] then (w, Ok(files))
    else if entries[0].role in files then (w, Err(UnknownRole))
    else
      var dest := JoinPath(dir, entries[0].path);
      var (w1, failed) := FetchFile(env, w, origin, dest, entries[0]);
      if failed.Some? then (w1, Err(failed.value))
      else FetchFiles(env, w1, origin, dir, entries[1..], files[entries[0].role := dest])
  }

  /** From an accepted manifest on: everything below the cache directory. */
  function Install(env: Env, w: World, req: Request, m: Manifest, body: Bytes, sig: Bytes): (World, Result<BundlePaths, CacheError>) {
    if !IsSafePathSegment(m.bundleVersion) then (w, Err(UnsafeBundleVersion(m.bundleVersion)))
    else
      var dir := JoinPath(req.cacheBase, m.bundleVersion);
      var (w1, made) := MakeDirs(env, w);
      if !made then (w1, Err(Io))
      else
        var (w2, wroteBody) := WriteFile(env, w1, Locate(JoinPath(dir, MANIFEST_NAME)), body);
        if !wroteBody then (w2, Err(Io))
        else
          var (w3, wroteSig) := WriteFile(env, w2, Locate(JoinPath(dir, SIGNATURE_NAME)), sig);
          if !wroteSig then (w3, Err(Io))
          else
            var (w4, files) := FetchFiles(env, w3, req.originUrl, dir, m.files, map[]);
            (w4, if files.Ok? then Ok(BundlePaths(dir, files.value, m)) else Err(files.error))
  }

  function Fetch(env: Env, w: World, req: Request): (World, Result<BundlePaths, CacheError>) {
    var (w1, body) := HttpGet(env, w, JoinUrl(req.originUrl, MANIFEST_NAME));
    if body.Err? then (w1, Err(Download(body.error)))
    else
      var (w2, sig) := HttpGet(env, w1, JoinUrl(req.originUrl, SIGNATURE_NAME));
      if sig.Err? then (w2, Err(Download(sig.error)))
      else
        match VerifyBundleManifest(env.lib, req.anchor, body.value, sig.value, req.seenEpoch)
        case Err(e) => (w2, Err(Verify(e)))
        case Ok(m) => Install(env, w2, req, m, body.value, sig.value)
  }

  // ---- the code's effects, one after the other -----------------------------------------

  class BundleHost {
    const env: Env
    var files: map<Location, Bytes>
    var gets: seq<string>
    var writes: seq<Location>
    var ops: nat

    constructor (env: Env, files: map<Location, Bytes>)
      ensures this.env == env && Snapshot() == World(files, [], [], 0)
    {
      this.env := env;
      this.files := files;
      gets, writes, ops := [], [], 0;
    }

    function Snapshot(): World
      reads this
    {
      World(files, gets, writes, ops)
    }

    method Get(url: string) returns (r: Result<Bytes, DownloadError>)
      modifies this`gets
      ensures (Snapshot(), r) == HttpGet(env, old(Snapshot()), url)
    {
      r := env.respond(|gets|, url);
      gets := gets + [url];
    }

    method CreateDirAll() returns (ok: bool)
      modifies this`ops
      ensures (Snapshot(), ok) == MakeDirs(env, old(Snapshot()))
    {
      ok := env.io(ops).Works?;
      ops := ops + 1;
    }

    method Metadata(at: Location) returns (length: Option<nat>)
      modifies this`ops
      ensures (Snapshot(), length) == FileLength(env, old(Snapshot()), at)
    {
      length := if env.io(ops).Works? && at in files then Some(|files[at]|) else None;
      ops := ops + 1;
    }

    method Read(at: Location) returns (body: Option<Bytes>)
      modifies this`ops
      ensures (Snapshot(), body) == ReadFile(env, old(Snapshot()), at)
    {
      body := if env.io(ops).Works? && at in files then Some(files[at]) else None;
      ops := ops + 1;
    }

    method Write(at: Location, body: Bytes) returns (ok: bool)
      modifies this`files, this`writes, this`ops
      ensures (Snapshot(), ok) == WriteFile(env, old(Snapshot()), at, body)
    {
      var outcome := env.io(ops);
      writes, ops := writes + [at], ops + 1;
      ok := outcome.Works?;
      if ok {
        files := files[at := body];
      } else if outcome.leftover.Some? {
        files := files[at := outcome.leftover.value];
      }
    }

    /** The body of the loop over `manifest.files`, after the role check. */
    method FetchOne(origin: string, dest: string, entry: FileEntry) returns (failed: Option<CacheError>)
      modifies this
      ensures (Snapshot(), failed) == FetchFile(env, old(Snapshot()), origin, dest, entry)
    {
      var made := CreateDirAll();
      if !made {
        return Some(Io);
      }
      var needsDownload := true;
      var length := Metadata(Locate(dest));
      if length == Some(entry.sizeBytes) {
        var cached := Read(Locate(dest));
        if cached.None? {
          return Some(Io);
        }
        needsDownload := env.lib.sha256Hex(cached.value) != entry.sha256;
      }
      if needsDownload {
        var body := Get(JoinUrl(origin, entry.path));
        if body.Err? {
          return Some(Download(body.error));
        }
        if env.lib.sha256Hex(body.value) != entry.sha256 {
          return Some(Sha256Mismatch(entry.path));
        }
        var written := Write(Locate(dest), body.value);
        if !written {
          return Some(Io);
        }
      }
      return None;
    }

    method FetchBundle(req: Request) returns (r: Result<BundlePaths, CacheError>)
      modifies this
      ensures (Snapshot(), r) == Fetch(env, old(Snapshot()), req)
    {
      var body := Get(JoinUrl(req.originUrl, MANIFEST_NAME));
      if body.Err? {
        return Err(Download(body.error));
      }
      var sig := Get(JoinUrl(req.originUrl, SIGNATURE_NAME));
      if sig.Err? {
        return Err(Download(sig.error));
      }
      var verified := VerifyBundleManifest(env.lib, req.anchor, body.value, sig.value, req.seenEpoch);
      if verified.Err? {
        return Err(Verify(verified.error));
      }
      r := InstallBundle(req, verified.value, body.value, sig.value);
    }

    method InstallBundle(req: Request, manifest: Manifest, body: Bytes, sig: Bytes) returns (r: Result<BundlePaths, CacheError>)
      modifies this
      ensures (Snapshot(), r) == Install(env, old(Snapshot()), req, manifest, body, sig)
    {
      hide Locate, JoinPath, IsSafePathSegment;
      if !IsSafePathSegment(manifest.bundleVersion) {
        return Err(UnsafeBundleVersion(manifest.bundleVersion));
      }
      var cacheDir := JoinPath(req.cacheBase, manifest.bundleVersion);
      var made := CreateDirAll();
      if !made {
        return Err(Io);
      }
      var wroteBody := Write(Locate(JoinPath(cacheDir, MANIFEST_NAME)), body);
      if !wroteBody {
        return Err(Io);
      }
      var wroteSig := Write(Locate(JoinPath(cacheDir, SIGNATURE_NAME)), sig);
      if !wroteSig {
        return Err(Io);
      }
      var found := FetchAll(req.originUrl, cacheDir, manifest.files);
      if found.Err? {
        return Err(found.error);
      }
      return Ok(BundlePaths(cacheDir, found.value, manifest));
    }

    method FetchAll(origin: string, cacheDir: string, entries: seq<FileEntry>) returns (r: Result<map<Role, string>, CacheError>)
      modifies this
      ensures (Snapshot(), r) == FetchFiles(env, old(Snapshot()), origin, cacheDir, entries, map[])
    {
      hide Locate, JoinPath, FetchFile;
      var found: map<Role, string> := map[];
      var i := 0;
      while i < |entries|
        invariant 0 <= i <= |entries|
        invariant FetchFiles(env, old(Snapshot()), origin, cacheDir, entries, map[]) ==
                  FetchFiles(env, Snapshot(), origin, cacheDir, entries[i..], found)
      {
        var entry := entries[i];
        if entry.role in found {
          return Err(UnknownRole);
        }
        var dest := JoinPath(cacheDir, entry.path);
        var failed := FetchOne(origin, dest, entry);
        if failed.Some? {
          return Err(failed.value);
        }
        found := found[entry.role := dest];
        assert entries[i..][1..] == entries[i + 1..];
        i := i + 1;
      }
      return Ok(found);
    }
  }
}
