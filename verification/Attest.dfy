/**
  The attestation store: a directory of manifests, where a flash creates a file
  and an add appends to the newest file of its stick, or to the newest of all
  when the stick cannot be told.
*/
module Attest {
  import opened Wrappers
  import opened Strings

  datatype IsoRecord = IsoRecord(filename: string, sha256: string, sizeBytes: nat, sidecars: seq<string>, addedAt: string)

  /** Who flashed what on which host; recorded and never read again. */
  datatype FlashInfo = FlashInfo(
    operator: string, kernel: string, secureBoot: string, model: string, sizeBytes: nat, imageSha256: string, imageSizeBytes: nat)

  datatype Attestation = Attestation(
    flashedAt: string, device: string, diskGuid: string, info: FlashInfo, isos: seq<IsoRecord>)

  datatype File = File(manifest: Attestation, mtime: nat)

  /** The directory, and a clock that ticks with every recorded operation. */
  datatype State = State(files: map<string, File>, clock: nat)

  datatype LookupSource = GuidMatch | FallbackNewest

  // ---- file names -----------------------------------------------------------------

  function SanitizeChar(c: char): char {
    if 'a' <= c <= 'z' || 'A' <= c <= 'Z' || '0' <= c <= '9' || c == '-' || c == '_' then c else '_'
  }

  function Sanitize(s: string): string {
    seq(|s|, i requires 0 <= i < |s| => SanitizeChar(s[i]))
  }

  function DashColons(s: string): string {
    seq(|s|, i requires 0 <= i < |s| => if s[i] == ':' then '-' else s[i])
  }

  /** The disk GUID as `unwrap_or_default` leaves it. */
  function GuidText(guid: Option<string>): string {
    match guid
    case Some(g) => g
    case None => ""
  }

  function FileId(device: string, guid: string): string {
    if guid == "" then "unknown-" + Sanitize(device) else Lower(guid)
  }

  const EXTENSION := ".json"

  function FileName(device: string, guid: string, timestamp: string): string {
    FileId(device, guid) + "-" + DashColons(timestamp) + EXTENSION
  }

  predicate IsJson(name: string) {
    |name| > |EXTENSION| && EndsWith(name, EXTENSION)
  }

  function Stem(name: string): string
    requires IsJson(name)
  {
    name[..|name| - |EXTENSION|]
  }

  predicate Matches(name: string, guid: string) {
    IsJson(name) && StartsWith(Lower(Stem(name)), Lower(guid))
  }

  // ---- lookup -----------------------------------------------------------------------

  function JsonNames(listing: seq<string>): (r: seq<string>)
    ensures forall n :: n in r <==> n in listing && IsJson(n)
  {
    if listing == [] then []
    else (if IsJson(listing[0]) then [listing[0]] else []) + JsonNames(listing[1..])
  }

  function MatchingNames(names: seq<string>, guid: string): (r: seq<string>)
    ensures forall n :: n in r <==> n in names && Matches(n, guid)
  {
    if names == [] then []
    else (if Matches(names[0], guid) then [names[0]] else []) + MatchingNames(names[1..], guid)
  }

  /** A stable sort by modification time, then the last element. */
  function Newest(names: seq<string>, files: map<string, File>): (r: Option<string>)
    requires forall n | n in names :: n in files
    ensures r.None? <==> names == []
    ensures r.Some? ==> r.value in names && forall n | n in names :: files[n].mtime <= files[r.value].mtime
  {
    if names == [] then None
    else
      var last := names[|names| - 1];
      var best := Newest(names[..|names| - 1], files);
      assert forall n :: n in names <==> n in names[..|names| - 1] || n == last;
      if best.None? || files[best.value].mtime <= files[last].mtime then Some(last) else best
  }

  ghost predicate Lists(listing: seq<string>, files: map<string, File>) {
    forall n :: n in listing <==> n in files
  }

  /** `locate_attestation_for_mount`, from the directory listing and the GUID it could resolve. */
  function LocateManifest(files: map<string, File>, listing: seq<string>, guid: Option<string>): (r: Option<(string, LookupSource)>)
    requires Lists(listing, files)
    ensures r.Some? ==> r.value.0 in files
  {
    var entries := JsonNames(listing);
    if entries == [] then None
    else
      var matching := if guid.Some? then MatchingNames(entries, guid.value) else [];
      var newest := Newest(matching, files);
      if newest.Some? then Some((newest.value, GuidMatch)) else Some((Newest(entries, files).value, FallbackNewest))
  }

  // ---- operations -----------------------------------------------------------------------

  function Flash(s: State, device: string, guid: Option<string>, timestamp: string, info: FlashInfo): State {
    var g := GuidText(guid);
    State(s.files[FileName(device, g, timestamp) := File(Attestation(timestamp, device, g, info, []), s.clock)], s.clock + 1)
  }

  function Append(f: File, iso: IsoRecord, now: nat): File {
    File(f.manifest.(isos := f.manifest.isos + [iso]), now)
  }

  /** The state after an add, and the manifest it went to. */
  function Add(s: State, listing: seq<string>, guid: Option<string>, iso: IsoRecord): (State, Option<(string, LookupSource)>)
    requires Lists(listing, s.files)
  {
    var found := LocateManifest(s.files, listing, guid);
    if found.None? then (s.(clock := s.clock + 1), None)
    else
      var name := found.value.0;
      (State(s.files[name := Append(s.files[name], iso, s.clock)], s.clock + 1), found)
  }

  class AttestationStore {
    var files: map<string, File>
    var clock: nat

    constructor ()
      ensures Snapshot() == State(map[], 0)
    {
      files, clock := map[], 0;
    }

    function Snapshot(): State
      reads this
    {
      State(files, clock)
    }

    method RecordFlash(device: string, guid: Option<string>, timestamp: string, info: FlashInfo) returns (name: string)
      modifies this
      ensures Snapshot() == Flash(old(Snapshot()), device, guid, timestamp, info)
      ensures name == FileName(device, GuidText(guid), timestamp)
    {
      hide FileName;
      var diskGuid := GuidText(guid);
      name := FileName(device, diskGuid, timestamp);
      files := files[name := File(Attestation(timestamp, device, diskGuid, info, []), clock)];
      clock := clock + 1;
    }

    method RecordIsoAdded(listing: seq<string>, guid: Option<string>, iso: IsoRecord) returns (found: Option<(string, LookupSource)>)
      requires Lists(listing, files)
      modifies this
      ensures (Snapshot(), found) == Add(old(Snapshot()), listing, guid, iso)
    {
      hide LocateManifest;
      found := LocateManifest(files, listing, guid);
      if found.Some? {
        var name := found.value.0;
        var manifest := files[name].manifest;
        manifest := manifest.(isos := manifest.isos + [iso]);
        files := files[name := File(manifest, clock)];
      }
      clock := clock + 1;
    }
  }

  /** An add that finds a manifest appends one record to that manifest and to no other. */
  lemma AddTouchesOneManifest(s: State, listing: seq<string>, guid: Option<string>, iso: IsoRecord)
    requires Lists(listing, s.files)
    ensures var (s', found) := Add(s, listing, guid, iso);
            && s'.files.Keys == s.files.Keys
            && (found.None? ==> s'.files == s.files)
            && (found.Some? ==> s'.files[found.value.0].manifest ==
                                s.files[found.value.0].manifest.(isos := s.files[found.value.0].manifest.isos + [iso]))
            && (forall n | n in s.files && (found.None? || n != found.value.0) :: s'.files[n] == s.files[n])
  {
    hide LocateManifest;
  }
}
