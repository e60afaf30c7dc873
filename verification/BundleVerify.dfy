/**
  The gate in front of the bundle cache: shape checks, epoch floors and the
  signature, in the order the code tries them, and exactly what an accepted
  manifest satisfies.
*/
module BundleVerify {
  import opened Wrappers
  import opened Strings
  import opened Alphabets

  type Bytes = seq<bv8>

  datatype Role = Shim | Grub | Kernel | Initrd | GrubCfg

  datatype FileEntry = FileEntry(role: Role, path: string, sha256: string, sizeBytes: nat)

  datatype Manifest = Manifest(schemaVersion: nat, keyEpoch: nat, bundleVersion: string, files: seq<FileEntry>)

  const BUNDLE_MANIFEST_SCHEMA_VERSION := 1

  datatype TrustError =
    | EpochBelowBinaryFloor
    | EpochBelowSeenFloor
    | UnknownEpoch
    | PubkeyParseFailure
    | SignatureInvalid

  datatype VerifyError =
    | Parse
    | SchemaTooNew(saw: nat)
    | EmptyFileList
    | PathTraversal(index: nat)
    | BadSha256(index: nat)
    | ZeroSize(index: nat)
    | Trust(trust: TrustError)

  datatype SignatureVerdict = PubkeyUnusable | BadSignature | GoodSignature

  /** Library code: JSON decoding, minisign and SHA-256, as arbitrary functions. */
  datatype Library = Library(
    decode: Bytes -> Option<Manifest>,
    minisign: (nat, Bytes, Bytes) -> SignatureVerdict,
    sha256Hex: Bytes -> string)

  /** The binary's floor, its epoch history and the epochs whose keys it embeds. */
  datatype Anchor = Anchor(minRequired: nat, epochs: set<nat>, embeddedKeys: set<nat>)

  function VerifyWithEpoch(lib: Library, anchor: Anchor, body: Bytes, sig: Bytes, payloadEpoch: nat, seenEpoch: nat): Option<TrustError> {
    if payloadEpoch < anchor.minRequired then Some(EpochBelowBinaryFloor)
    else if payloadEpoch < seenEpoch then Some(EpochBelowSeenFloor)
    else if payloadEpoch !in anchor.epochs then Some(UnknownEpoch)
    else if payloadEpoch !in anchor.embeddedKeys then Some(UnknownEpoch)
    else
      match lib.minisign(payloadEpoch, body, sig)
      case PubkeyUnusable => Some(PubkeyParseFailure)
      case BadSignature => Some(SignatureInvalid)
      case GoodSignature => None
  }

  predicate IsLowercaseHex64(s: string) {
    |s| == 64 && forall i :: 0 <= i < |s| ==> '0' <= s[i] <= '9' || 'a' <= s[i] <= 'f'
  }

  predicate RelativePath(p: string) {
    !(p == "" || StartsWith(p, "/") || '\0' in p || '\\' in p || Contains(p, ".."))
  }

  function ValidateFileEntry(index: nat, entry: FileEntry): Option<VerifyError> {
    if !RelativePath(entry.path) then Some(PathTraversal(index))
    else if !IsLowercaseHex64(entry.sha256) then Some(BadSha256(index))
    else if entry.sizeBytes == 0 then Some(ZeroSize(index))
    else None
  }

  function FirstBadEntry(files: seq<FileEntry>, index: nat): Option<VerifyError>
    requires index <= |files|
    decreases |files| - index
  {
    if index == |files| then None
    else if ValidateFileEntry(index, files[index]).Some? then ValidateFileEntry(index, files[index])
    else FirstBadEntry(files, index + 1)
  }

  function VerifyBundleManifest(lib: Library, anchor: Anchor, body: Bytes, sig: Bytes, seenEpoch: nat): Result<Manifest, VerifyError> {
    match lib.decode(body)
    case None => Err(Parse)
    case Some(m) =>
      if m.schemaVersion > BUNDLE_MANIFEST_SCHEMA_VERSION then Err(SchemaTooNew(m.schemaVersion))
      else if m.files == [] then Err(EmptyFileList)
      else if FirstBadEntry(m.files, 0).Some? then Err(FirstBadEntry(m.files, 0).value)
      else
        var refused := VerifyWithEpoch(lib, anchor, body, sig, m.keyEpoch, seenEpoch);
        if refused.Some? then Err(Trust(refused.value)) else Ok(m)
  }

  predicate EntryShapeOk(entry: FileEntry) {
    RelativePath(entry.path) && IsLowercaseHex64(entry.sha256) && entry.sizeBytes > 0
  }

  lemma {:induction false} FirstBadEntryIsExact(files: seq<FileEntry>, index: nat)
    requires index <= |files|
    ensures FirstBadEntry(files, index).None? <==> forall i :: index <= i < |files| ==> EntryShapeOk(files[i])
    decreases |files| - index
  {
    hide RelativePath, IsLowercaseHex64;
    if index < |files| { FirstBadEntryIsExact(files, index + 1); }
  }

  lemma AcceptedWhen(lib: Library, anchor: Anchor, body: Bytes, sig: Bytes, seenEpoch: nat, m: Manifest)
    ensures VerifyBundleManifest(lib, anchor, body, sig, seenEpoch) == Ok(m) <==>
            && lib.decode(body) == Some(m)
            && m.schemaVersion <= BUNDLE_MANIFEST_SCHEMA_VERSION
            && m.files != []
            && (forall i :: 0 <= i < |m.files| ==> EntryShapeOk(m.files[i]))
            && m.keyEpoch >= anchor.minRequired && m.keyEpoch >= seenEpoch
            && m.keyEpoch in anchor.epochs && m.keyEpoch in anchor.embeddedKeys
            && lib.minisign(m.keyEpoch, body, sig) == GoodSignature
  {
    hide EntryShapeOk, FirstBadEntry;
    FirstBadEntryIsExact(m.files, 0);
  }

  // ---- the same, as a publisher reads it ------------------------------------------------

  /** An archive-relative path: not absolute, without `..`, backslash or NUL. */
  ghost predicate PathShaped(p: string) {
    && p != "" && p[0] != '/'
    && (forall c | c in p :: c != '\0' && c != '\\')
    && (forall i :: 0 <= i < |p| - 1 ==> p[i] != '.' || p[i + 1] != '.')
  }

  /** Sixty-four small hexadecimal digits. */
  ghost predicate HashShaped(s: string) {
    |s| == 64 && forall c | c in s :: c in HEX
  }

  ghost predicate WellShaped(entry: FileEntry) {
    PathShaped(entry.path) && HashShaped(entry.sha256) && entry.sizeBytes > 0
  }

  lemma HashShapedIs(s: string)
    ensures HashShaped(s) <==> IsLowercaseHex64(s)
  {
    hide HEX;
    forall i | 0 <= i < |s| ensures s[i] in HEX <==> '0' <= s[i] <= '9' || 'a' <= s[i] <= 'f' {
      HexMembers(s[i]);
    }
    if IsLowercaseHex64(s) {
      forall c | c in s ensures c in HEX {
        var i :| 0 <= i < |s| && s[i] == c;
      }
    }
  }

  lemma TwoDots(p: string)
    ensures Contains(p, "..") <==> exists i :: 0 <= i < |p| - 1 && p[i] == '.' && p[i + 1] == '.'
  {
    hide FindFrom;
    if Contains(p, "..") {
      var i := Find(p, "..").value;
      assert p[i] == p[i..i + 2][0] && p[i + 1] == p[i..i + 2][1];
    }
    if i :| 0 <= i < |p| - 1 && p[i] == '.' && p[i + 1] == '.' {
      assert p[i..i + 2] == [p[i], p[i + 1]] == "..";
      assert OccursAt(p, "..", i);
    }
  }

  lemma PathShapedIs(p: string)
    ensures PathShaped(p) <==> RelativePath(p)
  {
    hide Contains;
    TwoDots(p);
    if p != "" { assert p[..1] == [p[0]]; }
    assert StartsWith(p, "/") <==> p != "" && p[0] == '/';
    assert (forall c | c in p :: c != '\0' && c != '\\') <==> '\0' !in p && '\\' !in p;
  }

  lemma WellShapedIs(entry: FileEntry)
    ensures WellShaped(entry) <==> EntryShapeOk(entry)
  {
    hide PathShaped, RelativePath, HashShaped, IsLowercaseHex64;
    PathShapedIs(entry.path);
    HashShapedIs(entry.sha256);
  }

  /** Everything an accepted manifest satisfies, and nothing less is accepted. */
  lemma AcceptedIff(lib: Library, anchor: Anchor, body: Bytes, sig: Bytes, seenEpoch: nat, m: Manifest)
    ensures VerifyBundleManifest(lib, anchor, body, sig, seenEpoch) == Ok(m) <==>
            && lib.decode(body) == Some(m)
            && m.schemaVersion <= 1
            && m.files != []
            && (forall i :: 0 <= i < |m.files| ==> WellShaped(m.files[i]))
            && m.keyEpoch >= anchor.minRequired && m.keyEpoch >= seenEpoch
            && m.keyEpoch in anchor.epochs && m.keyEpoch in anchor.embeddedKeys
            && lib.minisign(m.keyEpoch, body, sig) == GoodSignature
  {
    hide WellShaped, EntryShapeOk, VerifyBundleManifest;
    AcceptedWhen(lib, anchor, body, sig, seenEpoch, m);
    forall i | 0 <= i < |m.files| ensures WellShaped(m.files[i]) <==> EntryShapeOk(m.files[i]) {
      WellShapedIs(m.files[i]);
    }
  }

  /** Which entry is refused, and for what. */
  lemma {:induction false} FirstBadEntryIs(files: seq<FileEntry>, index: nat)
    requires index <= |files| && FirstBadEntry(files, index).Some?
    ensures exists i :: index <= i < |files| && FirstBadEntry(files, index) == ValidateFileEntry(i, files[i]) &&
                        ValidateFileEntry(i, files[i]).Some? && forall j :: index <= j < i ==> WellShaped(files[j])
    decreases |files| - index
  {
    hide ValidateFileEntry, WellShaped;
    if ValidateFileEntry(index, files[index]).None? {
      ShapeIsValid(index, files[index]);
      FirstBadEntryIs(files, index + 1);
    }
  }

  lemma ShapeIsValid(index: nat, entry: FileEntry)
    ensures ValidateFileEntry(index, entry).None? <==> WellShaped(entry)
  {
    hide PathShaped, RelativePath, HashShaped, IsLowercaseHex64;
    PathShapedIs(entry.path);
    HashShapedIs(entry.sha256);
  }

  /** Entry `i` is the first that is not well shaped. */
  ghost predicate FirstIllShaped(files: seq<FileEntry>, i: nat) {
    i < |files| && !WellShaped(files[i]) && forall j :: 0 <= j < i ==> WellShaped(files[j])
  }

  /** Every refusal says what was wrong: the first thing, in the order the checks are made. */
  lemma RefusedBecause(lib: Library, anchor: Anchor, body: Bytes, sig: Bytes, seenEpoch: nat, why: VerifyError)
    requires VerifyBundleManifest(lib, anchor, body, sig, seenEpoch) == Err(why)
    ensures why.Parse? <==> lib.decode(body).None?
    ensures lib.decode(body).Some? ==>
              var m := lib.decode(body).value;
              match why
              case Parse => false
              case SchemaTooNew(v) => m.schemaVersion == v > 1
              case EmptyFileList => m.schemaVersion <= 1 && m.files == []
              case PathTraversal(i) => FirstIllShaped(m.files, i) && !PathShaped(m.files[i].path)
              case BadSha256(i) => FirstIllShaped(m.files, i) && PathShaped(m.files[i].path) && !HashShaped(m.files[i].sha256)
              case ZeroSize(i) =>
                && FirstIllShaped(m.files, i) && PathShaped(m.files[i].path) && HashShaped(m.files[i].sha256)
                && m.files[i].sizeBytes == 0
              case Trust(EpochBelowBinaryFloor) => m.keyEpoch < anchor.minRequired
              case Trust(EpochBelowSeenFloor) => anchor.minRequired <= m.keyEpoch < seenEpoch
              case Trust(UnknownEpoch) =>
                && m.keyEpoch >= anchor.minRequired && m.keyEpoch >= seenEpoch
                && (m.keyEpoch !in anchor.epochs || m.keyEpoch !in anchor.embeddedKeys)
              case Trust(PubkeyParseFailure) => lib.minisign(m.keyEpoch, body, sig) == PubkeyUnusable
              case Trust(SignatureInvalid) => lib.minisign(m.keyEpoch, body, sig) == BadSignature
  {
    hide WellShaped, FirstBadEntry, RelativePath, IsLowercaseHex64, PathShaped, HashShaped;
    if lib.decode(body).Some? {
      var files := lib.decode(body).value.files;
      if FirstBadEntry(files, 0).Some? {
        FirstBadEntryIs(files, 0);
        var i :| 0 <= i < |files| && FirstBadEntry(files, 0) == ValidateFileEntry(i, files[i]) &&
                 ValidateFileEntry(i, files[i]).Some? && forall j :: 0 <= j < i ==> WellShaped(files[j]);
        ShapeIsValid(i, files[i]);
        PathShapedIs(files[i].path);
        HashShapedIs(files[i].sha256);
      }
    }
  }
}
