# aegis-boot, modelled and verified in Dafny

aegis-boot provisions rescue USB sticks: it keeps a catalog of ISO images up to
date, downloads a signed trust chain into a local cache, flashes a stick, adds
ISOs to it, and keeps receipts of what went where. This project models the parts
of it that are algorithms or small protocols and proves what they are for.

| file | models |
|---|---|
| `Wrappers.dfy`, `Strings.dfy`, `Alphabets.dfy` | `Option`, `Result`; `str::find`, `rfind`, `split`, `join`; the character classes against written-out alphabets |
| `CatalogText.dfy`, `CatalogRewrite.dfy`, `CatalogRead.dfy`, `CatalogDrifts.dfy` | the rewriter that puts fresh URLs into the catalog's program text, and a reader of its own for the result |
| `ListingScanner.dfy`, `Resolvers.dfy`, `VersionOrder.dfy` | the HTML listing scanners, the choice of the latest version, and when that is the greatest one |
| `Paths.dfy`, `BundleVerify.dfy`, `BundleCache.dfy`, `BundleCacheLaws.dfy`, `BundleFailures.dfy`, `BundleWitness.dfy` | the signed bundle cache, what each of its errors shows, and concrete hosts on which its guarantees fail |
| `TrustEpoch.dfy` | `fetch-trust-chain` run after run, with its persistent epoch |
| `Attest.dfy`, `AttestHistory.dfy`, `AttestNames.dfy` | the attestation store over any history of flashes and adds |
| `Devices.dfy`, `Mounts.dfy` | disk and partition names; lookups in the mount table |
| `Argv.dfy`, `ArgvMeaning.dfy` | the three chained argument parsers, and what each option means |
| `InitRun.dfy`, `InitLaws.dfy` | the whole `init` run and its consent gate; what it passes to its steps and when it succeeds |
| `PercentEncode.dfy` | the hardware-report URL |
| `Readback.dfy`, `ClosedSet.dfy` | hashing after flashing; the manifest's closed set of ESP files |
| `Doctor.dfy` | the health score and the next action |

Code that updates variables is a method or a class, proved equal to a function of
its inputs or its old state; the lemmas are about those functions. What the
program asks of the outside world (network, disk faults, clock, subprocesses,
JSON, minisign, SHA-256, the operator's typing) is a parameter that may answer
anything; where a law needs more, such as an honest origin or a hash without
collisions, its `requires` says so.

`dafny verify dfyconfig.toml` checks everything.

## Where the code and its documentation differ

The model follows the code.

- The rewriter searches for `slug: "x"` anywhere. A comment of an earlier entry
  that quotes a later slug redirects the rewrite to the earlier entry, and a quote
  in the lines above the entries redirects or refuses it.
  `RewriteCommutesWithPrintIff` is the exact condition; `CommentMisdirectsRewrite`
  and `PreambleQuoteRefusesRewrite` are catalogs that show each.
- `write_catalog_drifts` rewrites `crates/aegis-catalog/src/lib.rs`, which today
  only re-exports another crate and holds no entry.
- `fetch_bundle` is documented as storing the seen epoch; its caller does. A seen
  epoch that cannot be loaded counts as zero, so a run may accept an older manifest
  than the persisted epoch (`UnreadableFileAcceptsRollback`); the floor is the
  persisted epoch exactly when the file could be read or holds none
  (`FloorIsPersistedIff`).
- A rerun of the cache is silent if and only if the declared sizes are true,
  entries spelling one path agree, and no entry's path leads to the file of the
  manifest or its signature, which every run rewrites (`RerunIsSilentIff`;
  `FalseSizeIsNoisy` and `ReservedNameIsNoisy` are noisy runs). Only another
  spelling, such as `./bundle-manifest.json`, gets that far: a bundle whose only
  entry has the manifest's plain name is refused at once (`OwnNameIsRefused`).
- Two entries may name one file by different spellings (`k`, `./k`). The returned
  bundle is verified exactly when such entries agree on the hash
  (`ReturnedBundleIsVerified`; `DisagreeingSpellingsReturn` is a run where they do
  not). A path of dots and slashes only names the bundle directory itself
  (`EntryIsBelowIff`).
- The mount lookup is documented as letting `/` match everything; its test makes
  `/` match only `/` (`RootMatchesOnlyRoot`).
- The resolvers promise the highest version. The Mint resolver ranks `22.3.1` as
  `22.0` (`MintPointReleaseLoses`); `MintPicksGreatestIff` says exactly which
  listings it picks a greatest version from. The others compare versions as text
  (`NineBeatsTen`); `LatestIsNumericMaximumIff` is the exact condition.
- A trailing `--profile` without a name is refused by `init` but dropped by
  `quickstart` (`ForwardingKeepsMeaning`). `quickstart` does not enforce the
  device its help calls required.
- `doctor` documents its next action as coming from a warning too; only a failure
  sets it.

## Model

| member | source | states |
|---|---|---|
| `CatalogText.RewriteIsLineRewrite` | crates/aegis-cli/src/catalog.rs:179-216 | on every text, the find/rfind/slice/join code equals a rewrite said in lines: which line selects the block, where the block begins and ends, which lines change, and the same error otherwise |
| `CatalogText.RustLinesOfTerminated` | crates/aegis-cli/src/catalog.rs:191-192 | the model of `str::lines` gives lines back whether they end in a newline or in a carriage return and a newline |
| `CatalogRewrite.RewriteTargetsFirstMention` | crates/aegis-cli/src/catalog.rs:179-216 | exact effect on any catalog in the source layout, by where the slug is first mentioned: above the entries, in an entry (that entry's URLs below the nearest opening, no other byte), or nowhere (refused) |
| `CatalogRewrite.RewriteFromPreamble` | crates/aegis-cli/src/catalog.rs:180-192 | a mention above the entries: refused without an opening above it; else the block ends above the entries or takes in the whole first entry, whichever entry was asked for |
| `CatalogRewrite.WholeEntryRewritten` | crates/aegis-cli/src/catalog.rs:184-189 | a mention at or above the slug line, or fields that quote no opening, make that effect the replacement of all three URLs |
| `CatalogRewrite.RewriteCommutesWithPrintIff` | crates/aegis-cli/src/catalog.rs:179-216 | rewriting commutes with printing, for all URLs, if and only if neither an earlier entry nor a line above the entries mentions the slug; the one harmless mention above the first entry is described exactly |
| `CatalogRead.RewriteReadsBack` | crates/aegis-cli/src/catalog.rs:191-211 | for an entry that reaches its own slug, a reader that spells the keys itself finds each new URL under its own key in the returned text, and every other line as it was |
| `CatalogRewrite.CommentMisdirectsRewrite` | crates/aegis-cli/src/catalog.rs:180-183 | a laid-out catalog with a comment that sends the rewrite to the wrong entry |
| `CatalogRewrite.PreambleQuoteRefusesRewrite` | crates/aegis-cli/src/catalog.rs:184-186 | a laid-out catalog whose only entry cannot be rewritten because a line above it quotes its slug |
| `CatalogDrifts.WriteCatalogDrifts` | crates/aegis-cli/src/catalog.rs:150-175 | the first candidate that is a file becomes the fold of all drifts; it stays as it was when it cannot be read or a drift is refused; "no changes" exactly when the text is equal |
| `CatalogDrifts.DriftsCommuteWithPrint` | crates/aegis-cli/src/catalog.rs:166-169 | folding a drift list over the text is updating the abstract catalog and printing it once; refused exactly when a slug is unknown |
| `CatalogDrifts.DriftOrderIsIrrelevant` | crates/aegis-cli/src/catalog.rs:166-169 | drifts with distinct slugs give the same text or refusal in every order |
| `CatalogDrifts.DriftsAreIdempotent` | crates/aegis-cli/src/catalog.rs:166-172 | refreshing a refreshed catalog changes no byte |
| `ListingScanner.SimpleRegexMatchAll` | crates/aegis-catalog-data/src/lib.rs:556-573 | for every text, nonempty prefix and suffix: terminates with the scan's versions in order |
| `ListingScanner.ScanFindsOccurrences` | crates/aegis-catalog-data/src/lib.rs:556-573 | whatever prefix and suffix, every returned version is an occurrence |
| `ListingScanner.ScanFindsAll` | crates/aegis-catalog-data/src/lib.rs:556-573 | for a searchable prefix and suffix, the scan returns exactly all occurrences, in order, whatever stands between |
| `ListingScanner.OverlapHidesMatch` | crates/aegis-catalog-data/src/lib.rs:569-571 | a prefix that overlaps itself misses an occurrence, so the condition is needed |
| `ListingScanner.VersionsAreTheOccurrences` | crates/aegis-catalog-data/src/lib.rs:556-573 | the list it is compared with holds a version if and only if prefix, version and suffix occur in the text |
| `Alphabets.AllVersionIs` | crates/aegis-catalog-data/src/lib.rs:564 | a version holds the ten digits and the dot, and nothing else |
| `ListingScanner.NextHref` | crates/aegis-catalog-data/src/lib.rs:525-530 | one jump of the scanning loop is what a character-by-character tokenizer reads |
| `ListingScanner.LooksVersionedIsExact` | crates/aegis-catalog-data/src/lib.rs:531-537 | the chain of prefix and suffix tests accepts exactly `22/` and `22.<digits and dots>/` |
| `ListingScanner.ParseVersionedSubdirs` | crates/aegis-catalog-data/src/lib.rs:522-544 | exactly the version directories among the tokenizer's hrefs, in order |
| `ListingScanner.ParseHighestNumericSubdir` | crates/aegis-catalog-data/src/lib.rs:578-596 | the maximum of all hrefs that are `u32` numbers, none if and only if there are none |
| `ListingScanner.ParseU32Iff` | crates/aegis-catalog-data/src/lib.rs:585-587 | what parses: digits after at most one plus sign, up to 2^32 - 1, and with which value |
| `Resolvers.DebianSearchable` | crates/aegis-catalog-data/src/lib.rs:389 | Debian's search texts meet the scanner's condition |
| `Resolvers.UbuntuSearchable` | crates/aegis-catalog-data/src/lib.rs:434-435 | so do Ubuntu's, for both variants in use |
| `Resolvers.KaliSearchable` | crates/aegis-catalog-data/src/lib.rs:463-464 | so do Kali's |
| `Resolvers.ResolveDebianNetinst` | crates/aegis-catalog-data/src/lib.rs:388-404 | NoMatch exactly when no `debian-`v`-amd64-netinst.iso` occurs; else the URLs of the lexicographically greatest such v |
| `Resolvers.ResolveUbuntu2404` | crates/aegis-catalog-data/src/lib.rs:429-448 | for every variant, the URLs of the scan's greatest version or NoMatch; for both variants in use that is the greatest of all occurrences |
| `Resolvers.ResolveKali` | crates/aegis-catalog-data/src/lib.rs:462-476 | the same for Kali |
| `Resolvers.DebianFilesKeepOrder` | crates/aegis-catalog-data/src/lib.rs:390-395 | whole Debian file names compare as the versions inside them do |
| `Resolvers.LatestFileNamesLatestVersion` | crates/aegis-catalog-data/src/lib.rs:390-398 | so the last file name carries the last version |
| `VersionOrder.DisagreementIff` | crates/aegis-catalog-data/src/lib.rs:437-441 | a version sorts above another one that is numerically above it if and only if, at the first component that differs, it is the shorter one and yet sorts higher |
| `VersionOrder.LatestIsNumericMaximumIff` | crates/aegis-catalog-data/src/lib.rs:437-441 | the picked version is a numerically greatest one if and only if nothing listed outsorts a greatest one in that way |
| `VersionOrder.UniformLatestIsGreatest` | crates/aegis-catalog-data/src/lib.rs:437-441 | so with equal widths the pick is a greatest version, whatever the component counts |
| `VersionOrder.NineBeatsTen` | crates/aegis-catalog-data/src/lib.rs:437-441 | the witness: 9 is picked over 10 |
| `Resolvers.MaxByKey` | crates/aegis-catalog-data/src/lib.rs:496-508 | the last of the elements with the greatest (major, minor) key |
| `Resolvers.ResolveLinuxmint22` | crates/aegis-catalog-data/src/lib.rs:490-520 | all three URLs of the directory so picked; NoMatch exactly when there is none |
| `VersionOrder.ListedDirsAreMintDirs` | crates/aegis-catalog-data/src/lib.rs:522-544 | every listing the resolver sees consists of `22` and `22.` with digits and dots |
| `VersionOrder.MintKeyIs` | crates/aegis-catalog-data/src/lib.rs:496-508 | the key of every such directory: its minor when it is `22` or `22.k` with one number that fits `u32`, and zero otherwise |
| `VersionOrder.MintPicksGreatestMinor` | crates/aegis-catalog-data/src/lib.rs:496-508 | over every listing of `22` and `22.k` the pick's k is the greatest, as a number |
| `VersionOrder.MintPicksGreatestIff` | crates/aegis-catalog-data/src/lib.rs:496-508 | for every listing: a greatest version is picked in every order if and only if some greatest directory is `22` or `22.k` with one number that fits, or all directories are equal versions |
| `VersionOrder.MintPointReleaseLoses` | crates/aegis-catalog-data/src/lib.rs:503-507 | 22.1 is picked over 22.3.1, which is above it |
| `BundleVerify.AcceptedIff` | crates/aegis-cli/src/bundle_verify.rs:155-226 | a manifest is accepted if and only if schema, spelled-out path, hash and size shapes of every entry, both epoch floors, the epoch's key and the signature all hold |
| `BundleVerify.RefusedBecause` | crates/aegis-cli/src/bundle_verify.rs:155-226 | every refusal names the first thing wrong, in the order the checks are made, and the first ill-shaped entry |
| `BundleCache.BundleHost.FetchBundle` | crates/aegis-cli/src/bundle_cache.rs:236-301 | the effects performed one by one produce exactly the specified run: result, files, GET log and write log, for all network answers and I/O faults |
| `BundleCache.BundleHost.FetchOne` | crates/aegis-cli/src/bundle_cache.rs:266-293 | one entry: kept on matching size and hash, else downloaded, checked and written |
| `BundleCache.BundleHost.FetchAll` | crates/aegis-cli/src/bundle_cache.rs:262-294 | the loop with its role index equals its specification from any file system |
| `BundleFailures.FailureIsExplained` | crates/aegis-cli/src/bundle_cache.rs:236-301 | for every kind of error of every run, what the network, the manifest or the disk did to bring it about |
| `BundleFailures.ManifestIsPersisted` | crates/aegis-cli/src/bundle_cache.rs:258-260 | a returned bundle has its manifest and signature beside it under their own names, unless an entry took their place |
| `BundleCacheLaws.OneSlashJoins` | crates/aegis-cli/src/bundle_cache.rs:313-319 | exactly one slash between origin and name, whether or not the origin ends in one |
| `Paths.OneSlashJoinsPaths` | crates/aegis-cli/src/bundle_cache.rs:199 | the cache directory is the base, one slash and the version |
| `Paths.LocateSpelled` | crates/aegis-cli/src/bundle_cache.rs:199-266 | where a path leads: proper segments are the location, dots and slashes add nothing, `..` undoes a segment |
| `BundleCacheLaws.UnsafeVersionIff` | crates/aegis-cli/src/bundle_cache.rs:193-216 | after an accepted manifest, its version is refused if and only if it is no single directory name of its own, or holds a backslash, NUL, CR or LF, or starts with a dash; then nothing is written |
| `BundleCacheLaws.RefusedManifestLeavesNoTrace` | crates/aegis-cli/src/bundle_cache.rs:243-249 | a refused manifest costs exactly two GETs, and the world is otherwise unchanged |
| `BundleCacheLaws.ReturnedBundleWasAccepted` | crates/aegis-cli/src/bundle_cache.rs:249-250 | a returned bundle's manifest passed verification and both floors |
| `BundleCacheLaws.EntryLocation` | crates/aegis-cli/src/bundle_cache.rs:193-216 | the segment check and the path check together place every entry at `cache_base/bundle_version` and the path's own segments after normalisation |
| `BundleCacheLaws.EntryIsBelowIff` | crates/aegis-cli/src/bundle_cache.rs:193-216 | strictly below that directory if and only if the path has a segment that is neither empty nor a dot |
| `BundleCacheLaws.WritesStayInBundleDir` | crates/aegis-cli/src/bundle_cache.rs:236-301 | on every run, failed or not, every write is at or beneath that directory and no file outside it changes; with an unsafe version nothing is written |
| `BundleCacheLaws.ReturnedBundleIsVerified` | crates/aegis-cli/src/bundle_cache.rs:236-301 | from any cache contents: the index has exactly the manifest's roles, and every file holds its entry's hash at return if and only if entries with one normalised path agree |
| `BundleCacheLaws.HonestRunSucceeds` | crates/aegis-cli/src/bundle_cache.rs:236-301 | against an honest origin every run with any other version succeeds, whatever earlier runs left behind |
| `BundleCacheLaws.CacheRefinesPlainDownload` | crates/aegis-cli/src/bundle_cache.rs:266-291 | and leaves in each file the bytes a plain download gives |
| `BundleCacheLaws.RerunIsSilentIff` | crates/aegis-cli/src/bundle_cache.rs:252-291 | a rerun issues only the manifest and signature GETs if and only if sizes are true, spellings of one path agree, and no entry leads to the manifest's or signature's file |
| `BundleCacheLaws.SilentRerunChangesNothing` | crates/aegis-cli/src/bundle_cache.rs:252-301 | such a rerun returns the same bundle, leaves all files as they were, and makes exactly three I/O calls plus three an entry |
| `BundleCacheLaws.OwnNameIsRefused` | crates/aegis-cli/src/bundle_cache.rs:258-290 | a bundle whose only entry has the manifest's plain name fails with a hash mismatch on the first run |
| `BundleWitness.DisagreeingSpellingsReturn` | crates/aegis-cli/src/bundle_cache.rs:262-294 | a run that returns a bundle with a file lacking its entry's hash |
| `BundleWitness.FalseSizeIsNoisy` | crates/aegis-cli/src/bundle_cache.rs:269-278 | a rerun that downloads again because the listed size is false |
| `BundleWitness.ReservedNameIsNoisy` | crates/aegis-cli/src/bundle_cache.rs:258-278 | a rerun that downloads again because the entry respells the manifest's file |
| `TrustEpoch.FetchTrustChain.Run` | crates/aegis-cli/src/bundle_fetch.rs:226-263 | load, create the cache base, fetch, store: the new host, epoch file and result of one run |
| `TrustEpoch.RunAdvances` | crates/aegis-trust/src/seen_epoch.rs:136-167 | no run lowers the persisted epoch, whatever fails |
| `TrustEpoch.PersistsTheGreater` | crates/aegis-trust/src/seen_epoch.rs:136-167 | an accepted run that can store persists the greater of the persisted and the accepted epoch; otherwise the file stays |
| `TrustEpoch.SameManifestAcceptedAgain` | crates/aegis-cli/src/bundle_fetch.rs:226-263 | the floor so stored is cleared by the manifest that set it |
| `TrustEpoch.NextRunAccepted` | crates/aegis-cli/src/bundle_fetch.rs:226-263 | on a faultless host with an honest origin the run after an accepted one is accepted |
| `TrustEpoch.AcceptedClearsFloors` | crates/aegis-cli/src/bundle_fetch.rs:226-250 | an accepted manifest's epoch is at least the binary's floor and the loaded one |
| `TrustEpoch.SeenEpochNeverRegresses` | crates/aegis-trust/src/seen_epoch.rs:114-167 | the same over every sequence of runs, from any run to any later one |
| `TrustEpoch.AcceptedEpochsDoNotDecrease` | crates/aegis-cli/src/bundle_fetch.rs:226-263 | between a run that stored its epoch and a later one that could load it, accepted epochs do not decrease, though runs between fail |
| `TrustEpoch.FailedLoadDropsFloor` | crates/aegis-cli/src/bundle_fetch.rs:226 | an unreadable epoch file leaves only the binary's floor |
| `TrustEpoch.FloorIsPersistedIff` | crates/aegis-cli/src/bundle_fetch.rs:226 | a run's floor is the persisted epoch if and only if the file could be read or holds none |
| `BundleWitness.UnreadableFileAcceptsRollback` | crates/aegis-cli/src/bundle_fetch.rs:226-250 | with epoch 5 persisted and the file unreadable, a manifest of epoch 1 is accepted |
| `Attest.AttestationStore.RecordFlash` | crates/aegis-cli/src/attest.rs:209-263 | the new directory: one fresh manifest under the name built from GUID and time |
| `AttestNames.TimestampInName` | crates/aegis-cli/src/attest.rs:244-256 | the file name: lower-case GUID, or `unknown-` and the device, then the time with dashes for colons, then `.json` |
| `AttestNames.SanitizeSpelled` | crates/aegis-cli/src/attest.rs:712-722 | letters, digits, dashes and underscores of the device stay, all else becomes an underscore |
| `Attest.AttestationStore.RecordIsoAdded` | crates/aegis-cli/src/attest.rs:96-136 | the new directory: the located manifest with one more record |
| `Attest.AddTouchesOneManifest` | crates/aegis-cli/src/attest.rs:113-135 | an add appends one record to one manifest and leaves all others as they were |
| `AttestHistory.MatchIsSameStick` | crates/aegis-cli/src/attest.rs:175-184 | with fixed-length GUIDs the file-name prefix test is equality of sticks |
| `AttestHistory.SupersededStaysOld` | crates/aegis-cli/src/attest.rs:185-188 | after a stick's next flash its older manifest is never written again |
| `AttestHistory.AddFindsTouched` | crates/aegis-cli/src/attest.rs:154-201 | which manifest an add finds, and whether as a match or as the fallback, read off the history alone, for every listing order |
| `AttestHistory.HistoryDecidesStore` | crates/aegis-cli/src/attest.rs:96-263 | after every interleaving on any number of sticks the directory is exactly what the history says, contents and ages |
| `AttestHistory.NewestFileIsLatestFlash` | crates/aegis-cli/src/attest.rs:169-190 | the newest file of a stick is that stick's latest flash |
| `AttestHistory.ManifestHoldsItsSticksIsos` | crates/aegis-cli/src/attest.rs:96-136 | when adds resolve, each manifest holds exactly the ISOs added to its stick before its next flash, in order |
| `Devices.ParentDisk` | crates/aegis-cli/src/mounts.rs:94-134 | the backward digit loop equals the specification on every path |
| `Devices.ParentOfIff` | crates/aegis-cli/src/mounts.rs:94-134 | for every path and disk: the disk is the parent if and only if the path reads as a numbered disk, `p` and digits, or as a lettered disk and digits |
| `Devices.ParentUndoesPartitionIff` | crates/aegis-cli/src/mounts.rs:94-134 | for every name and number, the parent of the partition is the name if and only if the name is recoverable |
| `Devices.PartitionRoundTrip` | crates/aegis-cli/src/flash.rs:1373-1384 | every whole disk of the sd, vd, hd, xvd, nvme, mmcblk and loop families round-trips, has no parent itself, and has one name for partition 2 |
| `Devices.PartitionPathSpelled` | crates/aegis-cli/src/flash.rs:1373-1384 | the number stands in decimal without leading zeros, after a `p` for the three numbered families |
| `Devices.PartitionPathIsInjective` | crates/aegis-cli/src/flash.rs:1373-1384 | different disks or numbers never share a partition path |
| `Devices.Partition2AgreesIff` | crates/aegis-cli/src/flash.rs:1736-1746 | the two namings of partition 2 agree if and only if prefix and last character agree |
| `Devices.BareLoopIsLost` | crates/aegis-cli/src/mounts.rs:108-133 | outside the families: the bare name `loop` is not recovered |
| `Mounts.DeviceForMount` | crates/aegis-cli/src/mounts.rs:25-50 | the device of the first /dev line with the longest matching mount point, none if and only if none matches |
| `Mounts.FilesystemType` | crates/aegis-cli/src/mounts.rs:58-76 | the same over all lines with a type field |
| `Mounts.MatchIsComponentPrefix` | crates/aegis-cli/src/mounts.rs:43-44 | a mount point matches if and only if its path components begin the target's |
| `Mounts.RootMatchesOnlyRoot` | crates/aegis-cli/src/mounts.rs:43-44 | `/` matches only `/`, and what starts with two slashes |
| `Mounts.EqualLengthMatchesAreEqual` | crates/aegis-cli/src/mounts.rs:43-46 | matches of equal length are equal |
| `Mounts.MountPointIgnoresOrder` | crates/aegis-cli/src/mounts.rs:28-48 | the chosen mount point does not depend on line order |
| `Mounts.LookupsAgreeIff` | crates/aegis-cli/src/mounts.rs:25-76 | on every table and target, found or not: when the two lookups choose one mount point |
| `Argv.BuildForwardedInitArgs` | crates/aegis-cli/src/quickstart.rs:49-78 | the `skip_next` loop equals its specification |
| `Argv.ParseFlags` | crates/aegis-cli/src/init.rs:322-380 | init's index loop equals the parser function, errors included |
| `ArgvMeaning.InitFlagsMean` | crates/aegis-cli/src/init.rs:322-380 | on every accepted list: each flag holds if and only if its word stands there as an option, the device is the only plain word, the profile the one named last |
| `ArgvMeaning.InitAcceptsIff` | crates/aegis-cli/src/init.rs:322-380 | accepted if and only if every word is known and in place and at most one is plain |
| `ArgvMeaning.RefusalMeans` | crates/aegis-cli/src/init.rs:322-380 | every refusal points at a word the list holds |
| `ArgvMeaning.TrimStripsCopies` | crates/aegis-cli/src/init.rs:322-380 | `--profile=` is stripped in all its leading copies and no more |
| `Argv.ForwardingKeepsMeaning` | crates/aegis-cli/src/quickstart.rs:49-78 | for every argument list, init reads the forwarded list as the original with profile, yes and direct-install preset, and refuses it for the same reason, except a nameless trailing `--profile` |
| `Argv.ForwardingIsIdempotent` | crates/aegis-cli/src/quickstart.rs:49-78 | forwarding twice is forwarding once |
| `ArgvMeaning.ForwardedSays` | crates/aegis-cli/src/quickstart.rs:49-78 | init hears the three words quickstart sets, and of the operator's all but the replaced ones |
| `Argv.ParseFlashArgs` | crates/aegis-cli/src/flash.rs:54-126 | flash's index loop equals the parser function |
| `ArgvMeaning.FlashFlagsMean` | crates/aegis-cli/src/flash.rs:54-126 | on every accepted list: each flag, the last output directory, the last image, the only device, and help, by the words that stand there |
| `Argv.BuildFlashArgs` | crates/aegis-cli/src/init.rs:212-224 | the arguments init passes to flash |
| `Argv.ParsedDeviceIsAWord` | crates/aegis-cli/src/init.rs:360-368 | a device init accepts is never read as an option by flash |
| `Argv.FlashReadsWhatInitMeant` | crates/aegis-cli/src/flash.rs:54-126 | flash reads exactly init's device, yes and direct-install |
| `Argv.QuickstartReachesFlash` | crates/aegis-cli/src/quickstart.rs:49-78 | the three parsers composed: the operator's device, always with yes and direct-install |
| `InitRun.MenuSelectionIff` | crates/aegis-cli/src/init_wizard.rs:213-223 | the index is in bounds and one less than the number typed, and nothing else is accepted |
| `InitRun.TypedNumberSelects` | crates/aegis-cli/src/init_wizard.rs:213-223 | typing any listed number, as decimal digits, selects that drive |
| `InitLaws.ParseUsizeIff` | crates/aegis-cli/src/init_wizard.rs:213-223 | what the menu reads as a number, and which |
| `InitRun.InitSession.RunInit` | crates/aegis-cli/src/init.rs:92-185 | the run's gates and steps, effect by effect, give exactly the specified trace and result |
| `InitLaws.RunSucceedsIff` | crates/aegis-cli/src/init.rs:92-185 | a run succeeds if and only if it shows help, or the profile is known and in the catalog, a device is settled on, doctor lets it, and flash, each fetch and each add succeed on exactly these arguments |
| `InitLaws.StepsOfRun` | crates/aegis-cli/src/init.rs:138-181 | a run that acts: doctor first unless switched off, then at most one flash, with exactly these words |
| `InitLaws.FetchArgumentsFollowProfile` | crates/aegis-cli/src/init.rs:236-258 | the fetches are the profile's slugs in order, with `--no-gpg` if and only if the operator typed it |
| `InitLaws.KnownProfiles` | crates/aegis-cli/src/init.rs:49-89 | the three profiles and their slugs |
| `InitRun.InitSession.RunInitWizard` | crates/aegis-cli/src/init.rs:392-496 | the wizard's prompts and early returns equal its specification |
| `InitLaws.WizardIff` | crates/aegis-cli/src/init.rs:392-496 | the device answered is that of a drive picked, free or forced, confirmed by its serial, and acknowledged, and nothing else stops it |
| `InitRun.InitSession.ProvisionDevice` | crates/aegis-cli/src/init.rs:160-181 | doctor, flash, then each slug |
| `InitRun.ConfirmsIff` | crates/aegis-cli/src/init_wizard.rs:142-173 | the gate opens if and only if the typed line is the last four alphanumerics of that drive's serial, up to case and punctuation |
| `InitLaws.NormalizeOne` | crates/aegis-cli/src/init_wizard.rs:142-173 | which typed characters count towards a serial, and as what |
| `InitLaws.TrimIs` | crates/aegis-cli/src/init_wizard.rs:213-223 | white space around a typed line goes, and what is left starts and ends with something else |
| `InitRun.UnattendedFlashHasConsent` | crates/aegis-cli/src/init.rs:138-178 | whenever flash parses a yes, the operator passed it or typed the serial tail of the listed drive that is flashed |
| `InitRun.NothingBeforeFlash` | crates/aegis-cli/src/init.rs:170-181 | a successful flash precedes every fetch and add |
| `InitRun.AddsFollowProfile` | crates/aegis-cli/src/init.rs:178-181 | the added ISOs are an in-order prefix of the profile, all of it if and only if the run succeeds |
| `PercentEncode.PercentEncode` | crates/aegis-cli/src/compat.rs:323-335 | the pushing loop equals the encoder function on every byte string |
| `PercentEncode.DecodeUndoesEncode` | crates/aegis-cli/src/compat.rs:323-335 | a decoder after sections 2.1 and 2.3 of RFC 3986 undoes it; only unreserved characters and whole triplets appear |
| `PercentEncode.EncodeByteSpelled` | crates/aegis-cli/src/compat.rs:323-335 | letters, digits and four marks stand for themselves, every other byte is a triplet in capitals |
| `PercentEncode.DecodeIffWellEncoded` | crates/aegis-cli/src/compat.rs:323-335 | that decoder accepts exactly the well-encoded strings |
| `PercentEncode.BuildHardwareReportUrl` | crates/aegis-cli/src/compat.rs:345-369 | the URL is the base and the given fields joined by `&` |
| `PercentEncode.UrlSpelled` | crates/aegis-cli/src/compat.rs:345-369 | the URL as typed: the form's address, then the given fields in order, each under its key |
| `PercentEncode.ReportRoundTrip` | crates/aegis-cli/src/compat.rs:345-369 | splitting and decoding the URL gives back which fields were given, and their values |
| `Readback.Sha256OfFirstBytes` | crates/aegis-cli/src/readback.rs:60-83 | for every chunking: terminates, consumes min(n, available), hashes exactly that prefix |
| `Readback.Sha256File` | crates/aegis-cli/src/direct_install_manifest.rs:266-290 | for every chunking: the hash of all bytes |
| `Readback.PrefixHashIsFileHash` | crates/aegis-cli/src/readback.rs:60-83 | the two agree once n covers the file, however each read is chunked |
| `Readback.VerifyReadback` | crates/aegis-cli/src/readback.rs:127-152 | accepts if and only if format, length and hash are right, and names the right error otherwise |
| `Readback.ValidSha256HexSpelled` | crates/aegis-cli/src/readback.rs:159-161 | the format accepted: 64 characters, each a digit or one of the small letters a to f |
| `Readback.PrecomputeImagePrefixHash` | crates/aegis-cli/src/flash.rs:2316-2329 | the image's window hash, or its short length |
| `Readback.ReadbackVerifyDevice` | crates/aegis-cli/src/flash.rs:2335-2375 | the verdict for whatever `dd` hands over |
| `Readback.FlashReadbackCheck` | crates/aegis-cli/src/flash.rs:2311-2375 | without collisions, image then device accepts only when the two windows are byte for byte equal, and then always unless a read fails or `dd` falls short |
| `ClosedSet.EspFilesCoverCanonicalSet` | crates/aegis-cli/src/direct_install_manifest.rs:533-549 | true if and only if the case-folded paths are a permutation of the six canonical ones |
| `ClosedSet.CanonicalSetSpelled` | crates/aegis-cli/src/direct_install.rs:304-309 | the closed set is these six paths, in whatever case |
| `Alphabets.LowerIsExact` | crates/aegis-cli/src/direct_install_manifest.rs:533-549 | case folding maps the 26 capitals to their small letters and nothing else |
| `ClosedSet.Pigeonhole` | crates/aegis-cli/src/direct_install_manifest.rs:533-549 | as many items as distinct required ones and none missing: exactly those, each once |
| `ClosedSet.CanonicalPathsAreDistinct` | crates/aegis-cli/src/direct_install.rs:304-309 | the six destinations differ even when case is folded |
| `ClosedSet.CanonicalSetHasNoExtras` | crates/aegis-cli/src/direct_install_manifest.rs:533-549 | no extra and no repeated path, which the code never checks |
| `ClosedSet.ComputeEspFileHashes` | crates/aegis-cli/src/direct_install_manifest.rs:315-339 | the built list passes the check, each row has the hash and the reported size of its own source, and any unreadable source fails |
| `Doctor.Report.Add` | crates/aegis-cli/src/doctor.rs:87-94 | one more call: rows and next action stay what the calls so far decide |
| `Doctor.Report.AddWithNext` | crates/aegis-cli/src/doctor.rs:96-113 | the same for a call that carries a next action |
| `Doctor.Report.Score` | crates/aegis-cli/src/doctor.rs:127-153 | the loop gives the specified score, and it fits the `u8` |
| `Doctor.Report.HasAnyFail` | crates/aegis-cli/src/doctor.rs:172-174 | true if and only if some row failed |
| `Doctor.ScoreIsNearest` | crates/aegis-cli/src/doctor.rs:127-153 | the integer nearest to 100 times weight over total |
| `Doctor.ScoreIsMeanOfVerdicts` | crates/aegis-cli/src/doctor.rs:127-153 | the nearest integer to the mean of 100 for a pass, 70 for a warning and 0 for a failure; 100 when there is none of them |
| `Doctor.ScoreIgnoresOrder` | crates/aegis-cli/src/doctor.rs:127-153 | any permutation of the rows has the same score |
| `Doctor.AddedRowMovesScore` | crates/aegis-cli/src/doctor.rs:127-153 | a row added anywhere: skip changes nothing, pass never lowers, fail never raises |
| `Doctor.ImprovedRowNeverLowers` | crates/aegis-cli/src/doctor.rs:127-153 | improving one row never lowers the score |
| `Doctor.ShortReportsFit` | crates/aegis-cli/src/doctor.rs:127-153 | up to four million rows stay within `u32` |
| `Doctor.FirstFailDecidesNext` | crates/aegis-cli/src/doctor.rs:87-113 | over any sequence of calls the next action is that of the first failure carrying one |
| `Doctor.NextActionOfReport` | crates/aegis-cli/src/doctor.rs:87-113 | read off any report after any run of calls: none if and only if no failure carried one, else the first such failure's |

## Left out

- RewriteTargetsFirstMention: slugs without quotes or newlines, URLs without quotes or newlines, and entry lines without carriage returns are the layout the source keeps; a slug mentioned only below the entries is covered by `RewriteIsLineRewrite` alone.
- DriftsCommuteWithPrint: each drifted slug must reach its own entry, or be mentioned nowhere, which is the exact condition of `RewriteCommutesWithPrintIff`.
- SimpleRegexMatchAll: an empty prefix would never advance; no caller passes one.
- ResolveUbuntu2404: that the scan misses nothing is stated for variants without the letter `u`, as both in use are.
- LatestIsNumericMaximumIff: components at one position have equal widths or no leading zeros, so that one number has one spelling; an empty component counts as zero.
- FetchBundle: directories are not files here, so creating one is only a call that may fail; symlinks, Windows paths, and a file where a directory is needed are not modelled.
- AcceptedIff: manifest fields no check reads are omitted, and the embedded keys are a set although the source embeds one.
- FetchTrustChain.Run: origin and cache directory arguments are taken as parsed and the anchor as loaded; two processes storing at once are not modelled.
- HistoryDecidesStore: GUIDs have 36 characters, file names are distinct and modification times increase.
- RecordIsoAdded: unreadable or unparsable manifests and write errors are not modelled.
- DeviceForMount: starts from the canonical target string and lines already split into fields.
- RunInit: texts of prompts, parsing of `lsblk` and `findmnt` output, and what doctor, flash, fetch and add do inside are answers of the host. Characters beyond ASCII are neither folded nor trimmed.
- FlashReadbackCheck: what `dd` hands over is taken to be a beginning of the device's bytes.
- Report.Score: sums beyond `u32`, which take more than four million rows, are outside.
- Cryptography and encoding: SHA-256, minisign and JSON are arbitrary functions; the signing and parsing of direct-install manifests and the sgdisk parsers are not modelled.
- The curl downloader, the HTTPS check, argument parsing of `fetch-trust-chain`, `find_entry`, the refresh report, and the catalog tables.
- The doctor checks themselves, score bands, trust coverage, printing, JSON output, size and time rendering.
- The partitioning, formatting and staging of `flash`, eject, update, and the host-side copy of direct-install manifests.
