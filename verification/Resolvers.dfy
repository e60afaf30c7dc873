/**
  The resolvers that pick the "highest" version of a listing: which version they
  pick and when they refuse.
*/
module Resolvers {
  import opened Wrappers
  import opened Strings
  import opened ListingScanner
  import CatalogText

  datatype ResolverError = NoMatch(url: string)

  // ---- lexicographic order, sort and dedup --------------------------------------

  predicate Less(a: string, b: string) {
    if b == "" then false
    else if a == "" then true
    else a[0] < b[0] || (a[0] == b[0] && Less(a[1..], b[1..]))
  }

  predicate AtMost(a: string, b: string) {
    a == b || Less(a, b)
  }

  lemma {:induction false} LessIsTotal(a: string, b: string)
    ensures Less(a, b) || a == b || Less(b, a)
    ensures !(Less(a, b) && Less(b, a)) && !Less(a, a)
  {
    if a != "" && b != "" {
      LessIsTotal(a[1..], b[1..]);
      LessIsTotal(a[1..], a[1..]);
      if a[0] == b[0] && a[1..] == b[1..] { assert a == [a[0]] + a[1..] == b; }
    } else if a != "" {
      LessIsTotal(a[1..], a[1..]);
    }
  }

  lemma {:induction false} LessIsTransitive(a: string, b: string, c: string)
    requires Less(a, b) && Less(b, c)
    ensures Less(a, c)
  {
    if a != "" && a[0] == b[0] == c[0] { LessIsTransitive(a[1..], b[1..], c[1..]); }
  }

  /** Heads of equal length are compared first, then the rest. */
  lemma {:induction false} LessAppend(a: string, b: string, x: string, y: string)
    requires |a| == |b|
    ensures Less(a + x, b + y) <==> Less(a, b) || (a == b && Less(x, y))
  {
    if a == "" {
      assert a + x == x && b + y == y;
    } else {
      assert (a + x)[1..] == a[1..] + x && (b + y)[1..] == b[1..] + y;
      LessAppend(a[1..], b[1..], x, y);
      assert a == [a[0]] + a[1..] && b == [b[0]] + b[1..];
    }
  }

  ghost predicate Sorted(s: seq<string>) {
    forall i, j :: 0 <= i < j < |s| ==> AtMost(s[i], s[j])
  }

  function Insert(v: string, s: seq<string>): (r: seq<string>)
    requires Sorted(s)
    ensures Sorted(r) && multiset(r) == multiset(s) + multiset{v}
  {
    if s == [] then [v]
    else if AtMost(v, s[0]) then
      AtMostTail(v, s);
      [v] + s
    else
      LessIsTotal(v, s[0]);
      assert s == [s[0]] + s[1..];
      var rest := Insert(v, s[1..]);
      InsertedTail(s[0], v, s[1..], rest);
      [s[0]] + rest
  }

  lemma AtMostTail(v: string, s: seq<string>)
    requires Sorted(s) && s != [] && AtMost(v, s[0])
    ensures Sorted([v] + s)
  {
    forall j | 0 <= j < |s| ensures AtMost(v, s[j]) {
      if j > 0 && v != s[0] && s[0] != s[j] { LessIsTransitive(v, s[0], s[j]); }
    }
  }

  lemma InsertedTail(head: string, v: string, tail: seq<string>, rest: seq<string>)
    requires Sorted(rest) && multiset(rest) == multiset(tail) + multiset{v}
    requires AtMost(head, v) && forall j :: 0 <= j < |tail| ==> AtMost(head, tail[j])
    ensures Sorted([head] + rest)
  {
    forall j | 0 <= j < |rest| ensures AtMost(head, rest[j]) {
      assert rest[j] in multiset(rest);
    }
  }

  /** `versions.sort()`. */
  function Sort(s: seq<string>): (r: seq<string>)
    ensures Sorted(r) && multiset(r) == multiset(s)
  {
    if s == [] then []
    else
      assert s == [s[0]] + s[1..];
      Insert(s[0], Sort(s[1..]))
  }

  /** `versions.dedup()`: drops a version equal to its left neighbour. */
  function Dedup(s: seq<string>): (r: seq<string>)
    ensures s != [] ==> r != [] && r[|r| - 1] == s[|s| - 1]
    ensures s == [] ==> r == []
  {
    if |s| <= 1 then s
    else if s[|s| - 1] == s[|s| - 2] then Dedup(s[..|s| - 1])
    else Dedup(s[..|s| - 1]) + [s[|s| - 1]]
  }

  ghost predicate IsMaximum(m: string, s: seq<string>) {
    m in s && forall v | v in s :: AtMost(v, m)
  }

  lemma LastOfSorted(sorted: seq<string>, versions: seq<string>)
    requires Sorted(sorted) && multiset(sorted) == multiset(versions)
    ensures sorted == [] <==> versions == []
    ensures sorted != [] ==> IsMaximum(sorted[|sorted| - 1], versions)
  {
    hide Less;
    assert |sorted| == |multiset(sorted)| == |versions|;
    if sorted != [] {
      assert sorted[|sorted| - 1] in multiset(versions);
      forall v | v in versions ensures AtMost(v, sorted[|sorted| - 1]) {
        assert v in multiset(sorted);
        var i :| 0 <= i < |sorted| && sorted[i] == v;
      }
    }
  }

  /** `sort(); dedup(); last()`. */
  function Latest(versions: seq<string>): (r: Option<string>)
    ensures r.None? <==> versions == []
    ensures r.Some? ==> IsMaximum(r.value, versions)
  {
    var sorted := Sort(versions);
    var unique := Dedup(sorted);
    LastOfSorted(sorted, versions);
    if unique == [] then None else Some(unique[|unique| - 1])
  }

  // ---- occurrences in a listing ----------------------------------------------------

  ghost predicate Occurs(html: string, prefix: string, suffix: string, v: string) {
    exists i, n :: 0 <= i && IsMatch(html, prefix, suffix, i, n) && v == html[i + |prefix|..i + |prefix| + n]
  }

  /** The lexicographic maximum over all occurrences. */
  ghost predicate IsLatest(html: string, prefix: string, suffix: string, v: string) {
    Occurs(html, prefix, suffix, v) && forall w | Occurs(html, prefix, suffix, w) :: AtMost(w, v)
  }

  lemma VersionsOccur(html: string, prefix: string, suffix: string)
    requires Searchable(prefix, suffix)
    ensures forall v :: v in Versions(html, prefix, suffix, 0) <==> Occurs(html, prefix, suffix, v)
    ensures forall v | v in Versions(html, prefix, suffix, 0) :: AllVersion(v)
  {
    forall v ensures v in Versions(html, prefix, suffix, 0) <==> Occurs(html, prefix, suffix, v) {
      VersionsAreTheOccurrences(html, prefix, suffix, 0, v);
    }
  }

  lemma LatestIsDecided(html: string, prefix: string, suffix: string, latest: Option<string>)
    requires Searchable(prefix, suffix) && latest == Latest(Versions(html, prefix, suffix, 0))
    ensures latest.None? <==> forall v :: !Occurs(html, prefix, suffix, v)
    ensures latest.Some? ==> IsLatest(html, prefix, suffix, latest.value)
  {
    hide Latest, Versions, Searchable, Occurs;
    VersionsOccur(html, prefix, suffix);
    var versions := Versions(html, prefix, suffix, 0);
    if versions != [] { assert versions[0] in versions; }
  }

  // ---- the callers' search texts -----------------------------------------------------

  const DEBIAN_PREFIX := "debian-"
  const DEBIAN_SUFFIX := "-amd64-netinst.iso"
  const UBUNTU_PREFIX := "ubuntu-"
  const KALI_PREFIX := "kali-linux-"
  const KALI_SUFFIX := "-installer-amd64.iso"

  function UbuntuSuffix(variant: string): string {
    "-" + variant + "-amd64.iso"
  }

  lemma DebianSearchable()
    ensures Searchable(DEBIAN_PREFIX, DEBIAN_SUFFIX)
  {
    var p, s := DEBIAN_PREFIX, DEBIAN_SUFFIX;
    forall k | 0 < k < |p| ensures p[k..] != p[..|p| - k] {
      assert p[k..][0] == p[k] != p[0] == p[..|p| - k][0];
    }
    assert s[3] == p[0] && s[4] != p[1];
    forall k | 0 <= k < |s| ensures Clash(p, s, k) {
      assert s[k] != p[0] || k == 3;
    }
  }

  lemma KaliSearchable()
    ensures Searchable(KALI_PREFIX, KALI_SUFFIX)
  {
    var p, s := KALI_PREFIX, KALI_SUFFIX;
    forall k | 0 < k < |p| ensures p[k..] != p[..|p| - k] {
      assert p[k..][0] == p[k] != p[0] == p[..|p| - k][0];
    }
    forall k | 0 <= k < |s| ensures Clash(p, s, k) {
      assert s[k] != p[0];
    }
  }

  lemma UbuntuSearchable(variant: string)
    requires 'u' !in variant
    ensures Searchable(UBUNTU_PREFIX, UbuntuSuffix(variant))
  {
    var p, s := UBUNTU_PREFIX, UbuntuSuffix(variant);
    forall k | 0 < k < |p| ensures p[k..] != p[..|p| - k] {
      assert p[k..][0] == p[k] && p[..|p| - k][0] == p[0];
      if k == 2 || k == 5 { assert p[k..][1] == p[k + 1] != p[1] == p[..|p| - k][1]; }
    }
    forall k | 0 <= k < |s| ensures Clash(p, s, k) {
      assert s[k] != p[0];
    }
  }

  // ---- Debian sorts whole file names ---------------------------------------------------

  function DebianFile(v: string): string {
    DEBIAN_PREFIX + v + DEBIAN_SUFFIX
  }

  function DebianFiles(versions: seq<string>): (r: seq<string>)
    ensures |r| == |versions|
    ensures forall i :: 0 <= i < |r| ==> r[i] == DebianFile(versions[i])
  {
    seq(|versions|, i requires 0 <= i < |versions| => DebianFile(versions[i]))
  }

  /** A version that continues beats the suffix, because `-` is below `.` and the digits. */
  lemma {:induction false} SuffixKeepsOrder(v: string, w: string)
    requires AllVersion(v) && AllVersion(w)
    ensures Less(v + DEBIAN_SUFFIX, w + DEBIAN_SUFFIX) <==> Less(v, w)
  {
    var s := DEBIAN_SUFFIX;
    if v == "" || w == "" {
      assert "" + s == s;
      LessIsTotal(s, s);
      assert v != "" ==> VersionChar(v[0]) && (v + s)[0] == v[0];
      assert w != "" ==> VersionChar(w[0]) && (w + s)[0] == w[0];
    } else {
      assert (v + s)[1..] == v[1..] + s && (w + s)[1..] == w[1..] + s;
      SuffixKeepsOrder(v[1..], w[1..]);
    }
  }

  /** Sorting Debian's file names agrees with sorting the versions in them. */
  lemma DebianFilesKeepOrder(v: string, w: string)
    requires AllVersion(v) && AllVersion(w)
    ensures Less(DebianFile(v), DebianFile(w)) <==> Less(v, w)
  {
    assert DebianFile(v) == DEBIAN_PREFIX + (v + DEBIAN_SUFFIX);
    assert DebianFile(w) == DEBIAN_PREFIX + (w + DEBIAN_SUFFIX);
    LessAppend(DEBIAN_PREFIX, DEBIAN_PREFIX, v + DEBIAN_SUFFIX, w + DEBIAN_SUFFIX);
    LessIsTotal(DEBIAN_PREFIX, DEBIAN_PREFIX);
    SuffixKeepsOrder(v, w);
  }

  lemma LatestFileNamesLatestVersion(versions: seq<string>)
    requires forall v | v in versions :: AllVersion(v)
    ensures Latest(DebianFiles(versions)).None? <==> versions == []
    ensures versions != [] ==>
              Latest(DebianFiles(versions)) == Some(DebianFile(Latest(versions).value))
  {
    hide Latest, Less, DebianFile;
    var files := DebianFiles(versions);
    if versions != [] {
      var file, latest := Latest(files).value, Latest(versions).value;
      var i :| 0 <= i < |files| && files[i] == file;
      assert versions[i] in versions;
      var j :| 0 <= j < |versions| && versions[j] == latest;
      assert files[j] in files;
      DebianFilesKeepOrder(versions[i], latest);
      DebianFilesKeepOrder(latest, versions[i]);
      LessIsTotal(versions[i], latest);
      LessIsTotal(file, DebianFile(latest));
    }
  }

  // ---- the resolvers --------------------------------------------------------------------

  method ResolveDebianNetinst(html: string, base: string) returns (r: Result<CatalogText.ResolvedUrls, ResolverError>)
    ensures r.Err? ==> r.error == NoMatch(base)
    ensures r.Err? <==> forall v :: !Occurs(html, "debian-", "-amd64-netinst.iso", v)
    ensures r.Ok? ==> exists v :: IsLatest(html, "debian-", "-amd64-netinst.iso", v) &&
                        r.value == CatalogText.ResolvedUrls(base + ("debian-" + v + "-amd64-netinst.iso"),
                                                            base + "SHA512SUMS", base + "SHA512SUMS.sign")
  {
    hide Latest, Occurs, Versions, Searchable, Scan;
    DebianSearchable();
    ScanFindsAll(html, DEBIAN_PREFIX, DEBIAN_SUFFIX, 0);
    var re := SimpleRegexMatchAll(html, DEBIAN_PREFIX, DEBIAN_SUFFIX);
    VersionsOccur(html, DEBIAN_PREFIX, DEBIAN_SUFFIX);
    LatestIsDecided(html, DEBIAN_PREFIX, DEBIAN_SUFFIX, Latest(re));
    LatestFileNamesLatestVersion(re);
    var latest := Latest(DebianFiles(re));
    if latest.None? {
      return Err(NoMatch(base));
    }
    assert latest.value == "debian-" + Latest(re).value + "-amd64-netinst.iso";
    return Ok(CatalogText.ResolvedUrls(base + latest.value, base + "SHA512SUMS", base + "SHA512SUMS.sign"));
  }

  /** For every variant the pick is decided by the scan; for the two in use the scan misses nothing. */
  method ResolveUbuntu2404(html: string, base: string, variant: string)
    returns (r: Result<CatalogText.ResolvedUrls, ResolverError>)
    ensures match Latest(Scan(html, "ubuntu-", "-" + variant + "-amd64.iso", 0))
            case None => r == Err(NoMatch(base))
            case Some(v) =>
              r == Ok(CatalogText.ResolvedUrls(base + ("ubuntu-" + v + "-" + variant + "-amd64.iso"),
                                               base + "SHA256SUMS", base + "SHA256SUMS.gpg"))
    ensures 'u' !in variant ==> (r.Err? <==> forall v :: !Occurs(html, "ubuntu-", "-" + variant + "-amd64.iso", v))
    ensures 'u' !in variant && r.Ok? ==>
              exists v :: (IsLatest(html, "ubuntu-", "-" + variant + "-amd64.iso", v) &&
                           r.value == CatalogText.ResolvedUrls(base + ("ubuntu-" + v + "-" + variant + "-amd64.iso"),
                                                               base + "SHA256SUMS", base + "SHA256SUMS.gpg"))
  {
    hide Latest, Occurs, Versions, Searchable, Scan;
    var versions := SimpleRegexMatchAll(html, UBUNTU_PREFIX, UbuntuSuffix(variant));
    if 'u' !in variant {
      UbuntuSearchable(variant);
      ScanFindsAll(html, UBUNTU_PREFIX, UbuntuSuffix(variant), 0);
      LatestIsDecided(html, UBUNTU_PREFIX, UbuntuSuffix(variant), Latest(versions));
    }
    var latest := Latest(versions);
    if latest.None? {
      return Err(NoMatch(base));
    }
    var filename := UBUNTU_PREFIX + latest.value + "-" + variant + "-amd64.iso";
    return Ok(CatalogText.ResolvedUrls(base + filename, base + "SHA256SUMS", base + "SHA256SUMS.gpg"));
  }

  method ResolveKali(html: string, base: string) returns (r: Result<CatalogText.ResolvedUrls, ResolverError>)
    ensures r.Err? ==> r.error == NoMatch(base)
    ensures r.Err? <==> forall v :: !Occurs(html, "kali-linux-", "-installer-amd64.iso", v)
    ensures r.Ok? ==> exists v :: IsLatest(html, "kali-linux-", "-installer-amd64.iso", v) &&
                        r.value == CatalogText.ResolvedUrls(base + ("kali-linux-" + v + "-installer-amd64.iso"),
                                                            base + "SHA256SUMS", base + "SHA256SUMS.gpg")
  {
    hide Latest, Occurs, Versions, Searchable, Scan;
    KaliSearchable();
    ScanFindsAll(html, KALI_PREFIX, KALI_SUFFIX, 0);
    var versions := SimpleRegexMatchAll(html, KALI_PREFIX, KALI_SUFFIX);
    LatestIsDecided(html, KALI_PREFIX, KALI_SUFFIX, Latest(versions));
    var latest := Latest(versions);
    if latest.None? {
      return Err(NoMatch(base));
    }
    return Ok(CatalogText.ResolvedUrls(base + (KALI_PREFIX + latest.value + KALI_SUFFIX), base + "SHA256SUMS", base + "SHA256SUMS.gpg"));
  }

  // ---- Linux Mint ------------------------------------------------------------------------------

  datatype MintKey = MintKey(major: nat, minor: nat)

  function ParseOrZero(s: string): nat {
    var n := ParseU32(s);
    if n.Some? then n.value else 0
  }

  /** `splitn(2, '.')`, each half parsed as `u32` or zero. */
  function KeyOf(v: string): MintKey {
    match Find(v, ".")
    case None => MintKey(ParseOrZero(v), 0)
    case Some(d) => MintKey(ParseOrZero(v[..d]), ParseOrZero(v[d + 1..]))
  }

  predicate KeyAtMost(a: MintKey, b: MintKey) {
    a.major < b.major || (a.major == b.major && a.minor <= b.minor)
  }

  /** Greatest key, and smaller keys everywhere after it. */
  predicate IsLastMaximum(i: nat, candidates: seq<string>) {
    && i < |candidates|
    && (forall j :: 0 <= j < i ==> KeyAtMost(KeyOf(candidates[j]), KeyOf(candidates[i])))
    && (forall j :: i < j < |candidates| ==> !KeyAtMost(KeyOf(candidates[i]), KeyOf(candidates[j])))
  }

  lemma LastMaximumStays(candidates: seq<string>, best: string)
    requires candidates != [] && var n := |candidates| - 1;
             && !KeyAtMost(KeyOf(best), KeyOf(candidates[n]))
             && exists i: nat :: IsLastMaximum(i, candidates[..n]) && candidates[..n][i] == best
    ensures exists i: nat :: IsLastMaximum(i, candidates) && candidates[i] == best
  {
    hide KeyOf;
    var front := candidates[..|candidates| - 1];
    var i: nat :| IsLastMaximum(i, front) && front[i] == best;
    assert IsLastMaximum(i, candidates);
  }

  lemma NewMaximum(candidates: seq<string>, best: Option<string>)
    requires candidates != [] && var n := |candidates| - 1;
             && (best.None? ==> n == 0)
             && (best.Some? ==> KeyAtMost(KeyOf(best.value), KeyOf(candidates[n])) &&
                                exists i: nat :: IsLastMaximum(i, candidates[..n]) && candidates[..n][i] == best.value)
    ensures IsLastMaximum(|candidates| - 1, candidates)
  {
    hide KeyOf;
    var n := |candidates| - 1;
    if best.Some? {
      var front := candidates[..n];
      var i: nat :| IsLastMaximum(i, front) && front[i] == best.value;
      forall j | 0 <= j < n ensures KeyAtMost(KeyOf(candidates[j]), KeyOf(candidates[n])) {
        assert front[j] == candidates[j];
        assert j <= i ==> KeyAtMost(KeyOf(front[j]), KeyOf(best.value));
      }
    }
  }

  /** `max_by_key`: of the elements with the greatest key, the last one. */
  function MaxByKey(candidates: seq<string>): (r: Option<string>)
    ensures r.None? <==> candidates == []
    ensures r.Some? ==> exists i: nat :: IsLastMaximum(i, candidates) && candidates[i] == r.value
  {
    if candidates == [] then None
    else
      var n := |candidates| - 1;
      var best := MaxByKey(candidates[..n]);
      if best.None? || KeyAtMost(KeyOf(best.value), KeyOf(candidates[n])) then
        NewMaximum(candidates, best);
        Some(candidates[n])
      else
        LastMaximumStays(candidates, best.value);
        best
  }

  method ResolveLinuxmint22(parentHtml: string, parent: string, flavor: string)
    returns (r: Result<CatalogText.ResolvedUrls, ResolverError>)
    ensures match MaxByKey(VersionDirs(Hrefs(parentHtml), "22"))
            case None => r == Err(NoMatch(parent))
            case Some(pick) =>
              r == Ok(CatalogText.ResolvedUrls(
                        parent + pick + "/" + ("linuxmint-" + pick + "-" + flavor + "-64bit.iso"),
                        parent + pick + "/" + "sha256sum.txt",
                        parent + pick + "/" + "sha256sum.txt.gpg"))
  {
    hide VersionDirs, Hrefs, KeyOf, MaxByKey;
    var candidates := ParseVersionedSubdirs(parentHtml, "22");
    var pick := MaxByKey(candidates);
    if pick.None? {
      return Err(NoMatch(parent));
    }
    var dir := parent + pick.value + "/";
    var filename := "linuxmint-" + pick.value + "-" + flavor + "-64bit.iso";
    return Ok(CatalogText.ResolvedUrls(dir + filename, dir + "sha256sum.txt", dir + "sha256sum.txt.gpg"));
  }
}
