/**
  The hand-written index loops that scan an HTML directory listing.  Each loop
  is proved equal to a reading of the listing that does not follow its jumps:
  all occurrences for the version scanner, a character-by-character tokenizer
  for the two `href` scanners.
*/
module ListingScanner {
  import opened Wrappers
  import opened Strings

  predicate IsDigit(c: char) {
    '0' <= c <= '9'
  }

  predicate VersionChar(c: char) {
    IsDigit(c) || c == '.'
  }

  predicate AllVersion(s: string) {
    forall i :: 0 <= i < |s| ==> VersionChar(s[i])
  }

  // ---- occurrences of prefix, version, suffix --------------------------------

  /** `prefix`, a nonempty version of length `n`, then `suffix`, starting at `i`. */
  ghost predicate IsMatch(h: string, prefix: string, suffix: string, i: int, n: int) {
    && n > 0 && OccursAt(h, prefix, i) && OccursAt(h, suffix, i + |prefix| + n)
    && AllVersion(h[i + |prefix|..i + |prefix| + n])
  }

  ghost predicate HasMatch(h: string, prefix: string, suffix: string, i: int) {
    exists n :: IsMatch(h, prefix, suffix, i, n)
  }

  /** The versions of all occurrences at `from` or later, left to right. */
  ghost function Versions(h: string, prefix: string, suffix: string, from: nat): seq<string>
    requires from <= |h|
    decreases |h| - from
  {
    if from == |h| then []
    else if HasMatch(h, prefix, suffix, from) then
      var n :| IsMatch(h, prefix, suffix, from, n);
      [h[from + |prefix|..from + |prefix| + n]] + Versions(h, prefix, suffix, from + 1)
    else Versions(h, prefix, suffix, from + 1)
  }

  ghost predicate BorderFree(p: string) {
    forall k :: 0 < k < |p| ==> p[k..] != p[..|p| - k]
  }

  /** No occurrence of `p` can start inside an occurrence of `s`. */
  ghost predicate CannotStartInside(p: string, s: string) {
    forall k :: 0 <= k < |s| ==> Clash(p, s, k)
  }

  /** Laying `p` over `s` from position `k` meets a differing character within `s`. */
  ghost predicate Clash(p: string, s: string, k: nat) {
    exists t :: 0 <= t < |p| && k + t < |s| && s[k + t] != p[t]
  }

  /** What every caller's prefix and suffix satisfy. */
  ghost predicate Searchable(prefix: string, suffix: string) {
    && |prefix| > 0 && |suffix| > 0
    && !VersionChar(prefix[0]) && !VersionChar(suffix[0])
    && BorderFree(prefix) && CannotStartInside(prefix, suffix)
  }

  /** The version length at a prefix occurrence is decided by the first suffix after it. */
  lemma MatchLength(h: string, prefix: string, suffix: string, i: nat, n: int)
    requires |suffix| > 0 && !VersionChar(suffix[0]) && i + |prefix| <= |h|
    requires IsMatch(h, prefix, suffix, i, n)
    ensures FindFrom(h, suffix, i + |prefix|) == Some(i + |prefix| + n)
  {
    hide FindFrom;
    var after := i + |prefix|;
    forall j | after <= j < after + n ensures !OccursAt(h, suffix, j) {
      assert VersionChar(h[after..after + n][j - after]);
      if j + |suffix| <= |h| { assert h[j..j + |suffix|][0] == h[j]; }
    }
  }

  lemma {:induction false} SkipSilent(h: string, prefix: string, suffix: string, lo: int, hi: int)
    requires 0 <= lo <= hi <= |h|
    requires forall j :: lo <= j < hi ==> !HasMatch(h, prefix, suffix, j)
    ensures Versions(h, prefix, suffix, lo) == Versions(h, prefix, suffix, hi)
    decreases hi - lo
  {
    if lo < hi { SkipSilent(h, prefix, suffix, lo + 1, hi); }
  }

  lemma NoMatchWithoutPrefix(h: string, prefix: string, suffix: string, lo: int, hi: int)
    requires forall j :: lo <= j < hi ==> !OccursAt(h, prefix, j)
    ensures forall j :: lo <= j < hi ==> !HasMatch(h, prefix, suffix, j)
  {
  }

  lemma CutTail(h: string, a: nat, b: nat, c: nat)
    requires a <= b <= c <= |h|
    ensures h[a..c][b - a..] == h[b..c]
  {
  }

  lemma CutHead(h: string, a: nat, b: nat, c: nat)
    requires a <= b <= c <= |h|
    ensures h[a..c][..b - a] == h[a..b]
  {
  }

  /** Two overlapping occurrences give `p` a border. */
  lemma OverlapIsBorder(h: string, p: string, i: nat, j: nat)
    requires OccursAt(h, p, i) && OccursAt(h, p, j) && i < j < i + |p|
    ensures p[j - i..] == p[..|p| - (j - i)]
  {
    CutTail(h, i, j, i + |p|);
    CutHead(h, j, i + |p|, j + |p|);
  }

  /** A border-free prefix does not overlap a shifted copy of itself. */
  lemma PrefixDoesNotOverlap(h: string, p: string, i: nat, j: nat)
    requires BorderFree(p) && OccursAt(h, p, i) && i < j < i + |p|
    ensures !OccursAt(h, p, j)
  {
    if OccursAt(h, p, j) { OverlapIsBorder(h, p, i, j); }
  }

  /** No occurrence of the prefix starts strictly inside a match. */
  lemma MatchHidesNoPrefix(h: string, prefix: string, suffix: string, i: nat, n: int, j: nat)
    requires Searchable(prefix, suffix) && IsMatch(h, prefix, suffix, i, n)
    requires i < j < i + |prefix| + n + |suffix|
    ensures !OccursAt(h, prefix, j)
  {
    var after := i + |prefix|;
    if j < after {
      PrefixDoesNotOverlap(h, prefix, i, j);
    } else if j + |prefix| <= |h| {
      assert h[j..j + |prefix|][0] == h[j];
      if j < after + n {
        assert VersionChar(h[after..after + n][j - after]);
      } else {
        var k := j - after - n;
        assert Clash(prefix, suffix, k);
        var t :| 0 <= t < |prefix| && k + t < |suffix| && suffix[k + t] != prefix[t];
        assert h[after + n..after + n + |suffix|][k + t] == h[j + t] == h[j..j + |prefix|][t];
      }
    }
  }

  /** Stepping over a match keeps exactly its version. */
  lemma StepOverMatch(h: string, prefix: string, suffix: string, i: nat, n: nat)
    requires Searchable(prefix, suffix) && IsMatch(h, prefix, suffix, i, n)
    ensures i + |prefix| + n + |suffix| <= |h|
    ensures Versions(h, prefix, suffix, i) ==
            [h[i + |prefix|..i + |prefix| + n]] + Versions(h, prefix, suffix, i + |prefix| + n + |suffix|)
  {
    hide FindFrom;
    forall m | IsMatch(h, prefix, suffix, i, m) ensures m == n {
      MatchLength(h, prefix, suffix, i, m);
      MatchLength(h, prefix, suffix, i, n);
    }
    forall j: nat | i < j < i + |prefix| + n + |suffix| ensures !OccursAt(h, prefix, j) {
      MatchHidesNoPrefix(h, prefix, suffix, i, n, j);
    }
    NoMatchWithoutPrefix(h, prefix, suffix, i + 1, i + |prefix| + n + |suffix|);
    SkipSilent(h, prefix, suffix, i + 1, i + |prefix| + n + |suffix|);
  }

  /** Stepping over a prefix that starts no match loses nothing. */
  lemma StepOverPrefix(h: string, prefix: string, suffix: string, i: nat)
    requires Searchable(prefix, suffix) && OccursAt(h, prefix, i) && !HasMatch(h, prefix, suffix, i)
    ensures Versions(h, prefix, suffix, i) == Versions(h, prefix, suffix, i + |prefix|)
  {
    forall j: nat | i < j < i + |prefix| ensures !OccursAt(h, prefix, j) {
      PrefixDoesNotOverlap(h, prefix, i, j);
    }
    NoMatchWithoutPrefix(h, prefix, suffix, i + 1, i + |prefix|);
    SkipSilent(h, prefix, suffix, i, i + |prefix|);
  }

  /** Past the last suffix nothing can match. */
  lemma NoMatchWithoutSuffix(h: string, prefix: string, suffix: string, i: nat)
    requires OccursAt(h, prefix, i) && forall j :: i + |prefix| <= j ==> !OccursAt(h, suffix, j)
    ensures Versions(h, prefix, suffix, i) == []
  {
    forall j | i <= j < |h| ensures !HasMatch(h, prefix, suffix, j) {
      forall n ensures !IsMatch(h, prefix, suffix, j, n) {
        assert !OccursAt(h, suffix, j + |prefix| + n) || n <= 0;
      }
    }
    SkipSilent(h, prefix, suffix, i, |h|);
  }

  /**
    The jumps of `simple_regex_match_all`: past a match, or past a prefix that
    starts none.  An empty prefix would never advance; no caller passes one.
  */
  function Scan(h: string, prefix: string, suffix: string, pos: nat): seq<string>
    requires |prefix| > 0 && pos <= |h|
    decreases |h| - pos
  {
    match FindFrom(h, prefix, pos)
    case None => []
    case Some(start) =>
      match FindFrom(h, suffix, start + |prefix|)
      case None => []
      case Some(end) =>
        var inner := h[start + |prefix|..end];
        if inner != "" && AllVersion(inner) then [inner] + Scan(h, prefix, suffix, end + |suffix|)
        else Scan(h, prefix, suffix, start + |prefix|)
  }

  method SimpleRegexMatchAll(haystack: string, prefix: string, suffix: string) returns (out: seq<string>)
    requires |prefix| > 0
    ensures out == Scan(haystack, prefix, suffix, 0)
  {
    hide FindFrom, AllVersion, Scan;
    out := [];
    var pos := 0;
    var next := FindFrom(haystack, prefix, pos);
    while next.Some?
      invariant 0 <= pos <= |haystack|
      invariant next == FindFrom(haystack, prefix, pos)
      invariant Scan(haystack, prefix, suffix, 0) == out + Scan(haystack, prefix, suffix, pos)
      decreases |haystack| - pos
    {
      ScanUnfolds(haystack, prefix, suffix, pos);
      var afterPrefix := next.value + |prefix|;
      var end := FindFrom(haystack, suffix, afterPrefix);
      if end.None? {
        return;
      }
      var inner := haystack[afterPrefix..end.value];
      if inner != "" && AllVersion(inner) {
        out := out + [inner];
        pos := end.value + |suffix|;
      } else {
        pos := afterPrefix;
      }
      next := FindFrom(haystack, prefix, pos);
    }
    ScanUnfolds(haystack, prefix, suffix, pos);
  }

  lemma ScanUnfolds(h: string, prefix: string, suffix: string, pos: nat)
    requires |prefix| > 0 && pos <= |h|
    ensures Scan(h, prefix, suffix, pos) ==
            match FindFrom(h, prefix, pos)
            case None => []
            case Some(start) =>
              match FindFrom(h, suffix, start + |prefix|)
              case None => []
              case Some(end) =>
                var inner := h[start + |prefix|..end];
                if inner != "" && AllVersion(inner) then [inner] + Scan(h, prefix, suffix, end + |suffix|)
                else Scan(h, prefix, suffix, start + |prefix|)
  {
    hide FindFrom, AllVersion;
  }

  /** Whatever the prefix and the suffix, everything returned is an occurrence. */
  lemma {:induction false} ScanFindsOccurrences(h: string, prefix: string, suffix: string, pos: nat, v: string)
    requires |prefix| > 0 && pos <= |h| && v in Scan(h, prefix, suffix, pos)
    ensures exists i, n :: pos <= i && IsMatch(h, prefix, suffix, i, n) && v == h[i + |prefix|..i + |prefix| + n]
    decreases |h| - pos
  {
    hide FindFrom, AllVersion;
    var start := FindFrom(h, prefix, pos).value;
    var after := start + |prefix|;
    var end := FindFrom(h, suffix, after).value;
    var inner := h[after..end];
    if inner != "" && AllVersion(inner) {
      assert IsMatch(h, prefix, suffix, start, |inner|);
      if v != inner { ScanFindsOccurrences(h, prefix, suffix, end + |suffix|, v); }
    } else {
      ScanFindsOccurrences(h, prefix, suffix, after, v);
    }
  }

  /** A searchable prefix and suffix: every occurrence is returned, in order, whatever stands between. */
  lemma {:induction false} ScanFindsAll(h: string, prefix: string, suffix: string, pos: nat)
    requires Searchable(prefix, suffix) && pos <= |h|
    ensures Scan(h, prefix, suffix, pos) == Versions(h, prefix, suffix, pos)
    decreases |h| - pos
  {
    hide FindFrom, Versions, AllVersion, BorderFree, CannotStartInside;
    var next := FindFrom(h, prefix, pos);
    if next.None? {
      NoMatchWithoutPrefix(h, prefix, suffix, pos, |h|);
      SkipSilent(h, prefix, suffix, pos, |h|);
      EndOfVersions(h, prefix, suffix);
    } else {
      var start := next.value;
      NoMatchWithoutPrefix(h, prefix, suffix, pos, start);
      SkipSilent(h, prefix, suffix, pos, start);
      ScanStep(h, prefix, suffix, start);
    }
  }

  /** From an occurrence of the prefix on. */
  lemma {:induction false} ScanStep(h: string, prefix: string, suffix: string, start: nat)
    requires Searchable(prefix, suffix) && |prefix| > 0 && |suffix| > 0 && OccursAt(h, prefix, start)
    ensures match FindFrom(h, suffix, start + |prefix|)
            case None => Versions(h, prefix, suffix, start) == []
            case Some(end) =>
              var inner := h[start + |prefix|..end];
              Versions(h, prefix, suffix, start) ==
                if inner != "" && AllVersion(inner) then [inner] + Scan(h, prefix, suffix, end + |suffix|)
                else Scan(h, prefix, suffix, start + |prefix|)
    decreases |h| - start, 0
  {
    hide FindFrom, Versions, AllVersion, BorderFree, CannotStartInside, Scan;
    var after := start + |prefix|;
    var found := FindFrom(h, suffix, after);
    if found.None? {
      NoMatchWithoutSuffix(h, prefix, suffix, start);
    } else {
      var end := found.value;
      var inner := h[after..end];
      if inner != "" && AllVersion(inner) {
        assert IsMatch(h, prefix, suffix, start, |inner|);
        StepOverMatch(h, prefix, suffix, start, |inner|);
        ScanFindsAll(h, prefix, suffix, end + |suffix|);
      } else {
        NotAMatch(h, prefix, suffix, start, end);
        StepOverPrefix(h, prefix, suffix, start);
        ScanFindsAll(h, prefix, suffix, after);
      }
    }
  }

  lemma EndOfVersions(h: string, prefix: string, suffix: string)
    ensures Versions(h, prefix, suffix, |h|) == []
  {
  }

  lemma NotAMatch(h: string, prefix: string, suffix: string, i: nat, end: nat)
    requires Searchable(prefix, suffix) && i + |prefix| <= end <= |h|
    requires FindFrom(h, suffix, i + |prefix|) == Some(end)
    requires h[i + |prefix|..end] == "" || !AllVersion(h[i + |prefix|..end])
    ensures !HasMatch(h, prefix, suffix, i)
  {
    hide FindFrom;
    forall n ensures !IsMatch(h, prefix, suffix, i, n) {
      if IsMatch(h, prefix, suffix, i, n) { MatchLength(h, prefix, suffix, i, n); }
    }
  }

  lemma MatchIsUnique(h: string, prefix: string, suffix: string, i: nat, n: int, m: int)
    requires |suffix| > 0 && !VersionChar(suffix[0])
    requires IsMatch(h, prefix, suffix, i, n) && IsMatch(h, prefix, suffix, i, m)
    ensures n == m
  {
    MatchLength(h, prefix, suffix, i, n);
    MatchLength(h, prefix, suffix, i, m);
  }

  lemma NoMatchAtEnd(h: string, prefix: string, suffix: string)
    requires |prefix| > 0
    ensures forall i, n :: i >= |h| ==> !IsMatch(h, prefix, suffix, i, n)
  {
  }

  /** A version is listed exactly when it occurs between a prefix and a suffix. */
  lemma {:induction false} VersionsAreTheOccurrences(h: string, prefix: string, suffix: string, from: nat, v: string)
    requires from <= |h| && |prefix| > 0 && |suffix| > 0 && !VersionChar(suffix[0])
    ensures v in Versions(h, prefix, suffix, from) <==>
            exists i, n :: from <= i && IsMatch(h, prefix, suffix, i, n) && v == h[i + |prefix|..i + |prefix| + n]
    decreases |h| - from
  {
    hide FindFrom, OccursAt, AllVersion;
    if from < |h| {
      VersionsAreTheOccurrences(h, prefix, suffix, from + 1, v);
      forall n, m | IsMatch(h, prefix, suffix, from, m) && IsMatch(h, prefix, suffix, from, n) ensures m == n {
        MatchIsUnique(h, prefix, suffix, from, n, m);
      }
      hide IsMatch;
    } else {
      NoMatchAtEnd(h, prefix, suffix);
    }
  }

  /** A witness that the prefix must not overlap itself: the occurrence of `aa1b` is missed. */
  lemma OverlapHidesMatch()
    ensures Scan("aaa1b", "aa", "b", 0) == [] && IsMatch("aaa1b", "aa", "b", 1, 1)
  {
    var h := "aaa1b";
    assert h[0..2] == "aa" && h[1..3] == "aa" && h[4..5] == "b" && h[3..4] == "1";
    assert FindFrom(h, "aa", 0) == Some(0);
    forall j | 2 <= j ensures !OccursAt(h, "aa", j) {
      if j + 2 <= |h| { assert h[j..j + 2][1] == h[j + 1]; }
    }
    forall j | 2 <= j < 4 ensures !OccursAt(h, "b", j) {
      assert h[j..j + 1][0] == h[j];
    }
    assert OccursAt(h, "b", 4);
    assert FindFrom(h, "b", 2) == Some(4);
    assert h[2..4][0] == 'a';
  }

  // ---- quoted href values ------------------------------------------------------

  const HREF := "href=\""

  /** Outside a tag attribute, or inside one with the value read so far. */
  datatype Mode = Outside | Inside(value: string)

  /** Reference tokenizer: reads one character at a time and never searches. */
  function Tokens(s: string, i: nat, mode: Mode): seq<string>
    requires i <= |s|
    decreases |s| - i
  {
    if i == |s| then []
    else
      match mode
      case Outside =>
        if OccursAt(s, "href=\"", i) then Tokens(s, i + 6, Inside("")) else Tokens(s, i + 1, Outside)
      case Inside(value) =>
        if s[i] == '"' then [value] + Tokens(s, i + 1, Outside) else Tokens(s, i + 1, Inside(value + [s[i]]))
  }

  lemma {:induction false} SkipOutside(s: string, lo: int, hi: int)
    requires 0 <= lo <= hi <= |s| && forall j :: lo <= j < hi ==> !OccursAt(s, HREF, j)
    ensures Tokens(s, lo, Outside) == Tokens(s, hi, Outside)
    decreases hi - lo
  {
    if lo < hi { SkipOutside(s, lo + 1, hi); }
  }

  lemma {:induction false} SkipInside(s: string, lo: int, hi: int, value: string)
    requires 0 <= lo <= hi <= |s| && forall j :: lo <= j < hi ==> !OccursAt(s, "\"", j)
    ensures Tokens(s, lo, Inside(value)) == Tokens(s, hi, Inside(value + s[lo..hi]))
    decreases hi - lo
  {
    if lo < hi {
      assert s[lo] != '"' by {
        assert !OccursAt(s, "\"", lo);
        assert s[lo..lo + 1] == [s[lo]];
      }
      SkipInside(s, lo + 1, hi, value + [s[lo]]);
      assert value + s[lo..hi] == value + [s[lo]] + s[lo + 1..hi];
    } else {
      assert value + s[lo..hi] == value;
    }
  }

  /** One round of the scanning loops, in terms of the tokenizer. */
  lemma NextHref(s: string, pos: nat)
    requires pos <= |s|
    ensures match FindFrom(s, HREF, pos)
            case None => Tokens(s, pos, Outside) == []
            case Some(start) =>
              match FindFrom(s, "\"", start + |HREF|)
              case None => Tokens(s, pos, Outside) == []
              case Some(end) =>
                Tokens(s, pos, Outside) == [s[start + |HREF|..end]] + Tokens(s, end + 1, Outside)
  {
    hide FindFrom, Tokens;
    var start := FindFrom(s, HREF, pos);
    if start.None? {
      SkipOutside(s, pos, |s|);
      TokenAtEnd(s, Outside);
    } else {
      SkipOutside(s, pos, start.value);
      var after := start.value + |HREF|;
      EnterHref(s, start.value);
      var end := FindFrom(s, "\"", after);
      if end.None? {
        SkipInside(s, after, |s|, "");
        TokenAtEnd(s, Inside("" + s[after..|s|]));
      } else {
        SkipInside(s, after, end.value, "");
        assert "" + s[after..end.value] == s[after..end.value];
        LeaveHref(s, end.value, s[after..end.value]);
      }
    }
  }

  lemma TokenAtEnd(s: string, mode: Mode)
    ensures Tokens(s, |s|, mode) == []
  {
  }

  lemma EnterHref(s: string, i: nat)
    requires OccursAt(s, HREF, i)
    ensures Tokens(s, i, Outside) == Tokens(s, i + |HREF|, Inside(""))
  {
  }

  lemma LeaveHref(s: string, i: nat, value: string)
    requires OccursAt(s, "\"", i)
    ensures Tokens(s, i, Inside(value)) == [value] + Tokens(s, i + 1, Outside)
  {
    assert s[i..i + 1][0] == s[i];
  }

  function Hrefs(html: string): seq<string> {
    Tokens(html, 0, Outside)
  }

  // ---- version directories -------------------------------------------------------

  /** `22/`, or `22.` followed by digits and dots, then `/`. */
  ghost predicate IsVersionDir(href: string, major: string) {
    href == major + "/" || exists d :: AllVersion(d) && href == VersionDir(major, d)
  }

  function VersionDir(major: string, d: string): string {
    major + "." + d + "/"
  }

  ghost function VersionDirs(hrefs: seq<string>, major: string): seq<string> {
    if hrefs == [] then []
    else if IsVersionDir(hrefs[0], major) then [hrefs[0][..|hrefs[0]| - 1]] + VersionDirs(hrefs[1..], major)
    else VersionDirs(hrefs[1..], major)
  }

  /** The condition `parse_versioned_subdirs` evaluates. */
  predicate LooksVersioned(href: string, major: string) {
    EndsWith(href, "/") &&
    var stripped := href[..|href| - 1];
    stripped == major ||
    (StartsWith(stripped, major) && StartsWith(stripped[|major|..], ".") && AllVersion(stripped[|major| + 1..]))
  }

  lemma LooksVersionedIsExact(href: string, major: string)
    ensures LooksVersioned(href, major) <==> IsVersionDir(href, major)
  {
    if LooksVersioned(href, major) {
      var stripped := href[..|href| - 1];
      assert href == stripped + "/";
      if stripped != major {
        var d := stripped[|major| + 1..];
        assert stripped == stripped[..|major|] + stripped[|major|..|major| + 1] + d;
        assert stripped[|major|..][..1] == stripped[|major|..|major| + 1];
        assert href == VersionDir(major, d);
      }
    }
    if exists d :: AllVersion(d) && href == VersionDir(major, d) {
      var d :| AllVersion(d) && href == VersionDir(major, d);
      var stripped := href[..|href| - 1];
      assert href[|href| - 1..] == "/" && stripped == major + "." + d;
      assert stripped[..|major|] == major && stripped[|major|..] == "." + d && stripped[|major| + 1..] == d;
      assert stripped[|major|..][..1] == ".";
    }
    if href == major + "/" {
      assert href[|href| - 1..] == "/" && href[..|href| - 1] == major;
    }
  }

  method ParseVersionedSubdirs(html: string, major: string) returns (out: seq<string>)
    ensures out == VersionDirs(Hrefs(html), major)
  {
    hide FindFrom, Tokens, VersionDirs, LooksVersioned, IsVersionDir;
    out := [];
    var pos := 0;
    NextHref(html, 0);
    var next := FindFrom(html, HREF, pos);
    while next.Some?
      invariant 0 <= pos <= |html|
      invariant next == FindFrom(html, HREF, pos)
      invariant VersionDirs(Hrefs(html), major) == out + VersionDirs(Tokens(html, pos, Outside), major)
      decreases |html| - pos
    {
      NextHref(html, pos);
      var after := next.value + |HREF|;
      var end := FindFrom(html, "\"", after);
      if end.None? {
        NoVersionDirs(major);
        return;
      }
      var candidate := html[after..end.value];
      VersionDirsCons(candidate, Tokens(html, end.value + 1, Outside), major);
      LooksVersionedIsExact(candidate, major);
      if LooksVersioned(candidate, major) {
        EndsWithSlash(candidate, major);
        out := out + [candidate[..|candidate| - 1]];
      }
      pos := end.value + 1;
      next := FindFrom(html, HREF, pos);
    }
    NextHref(html, pos);
    NoVersionDirs(major);
  }

  lemma NoVersionDirs(major: string)
    ensures VersionDirs([], major) == []
  {
  }

  lemma EndsWithSlash(href: string, major: string)
    ensures LooksVersioned(href, major) ==> |href| > 0
  {
  }

  lemma VersionDirsCons(href: string, rest: seq<string>, major: string)
    ensures IsVersionDir(href, major) ==> |href| > 0
    ensures VersionDirs([href] + rest, major) ==
            (if IsVersionDir(href, major) then [href[..|href| - 1]] else []) + VersionDirs(rest, major)
  {
    assert ([href] + rest)[1..] == rest;
  }

  // ---- integer directories ---------------------------------------------------------

  const U32_MAX := 0xFFFF_FFFF

  predicate AllDigits(s: string) {
    forall i :: 0 <= i < |s| ==> IsDigit(s[i])
  }

  function DecimalValue(s: string): nat
    requires AllDigits(s)
  {
    if s == "" then 0 else 10 * DecimalValue(s[..|s| - 1]) + (s[|s| - 1] as int - '0' as int)
  }

  /** `str::parse::<u32>`: an optional plus sign, at least one digit, no overflow. */
  function ParseU32(s: string): (r: Option<nat>)
    ensures r.Some? ==> r.value <= U32_MAX
  {
    var digits := if |s| > 1 && s[0] == '+' then s[1..] else s;
    if digits != "" && AllDigits(digits) && DecimalValue(digits) <= U32_MAX then Some(DecimalValue(digits)) else None
  }

  /** Exactly what parses: digits after at most one plus sign, up to 2^32 - 1. */
  lemma ParseU32Iff(s: string, n: nat)
    ensures ParseU32(s) == Some(n) <==>
            exists digits: string ::
              digits != "" && AllDigits(digits) && (s == digits || s == "+" + digits) && DecimalValue(digits) == n && n <= 4_294_967_295
  {
    hide DecimalValue;
    if ParseU32(s) == Some(n) {
      var digits := if |s| > 1 && s[0] == '+' then s[1..] else s;
      assert s == digits || s == "+" + digits;
    }
    if digits: string :| digits != "" && AllDigits(digits) && (s == digits || s == "+" + digits) && DecimalValue(digits) == n && n <= 4_294_967_295 {
      if s == "+" + digits {
        assert s[1..] == digits;
      } else {
        assert IsDigit(digits[0]);
      }
    }
  }

  /** The number an href such as `9/` names. */
  function DirNumber(href: string): Option<nat> {
    if EndsWith(href, "/") then ParseU32(href[..|href| - 1]) else None
  }

  ghost predicate IsMaxOf(m: Option<nat>, hrefs: seq<string>) {
    && (m.None? <==> forall h | h in hrefs :: DirNumber(h).None?)
    && (m.Some? ==> exists h | h in hrefs :: DirNumber(h) == m)
    && (m.Some? ==> forall h | h in hrefs && DirNumber(h).Some? :: DirNumber(h).value <= m.value)
  }

  /** `parse_highest_numeric_subdir`. */
  method ParseHighestNumericSubdir(html: string) returns (maxN: Option<nat>)
    ensures IsMaxOf(maxN, Hrefs(html))
  {
    hide FindFrom, Tokens, DirNumber;
    maxN := None;
    var pos := 0;
    ghost var seen: seq<string> := [];
    var next := FindFrom(html, HREF, pos);
    while next.Some?
      invariant 0 <= pos <= |html|
      invariant next == FindFrom(html, HREF, pos)
      invariant Hrefs(html) == seen + Tokens(html, pos, Outside)
      invariant IsMaxOf(maxN, seen)
      decreases |html| - pos
    {
      NextHref(html, pos);
      var after := next.value + |HREF|;
      var end := FindFrom(html, "\"", after);
      if end.None? {
        assert Hrefs(html) == seen;
        return;
      }
      var candidate := html[after..end.value];
      var n := DirNumber(candidate);
      MaxOfOneMore(maxN, seen, candidate);
      if n.Some? {
        maxN := Some(if maxN.Some? && maxN.value > n.value then maxN.value else n.value);
      }
      seen := seen + [candidate];
      pos := end.value + 1;
      next := FindFrom(html, HREF, pos);
    }
    NextHref(html, pos);
    assert Hrefs(html) == seen;
  }

  lemma MaxOfOneMore(m: Option<nat>, hrefs: seq<string>, h: string)
    requires IsMaxOf(m, hrefs)
    ensures var n := DirNumber(h);
            IsMaxOf(if n.None? then m
                    else Some(if m.Some? && m.value > n.value then m.value else n.value), hrefs + [h])
  {
    hide DirNumber;
    assert forall x :: x in hrefs + [h] <==> x in hrefs || x == h;
    assert h in hrefs + [h];
    if m.Some? {
      var x :| x in hrefs && DirNumber(x) == m;
      assert x in hrefs + [h];
    }
  }
}
