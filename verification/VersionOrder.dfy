/**
  Versions compared as numbers, and exactly when the resolvers' two ways of
  picking, by text and by (major, minor) key, pick a greatest version.
*/
module VersionOrder {
  import opened Wrappers
  import opened Strings
  import opened ListingScanner
  import opened Resolvers

  // ---- versions as numbers -------------------------------------------------------

  ghost predicate DigitPieces(pieces: seq<string>) {
    forall i :: 0 <= i < |pieces| ==> AllDigits(pieces[i])
  }

  lemma {:induction false} PiecesAreDigits(v: string)
    requires AllVersion(v)
    ensures DigitPieces(Split(v, '.'))
  {
    if v != "" {
      PiecesAreDigits(v[1..]);
    }
  }

  function Values(pieces: seq<string>): (r: seq<nat>)
    requires DigitPieces(pieces)
    ensures |r| == |pieces|
    ensures forall i :: 0 <= i < |r| ==> r[i] == DecimalValue(pieces[i])
  {
    seq(|pieces|, i requires 0 <= i < |pieces| => DecimalValue(pieces[i]))
  }

  /** The numbers between the dots; an empty piece is zero. */
  function Numbers(v: string): (r: seq<nat>)
    requires AllVersion(v)
  {
    PiecesAreDigits(v);
    Values(Split(v, '.'))
  }

  /** A missing component is zero, so 22 and 22.0 are the same version. */
  function At(a: seq<nat>, i: nat): nat {
    if i < |a| then a[i] else 0
  }

  ghost predicate FirstGap(a: seq<nat>, b: seq<nat>, i: nat) {
    At(a, i) < At(b, i) && forall j: nat :: j < i ==> At(a, j) == At(b, j)
  }

  ghost predicate Below(a: seq<nat>, b: seq<nat>) {
    exists i: nat :: FirstGap(a, b, i)
  }

  ghost predicate VersionBelow(v: string, w: string)
    requires AllVersion(v) && AllVersion(w)
  {
    Below(Numbers(v), Numbers(w))
  }

  /** No listed version is numerically above `m`. */
  ghost predicate Greatest(m: string, versions: seq<string>)
    requires forall v | v in versions :: AllVersion(v)
  {
    m in versions && forall v | v in versions :: !VersionBelow(m, v)
  }

  /** The first position below `n` where `a` and `b` differ, or `n`. */
  lemma {:induction false} FirstDifference(a: seq<nat>, b: seq<nat>, n: nat) returns (k: nat)
    ensures k <= n && forall j: nat :: j < k ==> At(a, j) == At(b, j)
    ensures k < n ==> At(a, k) != At(b, k)
  {
    if n == 0 {
      k := 0;
    } else {
      k := FirstDifference(a, b, n - 1);
      if k == n - 1 && At(a, k) == At(b, k) { k := n; }
    }
  }

  lemma BelowIsTransitive(a: seq<nat>, b: seq<nat>, c: seq<nat>)
    requires Below(a, b) && Below(b, c)
    ensures Below(a, c)
  {
    var i: nat :| FirstGap(a, b, i);
    var k: nat :| FirstGap(b, c, k);
    assert FirstGap(a, c, if i < k then i else k);
  }

  lemma BelowIsStrict(a: seq<nat>, b: seq<nat>)
    ensures !(Below(a, b) && Below(b, a)) && !Below(a, a)
  {
    forall i: nat, k: nat ensures !(FirstGap(a, b, i) && FirstGap(b, a, k)) {}
  }

  /** A third version is above the lower or below the higher of two. */
  lemma BelowSplits(a: seq<nat>, b: seq<nat>, c: seq<nat>)
    requires Below(a, c)
    ensures Below(a, b) || Below(b, c)
  {
    var i: nat :| FirstGap(a, c, i);
    var k := FirstDifference(a, b, i);
    assert FirstGap(a, b, k) || FirstGap(b, c, k);
  }

  /** Versions of which neither is below the other have the same numbers. */
  lemma NeitherBelow(a: seq<nat>, b: seq<nat>, i: nat)
    requires !Below(a, b) && !Below(b, a)
    ensures At(a, i) == At(b, i)
  {
    if At(a, i) != At(b, i) { DifferentIsBelow(a, b, i); }
  }

  lemma DifferentIsBelow(a: seq<nat>, b: seq<nat>, i: nat)
    requires At(a, i) != At(b, i)
    ensures Below(a, b) || Below(b, a)
  {
    var k := FirstDifference(a, b, i + 1);
    assert FirstGap(a, b, k) || FirstGap(b, a, k);
  }

  lemma {:induction false} GreatestExists(versions: seq<string>) returns (g: string)
    requires versions != [] && forall v | v in versions :: AllVersion(v)
    ensures Greatest(g, versions)
  {
    hide Below, Numbers;
    var n := |versions| - 1;
    assert versions == versions[..n] + [versions[n]];
    BelowIsStrict(Numbers(versions[n]), Numbers(versions[n]));
    if n == 0 {
      g := versions[0];
    } else {
      g := GreatestExists(versions[..n]);
      if VersionBelow(g, versions[n]) {
        forall v | v in versions[..n] ensures !VersionBelow(versions[n], v) {
          if VersionBelow(versions[n], v) { BelowIsTransitive(Numbers(g), Numbers(versions[n]), Numbers(v)); }
        }
        g := versions[n];
      }
    }
  }

  // ---- text order, component by component --------------------------------------------

  /** Digits, then nothing or a dot: the digits decide, because `.` is below them. */
  lemma {:induction false} DigitsDecide(x: string, y: string, u: string, w: string)
    requires AllDigits(x) && AllDigits(y) && x != y
    requires (u == "" || u[0] == '.') && (w == "" || w[0] == '.')
    ensures Less(x + u, y + w) <==> Less(x, y)
  {
    if x != "" && y != "" {
      assert (x + u)[1..] == x[1..] + u && (y + w)[1..] == y[1..] + w;
      if x[0] == y[0] {
        assert x == [x[0]] + x[1..] && y == [y[0]] + y[1..];
        DigitsDecide(x[1..], y[1..], u, w);
      }
    } else if x == "" {
      assert x + u == u && IsDigit(y[0]);
    } else {
      assert y + w == w && IsDigit(x[0]);
    }
  }

  /** The first component two versions spell differently decides their text order. */
  lemma {:induction false} DecidedAt(a: seq<string>, b: seq<string>, i: nat)
    requires DigitPieces(a) && DigitPieces(b)
    requires i < |a| && i < |b| && a[..i] == b[..i] && a[i] != b[i]
    ensures Less(Join(a, '.'), Join(b, '.')) <==> Less(a[i], b[i])
  {
    var u, w := AfterFirst(a), AfterFirst(b);
    if i == 0 {
      DigitsDecide(a[0], b[0], u, w);
    } else {
      assert a[0] == a[..i][0] == b[0];
      assert a[1..][..i - 1] == a[..i][1..] == b[1..][..i - 1];
      DecidedAt(a[1..], b[1..], i - 1);
      LessIsTotal(a[0], a[0]);
      LessAppend(a[0], b[0], u, w);
      LessAppend(".", ".", Join(a[1..], '.'), Join(b[1..], '.'));
      LessIsTotal(".", ".");
    }
  }

  function AfterFirst(a: seq<string>): (r: string)
    requires a != []
    ensures r == "" || r[0] == '.'
    ensures Join(a, '.') == a[0] + r
    ensures |a| > 1 ==> r == "." + Join(a[1..], '.')
  {
    if |a| == 1 then "" else "." + Join(a[1..], '.')
  }

  /** A version that another one continues sorts below it. */
  lemma PrefixSortsBelow(a: seq<string>, b: seq<string>)
    requires 0 < |a| < |b| && b[..|a|] == a
    ensures Less(Join(a, '.'), Join(b, '.'))
  {
    var s, rest := Join(a, '.'), b[|a|..];
    assert b == a + rest;
    JoinAppend(a, rest, '.');
    assert s + "" == s && Join(b, '.') == s + ("." + Join(rest, '.'));
    LessAppend(s, s, "", "." + Join(rest, '.'));
  }

  // ---- when text order and numeric order disagree ---------------------------------------

  /** Written without leading zeros. */
  predicate Canonical(x: string) {
    x == "0" || (x != "" && x[0] != '0')
  }

  /** Components at one position have one width or no leading zeros. */
  ghost predicate SpelledAlike(a: seq<string>, b: seq<string>) {
    forall i :: 0 <= i < |a| && i < |b| ==> |a[i]| == |b[i]| || (Canonical(a[i]) && Canonical(b[i]))
  }

  /** The first component that differs is shorter in `a`, and yet sorts higher. */
  predicate OutsortsAt(a: seq<string>, b: seq<string>, i: nat) {
    i < |a| && i < |b| && a[..i] == b[..i] && |a[i]| < |b[i]| && Less(b[i], a[i])
  }

  ghost predicate Outsorts(v: string, w: string) {
    exists i: nat :: OutsortsAt(Split(v, '.'), Split(w, '.'), i)
  }

  lemma {:induction false} DigitsCompareNumerically(a: string, b: string)
    requires |a| == |b| && AllDigits(a) && AllDigits(b)
    ensures Less(a, b) <==> DecimalValue(a) < DecimalValue(b)
    ensures a == b <==> DecimalValue(a) == DecimalValue(b)
  {
    if a != "" {
      var n := |a| - 1;
      DigitsCompareNumerically(a[..n], b[..n]);
      assert a == a[..n] + [a[n]] && b == b[..n] + [b[n]];
      LessAppend(a[..n], b[..n], [a[n]], [b[n]]);
    }
  }

  lemma {:induction false} WiderIsGreater(x: string, y: string)
    requires AllDigits(x) && AllDigits(y) && |x| < |y| && y[0] != '0'
    ensures DecimalValue(x) < DecimalValue(y)
  {
    var m := |y| - 1;
    if m == 0 {
      assert y[..0] == "";
    } else if x == "" {
      WiderIsGreater("", y[..m]);
    } else {
      WiderIsGreater(x[..|x| - 1], y[..m]);
    }
  }

  /** Two components with one width or none with leading zeros. */
  lemma ComponentsCompare(x: string, y: string)
    requires AllDigits(x) && AllDigits(y) && (|x| == |y| || (Canonical(x) && Canonical(y)))
    ensures DecimalValue(x) == DecimalValue(y) <==> x == y
    ensures DecimalValue(x) < DecimalValue(y) && Less(y, x) <==> |x| < |y| && Less(y, x)
  {
    hide DecimalValue, Less;
    if |x| == |y| {
      DigitsCompareNumerically(x, y);
      DigitsCompareNumerically(y, x);
    } else if |x| < |y| {
      WiderIsGreater(x, y);
    } else {
      WiderIsGreater(y, x);
    }
  }

  /** Up to a position where the numbers agree, the spellings agree. */
  lemma SameNumbersSameText(a: seq<string>, b: seq<string>, i: nat)
    requires DigitPieces(a) && DigitPieces(b) && SpelledAlike(a, b) && i <= |a| && i <= |b|
    requires forall j: nat :: j < i ==> At(Values(a), j) == At(Values(b), j)
    ensures a[..i] == b[..i]
  {
    hide DecimalValue, Less, Canonical;
    forall j: nat | j < i ensures a[j] == b[j] {
      assert At(Values(a), j) == At(Values(b), j);
      ComponentsCompare(a[j], b[j]);
    }
  }

  lemma DisagreementOfPieces(a: seq<string>, b: seq<string>)
    requires DigitPieces(a) && DigitPieces(b) && SpelledAlike(a, b) && a != [] && b != []
    ensures Less(Join(b, '.'), Join(a, '.')) && Below(Values(a), Values(b)) <==> exists i: nat :: OutsortsAt(a, b, i)
  {
    hide Less, DecimalValue, Canonical, Join;
    if Less(Join(b, '.'), Join(a, '.')) && Below(Values(a), Values(b)) {
      var i: nat :| FirstGap(Values(a), Values(b), i);
      assert i < |b|;
      if i < |a| {
        SameNumbersSameText(a, b, i);
        ComponentsCompare(a[i], b[i]);
        DecidedAt(b, a, i);
        assert OutsortsAt(a, b, i);
      } else {
        SameNumbersSameText(a, b, |a|);
        assert a[..|a|] == a;
        PrefixSortsBelow(a, b);
        LessIsTotal(Join(a, '.'), Join(b, '.'));
      }
    }
    if exists i: nat :: OutsortsAt(a, b, i) {
      var i: nat :| OutsortsAt(a, b, i);
      ComponentsCompare(a[i], b[i]);
      DecidedAt(b, a, i);
      assert forall j: nat :: j < i ==> a[j] == a[..i][j] == b[..i][j] == b[j];
      assert FirstGap(Values(a), Values(b), i);
    }
  }

  /** Exactly when a version sorts above another one that is numerically above it. */
  lemma DisagreementIff(v: string, w: string)
    requires AllVersion(v) && AllVersion(w) && SpelledAlike(Split(v, '.'), Split(w, '.'))
    ensures Less(w, v) && VersionBelow(v, w) <==> Outsorts(v, w)
  {
    hide Less, Split, Below, OutsortsAt;
    PiecesAreDigits(v);
    PiecesAreDigits(w);
    JoinOfSplit(v, '.');
    JoinOfSplit(w, '.');
    DisagreementOfPieces(Split(v, '.'), Split(w, '.'));
  }

  ghost predicate Versions(versions: seq<string>) {
    && (forall v | v in versions :: AllVersion(v))
    && (forall v, w | v in versions && w in versions :: SpelledAlike(Split(v, '.'), Split(w, '.')))
  }

  /** A version equal to `g` as a number is outsorted by whatever outsorts `g`. */
  lemma OutsortsEqual(v: string, g: string, m: string)
    requires AllVersion(v) && AllVersion(g) && AllVersion(m) && Outsorts(v, g)
    requires SpelledAlike(Split(v, '.'), Split(g, '.')) && SpelledAlike(Split(m, '.'), Split(g, '.'))
    requires !VersionBelow(m, g) && !VersionBelow(g, m)
    ensures Outsorts(v, m)
  {
    hide Split, Less, DecimalValue, Canonical, Below;
    PiecesAreDigits(v);
    PiecesAreDigits(g);
    PiecesAreDigits(m);
    var a, b, c := Split(v, '.'), Split(g, '.'), Split(m, '.');
    var i: nat :| OutsortsAt(a, b, i);
    ComponentsCompare(a[i], b[i]);
    forall j: nat ensures At(Values(c), j) == At(Values(b), j) { NeitherBelow(Values(c), Values(b), j); }
    assert At(Values(b), i) > 0 && At(Values(c), i) == At(Values(b), i);
    SameNumbersSameText(c, b, i + 1);
    assert c[..i + 1][..i] == c[..i] && b[..i + 1][..i] == b[..i] && c[i] == c[..i + 1][i] == b[i];
    assert OutsortsAt(a, c, i);
  }

  /**
    The version picked by text is a greatest version if and only if nothing listed
    outsorts a greatest one.
  */
  lemma LatestIsNumericMaximumIff(versions: seq<string>, g: string)
    requires Versions(versions) && Greatest(g, versions)
    ensures Latest(versions).Some?
    ensures Greatest(Latest(versions).value, versions) <==> forall v | v in versions :: !Outsorts(v, g)
  {
    hide Latest, Less, Split, Below, Numbers, Outsorts;
    var m := Latest(versions).value;
    forall v | v in versions && Outsorts(v, g) ensures !Greatest(m, versions) {
      if Greatest(m, versions) {
        OutsortsEqual(v, g, m);
        DisagreementIff(v, m);
        LessIsTotal(v, m);
      }
    }
    if !Greatest(m, versions) {
      var x :| x in versions && VersionBelow(m, x);
      BelowSplits(Numbers(m), Numbers(g), Numbers(x));
      BelowIsStrict(Numbers(m), Numbers(m));
      DisagreementIff(m, g);
      assert Outsorts(m, g);
    }
  }

  /** All versions have equal widths at every position. */
  ghost predicate Uniform(versions: seq<string>) {
    && (forall v | v in versions :: AllVersion(v))
    && forall v, w, i: nat | v in versions && w in versions && i < |Split(v, '.')| && i < |Split(w, '.')| ::
         |Split(v, '.')[i]| == |Split(w, '.')[i]|
  }

  /** Then the pick is a greatest version, leading zeros or not. */
  lemma UniformLatestIsGreatest(versions: seq<string>)
    requires Uniform(versions) && versions != []
    ensures Greatest(Latest(versions).value, versions)
  {
    hide Latest, Less, Split, Below, Numbers;
    var g := GreatestExists(versions);
    LatestIsNumericMaximumIff(versions, g);
  }

  /** A witness that widths matter: 9 is picked over 10, which it outsorts. */
  lemma NineBeatsTen()
    ensures Latest(["9", "10"]) == Some("9")
    ensures AllVersion("9") && AllVersion("10") && VersionBelow("9", "10") && Outsorts("9", "10")
  {
    hide Latest, Split;
    var m := Latest(["9", "10"]);
    assert "9" in ["9", "10"];
    assert "10"[0] < "9"[0] && Less("10", "9");
    LessIsTotal("9", "10");
    SplitOne("9");
    SplitOne("10");
    assert OutsortsAt(["9"], ["10"], 0);
    DisagreementIff("9", "10");
  }

  lemma SplitOne(v: string)
    requires AllDigits(v)
    ensures Split(v, '.') == [v]
  {
    assert Join([v], '.') == v;
    SplitOfJoin([v], '.');
  }

  // ---- Linux Mint ------------------------------------------------------------------------------

  /** What `parse_versioned_subdirs` returns for major `22`. */
  ghost predicate MintDir(v: string) {
    v == "22" || exists d :: AllVersion(d) && v == MintName(d)
  }

  function MintName(d: string): string {
    "22." + d
  }

  lemma {:induction false} ListedDirsAreMintDirs(hrefs: seq<string>)
    ensures forall v | v in VersionDirs(hrefs, "22") :: MintDir(v)
  {
    if hrefs != [] {
      ListedDirsAreMintDirs(hrefs[1..]);
      var h := hrefs[0];
      if h == "22" + "/" {
        assert h[..|h| - 1] == "22";
      } else if IsVersionDir(h, "22") {
        var d :| AllVersion(d) && h == VersionDir("22", d);
        assert h[..|h| - 1] == MintName(d);
      }
    }
  }

  lemma TwentyTwo()
    ensures DecimalValue("22") == 22
  {
    assert "22"[..1] == "2" && "2"[..0] == "";
    assert DecimalValue("2") == 2;
  }

  /** `22` and a tail, split at the first dot and at every dot. */
  lemma MintNameSplits(d: string)
    ensures Find(MintName(d), ".") == Some(2)
    ensures MintName(d)[..2] == "22" && MintName(d)[3..] == d
    ensures Split(MintName(d), '.') == ["22"] + Split(d, '.')
  {
    hide FindFrom, Split;
    var v := MintName(d);
    assert v[2..3] == ".";
    assert OccursAt(v, ".", 2);
    forall j | 0 <= j < 2 ensures !OccursAt(v, ".", j) {
      assert v[j..j + 1][0] == v[j];
    }
    SplitOne("22");
    SplitAppend("22", d, '.');
    assert "22" + ['.'] + d == v;
  }

  lemma NoDotInTwentyTwo()
    ensures Find("22", ".").None?
  {
    hide FindFrom;
    forall j ensures !OccursAt("22", ".", j) {
      if 0 <= j < 2 { assert "22"[j..j + 1][0] == '2'; }
    }
  }

  /** `22` or `22.k` with `k` one number that fits `u32`. */
  ghost predicate Simple(v: string)
    requires AllVersion(v)
  {
    |Numbers(v)| <= 2 && At(Numbers(v), 1) <= U32_MAX
  }

  lemma {:induction false} OnePieceIff(d: string)
    requires AllVersion(d)
    ensures |Split(d, '.')| == 1 <==> AllDigits(d)
    ensures AllDigits(d) ==> Split(d, '.') == [d]
  {
    JoinOfSplit(d, '.');
    PiecesAreDigits(d);
    if AllDigits(d) { SplitOne(d); }
  }

  /** The key a directory competes with: its minor number if it is simple, and zero otherwise. */
  lemma MintKeyIs(v: string)
    requires MintDir(v)
    ensures AllVersion(v) && |Numbers(v)| > 0 && Numbers(v)[0] == 22
    ensures KeyOf(v) == MintKey(22, if Simple(v) then At(Numbers(v), 1) else 0)
  {
    hide FindFrom, Find, DecimalValue, Split, U32_MAX;
    TwentyTwo();
    if v == "22" {
      SplitOne("22");
      NoDotInTwentyTwo();
      EmptyIsZero();
    } else {
      var d :| AllVersion(d) && v == MintName(d);
      MintNameSplits(d);
      OnePieceIff(d);
      PiecesAreDigits(d);
      MintMinor(d);
      MintNumbers(d);
    }
  }

  lemma MintNumbers(d: string)
    requires AllVersion(d)
    ensures AllVersion(MintName(d)) && |Numbers(MintName(d))| == 1 + |Split(d, '.')| && Numbers(MintName(d))[0] == 22
    ensures DigitPieces(Split(d, '.')) && Numbers(MintName(d))[1] == DecimalValue(Split(d, '.')[0])
  {
    hide DecimalValue, Split;
    TwentyTwo();
    MintNameSplits(d);
    PiecesAreDigits(d);
  }

  lemma EmptyIsZero()
    ensures DecimalValue("") == 0 && ParseOrZero("22") == 22
  {
    TwentyTwo();
  }

  /** The number after the first dot: what one number that fits `u32` says, and zero otherwise. */
  lemma MintMinor(d: string)
    requires AllVersion(d)
    ensures KeyOf(MintName(d)) ==
            MintKey(22, if AllDigits(d) && DecimalValue(d) <= U32_MAX then DecimalValue(d) else 0)
  {
    hide FindFrom, Find, DecimalValue, Split;
    MintNameSplits(d);
    EmptyIsZero();
  }

  /** `22`, or `22.k` with `k` one number that fits `u32`, as a name. */
  ghost predicate SimpleName(v: string) {
    v == "22" || exists d :: AllDigits(d) && DecimalValue(d) <= U32_MAX && v == MintName(d)
  }

  lemma SimpleNameIs(v: string)
    ensures SimpleName(v) <==> MintDir(v) && AllVersion(v) && Simple(v)
  {
    hide DecimalValue, KeyOf, Split;
    if v == "22" {
      SplitOne("22");
    } else if d :| AllVersion(d) && v == MintName(d) {
      MintNumbers(d);
      OnePieceIff(d);
      MintNameSplits(d);
      forall e | v == MintName(e) ensures e == d { MintNameSplits(e); }
    }
  }

  /** Over every listing of `22` and `22.k`, the pick has the greatest `k`, compared as a number. */
  lemma MintPicksGreatestMinor(candidates: seq<string>)
    requires candidates != [] && forall w | w in candidates :: SimpleName(w)
    ensures MaxByKey(candidates).Some? && MaxByKey(candidates).value in candidates
    ensures forall w | w in candidates :: AllVersion(w)
    ensures forall w | w in candidates :: At(Numbers(w), 1) <= At(Numbers(MaxByKey(candidates).value), 1)
  {
    hide KeyOf, Numbers, MintDir, MaxByKey, SimpleName, Simple;
    forall w | w in candidates ensures MintDir(w) && AllVersion(w) && Simple(w) { SimpleNameIs(w); }
    var pick := MaxByKey(candidates).value;
    PickDominates(candidates);
    MintKeyIs(pick);
    forall w | w in candidates ensures At(Numbers(w), 1) <= At(Numbers(pick), 1) { MintKeyIs(w); }
  }

  lemma PickDominates(candidates: seq<string>)
    requires candidates != []
    ensures MaxByKey(candidates).Some? && MaxByKey(candidates).value in candidates
    ensures forall v | v in candidates :: KeyAtMost(KeyOf(v), KeyOf(MaxByKey(candidates).value))
  {
    hide KeyOf, MaxByKey;
    var pick := MaxByKey(candidates).value;
    var i: nat :| IsLastMaximum(i, candidates) && candidates[i] == pick;
    forall v | v in candidates ensures KeyAtMost(KeyOf(v), KeyOf(pick)) {
      var j :| 0 <= j < |candidates| && candidates[j] == v;
    }
  }

  ghost predicate MintListing(candidates: seq<string>) {
    candidates != [] && forall v | v in candidates :: MintDir(v) && AllVersion(v)
  }

  lemma MintDirsAreVersions(candidates: seq<string>)
    requires candidates != [] && forall v | v in candidates :: MintDir(v)
    ensures MintListing(candidates)
  {
    forall v | v in candidates ensures AllVersion(v) { MintKeyIs(v); }
  }

  /** In every order the directories are listed, a greatest version is picked. */
  ghost predicate AlwaysPicksGreatest(candidates: seq<string>)
    requires MintListing(candidates)
  {
    forall listing: seq<string> | multiset(listing) == multiset(candidates) ::
      MaxByKey(listing).Some? && Greatest(MaxByKey(listing).value, candidates)
  }

  /** A pick whose key reaches that of a simple greatest version is a greatest version. */
  lemma SimpleGreatestWins(candidates: seq<string>, g: string, pick: string)
    requires MintListing(candidates) && Greatest(g, candidates) && Simple(g)
    requires pick in candidates && KeyAtMost(KeyOf(g), KeyOf(pick))
    ensures Greatest(pick, candidates)
  {
    hide KeyOf, Numbers, MintDir;
    MintKeyIs(g);
    MintKeyIs(pick);
    var a, b := Numbers(pick), Numbers(g);
    assert !Below(b, a);
    forall i: nat ensures !FirstGap(a, b, i) {}
    forall v | v in candidates ensures !VersionBelow(pick, v) {
      if Below(a, Numbers(v)) { BelowSplits(a, b, Numbers(v)); }
    }
  }

  /** Listed last, a lesser version is picked over greatest ones that are not simple. */
  lemma LesserWins(candidates: seq<string>, v: string)
    requires MintListing(candidates) && v in candidates && !Greatest(v, candidates)
    requires forall g | g in candidates && Greatest(g, candidates) :: !Simple(g)
    ensures !AlwaysPicksGreatest(candidates)
  {
    hide KeyOf, MintDir, MaxByKey, Greatest;
    var k :| 0 <= k < |candidates| && candidates[k] == v;
    var listing := candidates[..k] + candidates[k + 1..] + [v];
    MovedToEnd(candidates, k);
    PickDominates(listing);
    var pick := MaxByKey(listing).value;
    var i: nat :| IsLastMaximum(i, listing) && listing[i] == pick;
    assert pick in multiset(listing) && v in multiset(listing);
    MintKeyIs(pick);
    MintKeyIs(v);
    if Greatest(pick, candidates) {
      assert KeyAtMost(KeyOf(pick), KeyOf(v)) by { assert KeyAtMost(KeyOf(v), KeyOf(pick)); }
      LastOfEqualKeys(listing, i);
    }
  }

  lemma LastOfEqualKeys(listing: seq<string>, i: nat)
    requires IsLastMaximum(i, listing) && KeyAtMost(KeyOf(listing[i]), KeyOf(listing[|listing| - 1]))
    ensures listing[i] == listing[|listing| - 1]
  {
    hide KeyOf, KeyAtMost;
  }

  lemma MovedToEnd(s: seq<string>, k: nat)
    requires k < |s|
    ensures multiset(s[..k] + s[k + 1..] + [s[k]]) == multiset(s)
  {
    assert s == s[..k] + [s[k]] + s[k + 1..];
  }

  /**
    A greatest version (22 and 22.0 counted equal) is picked in every listing order
    if and only if some greatest directory is `22` or `22.k` with one number that
    fits `u32`, or all directories are equal versions.
  */
  lemma MintPicksGreatestIff(candidates: seq<string>)
    requires candidates != [] && forall v | v in candidates :: MintDir(v)
    ensures MintListing(candidates)
    ensures AlwaysPicksGreatest(candidates) <==>
            || (exists g | g in candidates :: Greatest(g, candidates) && Simple(g))
            || (forall v | v in candidates :: Greatest(v, candidates))
  {
    hide KeyOf, MintDir, MaxByKey, Greatest, Simple;
    MintDirsAreVersions(candidates);
    if g :| g in candidates && Greatest(g, candidates) && Simple(g) {
      forall listing: seq<string> | multiset(listing) == multiset(candidates)
        ensures MaxByKey(listing).Some? && Greatest(MaxByKey(listing).value, candidates)
      {
        ReorderedPick(candidates, listing, g);
        SimpleGreatestWins(candidates, g, MaxByKey(listing).value);
      }
    } else if v :| v in candidates && !Greatest(v, candidates) {
      LesserWins(candidates, v);
    } else {
      forall listing: seq<string> | multiset(listing) == multiset(candidates)
        ensures MaxByKey(listing).Some? && Greatest(MaxByKey(listing).value, candidates)
      {
        ReorderedPick(candidates, listing, candidates[0]);
      }
    }
  }

  lemma ReorderedPick(candidates: seq<string>, listing: seq<string>, g: string)
    requires multiset(listing) == multiset(candidates) && g in candidates
    ensures MaxByKey(listing).Some? && MaxByKey(listing).value in candidates
    ensures KeyAtMost(KeyOf(g), KeyOf(MaxByKey(listing).value))
  {
    hide KeyOf, MaxByKey;
    assert g in multiset(listing);
    PickDominates(listing);
    assert MaxByKey(listing).value in multiset(candidates);
  }

  /** A witness that a third component ranks as zero: 22.1 is picked over 22.3.1. */
  lemma MintPointReleaseLoses()
    ensures MaxByKey(["22.3.1", "22.1"]) == Some("22.1")
    ensures AllVersion("22.1") && AllVersion("22.3.1") && VersionBelow("22.1", "22.3.1")
  {
    hide KeyOf, MaxByKey, Numbers, DecimalValue;
    assert "22.3.1" == MintName("3.1") && "22.1" == MintName("1");
    OneAndThree();
    TwoKeys("22.3.1", "22.1");
    MintNumbers("3.1");
    MintNumbers("1");
    assert FirstGap(Numbers("22.1"), Numbers("22.3.1"), 1);
  }

  /** Of two directories the one listed last wins unless its key is smaller. */
  lemma TwoKeys(v: string, w: string)
    ensures KeyAtMost(KeyOf(v), KeyOf(w)) ==> MaxByKey([v, w]) == Some(w)
  {
    hide KeyOf, MaxByKey;
    var i: nat :| IsLastMaximum(i, [v, w]) && [v, w][i] == MaxByKey([v, w]).value;
    assert [v, w][0] == v && [v, w][1] == w;
  }

  lemma OneAndThree()
    ensures DecimalValue("1") == 1
    ensures Split("1", '.') == ["1"] && Split("3.1", '.')[0] == "3" && DecimalValue("3") == 3
    ensures KeyOf(MintName("3.1")) == MintKey(22, 0) && KeyOf(MintName("1")) == MintKey(22, 1)
  {
    hide KeyOf;
    assert "1"[..0] == "" && "3"[..0] == "";
    SplitOne("1");
    SplitOne("3");
    SplitAppend("3", "1", '.');
    assert "3" + ['.'] + "1" == "3.1";
    assert !IsDigit("3.1"[1]);
    MintMinor("3.1");
    MintMinor("1");
  }
}
