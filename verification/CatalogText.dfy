/**
  `rewrite_entry_urls`: the three URL fields of one catalog entry are replaced
  inside the program text of the catalog.  `RewriteEntryUrls` is the code, on
  characters.  `RewriteLines` says what it does to a list of lines, and
  `RewriteIsLineRewrite` proves the two agree on every text whatsoever.
*/
module CatalogText {
  import opened Wrappers
  import opened Strings

  datatype ResolvedUrls = ResolvedUrls(isoUrl: string, sha256Url: string, sigUrl: string)

  datatype RewriteError = SlugNotFound | EntryStartNotFound | EntryEndNotFound

  const ENTRY_OPEN := "Entry {"
  const ENTRY_CLOSE := "    },"
  const ISO_PREFIX := "        iso_url: \""
  const SHA_PREFIX := "        sha256_url: \""
  const SIG_PREFIX := "        sig_url: \""

  function Needle(slug: string): (n: string) {
    "slug: \"" + slug + "\""
  }

  /** `line.strip_suffix('\r')`, applied by `str::lines` to terminated lines. */
  function StripCr(line: string): string {
    if |line| > 0 && line[|line| - 1] == '\r' then line[..|line| - 1] else line
  }

  /** `str::lines`: no final empty line, and no carriage return before a newline. */
  function RustLines(s: string): seq<string> {
    var pieces := Split(s, '\n');
    var n := |pieces| - 1;
    StripAll(pieces[..n]) + if pieces[n] == "" then [] else [pieces[n]]
  }

  function StripAll(lines: seq<string>): (r: seq<string>)
    ensures |r| == |lines|
  {
    if lines == [] then [] else [StripCr(lines[0])] + StripAll(lines[1..])
  }

  predicate IsUrlLine(line: string) {
    StartsWith(line, ISO_PREFIX) || StartsWith(line, SHA_PREFIX) || StartsWith(line, SIG_PREFIX)
  }

  function RewriteLine(line: string, live: ResolvedUrls): string {
    if StartsWith(line, ISO_PREFIX) then ISO_PREFIX + live.isoUrl + "\","
    else if StartsWith(line, SHA_PREFIX) then SHA_PREFIX + live.sha256Url + "\","
    else if StartsWith(line, SIG_PREFIX) then SIG_PREFIX + live.sigUrl + "\","
    else line
  }

  function RewriteAll(lines: seq<string>, live: ResolvedUrls): (r: seq<string>)
    ensures |r| == |lines|
  {
    if lines == [] then [] else [RewriteLine(lines[0], live)] + RewriteAll(lines[1..], live)
  }

  lemma {:induction false} RewriteAllAppend(a: seq<string>, b: seq<string>, live: ResolvedUrls)
    ensures RewriteAll(a + b, live) == RewriteAll(a, live) + RewriteAll(b, live)
  {
    if a == [] {
      assert a + b == b;
    } else {
      assert (a + b)[1..] == a[1..] + b;
      RewriteAllAppend(a[1..], b, live);
    }
  }

  /** The code: search, slice, rewrite the slice line by line, splice it back. */
  function RewriteEntryUrls(source: string, slug: string, live: ResolvedUrls): Result<string, RewriteError> {
    match Find(source, Needle(slug))
    case None => Err(SlugNotFound)
    case Some(start) =>
      match RFind(source[..start], ENTRY_OPEN)
      case None => Err(EntryStartNotFound)
      case Some(blockStart) =>
        match Find(source[start..], "\n" + ENTRY_CLOSE)
        case None => Err(EntryEndNotFound)
        case Some(endRel) =>
          var blockEnd := start + endRel + |ENTRY_CLOSE| + 1;
          var block := source[blockStart..blockEnd];
          Ok(source[..blockStart] + Join(RewriteAll(RustLines(block), live), '\n') + source[blockEnd..])
  }

  // ---- the same thing said about lines ---------------------------------------

  /** Index of the first line that contains `n`. */
  function FirstContaining(lines: seq<string>, n: string): (r: Option<nat>)
    ensures r.Some? ==> r.value < |lines| && Contains(lines[r.value], n)
  {
    if |lines| == 0 then None
    else if Contains(lines[0], n) then Some(0)
    else Shift(FirstContaining(lines[1..], n), 1)
  }

  /** Index of the last line that contains `n`. */
  function LastContaining(lines: seq<string>, n: string): (r: Option<nat>)
    ensures r.Some? ==> r.value < |lines| && Contains(lines[r.value], n)
  {
    if |lines| == 0 then None
    else
      var inRest := LastContaining(lines[1..], n);
      if inRest.Some? then Shift(inRest, 1)
      else if Contains(lines[0], n) then Some(0)
      else None
  }

  /** Index of the first line that starts with `n`. */
  function FirstStarting(lines: seq<string>, n: string): (r: Option<nat>)
    ensures r.Some? ==> r.value < |lines| && StartsWith(lines[r.value], n)
  {
    if |lines| == 0 then None
    else if StartsWith(lines[0], n) then Some(0)
    else Shift(FirstStarting(lines[1..], n), 1)
  }

  function Shift(o: Option<nat>, k: nat): Option<nat> {
    if o.Some? then Some(o.value + k) else None
  }

  /**
    Reference meaning: the first line `s` that mentions the slug selects a block,
    from the last line `r` at or above it that opens an entry to the first line
    `e` below it that closes one.  Only URL lines strictly between `r` and `e`
    change; carriage returns inside the block are lost.
  */
  function RewriteLines(lines: seq<string>, slug: string, live: ResolvedUrls): Result<seq<string>, RewriteError> {
    match FirstContaining(lines, Needle(slug))
    case None => Err(SlugNotFound)
    case Some(s) =>
      match LastContaining(UpTo(lines, s, Find(lines[s], Needle(slug)).value), ENTRY_OPEN)
      case None => Err(EntryStartNotFound)
      case Some(r) =>
        match Shift(FirstStarting(lines[s + 1..], ENTRY_CLOSE), s + 1)
        case None => Err(EntryEndNotFound)
        case Some(e) => Ok(RewriteBlock(lines, r, e, live))
  }

  function TextOf(r: Result<seq<string>, RewriteError>): Result<string, RewriteError> {
    match r
    case Ok(lines) => Ok(Join(lines, '\n'))
    case Err(e) => Err(e)
  }

  /** The lines above line `i`, and line `i` up to column `c`. */
  function UpTo(lines: seq<string>, i: nat, c: nat): (r: seq<string>)
    requires i < |lines| && c <= |lines[i]|
    ensures |r| == i + 1
  {
    lines[..i] + [lines[i][..c]]
  }

  /** Line `i` from column `c` on, and the lines below it. */
  function From(lines: seq<string>, i: nat, c: nat): (r: seq<string>)
    requires i < |lines| && c <= |lines[i]|
    ensures |r| == |lines| - i
  {
    [lines[i][c..]] + lines[i + 1..]
  }

  function RewriteBlock(lines: seq<string>, r: nat, e: nat, live: ResolvedUrls): seq<string>
    requires r < e < |lines|
  {
    lines[..r] + [StripCr(lines[r])] + RewriteAll(StripAll(lines[r + 1..e]), live) + lines[e..]
  }

  // ---- searching a joined text is searching its lines ------------------------

  ghost predicate OneLiner(n: string) {
    n != "" && '\n' !in n
  }

  ghost predicate AllOneLine(lines: seq<string>) {
    forall i :: 0 <= i < |lines| ==> '\n' !in lines[i]
  }

  /** A needle without a newline lies wholly on one side of a newline. */
  lemma OccursAcross(a: string, b: string, n: string, p: int)
    requires OneLiner(n)
    ensures OccursAt(a + "\n" + b, n, p) <==>
            OccursAt(a, n, p) || OccursAt(b, n, p - |a| - 1)
  {
    var s, q := a + "\n" + b, p - |a| - 1;
    if 0 <= p && p + |n| <= |s| {
      if p + |n| <= |a| {
        assert s[p..p + |n|] == a[p..p + |n|];
      } else if |a| < p {
        assert s[p..p + |n|] == b[q..q + |n|];
      } else {
        assert s[p..p + |n|][|a| - p] == '\n';
      }
    }
  }

  lemma FindAcross(a: string, b: string, n: string)
    requires OneLiner(n)
    ensures Find(a + "\n" + b, n) == if Contains(a, n) then Find(a, n) else Shift(Find(b, n), |a| + 1)
  {
    forall p {
      OccursAcross(a, b, n, p);
    }
    if !Contains(a, n) && Contains(b, n) {
      assert OccursAt(a + "\n" + b, n, Find(b, n).value + |a| + 1);
    }
  }

  lemma RFindAcross(a: string, b: string, n: string)
    requires OneLiner(n)
    ensures RFind(a + "\n" + b, n) == if Contains(b, n) then Shift(RFind(b, n), |a| + 1) else RFind(a, n)
  {
    forall p {
      OccursAcross(a, b, n, p);
    }
    if Contains(b, n) {
      assert OccursAt(b, n, Find(b, n).value);
      assert OccursAt(a + "\n" + b, n, RFind(b, n).value + |a| + 1);
    }
  }

  lemma {:induction false} FindInLines(lines: seq<string>, n: string)
    requires |lines| > 0 && OneLiner(n) && AllOneLine(lines)
    ensures var f := FirstContaining(lines, n);
            Find(Join(lines, '\n'), n) ==
              if f.None? then None
              else Some(Offset(lines, f.value) + Find(lines[f.value], n).value)
  {
    hide FindFrom, OccursAt;
    if |lines| > 1 {
      FindInLines(lines[1..], n);
      FindAcross(lines[0], Join(lines[1..], '\n'), n);
    }
  }

  lemma ContainsIsRFind(s: string, n: string)
    ensures Contains(s, n) <==> RFind(s, n).Some?
  {
    if Contains(s, n) { assert OccursAt(s, n, Find(s, n).value); }
    if RFind(s, n).Some? { assert OccursAt(s, n, RFind(s, n).value); }
  }

  lemma {:induction false} RFindInLines(lines: seq<string>, n: string)
    requires |lines| > 0 && OneLiner(n) && AllOneLine(lines)
    ensures var l := LastContaining(lines, n);
            l.Some? ==> RFind(lines[l.value], n).Some?
    ensures var l := LastContaining(lines, n);
            RFind(Join(lines, '\n'), n) ==
              if l.None? then None
              else Some(Offset(lines, l.value) + RFind(lines[l.value], n).value)
  {
    hide FindFrom, RFindUpTo, OccursAt, Find, RFind;
    ContainsIsRFind(lines[0], n);
    if |lines| > 1 {
      RFindInLines(lines[1..], n);
      ContainsIsRFind(Join(lines[1..], '\n'), n);
      RFindAcross(lines[0], Join(lines[1..], '\n'), n);
    }
  }

  /** `"\n" + n` occurs in `a`, newline, `u` right at the seam, or inside `u`. */
  lemma OccursAtSeam(a: string, u: string, n: string, p: int)
    requires OneLiner(n) && '\n' !in a
    ensures OccursAt(a + "\n" + u, "\n" + n, p) <==> (p == |a| && StartsWith(u, n)) || OccursAt(u, "\n" + n, p - |a| - 1)
  {
    var t, nn := a + "\n" + u, "\n" + n;
    if 0 <= p && p + |nn| <= |t| {
      var cut := t[p..p + |nn|];
      if p > |a| {
        assert cut == u[p - |a| - 1..p - |a| - 1 + |nn|];
      } else if p == |a| {
        assert cut == "\n" + u[..|n|] && cut[1..] == u[..|n|] && nn[1..] == n;
      } else {
        assert cut[0] == a[p] != nn[0];
      }
    }
  }

  lemma SeamAcross(a: string, u: string, n: string)
    requires OneLiner(n) && '\n' !in a
    ensures Find(a + "\n" + u, "\n" + n) ==
            if StartsWith(u, n) then Some(|a|) else Shift(Find(u, "\n" + n), |a| + 1)
  {
    hide FindFrom, StartsWith, OccursAt;
    var t, nn := a + "\n" + u, "\n" + n;
    forall p ensures OccursAt(t, nn, p) <==> (p == |a| && StartsWith(u, n)) || OccursAt(u, nn, p - |a| - 1) {
      OccursAtSeam(a, u, n, p);
    }
    assert forall p :: OccursAt(u, nn, p) ==> p >= 0 by { hide Find; OccursFromZero(u, nn); }
    if !StartsWith(u, n) && Contains(u, nn) {
      assert OccursAt(t, nn, Find(u, nn).value + |a| + 1);
    } else if StartsWith(u, n) {
      assert OccursAt(t, nn, |a|);
    }
  }

  lemma OccursFromZero(s: string, n: string)
    ensures forall p :: OccursAt(s, n, p) ==> p >= 0
  {
  }

  lemma StartsWithFirst(lines: seq<string>, n: string)
    requires |lines| > 0 && OneLiner(n) && AllOneLine(lines)
    ensures StartsWith(Join(lines, '\n'), n) <==> StartsWith(lines[0], n)
  {
    var t, a := Join(lines, '\n'), lines[0];
    if |n| <= |a| {
      assert t[..|n|] == a[..|n|];
    } else if |n| <= |t| {
      assert t[..|n|][|a|] == '\n';
    }
  }

  /** A newline followed by `n` sits just before a later line starting with `n`. */
  lemma {:induction false} FindLineStart(lines: seq<string>, n: string)
    requires |lines| > 0 && OneLiner(n) && AllOneLine(lines)
    ensures var f := FirstStarting(lines[1..], n);
            Find(Join(lines, '\n'), "\n" + n) ==
              if f.None? then None else Some(Offset(lines, f.value + 1) - 1)
  {
    if |lines| == 1 {
      var t, nn := lines[0], "\n" + n;
      forall p ensures !OccursAt(t, nn, p) {
        if 0 <= p && p + |nn| <= |t| { assert t[p..p + |nn|][0] == t[p]; }
      }
    } else {
      StartsWithFirst(lines[1..], n);
      FindLineStart(lines[1..], n);
      SeamAcross(lines[0], Join(lines[1..], '\n'), n);
    }
  }

  lemma RustLinesOfJoin(lines: seq<string>, last: string)
    requires AllOneLine(lines) && OneLiner(last)
    ensures RustLines(Join(lines + [last], '\n')) == StripAll(lines) + [last]
  {
    SplitOfJoin(lines + [last], '\n');
    assert (lines + [last])[..|lines|] == lines;
  }

  // ---- the code agrees with the line meaning, on every text -------------------

  /** The block cut out by the code is the cut lines of the block. */
  lemma CutBlock(lines: seq<string>, r: nat, d: nat, e: nat)
    requires r < e < |lines| && d <= |lines[r]| && StartsWith(lines[e], ENTRY_CLOSE)
    ensures var source, bs, be := Join(lines, '\n'), Offset(lines, r) + d, Offset(lines, e) + |ENTRY_CLOSE|;
            bs <= be <= |source| &&
            source[bs..be] == Join([lines[r][d..]] + lines[r + 1..e] + [ENTRY_CLOSE], '\n')
  {
    var source, bs, be := Join(lines, '\n'), Offset(lines, r) + d, Offset(lines, e) + |ENTRY_CLOSE|;
    CutJoin(lines, e, |ENTRY_CLOSE|, '\n');
    var upToEnd := lines[..e] + [lines[e][..|ENTRY_CLOSE|]];
    OffsetPrefix(lines, upToEnd, r);
    CutJoin(upToEnd, r, d, '\n');
    assert source[bs..be] == source[..be][bs..];
    assert [upToEnd[r][d..]] + upToEnd[r + 1..] == [lines[r][d..]] + lines[r + 1..e] + [ENTRY_CLOSE];
  }

  /** Rewriting the block keeps its first and last line. */
  lemma RewriteCutBlock(first: string, mid: seq<string>, live: ResolvedUrls)
    requires '\n' !in first && AllOneLine(mid) && StartsWith(first, ENTRY_OPEN)
    ensures RewriteAll(RustLines(Join([first] + mid + [ENTRY_CLOSE], '\n')), live) ==
            [StripCr(first)] + RewriteAll(StripAll(mid), live) + [ENTRY_CLOSE]
  {
    RustLinesOfJoin([first] + mid, ENTRY_CLOSE);
    hide RustLines, Join, StripCr, RewriteLine, StartsWith;
    OpeningIsNotUrl(first, live);
    ClosingIsNotUrl(live);
    RustLinesOfJoin([first] + mid, ENTRY_CLOSE);
    assert ([first] + mid)[1..] == mid;
    var stripped := [StripCr(first)] + StripAll(mid);
    assert stripped[1..] == StripAll(mid);
    RewriteAllAppend(stripped, [ENTRY_CLOSE], live);
  }

  lemma ClosingIsNotUrl(live: ResolvedUrls)
    ensures StripCr(ENTRY_CLOSE) == ENTRY_CLOSE && RewriteLine(ENTRY_CLOSE, live) == ENTRY_CLOSE
  {
    assert ISO_PREFIX[4] == SHA_PREFIX[4] == SIG_PREFIX[4] == ' ';
  }

  lemma OpeningIsNotUrl(first: string, live: ResolvedUrls)
    requires StartsWith(first, ENTRY_OPEN)
    ensures RewriteLine(StripCr(first), live) == StripCr(first)
  {
    assert first[..|ENTRY_OPEN|][0] == first[0] == 'E';
    assert StripCr(first)[0] == 'E';
  }

  lemma SpliceBlock(lines: seq<string>, r: nat, d: nat, e: nat, live: ResolvedUrls)
    requires AllOneLine(lines) && r < e < |lines|
    requires OccursAt(lines[r], ENTRY_OPEN, d) && StartsWith(lines[e], ENTRY_CLOSE)
    ensures var source, bs, be := Join(lines, '\n'), Offset(lines, r) + d, Offset(lines, e) + |ENTRY_CLOSE|;
            bs <= be <= |source| &&
            source[..bs] + Join(RewriteAll(RustLines(source[bs..be]), live), '\n') + source[be..] ==
            Join(RewriteBlock(lines, r, e, live), '\n')
  {
    hide RustLines, FindFrom, Join, Offset, RewriteLine, RewriteAll, StripAll;
    var x, y := lines[r][..d], lines[r][d..];
    var mid := lines[r + 1..e];
    CutBlock(lines, r, d, e);
    CutJoin(lines, r, d, '\n');
    CutJoin(lines, e, |ENTRY_CLOSE|, '\n');
    assert y[..|ENTRY_OPEN|] == lines[r][d..d + |ENTRY_OPEN|];
    RewriteCutBlock(y, mid, live);
    Splice(lines[..r], x, StripCr(y), RewriteAll(StripAll(mid), live), lines[e][|ENTRY_CLOSE|..], lines[e + 1..]);
    assert lines[r] == x + y;
    assert x + StripCr(y) == StripCr(lines[r]);
    assert lines[e] == lines[e][..|ENTRY_CLOSE|] + lines[e][|ENTRY_CLOSE|..];
    assert [ENTRY_CLOSE + lines[e][|ENTRY_CLOSE|..]] + lines[e + 1..] == lines[e..];
  }

  lemma Splice(above: seq<string>, x: string, y: string, mid: seq<string>, tail: string, below: seq<string>)
    ensures Join(above + [x], '\n') + Join([y] + mid + [ENTRY_CLOSE], '\n') + Join([tail] + below, '\n') ==
            Join(above + [x + y] + mid + ([ENTRY_CLOSE + tail] + below), '\n')
  {
    assert [y] + mid + [ENTRY_CLOSE] == [y] + (mid + [ENTRY_CLOSE]);
    JoinGlue(above, x, y, mid + [ENTRY_CLOSE], '\n');
    var front := above + [x + y] + mid;
    assert above + [x + y] + (mid + [ENTRY_CLOSE]) == front + [ENTRY_CLOSE];
    JoinGlue(front, ENTRY_CLOSE, tail, below, '\n');
    assert front + [ENTRY_CLOSE + tail] + below == front + ([ENTRY_CLOSE + tail] + below);
  }

  lemma {:induction false} OffsetOfTail(lines: seq<string>, s: nat, c: nat, j: nat)
    requires s < |lines| && c <= |lines[s]| && 0 < j < |lines| - s
    ensures Offset(lines, s) + c + Offset(From(lines, s, c), j) == Offset(lines, s + j)
  {
    if s == 0 {
      assert From(lines, 0, c)[1..] == lines[1..];
    } else {
      OffsetOfTail(lines[1..], s - 1, c, j);
      assert From(lines[1..], s - 1, c) == From(lines, s, c);
    }
  }

  /** Where the code's backward search lands, in lines. */
  lemma BlockStart(lines: seq<string>, s: nat, c: nat)
    requires s < |lines| && c <= |lines[s]| && AllOneLine(lines)
    ensures Offset(lines, s) + c <= |Join(lines, '\n')|
    ensures var above := Join(lines, '\n')[..Offset(lines, s) + c];
            match LastContaining(UpTo(lines, s, c), ENTRY_OPEN)
            case None => RFind(above, ENTRY_OPEN).None?
            case Some(r) => r <= s && exists d: nat :: (OccursAt(lines[r], ENTRY_OPEN, d) &&
                              RFind(above, ENTRY_OPEN) == Some(Offset(lines, r) + d))
  {
    hide FindFrom, RFindUpTo, Join, Offset, LastContaining;
    var head := UpTo(lines, s, c);
    CutJoin(lines, s, c, '\n');
    RFindInLines(head, ENTRY_OPEN);
    if LastContaining(head, ENTRY_OPEN).Some? {
      var r := LastContaining(head, ENTRY_OPEN).value;
      var d := RFind(head[r], ENTRY_OPEN).value;
      OffsetPrefix(head, lines, r);
      assert head[r][d..d + |ENTRY_OPEN|] == lines[r][d..d + |ENTRY_OPEN|];
      assert OccursAt(lines[r], ENTRY_OPEN, d);
    }
  }

  /** Where the code's forward search lands, in lines. */
  lemma BlockEnd(lines: seq<string>, s: nat, c: nat)
    requires s < |lines| && c <= |lines[s]| && AllOneLine(lines)
    ensures Offset(lines, s) + c <= |Join(lines, '\n')|
    ensures var below := Join(lines, '\n')[Offset(lines, s) + c..];
            match FirstStarting(lines[s + 1..], ENTRY_CLOSE)
            case None => Find(below, "\n" + ENTRY_CLOSE).None?
            case Some(j) => s + 1 + j < |lines| && Find(below, "\n" + ENTRY_CLOSE).Some? &&
                              Offset(lines, s) + c + Find(below, "\n" + ENTRY_CLOSE).value + 1 == Offset(lines, s + 1 + j)
  {
    hide Join, FindFrom, OccursAt, FirstStarting, Offset, Find;
    CutJoin(lines, s, c, '\n');
    var tail := From(lines, s, c);
    assert tail[1..] == lines[s + 1..];
    FindLineStart(tail, ENTRY_CLOSE);
    if FirstStarting(lines[s + 1..], ENTRY_CLOSE).Some? {
      OffsetOfTail(lines, s, c, FirstStarting(lines[s + 1..], ENTRY_CLOSE).value + 1);
    }
  }

  lemma NeedleIsOneLine(slug: string)
    requires '\n' !in slug
    ensures OneLiner(Needle(slug))
  {
  }

  /** The code's three search results, given where they land in lines. */
  lemma RewriteAtBlock(lines: seq<string>, slug: string, live: ResolvedUrls, s: nat, c: nat)
    requires AllOneLine(lines) && s < |lines| && c <= |lines[s]|
    requires FirstContaining(lines, Needle(slug)) == Some(s) && Find(lines[s], Needle(slug)) == Some(c)
    requires Find(Join(lines, '\n'), Needle(slug)) == Some(Offset(lines, s) + c)
    ensures RewriteEntryUrls(Join(lines, '\n'), slug, live) ==
            TextOf(RewriteLines(lines, slug, live))
  {
    hide FindFrom, RFindUpTo, Join, Offset, LastContaining, FirstContaining, FirstStarting, Needle, RewriteBlock, Find, RFind, OccursAt;
    hide RustLines, RewriteAll, UpTo, ENTRY_OPEN, ENTRY_CLOSE;
    BlockStart(lines, s, c);
    BlockEnd(lines, s, c);
    var opening, closing := LastContaining(UpTo(lines, s, c), ENTRY_OPEN), FirstStarting(lines[s + 1..], ENTRY_CLOSE);
    if opening.Some? && closing.Some? {
      var r, e := opening.value, s + 1 + closing.value;
      var d: nat :| OccursAt(lines[r], ENTRY_OPEN, d) &&
               RFind(Join(lines, '\n')[..Offset(lines, s) + c], ENTRY_OPEN) == Some(Offset(lines, r) + d);
      SpliceBlock(lines, r, d, e, live);
    }
  }

  /**
    On every text, taken as its lines, the code does what the line meaning says,
    and refuses with the same error.
  */
  lemma RewriteIsLineRewrite(lines: seq<string>, slug: string, live: ResolvedUrls)
    requires |lines| > 0 && AllOneLine(lines) && '\n' !in slug
    ensures RewriteEntryUrls(Join(lines, '\n'), slug, live) ==
            TextOf(RewriteLines(lines, slug, live))
  {
    hide FindFrom, RFind, Join, Offset, FirstContaining, Needle, OccursAt, RewriteEntryUrls, RewriteLines;
    NeedleIsOneLine(slug);
    FindInLines(lines, Needle(slug));
    var s := FirstContaining(lines, Needle(slug));
    if s.Some? {
      RewriteAtBlock(lines, slug, live, s.value, Find(lines[s.value], Needle(slug)).value);
    } else {
      RewriteMissing(lines, slug, live);
    }
  }

  lemma RewriteMissing(lines: seq<string>, slug: string, live: ResolvedUrls)
    requires FirstContaining(lines, Needle(slug)).None? && Find(Join(lines, '\n'), Needle(slug)).None?
    ensures RewriteEntryUrls(Join(lines, '\n'), slug, live) == TextOf(RewriteLines(lines, slug, live))
  {
  }

  // ---- `str::lines` as documented --------------------------------------------------------

  /** Every line followed by the same ending. */
  function Terminated(lines: seq<string>, ending: string): string {
    if lines == [] then "" else lines[0] + ending + Terminated(lines[1..], ending)
  }

  lemma SplitOneLine(line: string)
    requires '\n' !in line
    ensures Split(line, '\n') == [line]
  {
    assert Join([line], '\n') == line;
    SplitOfJoin([line], '\n');
  }

  lemma RustLinesCons(line: string, rest: string)
    requires '\n' !in line
    ensures RustLines(line + ['\n'] + rest) == [StripCr(line)] + RustLines(rest)
  {
    SplitOneLine(line);
    SplitAppend(line, rest, '\n');
    var pieces := Split(rest, '\n');
    var all := [line] + pieces;
    assert all[..|all| - 1] == [line] + pieces[..|pieces| - 1];
    assert ([line] + pieces[..|pieces| - 1])[1..] == pieces[..|pieces| - 1];
  }

  lemma OneTerminated(line: string, ending: string, rest: string)
    requires '\n' !in line && (line != "" ==> line[|line| - 1] != '\r') && (ending == "\n" || ending == "\r\n")
    ensures RustLines(line + ending + rest) == [line] + RustLines(rest)
  {
    hide RustLines;
    var kept := if ending == "\n" then line else line + "\r";
    assert line + ending + rest == kept + ['\n'] + rest by { hide *; EndingSplits(line, ending, rest); }
    RustLinesCons(kept, rest);
    assert (line + "\r")[..|line|] == line;
  }

  lemma EndingSplits(line: string, ending: string, rest: string)
    requires ending == "\n" || ending == "\r\n"
    ensures line + ending + rest == (if ending == "\n" then line else line + "\r") + ['\n'] + rest
  {
    if ending == "\r\n" {
      assert line + ending == line + "\r" + ['\n'];
    }
  }

  /** Lines come back whether they end in a newline or in a carriage return and a newline. */
  lemma {:induction false} RustLinesOfTerminated(lines: seq<string>, ending: string)
    requires AllOneLine(lines) && (ending == "\n" || ending == "\r\n")
    requires forall i :: 0 <= i < |lines| ==> lines[i] != "" ==> lines[i][|lines[i]| - 1] != '\r'
    ensures RustLines(Terminated(lines, ending)) == lines
  {
    if lines == [] {
      NoLines();
    } else {
      hide RustLines;
      RustLinesOfTerminated(lines[1..], ending);
      OneTerminated(lines[0], ending, Terminated(lines[1..], ending));
      assert lines == [lines[0]] + lines[1..];
    }
  }

  lemma NoLines()
    ensures RustLines("") == []
  {
    assert Split("", '\n') == [""] && [""][..0] == [];
  }
}
