/**
  The rewriter seen from the catalog: which entry it changes, and exactly when
  that is the entry asked for.
*/
module CatalogRewrite {
  import opened Wrappers
  import opened Strings
  import opened CatalogText

  /** One line of an entry below its slug: a URL field, or anything else verbatim. */
  datatype Field = Other(text: string) | IsoUrl(url: string) | Sha256Url(url: string) | SigUrl(url: string)

  /** `above` holds the comment lines between the opening line and the slug. */
  datatype Entry = Entry(above: seq<string>, slug: string, fields: seq<Field>)

  datatype Catalog = Catalog(preamble: seq<string>, entries: seq<Entry>, postamble: seq<string>)

  function FieldLine(f: Field): string {
    match f
    case Other(text) => text
    case IsoUrl(url) => ISO_PREFIX + url + "\","
    case Sha256Url(url) => SHA_PREFIX + url + "\","
    case SigUrl(url) => SIG_PREFIX + url + "\","
  }

  function FieldLines(fields: seq<Field>): (r: seq<string>)
    ensures |r| == |fields|
    ensures forall i :: 0 <= i < |r| ==> r[i] == FieldLine(fields[i])
  {
    seq(|fields|, i requires 0 <= i < |fields| => FieldLine(fields[i]))
  }

  const OPENING := "    Entry {"

  function SlugLine(slug: string): string {
    "        " + Needle(slug) + ","
  }

  function EntryLines(e: Entry): (r: seq<string>)
    ensures |r| == |e.above| + |e.fields| + 3
  {
    [OPENING] + e.above + [SlugLine(e.slug)] + FieldLines(e.fields) + [ENTRY_CLOSE]
  }

  function EntriesLines(entries: seq<Entry>): seq<string> {
    if entries == [] then [] else EntryLines(entries[0]) + EntriesLines(entries[1..])
  }

  function CatalogLines(c: Catalog): seq<string> {
    c.preamble + EntriesLines(c.entries) + c.postamble
  }

  /** The source text of a catalog. */
  function Print(c: Catalog): string {
    Join(CatalogLines(c), '\n')
  }

  // ---- updating the catalog itself -------------------------------------------

  function RetargetField(f: Field, live: ResolvedUrls): Field {
    match f
    case Other(_) => f
    case IsoUrl(_) => IsoUrl(live.isoUrl)
    case Sha256Url(_) => Sha256Url(live.sha256Url)
    case SigUrl(_) => SigUrl(live.sigUrl)
  }

  function RetargetFields(fields: seq<Field>, live: ResolvedUrls): (r: seq<Field>)
    ensures |r| == |fields|
    ensures forall i :: 0 <= i < |r| ==> r[i] == RetargetField(fields[i], live)
  {
    seq(|fields|, i requires 0 <= i < |fields| => RetargetField(fields[i], live))
  }

  function Retarget(e: Entry, live: ResolvedUrls): Entry {
    e.(fields := RetargetFields(e.fields, live))
  }

  /** Only the fields from number `from` on get the new URLs. */
  function RetargetFrom(e: Entry, from: nat, live: ResolvedUrls): Entry
    requires from <= |e.fields|
  {
    e.(fields := e.fields[..from] + RetargetFields(e.fields[from..], live))
  }

  function Replace(c: Catalog, i: nat, e: Entry): Catalog
    requires i < |c.entries|
  {
    c.(entries := c.entries[i := e])
  }

  function RetargetAt(c: Catalog, i: nat, live: ResolvedUrls): Catalog
    requires i < |c.entries|
  {
    Replace(c, i, Retarget(c.entries[i], live))
  }

  // ---- the source layout -------------------------------------------------------

  /** A line the rewriter carries over untouched and never takes for a closing line. */
  ghost predicate PlainLine(line: string) {
    '\n' !in line && StripCr(line) == line && !IsUrlLine(line) && !StartsWith(line, ENTRY_CLOSE)
  }

  ghost predicate UrlOk(url: string) {
    '\n' !in url && '"' !in url
  }

  ghost predicate UrlsOk(live: ResolvedUrls) {
    UrlOk(live.isoUrl) && UrlOk(live.sha256Url) && UrlOk(live.sigUrl)
  }

  ghost predicate SlugOk(slug: string) {
    '\n' !in slug && '"' !in slug
  }

  ghost predicate FieldOk(f: Field) {
    match f
    case Other(text) => PlainLine(text)
    case IsoUrl(url) => UrlOk(url)
    case Sha256Url(url) => UrlOk(url)
    case SigUrl(url) => UrlOk(url)
  }

  ghost predicate EntryOk(e: Entry) {
    && SlugOk(e.slug)
    && (forall i :: 0 <= i < |e.above| ==> PlainLine(e.above[i]))
    && (forall i :: 0 <= i < |e.fields| ==> FieldOk(e.fields[i]))
  }

  /** Comment lines, names and purposes are otherwise arbitrary. */
  ghost predicate Layout(c: Catalog) {
    && AllOneLine(c.preamble) && AllOneLine(c.postamble)
    && forall i :: 0 <= i < |c.entries| ==> EntryOk(c.entries[i])
  }

  predicate NoneMention(lines: seq<string>, slug: string) {
    FirstContaining(lines, Needle(slug)).None?
  }

  predicate EntryMentions(e: Entry, slug: string) {
    !NoneMention(EntryLines(e), slug)
  }

  function FirstMentioning(entries: seq<Entry>, slug: string): (r: Option<nat>)
    ensures r.Some? ==> r.value < |entries| && EntryMentions(entries[r.value], slug)
    ensures r.Some? ==> forall j :: 0 <= j < r.value ==> !EntryMentions(entries[j], slug)
    ensures r.None? ==> forall j :: 0 <= j < |entries| ==> !EntryMentions(entries[j], slug)
  {
    if entries == [] then None
    else if EntryMentions(entries[0], slug) then Some(0)
    else Shift(FirstMentioning(entries[1..], slug), 1)
  }

  // ---- line searches over concatenations ---------------------------------------

  lemma {:induction false} FirstContainingAppend(a: seq<string>, b: seq<string>, n: string)
    ensures FirstContaining(a + b, n) ==
            if FirstContaining(a, n).Some? then FirstContaining(a, n) else Shift(FirstContaining(b, n), |a|)
  {
    hide Contains;
    if a == [] {
      assert a + b == b;
    } else {
      assert (a + b)[1..] == a[1..] + b;
      FirstContainingAppend(a[1..], b, n);
    }
  }

  lemma {:induction false} LastContainingAppend(a: seq<string>, b: seq<string>, n: string)
    ensures LastContaining(a + b, n) ==
            if LastContaining(b, n).Some? then Shift(LastContaining(b, n), |a|) else LastContaining(a, n)
  {
    if a == [] {
      assert a + b == b;
    } else {
      assert (a + b)[1..] == a[1..] + b;
      LastContainingAppend(a[1..], b, n);
    }
  }

  lemma {:induction false} FirstStartingAppend(a: seq<string>, b: seq<string>, n: string)
    ensures FirstStarting(a + b, n) ==
            if FirstStarting(a, n).Some? then FirstStarting(a, n) else Shift(FirstStarting(b, n), |a|)
  {
    if a == [] {
      assert a + b == b;
    } else {
      assert (a + b)[1..] == a[1..] + b;
      FirstStartingAppend(a[1..], b, n);
    }
  }

  lemma {:induction false} NoneStarting(lines: seq<string>, n: string)
    requires forall i :: 0 <= i < |lines| ==> !StartsWith(lines[i], n)
    ensures FirstStarting(lines, n).None?
  {
    if lines != [] { NoneStarting(lines[1..], n); }
  }

  lemma {:induction false} NoneContaining(lines: seq<string>, n: string)
    ensures FirstContaining(lines, n).None? <==> forall i :: 0 <= i < |lines| ==> !Contains(lines[i], n)
    ensures LastContaining(lines, n).None? <==> forall i :: 0 <= i < |lines| ==> !Contains(lines[i], n)
  {
    if lines != [] {
      NoneContaining(lines[1..], n);
      assert forall i :: 1 <= i < |lines| ==> lines[i] == lines[1..][i - 1];
    }
  }

  lemma {:induction false} StripAllAt(lines: seq<string>, i: nat)
    requires i < |lines|
    ensures StripAll(lines)[i] == StripCr(lines[i])
  {
    if i > 0 { StripAllAt(lines[1..], i - 1); }
  }

  lemma {:induction false} RewriteAllAt(lines: seq<string>, i: nat, live: ResolvedUrls)
    requires i < |lines|
    ensures RewriteAll(lines, live)[i] == RewriteLine(lines[i], live)
  {
    if i > 0 { RewriteAllAt(lines[1..], i - 1, live); }
  }

  lemma {:induction false} EntriesLinesAppend(a: seq<Entry>, b: seq<Entry>)
    ensures EntriesLines(a + b) == EntriesLines(a) + EntriesLines(b)
  {
    if a == [] {
      assert a + b == b;
    } else {
      assert (a + b)[1..] == a[1..] + b;
      EntriesLinesAppend(a[1..], b);
    }
  }

  // ---- lines of one entry --------------------------------------------------------

  ghost predicate UrlPrefix(prefix: string) {
    prefix == ISO_PREFIX || prefix == SHA_PREFIX || prefix == SIG_PREFIX
  }

  lemma UrlPrefixShape(prefix: string)
    requires UrlPrefix(prefix)
    ensures |prefix| > 8 && prefix[|prefix| - 1] == '"' && prefix[|prefix| - 4] == 'l'
    ensures forall i :: 0 <= i < |prefix| ==> prefix[i] != 'E' && prefix[i] != '{'
    ensures forall i :: 0 <= i < |prefix| - 1 ==> prefix[i] != '"'
  {
  }

  /** A slug needle has two quotes, and a URL line has only its own two. */
  lemma UrlLineNamesNoSlug(prefix: string, url: string, slug: string)
    requires UrlPrefix(prefix) && UrlOk(url) && SlugOk(slug)
    ensures !Contains(prefix + url + "\",", Needle(slug))
  {
    hide FindFrom, UrlPrefix;
    var line, n := prefix + url + "\",", Needle(slug);
    UrlPrefixShape(prefix);
    assert n[3] == 'g' && n[6] == '"' && n[7 + |slug|] == '"' && |n| == 8 + |slug|;
    forall p ensures !OccursAt(line, n, p) {
      if 0 <= p && p + |n| <= |line| {
        var cut := line[p..p + |n|];
        assert cut[3] == line[p + 3] && cut[6] == line[p + 6] && cut[7 + |slug|] == line[p + 7 + |slug|];
      }
    }
  }

  lemma FieldIsQuiet(f: Field, slug: string)
    requires FieldOk(f) && SlugOk(slug)
    ensures !f.Other? ==> !Contains(FieldLine(f), Needle(slug))
  {
    match f
    case Other(_) =>
    case IsoUrl(url) => UrlLineNamesNoSlug(ISO_PREFIX, url, slug);
    case Sha256Url(url) => UrlLineNamesNoSlug(SHA_PREFIX, url, slug);
    case SigUrl(url) => UrlLineNamesNoSlug(SIG_PREFIX, url, slug);
  }

  lemma FixedLinesAreQuiet(slug: string)
    requires SlugOk(slug)
    ensures Contains(OPENING, ENTRY_OPEN) && !Contains(OPENING, Needle(slug))
    ensures !Contains(ENTRY_CLOSE, Needle(slug))
  {
    hide FindFrom;
    assert OccursAt(OPENING, ENTRY_OPEN, 4);
    var n := Needle(slug);
    assert n[6] == '"' && |n| >= 8 > |ENTRY_CLOSE|;
    forall p ensures !OccursAt(OPENING, n, p) {
      if 0 <= p && p + |n| <= |OPENING| { assert OPENING[p..p + |n|][6] == OPENING[p + 6]; }
    }
  }

  /** A slug line names its own slug and no other. */
  lemma SlugLineNames(other: string, slug: string)
    requires SlugOk(slug) && SlugOk(other)
    ensures Contains(SlugLine(other), Needle(slug)) <==> other == slug
  {
    hide FindFrom;
    var n, line := Needle(slug), SlugLine(other);
    assert n[6] == '"' && n[7 + |slug|] == '"' && |n| == 8 + |slug|;
    if other == slug {
      assert line[8..8 + |n|] == n;
      assert OccursAt(line, n, 8);
    } else {
      forall p ensures !OccursAt(line, n, p) {
        if 0 <= p && p + |n| <= |line| {
          var cut := line[p..p + |n|];
          assert cut[6] == line[p + 6] && cut[7 + |slug|] == line[p + 7 + |slug|];
          if p == 8 && |slug| == |other| {
            assert cut[7..7 + |slug|] == line[15..15 + |slug|] == other;
            assert n[7..7 + |slug|] == slug;
          }
        }
      }
    }
  }

  lemma FixedLinesSurvive(slug: string, live: ResolvedUrls)
    requires SlugOk(slug)
    ensures RewriteLine(StripCr(OPENING), live) == StripCr(OPENING) == OPENING
    ensures RewriteLine(StripCr(SlugLine(slug)), live) == StripCr(SlugLine(slug)) == SlugLine(slug)
    ensures !StartsWith(SlugLine(slug), ENTRY_CLOSE)
  {
    assert SlugLine(slug)[8] == 's' && SlugLine(slug)[9] == 'l' && SlugLine(slug)[4] == ' ';
    assert ISO_PREFIX[8] == 'i' && SHA_PREFIX[9] == 'h' && SIG_PREFIX[9] == 'i';
  }

  lemma UrlLineShape(prefix: string, url: string)
    requires UrlPrefix(prefix)
    ensures var line := prefix + url + "\",";
            StripCr(line) == line && !StartsWith(line, ENTRY_CLOSE) &&
            forall q | UrlPrefix(q) :: StartsWith(line, q) <==> q == prefix
  {
    var line := prefix + url + "\",";
    assert line[4] == prefix[4] == ' ' && line[8] == prefix[8] && line[9] == prefix[9];
    assert ISO_PREFIX[8] == 'i' && SHA_PREFIX[8] == 's' && SHA_PREFIX[9] == 'h' && SIG_PREFIX[8] == 's' && SIG_PREFIX[9] == 'i';
    assert line[..|prefix|] == prefix;
    forall q | UrlPrefix(q) ensures StartsWith(line, q) <==> q == prefix {
      if |q| <= |line| { assert line[..|q|][8] == line[8] && line[..|q|][9] == line[9]; }
    }
  }

  lemma FieldLineRewritten(f: Field, live: ResolvedUrls)
    requires FieldOk(f)
    ensures RewriteLine(StripCr(FieldLine(f)), live) == FieldLine(RetargetField(f, live))
    ensures !StartsWith(FieldLine(f), ENTRY_CLOSE)
  {
    hide StartsWith, StripCr, FindFrom;
    match f
    case Other(text) => PlainLineSurvives(text, live);
    case IsoUrl(url) => UrlLineShape(ISO_PREFIX, url);
    case Sha256Url(url) => UrlLineShape(SHA_PREFIX, url); assert UrlPrefix(ISO_PREFIX);
    case SigUrl(url) => UrlLineShape(SIG_PREFIX, url); assert UrlPrefix(ISO_PREFIX) && UrlPrefix(SHA_PREFIX);
  }

  /** What happens to each line of an entry when its block is rewritten. */
  lemma EntryLineAt(e: Entry, live: ResolvedUrls, i: nat)
    requires EntryOk(e) && i < |EntryLines(e)| - 1
    ensures RewriteLine(StripCr(EntryLines(e)[i]), live) == EntryLines(Retarget(e, live))[i]
    ensures i <= |e.above| + 1 ==>
              EntryLines(Retarget(e, live))[i] == StripCr(EntryLines(e)[i]) == EntryLines(e)[i]
    ensures i > 0 ==> !StartsWith(EntryLines(e)[i], ENTRY_CLOSE)
  {
    hide RewriteLine, StripCr, FieldLine, Needle, SlugLine, FindFrom, StartsWith;
    FixedLinesSurvive(e.slug, live);
    if 1 <= i <= |e.above| {
      PlainLineSurvives(e.above[i - 1], live);
    } else if i > |e.above| + 1 {
      FieldLineRewritten(e.fields[i - |e.above| - 2], live);
    }
  }

  lemma PlainLineSurvives(line: string, live: ResolvedUrls)
    requires PlainLine(line)
    ensures RewriteLine(StripCr(line), live) == StripCr(line) == line
  {
  }

  /** Opening the block at line `r` rewrites the fields below that line. */
  lemma EntryBlockRewritten(e: Entry, r: nat, live: ResolvedUrls)
    requires EntryOk(e) && r < |EntryLines(e)| - 1
    ensures RewriteBlock(EntryLines(e), r, |EntryLines(e)| - 1, live) == EntryLines(RetargetFrom(e, FieldsAbove(e, r), live))
  {
    hide RewriteLine, StripCr, EntryLines, StripAll, RewriteAll, FieldLine;
    var e' := RetargetFrom(e, FieldsAbove(e, r), live);
    var old', new' := EntryLines(e), EntryLines(e');
    var last := |old'| - 1;
    var mid := old'[r + 1..last];
    var got := RewriteBlock(old', r, last, live);
    forall i | 0 <= i < |got| ensures got[i] == new'[i] {
      if i < last { EntryLineAt(e, live, i); PartlyRetargetedLine(e, r, live, i); }
      if r < i < last {
        StripAllAt(mid, i - r - 1);
        RewriteAllAt(StripAll(mid), i - r - 1, live);
      }
      if i == last { LastLineCloses(e); LastLineCloses(e'); }
    }
  }

  /** How many fields lie above the line after line `r`. */
  function FieldsAbove(e: Entry, r: nat): (n: nat)
    ensures n <= |e.fields|
  {
    var n := r - |e.above| - 1;
    if n < 0 then 0 else if n > |e.fields| then |e.fields| else n
  }

  lemma PartlyRetargetedLine(e: Entry, r: nat, live: ResolvedUrls, i: nat)
    requires EntryOk(e) && i < |EntryLines(e)| - 1
    ensures EntryLines(RetargetFrom(e, FieldsAbove(e, r), live))[i] ==
            if i > r then EntryLines(Retarget(e, live))[i] else EntryLines(e)[i]
    ensures StripCr(EntryLines(e)[i]) == EntryLines(e)[i]
  {
    hide StripCr, EntryLines, EntryOk, RetargetFrom, Retarget;
    EntryLineAt(e, live, i);
    var fields := RetargetFrom(e, FieldsAbove(e, r), live).fields;
    RetargetedHeads(e, FieldsAbove(e, r), live);
    if i > |e.above| + 1 {
      PartlyRetargetedField(e, r, live, i);
    } else {
      HeadLineAt(e, fields, i);
      HeadLineAt(e, Retarget(e, live).fields, i);
    }
  }

  lemma RetargetedHeads(e: Entry, from: nat, live: ResolvedUrls)
    requires from <= |e.fields|
    ensures RetargetFrom(e, from, live) == e.(fields := RetargetFrom(e, from, live).fields)
    ensures Retarget(e, live) == e.(fields := Retarget(e, live).fields)
  {
  }

  lemma PartlyRetargetedField(e: Entry, r: nat, live: ResolvedUrls, i: nat)
    requires EntryOk(e) && |e.above| + 1 < i < |EntryLines(e)| - 1
    ensures EntryLines(RetargetFrom(e, FieldsAbove(e, r), live))[i] ==
            if i > r then EntryLines(Retarget(e, live))[i] else EntryLines(e)[i]
    ensures StripCr(EntryLines(e)[i]) == EntryLines(e)[i]
  {
    hide StripCr, FieldLine, EntryLines, FieldOk;
    FieldLineAt(e, i);
    FieldLineAt(RetargetFrom(e, FieldsAbove(e, r), live), i);
    FieldLineAt(Retarget(e, live), i);
    FieldHasNoCr(e.fields[i - |e.above| - 2]);
  }

  lemma FieldLineAt(e: Entry, i: nat)
    requires |e.above| + 1 < i < |EntryLines(e)| - 1
    ensures EntryLines(e)[i] == FieldLine(e.fields[i - |e.above| - 2])
  {
  }

  lemma HeadLineAt(e: Entry, fields: seq<Field>, i: nat)
    requires i <= |e.above| + 1
    ensures EntryLines(e.(fields := fields))[i] == EntryLines(e)[i]
  {
  }

  lemma FieldHasNoCr(f: Field)
    requires FieldOk(f)
    ensures StripCr(FieldLine(f)) == FieldLine(f)
  {
    if !f.Other? {
      assert FieldLine(f)[|FieldLine(f)| - 1] == ',';
    }
  }

  lemma RetargetWhole(e: Entry, live: ResolvedUrls)
    ensures RetargetFrom(e, 0, live) == Retarget(e, live)
  {
    assert e.fields[..0] + RetargetFields(e.fields[0..], live) == RetargetFields(e.fields, live);
  }

  lemma LastLineCloses(e: Entry)
    ensures EntryLines(e)[|EntryLines(e)| - 1] == ENTRY_CLOSE
    ensures EntryLines(e)[0] == OPENING
  {
  }

  // ---- which block the rewriter picks ------------------------------------------

  /**
    A block `e` between lines `a`, which do not mention the slug, and lines `b`:
    the search stays inside `e` whenever `e` opens above its first mention and
    closes below it only on its last line.
  */
  lemma BlockInContext(a: seq<string>, e: seq<string>, b: seq<string>, slug: string, live: ResolvedUrls, s: nat, r: nat)
    requires NoneMention(a, slug) && FirstContaining(e, Needle(slug)) == Some(s) && s < |e| - 1
    requires LastContaining(UpTo(e, s, Find(e[s], Needle(slug)).value), ENTRY_OPEN) == Some(r)
    requires FirstStarting(e[s + 1..], ENTRY_CLOSE) == Some(|e| - 2 - s)
    ensures r <= s
    ensures RewriteLines(a + e + b, slug, live) == Ok(a + RewriteBlock(e, r, |e| - 1, live) + b)
  {
    hide FirstContaining, LastContaining, FirstStarting, Find, FindFrom, StartsWith, Needle, RewriteBlock;
    var lines, n := a + e + b, Needle(slug);
    FirstContainingAppend(a, e, n);
    FirstContainingAppend(a + e, b, n);
    var c := Find(e[s], n).value;
    assert lines[|a| + s] == e[s];
    assert UpTo(lines, |a| + s, c) == a + UpTo(e, s, c);
    LastContainingAppend(a, UpTo(e, s, c), ENTRY_OPEN);
    assert lines[|a| + s + 1..] == e[s + 1..] + b;
    FirstStartingAppend(e[s + 1..], b, ENTRY_CLOSE);
    BlockShift(a, e, b, r, live);
  }

  lemma BlockShift(a: seq<string>, e: seq<string>, b: seq<string>, r: nat, live: ResolvedUrls)
    requires r < |e| - 1
    ensures RewriteBlock(a + e + b, |a| + r, |a| + |e| - 1, live) == a + RewriteBlock(e, r, |e| - 1, live) + b
  {
    hide RewriteAll, StripAll, StripCr;
    var lines, R, E := a + e + b, |a| + r, |a| + |e| - 1;
    assert lines[..R] == a + e[..r] && lines[R] == e[r] && lines[R + 1..E] == e[r + 1..|e| - 1];
    assert lines[E..] == e[|e| - 1..] + b;
  }

  /** The line of an entry where the block of a slug mentioned in it opens. */
  function OpensAt(e: Entry, slug: string): nat {
    match FirstContaining(EntryLines(e), Needle(slug))
    case None => 0
    case Some(s) =>
      var r := LastContaining(UpTo(EntryLines(e), s, Find(EntryLines(e)[s], Needle(slug)).value), ENTRY_OPEN);
      if r.None? then 0 else r.value
  }

  /** What is left of an entry after the rewrite of a slug first mentioned in it. */
  function Rewritten(e: Entry, slug: string, live: ResolvedUrls): Entry {
    RetargetFrom(e, FieldsAbove(e, OpensAt(e, slug)), live)
  }

  /** A mention at or above the slug line, or no opening in a field: the whole entry is rewritten. */
  lemma WholeEntryRewritten(e: Entry, slug: string, live: ResolvedUrls)
    requires EntryOk(e) && SlugOk(slug) && EntryMentions(e, slug)
    requires || FirstContaining(EntryLines(e), Needle(slug)).value <= |e.above| + 1
             || forall i :: 0 <= i < |e.fields| ==> !Contains(FieldLine(e.fields[i]), ENTRY_OPEN)
    ensures Rewritten(e, slug, live) == Retarget(e, live)
  {
    hide FirstContaining, LastContaining, Find, FindFrom, Needle, FieldLine, EntryLines, OpensAt, Contains;
    MentionInsideEntry(e, slug);
    RetargetWhole(e, live);
    var r := OpensAt(e, slug);
    if r > |e.above| + 1 {
      OpeningLine(e, slug);
      FieldLineAt(e, r);
    }
  }

  lemma OpeningLine(e: Entry, slug: string)
    requires EntryOk(e) && SlugOk(slug) && EntryMentions(e, slug)
    ensures OpensAt(e, slug) < |EntryLines(e)| && Contains(EntryLines(e)[OpensAt(e, slug)], ENTRY_OPEN)
  {
    hide FirstContaining, LastContaining, FindFrom, Needle, EntryLines, OpensAt, EntryOk;
    MentionInsideEntry(e, slug);
    var lines, r := EntryLines(e), OpensAt(e, slug);
    var s := FirstContaining(lines, Needle(slug)).value;
    var above := UpTo(lines, s, Find(lines[s], Needle(slug)).value);
    ContainsInPrefix(lines[r], |above[r]|, ENTRY_OPEN);
  }

  lemma {:induction false} FirstIsFirst(lines: seq<string>, n: string, i: nat)
    requires i < |lines| && Contains(lines[i], n)
    ensures FirstContaining(lines, n).Some? && FirstContaining(lines, n).value <= i
  {
    if i > 0 { FirstIsFirst(lines[1..], n, i - 1); }
  }

  /** An entry asked for by its own slug is rewritten as a whole. */
  lemma OwnEntryRewritten(e: Entry, live: ResolvedUrls)
    requires EntryOk(e)
    ensures EntryMentions(e, e.slug) && Rewritten(e, e.slug, live) == Retarget(e, live)
  {
    hide FindFrom, Needle, FieldLine, Rewritten, FirstContaining;
    MentionsItself(e);
    SlugLineNames(e.slug, e.slug);
    assert EntryLines(e)[|e.above| + 1] == SlugLine(e.slug);
    FirstIsFirst(EntryLines(e), Needle(e.slug), |e.above| + 1);
    WholeEntryRewritten(e, e.slug, live);
  }

  /** The block of a slug mentioned in an entry stays inside that entry. */
  lemma MentionInsideEntry(e: Entry, slug: string)
    requires EntryOk(e) && SlugOk(slug) && EntryMentions(e, slug)
    ensures var s := FirstContaining(EntryLines(e), Needle(slug)).value;
            var c := Find(EntryLines(e)[s], Needle(slug)).value;
            && 0 < s < |EntryLines(e)| - 1 && OpensAt(e, slug) <= s
            && LastContaining(UpTo(EntryLines(e), s, c), ENTRY_OPEN) == Some(OpensAt(e, slug))
            && FirstStarting(EntryLines(e)[s + 1..], ENTRY_CLOSE) == Some(|EntryLines(e)| - 2 - s)
  {
    hide FirstContaining, LastContaining, FirstStarting, FindFrom, Needle, EntryLines, FieldLine, OccursAt;
    var lines, n := EntryLines(e), Needle(slug);
    var s := FirstContaining(lines, n).value;
    FixedLinesAreQuiet(slug);
    LastLineCloses(e);
    var c := Find(lines[s], n).value;
    NoneContaining(UpTo(lines, s, c), ENTRY_OPEN);
    assert UpTo(lines, s, c)[0] == OPENING;
    var below := lines[s + 1..|lines| - 1];
    forall i | 0 <= i < |below| ensures !StartsWith(below[i], ENTRY_CLOSE) {
      EntryLineAt(e, ResolvedUrls("", "", ""), s + 1 + i);
    }
    NoneStarting(below, ENTRY_CLOSE);
    assert lines[s + 1..] == below + [ENTRY_CLOSE];
    FirstStartingAppend(below, [ENTRY_CLOSE], ENTRY_CLOSE);
    ClosingStarts();
  }

  lemma ClosingStarts()
    ensures FirstStarting([ENTRY_CLOSE], ENTRY_CLOSE) == Some(0)
  {
    assert ENTRY_CLOSE[..|ENTRY_CLOSE|] == ENTRY_CLOSE;
  }

  lemma ContainsInPrefix(line: string, c: nat, n: string)
    requires c <= |line|
    ensures Contains(line[..c], n) ==> Contains(line, n)
  {
    hide FindFrom;
    if Contains(line[..c], n) {
      var d := Find(line[..c], n).value;
      assert line[d..d + |n|] == line[..c][d..d + |n|];
      assert OccursAt(line, n, d);
    }
  }

  lemma {:induction false} EntriesBeforeAreSilent(entries: seq<Entry>, slug: string)
    requires forall j :: 0 <= j < |entries| ==> !EntryMentions(entries[j], slug)
    ensures NoneMention(EntriesLines(entries), slug)
  {
    if entries != [] {
      EntriesBeforeAreSilent(entries[1..], slug);
      FirstContainingAppend(EntryLines(entries[0]), EntriesLines(entries[1..]), Needle(slug));
    }
  }

  /** The lines of a catalog, around its entry `k`. */
  lemma LinesAround(c: Catalog, k: nat, e: Entry)
    requires k < |c.entries|
    ensures CatalogLines(c.(entries := c.entries[k := e])) ==
            (c.preamble + EntriesLines(c.entries[..k])) + EntryLines(e) + (EntriesLines(c.entries[k + 1..]) + c.postamble)
  {
    var es := c.entries[k := e];
    assert es == c.entries[..k] + ([e] + c.entries[k + 1..]);
    assert ([e] + c.entries[k + 1..])[1..] == c.entries[k + 1..];
    EntriesLinesAppend(c.entries[..k], [e] + c.entries[k + 1..]);
  }

  lemma {:induction false} EntriesOneLine(entries: seq<Entry>)
    requires forall i :: 0 <= i < |entries| ==> EntryOk(entries[i])
    ensures AllOneLine(EntriesLines(entries))
  {
    if entries != [] {
      EntriesOneLine(entries[1..]);
      EntryOneLine(entries[0]);
    }
  }

  lemma EntryOneLine(e: Entry)
    requires EntryOk(e)
    ensures AllOneLine(EntryLines(e))
  {
    hide FindFrom, IsUrlLine, StartsWith, StripCr, Contains;
  }

  lemma EmptyJoin()
    ensures Join([], '\n') == ""
  {
  }

  lemma EmptyNeverFound(slug: string, live: ResolvedUrls)
    ensures RewriteEntryUrls("", slug, live) == Err(SlugNotFound)
  {
  }

  /**
    Without a mention above the entries: in the first entry that mentions the slug,
    the URL fields below the nearest opening above that mention get the new URLs,
    and no other byte changes; with no mention anywhere the rewrite is refused.
  */
  lemma RewriteFromEntries(c: Catalog, slug: string, live: ResolvedUrls)
    requires Layout(c) && SlugOk(slug) && NoneMention(c.preamble, slug)
    ensures match FirstMentioning(c.entries, slug)
            case Some(k) => RewriteEntryUrls(Print(c), slug, live) ==
                            Ok(Print(Replace(c, k, Rewritten(c.entries[k], slug, live))))
            case None => NoneMention(c.postamble, slug) ==> RewriteEntryUrls(Print(c), slug, live) == Err(SlugNotFound)
  {
    hide FirstContaining, RewriteEntryUrls, Needle, EntryOk, EntryLines, EntriesLines, RewriteBlock, Join, UpTo, LastContaining, FirstStarting, FindFrom;
    EntriesOneLine(c.entries);
    match FirstMentioning(c.entries, slug)
    case Some(k) =>
      var e := c.entries[k];
      var a, b := c.preamble + EntriesLines(c.entries[..k]), EntriesLines(c.entries[k + 1..]) + c.postamble;
      EntriesBeforeAreSilent(c.entries[..k], slug);
      FirstContainingAppend(c.preamble, EntriesLines(c.entries[..k]), Needle(slug));
      LinesAround(c, k, e);
      assert c.entries[k := e] == c.entries;
      LinesAround(c, k, Rewritten(e, slug, live));
      MentionInsideEntry(e, slug);
      var s := FirstContaining(EntryLines(e), Needle(slug)).value;
      BlockInContext(a, EntryLines(e), b, slug, live, s, OpensAt(e, slug));
      EntryBlockRewritten(e, OpensAt(e, slug), live);
      RewriteIsLineRewrite(CatalogLines(c), slug, live);
    case None =>
      if CatalogLines(c) == [] {
        assert Print(c) == "" by { EmptyJoin(); }
        EmptyNeverFound(slug, live);
      } else if NoneMention(c.postamble, slug) {
        EntriesBeforeAreSilent(c.entries, slug);
        FirstContainingAppend(c.preamble, EntriesLines(c.entries), Needle(slug));
        FirstContainingAppend(c.preamble + EntriesLines(c.entries), c.postamble, Needle(slug));
        RewriteIsLineRewrite(CatalogLines(c), slug, live);
      }
  }

  // ---- a mention above the entries ------------------------------------------------

  /** The line of the preamble where the block of a slug mentioned there opens. */
  function PreambleOpening(p: seq<string>, slug: string): (r: Option<nat>)
    ensures r.Some? ==> r.value < |p|
  {
    match FirstContaining(p, Needle(slug))
    case None => None
    case Some(s) => LastContaining(UpTo(p, s, Find(p[s], Needle(slug)).value), ENTRY_OPEN)
  }

  /** The line of the preamble where that block closes, if it closes there. */
  function PreambleClosing(p: seq<string>, slug: string): (r: Option<nat>)
    ensures r.Some? ==> FirstContaining(p, Needle(slug)).Some? && FirstContaining(p, Needle(slug)).value < r.value < |p|
  {
    match FirstContaining(p, Needle(slug))
    case None => None
    case Some(s) => Shift(FirstStarting(p[s + 1..], ENTRY_CLOSE), s + 1)
  }

  /** The lines from `r` on, as part of a block that closes below them. */
  function TailRewritten(p: seq<string>, r: nat, live: ResolvedUrls): (q: seq<string>)
    requires r < |p|
    ensures |q| == |p|
  {
    p[..r] + [StripCr(p[r])] + RewriteAll(StripAll(p[r + 1..]), live)
  }

  lemma EntryClosesLast(e: Entry)
    requires EntryOk(e)
    ensures FirstStarting(EntryLines(e), ENTRY_CLOSE) == Some(|EntryLines(e)| - 1)
  {
    hide EntryLines, FirstStarting, EntryOk;
    var lines := EntryLines(e);
    var front := lines[..|lines| - 1];
    LastLineCloses(e);
    OpeningDoesNotClose();
    forall i | 0 <= i < |front| ensures !StartsWith(front[i], ENTRY_CLOSE) {
      if i > 0 { EntryLineAt(e, ResolvedUrls("", "", ""), i); }
    }
    NoneStarting(front, ENTRY_CLOSE);
    assert lines == front + [ENTRY_CLOSE];
    FirstStartingAppend(front, [ENTRY_CLOSE], ENTRY_CLOSE);
    ClosingStarts();
  }

  lemma OpeningDoesNotClose()
    ensures !StartsWith(OPENING, ENTRY_CLOSE)
  {
    assert OPENING[4] == 'E' && ENTRY_CLOSE[4] == '}';
  }

  lemma {:induction false} StripAllAppend(a: seq<string>, b: seq<string>)
    ensures StripAll(a + b) == StripAll(a) + StripAll(b)
  {
    if a == [] {
      assert a + b == b;
    } else {
      assert (a + b)[1..] == a[1..] + b;
      StripAllAppend(a[1..], b);
    }
  }

  /** All lines of an entry but the last, as part of a block that opened above them. */
  lemma WholeEntryInBlock(e: Entry, live: ResolvedUrls)
    requires EntryOk(e)
    ensures var last := |EntryLines(e)| - 1;
            RewriteAll(StripAll(EntryLines(e)[..last]), live) == EntryLines(Retarget(e, live))[..last]
  {
    hide RewriteLine, StripCr, EntryLines, StripAll, RewriteAll, EntryOk;
    var last := |EntryLines(e)| - 1;
    var lines := EntryLines(e)[..last];
    forall i | 0 <= i < last ensures RewriteAll(StripAll(lines), live)[i] == EntryLines(Retarget(e, live))[i] {
      StripAllAt(lines, i);
      RewriteAllAt(StripAll(lines), i, live);
      EntryLineAt(e, live, i);
    }
  }

  /** A block that opens in the lines `p` and closes with the entry right below them. */
  lemma BlockIntoEntry(p: seq<string>, e: Entry, q: seq<string>, r: nat, live: ResolvedUrls)
    requires EntryOk(e) && r < |p|
    ensures RewriteBlock(p + (EntryLines(e) + q), r, |p| + |EntryLines(e)| - 1, live) ==
            TailRewritten(p, r, live) + (EntryLines(Retarget(e, live)) + q)
  {
    hide RewriteAll, StripAll, StripCr, EntryLines, EntryOk;
    var old', new' := EntryLines(e), EntryLines(Retarget(e, live));
    var last, lines := |old'| - 1, p + (EntryLines(e) + q);
    assert lines[r + 1..|p| + last] == p[r + 1..] + old'[..last];
    StripAllAppend(p[r + 1..], old'[..last]);
    RewriteAllAppend(StripAll(p[r + 1..]), StripAll(old'[..last]), live);
    WholeEntryInBlock(e, live);
    LastLineCloses(e);
    LastLineCloses(Retarget(e, live));
    assert new' == new'[..last] + [ENTRY_CLOSE];
    assert lines[|p| + last..] == [ENTRY_CLOSE] + q;
    assert lines[..r] == p[..r] && lines[r] == p[r];
  }

  /** The line rewrite, when the first mention is among the lines `p` above an entry. */
  lemma RewriteLinesFromAbove(p: seq<string>, e: Entry, q: seq<string>, slug: string, live: ResolvedUrls)
    requires EntryOk(e) && !NoneMention(p, slug)
    ensures RewriteLines(p + (EntryLines(e) + q), slug, live) ==
            match PreambleOpening(p, slug)
            case None => Err(EntryStartNotFound)
            case Some(r) =>
              var s := FirstContaining(p, Needle(slug)).value;
              match PreambleClosing(p, slug)
              case Some(end) =>
                if r < end then Ok(RewriteBlock(p, r, end, live) + (EntryLines(e) + q))
                else Err(EntryEndNotFound)
              case None => Ok(TailRewritten(p, r, live) + (EntryLines(Retarget(e, live)) + q))
  {
    hide FirstContaining, LastContaining, FirstStarting, Find, FindFrom, StartsWith, Needle, RewriteBlock, EntryLines, EntryOk,
         TailRewritten;
    var rest, n := EntryLines(e) + q, Needle(slug);
    var lines := p + rest;
    FirstContainingAppend(p, rest, n);
    var s := FirstContaining(p, n).value;
    var c := Find(p[s], n).value;
    assert lines[s] == p[s] && UpTo(lines, s, c) == UpTo(p, s, c);
    assert lines[s + 1..] == p[s + 1..] + rest;
    FirstStartingAppend(p[s + 1..], rest, ENTRY_CLOSE);
    FirstStartingAppend(EntryLines(e), q, ENTRY_CLOSE);
    EntryClosesLast(e);
    var opening, closing := PreambleOpening(p, slug), PreambleClosing(p, slug);
    if opening.Some? && closing.None? {
      BlockIntoEntry(p, e, q, opening.value, live);
    } else if opening.Some? {
      BlockKeepsRest(p, rest, opening.value, closing.value, live);
    }
  }

  lemma BlockKeepsRest(p: seq<string>, rest: seq<string>, r: nat, e: nat, live: ResolvedUrls)
    requires r < e < |p|
    ensures RewriteBlock(p + rest, r, e, live) == RewriteBlock(p, r, e, live) + rest
  {
    hide RewriteAll, StripAll, StripCr;
    assert (p + rest)[..r] == p[..r] && (p + rest)[r + 1..e] == p[r + 1..e] && (p + rest)[e..] == p[e..] + rest;
  }

  /** The catalog after a rewrite whose first mention stands above the entries. */
  function FromPreamble(c: Catalog, slug: string, live: ResolvedUrls): Result<Catalog, RewriteError>
    requires c.entries != [] && !NoneMention(c.preamble, slug)
  {
    match PreambleOpening(c.preamble, slug)
    case None => Err(EntryStartNotFound)
    case Some(r) =>
      match PreambleClosing(c.preamble, slug)
      case Some(end) => OpeningAbove(c.preamble, slug); Ok(c.(preamble := RewriteBlock(c.preamble, r, end, live)))
      case None => Ok(RetargetAt(c, 0, live).(preamble := TailRewritten(c.preamble, r, live)))
  }

  lemma OpeningAbove(p: seq<string>, slug: string)
    requires PreambleOpening(p, slug).Some? && PreambleClosing(p, slug).Some?
    ensures PreambleOpening(p, slug).value < PreambleClosing(p, slug).value
  {
    hide FirstContaining, LastContaining, FirstStarting, Find, FindFrom, Needle;
  }

  /**
    A mention above the entries: the block opens above it and closes above the
    entries, or with the first entry, whatever entry was asked for.
  */
  lemma RewriteFromPreamble(c: Catalog, slug: string, live: ResolvedUrls)
    requires Layout(c) && SlugOk(slug) && c.entries != [] && !NoneMention(c.preamble, slug)
    ensures RewriteEntryUrls(Print(c), slug, live) ==
            match FromPreamble(c, slug, live)
            case Ok(u) => Ok(Print(u))
            case Err(why) => Err(why)
  {
    hide FirstContaining, RewriteEntryUrls, Needle, EntryOk, EntryLines, RewriteBlock, Join, RewriteLines, TailRewritten,
         PreambleOpening, PreambleClosing, NoneMention;
    var e, q := c.entries[0], EntriesLines(c.entries[1..]) + c.postamble;
    EntriesOneLine(c.entries);
    assert CatalogLines(c) == c.preamble + (EntryLines(e) + q);
    RewriteIsLineRewrite(CatalogLines(c), slug, live);
    RewriteLinesFromAbove(c.preamble, e, q, slug, live);
    if PreambleOpening(c.preamble, slug).Some? {
      if PreambleClosing(c.preamble, slug).Some? {
        OpeningAbove(c.preamble, slug);
      } else {
        var es := RetargetAt(c, 0, live).entries;
        assert es[0] == Retarget(e, live) && es[1..] == c.entries[1..];
      }
      var u := FromPreamble(c, slug, live).value;
      assert CatalogLines(u) == u.preamble + (EntryLines(u.entries[0]) + q);
    }
  }

  /**
    The exact effect on catalogs in the source layout, by where the slug is first
    mentioned: above the entries, in an entry, or nowhere.
  */
  lemma RewriteTargetsFirstMention(c: Catalog, slug: string, live: ResolvedUrls)
    requires Layout(c) && SlugOk(slug)
    ensures !NoneMention(c.preamble, slug) && c.entries != [] ==>
              RewriteEntryUrls(Print(c), slug, live) ==
                match FromPreamble(c, slug, live) case Ok(u) => Ok(Print(u)) case Err(why) => Err(why)
    ensures NoneMention(c.preamble, slug) ==>
              match FirstMentioning(c.entries, slug)
              case Some(k) => RewriteEntryUrls(Print(c), slug, live) == Ok(Print(Replace(c, k, Rewritten(c.entries[k], slug, live))))
              case None => NoneMention(c.postamble, slug) ==> RewriteEntryUrls(Print(c), slug, live) == Err(SlugNotFound)
  {
    hide RewriteEntryUrls, FirstMentioning, NoneMention, FromPreamble, Print, Rewritten, Layout;
    if NoneMention(c.preamble, slug) {
      RewriteFromEntries(c, slug, live);
    } else if c.entries != [] {
      RewriteFromPreamble(c, slug, live);
    }
  }

  // ---- when the entry asked for is the entry changed -----------------------------

  ghost predicate UniqueSlugs(c: Catalog) {
    forall i, j :: 0 <= i < j < |c.entries| ==> c.entries[i].slug != c.entries[j].slug
  }

  ghost predicate HasIsoUrl(e: Entry) {
    exists i :: 0 <= i < |e.fields| && e.fields[i].IsoUrl?
  }

  lemma {:induction false} EntriesLinesAt(entries: seq<Entry>, k: nat, i: nat)
    requires k < |entries| && i < |EntryLines(entries[k])|
    ensures |EntriesLines(entries[..k])| + i < |EntriesLines(entries)|
    ensures EntriesLines(entries)[|EntriesLines(entries[..k])| + i] == EntryLines(entries[k])[i]
  {
    assert entries == entries[..k] + entries[k..];
    EntriesLinesAppend(entries[..k], entries[k..]);
  }

  lemma PrintIsInjective(c: Catalog, d: Catalog)
    requires Layout(c) && Layout(d) && |CatalogLines(c)| > 0 && |CatalogLines(d)| > 0
    ensures Print(c) == Print(d) ==> CatalogLines(c) == CatalogLines(d)
  {
    hide Join, Split, EntryOk, EntriesLines;
    EntriesOneLine(c.entries);
    EntriesOneLine(d.entries);
    SplitOfJoin(CatalogLines(c), '\n');
    SplitOfJoin(CatalogLines(d), '\n');
  }

  /** Line `at` of entry `k`, found in the lines of the whole catalog. */
  lemma CatalogLineAt(c: Catalog, k: nat, at: nat)
    requires k < |c.entries| && at < |EntryLines(c.entries[k])|
    ensures var p := |c.preamble| + |EntriesLines(c.entries[..k])| + at;
            p < |CatalogLines(c)| && CatalogLines(c)[p] == EntryLines(c.entries[k])[at]
  {
    hide EntriesLines, EntryLines;
    EntriesLinesAt(c.entries, k, at);
  }

  lemma {:induction false} SameLengths(a: seq<Entry>, b: seq<Entry>)
    requires |a| == |b| && forall j :: 0 <= j < |a| ==> |EntryLines(a[j])| == |EntryLines(b[j])|
    ensures |EntriesLines(a)| == |EntriesLines(b)|
  {
    if a != [] { SameLengths(a[1..], b[1..]); }
  }

  /** The same shape as `c`, with entry `i` as it was. */
  ghost predicate LeavesAlone(c: Catalog, u: Catalog, i: nat) {
    && Layout(u) && |u.preamble| == |c.preamble| && i < |u.entries| == |c.entries| && u.entries[i] == c.entries[i]
    && forall j :: 0 <= j < |c.entries| ==> |EntryLines(u.entries[j])| == |EntryLines(c.entries[j])|
  }

  /** A longer ISO URL in entry `i` shows in the text, whatever happened elsewhere. */
  lemma RetargetShows(c: Catalog, u: Catalog, i: nat, f: nat, live: ResolvedUrls)
    requires Layout(c) && UrlsOk(live) && LeavesAlone(c, u, i) && f < |c.entries[i].fields|
    requires c.entries[i].fields[f].IsoUrl? && |c.entries[i].fields[f].url| < |live.isoUrl|
    ensures Print(u) != Print(RetargetAt(c, i, live))
  {
    hide Layout, EntryOk, UrlsOk, CatalogLines, EntriesLines, Print;
    var at := |c.entries[i].above| + 2 + f;
    var ci := RetargetAt(c, i, live);
    RetargetKeepsLayout(c, i, live);
    CatalogLineAt(u, i, at);
    CatalogLineAt(ci, i, at);
    SameLengths(u.entries[..i], ci.entries[..i]);
    assert EntryLines(ci.entries[i])[at] == FieldLine(IsoUrl(live.isoUrl));
    assert EntryLines(u.entries[i])[at] == FieldLine(c.entries[i].fields[f]);
    PrintIsInjective(u, ci);
  }

  lemma ReplaceKeepsLayout(c: Catalog, k: nat, e: Entry)
    requires Layout(c) && EntryOk(e) && k < |c.entries|
    ensures Layout(Replace(c, k, e))
  {
    hide EntryOk;
  }

  lemma RewrittenKeepsShape(e: Entry, slug: string, live: ResolvedUrls)
    requires EntryOk(e) && UrlsOk(live)
    ensures EntryOk(Rewritten(e, slug, live)) && |EntryLines(Rewritten(e, slug, live))| == |EntryLines(e)|
  {
    hide PlainLine, UrlOk, SlugOk, OpensAt, FieldsAbove;
    var e' := Rewritten(e, slug, live);
    forall f | 0 <= f < |e'.fields| ensures FieldOk(e'.fields[f]) {
      assert FieldOk(e.fields[f]);
    }
  }

  lemma RetargetKeepsLayout(c: Catalog, k: nat, live: ResolvedUrls)
    requires Layout(c) && UrlsOk(live) && k < |c.entries|
    ensures Layout(RetargetAt(c, k, live))
  {
    hide PlainLine, UrlOk, SlugOk, Contains, FindFrom;
    var e := Retarget(c.entries[k], live);
    assert EntryOk(e) by {
      assert EntryOk(c.entries[k]);
      forall f | 0 <= f < |e.fields| ensures FieldOk(e.fields[f]) {
        assert FieldOk(c.entries[k].fields[f]);
      }
    }
  }

  lemma MentionsItself(e: Entry)
    requires EntryOk(e)
    ensures EntryMentions(e, e.slug)
  {
    hide FindFrom, Needle, FieldLine;
    SlugLineNames(e.slug, e.slug);
    NoneContaining(EntryLines(e), Needle(e.slug));
    assert EntryLines(e)[|e.above| + 1] == SlugLine(e.slug);
  }

  /** Nothing in these lines is a URL field, and none from `r` on ends in a carriage return. */
  ghost predicate SurvivesFrom(p: seq<string>, r: nat) {
    forall j :: r <= j < |p| ==> StripCr(p[j]) == p[j] && (j > r ==> !IsUrlLine(p[j]))
  }

  /**
    The lines above the entries do not mention entry `i`'s slug; or the entry is the
    first one, the block opens above the mention and reaches down into the entry, and
    nothing on the way is rewritten.
  */
  ghost predicate PreambleSpares(c: Catalog, i: nat, slug: string) {
    NoneMention(c.preamble, slug) ||
    (i == 0 && PreambleClosing(c.preamble, slug).None? &&
     PreambleOpening(c.preamble, slug).Some? && SurvivesFrom(c.preamble, PreambleOpening(c.preamble, slug).value))
  }

  /** The rewrite of entry `i`'s slug lands on entry `i` as a whole. */
  ghost predicate ReachesOwn(c: Catalog, i: nat) {
    i < |c.entries| && PreambleSpares(c, i, c.entries[i].slug) &&
    forall k :: 0 <= k < i ==> !EntryMentions(c.entries[k], c.entries[i].slug)
  }

  lemma TailKept(p: seq<string>, r: nat, live: ResolvedUrls)
    requires r < |p| && SurvivesFrom(p, r)
    ensures TailRewritten(p, r, live) == p
  {
    hide StripCr, RewriteAll, StripAll;
    var q := TailRewritten(p, r, live);
    forall j | 0 <= j < |p| ensures q[j] == p[j] {
      if j > r { TailLineAt(p, r, live, j); }
    }
  }

  lemma TailLineAt(p: seq<string>, r: nat, live: ResolvedUrls, j: nat)
    requires r < j < |p|
    ensures TailRewritten(p, r, live)[j] == RewriteLine(StripCr(p[j]), live)
  {
    hide StripCr, RewriteLine, RewriteAll, StripAll;
    StripAllAt(p[r + 1..], j - r - 1);
    RewriteAllAt(StripAll(p[r + 1..]), j - r - 1, live);
  }

  /** URLs longer than a whole line. */
  function Wide(n: nat): ResolvedUrls {
    var url := seq(n, _ => 'x');
    ResolvedUrls(url, url, url)
  }

  lemma WideShows(line: string, live: ResolvedUrls)
    requires |live.isoUrl| >= |line| && |live.sha256Url| >= |line| && |live.sigUrl| >= |line|
    requires StripCr(line) != line || IsUrlLine(line)
    ensures RewriteLine(StripCr(line), live) != line
  {
    hide StartsWith;
    assert |ISO_PREFIX| > 0 && |SHA_PREFIX| > 0 && |SIG_PREFIX| > 0;
  }

  /** URLs under which rewritten lines differ from the lines, when some line does not survive. */
  lemma TailChanges(p: seq<string>, r: nat) returns (live: ResolvedUrls)
    requires r < |p| && !SurvivesFrom(p, r)
    ensures UrlsOk(live) && TailRewritten(p, r, live) != p
  {
    hide StripCr, RewriteLine, RewriteAll, StripAll, IsUrlLine;
    var j :| r <= j < |p| && !(StripCr(p[j]) == p[j] && (j > r ==> !IsUrlLine(p[j])));
    live := Wide(|p[j]|);
    if j > r {
      WideShows(p[j], live);
      TailLineAt(p, r, live, j);
    } else {
      assert TailRewritten(p, r, live)[r] == StripCr(p[r]);
    }
  }

  lemma OneLineStays(p: seq<string>, r: nat, e: nat, live: ResolvedUrls)
    requires AllOneLine(p) && UrlsOk(live) && r < |p|
    ensures AllOneLine(TailRewritten(p, r, live))
    ensures r < e < |p| ==> AllOneLine(RewriteBlock(p, r, e, live))
  {
    hide RewriteAll, StripAll;
    forall lines: seq<string> | AllOneLine(lines) ensures AllOneLine(RewriteAll(StripAll(lines), live)) {
      forall j | 0 <= j < |lines| ensures '\n' !in RewriteAll(StripAll(lines), live)[j] {
        StripAllAt(lines, j);
        RewriteAllAt(StripAll(lines), j, live);
        OneLineRewritten(lines[j], live);
      }
    }
  }

  lemma OneLineRewritten(line: string, live: ResolvedUrls)
    requires '\n' !in line && UrlsOk(live)
    ensures '\n' !in RewriteLine(StripCr(line), live)
  {
    hide StartsWith;
  }

  /** Entry `i` reaches its own text: for all URLs its rewrite is its update. */
  lemma OwnRewriteCommutes(c: Catalog, i: nat, live: ResolvedUrls)
    requires Layout(c) && ReachesOwn(c, i)
    ensures RewriteEntryUrls(Print(c), c.entries[i].slug, live) == Ok(Print(RetargetAt(c, i, live)))
  {
    hide RewriteEntryUrls, EntryMentions, Print, FirstMentioning, Rewritten, UrlsOk, PreambleOpening, PreambleClosing,
         SurvivesFrom, TailRewritten, NoneMention;
    var slug := c.entries[i].slug;
    MentionsItself(c.entries[i]);
    if NoneMention(c.preamble, slug) {
      RewriteFromEntries(c, slug, live);
      OwnEntryRewritten(c.entries[i], live);
    } else {
      RewriteFromPreamble(c, slug, live);
      TailKept(c.preamble, PreambleOpening(c.preamble, slug).value, live);
    }
  }

  /** An earlier mention in an entry: some URLs show that the wrong lines were rewritten. */
  lemma EntryMisdirects(c: Catalog, i: nat) returns (live: ResolvedUrls)
    requires Layout(c) && i < |c.entries| && HasIsoUrl(c.entries[i]) && NoneMention(c.preamble, c.entries[i].slug)
    requires exists k :: 0 <= k < i && EntryMentions(c.entries[k], c.entries[i].slug)
    ensures UrlsOk(live) && RewriteEntryUrls(Print(c), c.entries[i].slug, live) != Ok(Print(RetargetAt(c, i, live)))
  {
    hide RewriteEntryUrls, EntryMentions, Print, FirstMentioning, Rewritten, UrlsOk, EntryOk, EntryLines;
    var e, slug := c.entries[i], c.entries[i].slug;
    OwnSlugOk(c, i);
    var k := FirstMentioning(c.entries, slug).value;
    var f :| 0 <= f < |e.fields| && e.fields[f].IsoUrl?;
    live := LongerUrl(e.fields[f].url);
    IsoUrlOk(e, f);
    RewrittenKeepsShape(c.entries[k], slug, live);
    var u := Replace(c, k, Rewritten(c.entries[k], slug, live));
    ReplaceKeepsLayout(c, k, u.entries[k]);
    assert LeavesAlone(c, u, i);
    RetargetShows(c, u, i, f, live);
    RewriteFromEntries(c, slug, live);
  }

  /** A mention above the entries that is not spared: the same. */
  lemma PreambleMisdirects(c: Catalog, i: nat) returns (live: ResolvedUrls)
    requires Layout(c) && i < |c.entries| && HasIsoUrl(c.entries[i]) && !PreambleSpares(c, i, c.entries[i].slug)
    ensures UrlsOk(live) && RewriteEntryUrls(Print(c), c.entries[i].slug, live) != Ok(Print(RetargetAt(c, i, live)))
  {
    hide RewriteEntryUrls, Print, UrlsOk, PreambleOpening, PreambleClosing, SurvivesFrom, TailRewritten, NoneMention, RewriteBlock,
         EntryOk, EntryLines;
    var e, slug := c.entries[i], c.entries[i].slug;
    OwnSlugOk(c, i);
    var opening, closing := PreambleOpening(c.preamble, slug), PreambleClosing(c.preamble, slug);
    if i == 0 && opening.Some? && closing.None? {
      live := TailChanges(c.preamble, opening.value);
      OneLineStays(c.preamble, opening.value, 0, live);
      var u, ci := FromPreamble(c, slug, live).value, RetargetAt(c, 0, live);
      RetargetKeepsLayout(c, 0, live);
      assert Layout(u);
      assert u.entries == ci.entries && |u.preamble| == |ci.preamble|;
      assert CatalogLines(u)[..|u.preamble|] == u.preamble && CatalogLines(ci)[..|ci.preamble|] == c.preamble;
      SomeLines(u);
      SomeLines(ci);
      PrintIsInjective(u, ci);
    } else {
      var f :| 0 <= f < |e.fields| && e.fields[f].IsoUrl?;
      live := LongerUrl(e.fields[f].url);
      IsoUrlOk(e, f);
      if opening.Some? {
        var u := FromPreamble(c, slug, live).value;
        if closing.Some? { OpeningAbove(c.preamble, slug); }
        OneLineStays(c.preamble, opening.value, if closing.Some? then closing.value else 0, live);
        RetargetKeepsLayout(c, 0, live);
        assert Layout(u);
        RetargetedShape(c.entries[0], live);
        BlockLength(c.preamble, opening.value, if closing.Some? then closing.value else 0, live);
        assert LeavesAlone(c, u, i);
        RetargetShows(c, u, i, f, live);
      }
    }
    RewriteFromPreamble(c, slug, live);
  }

  lemma SomeLines(c: Catalog)
    requires c.entries != []
    ensures |CatalogLines(c)| > 0
  {
  }

  lemma RetargetedShape(e: Entry, live: ResolvedUrls)
    ensures |EntryLines(Retarget(e, live))| == |EntryLines(e)|
  {
  }

  lemma BlockLength(p: seq<string>, r: nat, e: nat, live: ResolvedUrls)
    ensures r < e < |p| ==> |RewriteBlock(p, r, e, live)| == |p|
  {
  }

  /**
    Rewriting commutes with printing for entry `i` and every set of URLs if and only
    if no earlier entry and no line above the entries mentions its slug, not even
    in a comment; a mention above the first entry is harmless to that entry exactly
    when the block still closes there and rewrites nothing on the way.
  */
  lemma RewriteCommutesWithPrintIff(c: Catalog, i: nat)
    requires Layout(c) && i < |c.entries| && HasIsoUrl(c.entries[i])
    ensures (forall live: ResolvedUrls | UrlsOk(live) ::
               RewriteEntryUrls(Print(c), c.entries[i].slug, live) == Ok(Print(RetargetAt(c, i, live))))
            <==> ReachesOwn(c, i)
  {
    hide RewriteEntryUrls, EntryMentions, Print, UrlsOk, RetargetAt, PreambleSpares, Layout, HasIsoUrl;
    if ReachesOwn(c, i) {
      forall live: ResolvedUrls | UrlsOk(live)
        ensures RewriteEntryUrls(Print(c), c.entries[i].slug, live) == Ok(Print(RetargetAt(c, i, live)))
      {
        OwnRewriteCommutes(c, i, live);
      }
    } else if PreambleSpares(c, i, c.entries[i].slug) {
      var live := SparedEntryMisdirects(c, i);
    } else {
      var live := PreambleMisdirects(c, i);
    }
  }

  lemma SparedEntryMisdirects(c: Catalog, i: nat) returns (live: ResolvedUrls)
    requires Layout(c) && i < |c.entries| && HasIsoUrl(c.entries[i])
    requires PreambleSpares(c, i, c.entries[i].slug) && !ReachesOwn(c, i)
    ensures UrlsOk(live) && RewriteEntryUrls(Print(c), c.entries[i].slug, live) != Ok(Print(RetargetAt(c, i, live)))
  {
    hide RewriteEntryUrls, EntryMentions, Print, UrlsOk, RetargetAt, Layout, HasIsoUrl, NoneMention;
    live := EntryMisdirects(c, i);
  }

  function LongerUrl(url: string): ResolvedUrls {
    ResolvedUrls(url + "/", url, url)
  }

  lemma OwnSlugOk(c: Catalog, i: nat)
    requires Layout(c) && i < |c.entries|
    ensures SlugOk(c.entries[i].slug)
  {
    assert EntryOk(c.entries[i]);
  }

  lemma IsoUrlOk(e: Entry, f: nat)
    requires EntryOk(e) && f < |e.fields| && e.fields[f].IsoUrl?
    ensures UrlsOk(LongerUrl(e.fields[f].url))
  {
    assert FieldOk(e.fields[f]);
  }

  const MISLEADING := "        // unlike slug: \"b\""

  /** Two entries; a comment of the first quotes the slug line of the second. */
  const MISLED := Catalog([], [Entry([MISLEADING], "a", [IsoUrl("u")]), Entry([], "b", [IsoUrl("v")])], [])

  lemma MisledIsLaidOut()
    ensures Layout(MISLED) && EntryOk(MISLED.entries[0]) && SlugOk("b") && NoneMention([], "b")
  {
    hide FindFrom;
    assert MISLEADING[4] == ' ' && MISLEADING[8] == '/';
    assert ISO_PREFIX[8] == 'i' && SHA_PREFIX[8] == SIG_PREFIX[8] == 's';
    assert PlainLine(MISLEADING);
    assert UrlOk("u") && UrlOk("v");
  }

  /** A witness: a comment that quotes a later slug line redirects the rewrite. */
  lemma CommentMisdirectsRewrite(live: ResolvedUrls)
    ensures Layout(MISLED) && MISLED.entries[1].slug == "b"
    ensures RewriteEntryUrls(Print(MISLED), "b", live) == Ok(Print(RetargetAt(MISLED, 0, live)))
  {
    hide FindFrom, Find, Contains, RewriteEntryUrls, Print, Layout, Rewritten, EntryOk, FirstContaining, StartsWith;
    MisledIsLaidOut();
    MisledMentions();
    assert MISLED.entries[1].slug == "b";
    RewriteFromEntries(MISLED, "b", live);
    WholeEntryRewritten(MISLED.entries[0], "b", live);
  }

  /** The first entry names `b` in its comment line, line 1. */
  lemma MisledMentions()
    ensures EntryMentions(MISLED.entries[0], "b")
    ensures FirstContaining(EntryLines(MISLED.entries[0]), Needle("b")).value <= 1
  {
    hide FindFrom, FirstContaining;
    assert MISLEADING[18..27] == Needle("b");
    assert OccursAt(MISLEADING, Needle("b"), 18);
    assert EntryLines(MISLED.entries[0])[1] == MISLEADING;
    FirstIsFirst(EntryLines(MISLED.entries[0]), Needle("b"), 1);
  }

  const PREAMBLE_QUOTE := "// see slug: \"b\""

  /** One entry, and a line above it that quotes its slug. */
  const QUOTED_ABOVE := Catalog([PREAMBLE_QUOTE], [Entry([], "b", [IsoUrl("v")])], [])

  /** A witness: a quote above the entries, with no opening above it, refuses the rewrite of a listed slug. */
  lemma PreambleQuoteRefusesRewrite(live: ResolvedUrls)
    ensures Layout(QUOTED_ABOVE) && QUOTED_ABOVE.entries[0].slug == "b"
    ensures RewriteEntryUrls(Print(QUOTED_ABOVE), "b", live) == Err(EntryStartNotFound)
  {
    hide FindFrom, Find, Contains, RewriteEntryUrls, Print, FirstContaining, LastContaining;
    QuoteAbove();
    RewriteFromPreamble(QUOTED_ABOVE, "b", live);
    NothingOpens([PREAMBLE_QUOTE], "b");
  }

  /** No opening in any part of any line: the block of a mention there has no opening. */
  lemma NothingOpens(p: seq<string>, slug: string)
    requires forall i, c: nat | 0 <= i < |p| && c <= |p[i]| :: !Contains(p[i][..c], ENTRY_OPEN)
    ensures PreambleOpening(p, slug).None?
  {
    hide FindFrom, FirstContaining, LastContaining, Needle;
    var first := FirstContaining(p, Needle(slug));
    if first.Some? {
      var above := UpTo(p, first.value, Find(p[first.value], Needle(slug)).value);
      forall i | 0 <= i < |above| ensures !Contains(above[i], ENTRY_OPEN) {
        assert above[i] == p[i][..|above[i]|];
      }
      NoneContaining(above, ENTRY_OPEN);
    }
  }

  lemma QuoteAbove()
    ensures Layout(QUOTED_ABOVE) && SlugOk("b") && !NoneMention([PREAMBLE_QUOTE], "b")
    ensures forall c: nat | c <= |PREAMBLE_QUOTE| :: !Contains(PREAMBLE_QUOTE[..c], ENTRY_OPEN)
  {
    hide FindFrom;
    var p := PREAMBLE_QUOTE;
    assert UrlOk("v");
    assert p[7..16] == Needle("b");
    assert OccursAt(p, Needle("b"), 7);
    NoneContaining([p], Needle("b"));
    assert [p][0] == p;
    forall c: nat | c <= |p| ensures !Contains(p[..c], ENTRY_OPEN) {
      forall k ensures !OccursAt(p[..c], ENTRY_OPEN, k) {
        if 0 <= k && k + 7 <= c { assert p[..c][k..k + 7][0] == p[k]; }
      }
    }
  }
}
