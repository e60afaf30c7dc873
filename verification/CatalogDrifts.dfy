/**
  A whole list of drifts: what the fold over the source text does to the catalog
  and to the file, in any order, and once more.
*/
module CatalogDrifts {
  import opened Wrappers
  import opened Strings
  import opened CatalogText
  import opened CatalogRewrite

  datatype Drift = Drift(slug: string, live: ResolvedUrls)

  /** The fold of `write_catalog_drifts`; the first failing rewrite ends it. */
  function ApplyDrifts(text: string, drifts: seq<Drift>): Result<string, RewriteError>
    decreases |drifts|
  {
    if drifts == [] then Ok(text)
    else
      match RewriteEntryUrls(text, drifts[0].slug, drifts[0].live)
      case Err(e) => Err(e)
      case Ok(next) => ApplyDrifts(next, drifts[1..])
  }

  datatype WriteError = CatalogNotLocated | Unreadable | Unwritable | Rewrite(error: RewriteError)

  class SourceFile {
    var text: string

    constructor (text: string)
      ensures this.text == text
    {
      this.text := text;
    }
  }

  /** A file-system call works, or fails; a failed write may leave other text behind. */
  datatype Disk = Disk(readable: bool, writable: bool, leftover: Option<string>)

  /** The first candidate that is a file. */
  function Located(candidates: seq<SourceFile?>): SourceFile?
  {
    if candidates == [] then null
    else if candidates[0] != null then candidates[0]
    else Located(candidates[1..])
  }

  lemma {:induction false} LocatedIsFirst(candidates: seq<SourceFile?>) returns (i: nat)
    ensures i <= |candidates| && forall j :: 0 <= j < i ==> candidates[j] == null
    ensures Located(candidates) == if i < |candidates| then candidates[i] else null
  {
    if candidates == [] || candidates[0] != null {
      i := 0;
    } else {
      i := LocatedIsFirst(candidates[1..]);
      i := i + 1;
    }
  }

  /**
    The first candidate path that is a file is rewritten.  Nothing is written unless
    every drift applied and the text changed, which the result tells.
  */
  method WriteCatalogDrifts(candidates: seq<SourceFile?>, disk: Disk, drifts: seq<Drift>) returns (r: Result<bool, WriteError>)
    modifies Located(candidates)
    ensures Located(candidates) == null ==> r == Err(CatalogNotLocated)
    ensures var file := Located(candidates);
            file != null ==>
              if !disk.readable then file.text == old(file.text) && r == Err(Unreadable)
              else
                match ApplyDrifts(old(file.text), drifts)
                case Err(e) => file.text == old(file.text) && r == Err(Rewrite(e))
                case Ok(text) =>
                  if text == old(file.text) || disk.writable then file.text == text && r == Ok(text != old(file.text))
                  else file.text == (if disk.leftover.Some? then disk.leftover.value else old(file.text)) && r == Err(Unwritable)
  {
    var file := Located(candidates);
    if file == null {
      return Err(CatalogNotLocated);
    }
    if !disk.readable {
      return Err(Unreadable);
    }
    var original := file.text;
    var text := original;
    var i := 0;
    while i < |drifts|
      invariant 0 <= i <= |drifts|
      invariant file.text == original
      invariant ApplyDrifts(original, drifts) == ApplyDrifts(text, drifts[i..])
    {
      var next := RewriteEntryUrls(text, drifts[i].slug, drifts[i].live);
      if next.Err? {
        return Err(Rewrite(next.error));
      }
      text := next.value;
      i := i + 1;
    }
    if text == original {
      return Ok(false);
    }
    if !disk.writable {
      if disk.leftover.Some? {
        file.text := disk.leftover.value;
      }
      return Err(Unwritable);
    }
    file.text := text;
    return Ok(true);
  }

  function ApplyTo(e: Entry, drifts: seq<Drift>): (r: Entry)
    ensures r.slug == e.slug && r.above == e.above
    decreases |drifts|
  {
    if drifts == [] then e
    else ApplyTo(if drifts[0].slug == e.slug then Retarget(e, drifts[0].live) else e, drifts[1..])
  }

  /** Every entry with the URLs of the last drift that names it. */
  function Updated(c: Catalog, drifts: seq<Drift>): (r: Catalog)
    ensures |r.entries| == |c.entries|
    ensures forall i :: 0 <= i < |r.entries| ==> r.entries[i] == ApplyTo(c.entries[i], drifts)
  {
    c.(entries := seq(|c.entries|, i requires 0 <= i < |c.entries| => ApplyTo(c.entries[i], drifts)))
  }

  predicate HasSlug(c: Catalog, slug: string) {
    exists i :: 0 <= i < |c.entries| && c.entries[i].slug == slug
  }

  /**
    The rewrite of the slug lands on its own entry, whatever later entries and
    comments say; or nothing at all mentions the slug.
  */
  ghost predicate Direct(c: Catalog, slug: string) {
    || (exists i: nat :: ReachesOwn(c, i) && c.entries[i].slug == slug)
    || (NoneMention(c.preamble, slug) && NoneMention(c.postamble, slug) &&
        forall k :: 0 <= k < |c.entries| ==> !EntryMentions(c.entries[k], slug))
  }

  ghost predicate DriftsOk(c: Catalog, drifts: seq<Drift>) {
    forall d | d in drifts :: SlugOk(d.slug) && UrlsOk(d.live) && Direct(c, d.slug)
  }

  ghost predicate DistinctSlugs(drifts: seq<Drift>) {
    forall i, j :: 0 <= i < j < |drifts| ==> drifts[i].slug != drifts[j].slug
  }

  /** Equal up to the URLs in URL fields. */
  ghost predicate SameButUrls(e: Entry, u: Entry) {
    && u.slug == e.slug && u.above == e.above && |u.fields| == |e.fields|
    && forall i :: 0 <= i < |e.fields| ==> u.fields[i] == e.fields[i] || (!e.fields[i].Other? && !u.fields[i].Other?)
  }

  lemma SameMentions(e: Entry, u: Entry, slug: string)
    requires EntryOk(e) && EntryOk(u) && SlugOk(slug) && SameButUrls(e, u)
    ensures EntryMentions(e, slug) <==> EntryMentions(u, slug)
  {
    hide FindFrom, Needle, FieldLine, Contains, FieldOk, SlugLine, EntryLines;
    var n := Needle(slug);
    NoneContaining(EntryLines(e), n);
    NoneContaining(EntryLines(u), n);
    SameShape(e, u);
    forall i | 0 <= i < |EntryLines(e)| ensures Contains(EntryLines(e)[i], n) <==> Contains(EntryLines(u)[i], n) {
      SameMentionAt(e, u, slug, i);
    }
  }

  lemma SameShape(e: Entry, u: Entry)
    requires SameButUrls(e, u)
    ensures |EntryLines(e)| == |EntryLines(u)| && u == e.(fields := u.fields)
  {
  }

  lemma SameMentionAt(e: Entry, u: Entry, slug: string, i: nat)
    requires EntryOk(e) && EntryOk(u) && SlugOk(slug) && SameButUrls(e, u) && i < |EntryLines(e)| == |EntryLines(u)|
    ensures Contains(EntryLines(e)[i], Needle(slug)) <==> Contains(EntryLines(u)[i], Needle(slug))
  {
    hide FindFrom, Needle, FieldLine, Contains, FieldOk, SlugLine, EntryLines;
    SameShape(e, u);
    LastLineCloses(e);
    LastLineCloses(u);
    if i <= |e.above| + 1 {
      HeadLineAt(e, u.fields, i);
    } else if i < |EntryLines(e)| - 1 {
      FieldLineAt(e, i);
      FieldLineAt(u, i);
      FieldIsQuiet(e.fields[i - |e.above| - 2], slug);
      FieldIsQuiet(u.fields[i - |e.above| - 2], slug);
    }
  }

  lemma RetargetIsSameButUrls(e: Entry, live: ResolvedUrls)
    ensures SameButUrls(e, Retarget(e, live))
  {
  }

  /** Updated URLs change no slug's way through the text. */
  lemma KeepsDirect(c: Catalog, u: Catalog, slug: string)
    requires Layout(c) && Layout(u) && SlugOk(slug) && Direct(c, slug)
    requires u.preamble == c.preamble && u.postamble == c.postamble && |u.entries| == |c.entries|
    requires forall i :: 0 <= i < |c.entries| ==> SameButUrls(c.entries[i], u.entries[i])
    ensures Direct(u, slug)
  {
    hide EntryMentions, NoneMention, PreambleOpening, PreambleClosing, SurvivesFrom, EntryOk, SlugOk;
    forall k | 0 <= k < |c.entries| ensures EntryMentions(c.entries[k], slug) <==> EntryMentions(u.entries[k], slug) {
      SameMentions(c.entries[k], u.entries[k], slug);
    }
    if i: nat :| ReachesOwn(c, i) && c.entries[i].slug == slug {
      assert ReachesOwn(u, i) && u.entries[i].slug == slug;
    }
  }

  lemma ApplyOne(e: Entry, d: Drift, rest: seq<Drift>)
    ensures ApplyTo(e, [d] + rest) == ApplyTo(if d.slug == e.slug then Retarget(e, d.live) else e, rest)
    ensures ApplyTo(e, []) == e && ApplyTo(e, [d]) == if d.slug == e.slug then Retarget(e, d.live) else e
  {
    assert ([d] + rest)[1..] == rest && [d][1..] == [];
  }

  /** One direct drift is one update of the catalog, or a refusal. */
  lemma OneDrift(c: Catalog, d: Drift)
    requires Layout(c) && UniqueSlugs(c) && DriftsOk(c, [d])
    ensures RewriteEntryUrls(Print(c), d.slug, d.live) ==
            if HasSlug(c, d.slug) then Ok(Print(Updated(c, [d]))) else Err(SlugNotFound)
    ensures HasSlug(c, d.slug) ==> exists k :: 0 <= k < |c.entries| && Updated(c, [d]) == RetargetAt(c, k, d.live)
  {
    hide Print, RewriteEntryUrls, EntryMentions, EntryOk, SlugOk, UrlsOk, NoneMention, PreambleSpares;
    assert d in [d];
    if i: nat :| ReachesOwn(c, i) && c.entries[i].slug == d.slug {
      OwnRewriteCommutes(c, i, d.live);
      OneUpdated(c, i, d);
    } else {
      forall k | 0 <= k < |c.entries| ensures c.entries[k].slug != d.slug {
        MentionsItself(c.entries[k]);
      }
      RewriteFromEntries(c, d.slug, d.live);
    }
  }

  lemma OneUpdated(c: Catalog, i: nat, d: Drift)
    requires UniqueSlugs(c) && i < |c.entries| && c.entries[i].slug == d.slug
    ensures Updated(c, [d]) == RetargetAt(c, i, d.live)
  {
    forall k | 0 <= k < |c.entries| ensures Updated(c, [d]).entries[k] == RetargetAt(c, i, d.live).entries[k] {
      ApplyOne(c.entries[k], d, []);
      assert k != i ==> c.entries[k].slug != c.entries[i].slug;
    }
    assert Updated(c, [d]).entries == RetargetAt(c, i, d.live).entries;
  }

  lemma UpdatedCons(c: Catalog, d: Drift, rest: seq<Drift>)
    ensures Updated(c, [d] + rest) == Updated(Updated(c, [d]), rest)
    ensures AllKnown(c, [d] + rest) <==> HasSlug(c, d.slug) && AllKnown(Updated(c, [d]), rest)
  {
    var u := Updated(c, [d]);
    forall i | 0 <= i < |c.entries|
      ensures ApplyTo(c.entries[i], [d] + rest) == ApplyTo(u.entries[i], rest) && u.entries[i].slug == c.entries[i].slug
    {
      ApplyOne(c.entries[i], d, rest);
    }
    assert Updated(c, [d] + rest).entries == Updated(u, rest).entries;
    SameSlugs(c, u);
    assert forall x :: x in [d] + rest <==> x == d || x in rest;
  }

  lemma SameSlugs(c: Catalog, u: Catalog)
    requires |c.entries| == |u.entries|
    requires forall i :: 0 <= i < |c.entries| ==> u.entries[i].slug == c.entries[i].slug
    ensures forall slug :: HasSlug(u, slug) <==> HasSlug(c, slug)
  {
    forall slug ensures HasSlug(u, slug) <==> HasSlug(c, slug) {
      if HasSlug(c, slug) {
        var i :| 0 <= i < |c.entries| && c.entries[i].slug == slug;
        assert u.entries[i].slug == slug;
      }
      if HasSlug(u, slug) {
        var i :| 0 <= i < |u.entries| && u.entries[i].slug == slug;
        assert c.entries[i].slug == slug;
      }
    }
  }

  predicate AllKnown(c: Catalog, drifts: seq<Drift>) {
    forall d | d in drifts :: HasSlug(c, d.slug)
  }

  lemma NoDrifts(c: Catalog)
    ensures Updated(c, []) == c && AllKnown(c, [])
  {
    assert Updated(c, []).entries == c.entries;
  }

  lemma DriftsOkHead(c: Catalog, d: Drift, rest: seq<Drift>)
    requires DriftsOk(c, [d] + rest)
    ensures DriftsOk(c, [d])
  {
    assert d in [d] + rest;
  }

  lemma RetargetKeepsSlugs(c: Catalog, k: nat, live: ResolvedUrls)
    requires UniqueSlugs(c) && k < |c.entries|
    ensures UniqueSlugs(RetargetAt(c, k, live))
  {
    assert forall i :: 0 <= i < |c.entries| ==> RetargetAt(c, k, live).entries[i].slug == c.entries[i].slug;
  }

  lemma DriftsOkAfter(c: Catalog, k: nat, live: ResolvedUrls, drifts: seq<Drift>, rest: seq<Drift>)
    requires Layout(c) && DriftsOk(c, drifts) && k < |c.entries| && UrlsOk(live) && forall x | x in rest :: x in drifts
    ensures DriftsOk(RetargetAt(c, k, live), rest)
  {
    hide UrlsOk, SlugOk, Direct, Layout;
    var u := RetargetAt(c, k, live);
    RetargetKeepsLayout(c, k, live);
    RetargetIsSameButUrls(c.entries[k], live);
    forall x | x in rest ensures SlugOk(x.slug) && UrlsOk(x.live) && Direct(u, x.slug) {
      KeepsDirect(c, u, x.slug);
    }
  }

  /** Rewriting the text drift by drift is updating the catalog and printing it once. */
  lemma {:induction false} DriftsCommuteWithPrint(c: Catalog, drifts: seq<Drift>)
    requires Layout(c) && UniqueSlugs(c) && DriftsOk(c, drifts)
    ensures ApplyDrifts(Print(c), drifts) ==
            if AllKnown(c, drifts) then Ok(Print(Updated(c, drifts))) else Err(SlugNotFound)
    decreases |drifts|
  {
    hide Print, RewriteEntryUrls, Layout, DriftsOk, AllKnown, Updated, HasSlug, RetargetAt;
    if drifts == [] {
      NoDrifts(c);
    } else {
      var d, rest := drifts[0], drifts[1..];
      assert drifts == [d] + rest;
      DriftsOkHead(c, d, rest);
      OneDrift(c, d);
      UpdatedCons(c, d, rest);
      if HasSlug(c, d.slug) {
        var k :| 0 <= k < |c.entries| && Updated(c, [d]) == RetargetAt(c, k, d.live);
        RetargetKeepsLayout(c, k, d.live);
        RetargetKeepsSlugs(c, k, d.live);
        DriftsOkAfter(c, k, d.live, drifts, rest);
        DriftsCommuteWithPrint(Updated(c, [d]), rest);
      }
    }
  }

  lemma {:induction false} ApplyToOnce(e: Entry, drifts: seq<Drift>)
    requires DistinctSlugs(drifts)
    ensures forall d | d in drifts && d.slug == e.slug :: ApplyTo(e, drifts) == Retarget(e, d.live)
    ensures (forall d | d in drifts :: d.slug != e.slug) ==> ApplyTo(e, drifts) == e
    decreases |drifts|
  {
    if drifts != [] {
      var e' := if drifts[0].slug == e.slug then Retarget(e, drifts[0].live) else e;
      ApplyToOnce(e', drifts[1..]);
      assert forall d | d in drifts[1..] :: d in drifts;
      if drifts[0].slug == e.slug {
        assert forall d | d in drifts[1..] :: d.slug != e.slug;
      }
    }
  }

  /** Drifts with distinct slugs give the same text, or the same refusal, in any order. */
  lemma DriftOrderIsIrrelevant(c: Catalog, drifts: seq<Drift>, reordered: seq<Drift>)
    requires Layout(c) && UniqueSlugs(c) && DriftsOk(c, drifts)
    requires multiset(drifts) == multiset(reordered) && DistinctSlugs(drifts)
    ensures ApplyDrifts(Print(c), reordered) == ApplyDrifts(Print(c), drifts)
  {
    hide Print, RewriteEntryUrls, Layout, UniqueSlugs, UrlsOk, SlugOk, Direct, ApplyDrifts;
    assert forall d :: d in drifts <==> d in multiset(drifts);
    assert forall d :: d in reordered <==> d in multiset(reordered);
    ReorderedDistinct(drifts, reordered);
    DriftsCommuteWithPrint(c, drifts);
    DriftsCommuteWithPrint(c, reordered);
    forall i | 0 <= i < |c.entries| ensures ApplyTo(c.entries[i], drifts) == ApplyTo(c.entries[i], reordered) {
      ApplyToOnce(c.entries[i], drifts);
      ApplyToOnce(c.entries[i], reordered);
    }
    assert Updated(c, drifts).entries == Updated(c, reordered).entries;
  }

  lemma {:induction false} DistinctOccursOnce(drifts: seq<Drift>, d: Drift)
    requires DistinctSlugs(drifts)
    ensures multiset(drifts)[d] <= 1
  {
    if drifts != [] {
      assert drifts == [drifts[0]] + drifts[1..];
      DistinctOccursOnce(drifts[1..], d);
      assert drifts[0] !in drifts[1..];
    }
  }

  lemma TwiceCountsTwo(drifts: seq<Drift>, i: nat, j: nat)
    requires i < j < |drifts| && drifts[i] == drifts[j]
    ensures multiset(drifts)[drifts[i]] >= 2
  {
    var d := drifts[i];
    assert drifts == drifts[..j] + drifts[j..];
    assert drifts[..j][i] == d && drifts[j..][0] == d;
    assert d in drifts[..j] && d in drifts[j..];
  }

  lemma ReorderedDistinct(drifts: seq<Drift>, reordered: seq<Drift>)
    requires multiset(drifts) == multiset(reordered) && DistinctSlugs(drifts)
    ensures DistinctSlugs(reordered)
  {
    forall i, j | 0 <= i < j < |reordered| ensures reordered[i].slug != reordered[j].slug {
      assert reordered[i] in multiset(reordered) && reordered[j] in multiset(reordered);
      assert reordered[i] in drifts && reordered[j] in drifts;
      if reordered[i] == reordered[j] {
        TwiceCountsTwo(reordered, i, j);
        DistinctOccursOnce(drifts, reordered[i]);
      }
    }
  }

  /** Refreshing an already refreshed file changes nothing. */
  lemma DriftsAreIdempotent(c: Catalog, drifts: seq<Drift>)
    requires Layout(c) && UniqueSlugs(c) && DriftsOk(c, drifts) && DistinctSlugs(drifts)
    requires ApplyDrifts(Print(c), drifts).Ok?
    ensures var once := ApplyDrifts(Print(c), drifts).value;
            ApplyDrifts(once, drifts) == Ok(once)
  {
    hide Print, RewriteEntryUrls, Layout, UrlsOk, SlugOk, ApplyDrifts, NoneMention, Contains, Needle;
    DriftsCommuteWithPrint(c, drifts);
    var u := Updated(c, drifts);
    UpdatedKeepsHypotheses(c, drifts);
    DriftsCommuteWithPrint(u, drifts);
    SameSlugs(c, u);
    forall i | 0 <= i < |c.entries| ensures ApplyTo(u.entries[i], drifts) == u.entries[i] {
      ApplyToOnce(c.entries[i], drifts);
      ApplyToOnce(u.entries[i], drifts);
      forall d | d in drifts && d.slug == c.entries[i].slug ensures Retarget(u.entries[i], d.live) == u.entries[i] {
        RetargetTwice(c.entries[i], d.live);
      }
    }
    assert Updated(u, drifts).entries == u.entries;
  }

  lemma RetargetTwice(e: Entry, live: ResolvedUrls)
    ensures Retarget(Retarget(e, live), live) == Retarget(e, live)
  {
    assert Retarget(Retarget(e, live), live).fields == Retarget(e, live).fields;
  }

  lemma {:induction false} UpdatedKeepsHypotheses(c: Catalog, drifts: seq<Drift>)
    requires Layout(c) && UniqueSlugs(c) && DriftsOk(c, drifts)
    ensures Layout(Updated(c, drifts)) && UniqueSlugs(Updated(c, drifts)) && DriftsOk(Updated(c, drifts), drifts)
  {
    hide EntryOk, SlugOk, UrlsOk, Direct, NoneMention, SameButUrls;
    var u := Updated(c, drifts);
    forall i | 0 <= i < |c.entries| ensures EntryOk(u.entries[i]) && SameButUrls(c.entries[i], u.entries[i]) {
      ApplyToKeeps(c.entries[i], drifts);
    }
    forall d | d in drifts ensures Direct(u, d.slug) {
      KeepsDirect(c, u, d.slug);
    }
  }

  lemma {:induction false} ApplyToKeeps(e: Entry, drifts: seq<Drift>)
    requires EntryOk(e) && forall d | d in drifts :: UrlsOk(d.live)
    ensures EntryOk(ApplyTo(e, drifts)) && SameButUrls(e, ApplyTo(e, drifts))
    decreases |drifts|
  {
    hide PlainLine, UrlOk;
    if drifts != [] {
      var e' := if drifts[0].slug == e.slug then Retarget(e, drifts[0].live) else e;
      forall f | 0 <= f < |e'.fields| ensures FieldOk(e'.fields[f]) {
        assert FieldOk(e.fields[f]);
      }
      ApplyToKeeps(e', drifts[1..]);
    }
  }
}
