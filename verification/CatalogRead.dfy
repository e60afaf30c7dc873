/**
  The rewritten text read back by a reader of its own, which knows the source
  form of an entry as it is typed and none of the rewriter's constants.
*/
module CatalogRead {
  import opened Wrappers
  import opened Strings
  import opened CatalogText
  import opened CatalogRewrite

  /** How a field of an entry starts on its line. */
  function KeyOpens(key: string): string {
    "        " + key + ": \""
  }

  predicate HasKey(line: string, key: string) {
    StartsWith(line, KeyOpens(key))
  }

  /** What stands between the quotes of a field's line. */
  function ReadKey(line: string, key: string): Option<string> {
    if HasKey(line, key) && |line| >= |KeyOpens(key)| + 2 && EndsWith(line, "\",")
    then Some(line[|KeyOpens(key)|..|line| - 2]) else None
  }

  predicate NoUrlKey(line: string) {
    !HasKey(line, "iso_url") && !HasKey(line, "sha256_url") && !HasKey(line, "sig_url")
  }

  /** One line before and after: each URL key reads its own URL, any other line is as it was. */
  ghost predicate ReadsNew(before: string, after: string, live: ResolvedUrls) {
    && (HasKey(before, "iso_url") ==> ReadKey(after, "iso_url") == Some(live.isoUrl))
    && (HasKey(before, "sha256_url") ==> ReadKey(after, "sha256_url") == Some(live.sha256Url))
    && (HasKey(before, "sig_url") ==> ReadKey(after, "sig_url") == Some(live.sigUrl))
    && (NoUrlKey(before) ==> after == before)
  }

  lemma PrefixesSpelled()
    ensures ISO_PREFIX == KeyOpens("iso_url") && SHA_PREFIX == KeyOpens("sha256_url") && SIG_PREFIX == KeyOpens("sig_url")
    ensures |KeyOpens("iso_url")| == 18 && |KeyOpens("sha256_url")| == 21 && |KeyOpens("sig_url")| == 18
    ensures KeyOpens("iso_url")[9] == 's' && KeyOpens("sha256_url")[9] == 'h' && KeyOpens("sig_url")[9] == 'i'
  {
  }

  lemma WrittenIsRead(key: string, url: string)
    ensures ReadKey(KeyOpens(key) + url + "\",", key) == Some(url)
  {
    var line := KeyOpens(key) + url + "\",";
    assert line[..|KeyOpens(key)|] == KeyOpens(key);
    assert line[|line| - 2..] == "\",";
    assert line[|KeyOpens(key)|..|line| - 2] == url;
  }

  lemma KeysExclude(line: string)
    ensures HasKey(line, "iso_url") ==> !HasKey(line, "sha256_url") && !HasKey(line, "sig_url")
    ensures HasKey(line, "sha256_url") ==> !HasKey(line, "sig_url")
  {
    hide KeyOpens;
    PrefixesSpelled();
    assert HasKey(line, "iso_url") ==> line[9] == line[..18][9] == 's';
    assert HasKey(line, "sha256_url") ==> line[9] == line[..21][9] == 'h';
    assert HasKey(line, "sig_url") ==> line[9] == line[..18][9] == 'i';
  }

  lemma RewriteReadsNew(line: string, live: ResolvedUrls)
    ensures ReadsNew(line, RewriteLine(line, live), live)
  {
    hide KeyOpens, ReadKey, ISO_PREFIX, SHA_PREFIX, SIG_PREFIX;
    PrefixesSpelled();
    KeysExclude(line);
    WrittenIsRead("iso_url", live.isoUrl);
    WrittenIsRead("sha256_url", live.sha256Url);
    WrittenIsRead("sig_url", live.sigUrl);
  }

  /** The line numbers of entry `i`. */
  function FirstLine(c: Catalog, i: nat): nat
    requires i < |c.entries|
  {
    |c.preamble| + |EntriesLines(c.entries[..i])|
  }

  lemma EntryReadsNew(e: Entry, live: ResolvedUrls, k: nat)
    requires EntryOk(e) && k < |EntryLines(e)|
    ensures |EntryLines(Retarget(e, live))| == |EntryLines(e)|
    ensures ReadsNew(EntryLines(e)[k], EntryLines(Retarget(e, live))[k], live)
  {
    hide EntryLines, EntryOk, RewriteLine, StripCr, ReadsNew;
    RetargetedShape(e, live);
    LastLineCloses(e);
    LastLineCloses(Retarget(e, live));
    if k < |EntryLines(e)| - 1 {
      EntryLineAt(e, live, k);
      PartlyRetargetedLine(e, 0, live, k);
      RewriteReadsNew(EntryLines(e)[k], live);
    } else {
      ClosingHasNoKey(live);
    }
  }

  lemma ClosingHasNoKey(live: ResolvedUrls)
    ensures ReadsNew(ENTRY_CLOSE, ENTRY_CLOSE, live)
  {
    hide RewriteLine;
    RewriteReadsNew(ENTRY_CLOSE, live);
    ClosingIsNotUrl(live);
  }

  /** The typed form of an entry's fixed lines. */
  lemma EntrySpelled(e: Entry)
    ensures var lines := EntryLines(e);
            && lines[0] == "    Entry {" && lines[|lines| - 1] == "    },"
            && lines[|e.above| + 1] == "        slug: \"" + e.slug + "\","
  {
    assert "        " + ("slug: \"" + e.slug + "\"") + "," == "        slug: \"" + e.slug + "\",";
  }

  /** What the new text reads like, line by line. */
  ghost predicate ReadsBack(c: Catalog, i: nat, live: ResolvedUrls, text: string)
    requires i < |c.entries|
  {
    var before, after := Split(Print(c), '\n'), Split(text, '\n');
    var e, lo := c.entries[i], FirstLine(c, i);
    var hi := lo + |e.above| + |e.fields| + 3;
    && |after| == |before| >= hi
    && before[lo] == "    Entry {" && before[hi - 1] == "    },"
    && before[lo + 1 + |e.above|] == "        slug: \"" + e.slug + "\","
    && (forall p :: 0 <= p < |before| && !(lo <= p < hi) ==> after[p] == before[p])
    && (forall p :: lo <= p < hi ==> ReadsNew(before[p], after[p], live))
  }

  lemma PrintedLines(c: Catalog)
    requires Layout(c) && c.entries != []
    ensures Split(Print(c), '\n') == CatalogLines(c)
  {
    hide Join, Split, EntryOk, EntriesLines;
    EntriesOneLine(c.entries);
    SomeLines(c);
    SplitOfJoin(CatalogLines(c), '\n');
  }

  /**
    An entry that reaches its own slug: in the text returned, the URL under each of
    its keys is the one found for that key, and no other line changed.
  */
  lemma RewriteReadsBack(c: Catalog, i: nat, live: ResolvedUrls)
    requires Layout(c) && ReachesOwn(c, i) && UrlsOk(live)
    ensures RewriteEntryUrls(Print(c), c.entries[i].slug, live).Ok?
    ensures ReadsBack(c, i, live, RewriteEntryUrls(Print(c), c.entries[i].slug, live).value)
  {
    hide RewriteEntryUrls, Print, Layout, EntryOk, EntryLines, EntriesLines, CatalogLines, ReadsNew, PreambleSpares, EntryMentions, UrlsOk;
    var e, u := c.entries[i], RetargetAt(c, i, live);
    OwnRewriteCommutes(c, i, live);
    RetargetKeepsLayout(c, i, live);
    PrintedLines(c);
    PrintedLines(u);
    EntrySpelled(e);
    ReadsBackLines(c, i, live);
  }

  lemma ReadsBackLines(c: Catalog, i: nat, live: ResolvedUrls)
    requires Layout(c) && i < |c.entries|
    ensures var before, after := CatalogLines(c), CatalogLines(RetargetAt(c, i, live));
            var lo := FirstLine(c, i);
            var hi := lo + |EntryLines(c.entries[i])|;
            && |after| == |before| >= hi
            && (forall k :: 0 <= k < hi - lo ==> before[lo + k] == EntryLines(c.entries[i])[k])
            && (forall p :: 0 <= p < |before| && !(lo <= p < hi) ==> after[p] == before[p])
            && (forall p :: lo <= p < hi ==> ReadsNew(before[p], after[p], live))
  {
    hide EntryLines, EntriesLines, CatalogLines, ReadsNew, EntryOk;
    var e := c.entries[i];
    assert EntryOk(e);
    LinesAround(c, i, e);
    LinesAround(c, i, Retarget(e, live));
    assert c.entries[i := e] == c.entries;
    var a, b := c.preamble + EntriesLines(c.entries[..i]), EntriesLines(c.entries[i + 1..]) + c.postamble;
    RetargetedShape(e, live);
    var before, after := CatalogLines(c), CatalogLines(RetargetAt(c, i, live));
    assert before == a + EntryLines(e) + b && after == a + EntryLines(Retarget(e, live)) + b;
    forall p | |a| <= p < |a| + |EntryLines(e)| ensures ReadsNew(before[p], after[p], live) {
      EntryReadsNew(e, live, p - |a|);
      assert before[p] == EntryLines(e)[p - |a|] && after[p] == EntryLines(Retarget(e, live))[p - |a|];
    }
  }
}
