/**
  The attestation store over any interleaving of flashes and adds on any number
  of sticks, for any order in which the directory is listed: the store is
  decided by the history alone, and the history says what each manifest holds.
*/
module AttestHistory {
  import opened Wrappers
  import opened Strings
  import opened Attest

  datatype Event =
    | FlashEvent(device: string, flashed: Option<string>, timestamp: string, info: FlashInfo)
    | AddEvent(listing: seq<string>, resolved: Option<string>, iso: IsoRecord)

  // ---- runs --------------------------------------------------------------------------

  ghost function Step(s: State, e: Event): State {
    match e
    case FlashEvent(device, guid, timestamp, info) => Flash(s, device, guid, timestamp, info)
    case AddEvent(listing, guid, iso) => if Lists(listing, s.files) then Add(s, listing, guid, iso).0 else s
  }

  ghost function After(es: seq<Event>): State {
    if es == [] then State(map[], 0) else Step(After(Front(es)), Last(es))
  }

  function Front(es: seq<Event>): (r: seq<Event>)
    requires es != []
    ensures |r| == |es| - 1
  {
    es[..|es| - 1]
  }

  function Last(es: seq<Event>): Event
    requires es != []
  {
    es[|es| - 1]
  }

  predicate GuidChar(c: char) {
    '0' <= c <= '9' || 'a' <= c <= 'f' || 'A' <= c <= 'F' || c == '-'
  }

  /** What `sgdisk -p` prints: a 36-character GUID, or nothing usable. */
  predicate GuidOk(guid: Option<string>) {
    GuidText(guid) == "" || (|GuidText(guid)| == 36 && forall i :: 0 <= i < 36 ==> GuidChar(GuidText(guid)[i]))
  }

  function NameOf(e: Event): string
    requires e.FlashEvent?
  {
    FileName(e.device, GuidText(e.flashed), e.timestamp)
  }

  predicate IsFlash(es: seq<Event>, i: int) {
    0 <= i < |es| && es[i].FlashEvent?
  }

  /** Well-formed GUIDs, adds that see the directory as it is, and one file per flash. */
  ghost predicate Valid(es: seq<Event>) {
    && (forall k :: 0 <= k < |es| ==> GuidOk(if es[k].FlashEvent? then es[k].flashed else es[k].resolved))
    && (forall k :: 0 <= k < |es| && es[k].AddEvent? ==> Lists(es[k].listing, After(es[..k]).files))
    && (forall i, j :: IsFlash(es, i) && IsFlash(es, j) && i != j ==> NameOf(es[i]) != NameOf(es[j]))
  }

  lemma ValidFront(es: seq<Event>)
    requires Valid(es) && es != []
    ensures Valid(Front(es))
  {
    hide After, GuidOk, NameOf;
    forall k | 0 <= k < |Front(es)| && es[k].AddEvent? ensures Lists(es[k].listing, After(Front(es)[..k]).files) {
      assert Front(es)[..k] == es[..k];
    }
    forall i, j | IsFlash(Front(es), i) && IsFlash(Front(es), j) && i != j ensures NameOf(es[i]) != NameOf(es[j]) {
      assert IsFlash(es, i) && IsFlash(es, j);
    }
  }

  // ---- what the history says -------------------------------------------------------------

  function StickOf(guid: Option<string>): string {
    Lower(GuidText(guid))
  }

  /** The latest flash of a stick. */
  function LatestFlash(es: seq<Event>, stick: string): (r: Option<nat>)
    ensures r.Some? ==> IsFlash(es, r.value) && StickOf(es[r.value].flashed) == stick
    ensures r.Some? ==> forall k :: r.value < k < |es| && es[k].FlashEvent? ==> StickOf(es[k].flashed) != stick
    ensures r.None? ==> forall k :: IsFlash(es, k) ==> StickOf(es[k].flashed) != stick
  {
    if es == [] then None
    else if Last(es).FlashEvent? && StickOf(Last(es).flashed) == stick then Some(|es| - 1)
    else LatestFlash(Front(es), stick)
  }

  /**
    The flash whose file the last event wrote: its own, the latest of the add's
    stick, or else whatever file was written last.
  */
  function Touched(es: seq<Event>): (r: Option<nat>)
    ensures r.Some? ==> IsFlash(es, r.value)
    ensures r.None? ==> forall k :: 0 <= k < |es| ==> !es[k].FlashEvent?
  {
    if es == [] then None
    else
      match Last(es)
      case FlashEvent(_, _, _, _) => Some(|es| - 1)
      case AddEvent(_, guid, _) =>
        var own := if StickOf(guid) != "" then LatestFlash(Front(es), StickOf(guid)) else None;
        if own.Some? then own else Touched(Front(es))
  }

  /** The ISOs that went to flash `i`'s file, oldest first. */
  function IsosOf(es: seq<Event>, i: nat): seq<IsoRecord> {
    if es == [] then []
    else IsosOf(Front(es), i) + if Last(es).AddEvent? && Touched(es) == Some(i) then [Last(es).iso] else []
  }

  /** The last event that wrote flash `i`'s file. */
  function LastTouch(es: seq<Event>, i: nat): (r: nat)
    ensures es != [] ==> r < |es|
  {
    if es == [] then 0
    else if Touched(es) == Some(i) then |es| - 1
    else if |es| == 1 then 0
    else LastTouch(Front(es), i)
  }

  function FileOf(es: seq<Event>, i: nat): File
    requires IsFlash(es, i)
  {
    var e := es[i];
    File(Attestation(e.timestamp, e.device, GuidText(e.flashed), e.info, IsosOf(es, i)), LastTouch(es, i))
  }

  /** The directory is one file per flash, with contents and age read off the history. */
  ghost predicate Decided(es: seq<Event>) {
    var s := After(es);
    && s.clock == |es|
    && (forall i :: IsFlash(es, i) ==> NameOf(es[i]) in s.files && s.files[NameOf(es[i])] == FileOf(es, i))
    && (forall n :: n in s.files ==> exists i :: IsFlash(es, i) && NameOf(es[i]) == n)
  }

  // ---- names and sticks ---------------------------------------------------------------------

  lemma NameShape(e: Event)
    requires e.FlashEvent?
    ensures IsJson(NameOf(e))
    ensures Stem(NameOf(e)) == FileId(e.device, GuidText(e.flashed)) + "-" + DashColons(e.timestamp)
  {
    var stem := FileId(e.device, GuidText(e.flashed)) + "-" + DashColons(e.timestamp);
    assert NameOf(e) == stem + EXTENSION;
    assert NameOf(e)[|stem|..] == EXTENSION;
  }

  /** With fixed-length GUIDs, a prefix match on the file name is equality of sticks. */
  lemma MatchIsSameStick(e: Event, guid: Option<string>)
    requires e.FlashEvent? && GuidOk(e.flashed) && GuidOk(guid) && StickOf(guid) != ""
    ensures Matches(NameOf(e), GuidText(guid)) <==> StickOf(e.flashed) == StickOf(guid)
  {
    hide IsJson, Stem, NameOf;
    NameShape(e);
    var stem, g, own := Stem(NameOf(e)), Lower(GuidText(guid)), Lower(GuidText(e.flashed));
    var low := Lower(stem);
    assert |g| == 36 && GuidChar(GuidText(guid)[0]);
    if own == "" {
      assert low[0] == 'u' == stem[0];
      assert |low| >= 36 ==> low[..36][0] != g[0];
    } else {
      assert |own| == 36;
      assert forall k :: 0 <= k < 36 ==> low[k] == LowerChar(LowerChar(GuidText(e.flashed)[k])) == own[k];
      assert low[..36] == own;
    }
  }

  lemma EveryNameMatchesEmpty(e: Event, guid: Option<string>)
    requires e.FlashEvent? && StickOf(guid) == ""
    ensures Matches(NameOf(e), GuidText(guid))
  {
    hide IsJson, Stem, NameOf;
    NameShape(e);
    assert GuidText(guid) == "" by { assert |Lower(GuidText(guid))| == 0; }
    assert Lower(Stem(NameOf(e)))[..0] == Lower("");
  }

  // ---- ages ------------------------------------------------------------------------------------

  /** Once a stick is flashed again, its older file is never written again. */
  lemma {:induction false} SupersededStaysOld(es: seq<Event>, i: nat, k: nat)
    requires IsFlash(es, i) && IsFlash(es, k) && i < k
    requires StickOf(es[i].flashed) == StickOf(es[k].flashed) != ""
    ensures Touched(es) != Some(i) && LastTouch(es, i) < k
  {
    if |es| > k + 1 {
      SupersededStaysOld(Front(es), i, k);
      assert LatestFlash(Front(es), StickOf(es[i].flashed)) != Some(i);
    } else {
      assert |Front(es)| == k;
    }
  }

  lemma {:induction false} TouchedSinceFlash(es: seq<Event>, k: nat)
    requires IsFlash(es, k)
    ensures LastTouch(es, k) >= k
  {
    if |es| > k + 1 { TouchedSinceFlash(Front(es), k); }
  }

  /** Only the file written last is as young as the last event. */
  lemma YoungestIsTouched(es: seq<Event>, i: nat)
    requires |es| > 1 || IsFlash(es, 0)
    requires IsFlash(es, i) && LastTouch(es, i) == |es| - 1
    ensures Touched(es) == Some(i)
  {
  }

  // ---- the store follows the history --------------------------------------------------------------

  lemma TouchedByAdd(es: seq<Event>, e: Event)
    requires e.AddEvent?
    ensures var own := if StickOf(e.resolved) != "" then LatestFlash(es, StickOf(e.resolved)) else None;
            Touched(es + [e]) == if own.Some? then own else Touched(es)
  {
    hide LatestFlash, StickOf;
    assert Front(es + [e]) == es && Last(es + [e]) == e;
  }

  /** The listed manifests are exactly the files of the flashes. */
  ghost predicate FlashFiles(es: seq<Event>, entries: seq<string>) {
    && (forall i :: IsFlash(es, i) ==> NameOf(es[i]) in entries)
    && (forall n :: n in entries ==> exists i :: IsFlash(es, i) && NameOf(es[i]) == n)
  }

  lemma ListedAreFlashFiles(es: seq<Event>, listing: seq<string>)
    requires Decided(es) && Lists(listing, After(es).files)
    ensures FlashFiles(es, JsonNames(listing))
  {
    hide After, NameOf, FileOf, IsJson;
    forall i | IsFlash(es, i) ensures NameOf(es[i]) in JsonNames(listing) { NameShape(es[i]); }
  }

  /** Which file an add finds. */
  lemma AddFindsTouched(es: seq<Event>, e: Event)
    requires Valid(es) && Decided(es) && e.AddEvent? && Lists(e.listing, After(es).files) && GuidOk(e.resolved)
    ensures var found := LocateManifest(After(es).files, e.listing, e.resolved);
            match Touched(es + [e])
            case None => found.None?
            case Some(k) =>
              && IsFlash(es, k) && found.Some? && found.value.0 == NameOf(es[k])
              && (found.value.1 == GuidMatch <==>
                    e.resolved.Some? && (StickOf(e.resolved) == "" || LatestFlash(es, StickOf(e.resolved)).Some?))
  {
    hide After, NameOf, GuidOk, JsonNames, MatchingNames, Newest, StickOf, Touched, LatestFlash, Decided, Valid;
    TouchedByAdd(es, e);
    ListedAreFlashFiles(es, e.listing);
    var entries := JsonNames(e.listing);
    var own := if StickOf(e.resolved) != "" then LatestFlash(es, StickOf(e.resolved)) else None;
    if own.Some? {
      assert e.resolved.Some? by { NoGuidNoStick(e.resolved); }
      OwnFileIsNewest(es, entries, e.resolved, own.value);
      assert NameOf(es[own.value]) in entries;
    } else if Touched(es).Some? {
      NewestOverall(es, entries, e.resolved);
      assert NameOf(es[Touched(es).value]) in entries;
    } else {
      NoFlashesNoFiles(es, entries);
    }
  }

  lemma NoFlashesNoFiles(es: seq<Event>, entries: seq<string>)
    requires FlashFiles(es, entries)
    ensures entries != [] ==> exists i :: IsFlash(es, i)
  {
    hide NameOf;
    if entries != [] {
      assert entries[0] in entries;
      var i :| IsFlash(es, i) && NameOf(es[i]) == entries[0];
    }
  }

  lemma NoGuidNoStick(guid: Option<string>)
    ensures guid.None? ==> StickOf(guid) == ""
  {
  }

  lemma OwnFileIsNewest(es: seq<Event>, entries: seq<string>, guid: Option<string>, k: nat)
    requires Valid(es) && Decided(es) && guid.Some? && GuidOk(guid) && StickOf(guid) != ""
    requires LatestFlash(es, StickOf(guid)) == Some(k)
    requires FlashFiles(es, entries)
    ensures Newest(MatchingNames(entries, guid.value), After(es).files) == Some(NameOf(es[k]))
  {
    hide After, NameOf, GuidOk, IsosOf, StickOf, Matches, LastTouch, Touched;
    var files := After(es).files;
    var matching := MatchingNames(entries, guid.value);
    MatchIsSameStick(es[k], guid);
    assert NameOf(es[k]) in matching;
    var best := Newest(matching, files).value;
    var i :| IsFlash(es, i) && NameOf(es[i]) == best;
    MatchIsSameStick(es[i], guid);
    TouchedSinceFlash(es, k);
    if i < k { SupersededStaysOld(es, i, k); }
  }

  lemma NewestOverall(es: seq<Event>, entries: seq<string>, guid: Option<string>)
    requires Valid(es) && Decided(es) && GuidOk(guid) && Touched(es).Some?
    requires StickOf(guid) == "" || LatestFlash(es, StickOf(guid)).None?
    requires FlashFiles(es, entries)
    ensures Newest(entries, After(es).files) == Some(NameOf(es[Touched(es).value]))
    ensures guid.Some? ==> var matching := MatchingNames(entries, guid.value);
                           && (matching == [] <==> StickOf(guid) != "")
                           && (matching == [] || Newest(matching, After(es).files) == Some(NameOf(es[Touched(es).value])))
  {
    hide After, NameOf, GuidOk, IsosOf, StickOf, Matches;
    var files, k := After(es).files, Touched(es).value;
    assert LastTouch(es, k) == |es| - 1;
    var best := Newest(entries, files).value;
    var i :| IsFlash(es, i) && NameOf(es[i]) == best;
    assert LastTouch(es, i) >= LastTouch(es, k);
    YoungestIsTouched(es, i);
    if guid.Some? {
      var matching := MatchingNames(entries, guid.value);
      if StickOf(guid) == "" {
        EveryNameMatchesEmpty(es[k], guid);
        assert NameOf(es[k]) in matching;
        var m := Newest(matching, files).value;
        var j :| IsFlash(es, j) && NameOf(es[j]) == m;
        assert LastTouch(es, j) >= LastTouch(es, k);
        YoungestIsTouched(es, j);
      } else if matching != [] {
        assert matching[0] in matching;
        var j :| IsFlash(es, j) && NameOf(es[j]) == matching[0];
        MatchIsSameStick(es[j], guid);
      }
    }
  }

  /** Over every run, from an empty directory, the store is what the history says. */
  lemma {:induction false} HistoryDecidesStore(es: seq<Event>)
    requires Valid(es)
    ensures Decided(es)
  {
    if es != [] {
      ValidFront(es);
      HistoryDecidesStore(Front(es));
      if Last(es).FlashEvent? { FlashDecided(es); } else { AddDecided(es); }
    }
  }

  /** An event that does not touch a file leaves it as it was. */
  lemma FileUntouched(es: seq<Event>, i: nat)
    requires es != [] && IsFlash(Front(es), i) && Touched(es) != Some(i)
    ensures IsFlash(es, i) && FileOf(es, i) == FileOf(Front(es), i)
  {
    hide Touched;
  }

  /** An add that touches a file appends its ISO and makes it the youngest. */
  lemma FileTouchedByAdd(es: seq<Event>, i: nat)
    requires es != [] && IsFlash(Front(es), i) && Last(es).AddEvent? && Touched(es) == Some(i)
    ensures IsFlash(es, i) && FileOf(es, i) == Append(FileOf(Front(es), i), Last(es).iso, |es| - 1)
  {
    hide Touched;
  }

  lemma FlashDecided(es: seq<Event>)
    requires es != [] && Valid(es) && Decided(Front(es)) && Last(es).FlashEvent?
    ensures Decided(es)
  {
    hide NameOf, FileName, Lists, StickOf, LatestFlash, FileOf, GuidOk;
    var front, k := Front(es), |es| - 1;
    NameIsFileName(es[k]);
    FreshFlashFile(es);
    assert IsFlash(es, k);
    forall i | IsFlash(es, i) ensures NameOf(es[i]) in After(es).files && After(es).files[NameOf(es[i])] == FileOf(es, i) {
      if i < k {
        assert IsFlash(front, i) && NameOf(es[i]) != NameOf(es[k]);
        FileUntouched(es, i);
      }
    }
    forall n | n in After(es).files ensures exists i :: IsFlash(es, i) && NameOf(es[i]) == n {
      if n != NameOf(es[k]) {
        var i :| IsFlash(front, i) && NameOf(front[i]) == n;
        assert IsFlash(es, i);
      }
    }
  }

  lemma FreshFlashFile(es: seq<Event>)
    requires es != [] && Last(es).FlashEvent?
    ensures var e := Last(es);
            FileOf(es, |es| - 1) == File(Attestation(e.timestamp, e.device, GuidText(e.flashed), e.info, []), |es| - 1)
  {
    NoIsosYet(Front(es), |es| - 1);
  }

  lemma NameIsFileName(e: Event)
    requires e.FlashEvent?
    ensures NameOf(e) == FileName(e.device, GuidText(e.flashed), e.timestamp)
  {
  }

  lemma {:induction false} NoIsosYet(es: seq<Event>, k: nat)
    requires k >= |es|
    ensures IsosOf(es, k) == []
  {
    if es != [] { NoIsosYet(Front(es), k); }
  }

  lemma AddDecided(es: seq<Event>)
    requires es != [] && Valid(es) && Valid(Front(es)) && Decided(Front(es)) && Last(es).AddEvent?
    ensures Decided(es)
  {
    hide NameOf, GuidOk, LocateManifest, Valid, LatestFlash, Touched, StickOf, Lists, FileOf;
    var front, e := Front(es), Last(es);
    assert Lists(e.listing, After(front).files) && GuidOk(e.resolved) by { LastIsValid(es); }
    assert es == front + [e];
    AddFindsTouched(front, e);
    assert forall i :: IsFlash(es, i) <==> IsFlash(front, i);
    forall i | IsFlash(es, i) ensures NameOf(es[i]) in After(es).files && After(es).files[NameOf(es[i])] == FileOf(es, i) {
      assert IsFlash(front, i) && es[i] == front[i];
      if Touched(es) == Some(i) {
        FileTouchedByAdd(es, i);
      } else {
        FileUntouched(es, i);
        if Touched(es).Some? { DistinctNames(es, Touched(es).value, i); }
      }
    }
    forall n | n in After(es).files ensures exists i :: IsFlash(es, i) && NameOf(es[i]) == n {
      var i :| IsFlash(front, i) && NameOf(front[i]) == n;
      assert IsFlash(es, i);
    }
  }

  lemma DistinctNames(es: seq<Event>, i: nat, j: nat)
    requires Valid(es) && IsFlash(es, i) && IsFlash(es, j) && i != j
    ensures NameOf(es[i]) != NameOf(es[j])
  {
  }

  lemma LastIsValid(es: seq<Event>)
    requires es != [] && Valid(es) && Last(es).AddEvent?
    ensures Lists(Last(es).listing, After(Front(es)).files) && GuidOk(Last(es).resolved)
  {
  }

  // ---- consequences ------------------------------------------------------------------------------

  /** The newest file of a stick is that stick's latest flash, in every listing order. */
  lemma NewestFileIsLatestFlash(es: seq<Event>, listing: seq<string>, guid: Option<string>, k: nat)
    requires Valid(es) && Lists(listing, After(es).files)
    requires guid.Some? && GuidOk(guid) && StickOf(guid) != "" && LatestFlash(es, StickOf(guid)) == Some(k)
    ensures LocateManifest(After(es).files, listing, guid) == Some((NameOf(es[k]), GuidMatch))
  {
    hide After, NameOf, GuidOk, IsJson, Matches, StickOf, LatestFlash;
    HistoryDecidesStore(es);
    ListedAreFlashFiles(es, listing);
    OwnFileIsNewest(es, JsonNames(listing), guid, k);
  }

  /** Every add so far resolved to a stick flashed before it. */
  ghost predicate EveryAddResolved(es: seq<Event>) {
    forall j :: 0 <= j < |es| && es[j].AddEvent? ==>
      StickOf(es[j].resolved) != "" && LatestFlash(es[..j], StickOf(es[j].resolved)).Some?
  }

  /** The ISOs added to flash `i`'s stick after flash `i` and before that stick's next flash. */
  function AddsBetweenFlashes(es: seq<Event>, i: nat): seq<IsoRecord> {
    if es == [] then []
    else
      AddsBetweenFlashes(Front(es), i) +
      if Last(es).AddEvent? && LatestFlash(Front(es), StickOf(Last(es).resolved)) == Some(i) then [Last(es).iso] else []
  }

  lemma {:induction false} ResolvedIsosAreBetweenFlashes(es: seq<Event>, i: nat)
    requires EveryAddResolved(es)
    ensures IsosOf(es, i) == AddsBetweenFlashes(es, i)
  {
    hide LatestFlash, StickOf;
    if es != [] {
      var front := Front(es);
      forall j | 0 <= j < |front| && front[j].AddEvent?
        ensures StickOf(front[j].resolved) != "" && LatestFlash(front[..j], StickOf(front[j].resolved)).Some?
      {
        assert front[..j] == es[..j];
      }
      ResolvedIsosAreBetweenFlashes(front, i);
      assert es[..|es| - 1] == front;
    }
  }

  /**
    When every add resolves to an earlier flash, each manifest holds exactly the
    ISOs added to its stick between that flash and the stick's next one, in order.
  */
  lemma ManifestHoldsItsSticksIsos(es: seq<Event>, i: nat)
    requires Valid(es) && EveryAddResolved(es) && IsFlash(es, i)
    ensures NameOf(es[i]) in After(es).files
    ensures After(es).files[NameOf(es[i])].manifest.isos == AddsBetweenFlashes(es, i)
    ensures After(es).files[NameOf(es[i])].manifest.diskGuid == GuidText(es[i].flashed)
  {
    hide After, NameOf, LatestFlash, StickOf, IsosOf;
    HistoryDecidesStore(es);
    ResolvedIsosAreBetweenFlashes(es, i);
  }
}
