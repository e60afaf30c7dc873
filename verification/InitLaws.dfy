/**
  What a run of `init` passes to its steps and when it succeeds, said about the
  words the operator typed and the lists the steps receive.
*/
module InitLaws {
  import opened Wrappers
  import opened Strings
  import opened ListingScanner
  import opened Alphabets
  import opened Argv
  import opened ArgvMeaning
  import opened InitRun

  // ---- the fetches --------------------------------------------------------------------

  /** The argument lists of the fetch calls in a trace, in order. */
  function FetchCalls(trace: seq<Action>): seq<seq<string>> {
    if trace == [] then []
    else (if trace[0].Fetch? then [trace[0].argv] else []) + FetchCalls(trace[1..])
  }

  lemma FetchCallsStep(a: seq<Action>)
    requires a != []
    ensures FetchCalls(a) == (if a[0].Fetch? then [a[0].argv] else []) + FetchCalls(a[1..])
  {
  }

  lemma {:induction false} FetchCallsAppend(a: seq<Action>, b: seq<Action>)
    ensures FetchCalls(a + b) == FetchCalls(a) + FetchCalls(b)
  {
    if a == [] {
      assert a + b == b;
    } else {
      hide FetchCalls;
      assert (a + b)[1..] == a[1..] + b && (a + b)[0] == a[0];
      FetchCallsAppend(a[1..], b);
      FetchCallsStep(a);
      FetchCallsStep(a + b);
    }
  }

  /** The first `|calls|` slugs, each fetched by its name, with `--no-gpg` before it or without. */
  ghost predicate FetchesInOrder(calls: seq<seq<string>>, slugs: seq<string>, skipGpg: bool) {
    |calls| <= |slugs| &&
    forall j :: 0 <= j < |calls| ==> calls[j] == if skipGpg then ["--no-gpg", slugs[j]] else [slugs[j]]
  }

  lemma OneFetch(host: Host, slug: string, skipGpg: bool)
    ensures FetchCalls(FetchAndAdd(host, slug, skipGpg).trace) == [if skipGpg then ["--no-gpg", slug] else [slug]]
  {
    hide FetchCalls;
    var argv := if skipGpg then ["--no-gpg", slug] else [slug];
    assert FetchArgv(slug, skipGpg) == argv;
    NoCalls();
    var o := FetchAndAdd(host, slug, skipGpg);
    FetchCallsStep(o.trace);
    if |o.trace| == 2 {
      FetchCallsStep(o.trace[1..]);
      assert o.trace[1..][1..] == [];
    } else {
      assert o.trace[1..] == [];
    }
  }

  lemma NoCalls()
    ensures FetchCalls([]) == []
  {
  }

  lemma {:induction false} FetchesFollowSlugs(host: Host, slugs: seq<string>, skipGpg: bool)
    ensures var o := FetchAndAddAll(host, slugs, skipGpg);
            FetchesInOrder(FetchCalls(o.trace), slugs, skipGpg) && (o.success ==> |FetchCalls(o.trace)| == |slugs|)
  {
    hide FetchAndAdd, FetchCalls;
    NoCalls();
    if slugs != [] {
      OneFetch(host, slugs[0], skipGpg);
      FetchesFollowSlugs(host, slugs[1..], skipGpg);
      FetchCallsAppend(FetchAndAdd(host, slugs[0], skipGpg).trace, FetchAndAddAll(host, slugs[1..], skipGpg).trace);
    }
  }

  lemma ProvisionFetches(host: Host, profile: Profile, p: Parsed, device: Option<string>, flashYes: bool)
    ensures var o := Provision(host, profile, p, device, flashYes);
            && FetchesInOrder(FetchCalls(o.trace), profile.slugs, p.skipGpg)
            && (o.success ==> |FetchCalls(o.trace)| == |profile.slugs|)
  {
    hide FetchAndAddAll, FlashArgv, FetchCalls;
    var argv := FlashArgv(device, flashYes, p.directInstall);
    var doctor, flash := DoctorStep(host, device, p).trace, [FlashStick(argv, host.flash(argv))];
    var rest := FetchAndAddAll(host, profile.slugs, p.skipGpg).trace;
    NoCalls();
    FetchesFollowSlugs(host, profile.slugs, p.skipGpg);
    FetchCallsStep(flash);
    assert flash[1..] == [];
    if doctor != [] { FetchCallsStep(doctor); assert doctor[1..] == []; }
    FetchCallsAppend(doctor, flash);
    FetchCallsAppend(doctor + flash, rest);
    assert FetchCalls(doctor + flash) == [] && [] + FetchCalls(rest) == FetchCalls(rest);
  }

  /**
    Every fetch of every run: an in-order beginning of the profile's slugs, all of
    them if the run succeeds, with signature checking off exactly when the operator
    typed `--no-gpg`.
  */
  lemma FetchArgumentsFollowProfile(host: Host, args: seq<string>)
    requires FetchCalls(Run(host, args).trace) != []
    ensures ParseFlagsOf(args).Ok? && ResolveProfile(ParseFlagsOf(args).value.profileName).Some?
    ensures var slugs := ResolveProfile(ParseFlagsOf(args).value.profileName).value.slugs;
            var calls := FetchCalls(Run(host, args).trace);
            && FetchesInOrder(calls, slugs, Says(args, INIT_TAKERS, "--no-gpg"))
            && (Run(host, args).success ==> |calls| == |slugs|)
  {
    hide Provision, ParseFlagsOf, Wizard, FetchCalls, Says, ResolveProfile;
    NoCalls();
    var p := ParseFlagsOf(args).value;
    InitFlagsMean(args, p);
    var profile := ResolveProfile(p.profileName).value;
    if WizardNeeded(p) {
      ProvisionFetches(host, profile, p, Some(Wizard(host, p.force).value), true);
    } else {
      ProvisionFetches(host, profile, p, p.device, p.yes);
    }
  }

  // ---- the wizard -----------------------------------------------------------------------

  /** The first line picks drive `k`: return or `y` for an only drive, else its number. */
  ghost predicate Picks(host: Host, k: nat) {
    host.drives.Some? && k < |host.drives.value| && host.stdin(0).Some? &&
    if |host.drives.value| == 1 then Trim(host.stdin(0).value) == "" || Lower(Trim(host.stdin(0).value)) == "y"
    else ParseMenuSelection(host.stdin(0).value, |host.drives.value|) == Some(k)
  }

  /** The wizard answers with a drive that was picked, is free or forced, confirmed by its serial, and acknowledged. */
  ghost predicate WizardYields(host: Host, force: bool, k: nat) {
    && Picks(host, k) && host.stdin(1).Some? && host.stdin(2).Some?
    && (force || !host.mounted(host.drives.value[k].dev))
    && host.drives.value[k].serial.Some?
    && TypedSerialTail(host.stdin(1).value, host.drives.value[k].serial.value)
  }

  lemma WizardIff(host: Host, force: bool, dev: string)
    ensures Wizard(host, force) == Some(dev) <==> exists k: nat :: WizardYields(host, force, k) && host.drives.value[k].dev == dev
  {
    hide Trim, Lower, ParseMenuSelection, Confirms, TypedSerialTail;
    if host.drives.Some? {
      forall k: nat | k < |host.drives.value| { ConfirmsIff(host, host.drives.value[k]); }
      if Wizard(host, force) == Some(dev) {
        var k := PickDrive(host, host.drives.value).value;
        ConfirmsIff(host, host.drives.value[k]);
        assert WizardYields(host, force, k);
      }
      forall k: nat | WizardYields(host, force, k) ensures Wizard(host, force) == Some(host.drives.value[k].dev) {
        assert PickDrive(host, host.drives.value) == Some(k);
        ConfirmsIff(host, host.drives.value[k]);
      }
    }
  }

  // ---- when a run succeeds, and what it does on the way -----------------------------------------

  /** The words flash receives. */
  function FlashWords(device: Option<string>, yes: bool, direct: bool): seq<string> {
    (if device.Some? then [device.value] else []) + (if yes then ["--yes"] else []) + (if direct then ["--direct-install"] else [])
  }

  ghost predicate SaysYes(args: seq<string>) {
    Says(args, INIT_TAKERS, "--yes") || Says(args, INIT_TAKERS, "-y")
  }

  /** The device a run works on, and whether flash is told not to ask. */
  ghost predicate WorksOn(host: Host, args: seq<string>, device: Option<string>, silent: bool) {
    exists plain :: IsOnlyPlain(args, INIT_TAKERS, plain) &&
      if plain.Some? || SaysYes(args) then device == plain && silent == SaysYes(args)
      else device.Some? && silent &&
           exists k: nat :: WizardYields(host, Says(args, INIT_TAKERS, "--force"), k) && host.drives.value[k].dev == device.value
  }

  /** The profile is known and all its slugs are in the catalog. */
  ghost predicate ProfileKnown(host: Host, args: seq<string>, slugs: seq<string>) {
    && ParseFlagsOf(args).Ok? && ResolveProfile(ParseFlagsOf(args).value.profileName).Some?
    && ResolveProfile(ParseFlagsOf(args).value.profileName).value.slugs == slugs
    && forall s | s in slugs :: host.inCatalog(s)
  }

  ghost predicate OnlyShowsHelp(args: seq<string>) {
    "--help" in args || "-h" in args || "--list-profiles" in args
  }

  /** Every slug is fetched, found in the cache and added. */
  ghost predicate AllAdded(host: Host, slugs: seq<string>, skipGpg: bool) {
    forall s | s in slugs ::
      && host.fetch(if skipGpg then ["--no-gpg", s] else [s])
      && host.cachedIso(s).Some? && host.add([host.cachedIso(s).value])
  }

  ghost predicate DoctorLets(host: Host, args: seq<string>) {
    Says(args, INIT_TAKERS, "--no-doctor") || host.doctorPasses || SaysYes(args)
  }

  lemma {:induction false} AllAddedIff(host: Host, slugs: seq<string>, skipGpg: bool)
    ensures FetchAndAddAll(host, slugs, skipGpg).success <==> AllAdded(host, slugs, skipGpg)
  {
    if slugs != [] {
      var s := slugs[0];
      assert FetchArgv(s, skipGpg) == if skipGpg then ["--no-gpg", s] else [s];
      AllAddedIff(host, slugs[1..], skipGpg);
      assert forall t :: t in slugs <==> t == s || t in slugs[1..];
    }
  }

  lemma ProvisionSucceedsIff(host: Host, profile: Profile, p: Parsed, device: Option<string>, flashYes: bool)
    ensures Provision(host, profile, p, device, flashYes).success <==>
            && (p.skipDoctor || host.doctorPasses || p.yes)
            && host.flash(FlashWords(device, flashYes, p.directInstall)) && AllAdded(host, profile.slugs, p.skipGpg)
  {
    hide AllAdded, FetchAndAddAll;
    AllAddedIff(host, profile.slugs, p.skipGpg);
    assert FlashWords(device, flashYes, p.directInstall) == FlashArgv(device, flashYes, p.directInstall);
  }

  /** The device and the silence `run` settles on, when it settles. */
  ghost function Settled(host: Host, p: Parsed): Option<(Option<string>, bool)> {
    if WizardNeeded(p) then (if Wizard(host, p.force).Some? then Some((Wizard(host, p.force), true)) else None)
    else Some((p.device, p.yes))
  }

  lemma SettledIs(host: Host, args: seq<string>, p: Parsed, device: Option<string>, silent: bool)
    requires ParseFlagsOf(args) == Ok(p)
    ensures Settled(host, p) == Some((device, silent)) <==> WorksOn(host, args, device, silent)
  {
    hide Wizard, ParseFlagsOf, Says, IsOnlyPlain, WizardYields;
    InitFlagsMean(args, p);
    forall plain | IsOnlyPlain(args, INIT_TAKERS, plain) ensures plain == p.device { OnlyPlainIsUnique(args, plain, p.device); }
    if device.Some? { WizardIff(host, p.force, device.value); }
    if Wizard(host, p.force).Some? { WizardIff(host, p.force, Wizard(host, p.force).value); }
  }

  lemma OnlyPlainIsUnique(args: seq<string>, v: Option<string>, w: Option<string>)
    requires IsOnlyPlain(args, INIT_TAKERS, v) && IsOnlyPlain(args, INIT_TAKERS, w)
    ensures v == w
  {
    hide DeviceWord, Stands;
  }

  lemma RunIs(host: Host, args: seq<string>, slugs: seq<string>)
    requires !OnlyShowsHelp(args) && ProfileKnown(host, args, slugs)
    ensures var p := ParseFlagsOf(args).value;
            var profile := ResolveProfile(p.profileName).value;
            Run(host, args) ==
              match Settled(host, p)
              case None => Outcome([], false)
              case Some((device, silent)) => Provision(host, profile, p, device, silent)
  {
    hide Provision, ParseFlagsOf, Wizard, ResolveProfile;
    var found := ResolveProfile(ParseFlagsOf(args).value.profileName).value.slugs;
    assert forall i :: 0 <= i < |found| ==> found[i] in slugs;
  }

  /** Exactly when a run succeeds. */
  lemma RunSucceedsIff(host: Host, args: seq<string>)
    ensures Run(host, args).success <==>
            OnlyShowsHelp(args) ||
            exists slugs, device, silent ::
              && ProfileKnown(host, args, slugs) && WorksOn(host, args, device, silent) && DoctorLets(host, args)
              && host.flash(FlashWords(device, silent, Says(args, INIT_TAKERS, "--direct-install")))
              && AllAdded(host, slugs, Says(args, INIT_TAKERS, "--no-gpg"))
  {
    hide Provision, ParseFlagsOf, Wizard, Says, AllAdded, FlashWords, ResolveProfile, WorksOn, Settled;
    if !OnlyShowsHelp(args) && ParseFlagsOf(args).Ok? && ResolveProfile(ParseFlagsOf(args).value.profileName).Some? {
      var p := ParseFlagsOf(args).value;
      var slugs := ResolveProfile(p.profileName).value.slugs;
      InitFlagsMean(args, p);
      if ProfileKnown(host, args, slugs) {
        RunIs(host, args, slugs);
        forall device, silent ensures Settled(host, p) == Some((device, silent)) <==> WorksOn(host, args, device, silent) {
          SettledIs(host, args, p, device, silent);
        }
        if Settled(host, p).Some? {
          var (device, silent) := Settled(host, p).value;
          assert WorksOn(host, args, device, silent);
          ProvisionSucceedsIff(host, ResolveProfile(p.profileName).value, p, device, silent);
        }
      } else {
        var i :| 0 <= i < |slugs| && !host.inCatalog(slugs[i]);
      }
    }
  }

  /** A run that does anything: doctor first, unless switched off, then at most one flash, by these words. */
  lemma StepsOfRun(host: Host, args: seq<string>)
    requires Run(host, args).trace != []
    ensures exists slugs, device, silent ::
              && ProfileKnown(host, args, slugs) && WorksOn(host, args, device, silent)
              && DoctorComesFirst(host, args, device)
              && (FlashCalls(Run(host, args).trace) != [] ==>
                    DoctorLets(host, args) &&
                    FlashCalls(Run(host, args).trace) == [FlashWords(device, silent, Says(args, INIT_TAKERS, "--direct-install"))])
  {
    hide Provision, ParseFlagsOf, Wizard, Says, FlashWords, ResolveProfile, WorksOn, Settled, FlashCalls;
    var p := ParseFlagsOf(args).value;
    var slugs := ResolveProfile(p.profileName).value.slugs;
    InitFlagsMean(args, p);
    assert ProfileKnown(host, args, slugs);
    RunIs(host, args, slugs);
    var (device, silent) := Settled(host, p).value;
    SettledIs(host, args, p, device, silent);
    ProvisionSteps(host, ResolveProfile(p.profileName).value, p, device, silent);
  }

  ghost predicate DoctorComesFirst(host: Host, args: seq<string>, device: Option<string>) {
    var t := Run(host, args).trace;
    if Says(args, INIT_TAKERS, "--no-doctor") then forall a | a in t :: !a.Doctor?
    else |t| > 0 && t[0] == Doctor(device) && forall a | a in t[1..] :: !a.Doctor?
  }

  lemma ProvisionSteps(host: Host, profile: Profile, p: Parsed, device: Option<string>, flashYes: bool)
    ensures var t := Provision(host, profile, p, device, flashYes).trace;
            && (if p.skipDoctor then forall a | a in t :: !a.Doctor?
                else |t| > 0 && t[0] == Doctor(device) && forall a | a in t[1..] :: !a.Doctor?)
            && (FlashCalls(t) != [] ==>
                  (p.skipDoctor || host.doctorPasses || p.yes) && FlashCalls(t) == [FlashWords(device, flashYes, p.directInstall)])
  {
    hide Provision, FlashCalls, FlashWords;
    DoctorInProvision(host, profile, p, device, flashYes);
    FlashInProvision(host, profile, p, device, flashYes);
  }

  lemma FlashInProvision(host: Host, profile: Profile, p: Parsed, device: Option<string>, flashYes: bool)
    ensures var t := Provision(host, profile, p, device, flashYes).trace;
            FlashCalls(t) != [] ==>
              (p.skipDoctor || host.doctorPasses || p.yes) && FlashCalls(t) == [FlashWords(device, flashYes, p.directInstall)]
  {
    hide FetchAndAddAll, FlashCalls, FlashArgv, FlashWords;
    SameFlashWords(device, flashYes, p.directInstall);
    ProvisionShape(host, profile, p, device, flashYes);
    OneCall(Doctor(device));
  }

  lemma SameFlashWords(device: Option<string>, yes: bool, direct: bool)
    ensures FlashWords(device, yes, direct) == FlashArgv(device, yes, direct)
  {
  }

  lemma DoctorInProvision(host: Host, profile: Profile, p: Parsed, device: Option<string>, flashYes: bool)
    ensures var t := Provision(host, profile, p, device, flashYes).trace;
            if p.skipDoctor then forall a | a in t :: !a.Doctor?
            else |t| > 0 && t[0] == Doctor(device) && forall a | a in t[1..] :: !a.Doctor?
  {
    hide FetchAndAddAll, FlashCalls, FlashArgv;
    LaterPhaseShape(host, profile.slugs, p.skipGpg);
    var words := FlashArgv(device, flashYes, p.directInstall);
    var flash, rest := [FlashStick(words, host.flash(words))], FetchAndAddAll(host, profile.slugs, p.skipGpg).trace;
    var doctor := DoctorStep(host, device, p).trace;
    var t := Provision(host, profile, p, device, flashYes).trace;
    assert t == doctor || t == doctor + flash || t == doctor + (flash + rest) by {
      assert doctor + flash + rest == doctor + (flash + rest);
    }
  }

  // ---- what the operator types ------------------------------------------------------------------

  /** One typed character: a digit or lower-case letter counts, an upper-case one by its small letter, others not. */
  lemma NormalizeOne(c: char)
    ensures |UPPER| == |LOWER| == 26
    ensures Normalize([c]) ==
            if c in DIGITS || c in LOWER then [c]
            else if c in UPPER then Lower([c])
            else ""
  {
    hide DIGITS, UPPER, LOWER;
    Members(c);
    UpperInOrder();
    LowerInOrder();
    assert [c][1..] == "" && Lower([c]) == [LowerChar(c)];
  }

  lemma {:induction false} NormalizeAppend(a: string, b: string)
    ensures Normalize(a + b) == Normalize(a) + Normalize(b)
  {
    if a == "" {
      assert a + b == b;
    } else {
      assert (a + b)[1..] == a[1..] + b;
      NormalizeAppend(a[1..], b);
    }
  }

  const WHITESPACE := " \t\n\U{0B}\U{0C}\r"

  /** `trim`: white space around goes, and the rest starts and ends with something else. */
  lemma TrimIs(s: string) returns (before: string, after: string)
    ensures s == before + Trim(s) + after
    ensures forall c | c in before + after :: c in WHITESPACE
    ensures Trim(s) != "" ==> Trim(s)[0] !in WHITESPACE && Trim(s)[|Trim(s)| - 1] !in WHITESPACE
  {
    hide TrimStart, TrimEnd, WHITESPACE;
    before := TrimStartIs(s);
    after := TrimEndIs(TrimStart(s));
    if Trim(s) != "" {
      assert TrimStart(s)[0] == Trim(s)[0];
    }
  }

  lemma SpaceIs(c: char)
    ensures IsSpace(c) <==> c in WHITESPACE
  {
    assert WHITESPACE[0] == ' ' && WHITESPACE[1] == '\t' && WHITESPACE[2] == '\n' && WHITESPACE[5] == '\r';
    assert WHITESPACE[3] as int == 11 && WHITESPACE[4] as int == 12;
    if '\t' <= c <= '\r' { assert c == WHITESPACE[1] || c == WHITESPACE[2] || c == WHITESPACE[3] || c == WHITESPACE[4] || c == WHITESPACE[5]; }
  }

  lemma {:induction false} TrimStartIs(s: string) returns (before: string)
    ensures s == before + TrimStart(s) && forall c | c in before :: c in WHITESPACE
    ensures TrimStart(s) != "" ==> TrimStart(s)[0] !in WHITESPACE
  {
    hide WHITESPACE, IsSpace;
    before := "";
    if s != "" {
      SpaceIs(s[0]);
      if IsSpace(s[0]) {
        var more := TrimStartIs(s[1..]);
        before := [s[0]] + more;
      }
    }
  }

  lemma {:induction false} TrimEndIs(s: string) returns (after: string)
    ensures s == TrimEnd(s) + after && forall c | c in after :: c in WHITESPACE
    ensures TrimEnd(s) != "" ==> TrimEnd(s)[|TrimEnd(s)| - 1] !in WHITESPACE
  {
    hide WHITESPACE, IsSpace;
    after := "";
    if s != "" {
      var n := |s| - 1;
      SpaceIs(s[n]);
      if IsSpace(s[n]) {
        var more := TrimEndIs(s[..n]);
        after := more + [s[n]];
        assert s == s[..n] + [s[n]];
      }
    }
  }

  /** Exactly what the menu reads as a number: digits after at most one plus sign, up to 2^64 - 1. */
  lemma ParseUsizeIff(s: string, n: nat)
    ensures ParseUsize(s) == Some(n) <==>
            exists digits: string ::
              && digits != "" && AllDigits(digits) && (s == digits || s == "+" + digits) && DecimalValue(digits) == n
              && n <= 18_446_744_073_709_551_615
  {
    hide DecimalValue;
    if ParseUsize(s) == Some(n) {
      var digits := if |s| > 1 && s[0] == '+' then s[1..] else s;
      assert s == digits || s == "+" + digits;
    }
    if digits: string :| digits != "" && AllDigits(digits) && (s == digits || s == "+" + digits) && DecimalValue(digits) == n &&
                         n <= 18_446_744_073_709_551_615 {
      if s == "+" + digits {
        assert s[1..] == digits;
      } else {
        assert IsDigit(digits[0]);
      }
    }
  }

  /** The profiles init knows and what each provisions, in order. */
  lemma KnownProfiles(name: string, slugs: seq<string>)
    ensures ResolveProfile(name).Some? && ResolveProfile(name).value.slugs == slugs <==>
            || (name == "panic-room" && slugs == ["alpine-3.20-standard", "ubuntu-24.04-live-server", "rocky-9-minimal"])
            || (name == "minimal" && slugs == ["alpine-3.20-standard"])
            || (name == "server" && slugs == ["ubuntu-24.04-live-server", "rocky-9-minimal", "almalinux-9-minimal"])
  {
    assert "panic-room"[0] == 'p' && "minimal"[0] == 'm' && "server"[0] == 's';
  }
}
