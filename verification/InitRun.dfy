/**
  `init` from start to end: the parsed flags, the wizard's consent gate, doctor,
  flash, then fetch and add for each slug.  `Run` is the whole run as a function
  of what the outside world answers; `InitSession` performs it effect by effect.
*/
module InitRun {
  import opened Wrappers
  import opened Strings
  import opened ListingScanner
  import opened Argv
  import opened Devices

  datatype Profile = Profile(name: string, slugs: seq<string>)

  const PANIC_ROOM := Profile("panic-room", ["alpine-3.20-standard", "ubuntu-24.04-live-server", "rocky-9-minimal"])
  const MINIMAL := Profile("minimal", ["alpine-3.20-standard"])
  const SERVER := Profile("server", ["ubuntu-24.04-live-server", "rocky-9-minimal", "almalinux-9-minimal"])

  function ResolveProfile(name: string): Option<Profile> {
    if name == PANIC_ROOM.name then Some(PANIC_ROOM)
    else if name == MINIMAL.name then Some(MINIMAL)
    else if name == SERVER.name then Some(SERVER)
    else None
  }

  datatype Drive = Drive(dev: string, serial: Option<string>)

  /** Everything the run asks of the host; each answer may be anything. */
  datatype Host = Host(
    inCatalog: string -> bool,
    drives: Option<seq<Drive>>,
    stdin: nat -> Option<string>,
    mounted: string -> bool,
    doctorPasses: bool,
    flash: seq<string> -> bool,
    fetch: seq<string> -> bool,
    cachedIso: string -> Option<string>,
    add: seq<string> -> bool)

  datatype Action =
    | Doctor(stick: Option<string>)
    | FlashStick(argv: seq<string>, ok: bool)
    | Fetch(argv: seq<string>, ok: bool)
    | AddIso(argv: seq<string>, ok: bool)

  // ---- the wizard's pure parts -------------------------------------------------------

  predicate IsSpace(c: char) {
    c == ' ' || '\t' <= c <= '\r'
  }

  function TrimStart(s: string): string {
    if s != "" && IsSpace(s[0]) then TrimStart(s[1..]) else s
  }

  function TrimEnd(s: string): string {
    if s != "" && IsSpace(s[|s| - 1]) then TrimEnd(s[..|s| - 1]) else s
  }

  function Trim(s: string): string {
    TrimEnd(TrimStart(s))
  }

  predicate IsAlphanumeric(c: char) {
    IsDigit(c) || 'a' <= c <= 'z' || 'A' <= c <= 'Z'
  }

  /** Keep ASCII alphanumerics, lowercased. */
  function Normalize(s: string): string {
    if s == "" then ""
    else (if IsAlphanumeric(s[0]) then [LowerChar(s[0])] else []) + Normalize(s[1..])
  }

  const SERIAL_CONFIRMATION_LEN := 4

  function SerialToken(serial: string): Option<string> {
    var alnum := Normalize(serial);
    if |alnum| < SERIAL_CONFIRMATION_LEN then None else Some(alnum[|alnum| - SERIAL_CONFIRMATION_LEN..])
  }

  predicate SerialMatches(input: string, expectedToken: string) {
    Normalize(input) != "" && Normalize(input) == Normalize(expectedToken)
  }

  const USIZE_MAX := 0xFFFF_FFFF_FFFF_FFFF

  function ParseUsize(s: string): Option<nat> {
    var digits := if |s| > 1 && s[0] == '+' then s[1..] else s;
    if digits != "" && AllDigits(digits) && DecimalValue(digits) <= USIZE_MAX then Some(DecimalValue(digits)) else None
  }

  /** The menu is 1-based; the result indexes the drives. */
  function ParseMenuSelection(input: string, maxN: nat): (r: Option<nat>)
    ensures r.Some? ==> r.value < maxN
  {
    var n := ParseUsize(Trim(input));
    if n.None? || n.value == 0 || n.value > maxN then None else Some(n.value - 1)
  }

  /** The drive chosen is the one whose 1-based number was typed, and every listed number can be typed. */
  lemma MenuSelectionIff(input: string, maxN: nat, k: nat)
    ensures ParseMenuSelection(input, maxN) == Some(k) <==>
            k < maxN && ParseUsize(Trim(input)) == Some(k + 1)
  {
    hide Trim, ParseUsize;
  }

  lemma TypedNumberSelects(n: nat, maxN: nat)
    requires 1 <= n <= maxN <= USIZE_MAX
    ensures ParseMenuSelection(Decimal(n), maxN) == Some(n - 1)
  {
    hide DecimalValue;
    DecimalReadsBack(n);
    NothingToTrim(Decimal(n));
    assert Decimal(n)[0] != '+';
  }

  lemma NothingToTrim(s: string)
    requires AllDigits(s)
    ensures Trim(s) == s
  {
  }

  // ---- the wizard ---------------------------------------------------------------------------

  /** Which drive the operator picked with the first line, if any. */
  function PickDrive(host: Host, drives: seq<Drive>): (r: Option<nat>)
    requires drives != []
    ensures r.Some? ==> r.value < |drives|
  {
    match host.stdin(0)
    case None => None
    case Some(line) =>
      if |drives| == 1 then
        (if Trim(line) == "" || Lower(Trim(line)) == "y" then Some(0) else None)
      else ParseMenuSelection(line, |drives|)
  }

  /** The typed second line confirms the drive's own serial. */
  predicate Confirms(host: Host, drive: Drive) {
    drive.serial.Some? && SerialToken(drive.serial.value).Some? &&
    host.stdin(1).Some? && SerialMatches(host.stdin(1).value, SerialToken(drive.serial.value).value)
  }

  /** The device to flash, or nothing when the wizard stopped. */
  function Wizard(host: Host, force: bool): Option<string> {
    if host.drives.None? || host.drives.value == [] then None
    else
      var pick := PickDrive(host, host.drives.value);
      if pick.None? then None
      else
        var chosen := host.drives.value[pick.value];
        if !force && host.mounted(chosen.dev) then None
        else if !Confirms(host, chosen) then None
        else if host.stdin(2).None? then None
        else Some(chosen.dev)
  }

  // ---- the run ------------------------------------------------------------------------------

  datatype Outcome = Outcome(trace: seq<Action>, success: bool)

  function FetchArgv(slug: string, skipGpg: bool): seq<string> {
    (if skipGpg then ["--no-gpg"] else []) + [slug]
  }

  /** `fetch_and_add_step`. */
  function FetchAndAdd(host: Host, slug: string, skipGpg: bool): Outcome {
    var argv := FetchArgv(slug, skipGpg);
    if !host.fetch(argv) then Outcome([Fetch(argv, false)], false)
    else if host.cachedIso(slug).None? then Outcome([Fetch(argv, true)], false)
    else
      var addArgv := [host.cachedIso(slug).value];
      Outcome([Fetch(argv, true), AddIso(addArgv, host.add(addArgv))], host.add(addArgv))
  }

  function FetchAndAddAll(host: Host, slugs: seq<string>, skipGpg: bool): Outcome {
    if slugs == [] then Outcome([], true)
    else
      var first := FetchAndAdd(host, slugs[0], skipGpg);
      if !first.success then first
      else
        var rest := FetchAndAddAll(host, slugs[1..], skipGpg);
        Outcome(first.trace + rest.trace, rest.success)
  }

  function DoctorStep(host: Host, device: Option<string>, p: Parsed): Outcome {
    if p.skipDoctor then Outcome([], true) else Outcome([Doctor(device)], host.doctorPasses || p.yes)
  }

  /** From the resolved device on. */
  function Provision(host: Host, profile: Profile, p: Parsed, device: Option<string>, flashYes: bool): Outcome {
    var doctor := DoctorStep(host, device, p);
    if !doctor.success then doctor
    else
      var argv := FlashArgv(device, flashYes, p.directInstall);
      var flash := FlashStick(argv, host.flash(argv));
      if !flash.ok then Outcome(doctor.trace + [flash], false)
      else
        var rest := FetchAndAddAll(host, profile.slugs, p.skipGpg);
        Outcome(doctor.trace + [flash] + rest.trace, rest.success)
  }

  function WizardNeeded(p: Parsed): bool {
    p.device.None? && !p.yes
  }

  function Run(host: Host, args: seq<string>): Outcome {
    if "--help" in args || "-h" in args || "--list-profiles" in args then Outcome([], true)
    else
      match ParseFlagsOf(args)
      case Err(_) => Outcome([], false)
      case Ok(p) =>
        match ResolveProfile(p.profileName)
        case None => Outcome([], false)
        case Some(profile) =>
          if exists i :: 0 <= i < |profile.slugs| && !host.inCatalog(profile.slugs[i]) then Outcome([], false)
          else if WizardNeeded(p) then
            (match Wizard(host, p.force)
             case None => Outcome([], false)
             case Some(dev) => Provision(host, profile, p, Some(dev), true))
          else Provision(host, profile, p, p.device, p.yes)
  }

  class InitSession {
    const host: Host
    var trace: seq<Action>
    var linesRead: nat

    constructor (host: Host)
      ensures this.host == host && trace == [] && linesRead == 0
    {
      this.host, trace, linesRead := host, [], 0;
    }

    method ReadStdinLine() returns (line: Option<string>)
      modifies this`linesRead
      ensures line == host.stdin(old(linesRead)) && linesRead == old(linesRead) + 1
    {
      line := host.stdin(linesRead);
      linesRead := linesRead + 1;
    }

    method RunInitWizard(force: bool) returns (device: Option<string>)
      requires linesRead == 0
      modifies this`linesRead
      ensures device == Wizard(host, force)
    {
      hide Trim, ParseMenuSelection, SerialToken, SerialMatches, Lower;
      if host.drives.None? || host.drives.value == [] {
        return None;
      }
      var drives := host.drives.value;
      var line := ReadStdinLine();
      if line.None? {
        return None;
      }
      var idx: nat := 0;
      if |drives| == 1 {
        if !(Trim(line.value) == "" || Lower(Trim(line.value)) == "y") {
          return None;
        }
      } else {
        var selected := ParseMenuSelection(line.value, |drives|);
        if selected.None? {
          return None;
        }
        idx := selected.value;
      }
      var chosen := drives[idx];
      if !force && host.mounted(chosen.dev) {
        return None;
      }
      if chosen.serial.None? {
        return None;
      }
      var token := SerialToken(chosen.serial.value);
      if token.None? {
        return None;
      }
      var confirm := ReadStdinLine();
      if confirm.None? || !SerialMatches(confirm.value, token.value) {
        return None;
      }
      var ack := ReadStdinLine();
      if ack.None? {
        return None;
      }
      return Some(chosen.dev);
    }

    method FetchAndAddStep(slug: string, skipGpg: bool) returns (ok: bool)
      modifies this`trace
      ensures var o := FetchAndAdd(host, slug, skipGpg); trace == old(trace) + o.trace && ok == o.success
    {
      var fetchArgs: seq<string> := [];
      if skipGpg {
        fetchArgs := fetchArgs + ["--no-gpg"];
      }
      fetchArgs := fetchArgs + [slug];
      assert fetchArgs == FetchArgv(slug, skipGpg);
      trace := trace + [Fetch(fetchArgs, host.fetch(fetchArgs))];
      if !host.fetch(fetchArgs) {
        return false;
      }
      var iso := host.cachedIso(slug);
      if iso.None? {
        return false;
      }
      ok := host.add([iso.value]);
      trace := trace + [AddIso([iso.value], ok)];
    }

    method FetchAndAddEach(slugs: seq<string>, skipGpg: bool) returns (ok: bool)
      modifies this`trace
      ensures var o := FetchAndAddAll(host, slugs, skipGpg); trace == old(trace) + o.trace && ok == o.success
    {
      hide FetchAndAdd;
      var i := 0;
      assert slugs[0..] == slugs;
      ghost var all := FetchAndAddAll(host, slugs, skipGpg);
      while i < |slugs|
        invariant 0 <= i <= |slugs|
        invariant var rest := FetchAndAddAll(host, slugs[i..], skipGpg);
                  old(trace) + all.trace == trace + rest.trace && all.success == rest.success
      {
        assert slugs[i..][1..] == slugs[i + 1..];
        var step := FetchAndAddStep(slugs[i], skipGpg);
        if !step {
          return false;
        }
        i := i + 1;
      }
      return true;
    }

    /** The steps of `run` after the device is known. */
    method ProvisionDevice(profile: Profile, p: Parsed, device: Option<string>, flashYes: bool) returns (ok: bool)
      modifies this`trace
      ensures var o := Provision(host, profile, p, device, flashYes); trace == old(trace) + o.trace && ok == o.success
    {
      hide FetchAndAddAll, FlashArgv;
      if !p.skipDoctor {
        trace := trace + [Doctor(device)];
        if !host.doctorPasses && !p.yes {
          return false;
        }
      }
      var flashArgs := BuildFlashArgs(device, flashYes, p.directInstall);
      trace := trace + [FlashStick(flashArgs, host.flash(flashArgs))];
      if !host.flash(flashArgs) {
        return false;
      }
      ok := FetchAndAddEach(profile.slugs, p.skipGpg);
    }

    method RunInit(args: seq<string>) returns (ok: bool)
      requires linesRead == 0 && trace == []
      modifies this
      ensures Outcome(trace, ok) == Run(host, args)
    {
      hide Provision, Wizard, ParseFlagsOf;
      if "--help" in args || "-h" in args || "--list-profiles" in args {
        return true;
      }
      var parsed := ParseFlags(args);
      if parsed.Err? {
        return false;
      }
      var p := parsed.value;
      var profile := ResolveProfile(p.profileName);
      if profile.None? {
        return false;
      }
      if exists i :: 0 <= i < |profile.value.slugs| && !host.inCatalog(profile.value.slugs[i]) {
        return false;
      }
      var device := p.device;
      var wizardConfirmedDevice := device.None? && !p.yes;
      if wizardConfirmedDevice {
        var picked := RunInitWizard(p.force);
        if picked.None? {
          return false;
        }
        device := picked;
      }
      ok := ProvisionDevice(profile.value, p, device, p.yes || wizardConfirmedDevice);
    }
  }

  // ---- safety of every run ------------------------------------------------------------------------

  /** The last four alphanumerics of the serial, ignoring case and punctuation. */
  ghost predicate TypedSerialTail(typed: string, serial: string) {
    |Normalize(serial)| >= 4 && Normalize(typed) == Normalize(serial)[|Normalize(serial)| - 4..]
  }

  lemma {:induction false} NormalizeTwice(s: string)
    requires forall i :: 0 <= i < |s| ==> IsDigit(s[i]) || 'a' <= s[i] <= 'z'
    ensures Normalize(s) == s
  {
    if s != "" {
      NormalizeTwice(s[1..]);
      assert s == [s[0]] + s[1..];
    }
  }

  lemma {:induction false} NormalizedIsLower(s: string)
    ensures forall i :: 0 <= i < |Normalize(s)| ==> IsDigit(Normalize(s)[i]) || 'a' <= Normalize(s)[i] <= 'z'
  {
    if s != "" { NormalizedIsLower(s[1..]); }
  }

  /** The gate opens exactly for the drive's own serial tail. */
  lemma ConfirmsIff(host: Host, drive: Drive)
    ensures Confirms(host, drive) <==>
            drive.serial.Some? && host.stdin(1).Some? && TypedSerialTail(host.stdin(1).value, drive.serial.value)
  {
    if drive.serial.Some? && |Normalize(drive.serial.value)| >= 4 {
      var alnum := Normalize(drive.serial.value);
      NormalizedIsLower(drive.serial.value);
      NormalizeTwice(alnum[|alnum| - 4..]);
    }
  }

  /** The argument lists of the flash calls in a trace. */
  function FlashCalls(trace: seq<Action>): seq<seq<string>> {
    if trace == [] then []
    else (if trace[0].FlashStick? then [trace[0].argv] else []) + FlashCalls(trace[1..])
  }

  /** The ISO paths of the add calls in a trace, in order. */
  function AddCalls(trace: seq<Action>): seq<seq<string>> {
    if trace == [] then []
    else (if trace[0].AddIso? && trace[0].ok then [trace[0].argv] else []) + AddCalls(trace[1..])
  }

  lemma CallsStep(a: seq<Action>)
    requires a != []
    ensures FlashCalls(a) == (if a[0].FlashStick? then [a[0].argv] else []) + FlashCalls(a[1..])
    ensures AddCalls(a) == (if a[0].AddIso? && a[0].ok then [a[0].argv] else []) + AddCalls(a[1..])
  {
  }

  lemma {:induction false} CallsAppend(a: seq<Action>, b: seq<Action>)
    ensures FlashCalls(a + b) == FlashCalls(a) + FlashCalls(b)
    ensures AddCalls(a + b) == AddCalls(a) + AddCalls(b)
  {
    if a == [] {
      assert a + b == b;
    } else {
      hide AddCalls, FlashCalls;
      assert (a + b)[1..] == a[1..] + b && (a + b)[0] == a[0];
      CallsAppend(a[1..], b);
      CallsStep(a);
      CallsStep(a + b);
    }
  }

  /** The fetch and add phase, on its own. */
  ghost predicate OnlyFetchesAndAdds(trace: seq<Action>) {
    forall i :: 0 <= i < |trace| ==> trace[i].Fetch? || trace[i].AddIso?
  }

  lemma {:induction false} LaterPhaseShape(host: Host, slugs: seq<string>, skipGpg: bool)
    ensures var o := FetchAndAddAll(host, slugs, skipGpg);
            OnlyFetchesAndAdds(o.trace) && FlashCalls(o.trace) == []
  {
    if slugs != [] {
      LaterPhaseShape(host, slugs[1..], skipGpg);
      var first := FetchAndAdd(host, slugs[0], skipGpg);
      CallsAppend(first.trace, FetchAndAddAll(host, slugs[1..], skipGpg).trace);
      FetchAndAddFlashesNothing(host, slugs[0], skipGpg);
    }
  }

  lemma FetchAndAddFlashesNothing(host: Host, slug: string, skipGpg: bool)
    ensures var o := FetchAndAdd(host, slug, skipGpg);
            && OnlyFetchesAndAdds(o.trace) && FlashCalls(o.trace) == []
            && AddCalls(o.trace) == (if o.success then [[host.cachedIso(slug).value]] else [])
            && (o.success ==> host.cachedIso(slug).Some?)
  {
    hide FlashCalls, AddCalls;
    var argv := FetchArgv(slug, skipGpg);
    var fetch := Fetch(argv, host.fetch(argv));
    OneCall(fetch);
    if host.fetch(argv) && host.cachedIso(slug).Some? {
      var add := AddIso([host.cachedIso(slug).value], host.add([host.cachedIso(slug).value]));
      OneCall(add);
      CallsAppend([fetch], [add]);
      assert [fetch] + [add] == FetchAndAdd(host, slug, skipGpg).trace;
    }
  }

  lemma OneCall(a: Action)
    ensures FlashCalls([a]) == if a.FlashStick? then [a.argv] else []
    ensures AddCalls([a]) == if a.AddIso? && a.ok then [a.argv] else []
  {
    assert [a][1..] == [];
  }

  /** What adding the slugs one by one would pass to `add`. */
  function IsoArgs(host: Host, slugs: seq<string>): seq<seq<string>>
    requires forall s | s in slugs :: host.cachedIso(s).Some?
  {
    if slugs == [] then [] else [[host.cachedIso(slugs[0]).value]] + IsoArgs(host, slugs[1..])
  }

  ghost predicate AddedPrefix(host: Host, slugs: seq<string>, added: seq<seq<string>>, k: nat) {
    k <= |slugs| && (forall s | s in slugs[..k] :: host.cachedIso(s).Some?) && added == IsoArgs(host, slugs[..k])
  }

  /** The successful adds are the ISOs of a prefix of the slugs, the whole list exactly on success. */
  lemma {:induction false} AddsFollowSlugs(host: Host, slugs: seq<string>, skipGpg: bool) returns (k: nat)
    ensures var o := FetchAndAddAll(host, slugs, skipGpg);
            AddedPrefix(host, slugs, AddCalls(o.trace), k) && (o.success <==> k == |slugs|)
  {
    hide FetchAndAdd, AddedPrefix, AddCalls;
    k := 0;
    NothingAddedYet(host, slugs);
    if slugs != [] {
      FetchAndAddFlashesNothing(host, slugs[0], skipGpg);
      var first := FetchAndAdd(host, slugs[0], skipGpg);
      if first.success {
        var rest := FetchAndAddAll(host, slugs[1..], skipGpg);
        k := AddsFollowSlugs(host, slugs[1..], skipGpg);
        CallsAppend(first.trace, rest.trace);
        OneMoreAdded(host, slugs, AddCalls(rest.trace), k);
        k := k + 1;
      }
    }
  }

  lemma NothingAddedYet(host: Host, slugs: seq<string>)
    ensures AddedPrefix(host, slugs, [], 0) && AddCalls([]) == []
  {
  }

  lemma OneMoreAdded(host: Host, slugs: seq<string>, added: seq<seq<string>>, j: nat)
    requires slugs != [] && host.cachedIso(slugs[0]).Some? && AddedPrefix(host, slugs[1..], added, j)
    ensures AddedPrefix(host, slugs, [[host.cachedIso(slugs[0]).value]] + added, j + 1)
  {
    assert slugs[..j + 1] == [slugs[0]] + slugs[1..][..j];
    assert slugs[..j + 1][1..] == slugs[1..][..j];
  }

  /** A run past parsing: at most a doctor check, then one flash, then fetches and adds. */
  lemma ProvisionShape(host: Host, profile: Profile, p: Parsed, device: Option<string>, flashYes: bool)
    ensures var o := Provision(host, profile, p, device, flashYes);
            var argv := FlashArgv(device, flashYes, p.directInstall);
            FlashCalls(o.trace) == [] || FlashCalls(o.trace) == [argv]
  {
    hide FetchAndAddAll, FlashArgv;
    LaterPhaseShape(host, profile.slugs, p.skipGpg);
    var argv := FlashArgv(device, flashYes, p.directInstall);
    var doctor := DoctorStep(host, device, p);
    var flash := [FlashStick(argv, host.flash(argv))];
    OneCall(flash[0]);
    OneCall(Doctor(device));
    CallsAppend(doctor.trace, flash);
    CallsAppend(doctor.trace + flash, FetchAndAddAll(host, profile.slugs, p.skipGpg).trace);
  }

  /**
    The consent gate: whenever flash is called so that it will not ask, either the
    operator passed `--yes`, or the device flashed is a listed drive whose serial
    tail the operator typed.
  */
  lemma UnattendedFlashHasConsent(host: Host, args: seq<string>, argv: seq<string>)
    requires argv in FlashCalls(Run(host, args).trace)
    requires ParseFlashFrom(argv, NO_FLASH_ARGS).Ok? && ParseFlashFrom(argv, NO_FLASH_ARGS).value.assumeYes
    requires host.drives.Some? ==> forall d | d in host.drives.value :: DeviceWord(d.dev)
    ensures ParseFlagsOf(args).Ok?
    ensures ParseFlagsOf(args).value.yes ||
            (host.drives.Some? && exists d | d in host.drives.value ::
               ParseFlashFrom(argv, NO_FLASH_ARGS).value.explicitDev == Some(d.dev) && d.serial.Some? &&
               host.stdin(1).Some? && TypedSerialTail(host.stdin(1).value, d.serial.value))
  {
    hide Provision, FlashArgv, ParseFlashFrom, DeviceWord, TypedSerialTail, ParseFrom, Wizard, Confirms;
    var p := ParseFlagsOf(args).value;
    var profile := ResolveProfile(p.profileName).value;
    ParsedDeviceIsAWord(args, NO_FLAGS);
    if WizardNeeded(p) {
      var dev := Wizard(host, p.force).value;
      ProvisionShape(host, profile, p, Some(dev), true);
      var d := WizardDrive(host, p.force);
      ConfirmsIff(host, d);
      FlashReadsWhatInitMeant(Some(dev), true, p.directInstall);
    } else {
      ProvisionShape(host, profile, p, p.device, p.yes);
      FlashReadsWhatInitMeant(p.device, p.yes, p.directInstall);
    }
  }

  lemma WizardDrive(host: Host, force: bool) returns (d: Drive)
    requires Wizard(host, force).Some?
    ensures host.drives.Some? && d in host.drives.value && Wizard(host, force) == Some(d.dev) && Confirms(host, d)
  {
    hide Confirms, PickDrive;
    d := host.drives.value[PickDrive(host, host.drives.value).value];
  }

  /** Before any fetch or add there is a flash, and it succeeded. */
  lemma NothingBeforeFlash(host: Host, args: seq<string>, i: nat)
    requires i < |Run(host, args).trace|
    requires Run(host, args).trace[i].Fetch? || Run(host, args).trace[i].AddIso?
    ensures exists j :: 0 <= j < i && Run(host, args).trace[j].FlashStick? && Run(host, args).trace[j].ok
  {
    hide ParseFlagsOf, Wizard, Provision, ResolveProfile;
    var p := ParseFlagsOf(args).value;
    var profile := ResolveProfile(p.profileName).value;
    if WizardNeeded(p) {
      NothingBeforeFlashIn(host, profile, p, Some(Wizard(host, p.force).value), true, i);
    } else {
      NothingBeforeFlashIn(host, profile, p, p.device, p.yes, i);
    }
  }

  lemma NothingBeforeFlashIn(host: Host, profile: Profile, p: Parsed, device: Option<string>, flashYes: bool, i: nat)
    requires var t := Provision(host, profile, p, device, flashYes).trace;
             i < |t| && (t[i].Fetch? || t[i].AddIso?)
    ensures var t := Provision(host, profile, p, device, flashYes).trace;
            exists j :: 0 <= j < i && t[j].FlashStick? && t[j].ok
  {
    hide FetchAndAddAll, FlashArgv;
    var t := Provision(host, profile, p, device, flashYes).trace;
    var j := |DoctorStep(host, device, p).trace|;
    assert j < |t| ==> t[j].FlashStick?;
  }

  /** The added ISOs are those of an in-order prefix of the profile, the whole profile on success. */
  lemma AddsFollowProfile(host: Host, args: seq<string>)
    requires !("--help" in args || "-h" in args || "--list-profiles" in args)
    ensures var o := Run(host, args);
            if ParseFlagsOf(args).Ok? && ResolveProfile(ParseFlagsOf(args).value.profileName).Some?
            then var slugs := ResolveProfile(ParseFlagsOf(args).value.profileName).value.slugs;
                 exists k: nat :: AddedPrefix(host, slugs, AddCalls(o.trace), k) && (o.success <==> k == |slugs|)
            else o.trace == [] && !o.success
  {
    hide ParseFlagsOf, Wizard, Provision, ResolveProfile;
    if ParseFlagsOf(args).Ok? && ResolveProfile(ParseFlagsOf(args).value.profileName).Some? {
      var p := ParseFlagsOf(args).value;
      var profile := ResolveProfile(p.profileName).value;
      NothingAddedYet(host, profile.slugs);
      EveryProfileHasSlugs(p.profileName);
      if Run(host, args) != Outcome([], false) {
        if WizardNeeded(p) {
          var k := ProvisionAdds(host, profile, p, Some(Wizard(host, p.force).value), true);
        } else {
          var k := ProvisionAdds(host, profile, p, p.device, p.yes);
        }
      }
    }
  }

  lemma EveryProfileHasSlugs(name: string)
    ensures ResolveProfile(name).Some? ==> ResolveProfile(name).value.slugs != []
  {
  }

  lemma ProvisionAdds(host: Host, profile: Profile, p: Parsed, device: Option<string>, flashYes: bool) returns (k: nat)
    requires profile.slugs != []
    ensures var o := Provision(host, profile, p, device, flashYes);
            AddedPrefix(host, profile.slugs, AddCalls(o.trace), k) && (o.success <==> k == |profile.slugs|)
  {
    hide FetchAndAddAll, FlashArgv, AddedPrefix;
    NothingAddedYet(host, profile.slugs);
    k := AddsFollowSlugs(host, profile.slugs, p.skipGpg);
    var argv := FlashArgv(device, flashYes, p.directInstall);
    var doctor := DoctorStep(host, device, p);
    var flash := [FlashStick(argv, host.flash(argv))];
    OneCall(flash[0]);
    OneCall(Doctor(device));
    CallsAppend(doctor.trace, flash);
    CallsAppend(doctor.trace + flash, FetchAndAddAll(host, profile.slugs, p.skipGpg).trace);
    assert AddCalls(doctor.trace) == [];
    var added := AddCalls(FetchAndAddAll(host, profile.slugs, p.skipGpg).trace);
    assert [] + [] + added == added;
    if !doctor.success || !host.flash(argv) {
      k := 0;
    }
  }
}
