/**
  Three argument parsers in a chain: `quickstart` rewrites its arguments for
  `init`, `init` parses them and builds arguments for `flash`, `flash` parses
  those.  The chain keeps what the operator said.
*/
module Argv {
  import opened Wrappers
  import opened Strings

  // ---- init's parser ---------------------------------------------------------------

  datatype InitError =
    | HelpHandledByCaller
    | ProfileNeedsName
    | UnknownOption(arg: string)
    | OnlyOneDevice(got: string, after: string)

  /** The mutable locals of `parse_flags`. */
  datatype Flags = Flags(
    profile: Option<string>, device: Option<string>, yes: bool, skipDoctor: bool, skipGpg: bool, force: bool, directInstall: bool)

  datatype Parsed = Parsed(
    profileName: string, device: Option<string>, yes: bool, skipDoctor: bool, skipGpg: bool, force: bool, directInstall: bool)

  const NO_FLAGS := Flags(None, None, false, false, false, false, false)
  const PROFILE_EQUALS := "--profile="
  const DEFAULT_PROFILE := "panic-room"

  /** `trim_start_matches`: strips every leading copy. */
  function TrimStartMatches(s: string, prefix: string): string
    requires prefix != ""
    decreases |s|
  {
    if StartsWith(s, prefix) then TrimStartMatches(s[|prefix|..], prefix) else s
  }

  /** The arms of init's `match`. */
  datatype InitWord =
    | HelpWord | YesWord | ProfileWord | NoDoctorWord | NoGpgWord | ForceWord | DirectWord | ProfileEqualsWord
    | UnknownWord | PlainWord

  function InitWordOf(a: string): InitWord {
    if a == "--help" || a == "-h" then HelpWord
    else if a == "--yes" || a == "-y" then YesWord
    else if a == "--profile" then ProfileWord
    else if a == "--no-doctor" then NoDoctorWord
    else if a == "--no-gpg" then NoGpgWord
    else if a == "--force" then ForceWord
    else if a == "--direct-install" then DirectWord
    else if StartsWith(a, PROFILE_EQUALS) then ProfileEqualsWord
    else if StartsWith(a, "--") then UnknownWord
    else PlainWord
  }

  /** One argument other than `--profile`, which also takes the next one. */
  function Absorb(f: Flags, a: string): Result<Flags, InitError>
    requires InitWordOf(a) != ProfileWord
  {
    match InitWordOf(a)
    case HelpWord => Err(HelpHandledByCaller)
    case YesWord => Ok(f.(yes := true))
    case NoDoctorWord => Ok(f.(skipDoctor := true))
    case NoGpgWord => Ok(f.(skipGpg := true))
    case ForceWord => Ok(f.(force := true))
    case DirectWord => Ok(f.(directInstall := true))
    case ProfileEqualsWord => Ok(f.(profile := Some(TrimStartMatches(a, PROFILE_EQUALS))))
    case UnknownWord => Err(UnknownOption(a))
    case PlainWord => if f.device.Some? then Err(OnlyOneDevice(a, f.device.value)) else Ok(f.(device := Some(a)))
  }

  function ParseFrom(args: seq<string>, f: Flags): Result<Flags, InitError>
    decreases |args|
  {
    if args == [] then Ok(f)
    else if InitWordOf(args[0]) == ProfileWord then
      if |args| == 1 then Err(ProfileNeedsName) else ParseFrom(args[2..], f.(profile := Some(args[1])))
    else
      match Absorb(f, args[0])
      case Err(e) => Err(e)
      case Ok(g) => ParseFrom(args[1..], g)
  }

  function Finish(f: Flags): Parsed {
    Parsed(if f.profile.Some? then f.profile.value else DEFAULT_PROFILE,
           f.device, f.yes, f.skipDoctor, f.skipGpg, f.force, f.directInstall)
  }

  function ParseFlagsOf(args: seq<string>): Result<Parsed, InitError> {
    match ParseFrom(args, NO_FLAGS)
    case Ok(f) => Ok(Finish(f))
    case Err(e) => Err(e)
  }

  method ParseFlags(args: seq<string>) returns (r: Result<Parsed, InitError>)
    ensures r == ParseFlagsOf(args)
  {
    hide Absorb, InitWordOf, Finish;
    var f := NO_FLAGS;
    var i := 0;
    while i < |args|
      invariant 0 <= i <= |args|
      invariant ParseFrom(args, NO_FLAGS) == ParseFrom(args[i..], f)
    {
      var a := args[i];
      assert args[i..][1..] == args[i + 1..];
      if InitWordOf(a) == ProfileWord {
        if i + 1 == |args| {
          return Err(ProfileNeedsName);
        }
        assert args[i..][2..] == args[i + 2..];
        f := f.(profile := Some(args[i + 1]));
        i := i + 2;
      } else {
        var next := Absorb(f, a);
        if next.Err? {
          return Err(next.error);
        }
        f := next.value;
        i := i + 1;
      }
    }
    return Ok(Finish(f));
  }

  // ---- quickstart's rewrite --------------------------------------------------------------

  const SEED := ["--profile", "minimal", "--yes", "--direct-install"]

  predicate Dropped(a: string) {
    a == "--profile" || a == "--yes" || a == "--direct-install" || StartsWith(a, PROFILE_EQUALS)
  }

  /** The operator's arguments that are forwarded verbatim. */
  function Kept(args: seq<string>): seq<string>
    decreases |args|
  {
    if args == [] then []
    else if args[0] == "--profile" then Kept(if |args| == 1 then [] else args[2..])
    else if Dropped(args[0]) then Kept(args[1..])
    else [args[0]] + Kept(args[1..])
  }

  function Forwarded(args: seq<string>): seq<string> {
    SEED + Kept(args)
  }

  method BuildForwardedInitArgs(args: seq<string>) returns (out: seq<string>)
    ensures out == Forwarded(args)
  {
    hide Dropped;
    out := SEED;
    var skipNext := false;
    var i := 0;
    assert args[0..] == args;
    while i < |args|
      invariant 0 <= i <= |args|
      invariant skipNext ==> Forwarded(args) == out + Kept(if i == |args| then [] else args[i + 1..])
      invariant !skipNext ==> Forwarded(args) == out + Kept(args[i..])
    {
      var a := args[i];
      assert args[i..][1..] == args[i + 1..];
      if skipNext {
        skipNext := false;
      } else if a == "--profile" {
        assert i + 1 < |args| ==> args[i..][2..] == args[i + 2..];
        skipNext := true;
      } else if !Dropped(a) {
        out := out + [a];
      }
      i := i + 1;
    }
  }

  // ---- quickstart keeps init's meaning ---------------------------------------------------------

  /** What quickstart adds to any set of flags. */
  function Preset(f: Flags): Flags {
    f.(profile := Some("minimal"), yes := true, directInstall := true)
  }

  lemma ProfileWordIs(a: string)
    ensures InitWordOf(a) == ProfileWord <==> a == "--profile"
  {
    hide StartsWith;
  }

  /** What quickstart drops sets only what it presets; what it keeps sets none of that but a short `-y`. */
  lemma DroppedWords(a: string)
    ensures var w := InitWordOf(a);
            if Dropped(a) then w == ProfileWord || w == YesWord || w == DirectWord || w == ProfileEqualsWord
            else w != ProfileWord && w != DirectWord && w != ProfileEqualsWord
  {
    assert StartsWith(a, PROFILE_EQUALS) ==> a[..|PROFILE_EQUALS|][2] == a[2] == 'p';
    assert "--help"[2] == 'h' && "--no-doctor"[2] == 'n' && "--no-gpg"[2] == 'n' && "--force"[2] == 'f';
    assert "--yes"[2] == 'y' && "--direct-install"[2] == 'd';
  }

  lemma PresetIsAbsorbed(f: Flags, a: string)
    requires InitWordOf(a) != ProfileWord
    ensures Dropped(a) ==> Absorb(f, a).Ok? && Preset(Absorb(f, a).value) == Preset(f)
    ensures !Dropped(a) ==> Absorb(Preset(f), a) == match Absorb(f, a) case Ok(g) => Ok(Preset(g)) case Err(e) => Err(e)
    ensures Absorb(f, a) != Err(ProfileNeedsName)
  {
    hide InitWordOf, Dropped, TrimStartMatches;
    DroppedWords(a);
  }

  lemma {:induction false} KeptMeansPreset(args: seq<string>, f: Flags)
    ensures match ParseFrom(args, f)
            case Ok(g) => ParseFrom(Kept(args), Preset(f)) == Ok(Preset(g))
            case Err(e) => if e == ProfileNeedsName then ParseFrom(Kept(args), Preset(f)).Ok?
                           else ParseFrom(Kept(args), Preset(f)) == Err(e)
    decreases |args|
  {
    hide Absorb, Dropped, InitWordOf;
    if args != [] {
      var a := args[0];
      ProfileWordIs(a);
      if a == "--profile" {
        if |args| > 1 { KeptMeansPreset(args[2..], f.(profile := Some(args[1]))); }
      } else {
        PresetIsAbsorbed(f, a);
        if !Dropped(a) {
          assert Kept(args)[1..] == Kept(args[1..]);
          assert Kept(args)[0] == a;
        } else {
          assert Kept(args) == Kept(args[1..]);
        }
        if Absorb(f, a).Ok? { KeptMeansPreset(args[1..], Absorb(f, a).value); }
      }
    }
  }

  lemma SeedParses(rest: seq<string>)
    ensures ParseFrom(SEED + rest, NO_FLAGS) == ParseFrom(rest, Preset(NO_FLAGS))
  {
    hide InitWordOf;
    var args := SEED + rest;
    var f := NO_FLAGS.(profile := Some("minimal"));
    SeedWords();
    assert args[0] == "--profile" && args[1] == "minimal";
    var afterProfile := ["--yes", "--direct-install"] + rest;
    assert args[2..] == afterProfile && afterProfile[1..] == ["--direct-install"] + rest;
    assert (["--direct-install"] + rest)[1..] == rest;
    assert ParseFrom(args, NO_FLAGS) == ParseFrom(afterProfile, f);
    assert ParseFrom(afterProfile, f) == ParseFrom(["--direct-install"] + rest, f.(yes := true));
  }

  lemma SeedWords()
    ensures InitWordOf("--profile") == ProfileWord && InitWordOf("--yes") == YesWord
    ensures InitWordOf("--direct-install") == DirectWord
    ensures Dropped("--yes") && Dropped("--direct-install") && "--yes" != "--profile" && "--direct-install" != "--profile"
  {
    hide StartsWith;
    assert "--direct-install"[2] == 'd' && "--no-doctor"[2] == 'n';
  }

  /**
    For every argument list: init means by the forwarded list what it means by the
    operator's, with profile, yes and direct-install preset; it refuses both for
    the same reason, except that a trailing `--profile` without a name is dropped.
  */
  lemma ForwardingKeepsMeaning(args: seq<string>)
    ensures match ParseFlagsOf(args)
            case Ok(p) => ParseFlagsOf(Forwarded(args)) ==
                            Ok(p.(profileName := "minimal", yes := true, directInstall := true))
            case Err(e) => if e == ProfileNeedsName then ParseFlagsOf(Forwarded(args)).Ok?
                           else ParseFlagsOf(Forwarded(args)) == Err(e)
  {
    hide ParseFrom, Kept, Absorb;
    SeedParses(Kept(args));
    KeptMeansPreset(args, NO_FLAGS);
  }

  lemma {:induction false} KeptIsKept(args: seq<string>)
    ensures forall a | a in Kept(args) :: !Dropped(a)
    ensures Kept(Kept(args)) == Kept(args)
    decreases |args|
  {
    hide StartsWith;
    if args != [] {
      if args[0] == "--profile" {
        if |args| > 1 { KeptIsKept(args[2..]); }
      } else {
        KeptIsKept(args[1..]);
        var k := Kept(args[1..]);
        if !Dropped(args[0]) { assert ([args[0]] + k)[1..] == k; }
      }
    }
  }

  /** Forwarding twice is forwarding once. */
  lemma ForwardingIsIdempotent(args: seq<string>)
    ensures Forwarded(Forwarded(args)) == Forwarded(args)
  {
    hide Dropped;
    var k := Kept(args);
    KeptIsKept(args);
    var s, afterProfile, afterYes := SEED + k, ["--yes", "--direct-install"] + k, ["--direct-install"] + k;
    SeedWords();
    assert s[0] == "--profile" && s[2..] == afterProfile && afterProfile[1..] == afterYes && afterYes[1..] == k;
    assert Kept(s) == Kept(afterProfile);
    assert Kept(afterProfile) == Kept(afterYes);
    assert Kept(afterYes) == Kept(k);
  }

  // ---- flash's parser -----------------------------------------------------------------------------

  datatype FlashArgs = FlashArgs(
    explicitDev: Option<string>, assumeYes: bool, prebuiltImage: Option<string>, dryRun: bool, noProgress: bool,
    noExpand: bool, directInstall: bool, outDir: Option<string>, helpRequested: bool)

  const NO_FLASH_ARGS := FlashArgs(None, false, None, false, false, false, false, None, false)

  const USAGE_ERROR := 2

  const OUT_DIR_EQUALS := "--out-dir="
  const OUT_EQUALS := "--out="
  const CACHE_BASE_EQUALS := "--cache-base="
  const IMAGE_EQUALS := "--image="

  predicate TakesValue(a: string) {
    a == "--out-dir" || a == "--out" || a == "--cache-base" || a == "--image"
  }

  /** The value of an option whose value follows as its own argument. */
  function SetValue(p: FlashArgs, option: string, value: string): FlashArgs {
    if option == "--image" then p.(prebuiltImage := Some(value)) else p.(outDir := Some(value))
  }

  /** The arms of flash's `match`. */
  datatype FlashWord =
    | HelpFlashWord | YesFlashWord | DryRunWord | NoProgressWord | NoExpandWord | DirectInstallWord | ValueWord
    | OutDirWord(dir: string) | ImageWord(path: string) | UnknownFlashWord | PlainFlashWord

  function StripPrefix(s: string, prefix: string): (r: Option<string>)
    ensures r.Some? <==> StartsWith(s, prefix)
  {
    if StartsWith(s, prefix) then Some(s[|prefix|..]) else None
  }

  /** `--out-dir=`, its two aliases, and `--image=`. */
  function EqualsWordOf(a: string): Option<FlashWord> {
    match StripPrefix(a, OUT_DIR_EQUALS)
    case Some(v) => Some(OutDirWord(v))
    case None =>
      match StripPrefix(a, OUT_EQUALS)
      case Some(v) => Some(OutDirWord(v))
      case None =>
        match StripPrefix(a, CACHE_BASE_EQUALS)
        case Some(v) => Some(OutDirWord(v))
        case None =>
          match StripPrefix(a, IMAGE_EQUALS)
          case Some(v) => Some(ImageWord(v))
          case None => None
  }

  function FlashWordOf(a: string): FlashWord {
    if a == "--help" || a == "-h" then HelpFlashWord
    else if TakesValue(a) then ValueWord
    else if a == "--yes" || a == "-y" then YesFlashWord
    else if a == "--dry-run" then DryRunWord
    else if a == "--no-progress" then NoProgressWord
    else if a == "--no-expand" then NoExpandWord
    else if a == "--direct-install" then DirectInstallWord
    else if EqualsWordOf(a).Some? then EqualsWordOf(a).value
    else if StartsWith(a, "--") then UnknownFlashWord
    else PlainFlashWord
  }

  /** One argument that neither asks for help nor takes the next one. */
  function AbsorbFlash(p: FlashArgs, a: string): Result<FlashArgs, nat>
    requires FlashWordOf(a) != HelpFlashWord && FlashWordOf(a) != ValueWord
  {
    match FlashWordOf(a)
    case YesFlashWord => Ok(p.(assumeYes := true))
    case DryRunWord => Ok(p.(dryRun := true))
    case NoProgressWord => Ok(p.(noProgress := true))
    case NoExpandWord => Ok(p.(noExpand := true))
    case DirectInstallWord => Ok(p.(directInstall := true))
    case OutDirWord(dir) => Ok(p.(outDir := Some(dir)))
    case ImageWord(path) => Ok(p.(prebuiltImage := Some(path)))
    case UnknownFlashWord => Err(USAGE_ERROR)
    case PlainFlashWord => if p.explicitDev.Some? then Err(USAGE_ERROR) else Ok(p.(explicitDev := Some(a)))
  }

  function ParseFlashFrom(args: seq<string>, p: FlashArgs): Result<FlashArgs, nat>
    decreases |args|
  {
    if args == [] then Ok(p)
    else
      match FlashWordOf(args[0])
      case HelpFlashWord => Ok(p.(helpRequested := true))
      case ValueWord =>
        if |args| == 1 then Err(USAGE_ERROR) else ParseFlashFrom(args[2..], SetValue(p, args[0], args[1]))
      case _ =>
        match AbsorbFlash(p, args[0])
        case Err(e) => Err(e)
        case Ok(q) => ParseFlashFrom(args[1..], q)
  }

  method ParseFlashArgs(args: seq<string>) returns (r: Result<FlashArgs, nat>)
    ensures r == ParseFlashFrom(args, NO_FLASH_ARGS)
  {
    hide AbsorbFlash, FlashWordOf, SetValue;
    var p := NO_FLASH_ARGS;
    var i := 0;
    assert args[0..] == args;
    while i < |args|
      invariant 0 <= i <= |args|
      invariant ParseFlashFrom(args, NO_FLASH_ARGS) == ParseFlashFrom(args[i..], p)
    {
      var a := args[i];
      assert args[i..][1..] == args[i + 1..];
      if FlashWordOf(a) == HelpFlashWord {
        return Ok(p.(helpRequested := true));
      } else if FlashWordOf(a) == ValueWord {
        i := i + 1;
        if i == |args| {
          return Err(USAGE_ERROR);
        }
        assert args[i - 1..][2..] == args[i + 1..];
        p := SetValue(p, a, args[i]);
      } else {
        var next := AbsorbFlash(p, a);
        if next.Err? {
          return Err(next.error);
        }
        p := next.value;
      }
      i := i + 1;
    }
    return Ok(p);
  }

  // ---- init's arguments for flash --------------------------------------------------------------------

  function FlashArgv(device: Option<string>, assumeYes: bool, directInstall: bool): seq<string> {
    (if device.Some? then [device.value] else []) +
    (if assumeYes then ["--yes"] else []) +
    (if directInstall then ["--direct-install"] else [])
  }

  /** The argument building of `flash_step`. */
  method BuildFlashArgs(device: Option<string>, assumeYes: bool, directInstall: bool) returns (argv: seq<string>)
    ensures argv == FlashArgv(device, assumeYes, directInstall)
  {
    argv := [];
    if device.Some? {
      argv := argv + [device.value];
    }
    if assumeYes {
      argv := argv + ["--yes"];
    }
    if directInstall {
      argv := argv + ["--direct-install"];
    }
  }

  /** A word both parsers read as a device. */
  predicate DeviceWord(a: string) {
    !StartsWith(a, "--") && a != "-h" && a != "-y"
  }

  lemma {:induction false} ParsedDeviceIsAWord(args: seq<string>, f: Flags)
    requires f.device.Some? ==> DeviceWord(f.device.value)
    requires ParseFrom(args, f).Ok?
    ensures var g := ParseFrom(args, f).value; g.device.Some? ==> DeviceWord(g.device.value)
    decreases |args|
  {
    hide InitWordOf, DeviceWord;
    if args != [] {
      if InitWordOf(args[0]) == ProfileWord {
        ParsedDeviceIsAWord(args[2..], f.(profile := Some(args[1])));
      } else {
        PlainWordIsDevice(args[0]);
        ParsedDeviceIsAWord(args[1..], Absorb(f, args[0]).value);
      }
    }
  }

  lemma PlainWordIsDevice(a: string)
    ensures InitWordOf(a) == PlainWord ==> DeviceWord(a)
  {
    hide StartsWith;
  }

  /** flash reads back exactly what init meant to pass. */
  lemma FlashReadsWhatInitMeant(device: Option<string>, assumeYes: bool, directInstall: bool)
    requires device.Some? ==> DeviceWord(device.value)
    ensures ParseFlashFrom(FlashArgv(device, assumeYes, directInstall), NO_FLASH_ARGS) ==
            Ok(NO_FLASH_ARGS.(explicitDev := device, assumeYes := assumeYes, directInstall := directInstall))
  {
    var tail := (if assumeYes then ["--yes"] else []) + (if directInstall then ["--direct-install"] else []);
    hide FlashWordOf;
    var argv := FlashArgv(device, assumeYes, directInstall);
    if device.Some? {
      DeviceIsAbsorbed(device.value);
      assert argv == [device.value] + tail && argv[1..] == tail;
      TailParses(assumeYes, directInstall, NO_FLASH_ARGS.(explicitDev := device));
    } else {
      assert argv == tail;
      TailParses(assumeYes, directInstall, NO_FLASH_ARGS);
    }
  }

  /** No option of flash starts with anything but two dashes, `-h` and `-y` apart. */
  lemma DeviceIsAbsorbed(a: string)
    requires DeviceWord(a)
    ensures FlashWordOf(a) == PlainFlashWord
  {
    hide EqualsWordOf;
    NoEqualsWord(a);
    assert forall p | p in {"--help", "--yes", "--dry-run", "--no-progress", "--no-expand", "--direct-install"} :: p[..2] == "--";
    assert forall p | p in {"--out-dir", "--out", "--cache-base", "--image"} :: p[..2] == "--";
  }

  lemma NoEqualsWord(a: string)
    requires !StartsWith(a, "--")
    ensures EqualsWordOf(a).None?
  {
    hide StartsWith;
    TwoDashes(a, OUT_DIR_EQUALS);
    TwoDashes(a, OUT_EQUALS);
    TwoDashes(a, CACHE_BASE_EQUALS);
    TwoDashes(a, IMAGE_EQUALS);
  }

  lemma TwoDashes(a: string, option: string)
    requires |option| >= 2 && option[0] == '-' && option[1] == '-'
    ensures StartsWith(a, option) ==> StartsWith(a, "--")
  {
    if StartsWith(a, option) {
      assert a[0] == a[..|option|][0] && a[1] == a[..|option|][1];
    }
  }

  lemma TailParses(assumeYes: bool, directInstall: bool, p: FlashArgs)
    ensures ParseFlashFrom((if assumeYes then ["--yes"] else []) + (if directInstall then ["--direct-install"] else []), p) ==
            Ok(p.(assumeYes := p.assumeYes || assumeYes, directInstall := p.directInstall || directInstall))
  {
    hide FlashWordOf;
    var d := if directInstall then ["--direct-install"] else [];
    var y := if assumeYes then ["--yes"] else [];
    var q := p.(assumeYes := p.assumeYes || assumeYes);
    FlashWords();
    assert directInstall ==> d[1..] == [];
    assert ParseFlashFrom(d, q) == Ok(q.(directInstall := q.directInstall || directInstall));
    if assumeYes {
      assert (y + d)[1..] == d;
    } else {
      assert y + d == d;
    }
  }

  lemma FlashWords()
    ensures FlashWordOf("--yes") == YesFlashWord && FlashWordOf("--direct-install") == DirectInstallWord
  {
    hide EqualsWordOf, StartsWith;
    assert "--direct-install"[2] == 'd' && "--direct-install"[3] == 'i' && "--yes"[2] == 'y';
  }

  /** From the operator's quickstart arguments to what flash acts on. */
  lemma QuickstartReachesFlash(args: seq<string>)
    requires ParseFlagsOf(args).Ok?
    ensures ParseFlagsOf(Forwarded(args)).Ok?
    ensures var p := ParseFlagsOf(args).value;
            var q := ParseFlagsOf(Forwarded(args)).value;
            ParseFlashFrom(FlashArgv(q.device, q.yes, q.directInstall), NO_FLASH_ARGS) ==
              Ok(NO_FLASH_ARGS.(explicitDev := p.device, assumeYes := true, directInstall := true))
  {
    hide ParseFrom, Forwarded, ParseFlashFrom, FlashArgv;
    ForwardingKeepsMeaning(args);
    ParsedDeviceIsAWord(args, NO_FLAGS);
    FlashReadsWhatInitMeant(ParseFlagsOf(args).value.device, true, true);
  }
}
