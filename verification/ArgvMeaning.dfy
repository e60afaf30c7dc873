/**
  What the options mean, said about positions in the operator's list and the words
  as they are typed, without the parsers' tables.
*/
module ArgvMeaning {
  import opened Wrappers
  import opened Strings
  import opened Argv

  // ---- words and values ------------------------------------------------------------

  /** The word at `i` is the value of an option that takes the next word. */
  predicate IsValue(args: seq<string>, takers: set<string>, i: nat)
    requires i <= |args|
  {
    i > 0 && args[i - 1] in takers && !IsValue(args, takers, i - 1)
  }

  predicate Stands(args: seq<string>, takers: set<string>, i: nat) {
    i < |args| && !IsValue(args, takers, i)
  }

  /** The operator typed this word as an option. */
  ghost predicate Says(args: seq<string>, takers: set<string>, word: string) {
    exists i: nat :: Stands(args, takers, i) && args[i] == word
  }

  /** Words count alike from any word that is not a value. */
  lemma {:induction false} ShiftedValue(args: seq<string>, takers: set<string>, k: nat, i: nat)
    requires k + i <= |args| && !IsValue(args, takers, k)
    ensures IsValue(args, takers, k + i) <==> IsValue(args[k..], takers, i)
  {
    if i > 0 { ShiftedValue(args, takers, k, i - 1); }
  }

  lemma ShiftedStands(args: seq<string>, takers: set<string>, k: nat)
    requires k <= |args| && !IsValue(args, takers, k)
    ensures forall i: nat :: Stands(args, takers, k + i) <==> Stands(args[k..], takers, i)
  {
    forall i: nat ensures Stands(args, takers, k + i) <==> Stands(args[k..], takers, i) {
      if k + i <= |args| { ShiftedValue(args, takers, k, i); }
    }
  }

  /** Where the words after the first one start. */
  function Step(args: seq<string>, takers: set<string>): nat
    requires args != []
  {
    if args[0] in takers && |args| > 1 then 2 else 1
  }

  /** The words of a list are its first one and those from `Step` on. */
  lemma WordsCons(args: seq<string>, takers: set<string>)
    requires args != []
    ensures Step(args, takers) <= |args| && Stands(args, takers, 0)
    ensures forall i: nat :: Stands(args, takers, Step(args, takers) + i) <==> Stands(args[Step(args, takers)..], takers, i)
    ensures forall i: nat :: 0 < i < Step(args, takers) ==> !Stands(args, takers, i)
  {
    var k := Step(args, takers);
    assert !IsValue(args, takers, 0);
    assert IsValue(args, takers, 1) <==> args[0] in takers;
    if k == 2 {
      assert !IsValue(args, takers, 2);
      ShiftedStands(args, takers, 2);
    } else if args[0] !in takers {
      ShiftedStands(args, takers, 1);
    } else {
      assert args[1..] == [];
    }
  }

  lemma SaysCons(args: seq<string>, takers: set<string>, word: string)
    requires args != []
    ensures Says(args, takers, word) <==> args[0] == word || Says(args[Step(args, takers)..], takers, word)
  {
    var k := Step(args, takers);
    WordsCons(args, takers);
    if i: nat :| Stands(args, takers, i) && args[i] == word {
      if i > 0 { assert Stands(args[k..], takers, i - k) && args[k..][i - k] == word; }
    }
    if j: nat :| Stands(args[k..], takers, j) && args[k..][j] == word {
      assert Stands(args, takers, k + j) && args[k + j] == word;
    }
  }

  // ---- the last of several words --------------------------------------------------------

  /** The value found at `i`, if any, by some reading of single words. */
  type Reading = (seq<string>, nat) -> Option<string>

  /** A reading looks at the word and the next one only. */
  ghost predicate Local(reading: Reading) {
    forall args: seq<string>, k: nat, i: nat :: k + i < |args| ==> reading(args[k..], i) == reading(args, k + i)
  }

  /** The value found last among the words, or none. */
  ghost predicate IsLast(args: seq<string>, takers: set<string>, reading: Reading, v: Option<string>) {
    if v.None? then forall i: nat :: Stands(args, takers, i) ==> reading(args, i).None?
    else
      exists i: nat :: IsLastAt(args, takers, reading, i) && reading(args, i) == v
  }

  ghost predicate IsLastAt(args: seq<string>, takers: set<string>, reading: Reading, i: nat) {
    Stands(args, takers, i) && reading(args, i).Some? && forall j: nat :: i < j && Stands(args, takers, j) ==> reading(args, j).None?
  }

  lemma LastCons(args: seq<string>, takers: set<string>, reading: Reading, v: Option<string>)
    requires args != [] && Local(reading)
    requires IsLast(args[Step(args, takers)..], takers, reading, v)
    ensures IsLast(args, takers, reading, if v.Some? then v else reading(args, 0))
  {
    var k := Step(args, takers);
    WordsCons(args, takers);
    var rest := args[k..];
    forall i: nat | i < |rest| ensures reading(rest, i) == reading(args, k + i) {}
    if v.Some? {
      var i: nat :| IsLastAt(rest, takers, reading, i) && reading(rest, i) == v;
      forall j: nat | k + i < j && Stands(args, takers, j) ensures reading(args, j).None? {
        assert Stands(rest, takers, j - k);
      }
      assert IsLastAt(args, takers, reading, k + i);
    } else {
      forall j: nat | 0 < j && Stands(args, takers, j) ensures reading(args, j).None? {
        assert Stands(rest, takers, j - k);
      }
      if reading(args, 0).Some? { assert IsLastAt(args, takers, reading, 0); }
    }
  }

  // ---- the only plain word -------------------------------------------------------------------

  ghost predicate PlainAt(args: seq<string>, takers: set<string>, i: nat) {
    Stands(args, takers, i) && DeviceWord(args[i])
  }

  /** `v` is the one plain word, or there is none. */
  ghost predicate IsOnlyPlain(args: seq<string>, takers: set<string>, v: Option<string>) {
    if v.None? then forall i: nat :: !PlainAt(args, takers, i)
    else exists i: nat :: PlainAt(args, takers, i) && args[i] == v.value && forall j: nat :: PlainAt(args, takers, j) ==> j == i
  }

  lemma OnlyPlainCons(args: seq<string>, takers: set<string>, v: Option<string>)
    requires args != [] && IsOnlyPlain(args[Step(args, takers)..], takers, v)
    requires DeviceWord(args[0]) ==> v.None?
    ensures IsOnlyPlain(args, takers, if DeviceWord(args[0]) then Some(args[0]) else v)
  {
    var k := Step(args, takers);
    hide DeviceWord;
    WordsCons(args, takers);
    var rest := args[k..];
    forall j: nat | 0 < j && PlainAt(args, takers, j) ensures j >= k && PlainAt(rest, takers, j - k) {}
    if DeviceWord(args[0]) {
      assert PlainAt(args, takers, 0);
    } else if v.Some? {
      var i: nat :| PlainAt(rest, takers, i) && rest[i] == v.value && forall j: nat :: PlainAt(rest, takers, j) ==> j == i;
      assert PlainAt(args, takers, k + i);
    }
  }

  // ---- init's options -----------------------------------------------------------------------------

  const INIT_TAKERS: set<string> := {"--profile"}

  /** The profile named at `i`: the next word, or what follows the equals sign. */
  function ProfileAt(args: seq<string>, i: nat): Option<string> {
    if i >= |args| then None
    else if args[i] == "--profile" then (if i + 1 < |args| then Some(args[i + 1]) else None)
    else if StartsWith(args[i], "--profile=") then Some(TrimStartMatches(args[i], "--profile="))
    else None
  }

  lemma ProfileAtIsLocal()
    ensures Local(ProfileAt)
  {
    hide StartsWith, TrimStartMatches;
    forall args: seq<string>, k: nat, i: nat | k + i < |args| ensures ProfileAt(args[k..], i) == ProfileAt(args, k + i) {
      assert args[k..][i] == args[k + i];
    }
  }

  /** `trim_start_matches`: every leading copy goes, and nothing else. */
  lemma {:induction false} TrimStripsCopies(s: string, prefix: string) returns (copies: nat)
    requires prefix != ""
    ensures s == Repeat(prefix, copies) + TrimStartMatches(s, prefix)
    ensures !StartsWith(TrimStartMatches(s, prefix), prefix)
    decreases |s|
  {
    copies := 0;
    if StartsWith(s, prefix) {
      copies := TrimStripsCopies(s[|prefix|..], prefix);
      copies := copies + 1;
      assert s == prefix + s[|prefix|..];
    }
  }

  function Repeat(s: string, n: nat): string {
    if n == 0 then "" else s + Repeat(s, n - 1)
  }

  /** Reading `args` into `f` gave `g`. */
  ghost predicate Means(args: seq<string>, f: Flags, g: Flags) {
    && (g.skipDoctor <==> f.skipDoctor || Says(args, INIT_TAKERS, "--no-doctor"))
    && (g.skipGpg <==> f.skipGpg || Says(args, INIT_TAKERS, "--no-gpg"))
    && (g.force <==> f.force || Says(args, INIT_TAKERS, "--force"))
    && (g.yes <==> f.yes || Says(args, INIT_TAKERS, "--yes") || Says(args, INIT_TAKERS, "-y"))
    && (g.directInstall <==> f.directInstall || Says(args, INIT_TAKERS, "--direct-install"))
    && (exists v :: IsLast(args, INIT_TAKERS, ProfileAt, v) && g.profile == if v.Some? then v else f.profile)
    && (exists v :: IsOnlyPlain(args, INIT_TAKERS, v) && (f.device.Some? ==> v.None?) && g.device == if v.Some? then v else f.device)
  }

  /** One word's own effect. */
  ghost predicate WordMeans(a: string, f: Flags, g: Flags) {
    && (g.skipDoctor <==> f.skipDoctor || a == "--no-doctor")
    && (g.skipGpg <==> f.skipGpg || a == "--no-gpg")
    && (g.force <==> f.force || a == "--force")
    && (g.yes <==> f.yes || a == "--yes" || a == "-y")
    && (g.directInstall <==> f.directInstall || a == "--direct-install")
    && g.device == (if DeviceWord(a) then Some(a) else f.device)
    && (DeviceWord(a) ==> f.device.None?)
  }

  lemma AbsorbMeans(f: Flags, a: string)
    requires a != "--profile" && InitWordOf(a) != ProfileWord && Absorb(f, a).Ok?
    ensures WordMeans(a, f, Absorb(f, a).value)
    ensures Absorb(f, a).value.profile == if StartsWith(a, "--profile=") then ProfileAt([a], 0) else f.profile
  {
    hide TrimStartMatches, InitWordOf, DeviceWord;
    InitWordMeans(a);
  }

  /** Which words are which arms, spelled out. */
  lemma InitWordMeans(a: string)
    ensures InitWordOf(a) == NoDoctorWord <==> a == "--no-doctor"
    ensures InitWordOf(a) == NoGpgWord <==> a == "--no-gpg"
    ensures InitWordOf(a) == ForceWord <==> a == "--force"
    ensures InitWordOf(a) == YesWord <==> a == "--yes" || a == "-y"
    ensures InitWordOf(a) == DirectWord <==> a == "--direct-install"
    ensures InitWordOf(a) == HelpWord <==> a == "--help" || a == "-h"
    ensures InitWordOf(a) == ProfileEqualsWord <==> StartsWith(a, "--profile=")
    ensures InitWordOf(a) == PlainWord <==> DeviceWord(a)
  {
    assert StartsWith(a, "--profile=") ==> a[..10][2] == a[2] == 'p' && a[..10][0] == a[0] == '-' && a[..10][1] == a[1] == '-' && a[..10][9] == a[9];
    assert "--help"[2] == 'h' && "--no-doctor"[2] == 'n' && "--no-gpg"[2] == 'n' && "--force"[2] == 'f';
    assert "--yes"[2] == 'y' && "--direct-install"[2] == 'd' && "--no-doctor"[5] == 'd';
    assert StartsWith(a, "--") <==> |a| >= 2 && a[0] == '-' && a[1] == '-';
  }

  lemma {:induction false} ParseMeans(args: seq<string>, f: Flags)
    requires ParseFrom(args, f).Ok?
    ensures Means(args, f, ParseFrom(args, f).value)
    decreases |args|
  {
    hide InitWordOf, Absorb, DeviceWord, StartsWith;
    if args == [] {
      NoWords(INIT_TAKERS);
      assert IsLast(args, INIT_TAKERS, ProfileAt, None);
      assert IsOnlyPlain(args, INIT_TAKERS, None);
    } else {
      var a := args[0];
      ProfileWordIs(a);
      ProfileAtIsLocal();
      var h := if a == "--profile" then f.(profile := Some(args[1])) else Absorb(f, a).value;
      var rest := args[Step(args, INIT_TAKERS)..];
      if a == "--profile" { TakerIsNoFlag(f, args[1]); } else { AbsorbMeans(f, a); OneWordProfile(args, f); }
      assert ParseFrom(args, f) == ParseFrom(rest, h);
      ParseMeans(rest, h);
      MeansCons(args, f, h, ParseFrom(args, f).value);
    }
  }

  lemma NoWords(takers: set<string>)
    ensures forall i: nat :: !Stands([], takers, i)
  {
  }

  lemma TakerIsNoFlag(f: Flags, name: string)
    ensures WordMeans("--profile", f, f.(profile := Some(name)))
  {
    assert "--profile"[2] == 'p' && "--profile"[0] == '-' && "--profile"[1] == '-';
    assert "--profile"[..2] == "--";
  }

  lemma OneWordProfile(args: seq<string>, f: Flags)
    requires args != [] && args[0] != "--profile"
    ensures ProfileAt(args, 0) == ProfileAt([args[0]], 0)
    ensures ProfileAt(args, 0).Some? <==> StartsWith(args[0], "--profile=")
  {
  }

  /** One word and the words after it. */
  lemma MeansCons(args: seq<string>, f: Flags, h: Flags, g: Flags)
    requires args != [] && WordMeans(args[0], f, h) && Means(args[Step(args, INIT_TAKERS)..], h, g)
    requires h.profile == if ProfileAt(args, 0).Some? then ProfileAt(args, 0) else f.profile
    ensures Means(args, f, g)
  {
    hide DeviceWord, ProfileAt, Says, IsLast, IsOnlyPlain;
    var rest := args[Step(args, INIT_TAKERS)..];
    ProfileAtIsLocal();
    SaysCons(args, INIT_TAKERS, "--no-doctor");
    SaysCons(args, INIT_TAKERS, "--no-gpg");
    SaysCons(args, INIT_TAKERS, "--force");
    SaysCons(args, INIT_TAKERS, "--yes");
    SaysCons(args, INIT_TAKERS, "-y");
    SaysCons(args, INIT_TAKERS, "--direct-install");
    var v :| IsLast(rest, INIT_TAKERS, ProfileAt, v) && g.profile == if v.Some? then v else h.profile;
    LastCons(args, INIT_TAKERS, ProfileAt, v);
    var d :| IsOnlyPlain(rest, INIT_TAKERS, d) && (h.device.Some? ==> d.None?) && g.device == if d.Some? then d else h.device;
    OnlyPlainCons(args, INIT_TAKERS, d);
  }

  /** What every accepted list of init means. */
  lemma InitFlagsMean(args: seq<string>, p: Parsed)
    requires ParseFlagsOf(args) == Ok(p)
    ensures p.skipDoctor <==> Says(args, INIT_TAKERS, "--no-doctor")
    ensures p.skipGpg <==> Says(args, INIT_TAKERS, "--no-gpg")
    ensures p.force <==> Says(args, INIT_TAKERS, "--force")
    ensures p.yes <==> Says(args, INIT_TAKERS, "--yes") || Says(args, INIT_TAKERS, "-y")
    ensures p.directInstall <==> Says(args, INIT_TAKERS, "--direct-install")
    ensures IsOnlyPlain(args, INIT_TAKERS, p.device)
    ensures exists v :: IsLast(args, INIT_TAKERS, ProfileAt, v) && p.profileName == if v.Some? then v.value else "panic-room"
  {
    hide ParseFrom, Says, IsLast, IsOnlyPlain;
    ParseMeans(args, NO_FLAGS);
  }

  // ---- which lists init accepts --------------------------------------------------------------------

  /** A word no list may hold, or a name that is missing. */
  ghost predicate GoodAt(args: seq<string>, i: nat)
    requires i < |args|
  {
    var a := args[i];
    && a != "--help" && a != "-h" && (a == "--profile" ==> i + 1 < |args|)
    && (StartsWith(a, "--") ==>
          a == "--yes" || a == "--profile" || a == "--no-doctor" || a == "--no-gpg" || a == "--force" || a == "--direct-install" ||
          StartsWith(a, "--profile="))
  }

  ghost predicate Acceptable(args: seq<string>) {
    && (forall i: nat :: Stands(args, INIT_TAKERS, i) ==> GoodAt(args, i))
    && (forall i: nat, j: nat :: PlainAt(args, INIT_TAKERS, i) && PlainAt(args, INIT_TAKERS, j) ==> i == j)
  }

  lemma AcceptableCons(args: seq<string>)
    requires args != []
    ensures var rest := args[Step(args, INIT_TAKERS)..];
            Acceptable(args) <==>
              GoodAt(args, 0) && Acceptable(rest) && (DeviceWord(args[0]) ==> forall i: nat :: !PlainAt(rest, INIT_TAKERS, i))
  {
    hide DeviceWord, StartsWith;
    var k := Step(args, INIT_TAKERS);
    var rest := args[k..];
    WordsCons(args, INIT_TAKERS);
    forall i: nat | Stands(rest, INIT_TAKERS, i)
      ensures Stands(args, INIT_TAKERS, k + i) && rest[i] == args[k + i] && (GoodAt(rest, i) <==> GoodAt(args, k + i))
      ensures PlainAt(rest, INIT_TAKERS, i) <==> PlainAt(args, INIT_TAKERS, k + i)
    {
    }
    forall i: nat | 0 < i && Stands(args, INIT_TAKERS, i) ensures i >= k && Stands(rest, INIT_TAKERS, i - k) {}
    assert PlainAt(args, INIT_TAKERS, 0) <==> DeviceWord(args[0]);
  }

  lemma AbsorbsIff(f: Flags, a: string)
    requires a != "--profile"
    ensures InitWordOf(a) != ProfileWord
    ensures Absorb(f, a).Ok? <==> GoodAt([a], 0) && (DeviceWord(a) ==> f.device.None?)
  {
    hide TrimStartMatches, InitWordOf, DeviceWord, StartsWith;
    ProfileWordIs(a);
    InitWordMeans(a);
    UnknownWordIs(a);
  }

  lemma UnknownWordIs(a: string)
    ensures InitWordOf(a) == UnknownWord ==> StartsWith(a, "--") && InitWordOf(a) != PlainWord
    ensures InitWordOf(a) == PlainWord ==> !StartsWith(a, "--")
    ensures !StartsWith("-y", "--")
  {
    assert "-y"[1] == 'y';
  }

  lemma {:induction false} ParsesIff(args: seq<string>, f: Flags)
    ensures ParseFrom(args, f).Ok? <==>
            Acceptable(args) && (f.device.Some? ==> forall i: nat :: !PlainAt(args, INIT_TAKERS, i))
    decreases |args|
  {
    hide InitWordOf, DeviceWord, StartsWith, Acceptable, PlainAt;
    if args == [] {
      NoWords(INIT_TAKERS);
      assert Acceptable([]) by { hide *; EmptyIsAcceptable(); }
      EmptyIsAcceptable();
    } else {
      var a, rest := args[0], args[Step(args, INIT_TAKERS)..];
      ProfileWordIs(a);
      AcceptableCons(args);
      PlainCons(args);
      if a == "--profile" {
        ProfileIsNoDevice();
        if |args| > 1 { ParsesIff(rest, f.(profile := Some(args[1]))); }
      } else {
        AbsorbsIff(f, a);
        GoodAlone(args);
        if Absorb(f, a).Ok? {
          AbsorbMeans(f, a);
          ParsesIff(rest, Absorb(f, a).value);
        }
      }
    }
  }

  lemma EmptyIsAcceptable()
    ensures Acceptable([]) && forall i: nat :: !PlainAt([], INIT_TAKERS, i)
  {
  }

  lemma ProfileIsNoDevice()
    ensures !DeviceWord("--profile")
  {
    assert "--profile"[..2] == "--";
  }

  lemma GoodAlone(args: seq<string>)
    requires args != [] && args[0] != "--profile"
    ensures GoodAt(args, 0) <==> GoodAt([args[0]], 0)
  {
  }

  lemma PlainCons(args: seq<string>)
    requires args != []
    ensures (forall i: nat :: !PlainAt(args, INIT_TAKERS, i)) <==>
            !DeviceWord(args[0]) && forall i: nat :: !PlainAt(args[Step(args, INIT_TAKERS)..], INIT_TAKERS, i)
  {
    hide DeviceWord;
    var k := Step(args, INIT_TAKERS);
    WordsCons(args, INIT_TAKERS);
    forall i: nat | PlainAt(args[k..], INIT_TAKERS, i) ensures PlainAt(args, INIT_TAKERS, k + i) {}
    forall i: nat | 0 < i && PlainAt(args, INIT_TAKERS, i) ensures i >= k && PlainAt(args[k..], INIT_TAKERS, i - k) {}
    assert PlainAt(args, INIT_TAKERS, 0) <==> DeviceWord(args[0]);
  }

  /** init accepts a list exactly when every word of it is known and in place, and at most one is plain. */
  lemma InitAcceptsIff(args: seq<string>)
    ensures ParseFlagsOf(args).Ok? <==> Acceptable(args)
  {
    hide ParseFrom, Acceptable;
    ParsesIff(args, NO_FLAGS);
  }

  /** Every refusal points at a word that the list does hold. */
  lemma {:induction false} RefusalMeans(args: seq<string>, f: Flags)
    requires ParseFrom(args, f).Err?
    ensures match ParseFrom(args, f).error
            case HelpHandledByCaller => Says(args, INIT_TAKERS, "--help") || Says(args, INIT_TAKERS, "-h")
            case ProfileNeedsName => Stands(args, INIT_TAKERS, |args| - 1) && args[|args| - 1] == "--profile"
            case UnknownOption(a) => Says(args, INIT_TAKERS, a) && !GoodAt([a], 0)
            case OnlyOneDevice(got, after) =>
              && Says(args, INIT_TAKERS, got) && DeviceWord(got)
              && (f.device == Some(after) || (Says(args, INIT_TAKERS, after) && DeviceWord(after)))
    decreases |args|, 1
  {
    hide InitWordOf, DeviceWord, StartsWith, Says, TrimStartMatches;
    var a, k := args[0], Step(args, INIT_TAKERS);
    ProfileWordIs(a);
    WordsCons(args, INIT_TAKERS);
    if a == "--profile" {
      if |args| > 1 { RefusalLater(args, f, f.(profile := Some(args[1]))); }
    } else {
      InitWordMeans(a);
      AbsorbsIff(f, a);
      SaysCons(args, INIT_TAKERS, a);
      if Absorb(f, a).Ok? {
        AbsorbMeans(f, a);
        RefusalLater(args, f, Absorb(f, a).value);
        SaysCons(args, INIT_TAKERS, if Absorb(f, a).value.device.Some? then Absorb(f, a).value.device.value else "");
      }
    }
  }

  lemma {:induction false} RefusalLater(args: seq<string>, f: Flags, h: Flags)
    requires args != []
    requires var rest := args[Step(args, INIT_TAKERS)..]; ParseFrom(rest, h).Err?
    ensures var rest := args[Step(args, INIT_TAKERS)..];
            match ParseFrom(rest, h).error
            case HelpHandledByCaller => Says(args, INIT_TAKERS, "--help") || Says(args, INIT_TAKERS, "-h")
            case ProfileNeedsName => Stands(args, INIT_TAKERS, |args| - 1) && args[|args| - 1] == "--profile"
            case UnknownOption(a) => Says(args, INIT_TAKERS, a) && !GoodAt([a], 0)
            case OnlyOneDevice(got, after) =>
              && Says(args, INIT_TAKERS, got) && DeviceWord(got)
              && (h.device == Some(after) || (Says(args, INIT_TAKERS, after) && DeviceWord(after)))
    decreases |args|, 0
  {
    hide InitWordOf, DeviceWord, StartsWith, Says, TrimStartMatches;
    var k := Step(args, INIT_TAKERS);
    var rest := args[k..];
    RefusalMeans(rest, h);
    WordsCons(args, INIT_TAKERS);
    assert ParseFrom(rest, h).error == ProfileNeedsName ==> Stands(args, INIT_TAKERS, k + (|rest| - 1));
    forall w: string | Says(rest, INIT_TAKERS, w) ensures Says(args, INIT_TAKERS, w) { SaysCons(args, INIT_TAKERS, w); }
  }

  // ---- flash's options -----------------------------------------------------------------------------

  const FLASH_TAKERS: set<string> := {"--out-dir", "--out", "--cache-base", "--image"}

  function After(a: string, prefix: string): string
    requires StartsWith(a, prefix)
  {
    a[|prefix|..]
  }

  /** The output directory given at `i`, under any of its three names. */
  function OutDirAt(args: seq<string>, i: nat): Option<string> {
    if i >= |args| then None
    else if args[i] == "--out-dir" || args[i] == "--out" || args[i] == "--cache-base" then
      (if i + 1 < |args| then Some(args[i + 1]) else None)
    else OutDirOf(args[i])
  }

  function OutDirOf(a: string): Option<string> {
    if StartsWith(a, "--out-dir=") then Some(After(a, "--out-dir="))
    else if StartsWith(a, "--out=") then Some(After(a, "--out="))
    else if StartsWith(a, "--cache-base=") then Some(After(a, "--cache-base="))
    else None
  }

  function ImageAt(args: seq<string>, i: nat): Option<string> {
    if i >= |args| then None
    else if args[i] == "--image" then (if i + 1 < |args| then Some(args[i + 1]) else None)
    else ImageOf(args[i])
  }

  function ImageOf(a: string): Option<string> {
    if StartsWith(a, "--image=") then Some(After(a, "--image=")) else None
  }

  lemma FlashReadingsAreLocal()
    ensures Local(OutDirAt) && Local(ImageAt)
  {
    hide OutDirOf, ImageOf;
    forall args: seq<string>, k: nat, i: nat | k + i < |args|
      ensures OutDirAt(args[k..], i) == OutDirAt(args, k + i) && ImageAt(args[k..], i) == ImageAt(args, k + i)
    {
      assert args[k..][i] == args[k + i];
    }
  }

  /** Reading `args` into `p` gave `q`, and no word asked for help. */
  ghost predicate FlashMeans(args: seq<string>, p: FlashArgs, q: FlashArgs) {
    && (q.assumeYes <==> p.assumeYes || Says(args, FLASH_TAKERS, "--yes") || Says(args, FLASH_TAKERS, "-y"))
    && (q.dryRun <==> p.dryRun || Says(args, FLASH_TAKERS, "--dry-run"))
    && (q.noProgress <==> p.noProgress || Says(args, FLASH_TAKERS, "--no-progress"))
    && (q.noExpand <==> p.noExpand || Says(args, FLASH_TAKERS, "--no-expand"))
    && (q.directInstall <==> p.directInstall || Says(args, FLASH_TAKERS, "--direct-install"))
    && (exists v :: IsLast(args, FLASH_TAKERS, OutDirAt, v) && q.outDir == if v.Some? then v else p.outDir)
    && (exists v :: IsLast(args, FLASH_TAKERS, ImageAt, v) && q.prebuiltImage == if v.Some? then v else p.prebuiltImage)
    && (exists v :: IsOnlyPlain(args, FLASH_TAKERS, v) && (p.explicitDev.Some? ==> v.None?) &&
                    q.explicitDev == if v.Some? then v else p.explicitDev)
  }

  ghost predicate FlashWordMeans(args: seq<string>, p: FlashArgs, q: FlashArgs)
    requires args != []
  {
    var a := args[0];
    && (q.assumeYes <==> p.assumeYes || a == "--yes" || a == "-y")
    && (q.dryRun <==> p.dryRun || a == "--dry-run")
    && (q.noProgress <==> p.noProgress || a == "--no-progress")
    && (q.noExpand <==> p.noExpand || a == "--no-expand")
    && (q.directInstall <==> p.directInstall || a == "--direct-install")
    && q.outDir == (if OutDirAt(args, 0).Some? then OutDirAt(args, 0) else p.outDir)
    && q.prebuiltImage == (if ImageAt(args, 0).Some? then ImageAt(args, 0) else p.prebuiltImage)
    && q.explicitDev == (if DeviceWord(a) then Some(a) else p.explicitDev)
    && (DeviceWord(a) ==> p.explicitDev.None?)
  }

  /** Which words are which arms, spelled out. */
  lemma FlashWordSpelled(a: string)
    ensures FlashWordOf(a) == HelpFlashWord <==> a == "--help" || a == "-h"
    ensures FlashWordOf(a) == ValueWord <==> a in FLASH_TAKERS
    ensures FlashWordOf(a) == YesFlashWord <==> a == "--yes" || a == "-y"
    ensures FlashWordOf(a) == DryRunWord <==> a == "--dry-run"
    ensures FlashWordOf(a) == NoProgressWord <==> a == "--no-progress"
    ensures FlashWordOf(a) == NoExpandWord <==> a == "--no-expand"
    ensures FlashWordOf(a) == DirectInstallWord <==> a == "--direct-install"
    ensures FlashWordOf(a) == PlainFlashWord <==> DeviceWord(a)
  {
    hide EqualsWordOf;
    EqualsWordShape(a);
    if DeviceWord(a) { DeviceIsAbsorbed(a); }
    assert "--yes"[2] == 'y' && "--dry-run"[3] == 'r' && "--no-progress"[5] == 'p' && "--no-expand"[5] == 'e';
    assert "--direct-install"[3] == 'i' && "--help"[2] == 'h';
    assert "--out-dir"[2] == 'o' && "--out"[2] == 'o' && "--cache-base"[2] == 'c' && "--image"[2] == 'i';
  }

  lemma EqualsWordShape(a: string)
    ensures EqualsWordOf(a).Some? ==> EqualsWordOf(a).value.OutDirWord? || EqualsWordOf(a).value.ImageWord?
  {
  }

  /** The options written with an equals sign. */
  lemma FlashEqualsSpelled(a: string)
    ensures FlashWordOf(a).OutDirWord? <==> OutDirOf(a).Some?
    ensures FlashWordOf(a).OutDirWord? ==> OutDirOf(a) == Some(FlashWordOf(a).dir)
    ensures FlashWordOf(a).ImageWord? <==> ImageOf(a).Some?
    ensures FlashWordOf(a).ImageWord? ==> ImageOf(a) == Some(FlashWordOf(a).path)
  {
    hide EqualsWordOf;
    EqualsWordIs(a);
    if OutDirOf(a).Some? || ImageOf(a).Some? { EqualsWordIsNoOther(a); }
  }

  lemma EqualsWordIs(a: string)
    ensures EqualsWordOf(a) ==
            if OutDirOf(a).Some? then Some(OutDirWord(OutDirOf(a).value))
            else if ImageOf(a).Some? then Some(ImageWord(ImageOf(a).value))
            else None
    ensures OutDirOf(a).Some? ==> ImageOf(a).None?
  {
    hide StartsWith;
    ImageIsNoOutDir(a);
  }

  lemma ImageIsNoOutDir(a: string)
    ensures StartsWith(a, "--image=") ==> !StartsWith(a, "--out-dir=") && !StartsWith(a, "--out=") && !StartsWith(a, "--cache-base=")
  {
    assert StartsWith(a, "--image=") ==> a[..8][2] == a[2] == 'i';
    assert StartsWith(a, "--out-dir=") ==> a[..10][2] == a[2] == 'o';
    assert StartsWith(a, "--out=") ==> a[..6][2] == a[2] == 'o';
    assert StartsWith(a, "--cache-base=") ==> a[..13][2] == a[2] == 'c';
  }

  /** A word with an equals sign is none of the words without. */
  lemma EqualsWordIsNoOther(a: string)
    requires OutDirOf(a).Some? || ImageOf(a).Some?
    ensures '=' in a && FlashWordOf(a) == EqualsWordOf(a).value
  {
    hide EqualsWordOf;
    EqualsWordIs(a);
    assert StartsWith(a, "--image=") ==> a[7] == a[..8][7] == '=';
    assert StartsWith(a, "--out-dir=") ==> a[9] == a[..10][9] == '=';
    assert StartsWith(a, "--out=") ==> a[5] == a[..6][5] == '=';
    assert StartsWith(a, "--cache-base=") ==> a[12] == a[..13][12] == '=';
    hide StartsWith;
    NoEquals();
  }

  lemma NoEquals()
    ensures '=' !in "--help" && '=' !in "-h" && '=' !in "--yes" && '=' !in "-y" && '=' !in "--dry-run"
    ensures '=' !in "--no-progress" && '=' !in "--no-expand" && '=' !in "--direct-install"
    ensures '=' !in "--out-dir" && '=' !in "--out" && '=' !in "--cache-base" && '=' !in "--image"
  {
  }

  lemma FlashAbsorbMeans(args: seq<string>, p: FlashArgs)
    requires args != [] && FlashWordOf(args[0]) != HelpFlashWord && FlashWordOf(args[0]) != ValueWord
    requires AbsorbFlash(p, args[0]).Ok?
    ensures FlashWordMeans(args, p, AbsorbFlash(p, args[0]).value)
    ensures AbsorbFlash(p, args[0]).value.helpRequested == p.helpRequested
  {
    hide FlashWordOf, DeviceWord, OutDirOf, ImageOf;
    FlashWordSpelled(args[0]);
    FlashEqualsSpelled(args[0]);
  }

  lemma SetValueMeans(args: seq<string>, p: FlashArgs)
    requires |args| > 1 && args[0] in FLASH_TAKERS
    ensures FlashWordMeans(args, p, SetValue(p, args[0], args[1]))
    ensures SetValue(p, args[0], args[1]).helpRequested == p.helpRequested
  {
    hide FlashWordOf, DeviceWord, OutDirOf, ImageOf;
    FlashWordSpelled(args[0]);
    FlashEqualsSpelled(args[0]);
    TakersDiffer();
  }

  lemma TakersDiffer()
    ensures forall a | a in FLASH_TAKERS :: a != "--yes" && a != "-y" && a != "--dry-run" && a != "--no-progress" && a != "--no-expand"
    ensures forall a | a in FLASH_TAKERS :: a != "--direct-install" && a != "--help" && a != "-h"
    ensures "--image" != "--out-dir" && "--image" != "--out" && "--image" != "--cache-base"
  {
    assert "--out-dir"[2] == 'o' && "--out"[2] == 'o' && "--cache-base"[2] == 'c' && "--image"[2] == 'i';
    assert "--yes"[2] == 'y' && "--dry-run"[2] == 'd' && "--no-progress"[2] == 'n' && "--no-expand"[2] == 'n';
    assert "--direct-install"[2] == 'd' && "--help"[2] == 'h';
  }

  lemma FlashMeansCons(args: seq<string>, p: FlashArgs, h: FlashArgs, q: FlashArgs)
    requires args != [] && FlashWordMeans(args, p, h) && FlashMeans(args[Step(args, FLASH_TAKERS)..], h, q)
    ensures FlashMeans(args, p, q)
  {
    hide DeviceWord, OutDirAt, ImageAt, Says, IsLast, IsOnlyPlain;
    var rest := args[Step(args, FLASH_TAKERS)..];
    FlashReadingsAreLocal();
    SaysCons(args, FLASH_TAKERS, "--yes");
    SaysCons(args, FLASH_TAKERS, "-y");
    SaysCons(args, FLASH_TAKERS, "--dry-run");
    SaysCons(args, FLASH_TAKERS, "--no-progress");
    SaysCons(args, FLASH_TAKERS, "--no-expand");
    SaysCons(args, FLASH_TAKERS, "--direct-install");
    var v :| IsLast(rest, FLASH_TAKERS, OutDirAt, v) && q.outDir == if v.Some? then v else h.outDir;
    LastCons(args, FLASH_TAKERS, OutDirAt, v);
    var w :| IsLast(rest, FLASH_TAKERS, ImageAt, w) && q.prebuiltImage == if w.Some? then w else h.prebuiltImage;
    LastCons(args, FLASH_TAKERS, ImageAt, w);
    var d :| IsOnlyPlain(rest, FLASH_TAKERS, d) && (h.explicitDev.Some? ==> d.None?) && q.explicitDev == if d.Some? then d else h.explicitDev;
    OnlyPlainCons(args, FLASH_TAKERS, d);
  }

  ghost predicate AsksHelp(args: seq<string>) {
    Says(args, FLASH_TAKERS, "--help") || Says(args, FLASH_TAKERS, "-h")
  }

  lemma {:induction false} FlashParseMeans(args: seq<string>, p: FlashArgs)
    requires ParseFlashFrom(args, p).Ok? && !p.helpRequested
    ensures var q := ParseFlashFrom(args, p).value;
            (q.helpRequested <==> AsksHelp(args)) && (!q.helpRequested ==> FlashMeans(args, p, q))
    decreases |args|
  {
    hide FlashWordOf, DeviceWord, OutDirAt, ImageAt, FlashMeans, FlashWordMeans, AbsorbFlash, Says, SetValue;
    if args == [] {
      NothingMeans(p);
    } else {
      var a, rest := args[0], args[Step(args, FLASH_TAKERS)..];
      FlashWordSpelled(a);
      TakersDiffer();
      SaysCons(args, FLASH_TAKERS, "--help");
      SaysCons(args, FLASH_TAKERS, "-h");
      if FlashWordOf(a) != HelpFlashWord {
        var h := if FlashWordOf(a) == ValueWord then SetValue(p, a, args[1]) else AbsorbFlash(p, a).value;
        if FlashWordOf(a) == ValueWord { SetValueMeans(args, p); } else { FlashAbsorbMeans(args, p); }
        FlashParseMeans(rest, h);
        if !ParseFlashFrom(args, p).value.helpRequested {
          FlashMeansCons(args, p, h, ParseFlashFrom(rest, h).value);
        }
      }
    }
  }

  lemma NothingMeans(p: FlashArgs)
    ensures FlashMeans([], p, p) && !AsksHelp([])
  {
    NoWords(FLASH_TAKERS);
    assert IsLast([], FLASH_TAKERS, OutDirAt, None) && IsLast([], FLASH_TAKERS, ImageAt, None) && IsOnlyPlain([], FLASH_TAKERS, None);
  }

  /** What every list that flash accepts means, unless a word asks for help. */
  lemma FlashFlagsMean(args: seq<string>, q: FlashArgs)
    requires ParseFlashFrom(args, NO_FLASH_ARGS) == Ok(q)
    ensures q.helpRequested <==> AsksHelp(args)
    ensures !q.helpRequested ==>
              && (q.assumeYes <==> Says(args, FLASH_TAKERS, "--yes") || Says(args, FLASH_TAKERS, "-y"))
              && (q.dryRun <==> Says(args, FLASH_TAKERS, "--dry-run"))
              && (q.noProgress <==> Says(args, FLASH_TAKERS, "--no-progress"))
              && (q.noExpand <==> Says(args, FLASH_TAKERS, "--no-expand"))
              && (q.directInstall <==> Says(args, FLASH_TAKERS, "--direct-install"))
              && IsLast(args, FLASH_TAKERS, OutDirAt, q.outDir) && IsLast(args, FLASH_TAKERS, ImageAt, q.prebuiltImage)
              && IsOnlyPlain(args, FLASH_TAKERS, q.explicitDev)
  {
    hide ParseFlashFrom, Says, IsLast, IsOnlyPlain, AsksHelp;
    FlashParseMeans(args, NO_FLASH_ARGS);
  }

  // ---- what quickstart forwards -----------------------------------------------------------------------

  /** The words quickstart sets itself. */
  predicate Replaced(w: string) {
    w == "--profile" || w == "--yes" || w == "--direct-install" || StartsWith(w, "--profile=")
  }

  lemma ReplacedIsDropped(w: string)
    ensures Replaced(w) <==> Dropped(w)
  {
  }

  lemma {:induction false} KeptSays(args: seq<string>, w: string)
    ensures Says(Kept(args), INIT_TAKERS, w) <==> Says(args, INIT_TAKERS, w) && !Replaced(w)
    decreases |args|
  {
    hide Says, Replaced, Dropped;
    if args == [] {
      NothingSaid(w);
    } else {
      var a := args[0];
      SaysCons(args, INIT_TAKERS, w);
      ReplacedIsDropped(w);
      ReplacedIsDropped(a);
      TakerIsReplaced();
      if a == "--profile" {
        if |args| > 1 { KeptSays(args[2..], w); } else { NothingSaid(w); assert args[1..] == []; }
      } else {
        KeptSays(args[1..], w);
        if !Dropped(a) {
          SaysCons([a] + Kept(args[1..]), INIT_TAKERS, w);
          assert ([a] + Kept(args[1..]))[1..] == Kept(args[1..]);
        }
      }
    }
  }

  lemma TakerIsReplaced()
    ensures Replaced("--profile")
  {
  }

  lemma NothingSaid(w: string)
    ensures !Says([], INIT_TAKERS, w)
  {
  }

  /** init hears from the forwarded list the three words that were set, and of the operator's all but those four. */
  lemma ForwardedSays(args: seq<string>, w: string)
    ensures Says(Forwarded(args), INIT_TAKERS, w) <==>
            || w == "--profile" || w == "--yes" || w == "--direct-install"
            || (Says(args, INIT_TAKERS, w) && !StartsWith(w, "--profile="))
  {
    hide Says, StartsWith;
    var k := Kept(args);
    var s, y, d := SEED + k, ["--yes", "--direct-install"] + k, ["--direct-install"] + k;
    KeptSays(args, w);
    SeedWords();
    assert s[0] == "--profile" && |s| > 1 && s[2..] == y && y[0] == "--yes" && y[1..] == d && d[0] == "--direct-install" && d[1..] == k;
    SaysCons(s, INIT_TAKERS, w);
    SaysCons(y, INIT_TAKERS, w);
    SaysCons(d, INIT_TAKERS, w);
  }
}
