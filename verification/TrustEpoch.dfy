/**
  `fetch-trust-chain` run after run: the seen-epoch file, the floor it gives the
  next run, and what survives when loading or storing it fails.
*/
module TrustEpoch {
  import opened Wrappers
  import opened BundleVerify
  import opened BundleCache
  import BundleCacheLaws

  /** The state file: missing, a bare decimal, or anything else. */
  datatype SeenFile = Absent | Epoch(n: nat) | Garbled

  /** What the disk lets one run do. */
  datatype Disk = Disk(loadReadable: bool, baseCreatable: bool, storeReadable: bool, storeWritable: bool)

  function LoadSeenEpoch(file: SeenFile, readable: bool): Option<nat> {
    match file
    case Absent => if readable then Some(0) else None
    case Epoch(n) => if readable then Some(n) else None
    case Garbled => None
  }

  /** Reads the current value first and keeps the greater; stage-then-rename, so all or nothing. */
  function StoreSeenEpoch(file: SeenFile, new': nat, disk: Disk): (SeenFile, bool) {
    match LoadSeenEpoch(file, disk.storeReadable)
    case None => (file, false)
    case Some(current) =>
      if disk.storeWritable then (Epoch(if current < new' then new' else current), true) else (file, false)
  }

  datatype State = State(world: World, seen: SeenFile)

  /** One invocation: its environment, its request (less the seen epoch) and its disk. */
  datatype Invocation = Invocation(env: Env, req: Request, disk: Disk)

  function Loaded(file: SeenFile, disk: Disk): nat {
    var seen := LoadSeenEpoch(file, disk.loadReadable);
    if seen.Some? then seen.value else 0
  }

  /** `try_run` with its arguments parsed; a failed store is only a warning. */
  function TryRun(s: State, run: Invocation): (State, Result<BundlePaths, CacheError>) {
    if !run.disk.baseCreatable then (s, Err(Io))
    else
      var (world, got) := Fetch(run.env, s.world, run.req.(seenEpoch := Loaded(s.seen, run.disk)));
      var seen := if got.Ok? then StoreSeenEpoch(s.seen, got.value.manifest.keyEpoch, run.disk).0 else s.seen;
      (State(world, seen), got)
  }

  class FetchTrustChain {
    var host: BundleHost
    var seen: SeenFile

    constructor (host: BundleHost, seen: SeenFile)
      ensures this.host == host && this.seen == seen
    {
      this.host, this.seen := host, seen;
    }

    method Run(req: Request, disk: Disk) returns (r: Result<BundlePaths, CacheError>)
      modifies this`seen, host
      ensures host == old(host)
      ensures (State(host.Snapshot(), seen), r) ==
              TryRun(State(old(host.Snapshot()), old(seen)), Invocation(host.env, req, disk))
    {
      hide Fetch;
      var loaded := LoadSeenEpoch(seen, disk.loadReadable);
      var floor := if loaded.Some? then loaded.value else 0;
      if !disk.baseCreatable {
        return Err(Io);
      }
      r := host.FetchBundle(req.(seenEpoch := floor));
      if r.Ok? {
        var (stored, _) := StoreSeenEpoch(seen, r.value.manifest.keyEpoch, disk);
        seen := stored;
      }
    }
  }

  // ---- one run ------------------------------------------------------------------

  /** The epoch on disk, if it is one. */
  function Level(file: SeenFile): nat {
    if file.Epoch? then file.n else 0
  }

  /** The file may only advance; a garbled file is never overwritten. */
  ghost predicate Advances(before: SeenFile, after: SeenFile) {
    Level(before) <= Level(after) && (before.Epoch? ==> after.Epoch?) && (before.Garbled? ==> after.Garbled?)
  }

  lemma RunAdvances(s: State, run: Invocation)
    ensures Advances(s.seen, TryRun(s, run).0.seen)
  {
    hide Fetch;
  }

  /** An accepted manifest clears the binary's floor and the loaded floor. */
  lemma AcceptedClearsFloors(s: State, run: Invocation)
    requires TryRun(s, run).1.Ok?
    ensures var epoch := TryRun(s, run).1.value.manifest.keyEpoch;
            epoch >= run.req.anchor.minRequired && epoch >= Loaded(s.seen, run.disk)
  {
    hide Fetch;
    var req := run.req.(seenEpoch := Loaded(s.seen, run.disk));
    BundleCacheLaws.ReturnedBundleWasAccepted(run.env, s.world, req, Fetch(run.env, s.world, req).1.value);
  }

  // ---- any sequence of runs ---------------------------------------------------------

  function StateAfter(s: State, runs: seq<Invocation>, i: nat): State
    requires i <= |runs|
    decreases i
  {
    if i == 0 then s else StateAfter(TryRun(s, runs[0]).0, runs[1..], i - 1)
  }

  lemma {:induction false} StepOf(s: State, runs: seq<Invocation>, i: nat)
    requires i < |runs|
    ensures StateAfter(s, runs, i + 1) == TryRun(StateAfter(s, runs, i), runs[i]).0
    decreases i
  {
    hide TryRun;
    if i > 0 { StepOf(TryRun(s, runs[0]).0, runs[1..], i - 1); }
  }

  function Outcome(s: State, runs: seq<Invocation>, i: nat): Result<BundlePaths, CacheError>
    requires i < |runs|
  {
    TryRun(StateAfter(s, runs, i), runs[i]).1
  }

  /** Whatever fails, the persisted epoch never decreases from one run to any later one. */
  lemma {:induction false} SeenEpochNeverRegresses(s: State, runs: seq<Invocation>, i: nat, j: nat)
    requires i <= j <= |runs|
    ensures Advances(StateAfter(s, runs, i).seen, StateAfter(s, runs, j).seen)
    decreases j - i
  {
    hide TryRun;
    if i < j {
      SeenEpochNeverRegresses(s, runs, i, j - 1);
      StepOf(s, runs, j - 1);
      RunAdvances(StateAfter(s, runs, j - 1), runs[j - 1]);
    }
  }

  ghost predicate StoreWorked(s: State, runs: seq<Invocation>, i: nat)
    requires i < |runs|
  {
    Outcome(s, runs, i).Ok? &&
    StoreSeenEpoch(StateAfter(s, runs, i).seen, Outcome(s, runs, i).value.manifest.keyEpoch, runs[i].disk).1
  }

  /**
    If run `i` was accepted and stored its epoch, and run `j` could load the file,
    then run `j` accepts nothing older; runs between may fail in any way.
  */
  lemma AcceptedEpochsDoNotDecrease(s: State, runs: seq<Invocation>, i: nat, j: nat)
    requires i < j < |runs| && StoreWorked(s, runs, i) && Outcome(s, runs, j).Ok?
    requires LoadSeenEpoch(StateAfter(s, runs, j).seen, runs[j].disk.loadReadable).Some?
    ensures Outcome(s, runs, i).value.manifest.keyEpoch <= Outcome(s, runs, j).value.manifest.keyEpoch
  {
    hide Fetch;
    StepOf(s, runs, i);
    SeenEpochNeverRegresses(s, runs, i + 1, j);
    AcceptedClearsFloors(StateAfter(s, runs, j), runs[j]);
  }

  /** An unreadable state file takes the run's floor down to the binary's alone. */
  lemma FailedLoadDropsFloor(s: State, run: Invocation)
    requires !run.disk.loadReadable || s.seen.Garbled?
    ensures TryRun(s, run).1 ==
            if run.disk.baseCreatable then Fetch(run.env, s.world, run.req.(seenEpoch := 0)).1 else Err(Io)
  {
    hide Fetch;
  }

  /** A run's floor is the persisted epoch exactly when it could read the file, or nothing was persisted. */
  lemma FloorIsPersistedIff(s: State, run: Invocation)
    ensures Loaded(s.seen, run.disk) == Level(s.seen) <==> run.disk.loadReadable || Level(s.seen) == 0
  {
  }

  // ---- what a run persists, exactly -----------------------------------------------------

  /** The disk and the file let the run read the epoch back and store one. */
  ghost predicate CanStore(s: State, run: Invocation) {
    run.disk.storeReadable && run.disk.storeWritable && !s.seen.Garbled?
  }

  /** An accepted run persists the greater of the persisted and the accepted epoch; otherwise the file stays. */
  lemma PersistsTheGreater(s: State, run: Invocation)
    ensures var (after, got) := TryRun(s, run);
            if got.Ok? && CanStore(s, run) then
              && after.seen.Epoch?
              && (after.seen.n == Level(s.seen) || after.seen.n == got.value.manifest.keyEpoch)
              && after.seen.n >= Level(s.seen) && after.seen.n >= got.value.manifest.keyEpoch
            else after.seen == s.seen
  {
    hide Fetch;
  }

  /** Having stored its epoch, a run that could load the file leaves a floor its own manifest clears. */
  lemma SameManifestAcceptedAgain(s: State, run: Invocation)
    requires TryRun(s, run).1.Ok? && CanStore(s, run) && run.disk.loadReadable
    ensures var (after, got) := TryRun(s, run);
            && after.seen == Epoch(got.value.manifest.keyEpoch)
            && exists body, sig ::
                 && VerifyBundleManifest(run.env.lib, run.req.anchor, body, sig, Loaded(s.seen, run.disk)) == Ok(got.value.manifest)
                 && VerifyBundleManifest(run.env.lib, run.req.anchor, body, sig, Loaded(after.seen, run.disk)) == Ok(got.value.manifest)
  {
    hide Fetch, VerifyBundleManifest;
    var req := run.req.(seenEpoch := Loaded(s.seen, run.disk));
    var b := Fetch(run.env, s.world, req).1.value;
    BundleCacheLaws.ReturnedBundleWasAccepted(run.env, s.world, req, b);
    var body, sig :| VerifyBundleManifest(run.env.lib, req.anchor, body, sig, req.seenEpoch) == Ok(b.manifest);
    AcceptedWhen(run.env.lib, req.anchor, body, sig, req.seenEpoch, b.manifest);
    AcceptedWhen(run.env.lib, req.anchor, body, sig, b.manifest.keyEpoch, b.manifest);
  }

  /** On a host without faults and an honest origin, the run after an accepted one is accepted too. */
  lemma NextRunAccepted(s: State, run: Invocation, body: Bytes, sig: Bytes, m: Manifest, published: string -> Bytes)
    requires BundleCacheLaws.NoFaults(run.env) && run.disk == Disk(true, true, true, true) && !s.seen.Garbled?
    requires BundleCacheLaws.Serves(run.env, run.req.(seenEpoch := Level(s.seen)), body, sig, m)
    requires BundleCacheLaws.Honest(run.env, run.req.originUrl, m.files, published)
    requires BundleCacheLaws.Usable(m.bundleVersion) && BundleCacheLaws.DistinctRoles(m.files)
    ensures TryRun(s, run).1.Ok? && TryRun(TryRun(s, run).0, run).1.Ok?
  {
    hide Fetch, VerifyBundleManifest;
    var req := run.req.(seenEpoch := Level(s.seen));
    BundleCacheLaws.HonestRunSucceeds(run.env, s.world, req, body, sig, m, published);
    var after := TryRun(s, run).0;
    AcceptedWhen(run.env.lib, req.anchor, body, sig, req.seenEpoch, m);
    AcceptedWhen(run.env.lib, req.anchor, body, sig, m.keyEpoch, m);
    PersistsTheGreater(s, run);
    BundleCacheLaws.HonestRunSucceeds(run.env, after.world, run.req.(seenEpoch := m.keyEpoch), body, sig, m, published);
  }
}
