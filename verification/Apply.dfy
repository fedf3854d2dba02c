/** The apply and init verbs: a fixed order of steps, any of which may fail, in
    front of a seal that makes the new generation the one to boot. */
module Apply {
  import opened Strings
  import opened Manifests
  import opened DiffDrift
  import opened DriftLaws
  import opened Converge
  import opened Stability

  datatype Mode = Auto | External | Internal

  datatype Loaded =
    | Desired(manifest: Manifest, sha: string)
    | LoadError(domain: string)
    | LoadCrash

  /** What zypper resolves, and the tree and unit states it leaves. */
  datatype Packages = Packages(lock: Scope<PackageRecord>, host: Host)

  /** How a run ends: with an exit code, or by an exception nothing catches. */
  datatype Exit = Code(code: int) | Abort

  datatype Opening = Stop(exit: Exit) | Go(diff: Diff)

  /** Everything one run asks of its surroundings.
      `inTransaction`: an outer transaction is open; `snapper`: one can be
      opened; `desired`: the manifest or why it did not load; `applied`: the
      record of the current generation (all scopes absent if there is none), or
      none if it cannot be read, and then `recordThrows` tells whether reading
      it fails with an error or throws;
      `live` and `describe`: the state of the running system and of a converged
      tree, or none if that cannot be told, and then `liveThrows` and
      `describeThrows` are like `recordThrows`; `packages`: what the packages
      step brings; `recordWritable`: the record's file can be written; `stampable`: the
      snapshot can be marked with the manifest's digest. */
  datatype World = World(
    mode: Mode,
    inTransaction: bool,
    snapper: bool,
    desired: Loaded,
    applied: Option<Manifest>,
    recordThrows: bool,
    live: Option<Manifest>,
    liveThrows: bool,
    packages: Option<Packages>,
    env: Env,
    describe: (Host, Scope<PackageRecord>) -> Option<Manifest>,
    describeThrows: bool,
    recordWritable: bool,
    stampable: bool,
    outWritable: bool,
    sealable: bool,
    now: string)

  /** A transaction is there to use: the outer one, or one opened here. */
  predicate Acquirable(w: World) {
    if w.mode == External || (w.mode == Auto && w.inTransaction) then w.inTransaction else w.snapper
  }

  /** An outer transaction is demanded, and there is none. */
  predicate Refused(w: World) {
    w.mode == External && !w.inTransaction
  }

  predicate OpensHere(w: World) {
    w.mode == Internal || (w.mode == Auto && !w.inTransaction)
  }

  datatype Step = Acquired | PackagesDone | FilesDone | UnitsDone | RecordWritten | Verified | ManifestWritten | Sealed

  const APPLY_STEPS: seq<Step> := [Acquired, PackagesDone, FilesDone, UnitsDone, RecordWritten, Verified, Sealed]
  const INIT_STEPS: seq<Step> := [Acquired, RecordWritten, ManifestWritten, Sealed]

  // ---- What a run amounts to --------------------------------------------------------------

  /** Both diffs are empty: the manifest asks for nothing and nothing drifted. */
  predicate NothingToDo(w: World)
    requires w.desired.Desired? && w.applied.Some?
  {
    && IntentDiff(w.desired.manifest, w.applied.value).Empty()
    && w.live.Some?
    && Drift(w.live.value, w.desired.manifest, w.env.keepList).Empty()
  }

  /** The manifest and the record are readable, and so is the live state when
      only that can tell whether there is anything to do. */
  predicate Readable(w: World) {
    && w.desired.Desired? && w.applied.Some?
    && (IntentDiff(w.desired.manifest, w.applied.value).Empty() ==> w.live.Some?)
  }

  const NO_DIFF := Diff([], [], [], [], [], [])
  const NO_DRIFT := DriftReport([], [], [], [], [], [])

  /** The intent diff, if manifest and record are there to compare. */
  function DiffOf(w: World): (d: Option<Diff>)
    ensures d.Some? <==> w.desired.Desired? && w.applied.Some?
  {
    if w.desired.Desired? && w.applied.Some? then Some(IntentDiff(w.desired.manifest, w.applied.value)) else None
  }

  /** The tree after the files step, and the host after the units step, when
      packages resolved. */
  function FilesAfter(w: World): Outcome<Disk>
    requires Readable(w) && w.packages.Some?
  {
    ConvergedFiles(w.packages.value.host.disk, IntentDiff(w.desired.manifest, w.applied.value), w.env)
  }

  function UnitsAfter(w: World): Outcome<Host>
    requires Readable(w) && w.packages.Some?
  {
    ConvergedUnits(Host(FilesAfter(w).state, w.packages.value.host.units),
                   IntentDiff(w.desired.manifest, w.applied.value).unitsChange, w.env)
  }

  function RecordOf(w: World): Manifest
    requires Readable(w) && w.packages.Some?
  {
    AppliedRecord(w.desired.manifest, w.desired.sha, w.packages.value.lock, w.now)
  }

  /** Packages, files and units succeed. */
  predicate UpToUnits(w: World)
    requires Readable(w)
  {
    w.packages.Some? && FilesAfter(w).Ok() && UnitsAfter(w).Ok()
  }

  /** What the description step reports of the converged tree. */
  function FinalState(w: World): Option<Manifest>
    requires Readable(w) && w.packages.Some?
  {
    w.describe(UnitsAfter(w).state, w.packages.value.lock)
  }

  /** Every step up to the seal succeeds. */
  predicate Completes(w: World)
    requires Readable(w)
  {
    && Acquirable(w)
    && UpToUnits(w)
    && w.recordWritable && w.stampable
    && Verifies(w, FinalState(w))
    && w.sealable
  }

  /** There is something to do, and every step of it succeeds. */
  predicate Seals(w: World)
    requires Readable(w)
  {
    !NothingToDo(w) && Completes(w)
  }

  /** The run crashes once it is under way: it gets to the files step and there to
      a name that holds nothing but slashes, or to a description that throws. */
  predicate Crashes(w: World)
    requires Readable(w)
  {
    && Acquirable(w) && w.packages.Some?
    && (|| GetsStuck(w.packages.value.host.disk, IntentDiff(w.desired.manifest, w.applied.value), w.env)
        || (UpToUnits(w) && DescribeCrashes(w, UnitsAfter(w).state)))
  }

  /** The description of this host throws. */
  predicate DescribeCrashes(w: World, h: Host)
    requires w.packages.Some?
  {
    w.recordWritable && w.stampable && w.describe(h, w.packages.value.lock).None? && w.describeThrows
  }

  /** How far a run inside the transaction got. */
  predicate Progress(w: World, log: seq<Step>)
    requires Readable(w)
  {
    && (|log| >= 2 <==> w.packages.Some?)
    && (|log| >= 3 <==> w.packages.Some? && FilesAfter(w).Ok())
    && (|log| >= 4 <==> UpToUnits(w))
    && (|log| >= 5 <==> UpToUnits(w) && w.recordWritable && w.stampable)
    && (|log| >= 6 <==> UpToUnits(w) && w.recordWritable && w.stampable && Verifies(w, FinalState(w)))
  }

  /** Reading the manifest, the record or the running system throws. */
  predicate ReadingThrows(w: World) {
    || w.desired.LoadCrash?
    || (w.desired.Desired? && w.applied.None? && w.recordThrows)
    || (w.desired.Desired? && w.applied.Some? && !Readable(w) && w.liveThrows)
  }

  /** The converged tree shows no drift against the record just written. */
  predicate Verifies(w: World, seen: Option<Manifest>)
    requires Readable(w) && w.packages.Some?
  {
    seen.Some? && Drift(seen.value, RecordOf(w), w.env.keepList).Empty()
  }

  lemma RecordStandsForDesired(w: World, seen: Manifest)
    requires Readable(w) && w.packages.Some?
    ensures Drift(seen, w.desired.manifest.(packages := Some(w.packages.value.lock)), w.env.keepList)
         == Drift(seen, RecordOf(w), w.env.keepList)
  {
  }

  class Run {
    const tree: Tree
    var record: Option<Manifest>
    var log: seq<Step>
    var snapshots: nat
    var message: string

    constructor (tree: Tree)
      ensures this.tree == tree && record == None && log == [] && snapshots == 0
    {
      this.tree := tree;
      record, log, snapshots, message := None, [], 0, "";
    }

    method Acquire(w: World) returns (ok: bool)
      modifies this`snapshots
      ensures ok == Acquirable(w)
      ensures snapshots == old(snapshots) + if ok && OpensHere(w) then 1 else 0
      // An outer transaction is used if there is one, unless a snapshot of its own is asked for.
      ensures ok == match w.mode
                    case External => w.inTransaction
                    case Internal => w.snapper
                    case Auto => w.inTransaction || w.snapper
      ensures snapshots == old(snapshots)
                           + if ok && (w.mode == Internal || (w.mode == Auto && !w.inTransaction)) then 1 else 0
    {
      var resolved := w.mode;
      if w.mode == Auto {
        resolved := if w.inTransaction then External else Internal;
      }
      if resolved == External {
        return w.inTransaction;
      }
      if w.snapper {
        snapshots := snapshots + 1;
        return true;
      }
      return false;
    }

    /** One apply. */
    method Apply(w: World) returns (exit: Exit)
      requires log == []
      modifies this, tree
      // Steps happen in one order; the log is how far the run came.
      ensures log <= APPLY_STEPS
      // Sealing is the last step of a run in which every other step succeeded.
      ensures Sealed in log <==> Readable(w) && Seals(w)
      ensures Sealed in log ==>
        && exit == Code(0) && log == APPLY_STEPS
        && Host(tree.disk, tree.units) == UnitsAfter(w).state && record == Some(RecordOf(w))
      // The only other success takes no step, so it changes nothing and opens nothing.
      ensures exit == Code(0) && Sealed !in log <==> Readable(w) && NothingToDo(w) && !Refused(w)
      ensures message == "nothing to do" <==> Readable(w) && NothingToDo(w) && !Refused(w)
      ensures log != [] <==> Readable(w) && !NothingToDo(w) && !Refused(w) && Acquirable(w)
      ensures log == [] ==> tree.disk == old(tree.disk) && tree.units == old(tree.units) && record == old(record)
      ensures snapshots == old(snapshots) + if log != [] && OpensHere(w) then 1 else 0
      // Each step is logged exactly when it and all before it succeeded.
      ensures log != [] ==> Progress(w, log)
      // The record is replaced only once packages, files and units all succeeded.
      ensures record == old(record)
        || (|log| >= 4 && Readable(w) && UpToUnits(w) && record == Some(RecordOf(w)))
      // The exit codes of failure: 2 for what precedes the transaction.
      ensures exit == Code(2) <==>
        || Refused(w)
        || w.desired == LoadError("invocation")
        || (Readable(w) && !NothingToDo(w) && !Acquirable(w))
      ensures exit == Abort <==> !Refused(w) && (ReadingThrows(w) || (Readable(w) && !NothingToDo(w) && Crashes(w)))
      ensures exit == Abort || exit == Code(0) || exit == Code(1) || exit == Code(2)
    {
      hide ConvergedFiles, ConvergedUnits, AppliedRecord, IntentDiff, Verifies, GetsStuck, NothingToDo;
      var opening := Prepare(w);
      match opening {
        case Stop(code) =>
          return code;
        case Go(d) =>
          var acquired := Acquire(w);
          if !acquired {
            return Code(2);
          }
          log := [Acquired];
          exit := Carry(w, d);
      }
    }

    /** All that precedes the transaction: it stops the run, or lets it go on with
        the intent diff. */
    method Prepare(w: World) returns (opening: Opening)
      modifies this`message, this`snapshots
      ensures snapshots == old(snapshots)
      ensures opening.Go? <==> Readable(w) && !NothingToDo(w) && !Refused(w)
      ensures opening.Go? ==> opening.diff == IntentDiff(w.desired.manifest, w.applied.value)
      ensures opening == Stop(Code(0)) <==> Readable(w) && NothingToDo(w) && !Refused(w)
      ensures message == "nothing to do" <==> opening == Stop(Code(0))
      ensures opening == Stop(Code(2)) <==> Refused(w) || w.desired == LoadError("invocation")
      ensures opening == Stop(Abort) <==> !Refused(w) && ReadingThrows(w)
      ensures opening.Stop? ==> opening.exit in {Abort, Code(0), Code(1), Code(2)}
      // In the terms of the inputs, one exit after the other.
      ensures opening == Stop(Code(2)) <==>
        || (w.mode == External && !w.inTransaction)
        || w.desired == LoadError("invocation")
      ensures opening == Stop(Abort) <==>
        && !(w.mode == External && !w.inTransaction)
        && (|| w.desired.LoadCrash?
            || (w.desired.Desired? && w.applied.None? && w.recordThrows)
            || (DiffOf(w) == Some(NO_DIFF) && w.live.None? && w.liveThrows))
      ensures opening == Stop(Code(0)) <==>
        && !(w.mode == External && !w.inTransaction)
        && DiffOf(w) == Some(NO_DIFF) && w.live.Some?
        && Drift(w.live.value, w.desired.manifest, w.env.keepList) == NO_DRIFT
      ensures opening.Go? <==>
        && !(w.mode == External && !w.inTransaction) && DiffOf(w).Some?
        && (|| DiffOf(w) != Some(NO_DIFF)
            || (w.live.Some? && Drift(w.live.value, w.desired.manifest, w.env.keepList) != NO_DRIFT))
      ensures opening.Go? ==> DiffOf(w) == Some(opening.diff)
    {
      hide IntentDiff, Drift;
      message := "";
      if w.mode == External {
        var early := Acquire(w);
        if !early {
          return Stop(Code(2));
        }
      }
      match w.desired {
        case LoadError(domain) =>
          return Stop(Code(if domain == "invocation" then 2 else 1));
        case LoadCrash =>
          return Stop(Abort);
        case Desired(desired, _) =>
          if w.applied.None? {
            return Stop(if w.recordThrows then Abort else Code(1));
          }
          var d := ComputeIntentDiff(desired, w.applied.value);
          if d.Empty() {
            if w.live.None? {
              return Stop(if w.liveThrows then Abort else Code(1));
            }
            var drift := ComputeDrift(w.live.value, desired, w.env.keepList);
            if drift.Empty() {
              message := "nothing to do";
              return Stop(Code(0));
            }
          }
          return Go(d);
      }
    }

    /** The steps inside the transaction. */
    method Carry(w: World, d: Diff) returns (exit: Exit)
      requires log == [Acquired] && Readable(w) && Acquirable(w)
      requires d == IntentDiff(w.desired.manifest, w.applied.value)
      modifies this`log, this`record, tree
      ensures [Acquired] <= log <= APPLY_STEPS
      ensures Sealed in log <==> Completes(w)
      ensures exit == if Crashes(w) then Abort else if Sealed in log then Code(0) else Code(1)
      ensures Sealed in log ==> !Crashes(w) && log == APPLY_STEPS && Host(tree.disk, tree.units) == UnitsAfter(w).state
      ensures Progress(w, log)
      ensures record == if UpToUnits(w) && w.recordWritable then Some(RecordOf(w)) else old(record)
      // Files are converged on the tree that zypper leaves, and units on what the files step leaves.
      ensures w.packages.Some? ==>
        var host := w.packages.value.host;
        var files := ConvergedFiles(host.disk, d, w.env);
        && (|log| >= 3 <==> files.end == Finished)
        && (|log| >= 4 <==> files.end == Finished
                            && ConvergedUnits(Host(files.state, host.units), d.unitsChange, w.env).end == Finished)
        && (files.end == Crashed ==> exit == Abort)
    {
      hide IntentDiff, ConvergedFiles, ConvergedUnits, Verifies, AppliedRecord, GetsStuck, DescribeCrashes, Drift;
      if w.packages.None? {
        return Code(1);
      }
      tree.disk, tree.units := w.packages.value.host.disk, w.packages.value.host.units;
      Done(PackagesDone, 1);
      FilesCrashIff(tree.disk, d, w.env);
      var filesEnd := tree.ConvergeFiles(d, w.env);
      if filesEnd != Finished {
        return if filesEnd == Crashed then Abort else Code(1);
      }
      Done(FilesDone, 2);
      var unitsEnd := tree.ConvergeUnits(d.unitsChange, w.env);
      if unitsEnd != Finished {
        return Code(1);
      }
      Done(UnitsDone, 3);
      exit := Conclude(w);
    }

    /** Record, verify, seal. */
    method Conclude(w: World) returns (exit: Exit)
      requires log == APPLY_STEPS[..4] && Readable(w) && w.packages.Some?
      modifies this`log, this`record
      ensures log <= APPLY_STEPS && |log| >= 4
      ensures Sealed in log <==>
        && w.recordWritable && w.stampable
        && Verifies(w, w.describe(Host(tree.disk, tree.units), w.packages.value.lock)) && w.sealable
      ensures exit
           == if DescribeCrashes(w, Host(tree.disk, tree.units)) then Abort
              else if Sealed in log then Code(0) else Code(1)
      ensures Sealed in log ==> log == APPLY_STEPS && !DescribeCrashes(w, Host(tree.disk, tree.units))
      ensures |log| >= 5 <==> w.recordWritable && w.stampable
      ensures |log| >= 6 <==>
        && w.recordWritable && w.stampable
        && Verifies(w, w.describe(Host(tree.disk, tree.units), w.packages.value.lock))
      ensures record == if w.recordWritable then Some(RecordOf(w)) else old(record)
      // The description is held against what was desired, with the resolved packages.
      ensures var seen := w.describe(Host(tree.disk, tree.units), w.packages.value.lock);
              var expected := w.desired.manifest.(packages := Some(w.packages.value.lock));
              && (|log| >= 6 <==> (w.recordWritable && w.stampable && seen.Some?
                                   && Drift(seen.value, expected, w.env.keepList) == NO_DRIFT))
              && (Sealed in log <==> |log| >= 6 && w.sealable)
              && (exit == Abort <==> w.recordWritable && w.stampable && seen.None? && w.describeThrows)
      ensures w.recordWritable ==>
        record == Some(AppliedRecord(w.desired.manifest, w.desired.sha, w.packages.value.lock, w.now))
    {
      hide IntentDiff, Drift, AppliedRecord;
      var desired, lock := w.desired.manifest, w.packages.value.lock;
      if !w.recordWritable {
        return Code(1);
      }
      record := Some(AppliedRecord(desired, w.desired.sha, lock, w.now));
      if !w.stampable {
        return Code(1);
      }
      Done(RecordWritten, 4);
      var seen := w.describe(Host(tree.disk, tree.units), lock);
      if seen.None? {
        return if w.describeThrows then Abort else Code(1);
      }
      var expected := desired.(packages := Some(lock));
      var drift := ComputeDrift(seen.value, expected, w.env.keepList);
      RecordStandsForDesired(w, seen.value);
      if !drift.Empty() {
        return Code(1);
      }
      Done(Verified, 5);
      if !w.sealable {
        return Code(1);
      }
      Done(Sealed, 6);
      return Code(0);
    }

    /** Logs the step that comes next. */
    method Done(step: Step, ghost n: nat)
      requires n < |APPLY_STEPS| && log == APPLY_STEPS[..n] && step == APPLY_STEPS[n]
      modifies this`log
      ensures log == APPLY_STEPS[..n + 1]
      ensures Sealed in log <==> n + 1 == |APPLY_STEPS|
    {
      log := log + [step];
    }

    /** Adopting the running system: its description becomes its own record, and
        nothing is converged. */
    method Init(w: World, sha: string) returns (exit: Exit)
      requires log == []
      modifies this
      ensures log <= INIT_STEPS
      ensures tree.disk == old(tree.disk) && tree.units == old(tree.units)
      ensures log != [] <==> w.live.Some? && Acquirable(w)
      ensures snapshots == old(snapshots) + if log != [] && OpensHere(w) then 1 else 0
      ensures Sealed in log <==>
        w.live.Some? && Acquirable(w) && w.recordWritable && w.stampable && w.outWritable && w.sealable
      ensures Sealed in log <==> exit == Code(0)
      ensures record == if w.live.Some? && Acquirable(w) && w.recordWritable
                        then Some(AppliedRecord(w.live.value, sha, InitLock(w.live.value), w.now)) else old(record)
      ensures exit == Code(2) <==>
        w.live.Some? && (!Acquirable(w) || (w.recordWritable && w.stampable && !w.outWritable))
      ensures exit == Abort <==> w.live.None? && w.liveThrows
      ensures exit == Abort || exit == Code(0) || exit == Code(1) || exit == Code(2)
    {
      if w.live.None? {
        return if w.liveThrows then Abort else Code(1);
      }
      var adopted := w.live.value;
      var acquired := Acquire(w);
      if !acquired {
        return Code(2);
      }
      log := [Acquired];
      var resolved := Scope(map["package_system" := "rpm"], []);
      if adopted.packages.Some? {
        resolved := adopted.packages.value;
      }
      if !w.recordWritable {
        return Code(1);
      }
      record := Some(AppliedRecord(adopted, sha, resolved, w.now));
      if !w.stampable {
        return Code(1);
      }
      log := log + [RecordWritten];
      if !w.outWritable {
        return Code(2);
      }
      log := log + [ManifestWritten];
      if !w.sealable {
        return Code(1);
      }
      log := log + [Sealed];
      return Code(0);
    }
  }

  // ---- Apply on a clean system ----------------------------------------------------------------

  /** What does not depend on the manifest goes well. */
  predicate Cooperates(w: World)
    requires Readable(w)
  {
    Acquirable(w) && UpToUnits(w) && w.recordWritable && w.stampable && FinalState(w).Some? && w.sealable
  }

  /** The description tells the files, units and packages of a host. */
  ghost predicate Tells(m: Manifest, h: Host, lock: Scope<PackageRecord>, env: Env, view: View) {
    && DescribesFiles(Elements(m.configFiles), h.disk, env, view)
    && DescribesUnits(Elements(m.services), h.units)
    && Elements(m.packages) == lock.elements
    && m.changedManagedFiles.None? && m.unmanagedFiles.None?
  }

  /** The course that an apply takes from a live system. */
  function CourseOf(w: World, live: Host, liveOwner: map<Path, string>, livePristine: (Path, Node) -> bool): Course
    requires w.packages.Some?
  {
    Course(live, liveOwner, livePristine, w.packages.value.host)
  }

  /** End to end: on a system without extra files and divergent units, apply
      seals exactly when package manager, file system, systemctl and snapper
      cooperate, the manifest is fulfilled by what the steps leave, and no
      package is installed in contradictory builds. The description has to be
      right about two trees only, the live one and the converged one. */
  lemma CleanApplySealsIff(w: World, live: Host, liveOwner: map<Path, string>, livePristine: (Path, Node) -> bool,
                           view: View, before: Manifest)
    requires Readable(w)
    requires ValidView(view, w.env) && ValidView(view.(pristine := livePristine), w.env.(owner := liveOwner))
    requires DescribesFiles(Elements(before.configFiles), live.disk,
                            w.env.(owner := liveOwner), view.(pristine := livePristine))
    requires DescribesUnits(Elements(before.services), live.units)
    requires FilesExtra(Elements(before.configFiles), Elements(w.applied.value.configFiles), w.env.keepList) == []
    requires UnitsDivergent(Elements(before.services), Elements(w.applied.value.services)) == []
    requires Cooperates(w) ==> Tells(FinalState(w).value, UnitsAfter(w).state, w.packages.value.lock, w.env, view)
    ensures Seals(w)
       <==> !NothingToDo(w) && Cooperates(w)
            && Fulfilled(w.desired.manifest, w.applied.value, CourseOf(w, live, liveOwner, livePristine), w.env, view)
            && PackagesConsistent(w.packages.value.lock.elements)
  {
    hide DescribesFiles, DescribesUnits, ConvergedFiles, ConvergedUnits, IntentDiff, ValidView, Fulfilled,
         PackagesConsistent, FilesModified, FilesExtra, UnitsDivergent, PackagesDivergent, NotKept, Acquirable,
         NothingToDo;
    if Cooperates(w) {
      CleanStaysClean(w.desired.manifest, w.applied.value, w.packages.value.lock, w.desired.sha, w.now,
                      CourseOf(w, live, liveOwner, livePristine), w.env, view, before, FinalState(w).value);
    }
  }

  /** On such a system a leaf that the units step adds, that no package owns and
      that is neither declared nor kept, keeps apply from sealing. */
  lemma StrayLinkStopsSeal(w: World, live: Host, liveOwner: map<Path, string>, livePristine: (Path, Node) -> bool,
                           view: View, before: Manifest, p: Path)
    requires Readable(w)
    requires ValidView(view, w.env) && ValidView(view.(pristine := livePristine), w.env.(owner := liveOwner))
    requires DescribesFiles(Elements(before.configFiles), live.disk,
                            w.env.(owner := liveOwner), view.(pristine := livePristine))
    requires DescribesUnits(Elements(before.services), live.units)
    requires FilesExtra(Elements(before.configFiles), Elements(w.applied.value.configFiles), w.env.keepList) == []
    requires UnitsDivergent(Elements(before.services), Elements(w.applied.value.services)) == []
    requires w.packages.Some? && p !in FilesAfter(w).state && p in UnitsAfter(w).state.disk
    requires Cooperates(w) ==> Tells(FinalState(w).value, UnitsAfter(w).state, w.packages.value.lock, w.env, view)
    requires !view.hidden(p) && p !in w.env.owner && p !in Names(Elements(w.desired.manifest.configFiles), FileName)
    ensures !Seals(w)
  {
    hide DescribesFiles, DescribesUnits, ConvergedFiles, ConvergedUnits, IntentDiff, ValidView, Fulfilled,
         PackagesConsistent, FilesExtra, UnitsDivergent, Acquirable, Tells, Cooperates, Completes, NothingToDo;
    CleanApplySealsIff(w, live, liveOwner, livePristine, view, before);
    StrayLinkSpoils(w.desired.manifest, w.applied.value, CourseOf(w, live, liveOwner, livePristine), w.env, view, p);
  }

  /** A second apply of the manifest that was just sealed, on the tree as it was
      verified, finds nothing to do exactly when the manifest lists no package,
      repository or file and asks for no removal. Drift never stands in the way. */
  lemma SecondApplyIsNoOpIff(w: World, again: World)
    requires Readable(w) && Completes(w) && again.desired == w.desired && again.applied == Some(RecordOf(w))
    requires again.live == FinalState(w) && again.env.keepList == w.env.keepList
    ensures NothingToDo(again)
       <==> (var m := w.desired.manifest;
             && Elements(m.packages) == [] && Elements(m.repositories) == [] && Elements(m.configFiles) == []
             && (m.packages.Some? ==> w.packages.value.lock.elements == [])
             && UnitsConsistent(Elements(m.services)))
  {
    hide ConvergedFiles, ConvergedUnits, IntentDiff, FilesModified, FilesExtra, UnitsDivergent, NotKept,
         UnitsConsistent, Acquirable;
    ReapplyEmptyIff(w.desired.manifest, w.desired.sha, w.packages.value.lock, w.now);
    if Elements(w.desired.manifest.packages) == [] {
      assert PackagesDivergent(Elements(FinalState(w).value.packages), []) == [];
    }
  }
}
