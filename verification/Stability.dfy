/** A clean system stays clean: what the deletion pass leaves alone lines up
    with what drift overlooks, so a converged system matches its declaration,
    under conditions that can be read off the manifest beforehand. */
module Stability {
  import opened Strings
  import opened Manifests
  import opened DiffDrift
  import opened DriftLaws
  import opened Converge

  /** How a describe run looks at a tree. `hidden` are the paths its walk does
      not reach (the syncpoint, keep-listed paths and all below them);
      `pristine` tells which nodes equal their package's baseline. */
  datatype View = View(hidden: Path -> bool, pristine: (Path, Node) -> bool)

  ghost predicate ValidView(view: View, env: Env) {
    && (forall p :: p == SYNCPOINT || p in env.keepList ==> view.hidden(p))
    && (forall p <- env.owner :: env.owner[p] != "")
    && (forall c :: env.sha(c) != "")
  }

  /** Reported: not hidden, and changed from its package or in no package. */
  predicate Visible(p: Path, node: Node, env: Env, view: View) {
    !view.hidden(p) && !(p in env.owner && view.pristine(p, node))
  }

  predicate Records(r: FileRecord, node: Node, env: Env) {
    && r.packageName == (if r.name in env.owner then env.owner[r.name] else "")
    && match node
       case File(c, a) =>
         r.kind == "file" && r.sha256 == env.sha(c) && Attributes(r.mode, r.user, r.group) == a
       case Link(t) => r.kind == "link" && r.target == t
  }

  /** The records, in whatever order, report exactly the visible leaves. */
  ghost predicate DescribesFiles(records: seq<FileRecord>, disk: Disk, env: Env, view: View) {
    && (forall r <- records ::
          r.name in disk && Visible(r.name, disk[r.name], env, view) && Records(r, disk[r.name], env))
    && (forall p <- disk :: Visible(p, disk[p], env, view) ==> p in Names(records, FileName))
  }

  /** Unit files of declarable states are listed, and only those. */
  ghost predicate DescribesUnits(records: seq<ServiceRecord>, units: Units) {
    && (forall r <- records :: r.name in units && units[r.name] == r.state && KnownState(r.state))
    && (forall n <- units :: KnownState(units[n]) ==> n in Names(records, ServiceName))
  }

  // ---- Reading a description -------------------------------------------------------------

  lemma ExtraEmptyIff(records: seq<FileRecord>, disk: Disk, env: Env, view: View, declared: seq<FileRecord>)
    requires DescribesFiles(records, disk, env, view) && ValidView(view, env)
    ensures FilesExtra(records, declared, env.keepList) == []
       <==> (forall p <- disk :: Visible(p, disk[p], env, view) && p !in env.owner ==> p in Names(declared, FileName))
  {
    var names := Names(declared, FileName);
    var extra := (a: FileRecord) => Extra(names, env.keepList, a);
    MapEmptyIff(Filter(records, extra), FileName);
    FilterEmptyIff(records, extra);
    if forall r <- records :: !extra(r) {
      forall p <- disk | Visible(p, disk[p], env, view) && p !in env.owner ensures p in names {
        var r :| r in records && FileName(r) == p;
        assert !extra(r);
      }
    } else {
      var r :| r in records && extra(r);
      assert Visible(r.name, disk[r.name], env, view) && r.name !in env.owner;
    }
  }

  /** A leaf shows what a declared entry asks for. */
  predicate Shows(node: Node, e: FileRecord, env: Env) {
    match node
    case File(c, _) => e.kind == "file" && env.sha(c) == e.sha256
    case Link(t) => e.kind == "link" && t == e.target
  }

  /** What is at the entry's path shows it, or is not reported. */
  predicate ShowsIfSeen(node: Option<Node>, e: FileRecord, env: Env, view: View) {
    node.Some? && Visible(e.name, node.value, env, view) ==> Shows(node.value, e, env)
  }

  predicate Honoured(disk: Disk, e: FileRecord, env: Env, view: View) {
    ShowsIfSeen(At(disk, e.name), e, env, view)
  }

  lemma ModifiedEmptyIff(records: seq<FileRecord>, disk: Disk, env: Env, view: View, declared: seq<FileRecord>)
    requires DescribesFiles(records, disk, env, view)
    ensures FilesModified(records, declared) == [] <==> forall e <- declared :: Honoured(disk, e, env, view)
  {
    hide Visible;
    var byName := ByName(records, FileName);
    var modified := (e: FileRecord) => Modified(byName, e);
    MapEmptyIff(Filter(declared, modified), FileName);
    FilterEmptyIff(declared, modified);
    ByNameElements(records, FileName);
    forall e <- declared ensures modified(e) <==> !Honoured(disk, e, env, view) {
      if e.name in byName {
        assert byName[e.name] in records;
      }
    }
  }

  // ---- The course of an apply ---------------------------------------------------------------

  /** A system before an apply and after its packages step. The package database
      of `env` is the one after that step; `liveOwner` is the one before. */
  datatype Course = Course(
    live: Host,
    liveOwner: map<Path, string>,
    livePristine: (Path, Node) -> bool,
    resolved: Host)

  function LiveEnv(c: Course, env: Env): Env { env.(owner := c.liveOwner) }

  function LiveView(c: Course, view: View): View { view.(pristine := c.livePristine) }

  /** The tree after the files step, and the host after the units step. */
  function FilesStep(c: Course, diff: Diff, env: Env): Outcome<Disk> {
    ConvergedFiles(c.resolved.disk, diff, env)
  }

  function UnitsStep(c: Course, diff: Diff, env: Env): Outcome<Host> {
    ConvergedUnits(Host(FilesStep(c, diff, env).state, c.resolved.units), diff.unitsChange, env)
  }

  // ---- No new extra files ---------------------------------------------------------------------

  /** Not an unowned leaf before the apply, or put back by the units step. */
  predicate Newcomer(p: Path, c: Course, files: Disk) {
    p !in files || p !in c.live.disk || p in c.liveOwner
  }

  /** Every newcomer that is reported as unowned is declared; and if the manifest
      does not manage files, so is whatever else is. */
  predicate NewcomersDeclared(desired: Manifest, c: Course, files: Disk, now: Disk, env: Env, view: View) {
    forall p <- now ::
      (desired.configFiles.None? || Newcomer(p, c, files)) && !view.hidden(p) && p !in env.owner ==>
        p in Names(Elements(desired.configFiles), FileName)
  }

  /** On a system without extra files, an apply leaves none exactly when every
      newcomer is declared. Whatever else is unowned was recorded, and what is
      recorded and declared no longer is deleted: the three exclusions of the
      deletion pass are the three that `files_extra` makes. */
  lemma NoNewExtrasIff(desired: Manifest, applied: Manifest, c: Course, now: Disk, env: Env, view: View,
                       before: seq<FileRecord>, after: seq<FileRecord>)
    requires ValidView(view, env) && ValidView(LiveView(c, view), LiveEnv(c, env))
    requires DescribesFiles(before, c.live.disk, LiveEnv(c, env), LiveView(c, view))
    requires FilesExtra(before, Elements(applied.configFiles), env.keepList) == []
    requires FilesStep(c, IntentDiff(desired, applied), env).Ok() && DescribesFiles(after, now, env, view)
    ensures FilesExtra(after, Elements(desired.configFiles), env.keepList) == []
       <==> NewcomersDeclared(desired, c,
                              FilesStep(c, IntentDiff(desired, applied), env).state, now, env, view)
  {
    hide DescribesFiles, FilesStep, FilesExtra, IntentDiff;
    var files := FilesStep(c, IntentDiff(desired, applied), env).state;
    var declared := Names(Elements(desired.configFiles), FileName);
    ExtraEmptyIff(before, c.live.disk, LiveEnv(c, env), LiveView(c, view), Elements(applied.configFiles));
    ExtraEmptyIff(after, now, env, view, Elements(desired.configFiles));
    forall p <- now
      | !view.hidden(p) && p !in env.owner && !Newcomer(p, c, files) && desired.configFiles.Some?
      ensures p in declared
    {
      assert Visible(p, c.live.disk[p], LiveEnv(c, env), LiveView(c, view));
      StayersDeclared(desired, applied, c, env, p);
    }
  }

  lemma StayersDeclared(desired: Manifest, applied: Manifest, c: Course, env: Env, p: Path)
    requires desired.configFiles.Some? && FilesStep(c, IntentDiff(desired, applied), env).Ok()
    requires p in FilesStep(c, IntentDiff(desired, applied), env).state && !Excluded(p, env)
    requires p in Names(Elements(applied.configFiles), FileName)
    ensures p in Names(Elements(desired.configFiles), FileName)
  {
    hide ConvergedFiles, IntentDiff, Excluded, Deliverable, Removable, Overlay;
    FilesClosedForm(c.resolved.disk, IntentDiff(desired, applied), env);
    DeletedIff(desired, applied, p);
  }

  /** The packages step leaves no unowned leaf that was not one before: it saves
      no old configuration beside the new one, and removes no package that
      leaves files behind. */
  predicate PackagesLeaveNothing(c: Course, env: Env, view: View) {
    forall p <- c.resolved.disk :: !view.hidden(p) && p !in env.owner ==> p in c.live.disk && p !in c.liveOwner
  }

  /** The units step puts no unowned leaf into the tree. */
  predicate UnitsLeaveNothing(files: Disk, now: Disk, env: Env, view: View) {
    forall p <- now :: !view.hidden(p) && p !in env.owner ==> p in files
  }

  /** There are no newcomers where neither step leaves anything and no declared
      file is written through a link. */
  lemma QuietSteps(desired: Manifest, applied: Manifest, c: Course, now: Disk, env: Env, view: View)
    requires desired.configFiles.Some? && FilesStep(c, IntentDiff(desired, applied), env).Ok()
    requires PackagesLeaveNothing(c, env, view)
    requires UnitsLeaveNothing(FilesStep(c, IntentDiff(desired, applied), env).state, now, env, view)
    requires PlainTargets(c.resolved.disk, Elements(desired.configFiles))
    ensures NewcomersDeclared(desired, c,
                              FilesStep(c, IntentDiff(desired, applied), env).state, now, env, view)
  {
    hide ConvergedFiles, IntentDiff, Deliverable, Removable, Excluded, PlainTargets, Overlay;
    var declared := Elements(desired.configFiles);
    var mid, files := c.resolved.disk, FilesStep(c, IntentDiff(desired, applied), env).state;
    WritesAllDeclared(desired, applied);
    FilesClosedForm(mid, IntentDiff(desired, applied), env);
    forall p <- now | Newcomer(p, c, files) && !view.hidden(p) && p !in env.owner
      ensures p in Names(declared, FileName)
    {
      if p !in mid {
        var e := OverlayOf(mid, declared, env, p);
        PlainLanding(mid, declared, e, env);
        assert FileName(e) == p;
      }
    }
  }

  // ---- No file is modified ----------------------------------------------------------------------

  lemma DeclaredNotDoomed(desired: Manifest, applied: Manifest, e: FileRecord, env: Env)
    requires e in Elements(desired.configFiles)
    ensures e.name !in Doomed(IntentDiff(desired, applied).filesDelete, env)
  {
    hide IntentDiff, Excluded;
    DeletedIff(desired, applied, e.name);
    assert FileName(e) in Names(Elements(desired.configFiles), FileName);
  }

  /** What the write loop leaves at a path: what lands there last, or what was
      there. */
  function LeftAt(disk: Disk, files: seq<FileRecord>, env: Env, p: Path): Option<Node> {
    At(disk + Overlay(disk, files, env), p)
  }

  /** Every declared entry will be shown: what the write loop leaves at its path
      does, or, where the units step interferes, what that step leaves. */
  predicate FilesPromised(declared: seq<FileRecord>, c: Course, files: Disk, now: Disk, env: Env, view: View) {
    forall e <- declared ::
      if At(now, e.name) == At(files, e.name) then
        ShowsIfSeen(LeftAt(c.resolved.disk, declared, env, e.name), e, env, view)
      else Honoured(now, e, env, view)
  }

  /** After an apply no declared file counts as modified exactly when every entry
      was promised beforehand. */
  lemma UnmodifiedIff(desired: Manifest, applied: Manifest, c: Course, now: Disk, env: Env, view: View,
                      after: seq<FileRecord>)
    requires FilesStep(c, IntentDiff(desired, applied), env).Ok() && DescribesFiles(after, now, env, view)
    ensures FilesModified(after, Elements(desired.configFiles)) == []
       <==> FilesPromised(Elements(desired.configFiles), c,
                          FilesStep(c, IntentDiff(desired, applied), env).state, now, env, view)
  {
    hide DescribesFiles, Overlay, ConvergedFiles, FilesModified, IntentDiff, ShowsIfSeen, Excluded, Deliverable,
         Removable;
    var declared := Elements(desired.configFiles);
    WritesAllDeclared(desired, applied);
    FilesClosedForm(c.resolved.disk, IntentDiff(desired, applied), env);
    ModifiedEmptyIff(after, now, env, view, declared);
    forall e <- declared
      ensures At(FilesStep(c, IntentDiff(desired, applied), env).state, e.name)
           == LeftAt(c.resolved.disk, declared, env, e.name)
    {
      DeclaredNotDoomed(desired, applied, e, env);
    }
  }

  /** A regular file carries a digest or will not be reported; anything else is
      already in place, for nothing else is delivered. */
  predicate PlainPromise(disk: Disk, e: FileRecord, env: Env, view: View) {
    if e.kind == "file" then e.sha256 != "" || !Visible(e.name, Delivered(disk, e, e.name, env), env, view)
    else Honoured(disk, e, env, view)
  }

  /** Where paths are declared once and are no links, it comes down to that. */
  lemma PlainPromiseIff(disk: Disk, declared: seq<FileRecord>, e: FileRecord, env: Env, view: View)
    requires PlainTargets(disk, declared) && OnePerName(declared, FileName) && e in declared
    requires Deliverable(disk, e, env) && ValidView(view, env)
    ensures ShowsIfSeen(LeftAt(disk, declared, env, e.name), e, env, view) <==> PlainPromise(disk, e, env, view)
  {
    hide Visible, PlainTargets, Nameable, Content;
    var p := e.name;
    if p in Overlay(disk, declared, env) {
      var f := OverlayOf(disk, declared, env, p);
      PlainLanding(disk, declared, f, env);
      assert FileName(f) == FileName(e);
    } else if e.kind == "file" {
      PlainLanding(disk, declared, e, env);
      OverlayHas(disk, declared, env, e, p);
    }
  }

  /** For instance, a file without a digest: whatever its content, it is written
      and then reported as modified. */
  lemma UndigestedFails(e: FileRecord, disk: Disk, env: Env, view: View)
    requires e.kind == "file" && e.sha256 == "" && ValidView(view, env)
    requires !view.hidden(e.name) && e.name !in env.owner && PlainTargets(disk, [e]) && Deliverable(disk, e, env)
    ensures !ShowsIfSeen(LeftAt(disk, [e], env, e.name), e, env, view)
  {
    hide ValidView, LeftAt, ShowsIfSeen;
    assert e in [e];
    PlainPromiseIff(disk, [e], e, env, view);
  }

  /** Or a declared link whose path holds something else. */
  lemma UndeliveredFails(e: FileRecord, disk: Disk, env: Env, view: View)
    requires e.kind == "link" && e.name in disk && disk[e.name] != Link(e.target)
    requires !view.hidden(e.name) && e.name !in env.owner
    ensures !ShowsIfSeen(LeftAt(disk, [e], env, e.name), e, env, view)
  {
    assert Overlay(disk, [e], env) == map[];
    assert disk + map[] == disk;
  }

  /** A declared link is in place after the files step exactly when it was before;
      if it is missing it counts as unmodified all the same. */
  lemma LinkDeliveredIff(desired: Manifest, applied: Manifest, disk: Disk, env: Env, view: View, e: FileRecord)
    requires ConvergedFiles(disk, IntentDiff(desired, applied), env).Ok()
    requires e in Elements(desired.configFiles) && e.kind == "link"
    ensures At(ConvergedFiles(disk, IntentDiff(desired, applied), env).state, e.name) == Some(Link(e.target))
       <==> At(disk, e.name) == Some(Link(e.target))
    ensures e.name !in disk ==> PlainPromise(disk, e, env, view)
  {
    hide ConvergedFiles, IntentDiff, Deliverable, Removable, Excluded, Overlay, Visible;
    WritesAllDeclared(desired, applied);
    FilesClosedForm(disk, IntentDiff(desired, applied), env);
    DeclaredNotDoomed(desired, applied, e, env);
    if e.name in Overlay(disk, Elements(desired.configFiles), env) {
      var f := OverlayOf(disk, Elements(desired.configFiles), env, e.name);
      DestinationIsNoLink(disk, f.name, env, MAX_LINKS);
    }
  }

  /** For instance, a link declared on an empty tree: the step succeeds and
      nothing is there. */
  lemma AbsentLinkStaysAbsent(env: Env)
    ensures var e := FileRecord("/etc/localtime", "link", "", "", "", "", "/usr/share/zoneinfo/UTC", "", "");
            var m := EMPTY_MANIFEST.(configFiles := Some(Scope(map[], [e])));
            ConvergedFiles(map[], IntentDiff(m, EMPTY_MANIFEST), env) == Outcome(map[], Finished)
  {
    var e := FileRecord("/etc/localtime", "link", "", "", "", "", "/usr/share/zoneinfo/UTC", "", "");
    var m := EMPTY_MANIFEST.(configFiles := Some(Scope(map[], [e])));
    var diff := IntentDiff(m, EMPTY_MANIFEST);
    var nothing: Disk := map[];
    assert diff.filesWrite == [e] && diff.filesDelete == [];
    assert WriteFiles(nothing, [e], env) == WriteFile(nothing, e, env);
  }

  /** A nameless entry that is no file is skipped and recorded; the next manifest
      that manages files and does not repeat it crashes on the deletion, though
      it declares nothing at all. */
  lemma DroppedLinkCrashes(disk: Disk, env: Env, sha: string, lock: Scope<PackageRecord>, now: string)
    requires "" !in env.keepList && "" !in env.owner
    ensures var nameless := FileRecord("", "link", "", "", "", "", "", "", "");
            var first := EMPTY_MANIFEST.(configFiles := Some(Scope(map[], [nameless])));
            var second := EMPTY_MANIFEST.(configFiles := Some(Scope(map[], [])));
            && ConvergedFiles(disk, IntentDiff(first, EMPTY_MANIFEST), env) == Outcome(disk, Finished)
            && ConvergedFiles(disk, IntentDiff(second, AppliedRecord(first, sha, lock, now)), env)
               == Outcome(disk, Crashed)
  {
    var nameless := FileRecord("", "link", "", "", "", "", "", "", "");
    var first := EMPTY_MANIFEST.(configFiles := Some(Scope(map[], [nameless])));
    var second := EMPTY_MANIFEST.(configFiles := Some(Scope(map[], [])));
    SkippedAlone(disk, IntentDiff(first, EMPTY_MANIFEST), nameless, env);
    DroppedAlone(first, second, sha, lock, now, nameless);
    CrashAlone(disk, IntentDiff(second, AppliedRecord(first, sha, lock, now)), env);
  }

  lemma SkippedAlone(disk: Disk, diff: Diff, e: FileRecord, env: Env)
    requires diff.filesWrite == [e] && diff.filesDelete == [] && e.kind != "file"
    ensures ConvergedFiles(disk, diff, env) == Outcome(disk, Finished)
  {
    assert WriteFiles(disk, [e], env) == WriteFile(disk, e, env);
  }

  lemma DroppedAlone(first: Manifest, second: Manifest, sha: string, lock: Scope<PackageRecord>, now: string,
                     e: FileRecord)
    requires Elements(first.configFiles) == [e]
    requires second.configFiles.Some? && Elements(second.configFiles) == []
    ensures var diff := IntentDiff(second, AppliedRecord(first, sha, lock, now));
            diff.filesWrite == [] && diff.filesDelete == [e.name]
  {
    var paths := Names([], FileName);
    FilterOne(e, (f: FileRecord) => f.name !in paths);
    MapOne(e, FileName);
  }

  lemma CrashAlone(disk: Disk, diff: Diff, env: Env)
    requires diff.filesWrite == [] && diff.filesDelete == [""]
    requires "" !in env.keepList && "" !in env.owner
    ensures ConvergedFiles(disk, diff, env) == Outcome(disk, Crashed)
  {
    assert !Nameable("") && "" != SYNCPOINT;
    assert DeleteFiles(disk, [""], env) == DeleteFile(disk, "", env);
  }

  // ---- Units stay clean -----------------------------------------------------------------------

  /** The unit is in its declared state, or in none that is reported. */
  predicate UnitShows(state: Option<string>, u: ServiceRecord) {
    state.Some? && KnownState(state.value) ==> state.value == u.state
  }

  lemma UnitsAgreeIff(records: seq<ServiceRecord>, units: Units, declared: seq<ServiceRecord>)
    requires DescribesUnits(records, units)
    ensures UnitsDivergent(records, declared) == [] <==> forall u <- declared :: UnitShows(At(units, u.name), u)
  {
    hide KnownState;
    var states := ByName(records, ServiceName);
    var diverges := (u: ServiceRecord) => UnitDiverges(states, u);
    FilterEmptyIff(declared, diverges);
    ByNameElements(records, ServiceName);
    forall u <- declared ensures diverges(u) <==> !UnitShows(At(units, u.name), u) {
      if u.name in states {
        assert states[u.name] in records;
      }
    }
  }

  /** Every declared unit that is to be changed, or that the packages step or some
      systemctl call changed, ends up in its state, or in none that is reported. */
  predicate UnitsPromised(declared: seq<ServiceRecord>, changes: seq<ServiceRecord>, c: Course, env: Env) {
    forall u <- declared ::
      var state := At(StatesAfter(changes, c.resolved.units, env), u.name);
      u.name in Names(changes, ServiceName) || state != At(c.live.units, u.name) ==> UnitShows(state, u)
  }

  /** On a system whose units match the record, an apply leaves no unit divergent
      exactly when every declared unit was promised. */
  lemma UnitsStayClean(desired: Manifest, applied: Manifest, c: Course, env: Env,
                       before: seq<ServiceRecord>, after: seq<ServiceRecord>)
    requires DescribesUnits(before, c.live.units)
    requires UnitsDivergent(before, Elements(applied.services)) == []
    requires UnitsStep(c, IntentDiff(desired, applied), env).Ok()
    requires DescribesUnits(after, UnitsStep(c, IntentDiff(desired, applied), env).state.units)
    ensures UnitsDivergent(after, Elements(desired.services)) == []
       <==> UnitsPromised(Elements(desired.services), IntentDiff(desired, applied).unitsChange, c, env)
  {
    hide DescribesUnits, UnitsDivergent, ConvergedUnits, StatesAfter, IntentDiff, UnitShows, FilesStep;
    var diff := IntentDiff(desired, applied);
    var declared, recorded := Elements(desired.services), Elements(applied.services);
    UnitsClosedForm(Host(FilesStep(c, diff, env).state, c.resolved.units), diff.unitsChange, env);
    UnitsAgreeIff(before, c.live.units, recorded);
    UnitsAgreeIff(after, UnitsStep(c, diff, env).state.units, declared);
    forall u <- declared
      | u.name !in Names(diff.unitsChange, ServiceName)
        && At(StatesAfter(diff.unitsChange, c.resolved.units, env), u.name) == At(c.live.units, u.name)
      ensures UnitShows(At(c.live.units, u.name), u)
    {
      RecordedUnit(desired, applied, u);
      SameDemand(recorded, c.live.units, u);
    }
  }

  lemma NamedIff(xs: seq<ServiceRecord>, name: string)
    ensures name in Names(xs, ServiceName) <==> exists u <- xs :: u.name == name
  {
    if exists u <- xs :: u.name == name {
      var u :| u in xs && u.name == name;
      assert ServiceName(u) == name;
    } else {
      assert forall u <- xs :: ServiceName(u) == u.name;
    }
  }

  lemma RecordedUnit(desired: Manifest, applied: Manifest, u: ServiceRecord)
    requires u in Elements(desired.services) && u.name !in Names(IntentDiff(desired, applied).unitsChange, ServiceName)
    ensures exists r <- Elements(applied.services) :: r.name == u.name && r.state == u.state
  {
    hide IntentDiff;
    var recorded := Elements(applied.services);
    NamedIff(IntentDiff(desired, applied).unitsChange, u.name);
    UnitSettledIff(desired, applied, u);
    ByNameElements(recorded, ServiceName);
    assert ByName(recorded, ServiceName)[u.name] in recorded;
  }

  lemma SameDemand(recorded: seq<ServiceRecord>, units: Units, u: ServiceRecord)
    requires exists r <- recorded :: r.name == u.name && r.state == u.state
    requires forall r <- recorded :: UnitShows(At(units, r.name), r)
    ensures UnitShows(At(units, u.name), u)
  {
  }

  /** A systemctl that does what it is asked for, and no more. */
  ghost predicate Obedient(env: Env) {
    forall u: ServiceRecord, units :: env.settle(u, units) == units[u.name := u.state]
  }

  lemma {:induction false} NoDemand(changes: seq<ServiceRecord>, name: string, units: Units, env: Env)
    requires Obedient(env) && forall v <- changes :: v.name != name
    ensures At(StatesAfter(changes, units, env), name) == At(units, name)
    decreases |changes|
  {
    hide KnownState;
    if changes != [] {
      assert changes == [changes[0]] + changes[1..];
      NoDemand(changes[1..], name, if KnownState(changes[0].state) then env.settle(changes[0], units) else units, env);
    }
  }

  lemma {:induction false} LastDemand(changes: seq<ServiceRecord>, u: ServiceRecord, units: Units, env: Env)
    requires Obedient(env) && u in changes && forall v <- changes :: v.name == u.name ==> v == u
    ensures At(StatesAfter(changes, units, env), u.name)
         == if KnownState(u.state) then Some(u.state) else At(units, u.name)
    decreases |changes|
  {
    hide KnownState;
    assert changes == [changes[0]] + changes[1..];
    var next := if KnownState(changes[0].state) then env.settle(changes[0], units) else units;
    if u in changes[1..] {
      LastDemand(changes[1..], u, next, env);
    } else {
      NoDemand(changes[1..], u.name, next, env);
    }
  }

  /** With an obedient systemctl and units declared once, the units step is
      promised exactly when every unit it changes asks for a state that can be
      set, or is not reported. */
  lemma PlainUnitsIff(declared: seq<ServiceRecord>, changes: seq<ServiceRecord>, c: Course, env: Env)
    requires Obedient(env) && OnePerName(declared, ServiceName) && c.resolved.units == c.live.units
    requires forall u <- changes :: u in declared
    ensures UnitsPromised(declared, changes, c, env)
       <==> forall u <- changes :: KnownState(u.state) || UnitShows(At(c.live.units, u.name), u)
  {
    hide KnownState, Obedient, StatesAfter;
    forall u <- changes
      ensures At(StatesAfter(changes, c.live.units, env), u.name)
           == if KnownState(u.state) then Some(u.state) else At(c.live.units, u.name)
    {
      forall v <- changes | v.name == u.name ensures v == u {
        assert ServiceName(v) == ServiceName(u);
      }
      LastDemand(changes, u, c.live.units, env);
    }
    forall u <- declared | u.name !in Names(changes, ServiceName)
      ensures At(StatesAfter(changes, c.live.units, env), u.name) == At(c.live.units, u.name)
    {
      NamedIff(changes, u.name);
      NoDemand(changes, u.name, c.live.units, env);
    }
    forall u <- declared | u.name in Names(changes, ServiceName) ensures u in changes {
      var v :| v in changes && ServiceName(v) == u.name;
      assert ServiceName(v) == ServiceName(u);
    }
    forall u <- changes ensures u.name in Names(changes, ServiceName) {
      assert ServiceName(u) in Names(changes, ServiceName);
    }
  }

  // ---- The whole system ----------------------------------------------------------------------

  /** What must hold for an apply to end without drift. */
  predicate Fulfilled(desired: Manifest, applied: Manifest, c: Course, env: Env, view: View) {
    var diff := IntentDiff(desired, applied);
    var files, now := FilesStep(c, diff, env).state, UnitsStep(c, diff, env).state.disk;
    && NewcomersDeclared(desired, c, files, now, env, view)
    && FilesPromised(Elements(desired.configFiles), c, files, now, env, view)
    && UnitsPromised(Elements(desired.services), diff.unitsChange, c, env)
  }

  /** Main result. On a system without extra files and divergent units with
      respect to its record, an apply whose steps succeed ends without any drift
      exactly when

      - every newcomer that is reported as unowned is declared, whether the
        packages step, a write through a link or the units step left it (and
        everything else unowned, if the manifest does not manage files),
      - what lands at each declared path shows the declaration,
      - every declared unit that was touched is in its state,
      - and the resolved packages do not contradict each other. */
  lemma CleanStaysClean(desired: Manifest, applied: Manifest, lock: Scope<PackageRecord>, sha: string, now: string,
                        c: Course, env: Env, view: View, before: Manifest, after: Manifest)
    requires ValidView(view, env) && ValidView(LiveView(c, view), LiveEnv(c, env))
    requires DescribesFiles(Elements(before.configFiles), c.live.disk, LiveEnv(c, env), LiveView(c, view))
    requires DescribesUnits(Elements(before.services), c.live.units)
    requires FilesExtra(Elements(before.configFiles), Elements(applied.configFiles), env.keepList) == []
    requires UnitsDivergent(Elements(before.services), Elements(applied.services)) == []
    requires FilesStep(c, IntentDiff(desired, applied), env).Ok()
    requires UnitsStep(c, IntentDiff(desired, applied), env).Ok()
    requires var end := UnitsStep(c, IntentDiff(desired, applied), env).state;
             && DescribesFiles(Elements(after.configFiles), end.disk, env, view)
             && DescribesUnits(Elements(after.services), end.units)
    requires Elements(after.packages) == lock.elements
    requires after.changedManagedFiles.None? && after.unmanagedFiles.None?
    ensures Drift(after, AppliedRecord(desired, sha, lock, now), env.keepList).Empty()
       <==> Fulfilled(desired, applied, c, env, view) && PackagesConsistent(lock.elements)
  {
    hide DescribesFiles, DescribesUnits, FilesModified, FilesExtra, UnitsDivergent, PackagesDivergent, NotKept,
         FilesStep, UnitsStep, IntentDiff, ValidView, NewcomersDeclared, FilesPromised, UnitsPromised,
         PackagesConsistent;
    var end := UnitsStep(c, IntentDiff(desired, applied), env).state.disk;
    NoNewExtrasIff(desired, applied, c, end, env, view, Elements(before.configFiles), Elements(after.configFiles));
    UnmodifiedIff(desired, applied, c, end, env, view, Elements(after.configFiles));
    UnitsStayClean(desired, applied, c, env, Elements(before.services), Elements(after.services));
    OwnPackagesAgreeIff(lock.elements);
    NotKeptEmptyIff(Elements(after.changedManagedFiles), BaselineName, env.keepList);
    NotKeptEmptyIff(Elements(after.unmanagedFiles), UnmanagedName, env.keepList);
  }

  /** Where nothing interferes, the condition can be read off the manifest: the
      packages and units steps leave nothing unowned and keep away from declared
      paths, paths and units are declared once, no declared path is a link, and
      systemctl obeys. */
  lemma PlainFulfilledIff(desired: Manifest, applied: Manifest, c: Course, env: Env, view: View)
    requires desired.configFiles.Some? && ValidView(view, env) && FilesStep(c, IntentDiff(desired, applied), env).Ok()
    requires PackagesLeaveNothing(c, env, view) && c.resolved.units == c.live.units && Obedient(env)
    requires var diff := IntentDiff(desired, applied);
             var files, now := FilesStep(c, diff, env).state, UnitsStep(c, diff, env).state.disk;
             && UnitsLeaveNothing(files, now, env, view)
             && (forall e <- Elements(desired.configFiles) :: At(now, e.name) == At(files, e.name))
    requires PlainTargets(c.resolved.disk, Elements(desired.configFiles))
    requires OnePerName(Elements(desired.configFiles), FileName) && OnePerName(Elements(desired.services), ServiceName)
    ensures Fulfilled(desired, applied, c, env, view)
       <==> (forall e <- Elements(desired.configFiles) :: PlainPromise(c.resolved.disk, e, env, view))
            && (forall u <- IntentDiff(desired, applied).unitsChange ::
                  KnownState(u.state) || UnitShows(At(c.live.units, u.name), u))
  {
    hide ConvergedFiles, UnitsStep, IntentDiff, ValidView, NewcomersDeclared, PackagesLeaveNothing, UnitsLeaveNothing,
         PlainTargets, OnePerName, PlainPromise, ShowsIfSeen, LeftAt, UnitsPromised, UnitShows, KnownState, Obedient,
         Deliverable, Removable, Excluded, Overlay;
    var diff := IntentDiff(desired, applied);
    QuietSteps(desired, applied, c, UnitsStep(c, diff, env).state.disk, env, view);
    WritesAllDeclared(desired, applied);
    FilesClosedForm(c.resolved.disk, diff, env);
    forall e <- Elements(desired.configFiles)
      ensures ShowsIfSeen(LeftAt(c.resolved.disk, Elements(desired.configFiles), env, e.name), e, env, view)
         <==> PlainPromise(c.resolved.disk, e, env, view)
    {
      PlainPromiseIff(c.resolved.disk, Elements(desired.configFiles), e, env, view);
    }
    ChangesAreDeclared(desired, applied);
    PlainUnitsIff(Elements(desired.services), diff.unitsChange, c, env);
  }

  lemma ChangesAreDeclared(desired: Manifest, applied: Manifest)
    ensures forall u <- IntentDiff(desired, applied).unitsChange :: u in Elements(desired.services)
  {
    var states := ByName(Elements(applied.services), ServiceName);
    forall u <- IntentDiff(desired, applied).unitsChange ensures u in Elements(desired.services) {
      FilterElements(Elements(desired.services), (u: ServiceRecord) => !Settled(states, u), u);
    }
  }

  /** A systemctl that does nothing to the tree but put a unit's links into it. */
  ghost predicate Linking(env: Env, links: ServiceRecord -> Disk) {
    forall u: ServiceRecord, disk :: env.place(u, disk) == disk + links(u)
  }

  lemma {:induction false} LinksAdded(changes: seq<ServiceRecord>, disk: Disk, env: Env,
                                      links: ServiceRecord -> Disk, p: Path)
    requires Linking(env, links)
    ensures p in DiskAfter(changes, disk, env)
       <==> p in disk || exists u <- changes :: KnownState(u.state) && p in links(u)
    decreases |changes|
  {
    hide KnownState;
    if changes != [] {
      var u := changes[0];
      assert changes == [u] + changes[1..];
      LinksAdded(changes[1..], if KnownState(u.state) then env.place(u, disk) else disk, env, links, p);
    }
  }

  /** With such a systemctl the units step leaves no undeclared newcomer exactly
      when every link of a unit to change is declared, kept, owned or there
      already, which can be told beforehand. */
  lemma LinksDeclaredIff(desired: Manifest, applied: Manifest, c: Course, env: Env, view: View,
                         links: ServiceRecord -> Disk)
    requires desired.configFiles.Some? && Linking(env, links) && PackagesLeaveNothing(c, env, view)
    requires FilesStep(c, IntentDiff(desired, applied), env).Ok()
    requires UnitsStep(c, IntentDiff(desired, applied), env).Ok()
    requires PlainTargets(c.resolved.disk, Elements(desired.configFiles))
    ensures var diff := IntentDiff(desired, applied);
            var files := FilesStep(c, diff, env).state;
            (NewcomersDeclared(desired, c, files, UnitsStep(c, diff, env).state.disk, env, view)
             <==> forall u <- diff.unitsChange | KnownState(u.state) :: forall p <- links(u) ::
                    p in files || view.hidden(p) || p in env.owner
                    || p in Names(Elements(desired.configFiles), FileName))
  {
    assert forall d: Disk :: UnitsLeaveNothing(d, d, env, view);
    hide FilesStep, ConvergedUnits, IntentDiff, PackagesLeaveNothing, PlainTargets, KnownState, DiskAfter;
    var diff := IntentDiff(desired, applied);
    var files, now := FilesStep(c, diff, env).state, UnitsStep(c, diff, env).state.disk;
    UnitsClosedForm(Host(files, c.resolved.units), diff.unitsChange, env);
    forall p ensures p in now <==> p in files || exists u <- diff.unitsChange :: KnownState(u.state) && p in links(u) {
      LinksAdded(diff.unitsChange, files, env, links, p);
    }
    QuietSteps(desired, applied, c, files, env, view);
  }

  /** A unit whose enablement puts an undeclared, unowned leaf into the tree
      spoils the apply, whatever else is declared. */
  lemma StrayLinkSpoils(desired: Manifest, applied: Manifest, c: Course, env: Env, view: View, p: Path)
    requires var diff := IntentDiff(desired, applied);
             p !in FilesStep(c, diff, env).state && p in UnitsStep(c, diff, env).state.disk
    requires !view.hidden(p) && p !in env.owner && p !in Names(Elements(desired.configFiles), FileName)
    ensures !Fulfilled(desired, applied, c, env, view)
  {
    hide FilesStep, UnitsStep, IntentDiff;
  }

  const WANTS_SSHD: Path := "/etc/systemd/system/multi-user.target.wants/sshd.service"

  /** For instance, on an empty tree, a manifest that enables sshd and declares no
      file: systemctl links the unit below /etc, and the link is extra. */
  lemma EnablingSpoils(env: Env, view: View)
    requires env.refused == {} && WANTS_SSHD !in env.owner && !view.hidden(WANTS_SSHD)
    requires forall u, disk :: env.place(u, disk) == disk[WANTS_SSHD := Link("/usr/lib/systemd/system/sshd.service")]
    ensures var sshd := ServiceRecord("sshd.service", "enabled");
            var m := EMPTY_MANIFEST.(services := Some(Scope(map[], [sshd])), configFiles := Some(Scope(map[], [])));
            var c := Course(Host(map[], map["sshd.service" := "disabled"]), map[], view.pristine,
                            Host(map[], map["sshd.service" := "disabled"]));
            && FilesStep(c, IntentDiff(m, EMPTY_MANIFEST), env).Ok()
            && UnitsStep(c, IntentDiff(m, EMPTY_MANIFEST), env).Ok()
            && !Fulfilled(m, EMPTY_MANIFEST, c, env, view)
  {
    hide Fulfilled;
    var sshd := ServiceRecord("sshd.service", "enabled");
    var m := EMPTY_MANIFEST.(services := Some(Scope(map[], [sshd])), configFiles := Some(Scope(map[], [])));
    var h := Host(map[], map["sshd.service" := "disabled"]);
    var c := Course(h, map[], view.pristine, h);
    var diff := IntentDiff(m, EMPTY_MANIFEST);
    assert [sshd][1..] == [];
    var states := ByName([], ServiceName);
    FilterOne(sshd, (u: ServiceRecord) => !Settled(states, u));
    assert diff.unitsChange == [sshd];
    assert diff.filesWrite == [] && diff.filesDelete == [];
    assert ConvergedUnits(h, [sshd], env) == SetUnit(h, sshd, env);
    StrayLinkSpoils(m, EMPTY_MANIFEST, c, env, view, WANTS_SSHD);
  }

  /** Leaving the files scope out does not take files out of the comparison: a
      reported file in no package is extra with respect to such a manifest. */
  lemma UnmanagedFilesStillExtraIff(records: seq<FileRecord>, disk: Disk, env: Env, view: View, reference: Manifest)
    requires DescribesFiles(records, disk, env, view) && ValidView(view, env)
    requires reference.configFiles.None?
    ensures FilesExtra(records, Elements(reference.configFiles), env.keepList) == []
       <==> forall p <- disk :: Visible(p, disk[p], env, view) ==> p in env.owner
  {
    hide DescribesFiles, Visible, FilesExtra, ValidView;
    ExtraEmptyIff(records, disk, env, view, []);
  }

  /** For instance, one local file and the empty manifest. */
  lemma LocalFileStillExtra()
    ensures var motd := FileRecord("/etc/motd", "file", "0644", "root", "root", "ab12", "", "", "");
            FilesExtra([motd], Elements(EMPTY_MANIFEST.configFiles), {}) == ["/etc/motd"]
  {
    var motd := FileRecord("/etc/motd", "file", "0644", "root", "root", "ab12", "", "", "");
    assert motd.name[5] == 'm' && SYNCPOINT[5] == 'e';
    var declared := Names([], FileName);
    FilterOne(motd, (a: FileRecord) => Extra(declared, {}, a));
    MapOne(motd, FileName);
  }

  // ---- Applying twice ---------------------------------------------------------------------------

  /** Converging a manifest over its own record, on whatever tree: the declared
      files are written once more, nothing is deleted, no unit is changed. */
  lemma ApplyAgainIff(m: Manifest, record: Manifest, disk: Disk, units: Units, env: Env)
    requires record.configFiles == m.configFiles && record.services == m.services
    requires UnitsConsistent(Elements(m.services))
    ensures var again, files := IntentDiff(m, record), Elements(m.configFiles);
            && (ConvergedFiles(disk, again, env) == Outcome(disk, Finished)
                <==> (forall e <- files :: Deliverable(disk, e, env)) && disk + Overlay(disk, files, env) == disk)
            && ConvergedUnits(Host(disk, units), again.unitsChange, env) == Outcome(Host(disk, units), Finished)
  {
    hide ConvergedFiles, IntentDiff, Overlay, Deliverable, UnitsConsistent, Excluded, Removable;
    var again := IntentDiff(m, record);
    WritesAllDeclared(m, record);
    assert again.filesDelete == [] by {
      if again.filesDelete != [] {
        DeletedIff(m, record, again.filesDelete[0]);
      }
    }
    assert Doomed([], env) == {};
    FilesClosedForm(disk, again, env);
    var written := disk + Overlay(disk, Elements(m.configFiles), env);
    assert written - {} == written;
    OwnUnitsSettledIff(Elements(m.services));
    assert again.unitsChange == [] by { UnitsOfOwnRecord(m, record); }
  }

  lemma UnitsOfOwnRecord(m: Manifest, record: Manifest)
    requires record.services == m.services
    ensures IntentDiff(m, record).unitsChange == UnitsToChange(Elements(m.services), Elements(m.services))
  {
  }

  /** Between two trees, every declared file keeps its place and what is there. */
  ghost predicate Undisturbed(declared: seq<FileRecord>, a: Disk, b: Disk, env: Env) {
    forall e <- declared | e.kind == "file" ::
      var d := Destination(a, e.name, env, MAX_LINKS);
      Destination(b, e.name, env, MAX_LINKS) == d && (d.Inside? ==> At(a, d.path) == At(b, d.path))
  }

  /** A second apply of the same manifest over its own record, in the same
      surroundings, succeeds and changes neither files nor units, as long as the
      deletions and the units step of the first left alone what was written. */
  lemma ApplyTwice(m: Manifest, applied: Manifest, lock: Scope<PackageRecord>, sha: string, now: string,
                   disk: Disk, end: Host, env: Env)
    requires UnitsConsistent(Elements(m.services))
    requires ConvergedFiles(disk, IntentDiff(m, applied), env).Ok()
    requires Undisturbed(Elements(m.configFiles), disk + Overlay(disk, Elements(m.configFiles), env), end.disk, env)
    ensures var again := IntentDiff(m, AppliedRecord(m, sha, lock, now));
            && ConvergedFiles(end.disk, again, env) == Outcome(end.disk, Finished)
            && ConvergedUnits(end, again.unitsChange, env) == Outcome(end, Finished)
  {
    hide ConvergedFiles, IntentDiff, Overlay, Deliverable, UnitsConsistent, Excluded, Removable, Undisturbed;
    var files := Elements(m.configFiles);
    WritesAllDeclared(m, applied);
    FilesClosedForm(disk, IntentDiff(m, applied), env);
    WrittenOnce(disk, files, env);
    StillWritten(disk + Overlay(disk, files, env), end.disk, files, env);
    ApplyAgainIff(m, AppliedRecord(m, sha, lock, now), end.disk, end.units, env);
  }

  /** The declared files are on disk as they would be written. */
  ghost predicate Written(disk: Disk, files: seq<FileRecord>, env: Env) {
    (forall e <- files :: Deliverable(disk, e, env)) && disk + Overlay(disk, files, env) == disk
  }

  lemma WrittenOnce(disk: Disk, files: seq<FileRecord>, env: Env)
    requires forall e <- files :: Deliverable(disk, e, env)
    ensures Written(disk + Overlay(disk, files, env), files, env)
  {
    hide Overlay, Deliverable, SameShape;
    var o := Overlay(disk, files, env);
    WritesClosedForm(disk, files, env);
    OverlayStands(disk, disk + o, files, env);
    assert disk + o + o == disk + o;
  }

  lemma EntryUndisturbed(a: Disk, b: Disk, files: seq<FileRecord>, e: FileRecord, env: Env)
    requires Undisturbed(files, a, b, env) && e in files
    ensures OverlayOne(a, e, env) == OverlayOne(b, e, env)
  {
    hide Destination, Content;
  }

  lemma DeliverableUndisturbed(a: Disk, b: Disk, files: seq<FileRecord>, e: FileRecord, env: Env)
    requires Undisturbed(files, a, b, env) && e in files
    ensures Deliverable(a, e, env) == Deliverable(b, e, env)
    ensures Landing(a, e, env).Some? ==> At(a, Landing(a, e, env).value) == At(b, Landing(a, e, env).value)
  {
    hide Destination, Content, Nameable;
  }

  lemma {:induction false} OverlayUndisturbed(a: Disk, b: Disk, files: seq<FileRecord>, env: Env, n: nat)
    requires Undisturbed(files, a, b, env) && n <= |files|
    ensures Overlay(a, files[n..], env) == Overlay(b, files[n..], env)
    decreases |files| - n
  {
    hide OverlayOne, Undisturbed;
    if n < |files| {
      assert files[n..][1..] == files[n + 1..];
      OverlayUndisturbed(a, b, files, env, n + 1);
      EntryUndisturbed(a, b, files, files[n], env);
    }
  }

  lemma StillWritten(a: Disk, b: Disk, files: seq<FileRecord>, env: Env)
    requires Written(a, files, env) && Undisturbed(files, a, b, env)
    ensures Written(b, files, env)
  {
    hide Landing, Overlay, Delivered, Deliverable, Undisturbed;
    var o := Overlay(a, files, env);
    OverlayUndisturbed(a, b, files, env, 0);
    assert files[0..] == files;
    forall e <- files ensures Deliverable(b, e, env) {
      DeliverableUndisturbed(a, b, files, e, env);
    }
    forall p <- o ensures p in b && b[p] == o[p] {
      var e := OverlayOf(a, files, env, p);
      DeliverableUndisturbed(a, b, files, e, env);
      assert (a + o)[p] == o[p];
    }
    assert b + o == b;
  }
}
