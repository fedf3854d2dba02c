/** Generations: every run of applies and rollbacks. A generation carries its
    own tree and its own record, so a rollback brings both back together, and
    the fate of a path can be told from the manifests of its lineage alone. */
module Ledger {
  import opened Strings
  import opened Manifests
  import opened DiffDrift
  import opened DriftLaws
  import opened Converge

  /** One successful apply: the manifest, what zypper resolved, and the hosts
      before the files step and after the units step. At paths that are not
      `touched`, neither zypper nor systemctl changes the tree. */
  datatype ApplyEvent = ApplyEvent(
    desired: Manifest,
    sha: string,
    lock: Scope<PackageRecord>,
    now: string,
    env: Env,
    touched: set<Path>,
    resolved: Host,
    end: Host)

  datatype Event = Applied(e: ApplyEvent) | RolledBack(target: nat)

  /** `lineage` lists the applies that led here from the first generation. */
  datatype Generation = Generation(disk: Disk, record: Manifest, lineage: seq<ApplyEvent>)

  datatype State = State(generations: seq<Generation>, current: nat)

  ghost predicate CanApply(g: Generation, e: ApplyEvent) {
    var diff := IntentDiff(e.desired, g.record);
    var files := ConvergedFiles(e.resolved.disk, diff, e.env);
    && files.Ok()
    && ConvergedUnits(Host(files.state, e.resolved.units), diff.unitsChange, e.env) == Outcome(e.end, Finished)
    && forall p :: p !in e.touched ==>
         At(e.resolved.disk, p) == At(g.disk, p) && At(e.end.disk, p) == At(files.state, p)
  }

  function Successor(g: Generation, e: ApplyEvent): Generation {
    Generation(e.end.disk, AppliedRecord(e.desired, e.sha, e.lock, e.now), g.lineage + [e])
  }

  ghost predicate Step(s: State, ev: Event, t: State) {
    && s.current < |s.generations|
    && match ev
       case Applied(e) =>
         && CanApply(s.generations[s.current], e)
         && t == State(s.generations + [Successor(s.generations[s.current], e)], |s.generations|)
       case RolledBack(k) =>
         k < |s.generations| && t == s.(current := k)
  }

  /** The first generation has a tree and no record. */
  function Start(disk: Disk): State {
    State([Generation(disk, EMPTY_MANIFEST, [])], 0)
  }

  ghost predicate Run(start: State, events: seq<Event>, end: State)
    decreases |events|, 0
  {
    if events == [] then start == end
    else RunThenStep(start, events[..|events| - 1], events[|events| - 1], end)
  }

  ghost predicate RunThenStep(start: State, events: seq<Event>, ev: Event, end: State)
    decreases |events|, 1
  {
    exists mid :: Run(start, events, mid) && Step(mid, ev, end)
  }

  // ---- The fate of a path, told by manifests ---------------------------------------------

  predicate Declares(e: ApplyEvent, p: Path) {
    p in Names(Elements(e.desired.configFiles), FileName)
  }

  predicate Manages(e: ApplyEvent) {
    e.desired.configFiles.Some?
  }

  /** Whether the path is on record, and what is there. */
  datatype Fate = Fate(recorded: bool, node: Option<Node>)

  /** What the files step writes at the path, directly or through a link. */
  function WrittenAt(e: ApplyEvent, p: Path): Option<Node> {
    At(Overlay(e.resolved.disk, Elements(e.desired.configFiles), e.env), p)
  }

  function FateStep(f: Fate, e: ApplyEvent, p: Path): Fate {
    var kept := if WrittenAt(e, p).Some? then WrittenAt(e, p) else f.node;
    if p in e.touched then Fate(Declares(e, p), At(e.end.disk, p))
    else if Declares(e, p) then Fate(true, kept)
    else if Manages(e) && f.recorded && !Excluded(p, e.env) then Fate(false, None)
    else Fate(false, kept)
  }

  function FateOf(lineage: seq<ApplyEvent>, p: Path, initial: Option<Node>): Fate {
    if lineage == [] then Fate(false, initial)
    else FateStep(FateOf(lineage[..|lineage| - 1], p, initial), lineage[|lineage| - 1], p)
  }

  /** The generation's record and tree say what its lineage foretells. */
  ghost predicate Faithful(g: Generation, disk: Disk) {
    && g.record == (if g.lineage == [] then EMPTY_MANIFEST
                    else var e := g.lineage[|g.lineage| - 1]; AppliedRecord(e.desired, e.sha, e.lock, e.now))
    && forall p :: FateOf(g.lineage, p, At(disk, p))
                == Fate(p in Names(Elements(g.record.configFiles), FileName), At(g.disk, p))
  }

  lemma SuccessorFaithful(g: Generation, e: ApplyEvent, disk: Disk)
    requires Faithful(g, disk) && CanApply(g, e)
    ensures Faithful(Successor(g, e), disk)
  {
    hide ConvergedFiles, ConvergedUnits, IntentDiff, Overlay, Deliverable, Removable, Excluded;
    var h := Successor(g, e);
    var diff := IntentDiff(e.desired, g.record);
    assert h.lineage[..|h.lineage| - 1] == g.lineage;
    WritesAllDeclared(e.desired, g.record);
    FilesClosedForm(e.resolved.disk, diff, e.env);
    forall p ensures FateOf(h.lineage, p, At(disk, p))
                  == Fate(p in Names(Elements(h.record.configFiles), FileName), At(h.disk, p))
    {
      DeletedIff(e.desired, g.record, p);
      assert FateOf(g.lineage, p, At(disk, p))
          == Fate(p in Names(Elements(g.record.configFiles), FileName), At(g.disk, p));
    }
  }

  ghost predicate Sound(s: State, disk: Disk) {
    && s.current < |s.generations|
    && forall g <- s.generations :: Faithful(g, disk)
  }

  /** Main result. In every run of applies and rollbacks every generation holds
      the record of the manifest last applied there, and at every path exactly
      what the manifests of its own lineage foretell. */
  lemma {:induction false} EveryRunIsFaithful(disk: Disk, events: seq<Event>, end: State)
    requires Run(Start(disk), events, end)
    ensures Sound(end, disk)
  {
    hide Faithful, CanApply, Successor;
    if events == [] {
      StartFaithful(disk);
    } else {
      var mid :| Run(Start(disk), events[..|events| - 1], mid) && Step(mid, events[|events| - 1], end);
      EveryRunIsFaithful(disk, events[..|events| - 1], mid);
      match events[|events| - 1]
      case Applied(e) =>
        assert mid.generations[mid.current] in mid.generations;
        SuccessorFaithful(mid.generations[mid.current], e, disk);
      case RolledBack(_) =>
    }
  }

  lemma StartFaithful(disk: Disk)
    ensures Faithful(Generation(disk, EMPTY_MANIFEST, []), disk)
  {
  }

  // ---- What it means for the administrator ------------------------------------------------

  /** Neither zypper nor systemctl touches the path, and the files step writes
      there only if it is declared. */
  predicate Spared(e: ApplyEvent, p: Path) {
    p !in e.touched && (WrittenAt(e, p).Some? ==> Declares(e, p))
  }

  /** No manifest names the path, and nothing else gets at it. */
  ghost predicate LeftAlone(lineage: seq<ApplyEvent>, p: Path) {
    forall e <- lineage :: !Declares(e, p) && Spared(e, p)
  }

  lemma {:induction false} LeftAloneKeeps(before: seq<ApplyEvent>, rest: seq<ApplyEvent>,
                                          p: Path, initial: Option<Node>)
    requires LeftAlone(rest, p) && !FateOf(before, p, initial).recorded
    ensures FateOf(before + rest, p, initial) == FateOf(before, p, initial)
  {
    hide WrittenAt;
    if rest == [] {
      assert before + rest == before;
    } else {
      var n := |rest| - 1;
      assert (before + rest)[..|before + rest| - 1] == before + rest[..n];
      assert rest == rest[..n] + [rest[n]] && rest[n] in rest;
      LeftAloneKeeps(before, rest[..n], p, initial);
    }
  }

  /** In every run, a path that no manifest of a generation's lineage ever
      declared is there as it was in the beginning. */
  lemma UndeclaredUnchanged(disk: Disk, events: seq<Event>, end: State, g: Generation, p: Path)
    requires Run(Start(disk), events, end) && g in end.generations && LeftAlone(g.lineage, p)
    ensures At(g.disk, p) == At(disk, p)
  {
    hide Run;
    EveryRunIsFaithful(disk, events, end);
    LeftAloneKeeps([], g.lineage, p, At(disk, p));
    assert [] + g.lineage == g.lineage;
    assert Faithful(g, disk);
    assert FateOf(g.lineage, p, At(disk, p)).node == At(g.disk, p);
  }

  /** A path that was declared and is declared no longer. The first manifest
      without it decides: the path goes if that manifest manages files and the
      path is not excluded, and otherwise it stays for good as it was, for the
      record has forgotten it. */
  lemma DroppedPath(before: seq<ApplyEvent>, last: ApplyEvent, drop: ApplyEvent, rest: seq<ApplyEvent>,
                    g: Generation, disk: Disk, p: Path)
    requires Faithful(g, disk) && g.lineage == before + [last] + [drop] + rest
    requires Declares(last, p) && LeftAlone([drop] + rest, p)
    ensures var kept := FateOf(before + [last], p, At(disk, p)).node;
            At(g.disk, p)
            == if Manages(drop) && p != SYNCPOINT && p !in drop.env.keepList && p !in drop.env.owner then None else kept
  {
    hide WrittenAt;
    var upTo := before + [last] + [drop];
    assert (before + [last])[..|before|] == before;
    assert upTo[..|upTo| - 1] == before + [last];
    assert drop in [drop] + rest;
    assert LeftAlone(rest, p) by {
      forall e <- rest ensures e in [drop] + rest {}
    }
    LeftAloneKeeps(upTo, rest, p, At(disk, p));
  }

  /** For instance, a manifest that declares a file, one without a files scope,
      and one that manages files and declares none: the file is still there. */
  lemma ForgottenFileStays(declares: ApplyEvent, silent: ApplyEvent, empty: ApplyEvent,
                           g: Generation, disk: Disk, p: Path, node: Node)
    requires Faithful(g, disk) && g.lineage == [declares, silent, empty]
    requires Declares(declares, p) && p !in declares.touched && WrittenAt(declares, p) == Some(node)
    requires silent.desired == EMPTY_MANIFEST && p !in silent.touched
    requires empty.desired == EMPTY_MANIFEST.(configFiles := Some(Scope(map[], []))) && p !in empty.touched
    requires !Excluded(p, silent.env) && !Excluded(p, empty.env)
    ensures p in g.disk && g.disk[p] == node
  {
    assert [] + [declares] + [silent] + [empty] == g.lineage;
    assert ([] + [declares])[..0] == [];
    DroppedPath([], declares, silent, [empty], g, disk, p);
  }

  // That input, from the first generation on.

  const MOTD: Path := "/etc/motd"

  function Declaring(files: seq<FileRecord>): Manifest {
    EMPTY_MANIFEST.(configFiles := Some(Scope(map[], files)))
  }

  const MOTD_DECLARED := Declaring([FileRecord(MOTD, "file", "", "", "", "", "", "", "")])

  /** An apply in which only the files step changes the tree. */
  function FilesOnly(g: Generation, desired: Manifest, env: Env): ApplyEvent {
    ApplyEvent(desired, "", Scope(map[], []), "", env, {}, Host(g.disk, map[]),
               Host(ConvergedFiles(g.disk, IntentDiff(desired, g.record), env).state, map[]))
  }

  lemma FilesOnlyApplies(g: Generation, desired: Manifest, env: Env)
    requires desired.services.None? && ConvergedFiles(g.disk, IntentDiff(desired, g.record), env).Ok()
    ensures CanApply(g, FilesOnly(g, desired, env))
  {
  }

  lemma RunExtends(start: State, events: seq<Event>, mid: State, ev: Event, end: State)
    requires Run(start, events, mid) && Step(mid, ev, end)
    ensures Run(start, events + [ev], end)
  {
    var es := events + [ev];
    assert es[..|es| - 1] == events && es[|es| - 1] == ev;
  }

  /** A run that declares a file, says nothing about files, and declares none:
      three applies, after which the file is still there. */
  lemma ForgottenFileReached(env: Env)
    requires env.blocked == {} && env.blobs == None
    ensures exists events: seq<Event>, end ::
      && Run(Start(map[]), events, end) && |events| == 3
      && events[0].Applied? && events[0].e.desired == MOTD_DECLARED
      && events[1].Applied? && events[1].e.desired == EMPTY_MANIFEST
      && events[2].Applied? && events[2].e.desired == Declaring([])
      && end.current < |end.generations| && MOTD in end.generations[end.current].disk
  {
    hide CanApply, ConvergedFiles, IntentDiff;
    var g0 := Generation(map[], EMPTY_MANIFEST, []);
    var s0 := Start(map[]);
    var node := File("", env.created(MOTD));
    var e1 := FilesOnly(g0, MOTD_DECLARED, env);
    DeclareMotd(env);
    FilesOnlyApplies(g0, MOTD_DECLARED, env);
    var g1 := Successor(g0, e1);
    var s1 := State([g0, g1], 1);
    assert s0.generations + [g1] == [g0, g1];
    assert Run(s0, [], s0);
    RunExtends(s0, [], s0, Applied(e1), s1);
    var e2 := FilesOnly(g1, EMPTY_MANIFEST, env);
    NothingDone(g1.disk, EMPTY_MANIFEST, g1.record, env);
    FilesOnlyApplies(g1, EMPTY_MANIFEST, env);
    var g2 := Successor(g1, e2);
    var s2 := State([g0, g1, g2], 2);
    assert s1.generations + [g2] == [g0, g1, g2];
    RunExtends(s0, [] + [Applied(e1)], s1, Applied(e2), s2);
    var e3 := FilesOnly(g2, Declaring([]), env);
    NothingDone(g2.disk, Declaring([]), g2.record, env);
    FilesOnlyApplies(g2, Declaring([]), env);
    var g3 := Successor(g2, e3);
    var s3 := State([g0, g1, g2, g3], 3);
    assert s2.generations + [g3] == [g0, g1, g2, g3];
    RunExtends(s0, [] + [Applied(e1)] + [Applied(e2)], s2, Applied(e3), s3);
    assert s3.generations[s3.current].disk == map[MOTD := node];
  }

  lemma DeclareMotd(env: Env)
    requires env.blocked == {} && env.blobs == None
    ensures ConvergedFiles(map[], IntentDiff(MOTD_DECLARED, EMPTY_MANIFEST), env)
         == Outcome(map[MOTD := File("", env.created(MOTD))], Finished)
  {
    var e := FileRecord(MOTD, "file", "", "", "", "", "", "", "");
    var nothing: Disk := map[];
    var diff := IntentDiff(MOTD_DECLARED, EMPTY_MANIFEST);
    assert diff.filesWrite == [e] && diff.filesDelete == [];
    assert MOTD[1] != '/';
    assert Destination(nothing, MOTD, env, MAX_LINKS) == Inside(MOTD);
    assert WriteFiles(nothing, [e], env) == WriteFile(nothing, e, env);
  }

  /** A manifest without files does nothing over a record without files, nor if
      it does not manage them. */
  lemma NothingDone(disk: Disk, desired: Manifest, record: Manifest, env: Env)
    requires Elements(desired.configFiles) == []
    requires desired.configFiles.None? || Elements(record.configFiles) == []
    ensures ConvergedFiles(disk, IntentDiff(desired, record), env) == Outcome(disk, Finished)
  {
    var diff := IntentDiff(desired, record);
    assert diff.filesWrite == [] && diff.filesDelete == [];
  }

  /** The last thing that was written at the path, or what was there in the
      beginning. */
  function LastWritten(lineage: seq<ApplyEvent>, p: Path, initial: Option<Node>): Option<Node> {
    if lineage == [] then initial
    else
      var n := |lineage| - 1;
      if WrittenAt(lineage[n], p).Some? then WrittenAt(lineage[n], p) else LastWritten(lineage[..n], p, initial)
  }

  /** The syncpoint, or a path that is keep-listed or owned by a package: then it
      is so throughout, and otherwise never. */
  ghost predicate StandsExcluded(lineage: seq<ApplyEvent>, p: Path, excluded: bool) {
    forall e <- lineage :: excluded <==> p == SYNCPOINT || p in e.env.keepList || p in e.env.owner
  }

  lemma FateStepCases(f: Fate, e: ApplyEvent, p: Path)
    requires Manages(e) && Spared(e, p)
    ensures FateStep(f, e, p).recorded == Declares(e, p)
    ensures !Declares(e, p) && !(p == SYNCPOINT || p in e.env.keepList || p in e.env.owner) ==>
      FateStep(f, e, p).node == if f.recorded then None else f.node
    ensures p == SYNCPOINT || p in e.env.keepList || p in e.env.owner ==>
      FateStep(f, e, p).node == if WrittenAt(e, p).Some? then WrittenAt(e, p) else f.node
  {
    hide WrittenAt;
  }

  lemma {:induction false} ExcludedKeepsWritten(lineage: seq<ApplyEvent>, p: Path, initial: Option<Node>)
    requires StandsExcluded(lineage, p, true) && forall e <- lineage :: Manages(e) && Spared(e, p)
    ensures FateOf(lineage, p, initial).node == LastWritten(lineage, p, initial)
  {
    hide FateStep, Manages, Spared, WrittenAt;
    if lineage != [] {
      var n := |lineage| - 1;
      assert lineage == lineage[..n] + [lineage[n]] && lineage[n] in lineage;
      ExcludedKeepsWritten(lineage[..n], p, initial);
      FateStepCases(FateOf(lineage[..n], p, initial), lineage[n], p);
    }
  }

  /** As long as every manifest manages files and exclusions stand still, a path
      once declared and no longer declared is gone, unless it is the syncpoint,
      keep-listed or owned by a package; then it holds what was last written. */
  lemma {:induction false} DroppedIsGone(lineage: seq<ApplyEvent>, p: Path, initial: Option<Node>, excluded: bool)
    requires lineage != [] && !Declares(lineage[|lineage| - 1], p)
    requires exists e <- lineage :: Declares(e, p)
    requires StandsExcluded(lineage, p, excluded) && forall e <- lineage :: Manages(e) && Spared(e, p)
    ensures FateOf(lineage, p, initial) == Fate(false, if excluded then LastWritten(lineage, p, initial) else None)
  {
    hide FateStep, Declares, Manages, Spared, LastWritten;
    var n := |lineage| - 1;
    var front := lineage[..n];
    assert lineage == front + [lineage[n]] && lineage[n] in lineage;
    var e :| e in lineage && Declares(e, p);
    assert e in front;
    FateStepCases(FateOf(front, p, initial), lineage[n], p);
    assert front[n - 1] in lineage;
    if excluded {
      ExcludedKeepsWritten(lineage, p, initial);
    } else if Declares(front[n - 1], p) {
      FateStepCases(FateOf(front[..n - 1], p, initial), front[n - 1], p);
    } else {
      DroppedIsGone(front, p, initial, excluded);
    }
  }

  /** The same, said of every generation of every run: what was declared once and
      is declared no longer is still there exactly when it is excluded (and was
      there or written at all). */
  lemma LedgerSafety(disk: Disk, events: seq<Event>, end: State, g: Generation, p: Path, excluded: bool)
    requires Run(Start(disk), events, end) && g in end.generations
    requires g.lineage != [] && !Declares(g.lineage[|g.lineage| - 1], p)
    requires exists e <- g.lineage :: Declares(e, p)
    requires StandsExcluded(g.lineage, p, excluded) && forall e <- g.lineage :: Manages(e) && Spared(e, p)
    ensures At(g.disk, p) == if excluded then LastWritten(g.lineage, p, At(disk, p)) else None
  {
    hide Run, StandsExcluded, Declares, Spared, LastWritten;
    EveryRunIsFaithful(disk, events, end);
    DroppedIsGone(g.lineage, p, At(disk, p), excluded);
    assert Faithful(g, disk);
    assert FateOf(g.lineage, p, At(disk, p)).node == At(g.disk, p);
  }

  /** No run rewrites a generation. */
  lemma {:induction false} GenerationsArePermanent(start: State, events: seq<Event>, end: State)
    requires Run(start, events, end)
    ensures start.generations <= end.generations
  {
    if events != [] {
      var mid :| Run(start, events[..|events| - 1], mid) && Step(mid, events[|events| - 1], end);
      GenerationsArePermanent(start, events[..|events| - 1], mid);
    }
  }

  /** A rollback to a generation, whatever was applied and rolled back since,
      makes its tree and its record current again, and the next intent diff is
      taken against that record. */
  lemma RollbackRestores(start: State, events: seq<Event>, k: nat, end: State, next: ApplyEvent, after: State)
    requires k < |start.generations| && Run(start, events + [RolledBack(k)], end)
    ensures end.current < |end.generations| && end.generations[end.current] == start.generations[k]
    ensures Step(end, Applied(next), after) ==>
      && CanApply(start.generations[k], next)
      && after.generations[after.current] == Successor(start.generations[k], next)
  {
    hide CanApply, Successor;
    var es := events + [RolledBack(k)];
    assert es[..|es| - 1] == events;
    var mid :| Run(start, events, mid) && Step(mid, RolledBack(k), end);
    GenerationsArePermanent(start, events, mid);
  }
}
