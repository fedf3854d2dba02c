/** From the tree to the seal: an apply whose descriptions come from walking
    /etc, before and after. */
module Sealing {
  import opened Strings
  import opened Manifests
  import opened DiffDrift
  import opened DriftLaws
  import opened Converge
  import opened Stability
  import opened Apply
  import opened EtcWalk
  import opened Description
  import L = Ledger

  const ETC: Path := "/etc"

  /** A tree as the walk finds it, and the package database beside it. */
  datatype Survey = Survey(listing: Listing, system: System)

  /** The survey is of this tree, in a world with these owners. */
  ghost predicate Surveys(v: Survey, disk: Disk, env: Env) {
    PlainNames(v.listing) && Flattens(ETC, v.listing, disk) && Agrees(v.system, env)
  }

  /** The files scope of the manifest holds the records of a walk. */
  ghost predicate FromWalk(m: Manifest, v: Survey, env: Env) {
    Walked(Elements(m.configFiles), ETC, v.listing, JudgeWith(v.system, env.sha), env.keepList)
  }

  ghost function Pristine(v: Survey, env: Env): (Path, Node) -> bool {
    ViewOf(ETC, v.system, env).pristine
  }

  ghost predicate Sane(env: Env, liveOwner: map<Path, string>) {
    && (forall p <- env.owner :: env.owner[p] != "") && (forall p <- liveOwner :: liveOwner[p] != "")
    && (forall c :: env.sha(c) != "")
  }

  /** Main result. Let both descriptions, of the live system and of the converged
      tree, be the records of a walk over /etc. If the live one shows no extra
      file and no divergent unit, apply seals exactly when the tools cooperate,
      what the steps leave fulfils the manifest, and the lock does not
      contradict itself. */
  lemma WalkedApplySealsIff(w: World, live: Host, liveOwner: map<Path, string>, before: Manifest,
                            first: Survey, last: Survey)
    requires Readable(w) && Sane(w.env, liveOwner)
    requires Surveys(first, live.disk, w.env.(owner := liveOwner)) && FromWalk(before, first, w.env)
    requires DescribesUnits(Elements(before.services), live.units)
    requires Drift(before, w.applied.value, w.env.keepList).Empty()
    requires Cooperates(w) ==>
      var seen := FinalState(w).value;
      && Surveys(last, UnitsAfter(w).state.disk, w.env) && FromWalk(seen, last, w.env)
      && DescribesUnits(Elements(seen.services), UnitsAfter(w).state.units)
      && Elements(seen.packages) == w.packages.value.lock.elements
      && seen.changedManagedFiles.None? && seen.unmanagedFiles.None?
    ensures Seals(w)
       <==> !NothingToDo(w) && Cooperates(w)
            && Fulfilled(w.desired.manifest, w.applied.value,
                         CourseOf(w, live, liveOwner, Pristine(first, w.env)), w.env, ViewOf(ETC, last.system, w.env))
            && PackagesConsistent(w.packages.value.lock.elements)
  {
    hide DescribesFiles, DescribesUnits, ConvergedFiles, ConvergedUnits, IntentDiff, Fulfilled, PackagesConsistent,
         FilesModified, FilesExtra, UnitsDivergent, PackagesDivergent, NotKept, Acquirable, Completes, NothingToDo,
         Walked, Flattens, PlainNames, Agrees, AccountedFor, ValidView;
    var view, liveEnv := ViewOf(ETC, last.system, w.env), w.env.(owner := liveOwner);
    LiveWalkDescribes(w.env, live.disk, liveOwner, before, first, last);
    KeptIsHidden(ETC, last.system, w.env);
    if Cooperates(w) {
      WalkDescribes(ETC, last.listing, UnitsAfter(w).state.disk, Elements(FinalState(w).value.configFiles),
                    last.system, w.env);
    }
    CleanApplySealsIff(w, live, liveOwner, Pristine(first, w.env), view, before);
  }

  /** What the walk leaves out depends on the keep-list alone, so the view of the
      live tree differs from the later one in its package database only. */
  lemma LiveWalkDescribes(env: Env, disk: Disk, liveOwner: map<Path, string>, before: Manifest,
                          first: Survey, last: Survey)
    requires Sane(env, liveOwner) && Surveys(first, disk, env.(owner := liveOwner)) && FromWalk(before, first, env)
    ensures var liveEnv := env.(owner := liveOwner);
            var liveView := ViewOf(ETC, last.system, env).(pristine := Pristine(first, env));
            ValidView(liveView, liveEnv) && DescribesFiles(Elements(before.configFiles), disk, liveEnv, liveView)
  {
    hide DescribesFiles, Walked, Flattens, PlainNames, Agrees, AccountedFor, ValidView, HiddenFrom;
    var liveEnv := env.(owner := liveOwner);
    assert ViewOf(ETC, first.system, liveEnv) == ViewOf(ETC, last.system, env).(pristine := Pristine(first, env));
    WalkDescribes(ETC, first.listing, disk, Elements(before.configFiles), first.system, liveEnv);
    KeptIsHidden(ETC, first.system, liveEnv);
  }

  /** Nothing but the declared changes happens: no step leaves anything unowned
      or gets at declared paths, no declared path is a link, paths and units are
      declared once, systemctl obeys, and the lock is resolved. */
  ghost predicate Plain(w: World, c: Course, view: View)
    requires Readable(w) && w.packages.Some?
  {
    var m := w.desired.manifest;
    && m.configFiles.Some?
    && PackagesLeaveNothing(c, w.env, view) && c.resolved.units == c.live.units && Obedient(w.env)
    && UnitsLeaveNothing(FilesAfter(w).state, UnitsAfter(w).state.disk, w.env, view)
    && (forall e <- Elements(m.configFiles) :: At(UnitsAfter(w).state.disk, e.name) == At(FilesAfter(w).state, e.name))
    && PlainTargets(c.resolved.disk, Elements(m.configFiles))
    && OnePerName(Elements(m.configFiles), FileName) && OnePerName(Elements(m.services), ServiceName)
    && forall p <- w.packages.value.lock.elements :: Resolved(p)
  }

  /** Then the condition for the seal can be read off the manifest and the lock:
      every declared file carries a digest or is not reported, everything else
      declared is in place, every unit to change asks for a state that can be
      set or is not reported, and no package is installed in two builds. */
  lemma PlainSealIff(w: World, c: Course, view: View)
    requires Readable(w) && UpToUnits(w) && c.resolved == w.packages.value.host
    requires ValidView(view, w.env) && Plain(w, c, view)
    ensures Fulfilled(w.desired.manifest, w.applied.value, c, w.env, view)
            && PackagesConsistent(w.packages.value.lock.elements)
       <==> (forall e <- Elements(w.desired.manifest.configFiles) :: PlainPromise(c.resolved.disk, e, w.env, view))
            && (forall u <- IntentDiff(w.desired.manifest, w.applied.value).unitsChange ::
                  KnownState(u.state) || UnitShows(At(c.live.units, u.name), u))
            && OnePerName(w.packages.value.lock.elements, PackageName)
  {
    hide ConvergedFiles, ConvergedUnits, IntentDiff, Fulfilled, PackagesConsistent, PlainPromise, UnitShows, KnownState,
         OnePerName, PackagesLeaveNothing, UnitsLeaveNothing, PlainTargets, Obedient, Resolved, ValidView;
    PlainFulfilledIff(w.desired.manifest, w.applied.value, c, w.env, view);
    ResolvedConsistentIff(w.packages.value.lock.elements);
  }

  /** Together: with both descriptions from walks and nothing but the declared
      changes happening, that is exactly when apply seals. */
  lemma PlainApplySealsIff(w: World, live: Host, liveOwner: map<Path, string>, before: Manifest,
                           first: Survey, last: Survey)
    requires Readable(w) && Sane(w.env, liveOwner)
    requires Surveys(first, live.disk, w.env.(owner := liveOwner)) && FromWalk(before, first, w.env)
    requires DescribesUnits(Elements(before.services), live.units)
    requires Drift(before, w.applied.value, w.env.keepList).Empty()
    requires Cooperates(w) ==>
      var seen := FinalState(w).value;
      && Surveys(last, UnitsAfter(w).state.disk, w.env) && FromWalk(seen, last, w.env)
      && DescribesUnits(Elements(seen.services), UnitsAfter(w).state.units)
      && Elements(seen.packages) == w.packages.value.lock.elements
      && seen.changedManagedFiles.None? && seen.unmanagedFiles.None?
    ensures var view := ViewOf(ETC, last.system, w.env);
            Cooperates(w) && Plain(w, CourseOf(w, live, liveOwner, Pristine(first, w.env)), view) ==>
              (Seals(w) <==>
                && !NothingToDo(w)
                && (forall e <- Elements(w.desired.manifest.configFiles) ::
                      PlainPromise(w.packages.value.host.disk, e, w.env, view))
                && (forall u <- IntentDiff(w.desired.manifest, w.applied.value).unitsChange ::
                      KnownState(u.state) || UnitShows(At(live.units, u.name), u))
                && OnePerName(w.packages.value.lock.elements, PackageName))
  {
    hide DescribesFiles, DescribesUnits, ConvergedFiles, ConvergedUnits, IntentDiff, Fulfilled, PackagesConsistent,
         Drift, DriftReport.Empty, Acquirable, Completes, NothingToDo, Surveys, FromWalk, Sane, ViewOf, Pristine,
         PlainPromise, UnitShows, KnownState, OnePerName, Plain, ValidView;
    WalkedApplySealsIff(w, live, liveOwner, before, first, last);
    ViewIsValid(w.env, liveOwner, last);
    if Cooperates(w) {
      var c, view := CourseOf(w, live, liveOwner, Pristine(first, w.env)), ViewOf(ETC, last.system, w.env);
      if Plain(w, c, view) {
        PlainSealIff(w, c, view);
      }
    }
  }

  lemma ViewIsValid(env: Env, liveOwner: map<Path, string>, last: Survey)
    requires Sane(env, liveOwner)
    ensures ValidView(ViewOf(ETC, last.system, env), env)
  {
    hide ViewOf, ValidView;
    KeptIsHidden(ETC, last.system, env);
  }

  // ---- A seal is a step of the ledger -------------------------------------------------------

  /** The paths at which two trees differ. */
  function Changed(a: Disk, b: Disk): set<Path> {
    set p <- a.Keys + b.Keys | At(a, p) != At(b, p)
  }

  /** What a sealed run amounts to, on the generation it started from. */
  function EventOf(w: World, g: L.Generation): L.ApplyEvent
    requires Readable(w) && UpToUnits(w)
  {
    L.ApplyEvent(w.desired.manifest, w.desired.sha, w.packages.value.lock, w.now, w.env,
                 Changed(g.disk, w.packages.value.host.disk) + Changed(FilesAfter(w).state, UnitsAfter(w).state.disk),
                 w.packages.value.host, UnitsAfter(w).state)
  }

  /** A run that seals over a generation's record is a step of the ledger from
      that generation, and leaves the tree and the record that the run sealed. */
  lemma SealIsStep(w: World, s: L.State)
    requires Readable(w) && Completes(w)
    requires s.current < |s.generations| && s.generations[s.current].record == w.applied.value
    ensures var g := s.generations[s.current];
            var next := L.State(s.generations + [L.Successor(g, EventOf(w, g))], |s.generations|);
            && L.Step(s, L.Applied(EventOf(w, g)), next)
            && next.generations[next.current].disk == UnitsAfter(w).state.disk
            && next.generations[next.current].record == RecordOf(w)
  {
    hide ConvergedFiles, ConvergedUnits, IntentDiff, Verifies, Acquirable;
    var g := s.generations[s.current];
    var e := EventOf(w, g);
    forall p | p !in e.touched
      ensures At(e.resolved.disk, p) == At(g.disk, p) && At(e.end.disk, p) == At(FilesAfter(w).state, p)
    {
      assert p !in Changed(g.disk, e.resolved.disk) && p !in Changed(FilesAfter(w).state, e.end.disk);
    }
    UnitsClosedForm(Host(FilesAfter(w).state, w.packages.value.host.units),
                    IntentDiff(w.desired.manifest, w.applied.value).unitsChange, w.env);
  }
}
