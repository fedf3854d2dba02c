/** The lists of an intent diff and of a drift report, element by element, and
    the fields of the record. */
module DiffLists {
  import opened Strings
  import opened Manifests
  import opened DiffDrift
  import opened DriftLaws

  // ---- Picking in order ----------------------------------------------------------------

  /** `out` holds what `f` makes of the elements at these places, which are all
      that are picked. */
  ghost predicate Places<T(!new), U>(out: seq<U>, xs: seq<T>, pick: T -> bool, f: T -> U, places: seq<nat>) {
    && |out| == |places|
    && (forall i, j :: 0 <= i < j < |places| ==> places[i] < places[j])
    && (forall k :: 0 <= k < |places| ==>
          places[k] < |xs| && pick(xs[places[k]]) && out[k] == f(xs[places[k]]))
    && (forall i :: 0 <= i < |xs| && pick(xs[i]) ==> i in places)
  }

  ghost predicate Picked<T(!new), U>(out: seq<U>, xs: seq<T>, pick: T -> bool, f: T -> U) {
    exists places: seq<nat> :: Places(out, xs, pick, f, places)
  }

  function Itself<T>(): T -> T {
    (x: T) => x
  }

  lemma {:induction false} FilterPlaces<T(!new), U>(xs: seq<T>, keep: T -> bool, f: T -> U) returns (places: seq<nat>)
    ensures Places(Map(Filter(xs, keep), f), xs, keep, f, places)
  {
    if xs == [] {
      places := [];
    } else {
      hide Filter, Map, Places;
      var n := |xs| - 1;
      var before := FilterPlaces(xs[..n], keep, f);
      assert xs[..n + 1] == xs;
      MapFilterGrows(xs, n, keep, f);
      NextPlace(Map(Filter(xs[..n], keep), f), xs, keep, f, before);
      places := if keep(xs[n]) then before + [n] else before;
      if !keep(xs[n]) {
        assert Map(Filter(xs[..n], keep), f) + [] == Map(Filter(xs[..n], keep), f);
      }
    }
  }

  lemma NextPlace<T(!new), U>(out: seq<U>, xs: seq<T>, pick: T -> bool, f: T -> U, places: seq<nat>)
    requires xs != [] && Places(out, xs[..|xs| - 1], pick, f, places)
    ensures var n := |xs| - 1;
            if pick(xs[n]) then Places(out + [f(xs[n])], xs, pick, f, places + [n])
            else Places(out, xs, pick, f, places)
  {
    var n := |xs| - 1;
    assert forall i :: 0 <= i < n ==> xs[..n][i] == xs[i];
    assert (places + [n])[|places|] == n;
    forall i | 0 <= i < n && pick(xs[i]) ensures i in places && i in places + [n] {
    }
  }

  lemma {:induction false} MapItself<T>(xs: seq<T>)
    ensures Map(xs, Itself()) == xs
  {
    if xs != [] {
      MapItself(xs[..|xs| - 1]);
    }
  }

  /** What is picked by a test is picked by any other test that says the same. */
  lemma FilterPicks<T(!new), U>(xs: seq<T>, keep: T -> bool, pick: T -> bool, f: T -> U)
    requires forall x <- xs :: keep(x) == pick(x)
    ensures Picked(Map(Filter(xs, keep), f), xs, pick, f)
    ensures Picked(Filter(xs, keep), xs, pick, Itself())
  {
    hide Filter, Map;
    var places := FilterPlaces(xs, keep, f);
    SamePlaces(Map(Filter(xs, keep), f), xs, keep, pick, f, places);
    var same := FilterPlaces(xs, keep, Itself());
    MapItself(Filter(xs, keep));
    SamePlaces(Filter(xs, keep), xs, keep, pick, Itself(), same);
  }

  lemma SamePlaces<T(!new), U>(out: seq<U>, xs: seq<T>, keep: T -> bool, pick: T -> bool, f: T -> U, places: seq<nat>)
    requires Places(out, xs, keep, f, places) && forall x <- xs :: keep(x) == pick(x)
    ensures Places(out, xs, pick, f, places)
  {
    assert forall i :: 0 <= i < |xs| ==> keep(xs[i]) == pick(xs[i]);
  }

  /** So membership in such a list is being picked. */
  lemma PickedElements<T(!new), U>(out: seq<U>, xs: seq<T>, pick: T -> bool, f: T -> U, y: U)
    requires Picked(out, xs, pick, f)
    ensures y in out <==> exists x <- xs :: pick(x) && f(x) == y
  {
    var places :| Places(out, xs, pick, f, places);
    forall k | 0 <= k < |out| ensures exists x <- xs :: pick(x) && f(x) == out[k] {
      assert xs[places[k]] in xs;
    }
    forall x | x in xs && pick(x) ensures f(x) in out {
      var i :| 0 <= i < |xs| && xs[i] == x;
      assert i in places;
      var k :| 0 <= k < |places| && places[k] == i;
    }
  }

  // ---- The last of a name ----------------------------------------------------------------

  /** The map by name holds the last element of each name. */
  lemma ByNameLast<T>(xs: seq<T>, name: T -> string, k: string)
    ensures k in ByName(xs, name) <==> exists j: nat :: IsLast(xs, name, j) && name(xs[j]) == k
    ensures forall j: nat :: IsLast(xs, name, j) && name(xs[j]) == k ==> ByName(xs, name)[k] == xs[j]
  {
    if k in ByName(xs, name) {
      var j := ByNameIsLast(xs, name, k);
    }
    forall j: nat | IsLast(xs, name, j) && name(xs[j]) == k
      ensures k in ByName(xs, name) && ByName(xs, name)[k] == xs[j]
    {
      LastOfName(xs, name, xs[j]);
      var i := ByNameIsLast(xs, name, k);
      LastIsUnique(xs, name, i, j);
    }
  }

  /** The last element of this name passes the test. */
  ghost predicate LastIs<T>(xs: seq<T>, name: T -> string, k: string, test: T -> bool) {
    exists j: nat :: IsLast(xs, name, j) && name(xs[j]) == k && test(xs[j])
  }

  lemma LastIsByName<T>(xs: seq<T>, name: T -> string, k: string, test: T -> bool)
    ensures LastIs(xs, name, k, test) <==> k in ByName(xs, name) && test(ByName(xs, name)[k])
  {
    hide IsLast, ByName;
    ByNameLast(xs, name, k);
  }

  // ---- The intent diff ---------------------------------------------------------------------

  /** What is to be installed, set and written is what is declared; what is to be
      removed and deleted is what the record holds under no declared name, if the
      scope is declared at all; and the units to change are the declared ones that
      the record does not have last in the declared state. All in order. */
  lemma IntentLists(desired: Manifest, applied: Manifest)
    ensures var d := IntentDiff(desired, applied);
            && d.packagesInstall == (if desired.packages.Some? then desired.packages.value.elements else [])
            && d.reposSet == (if desired.repositories.Some? then desired.repositories.value.elements else [])
            && d.filesWrite == (if desired.configFiles.Some? then desired.configFiles.value.elements else [])
            && Picked(d.packagesRemove, Elements(applied.packages),
                      (p: PackageRecord) => desired.packages.Some?
                        && !exists q <- desired.packages.value.elements :: q.name == p.name, Itself())
            && Picked(d.filesDelete, Elements(applied.configFiles),
                      (f: FileRecord) => desired.configFiles.Some?
                        && !exists e <- desired.configFiles.value.elements :: e.name == f.name, FileName)
            && Picked(d.unitsChange, if desired.services.Some? then desired.services.value.elements else [],
                      (u: ServiceRecord) =>
                        !LastIs(Elements(applied.services), ServiceName, u.name,
                                (s: ServiceRecord) => s.state == u.state), Itself())
  {
    var names, paths := Names(Elements(desired.packages), PackageName), Names(Elements(desired.configFiles), FileName);
    var unnamed := (p: PackageRecord) => desired.packages.Some?
                     && !exists q <- desired.packages.value.elements :: q.name == p.name;
    var unlisted := (f: FileRecord) => desired.configFiles.Some?
                      && !exists e <- desired.configFiles.value.elements :: e.name == f.name;
    if desired.packages.None? {
      assert Places([], Elements(applied.packages), unnamed, Itself(), []);
    } else {
      FilterPicks(Elements(applied.packages), (p: PackageRecord) => p.name !in names, unnamed, PackageName);
    }
    if desired.configFiles.None? {
      assert Places([], Elements(applied.configFiles), unlisted, FileName, []);
    } else {
      FilterPicks(Elements(applied.configFiles), (f: FileRecord) => f.name !in paths, unlisted, FileName);
    }
    UnitList(Elements(desired.services), Elements(applied.services));
  }

  lemma UnitList(desired: seq<ServiceRecord>, applied: seq<ServiceRecord>)
    ensures Picked(UnitsToChange(desired, applied), desired,
                   (u: ServiceRecord) =>
                     !LastIs(applied, ServiceName, u.name, (s: ServiceRecord) => s.state == u.state), Itself())
  {
    hide LastIs;
    var states := ByName(applied, ServiceName);
    var unsettled := (u: ServiceRecord) =>
      !LastIs(applied, ServiceName, u.name, (s: ServiceRecord) => s.state == u.state);
    forall u <- desired ensures !Settled(states, u) == unsettled(u) {
      LastIsByName(applied, ServiceName, u.name, (s: ServiceRecord) => s.state == u.state);
    }
    FilterPicks(desired, (u: ServiceRecord) => !Settled(states, u), unsettled, ServiceName);
  }

  // ---- The drift report -----------------------------------------------------------------------

  /** The file differs from its declaration in kind, content or target. */
  function FileOff(e: FileRecord): FileRecord -> bool {
    (a: FileRecord) =>
      || a.kind != e.kind
      || (e.kind == "file" && a.sha256 != e.sha256)
      || (e.kind == "link" && a.target != e.target)
  }

  /** The package is what the reference asks for; a field left empty asks for
      nothing. */
  function Meets(p: PackageRecord): PackageRecord -> bool {
    (a: PackageRecord) =>
      && (p.version == "" || p.version == a.version)
      && (p.release == "" || p.release == a.release)
      && (p.arch == "" || p.arch == a.arch)
  }

  function NotOn<T>(keepList: set<Path>, name: T -> string): T -> bool {
    (x: T) => name(x) !in keepList
  }

  /** The six lists of the report, in order: declared paths that are last reported
      off their declaration; reported paths that nothing declares, owns or keeps;
      declared units that are last reported in another state; references that the
      last package of their name does not meet, or that have none; and what a full
      scan observed and nothing keeps. */
  lemma DriftLists(actual: Manifest, reference: Manifest, keepList: set<Path>)
    ensures var r := Drift(actual, reference, keepList);
            && Picked(r.filesModified, Elements(reference.configFiles),
                      (e: FileRecord) => LastIs(Elements(actual.configFiles), FileName, e.name, FileOff(e)), FileName)
            && Picked(r.filesExtra, Elements(actual.configFiles),
                      (a: FileRecord) => a.packageName == "" && a.name != SYNCPOINT && a.name !in keepList
                        && !exists e <- Elements(reference.configFiles) :: e.name == a.name, FileName)
            && Picked(r.unitsDivergent, Elements(reference.services),
                      (u: ServiceRecord) =>
                        LastIs(Elements(actual.services), ServiceName, u.name,
                               (s: ServiceRecord) => s.state != u.state), Itself())
            && Picked(r.packagesDivergent, Elements(reference.packages),
                      (p: PackageRecord) => !LastIs(Elements(actual.packages), PackageName, p.name, Meets(p)), Itself())
            && Picked(r.managedFilesModified, Elements(actual.changedManagedFiles),
                      NotOn(keepList, BaselineName), BaselineName)
            && Picked(r.unmanagedFilesPresent, Elements(actual.unmanagedFiles),
                      NotOn(keepList, UnmanagedName), UnmanagedName)
  {
    hide FilesModified, FilesExtra, UnitsDivergent, PackagesDivergent, NotKept, LastIs, Picked;
    ModifiedList(Elements(actual.configFiles), Elements(reference.configFiles));
    ExtraList(Elements(actual.configFiles), Elements(reference.configFiles), keepList);
    DivergentUnitList(Elements(actual.services), Elements(reference.services));
    DivergentPackageList(Elements(actual.packages), Elements(reference.packages));
    KeptOutList(Elements(actual.changedManagedFiles), BaselineName, keepList);
    KeptOutList(Elements(actual.unmanagedFiles), UnmanagedName, keepList);
  }

  lemma ModifiedList(files: seq<FileRecord>, reference: seq<FileRecord>)
    ensures Picked(FilesModified(files, reference), reference,
                   (e: FileRecord) => LastIs(files, FileName, e.name, FileOff(e)), FileName)
  {
    hide LastIs;
    var byName := ByName(files, FileName);
    var modified := (e: FileRecord) => LastIs(files, FileName, e.name, FileOff(e));
    forall e <- reference ensures Modified(byName, e) == modified(e) {
      LastIsByName(files, FileName, e.name, FileOff(e));
    }
    FilterPicks(reference, (e: FileRecord) => Modified(byName, e), modified, FileName);
  }

  lemma ExtraList(files: seq<FileRecord>, reference: seq<FileRecord>, keepList: set<Path>)
    ensures Picked(FilesExtra(files, reference, keepList), files,
                   (a: FileRecord) => a.packageName == "" && a.name != SYNCPOINT && a.name !in keepList
                     && !exists e <- reference :: e.name == a.name, FileName)
  {
    var declared := Names(reference, FileName);
    var extra := (a: FileRecord) => a.packageName == "" && a.name != SYNCPOINT && a.name !in keepList
                   && !exists e <- reference :: e.name == a.name;
    FilterPicks(files, (a: FileRecord) => Extra(declared, keepList, a), extra, FileName);
  }

  lemma DivergentUnitList(units: seq<ServiceRecord>, reference: seq<ServiceRecord>)
    ensures Picked(UnitsDivergent(units, reference), reference,
                   (u: ServiceRecord) =>
                     LastIs(units, ServiceName, u.name, (s: ServiceRecord) => s.state != u.state), Itself())
  {
    hide LastIs;
    var states := ByName(units, ServiceName);
    var diverges := (u: ServiceRecord) =>
      LastIs(units, ServiceName, u.name, (s: ServiceRecord) => s.state != u.state);
    forall u <- reference ensures UnitDiverges(states, u) == diverges(u) {
      LastIsByName(units, ServiceName, u.name, (s: ServiceRecord) => s.state != u.state);
    }
    FilterPicks(reference, (u: ServiceRecord) => UnitDiverges(states, u), diverges, ServiceName);
  }

  lemma DivergentPackageList(packages: seq<PackageRecord>, reference: seq<PackageRecord>)
    ensures Picked(PackagesDivergent(packages, reference), reference,
                   (p: PackageRecord) => !LastIs(packages, PackageName, p.name, Meets(p)), Itself())
  {
    hide LastIs;
    var byName := ByName(packages, PackageName);
    var unmet := (p: PackageRecord) => !LastIs(packages, PackageName, p.name, Meets(p));
    forall p <- reference ensures PackageDiverges(byName, p) == unmet(p) {
      LastIsByName(packages, PackageName, p.name, Meets(p));
    }
    FilterPicks(reference, (p: PackageRecord) => PackageDiverges(byName, p), unmet, PackageName);
  }

  lemma KeptOutList<T(!new)>(found: seq<T>, name: T -> string, keepList: set<Path>)
    ensures Picked(NotKept(found, name, keepList), found, NotOn(keepList, name), name)
  {
    hide Picked;
    FilterPicks(found, (x: T) => name(x) !in keepList, NotOn(keepList, name), name);
  }

  /** The exact form lists the references that are not installed, then the
      installed packages that are no reference, each in order; and nothing if
      either side is not described. */
  lemma ExactLists(actual: Option<Scope<PackageRecord>>, reference: Option<Scope<PackageRecord>>)
    requires forall p <- Elements(actual) + Elements(reference) :: NulFree(p)
    ensures actual.None? || reference.None? ==> ExactDivergent(actual, reference) == []
    ensures actual.Some? && reference.Some? ==> exists missing, surplus ::
      && ExactDivergent(actual, reference) == missing + surplus
      && Picked(missing, Elements(reference), (p: PackageRecord) => p !in Elements(actual), Itself())
      && Picked(surplus, Elements(actual), (p: PackageRecord) => p !in Elements(reference), Itself())
  {
    if actual.Some? && reference.Some? {
      var acts, refs := Identities(Elements(actual)), Identities(Elements(reference));
      forall p | p in Elements(actual) || p in Elements(reference)
        ensures (PackageIdentity(p) !in acts) == (p !in Elements(actual))
        ensures (PackageIdentity(p) !in refs) == (p !in Elements(reference))
      {
        assert p in Elements(actual) + Elements(reference);
        IdentityMember(Elements(actual), p);
        IdentityMember(Elements(reference), p);
      }
      FilterPicks(Elements(reference), (p: PackageRecord) => PackageIdentity(p) !in acts,
                  (p: PackageRecord) => p !in Elements(actual), PackageName);
      FilterPicks(Elements(actual), (p: PackageRecord) => PackageIdentity(p) !in refs,
                  (p: PackageRecord) => p !in Elements(reference), PackageName);
    }
  }

  // ---- The record ---------------------------------------------------------------------------

  /** The record of an apply, field by field: what was desired, with the resolved
      packages in the place of the desired ones and without observations, and
      marked with the time, the digest of what was desired, and the version of
      the format. */
  lemma RecordHolds(desired: Manifest, sha: string, lock: Scope<PackageRecord>, now: string)
    ensures var r := AppliedRecord(desired, sha, lock, now);
            && r.packages == Some(lock)
            && r.repositories == desired.repositories && r.services == desired.services
            && r.configFiles == desired.configFiles
            && r.changedManagedFiles == None && r.unmanagedFiles == None
            && r.meta.formatVersion == 1 && r.meta.generator == desired.meta.generator
            && r.meta.createdAt == now && r.meta.desiredSha256 == sha
  {
  }

  /** What an adoption records as the resolved packages. */
  lemma AdoptedLock(adopted: Manifest)
    ensures InitLock(adopted)
         == if adopted.packages.Some? then adopted.packages.value else Scope(map["package_system" := "rpm"], [])
  {
  }
}
