/** The two comparisons of the converger: what changed between two manifests
    (intent) and where the system departs from one (drift). The loops over
    mutable sets and maps are proved against the filter-and-collect form. */
module DiffDrift {
  import opened Strings
  import opened Manifests

  // ---- Collecting -----------------------------------------------------------------

  function Filter<T>(xs: seq<T>, keep: T -> bool): seq<T> {
    if xs == [] then []
    else Filter(xs[..|xs| - 1], keep) + if keep(xs[|xs| - 1]) then [xs[|xs| - 1]] else []
  }

  function Map<T, U>(xs: seq<T>, f: T -> U): seq<U> {
    if xs == [] then [] else Map(xs[..|xs| - 1], f) + [f(xs[|xs| - 1])]
  }

  function Names<T(==)>(xs: seq<T>, name: T -> string): set<string> {
    set x <- xs :: name(x)
  }

  /** Elements by name; of several with one name, the last. */
  function ByName<T>(xs: seq<T>, name: T -> string): map<string, T> {
    if xs == [] then map[] else ByName(xs[..|xs| - 1], name)[name(xs[|xs| - 1]) := xs[|xs| - 1]]
  }

  function PackageName(p: PackageRecord): string { p.name }
  function FileName(f: FileRecord): string { f.name }
  function ServiceName(s: ServiceRecord): string { s.name }
  function BaselineName(b: BaselineRecord): string { b.name }
  function UnmanagedName(u: UnmanagedRecord): string { u.name }

  // ---- Intent diff ------------------------------------------------------------------

  datatype Diff = Diff(
    packagesInstall: seq<PackageRecord>,
    packagesRemove: seq<PackageRecord>,
    reposSet: seq<RepositoryRecord>,
    filesWrite: seq<FileRecord>,
    filesDelete: seq<Path>,
    unitsChange: seq<ServiceRecord>)
  {
    predicate Empty() {
      && packagesInstall == [] && packagesRemove == [] && reposSet == []
      && filesWrite == [] && filesDelete == [] && unitsChange == []
    }
  }

  /** Everything desired is installed, set and written; what the record holds
      and the manifest no longer names is removed; units whose recorded state
      differs are changed. An undeclared scope is left alone. */
  function IntentDiff(desired: Manifest, applied: Manifest): Diff {
    var packageNames := Names(Elements(desired.packages), PackageName);
    var paths := Names(Elements(desired.configFiles), FileName);
    Diff(Elements(desired.packages),
         if desired.packages.None? then []
         else Filter(Elements(applied.packages), (p: PackageRecord) => p.name !in packageNames),
         Elements(desired.repositories),
         Elements(desired.configFiles),
         if desired.configFiles.None? then []
         else Map(Filter(Elements(applied.configFiles), (f: FileRecord) => f.name !in paths), FileName),
         UnitsToChange(Elements(desired.services), Elements(applied.services)))
  }

  predicate Settled(states: map<string, ServiceRecord>, u: ServiceRecord) {
    u.name in states && states[u.name].state == u.state
  }

  function UnitsToChange(desired: seq<ServiceRecord>, applied: seq<ServiceRecord>): seq<ServiceRecord> {
    var states := ByName(applied, ServiceName);
    Filter(desired, (u: ServiceRecord) => !Settled(states, u))
  }

  lemma PrefixGrows<T>(xs: seq<T>, i: nat)
    requires i < |xs|
    ensures xs[..i + 1][..i] == xs[..i] && xs[..i + 1][i] == xs[i]
    ensures xs[..|xs|] == xs
  {
  }

  lemma FilterGrows<T>(xs: seq<T>, i: nat, keep: T -> bool)
    requires i < |xs|
    ensures Filter(xs[..i + 1], keep) == Filter(xs[..i], keep) + if keep(xs[i]) then [xs[i]] else []
  {
    PrefixGrows(xs, i);
  }

  lemma MapFilterGrows<T, U>(xs: seq<T>, i: nat, keep: T -> bool, f: T -> U)
    requires i < |xs|
    ensures Map(Filter(xs[..i + 1], keep), f) == Map(Filter(xs[..i], keep), f) + if keep(xs[i]) then [f(xs[i])] else []
  {
    FilterGrows(xs, i, keep);
    var before := Filter(xs[..i], keep);
    if keep(xs[i]) {
      assert (before + [xs[i]])[..|before|] == before;
    } else {
      assert before + [] == before;
    }
  }

  /** The loop form: sets and maps filled element by element, lists pushed. */
  method ComputeIntentDiff(desired: Manifest, applied: Manifest) returns (d: Diff)
    ensures d == IntentDiff(desired, applied)
  {
    d := Diff([], [], [], [], [], []);
    if desired.packages.Some? {
      var removed := RemovedPackages(desired.packages.value.elements, Elements(applied.packages));
      d := d.(packagesInstall := desired.packages.value.elements, packagesRemove := removed);
    }
    if desired.repositories.Some? {
      d := d.(reposSet := desired.repositories.value.elements);
    }
    if desired.configFiles.Some? {
      var dropped := DroppedFiles(desired.configFiles.value.elements, Elements(applied.configFiles));
      d := d.(filesWrite := desired.configFiles.value.elements, filesDelete := dropped);
    }
    if desired.services.Some? {
      var changed := ChangedUnits(desired.services.value.elements, Elements(applied.services));
      d := d.(unitsChange := changed);
    }
  }

  method NameSet<T(==)>(xs: seq<T>, name: T -> string) returns (names: set<string>)
    ensures names == Names(xs, name)
  {
    names := {};
    for i := 0 to |xs|
      invariant names == Names(xs[..i], name)
    {
      assert xs[..i + 1] == xs[..i] + [xs[i]];
      names := names + {name(xs[i])};
    }
    assert xs[..|xs|] == xs;
  }

  method Index<T>(xs: seq<T>, name: T -> string) returns (byName: map<string, T>)
    ensures byName == ByName(xs, name)
  {
    byName := map[];
    for i := 0 to |xs|
      invariant byName == ByName(xs[..i], name)
    {
      PrefixGrows(xs, i);
      byName := byName[name(xs[i]) := xs[i]];
    }
    assert xs[..|xs|] == xs;
  }

  method RemovedPackages(desired: seq<PackageRecord>, applied: seq<PackageRecord>) returns (removed: seq<PackageRecord>)
    ensures removed == Filter(applied, (p: PackageRecord) => p.name !in Names(desired, PackageName))
  {
    var names := NameSet(desired, PackageName);
    ghost var keep := (p: PackageRecord) => p.name !in Names(desired, PackageName);
    removed := [];
    for i := 0 to |applied|
      invariant removed == Filter(applied[..i], keep)
    {
      FilterGrows(applied, i, keep);
      if applied[i].name !in names {
        removed := removed + [applied[i]];
      }
    }
    assert applied[..|applied|] == applied;
  }

  method DroppedFiles(desired: seq<FileRecord>, applied: seq<FileRecord>) returns (dropped: seq<Path>)
    ensures dropped == Map(Filter(applied, (f: FileRecord) => f.name !in Names(desired, FileName)), FileName)
  {
    var paths := NameSet(desired, FileName);
    ghost var keep := (f: FileRecord) => f.name !in Names(desired, FileName);
    dropped := [];
    for i := 0 to |applied|
      invariant dropped == Map(Filter(applied[..i], keep), FileName)
    {
      MapFilterGrows(applied, i, keep, FileName);
      var f := applied[i];
      if f.name !in paths {
        dropped := dropped + [f.name];
      }
    }
    assert applied[..|applied|] == applied;
  }

  method ChangedUnits(desired: seq<ServiceRecord>, applied: seq<ServiceRecord>) returns (changed: seq<ServiceRecord>)
    ensures changed == UnitsToChange(desired, applied)
  {
    var states := Index(applied, ServiceName);
    ghost var differs := (u: ServiceRecord) => !Settled(states, u);
    changed := [];
    for i := 0 to |desired|
      invariant changed == Filter(desired[..i], differs)
    {
      FilterGrows(desired, i, differs);
      var s := desired[i];
      if s.name !in states || states[s.name].state != s.state {
        changed := changed + [s];
      }
    }
    assert desired[..|desired|] == desired;
  }

  // ---- Drift ---------------------------------------------------------------------------

  datatype DriftReport = DriftReport(
    filesModified: seq<Path>,
    filesExtra: seq<Path>,
    unitsDivergent: seq<ServiceRecord>,
    packagesDivergent: seq<PackageRecord>,
    managedFilesModified: seq<Path>,
    unmanagedFilesPresent: seq<Path>)
  {
    predicate Empty() {
      && filesModified == [] && filesExtra == [] && unitsDivergent == [] && packagesDivergent == []
      && managedFilesModified == [] && unmanagedFilesPresent == []
    }
  }

  /** The kind is part of a file's identity; then content for files, target
      for links. */
  predicate Differs(actual: FileRecord, declared: FileRecord) {
    || actual.kind != declared.kind
    || (declared.kind == "file" && actual.sha256 != declared.sha256)
    || (declared.kind == "link" && actual.target != declared.target)
  }

  predicate Modified(byName: map<string, FileRecord>, e: FileRecord) {
    e.name in byName && Differs(byName[e.name], e)
  }

  predicate Extra(declared: set<Path>, keepList: set<Path>, a: FileRecord) {
    a.name !in declared && a.packageName == "" && a.name != SYNCPOINT && a.name !in keepList
  }

  predicate UnitDiverges(states: map<string, ServiceRecord>, u: ServiceRecord) {
    u.name in states && states[u.name].state != u.state
  }

  /** An empty reference field matches anything. */
  predicate FieldMatches(ref: string, act: string) {
    ref == "" || ref == act
  }

  predicate PackageMatches(ref: PackageRecord, act: PackageRecord) {
    FieldMatches(ref.version, act.version) && FieldMatches(ref.release, act.release) && FieldMatches(ref.arch, act.arch)
  }

  predicate PackageDiverges(byName: map<string, PackageRecord>, ref: PackageRecord) {
    ref.name !in byName || !PackageMatches(ref, byName[ref.name])
  }

  function FilesModified(actual: seq<FileRecord>, reference: seq<FileRecord>): seq<Path> {
    var byName := ByName(actual, FileName);
    Map(Filter(reference, (e: FileRecord) => Modified(byName, e)), FileName)
  }

  function FilesExtra(actual: seq<FileRecord>, reference: seq<FileRecord>, keepList: set<Path>): seq<Path> {
    var declared := Names(reference, FileName);
    Map(Filter(actual, (a: FileRecord) => Extra(declared, keepList, a)), FileName)
  }

  function UnitsDivergent(actual: seq<ServiceRecord>, reference: seq<ServiceRecord>): seq<ServiceRecord> {
    var states := ByName(actual, ServiceName);
    Filter(reference, (u: ServiceRecord) => UnitDiverges(states, u))
  }

  function PackagesDivergent(actual: seq<PackageRecord>, reference: seq<PackageRecord>): seq<PackageRecord> {
    var byName := ByName(actual, PackageName);
    Filter(reference, (p: PackageRecord) => PackageDiverges(byName, p))
  }

  function NotKept<T>(xs: seq<T>, name: T -> string, keepList: set<Path>): seq<Path> {
    Map(Filter(xs, (x: T) => name(x) !in keepList), name)
  }

  function Drift(actual: Manifest, reference: Manifest, keepList: set<Path>): DriftReport {
    DriftReport(FilesModified(Elements(actual.configFiles), Elements(reference.configFiles)),
                FilesExtra(Elements(actual.configFiles), Elements(reference.configFiles), keepList),
                UnitsDivergent(Elements(actual.services), Elements(reference.services)),
                PackagesDivergent(Elements(actual.packages), Elements(reference.packages)),
                NotKept(Elements(actual.changedManagedFiles), BaselineName, keepList),
                NotKept(Elements(actual.unmanagedFiles), UnmanagedName, keepList))
  }

  method ComputeDrift(actual: Manifest, reference: Manifest, keepList: set<Path>) returns (r: DriftReport)
    ensures r == Drift(actual, reference, keepList)
  {
    var modified := ModifiedFiles(Elements(actual.configFiles), Elements(reference.configFiles));
    var extra := ExtraFiles(Elements(actual.configFiles), Elements(reference.configFiles), keepList);
    var units := DivergentUnits(Elements(actual.services), Elements(reference.services));
    var packages := DivergentPackages(Elements(actual.packages), Elements(reference.packages));
    var managed := KeptOut(Elements(actual.changedManagedFiles), BaselineName, keepList);
    var unmanaged := KeptOut(Elements(actual.unmanagedFiles), UnmanagedName, keepList);
    r := DriftReport(modified, extra, units, packages, managed, unmanaged);
  }

  method ModifiedFiles(actual: seq<FileRecord>, reference: seq<FileRecord>) returns (paths: seq<Path>)
    ensures paths == FilesModified(actual, reference)
  {
    var byName := Index(actual, FileName);
    ghost var keep := (e: FileRecord) => Modified(byName, e);
    paths := [];
    for i := 0 to |reference|
      invariant paths == Map(Filter(reference[..i], keep), FileName)
    {
      MapFilterGrows(reference, i, keep, FileName);
      var e := reference[i];
      if e.name !in byName {
        continue;
      }
      var a := byName[e.name];
      var modified := false;
      if a.kind != e.kind {
        modified := true;
      } else if e.kind == "file" && a.sha256 != e.sha256 {
        modified := true;
      } else if e.kind == "link" && a.target != e.target {
        modified := true;
      }
      if modified {
        paths := paths + [e.name];
      }
    }
    assert reference[..|reference|] == reference;
  }

  method ExtraFiles(actual: seq<FileRecord>, reference: seq<FileRecord>, keepList: set<Path>) returns (paths: seq<Path>)
    ensures paths == FilesExtra(actual, reference, keepList)
  {
    var declared := NameSet(reference, FileName);
    ghost var keep := (a: FileRecord) => Extra(declared, keepList, a);
    paths := [];
    for i := 0 to |actual|
      invariant paths == Map(Filter(actual[..i], keep), FileName)
    {
      MapFilterGrows(actual, i, keep, FileName);
      var a := actual[i];
      if a.name in declared { continue; }
      if a.packageName != "" { continue; }
      if a.name == SYNCPOINT { continue; }
      if a.name in keepList { continue; }
      paths := paths + [a.name];
    }
    assert actual[..|actual|] == actual;
  }

  method DivergentUnits(actual: seq<ServiceRecord>, reference: seq<ServiceRecord>) returns (units: seq<ServiceRecord>)
    ensures units == UnitsDivergent(actual, reference)
  {
    var states := Index(actual, ServiceName);
    ghost var keep := (u: ServiceRecord) => UnitDiverges(states, u);
    units := [];
    for i := 0 to |reference|
      invariant units == Filter(reference[..i], keep)
    {
      FilterGrows(reference, i, keep);
      var u := reference[i];
      if u.name in states && states[u.name].state != u.state {
        units := units + [u];
      }
    }
    assert reference[..|reference|] == reference;
  }

  method DivergentPackages(actual: seq<PackageRecord>, reference: seq<PackageRecord>)
    returns (packages: seq<PackageRecord>)
    ensures packages == PackagesDivergent(actual, reference)
  {
    var byName := Index(actual, PackageName);
    ghost var keep := (p: PackageRecord) => PackageDiverges(byName, p);
    packages := [];
    for i := 0 to |reference|
      invariant packages == Filter(reference[..i], keep)
    {
      FilterGrows(reference, i, keep);
      var ref := reference[i];
      if ref.name !in byName {
        packages := packages + [ref];
        continue;
      }
      var act := byName[ref.name];
      if !FieldMatches(ref.version, act.version) || !FieldMatches(ref.release, act.release)
         || !FieldMatches(ref.arch, act.arch) {
        packages := packages + [ref];
      }
    }
    assert reference[..|reference|] == reference;
  }

  method KeptOut<T>(xs: seq<T>, name: T -> string, keepList: set<Path>) returns (paths: seq<Path>)
    ensures paths == NotKept(xs, name, keepList)
  {
    ghost var keep := (x: T) => name(x) !in keepList;
    paths := [];
    for i := 0 to |xs|
      invariant paths == Map(Filter(xs[..i], keep), name)
    {
      MapFilterGrows(xs, i, keep, name);
      if name(xs[i]) !in keepList {
        paths := paths + [name(xs[i])];
      }
    }
    assert xs[..|xs|] == xs;
  }

  // ---- What the lists hold -----------------------------------------------------------

  lemma {:induction false} FilterElements<T>(xs: seq<T>, keep: T -> bool, x: T)
    ensures x in Filter(xs, keep) <==> x in xs && keep(x)
  {
    if xs != [] {
      var n := |xs| - 1;
      FilterElements(xs[..n], keep, x);
      assert xs == xs[..n] + [xs[n]];
    }
  }

  lemma FilterEmptyIff<T>(xs: seq<T>, keep: T -> bool)
    ensures Filter(xs, keep) == [] <==> forall x <- xs :: !keep(x)
  {
    if Filter(xs, keep) == [] {
      forall x <- xs ensures !keep(x) {
        FilterElements(xs, keep, x);
      }
    } else {
      FilterElements(xs, keep, Filter(xs, keep)[0]);
    }
  }

  lemma {:induction false} MapElements<T(!new), U>(xs: seq<T>, f: T -> U, y: U)
    ensures y in Map(xs, f) <==> exists x <- xs :: f(x) == y
  {
    if xs != [] {
      var n := |xs| - 1;
      MapElements(xs[..n], f, y);
      assert xs == xs[..n] + [xs[n]];
    }
  }

  /** The last element of a name is in the map under that name. */
  lemma {:induction false} ByNameElements<T>(xs: seq<T>, name: T -> string)
    ensures ByName(xs, name).Keys == Names(xs, name)
    ensures forall k <- ByName(xs, name) :: ByName(xs, name)[k] in xs && name(ByName(xs, name)[k]) == k
  {
    if xs != [] {
      var n := |xs| - 1;
      ByNameElements(xs[..n], name);
      assert xs == xs[..n] + [xs[n]];
    }
  }

  lemma FilterOne<T>(x: T, keep: T -> bool)
    ensures Filter([x], keep) == if keep(x) then [x] else []
  {
    assert [x][..0] == [] && Filter([], keep) == [];
  }

  lemma MapOne<T, U>(x: T, f: T -> U)
    ensures Map([x], f) == [f(x)]
  {
    assert [x][..0] == [] && Map([], f) == [];
  }
}
