/** Laws that relate the intent diff, the drift report and the record that an
    apply or an init leaves behind. */
module DriftLaws {
  import opened Strings
  import opened Manifests
  import opened DiffDrift

  /** Elements of one name are one element. */
  ghost predicate OnePerName<T(!new)>(xs: seq<T>, name: T -> string) {
    forall x <- xs, y <- xs :: name(x) == name(y) ==> x == y
  }

  lemma LastOfName<T>(xs: seq<T>, name: T -> string, x: T)
    requires x in xs
    ensures var byName := ByName(xs, name);
            name(x) in byName && byName[name(x)] in xs && name(byName[name(x)]) == name(x)
  {
    ByNameElements(xs, name);
    assert name(x) in Names(xs, name);
  }

  lemma MapEmptyIff<T, U>(xs: seq<T>, f: T -> U)
    ensures Map(xs, f) == [] <==> xs == []
  {
  }

  // ---- The record ---------------------------------------------------------------------

  /** What write-applied-record stores: the desired scopes, and as packages the
      resolved set (the lock). */
  function AppliedRecord(desired: Manifest, desiredSha256: string, lock: Scope<PackageRecord>, now: string): Manifest {
    Manifest(Meta(1, desired.meta.generator, now, desiredSha256),
             Some(lock), desired.repositories, desired.services, desired.configFiles, None, None)
  }

  // ---- Intent ----------------------------------------------------------------------------

  /** Every declared file is written, whatever the record says. */
  lemma WritesAllDeclared(desired: Manifest, applied: Manifest)
    ensures IntentDiff(desired, applied).filesWrite == Elements(desired.configFiles)
  {
  }

  /** A path is deleted exactly when the record holds it, the manifest manages
      files, and the manifest does not name it. */
  lemma DeletedIff(desired: Manifest, applied: Manifest, p: Path)
    ensures p in IntentDiff(desired, applied).filesDelete
       <==> desired.configFiles.Some?
            && p in Names(Elements(applied.configFiles), FileName)
            && p !in Names(Elements(desired.configFiles), FileName)
  {
    var paths := Names(Elements(desired.configFiles), FileName);
    var recorded := Elements(applied.configFiles);
    var gone := (f: FileRecord) => f.name !in paths;
    MapElements(Filter(recorded, gone), FileName, p);
    if exists f <- recorded :: f.name == p && gone(f) {
      var f :| f in recorded && f.name == p && gone(f);
      FilterElements(recorded, gone, f);
    }
    if exists f <- Filter(recorded, gone) :: FileName(f) == p {
      var f :| f in Filter(recorded, gone) && FileName(f) == p;
      FilterElements(recorded, gone, f);
    }
  }

  /** Every desired unit is either changed or already recorded as desired. */
  lemma UnitSettledIff(desired: Manifest, applied: Manifest, u: ServiceRecord)
    requires u in Elements(desired.services)
    ensures u !in IntentDiff(desired, applied).unitsChange
       <==> Settled(ByName(Elements(applied.services), ServiceName), u)
  {
    var states := ByName(Elements(applied.services), ServiceName);
    FilterElements(Elements(desired.services), (u: ServiceRecord) => !Settled(states, u), u);
  }

  /** Services of one name ask for one state. */
  ghost predicate UnitsConsistent(xs: seq<ServiceRecord>) {
    forall u <- xs, v <- xs :: u.name == v.name ==> u.state == v.state
  }

  lemma OwnUnitsSettledIff(xs: seq<ServiceRecord>)
    ensures UnitsToChange(xs, xs) == [] <==> UnitsConsistent(xs)
  {
    var states := ByName(xs, ServiceName);
    var differs := (u: ServiceRecord) => !Settled(states, u);
    FilterEmptyIff(xs, differs);
    forall u <- xs ensures u.name in states && states[u.name] in xs && states[u.name].name == u.name {
      LastOfName(xs, ServiceName, u);
    }
    if forall u <- xs :: !differs(u) {
      assert forall u <- xs :: states[u.name].state == u.state;
    }
  }

  /** Applying a manifest again over its own record is "nothing to do" exactly
      when it lists no package, repository or file, asks for no removal, and its
      units agree with themselves. A manifest that lists anything is always
      converged again. */
  lemma ReapplyEmptyIff(m: Manifest, sha: string, lock: Scope<PackageRecord>, now: string)
    ensures IntentDiff(m, AppliedRecord(m, sha, lock, now)).Empty()
       <==> (Elements(m.packages) == [] && Elements(m.repositories) == [] && Elements(m.configFiles) == []
             && (m.packages.Some? ==> lock.elements == [])
             && UnitsConsistent(Elements(m.services)))
  {
    var r := AppliedRecord(m, sha, lock, now);
    var d := IntentDiff(m, r);
    OwnUnitsSettledIff(Elements(m.services));
    assert d.filesDelete == [] by {
      if d.filesDelete != [] {
        DeletedIff(m, r, d.filesDelete[0]);
      }
    }
    if m.packages.Some? && Elements(m.packages) == [] {
      var names := Names(Elements(m.packages), PackageName);
      FilterEmptyIff(lock.elements, (p: PackageRecord) => p.name !in names);
      if lock.elements != [] {
        assert lock.elements[0] in lock.elements;
      }
    }
  }

  /** For instance, a manifest that declares one file is not settled by its own
      record, although a second apply is promised to find nothing to do. */
  lemma SecondApplyHasWork(sha: string, lock: Scope<PackageRecord>, now: string)
    ensures var motd := FileRecord("/etc/motd", "file", "0644", "root", "root", "", "", "", "");
            var m := EMPTY_MANIFEST.(configFiles := Some(Scope(map[], [motd])));
            !IntentDiff(m, AppliedRecord(m, sha, lock, now)).Empty()
  {
    var motd := FileRecord("/etc/motd", "file", "0644", "root", "root", "", "", "", "");
    ReapplyEmptyIff(EMPTY_MANIFEST.(configFiles := Some(Scope(map[], [motd]))), sha, lock, now);
  }

  /** Since the lock is the whole installed set, a second apply keeps all
      packages exactly when the manifest names every one that is installed. */
  lemma ReapplyKeepsPackagesIff(m: Manifest, sha: string, lock: Scope<PackageRecord>, now: string)
    requires m.packages.Some?
    ensures IntentDiff(m, AppliedRecord(m, sha, lock, now)).packagesRemove == []
       <==> Names(lock.elements, PackageName) <= Names(Elements(m.packages), PackageName)
  {
    var names := Names(Elements(m.packages), PackageName);
    FilterEmptyIff(lock.elements, (p: PackageRecord) => p.name !in names);
    forall p <- lock.elements ensures p.name in Names(lock.elements, PackageName) {
    }
  }

  /** For instance, a manifest that asks for nginx alone removes glibc when it is
      applied a second time. */
  lemma SecondApplyRemoves(sha: string, now: string)
    ensures var nginx := PackageRecord("nginx", "", "", "");
            var installed := [PackageRecord("nginx", "1.27.4", "1", "x86_64"),
                              PackageRecord("glibc", "2.38", "1", "x86_64")];
            var m := EMPTY_MANIFEST.(packages := Some(Scope(map[], [nginx])));
            IntentDiff(m, AppliedRecord(m, sha, Scope(map[], installed), now)).packagesRemove == [installed[1]]
  {
    var nginx := PackageRecord("nginx", "", "", "");
    var a, b := PackageRecord("nginx", "1.27.4", "1", "x86_64"), PackageRecord("glibc", "2.38", "1", "x86_64");
    var names := Names([nginx], PackageName);
    assert names == {PackageName(nginx)};
    var gone := (p: PackageRecord) => p.name !in names;
    assert "glibc"[0] != "nginx"[0];
    assert [a, b][..1] == [a] && [a][..0] == [];
    assert Filter([a], gone) == [];
    assert Filter([a, b], gone) == [b];
  }

  // ---- Self drift -----------------------------------------------------------------------

  /** Files of one name describe one state. */
  ghost predicate FilesConsistent(xs: seq<FileRecord>) {
    forall e <- xs, f <- xs :: e.name == f.name ==> !Differs(e, f)
  }

  lemma OwnFilesUnmodifiedIff(xs: seq<FileRecord>)
    ensures FilesModified(xs, xs) == [] <==> FilesConsistent(xs)
  {
    var byName := ByName(xs, FileName);
    var modified := (e: FileRecord) => Modified(byName, e);
    MapEmptyIff(Filter(xs, modified), FileName);
    FilterEmptyIff(xs, modified);
    forall e <- xs ensures e.name in byName && byName[e.name] in xs && byName[e.name].name == e.name {
      LastOfName(xs, FileName, e);
    }
    if forall e <- xs :: !modified(e) {
      forall e <- xs, f <- xs | e.name == f.name ensures !Differs(e, f) {
        assert !modified(e) && !modified(f);
      }
    }
  }

  lemma OwnFilesNotExtra(xs: seq<FileRecord>, keepList: set<Path>)
    ensures FilesExtra(xs, xs, keepList) == []
  {
    var declared := Names(xs, FileName);
    var extra := (a: FileRecord) => Extra(declared, keepList, a);
    MapEmptyIff(Filter(xs, extra), FileName);
    FilterEmptyIff(xs, extra);
    assert forall a <- xs :: FileName(a) in declared;
  }

  lemma OwnUnitsAgreeIff(xs: seq<ServiceRecord>)
    ensures UnitsDivergent(xs, xs) == [] <==> UnitsConsistent(xs)
  {
    var states := ByName(xs, ServiceName);
    var diverges := (u: ServiceRecord) => UnitDiverges(states, u);
    FilterEmptyIff(xs, diverges);
    forall u <- xs ensures u.name in states && states[u.name] in xs && states[u.name].name == u.name {
      LastOfName(xs, ServiceName, u);
    }
    if forall u <- xs :: !diverges(u) {
      assert forall u <- xs :: states[u.name].state == u.state;
    }
  }

  /** No later element has the name of element `j`. */
  predicate IsLast<T>(xs: seq<T>, name: T -> string, j: nat) {
    j < |xs| && forall k :: j < k < |xs| ==> name(xs[k]) != name(xs[j])
  }

  /** No package asks for something that the last one of its name is not. */
  ghost predicate PackagesConsistent(xs: seq<PackageRecord>) {
    forall i: nat, j: nat :: i < |xs| && IsLast(xs, PackageName, j) && xs[i].name == xs[j].name ==>
      PackageMatches(xs[i], xs[j])
  }

  lemma {:induction false} ByNameIsLast<T>(xs: seq<T>, name: T -> string, k: string) returns (j: nat)
    requires k in ByName(xs, name)
    ensures IsLast(xs, name, j) && xs[j] == ByName(xs, name)[k] && name(xs[j]) == k
  {
    var n := |xs| - 1;
    if name(xs[n]) == k {
      j := n;
    } else {
      j := ByNameIsLast(xs[..n], name, k);
      assert xs[..n][j] == xs[j];
      forall i | j < i < |xs| ensures name(xs[i]) != name(xs[j]) {
        if i < n { assert xs[..n][i] == xs[i]; }
      }
    }
  }

  lemma LastIsUnique<T>(xs: seq<T>, name: T -> string, j: nat, k: nat)
    requires IsLast(xs, name, j) && IsLast(xs, name, k) && name(xs[j]) == name(xs[k])
    ensures j == k
  {
  }

  lemma LastOfEach(xs: seq<PackageRecord>, i: nat) returns (j: nat)
    requires i < |xs|
    ensures IsLast(xs, PackageName, j) && xs[i].name == xs[j].name
    ensures PackageDiverges(ByName(xs, PackageName), xs[i]) <==> !PackageMatches(xs[i], xs[j])
  {
    hide PackageMatches, IsLast;
    LastOfName(xs, PackageName, xs[i]);
    j := ByNameIsLast(xs, PackageName, xs[i].name);
  }

  lemma OwnPackagesAgreeIff(xs: seq<PackageRecord>)
    ensures PackagesDivergent(xs, xs) == [] <==> PackagesConsistent(xs)
  {
    hide PackageMatches, ByName, PackageDiverges;
    var byName := ByName(xs, PackageName);
    FilterEmptyIff(xs, (p: PackageRecord) => PackageDiverges(byName, p));
    if PackagesConsistent(xs) {
      forall p <- xs ensures !PackageDiverges(byName, p) {
        var i :| 0 <= i < |xs| && xs[i] == p;
        var j := LastOfEach(xs, i);
      }
    } else {
      var i: nat, j: nat :| i < |xs| && IsLast(xs, PackageName, j) && xs[i].name == xs[j].name
                            && !PackageMatches(xs[i], xs[j]);
      var k := LastOfEach(xs, i);
      LastIsUnique(xs, PackageName, j, k);
      assert xs[i] in xs;
    }
  }

  predicate Resolved(p: PackageRecord) {
    p.version != "" && p.release != "" && p.arch != ""
  }

  /** For an installed set, whose packages are fully resolved, that means that
      no name is installed in two builds at once. */
  lemma InstalledAgreesIff(xs: seq<PackageRecord>)
    requires forall p <- xs :: Resolved(p)
    ensures PackagesDivergent(xs, xs) == [] <==> OnePerName(xs, PackageName)
  {
    var byName := ByName(xs, PackageName);
    FilterEmptyIff(xs, (p: PackageRecord) => PackageDiverges(byName, p));
    forall p <- xs ensures p.name in byName && byName[p.name] in xs && byName[p.name].name == p.name {
      LastOfName(xs, PackageName, p);
    }
    if PackagesDivergent(xs, xs) == [] {
      forall p <- xs ensures byName[p.name] == p {
        assert !PackageDiverges(byName, p);
      }
    }
  }

  /** So a resolved set is consistent exactly when it holds one build per name. */
  lemma ResolvedConsistentIff(xs: seq<PackageRecord>)
    requires forall p <- xs :: Resolved(p)
    ensures PackagesConsistent(xs) <==> OnePerName(xs, PackageName)
  {
    hide PackagesConsistent, OnePerName, PackagesDivergent;
    OwnPackagesAgreeIff(xs);
    InstalledAgreesIff(xs);
  }

  /** For instance, two kernels installed side by side drift from themselves, so
      an apply that records them can never verify. */
  lemma TwoBuildsDrift()
    ensures var a := PackageRecord("kernel-default", "6.4.0", "1", "x86_64");
            var b := PackageRecord("kernel-default", "6.4.0", "2", "x86_64");
            PackagesDivergent([a, b], [a, b]) != []
  {
    var a := PackageRecord("kernel-default", "6.4.0", "1", "x86_64");
    var b := PackageRecord("kernel-default", "6.4.0", "2", "x86_64");
    var xs := [a, b];
    InstalledAgreesIff(xs);
    assert a in xs && b in xs && PackageName(a) == PackageName(b);
    assert a.release[0] == '1' && b.release[0] == '2';
  }

  lemma NotKeptEmptyIff<T>(xs: seq<T>, name: T -> string, keepList: set<Path>)
    ensures NotKept(xs, name, keepList) == [] <==> forall x <- xs :: name(x) in keepList
  {
    var keep := (x: T) => name(x) !in keepList;
    MapEmptyIff(Filter(xs, keep), name);
    FilterEmptyIff(xs, keep);
  }

  /** A state has no drift against itself exactly when it does not contradict
      itself under one name and its full-scan findings are all keep-listed. */
  lemma SelfDriftEmptyIff(a: Manifest, keepList: set<Path>)
    ensures Drift(a, a, keepList).Empty()
       <==> (FilesConsistent(Elements(a.configFiles)) && UnitsConsistent(Elements(a.services))
             && PackagesConsistent(Elements(a.packages))
             && (forall b <- Elements(a.changedManagedFiles) :: b.name in keepList)
             && (forall u <- Elements(a.unmanagedFiles) :: u.name in keepList))
  {
    hide FilesModified, FilesExtra, UnitsDivergent, PackagesDivergent, NotKept;
    OwnFilesUnmodifiedIff(Elements(a.configFiles));
    OwnFilesNotExtra(Elements(a.configFiles), keepList);
    OwnUnitsAgreeIff(Elements(a.services));
    OwnPackagesAgreeIff(Elements(a.packages));
    NotKeptEmptyIff(Elements(a.changedManagedFiles), BaselineName, keepList);
    NotKeptEmptyIff(Elements(a.unmanagedFiles), UnmanagedName, keepList);
  }

  /** The packages scope that init records. */
  function InitLock(adopted: Manifest): Scope<PackageRecord> {
    match adopted.packages
    case None => Scope(map["package_system" := "rpm"], [])
    case Some(s) => s
  }

  /** Adopting a state and comparing it with the record of the adoption asks
      for no removal, no deletion and, for consistent units, no unit change. */
  lemma OnboardingAsksNothing(adopted: Manifest, sha: string, now: string)
    ensures var d := IntentDiff(adopted, AppliedRecord(adopted, sha, InitLock(adopted), now));
            && d.packagesRemove == [] && d.filesDelete == []
            && (d.unitsChange == [] <==> UnitsConsistent(Elements(adopted.services)))
  {
    var r := AppliedRecord(adopted, sha, InitLock(adopted), now);
    var d := IntentDiff(adopted, r);
    OwnUnitsSettledIff(Elements(adopted.services));
    if adopted.packages.Some? {
      ReapplyKeepsPackagesIff(adopted, sha, InitLock(adopted), now);
    }
    if d.filesDelete != [] {
      DeletedIff(adopted, r, d.filesDelete[0]);
    }
  }

  /** The diff right after an adoption is empty exactly when what was adopted lists
      no package, repository or file, and its units are consistent. */
  lemma OnboardingEmptyIff(adopted: Manifest, sha: string, now: string)
    ensures IntentDiff(adopted, AppliedRecord(adopted, sha, InitLock(adopted), now)).Empty()
       <==> (Elements(adopted.packages) == [] && Elements(adopted.repositories) == []
             && Elements(adopted.configFiles) == [] && UnitsConsistent(Elements(adopted.services)))
  {
    hide UnitsConsistent, IntentDiff;
    ReapplyEmptyIff(adopted, sha, InitLock(adopted), now);
  }

  /** For instance, a system with one package asks for its installation at once. */
  lemma OnboardingHasWork(sha: string, now: string)
    ensures var bash := PackageRecord("bash", "5.2", "1", "x86_64");
            var m := EMPTY_MANIFEST.(packages := Some(Scope(map[], [bash])));
            IntentDiff(m, AppliedRecord(m, sha, InitLock(m), now)).packagesInstall == [bash]
  {
  }

  /** The system that init adopted shows no drift against init's own record. */
  lemma OnboardingIsClean(adopted: Manifest, sha: string, now: string, keepList: set<Path>)
    requires adopted.changedManagedFiles.None? && adopted.unmanagedFiles.None?
    ensures Drift(adopted, AppliedRecord(adopted, sha, InitLock(adopted), now), keepList).Empty()
       <==> (FilesConsistent(Elements(adopted.configFiles)) && UnitsConsistent(Elements(adopted.services))
             && PackagesConsistent(Elements(adopted.packages)))
  {
    hide FilesModified, FilesExtra, UnitsDivergent, PackagesDivergent, FilesConsistent, UnitsConsistent,
         PackagesConsistent;
    SelfDriftEmptyIff(adopted, keepList);
    assert Elements(Some(InitLock(adopted))) == Elements(adopted.packages);
    assert Drift(adopted, AppliedRecord(adopted, sha, InitLock(adopted), now), keepList)
        == Drift(adopted, adopted, keepList);
  }

  // ---- Two readings of package drift --------------------------------------------------------

  /** Identity as one string; fields joined by NUL. */
  function PackageIdentity(p: PackageRecord): string {
    p.name + ([NUL] + (p.version + ([NUL] + (p.release + ([NUL] + p.arch)))))
  }

  function Identities(xs: seq<PackageRecord>): set<string> {
    set p <- xs :: PackageIdentity(p)
  }

  /** The exact reading: references and actual packages that have no partner of
      the same identity. */
  function ExactDivergent(actual: Option<Scope<PackageRecord>>, reference: Option<Scope<PackageRecord>>)
    : seq<PackageRecord>
  {
    if actual.None? || reference.None? then []
    else
      var acts, refs := Identities(Elements(actual)), Identities(Elements(reference));
      Filter(Elements(reference), (p: PackageRecord) => PackageIdentity(p) !in acts)
      + Filter(Elements(actual), (p: PackageRecord) => PackageIdentity(p) !in refs)
  }

  predicate NulFree(p: PackageRecord) {
    NUL !in p.name && NUL !in p.version && NUL !in p.release
  }

  lemma SplitAtNul(a: string, x: string, b: string, y: string)
    requires NUL !in a && NUL !in b && a + ([NUL] + x) == b + ([NUL] + y)
    ensures a == b && x == y
  {
    SplitUnique(a, [NUL] + x, b, [NUL] + y, NUL);
    assert x == ([NUL] + x)[1..] && y == ([NUL] + y)[1..];
  }

  /** For NUL-free fields the joined identity is the whole record. */
  lemma IdentityInjective(p: PackageRecord, q: PackageRecord)
    requires NulFree(p) && NulFree(q)
    ensures PackageIdentity(p) == PackageIdentity(q) <==> p == q
  {
    if PackageIdentity(p) == PackageIdentity(q) {
      SplitAtNul(p.name, p.version + ([NUL] + (p.release + ([NUL] + p.arch))),
                 q.name, q.version + ([NUL] + (q.release + ([NUL] + q.arch))));
      SplitAtNul(p.version, p.release + ([NUL] + p.arch), q.version, q.release + ([NUL] + q.arch));
      SplitAtNul(p.release, p.arch, q.release, q.arch);
    }
  }

  lemma IdentityMember(xs: seq<PackageRecord>, p: PackageRecord)
    requires NulFree(p) && forall q <- xs :: NulFree(q)
    ensures PackageIdentity(p) in Identities(xs) <==> p in xs
  {
    hide PackageIdentity;
    forall q <- xs ensures PackageIdentity(p) == PackageIdentity(q) <==> p == q {
      IdentityInjective(p, q);
    }
  }

  /** The exact reading finds nothing exactly when both sides hold the same packages. */
  lemma ExactEmptyIff(actual: Scope<PackageRecord>, reference: Scope<PackageRecord>)
    requires forall p <- actual.elements + reference.elements :: NulFree(p)
    ensures ExactDivergent(Some(actual), Some(reference)) == []
       <==> forall p :: p in reference.elements <==> p in actual.elements
  {
    hide PackageIdentity;
    var acts, refs := Identities(actual.elements), Identities(reference.elements);
    FilterEmptyIff(reference.elements, (p: PackageRecord) => PackageIdentity(p) !in acts);
    FilterEmptyIff(actual.elements, (p: PackageRecord) => PackageIdentity(p) !in refs);
    forall p | p in actual.elements || p in reference.elements
      ensures NulFree(p) && (PackageIdentity(p) in acts <==> p in actual.elements)
                         && (PackageIdentity(p) in refs <==> p in reference.elements)
    {
      assert p in actual.elements + reference.elements;
      IdentityMember(actual.elements, p);
      IdentityMember(reference.elements, p);
    }
  }

  /** What the exact reading accepts, the wildcard reading accepts. */
  lemma ExactRefinesWildcard(actual: Scope<PackageRecord>, reference: Scope<PackageRecord>)
    requires forall p <- actual.elements + reference.elements :: NulFree(p)
    requires OnePerName(actual.elements, PackageName)
    requires ExactDivergent(Some(actual), Some(reference)) == []
    ensures PackagesDivergent(actual.elements, reference.elements) == []
  {
    hide ExactDivergent, NulFree;
    ExactEmptyIff(actual, reference);
    var byName := ByName(actual.elements, PackageName);
    FilterEmptyIff(reference.elements, (p: PackageRecord) => PackageDiverges(byName, p));
    forall p <- reference.elements ensures !PackageDiverges(byName, p) {
      LastOfName(actual.elements, PackageName, p);
    }
  }

  /** For fully resolved references over the same names the two readings agree. */
  lemma ExactIsWildcard(actual: Scope<PackageRecord>, reference: Scope<PackageRecord>)
    requires forall p <- actual.elements + reference.elements :: NulFree(p)
    requires OnePerName(actual.elements, PackageName)
    requires forall p <- reference.elements :: Resolved(p)
    requires Names(actual.elements, PackageName) == Names(reference.elements, PackageName)
    ensures ExactDivergent(Some(actual), Some(reference)) == []
       <==> PackagesDivergent(actual.elements, reference.elements) == []
  {
    hide ExactDivergent, NulFree;
    ExactEmptyIff(actual, reference);
    var byName := ByName(actual.elements, PackageName);
    if PackagesDivergent(actual.elements, reference.elements) == [] {
      FilterEmptyIff(reference.elements, (p: PackageRecord) => PackageDiverges(byName, p));
      ByNameElements(actual.elements, PackageName);
      forall p <- reference.elements ensures byName[p.name] == p && p in actual.elements {
        assert !PackageDiverges(byName, p);
      }
      forall a <- actual.elements ensures a in reference.elements {
        assert PackageName(a) in Names(actual.elements, PackageName);
        assert PackageName(a) in Names(reference.elements, PackageName);
        var p :| p in reference.elements && PackageName(p) == PackageName(a);
        assert p in actual.elements;
      }
    } else if ExactDivergent(Some(actual), Some(reference)) == [] {
      ExactRefinesWildcard(actual, reference);
    }
  }

  // ---- The promised reading ---------------------------------------------------------------------

  /** The installed package is what the reference asks for; what it leaves open
      may be anything. */
  predicate Covers(ref: PackageRecord, act: PackageRecord) {
    ref.name == act.name && PackageMatches(ref, act)
  }

  function Unmet(actual: seq<PackageRecord>): PackageRecord -> bool {
    (r: PackageRecord) => !exists a <- actual :: Covers(r, a)
  }

  function Unasked(reference: seq<PackageRecord>): PackageRecord -> bool {
    (a: PackageRecord) => !exists r <- reference :: Covers(r, a)
  }

  /** What package drift is specified to be: references that nothing installed
      meets, and installed packages that no reference asks for. */
  function PromisedDivergent(actual: seq<PackageRecord>, reference: seq<PackageRecord>): seq<PackageRecord> {
    Filter(reference, Unmet(actual)) + Filter(actual, Unasked(reference))
  }

  lemma {:induction false} FilterAgree<T>(xs: seq<T>, f: T -> bool, g: T -> bool)
    ensures Filter(xs, f) == Filter(xs, g) <==> forall x <- xs :: f(x) == g(x)
  {
    if forall x <- xs :: f(x) == g(x) {
      if xs != [] {
        FilterAgree(xs[..|xs| - 1], f, g);
      }
    } else {
      var x :| x in xs && f(x) != g(x);
      FilterElements(xs, f, x);
      FilterElements(xs, g, x);
    }
  }

  lemma UnmetDiverges(actual: seq<PackageRecord>, r: PackageRecord)
    requires !exists a <- actual :: Covers(r, a)
    ensures PackageDiverges(ByName(actual, PackageName), r)
  {
    hide PackageMatches, ByName;
    ByNameElements(actual, PackageName);
  }

  /** The wildcard reading is the promised one exactly when every installed
      package is asked for and no reference is met by any but the last build of
      its name. */
  lemma WildcardAsPromisedIff(actual: seq<PackageRecord>, reference: seq<PackageRecord>)
    ensures PackagesDivergent(actual, reference) == PromisedDivergent(actual, reference)
       <==> (forall a <- actual :: exists r <- reference :: Covers(r, a))
            && (forall r <- reference :: PackageDiverges(ByName(actual, PackageName), r) ==>
                  !exists a <- actual :: Covers(r, a))
  {
    assert forall p :: Covers(p, p);
    hide Covers, PackageDiverges, ByName, Filter;
    var byName := ByName(actual, PackageName);
    var diverges := (p: PackageRecord) => PackageDiverges(byName, p);
    var rest := Filter(actual, Unasked(reference));
    forall r <- reference | Unmet(actual)(r) ensures diverges(r) {
      UnmetDiverges(actual, r);
    }
    FilterAgree(reference, diverges, Unmet(actual));
    FilterEmptyIff(actual, Unasked(reference));
    if rest == [] {
      assert Filter(reference, Unmet(actual)) + rest == Filter(reference, Unmet(actual));
    } else {
      var a := rest[0];
      FilterElements(actual, Unasked(reference), a);
      FilterElements(reference, diverges, a);
      assert a in PromisedDivergent(actual, reference);
    }
  }

  /** With one build per name, only the installed packages decide. */
  lemma WildcardAsPromisedPlainIff(actual: seq<PackageRecord>, reference: seq<PackageRecord>)
    requires OnePerName(actual, PackageName)
    ensures PackagesDivergent(actual, reference) == PromisedDivergent(actual, reference)
       <==> forall a <- actual :: exists r <- reference :: Covers(r, a)
  {
    hide PackageMatches, PackagesDivergent, PromisedDivergent;
    WildcardAsPromisedIff(actual, reference);
    forall r <- reference, a <- actual | Covers(r, a) ensures !PackageDiverges(ByName(actual, PackageName), r) {
      LastOfName(actual, PackageName, a);
    }
  }

  /** For instance, it overlooks a package that is installed and not declared. */
  lemma WildcardOverlooks()
    ensures var telnet := PackageRecord("telnet", "1.2", "1", "x86_64");
            PackagesDivergent([telnet], []) == [] && PromisedDivergent([telnet], []) == [telnet]
  {
    var telnet := PackageRecord("telnet", "1.2", "1", "x86_64");
    assert Filter([telnet], Unasked([])) == [telnet];
  }

  /** The exact reading is the promised one exactly when whatever meets a
      reference, or is met by one, is listed identically on the other side. */
  lemma ExactAsPromisedIff(actual: Scope<PackageRecord>, reference: Scope<PackageRecord>)
    requires forall p <- actual.elements + reference.elements :: NulFree(p)
    ensures ExactDivergent(Some(actual), Some(reference)) == PromisedDivergent(actual.elements, reference.elements)
       <==> forall r <- reference.elements, a <- actual.elements :: Covers(r, a) ==>
              r in actual.elements && a in reference.elements
  {
    assert forall p :: Covers(p, p);
    hide PackageIdentity, PackageMatches;
    var acts, refs := Identities(actual.elements), Identities(reference.elements);
    var unlisted := (p: PackageRecord) => PackageIdentity(p) !in acts;
    var unknown := (p: PackageRecord) => PackageIdentity(p) !in refs;
    forall p | p in actual.elements || p in reference.elements
      ensures unlisted(p) == (p !in actual.elements) && unknown(p) == (p !in reference.elements)
    {
      assert p in actual.elements + reference.elements;
      IdentityMember(actual.elements, p);
      IdentityMember(reference.elements, p);
    }
    FilterAgree(reference.elements, unlisted, Unmet(actual.elements));
    FilterAgree(actual.elements, unknown, Unasked(reference.elements));
    if ExactDivergent(Some(actual), Some(reference)) == PromisedDivergent(actual.elements, reference.elements) {
      forall r <- reference.elements, a <- actual.elements | Covers(r, a)
        ensures r in actual.elements && a in reference.elements
      {
        CoveredIsListed(actual.elements, reference.elements, unlisted, unknown, r);
        CoveredIsListed(actual.elements, reference.elements, unlisted, unknown, a);
      }
    }
  }

  lemma CoveredIsListed(actual: seq<PackageRecord>, reference: seq<PackageRecord>,
                        unlisted: PackageRecord -> bool, unknown: PackageRecord -> bool, p: PackageRecord)
    requires Filter(reference, unlisted) + Filter(actual, unknown) == PromisedDivergent(actual, reference)
    ensures p in PromisedDivergent(actual, reference)
       <==> (p in reference && unlisted(p)) || (p in actual && unknown(p))
    ensures p in PromisedDivergent(actual, reference)
       <==> (p in reference && Unmet(actual)(p)) || (p in actual && Unasked(reference)(p))
  {
    hide Unmet, Unasked;
    FilterElements(reference, unlisted, p);
    FilterElements(actual, unknown, p);
    FilterElements(reference, Unmet(actual), p);
    FilterElements(actual, Unasked(reference), p);
  }

  /** For instance, it reports a package that is asked for in whatever version
      and is installed. */
  lemma ExactDistrusts()
    ensures var asked, installed := PackageRecord("nginx", "", "", ""), PackageRecord("nginx", "1.27.4", "1", "x86_64");
            && ExactDivergent(Some(Scope(map[], [installed])), Some(Scope(map[], [asked]))) != []
            && PromisedDivergent([installed], [asked]) == []
  {
    var asked, installed := PackageRecord("nginx", "", "", ""), PackageRecord("nginx", "1.27.4", "1", "x86_64");
    assert Covers(asked, installed);
    OneExactPair(asked, installed);
  }

  lemma OneExactPair(asked: PackageRecord, installed: PackageRecord)
    requires NulFree(asked) && NulFree(installed) && Covers(asked, installed)
    ensures ExactDivergent(Some(Scope(map[], [installed])), Some(Scope(map[], [asked]))) == [] <==> asked == installed
    ensures PromisedDivergent([installed], [asked]) == []
  {
    hide ExactDivergent, NulFree, Covers;
    assert installed in [installed] && asked in [asked];
    ExactEmptyIff(Scope(map[], [installed]), Scope(map[], [asked]));
    FilterEmptyIff([asked], Unmet([installed]));
    FilterEmptyIff([installed], Unasked([asked]));
  }
}
