/** Carrying an intent diff out on a system tree: writing and deleting files,
    setting unit states. */
module Converge {
  import opened Strings
  import opened Manifests
  import opened DiffDrift

  /** Permissions and ownership of a regular file. */
  datatype Attributes = Attributes(mode: string, user: string, group: string)

  datatype Node = File(content: string, attributes: Attributes) | Link(target: string)

  /** The leaves of a tree by absolute path; directories are implied. */
  type Disk = map<Path, Node>

  /** The offline enablement state of each unit. */
  type Units = map<string, string>

  /** What convergence reads but does not change.
      `sha` is the content digest, `blobs` the content found under a reference,
      which is a file of the content store or, behind a leading slash, of the
      system at large;
      `owner` the package that owns a path, `blocked` the paths that the file
      system refuses to write or remove, `resolve` the path that a link's target
      names, or none if it leads out of the tree, as an absolute target does
      when the tree is not the running one; `created` are the attributes of a
      file that did not exist before; `refused` are the units for which systemctl
      fails, `settle` and `place` tell what an accepted call leaves of the unit
      states and of the tree. */
  datatype Env = Env(
    sha: string -> string,
    blobs: Option<map<string, string>>,
    keepList: set<Path>,
    owner: map<Path, string>,
    blocked: set<Path>,
    resolve: (Path, string) -> Option<Path>,
    created: Path -> Attributes,
    refused: set<string>,
    settle: (ServiceRecord, Units) -> Units,
    place: (ServiceRecord, Disk) -> Disk)

  const MAX_LINKS := 40

  /** How a step ends; a crash is an exception that nothing catches. */
  datatype End = Finished | Failed | Crashed

  datatype Outcome<T> = Outcome(state: T, end: End) {
    predicate Ok() { end.Finished? }
  }

  function At<V>(m: map<string, V>, k: string): Option<V> {
    if k in m then Some(m[k]) else None
  }

  // ---- Files ---------------------------------------------------------------------------

  /** The name has something behind its slashes; without, cutting them off
      throws. */
  predicate Nameable(p: Path) {
    exists i :: 0 <= i < |p| && p[i] != '/'
  }

  /** Where a path leads: to a leaf of the tree, out of the tree, or nowhere. */
  datatype Place = Inside(path: Path) | Beyond | Nowhere

  /** Links are followed, up to the system's limit. */
  function Destination(disk: Disk, p: Path, env: Env, hops: nat): Place
    decreases hops
  {
    match LinkAt(disk, p)
    case None => Inside(p)
    case Some(target) =>
      if hops == 0 then Nowhere
      else match env.resolve(p, target)
        case None => Beyond
        case Some(q) => Destination(disk, q, env, hops - 1)
  }

  function LinkAt(disk: Disk, p: Path): Option<string> {
    if p in disk && disk[p].Link? then Some(disk[p].target) else None
  }

  /** The attributes a file has after a write, which sets none. */
  function AttributesAt(disk: Disk, p: Path, env: Env): Attributes {
    if p in disk && disk[p].File? then disk[p].attributes else env.created(p)
  }

  /** The bytes of a declared file: its blob, or nothing without a reference or
      a store. */
  function Content(e: FileRecord, env: Env): Option<string> {
    if e.contentRef != "" && env.blobs.Some? then
      if e.contentRef in env.blobs.value then Some(env.blobs.value[e.contentRef]) else None
    else Some("")
  }

  function WriteFile(disk: Disk, e: FileRecord, env: Env): Outcome<Disk> {
    if e.kind != "file" then Outcome(disk, Finished)
    else if !Nameable(e.name) then Outcome(disk, Crashed)
    else match Content(e, env)
      case None => Outcome(disk, Failed)
      case Some(content) =>
        var verdict := if e.sha256 == "" || env.sha(content) == e.sha256 then Finished else Failed;
        match Destination(disk, e.name, env, MAX_LINKS)
        case Nowhere => Outcome(disk, Failed)
        case Beyond => Outcome(disk, if e.name in env.blocked then Failed else verdict)
        case Inside(target) =>
          if target in env.blocked then Outcome(disk, Failed)
          else Outcome(disk[target := File(content, AttributesAt(disk, target, env))], verdict)
  }

  function WriteFiles(disk: Disk, files: seq<FileRecord>, env: Env): Outcome<Disk>
    decreases |files|
  {
    if files == [] then Outcome(disk, Finished)
    else
      var r := WriteFile(disk, files[0], env);
      if r.Ok() then WriteFiles(r.state, files[1..], env) else r
  }

  /** Never deleted: the syncpoint, keep-listed paths, package-owned paths. */
  predicate Excluded(p: Path, env: Env) {
    p == SYNCPOINT || p in env.keepList || p in env.owner
  }

  /** Removing a path that is not there is no failure. */
  function DeleteFile(disk: Disk, p: Path, env: Env): Outcome<Disk> {
    if Excluded(p, env) then Outcome(disk, Finished)
    else if !Nameable(p) then Outcome(disk, Crashed)
    else if p in env.blocked && p in disk then Outcome(disk, Failed)
    else Outcome(disk - {p}, Finished)
  }

  function DeleteFiles(disk: Disk, paths: seq<Path>, env: Env): Outcome<Disk>
    decreases |paths|
  {
    if paths == [] then Outcome(disk, Finished)
    else
      var r := DeleteFile(disk, paths[0], env);
      if r.Ok() then DeleteFiles(r.state, paths[1..], env) else r
  }

  function ConvergedFiles(disk: Disk, diff: Diff, env: Env): Outcome<Disk> {
    var r := WriteFiles(disk, diff.filesWrite, env);
    if r.Ok() then DeleteFiles(r.state, diff.filesDelete, env) else r
  }

  // ---- Units ---------------------------------------------------------------------------

  /** A tree and the unit states in it. */
  datatype Host = Host(disk: Disk, units: Units)

  predicate KnownState(state: string) {
    state == "enabled" || state == "disabled" || state == "masked"
  }

  /** `systemctl --root` enable, disable or mask; other states are skipped. */
  function SetUnit(h: Host, u: ServiceRecord, env: Env): Outcome<Host> {
    if !KnownState(u.state) then Outcome(h, Finished)
    else if u.name in env.refused then Outcome(h, Failed)
    else Outcome(Host(env.place(u, h.disk), env.settle(u, h.units)), Finished)
  }

  function ConvergedUnits(h: Host, changes: seq<ServiceRecord>, env: Env): Outcome<Host>
    decreases |changes|
  {
    if changes == [] then Outcome(h, Finished)
    else
      var r := SetUnit(h, changes[0], env);
      if r.Ok() then ConvergedUnits(r.state, changes[1..], env) else r
  }

  // ---- The loops over a mutable tree --------------------------------------------------

  class Tree {
    var disk: Disk
    var units: Units

    constructor (disk: Disk, units: Units)
      ensures this.disk == disk && this.units == units
    {
      this.disk, this.units := disk, units;
    }

    method ConvergeFiles(diff: Diff, env: Env) returns (end: End)
      modifies this`disk
      ensures Outcome(disk, end) == ConvergedFiles(old(disk), diff, env)
    {
      end := WriteDeclared(diff.filesWrite, env);
      if end != Finished {
        return;
      }
      end := DeleteDropped(diff.filesDelete, env);
    }

    method WriteDeclared(files: seq<FileRecord>, env: Env) returns (end: End)
      modifies this`disk
      ensures Outcome(disk, end) == WriteFiles(old(disk), files, env)
    {
      hide Nameable;
      for i := 0 to |files|
        invariant WriteFiles(disk, files[i..], env) == WriteFiles(old(disk), files, env)
      {
        var e := files[i];
        assert files[i..][0] == e && files[i..][1..] == files[i + 1..];
        if e.kind != "file" {
          continue;
        }
        if !Nameable(e.name) {
          return Crashed;
        }
        var content := "";
        if e.contentRef != "" && env.blobs.Some? {
          if e.contentRef !in env.blobs.value {
            return Failed;
          }
          content := env.blobs.value[e.contentRef];
        }
        match Destination(disk, e.name, env, MAX_LINKS) {
          case Nowhere => return Failed;
          case Beyond =>
            if e.name in env.blocked {
              return Failed;
            }
          case Inside(target) =>
            if target in env.blocked {
              return Failed;
            }
            disk := disk[target := File(content, AttributesAt(disk, target, env))];
        }
        if e.sha256 != "" {
          if env.sha(content) != e.sha256 {
            return Failed;
          }
        }
      }
      return Finished;
    }

    method DeleteDropped(paths: seq<Path>, env: Env) returns (end: End)
      modifies this`disk
      ensures Outcome(disk, end) == DeleteFiles(old(disk), paths, env)
    {
      hide Nameable;
      for i := 0 to |paths|
        invariant DeleteFiles(disk, paths[i..], env) == DeleteFiles(old(disk), paths, env)
      {
        var p := paths[i];
        assert paths[i..][0] == p && paths[i..][1..] == paths[i + 1..];
        if p == SYNCPOINT { continue; }
        if p in env.keepList { continue; }
        if p in env.owner { continue; }
        if !Nameable(p) {
          return Crashed;
        }
        if p in env.blocked && p in disk {
          return Failed;
        }
        disk := disk - {p};
      }
      return Finished;
    }

    method ConvergeUnits(changes: seq<ServiceRecord>, env: Env) returns (end: End)
      modifies this
      ensures Outcome(Host(disk, units), end) == ConvergedUnits(Host(old(disk), old(units)), changes, env)
    {
      for i := 0 to |changes|
        invariant ConvergedUnits(Host(disk, units), changes[i..], env)
               == ConvergedUnits(Host(old(disk), old(units)), changes, env)
      {
        var u := changes[i];
        assert changes[i..][0] == u && changes[i..][1..] == changes[i + 1..];
        if u.state == "enabled" || u.state == "disabled" || u.state == "masked" {
          if u.name in env.refused {
            return Failed;
          }
          units := env.settle(u, units);
          disk := env.place(u, disk);
        }
      }
      return Finished;
    }
  }

  // ---- Writes change no link -------------------------------------------------------------

  /** The same links, and the same attributes for whatever is written next. */
  ghost predicate SameShape(a: Disk, b: Disk, env: Env) {
    forall p :: LinkAt(a, p) == LinkAt(b, p) && AttributesAt(a, p, env) == AttributesAt(b, p, env)
  }

  lemma ShapeOfBoth(a: Disk, b: Disk, c: Disk, env: Env)
    requires SameShape(a, b, env)
    ensures SameShape(b, c, env) ==> SameShape(a, c, env)
  {
  }

  lemma {:induction false} DestinationStands(a: Disk, b: Disk, p: Path, env: Env, hops: nat)
    requires SameShape(a, b, env)
    ensures Destination(a, p, env, hops) == Destination(b, p, env, hops)
    decreases hops
  {
    if LinkAt(a, p).Some? && hops > 0 && env.resolve(p, LinkAt(a, p).value).Some? {
      DestinationStands(a, b, env.resolve(p, LinkAt(a, p).value).value, env, hops - 1);
    }
  }

  lemma {:induction false} DestinationIsNoLink(disk: Disk, p: Path, env: Env, hops: nat)
    ensures var d := Destination(disk, p, env, hops); d.Inside? ==> LinkAt(disk, d.path) == None
    decreases hops
  {
    if LinkAt(disk, p).Some? && hops > 0 && env.resolve(p, LinkAt(disk, p).value).Some? {
      DestinationIsNoLink(disk, env.resolve(p, LinkAt(disk, p).value).value, env, hops - 1);
    }
  }

  // ---- Closed form -----------------------------------------------------------------------

  /** Where in the tree a declared entry is written; entries that are no files
      are not, and some files end up outside. */
  function Landing(disk: Disk, e: FileRecord, env: Env): Option<Path> {
    var d := Destination(disk, e.name, env, MAX_LINKS);
    if e.kind == "file" && d.Inside? then Some(d.path) else None
  }

  predicate Writable(disk: Disk, e: FileRecord, env: Env) {
    match Destination(disk, e.name, env, MAX_LINKS)
    case Inside(p) => p !in env.blocked
    case Beyond => e.name !in env.blocked
    case Nowhere => false
  }

  /** A declared file that can be named, whose content is at hand and has the
      declared digest, and that can be written wherever it leads. */
  predicate Deliverable(disk: Disk, e: FileRecord, env: Env) {
    e.kind == "file" ==>
      && Nameable(e.name)
      && Content(e, env).Some?
      && Writable(disk, e, env)
      && (e.sha256 == "" || env.sha(Content(e, env).value) == e.sha256)
  }

  function Delivered(disk: Disk, e: FileRecord, p: Path, env: Env): Node {
    File(Content(e, env).GetOr(""), AttributesAt(disk, p, env))
  }

  /** What one declared entry contributes to the overlay. */
  function OverlayOne(disk: Disk, e: FileRecord, env: Env): Disk {
    match Landing(disk, e, env) case None => map[] case Some(p) => map[p := Delivered(disk, e, p, env)]
  }

  /** What the declared files put on a disk; at one place, the last. */
  function Overlay(disk: Disk, files: seq<FileRecord>, env: Env): Disk {
    if files == [] then map[] else OverlayOne(disk, files[0], env) + Overlay(disk, files[1..], env)
  }

  function Doomed(paths: seq<Path>, env: Env): set<Path> {
    set p <- paths | !Excluded(p, env)
  }

  lemma OverlayTwice<K, V>(m: map<K, V>, a: map<K, V>, b: map<K, V>)
    ensures (m + a) + b == m + (a + b)
  {
  }

  lemma WriteOneClosedForm(disk: Disk, e: FileRecord, env: Env)
    ensures var r := WriteFile(disk, e, env);
            && (r.Ok() <==> Deliverable(disk, e, env))
            && (r.Ok() ==> r.state == disk + OverlayOne(disk, e, env) && SameShape(disk, r.state, env))
            && (r.end.Crashed? <==> e.kind == "file" && !Nameable(e.name))
  {
    hide Nameable;
    assert disk + map[] == disk;
    DestinationIsNoLink(disk, e.name, env, MAX_LINKS);
  }

  lemma EntryStands(a: Disk, b: Disk, e: FileRecord, env: Env)
    requires SameShape(a, b, env)
    ensures OverlayOne(a, e, env) == OverlayOne(b, e, env)
    ensures Deliverable(a, e, env) == Deliverable(b, e, env)
  {
    hide Nameable, Content;
    DestinationStands(a, b, e.name, env, MAX_LINKS);
  }

  /** What is to be written does not depend on what was written before. */
  lemma {:induction false} OverlayStands(a: Disk, b: Disk, files: seq<FileRecord>, env: Env)
    requires SameShape(a, b, env)
    ensures Overlay(a, files, env) == Overlay(b, files, env)
    ensures forall e <- files :: Deliverable(a, e, env) == Deliverable(b, e, env)
  {
    hide SameShape, Deliverable, OverlayOne;
    if files != [] {
      EntryStands(a, b, files[0], env);
      OverlayStands(a, b, files[1..], env);
      assert files == [files[0]] + files[1..];
    }
  }

  /** The write loop in one equation, links followed and repeated entries
      included. */
  lemma {:induction false} WritesClosedForm(disk: Disk, files: seq<FileRecord>, env: Env)
    ensures var r := WriteFiles(disk, files, env);
            && (r.Ok() <==> forall e <- files :: Deliverable(disk, e, env))
            && (r.Ok() ==> r.state == disk + Overlay(disk, files, env) && SameShape(disk, r.state, env))
    decreases |files|
  {
    assert SameShape(disk, disk, env);
    hide Deliverable, WriteFile, OverlayOne, SameShape;
    if files == [] {
      assert disk + map[] == disk;
    } else {
      var e, rest := files[0], files[1..];
      assert files == [e] + rest && e in files;
      var r := WriteFile(disk, e, env);
      WriteOneClosedForm(disk, e, env);
      if r.Ok() {
        OverlayStands(disk, r.state, rest, env);
        WritesClosedForm(r.state, rest, env);
        ShapeOfBoth(disk, r.state, WriteFiles(disk, files, env).state, env);
        OverlayTwice(disk, OverlayOne(disk, e, env), Overlay(disk, rest, env));
      }
    }
  }

  /** The entry whose name is nothing but slashes. */
  predicate Nameless(e: FileRecord) {
    e.kind == "file" && !Nameable(e.name)
  }

  /** The write loop crashes at the first file without a name, if it gets there. */
  lemma {:induction false} WritesCrashIff(disk: Disk, files: seq<FileRecord>, env: Env)
    ensures WriteFiles(disk, files, env).end.Crashed? <==> WritesGetStuck(disk, files, env)
    decreases |files|
  {
    hide Deliverable, WriteFile, OverlayOne, SameShape, Nameless;
    if files != [] {
      var e, rest := files[0], files[1..];
      var r := WriteFile(disk, e, env);
      WriteOneClosedForm(disk, e, env);
      CrashOfOne(disk, e, env);
      if r.Ok() {
        OverlayStands(disk, r.state, rest, env);
        WritesCrashIff(r.state, rest, env);
        CrashPoint(disk, r.state, files, env);
      } else {
        assert files[..0] == [];
        forall i | 0 < i <= |files| ensures e in files[..i] {
          assert files[..i][0] == e;
        }
      }
    }
  }

  lemma CrashOfOne(disk: Disk, e: FileRecord, env: Env)
    ensures WriteFile(disk, e, env).end.Crashed? <==> Nameless(e)
    ensures Deliverable(disk, e, env) ==> !Nameless(e)
  {
    hide Nameable, Content, Destination;
  }

  lemma CrashPoint(disk: Disk, next: Disk, files: seq<FileRecord>, env: Env)
    requires files != [] && Deliverable(disk, files[0], env) && !Nameless(files[0])
    requires forall e <- files[1..] :: Deliverable(disk, e, env) == Deliverable(next, e, env)
    ensures (exists i :: 0 <= i < |files| && Nameless(files[i]) && forall e <- files[..i] :: Deliverable(disk, e, env))
       <==> (exists i :: 0 <= i < |files| - 1 && Nameless(files[1..][i])
                         && forall e <- files[1..][..i] :: Deliverable(next, e, env))
  {
    hide Deliverable, Nameless;
    var rest := files[1..];
    forall i | 0 <= i < |rest| ensures files[..i + 1] == [files[0]] + rest[..i] {
    }
    if exists i :: 0 <= i < |files| && Nameless(files[i]) && forall e <- files[..i] :: Deliverable(disk, e, env) {
      var i :| 0 <= i < |files| && Nameless(files[i]) && forall e <- files[..i] :: Deliverable(disk, e, env);
      assert files[..i] == [files[0]] + rest[..i - 1] && rest[i - 1] == files[i];
      forall e <- rest[..i - 1] ensures Deliverable(next, e, env) {
        assert e in files[..i] && e in rest;
      }
    }
    if exists i :: 0 <= i < |rest| && Nameless(rest[i]) && forall e <- rest[..i] :: Deliverable(next, e, env) {
      var i :| 0 <= i < |rest| && Nameless(rest[i]) && forall e <- rest[..i] :: Deliverable(next, e, env);
      assert files[i + 1] == rest[i];
      forall e <- files[..i + 1] ensures Deliverable(disk, e, env) {
        if e in rest[..i] {
          assert e in rest;
        }
      }
    }
  }

  /** A dropped path can be removed: it has a name, and the file system lets it. */
  predicate Removable(disk: Disk, p: Path, env: Env) {
    Nameable(p) && !(p in env.blocked && p in disk)
  }

  lemma {:induction false} DeletesClosedForm(disk: Disk, paths: seq<Path>, env: Env)
    ensures var r := DeleteFiles(disk, paths, env);
            && (r.Ok() <==> forall p <- paths :: !Excluded(p, env) ==> Removable(disk, p, env))
            && (r.Ok() ==> r.state == disk - Doomed(paths, env))
    decreases |paths|
  {
    hide Excluded, Nameable;
    if paths == [] {
      assert disk - {} == disk;
    } else {
      var p, rest := paths[0], paths[1..];
      assert paths == [p] + rest;
      assert p in paths;
      var r := DeleteFile(disk, p, env);
      if r.Ok() {
        DeletesClosedForm(r.state, rest, env);
        assert Doomed(paths, env) == Doomed([p], env) + Doomed(rest, env);
        assert r.state == disk - Doomed([p], env);
        assert (disk - Doomed([p], env)) - Doomed(rest, env) == disk - Doomed(paths, env);
      }
    }
  }

  /** Convergence in one equation: it succeeds exactly when every declared file
      can be delivered and every path to delete can be removed, and then the
      disk is the old one, overlaid with the declared files where they land,
      minus what was dropped. */
  lemma FilesClosedForm(disk: Disk, diff: Diff, env: Env)
    ensures var r := ConvergedFiles(disk, diff, env);
            && (r.Ok() <==> ((forall e <- diff.filesWrite :: Deliverable(disk, e, env))
                             && (forall p <- diff.filesDelete :: !Excluded(p, env) ==>
                                   Removable(disk + Overlay(disk, diff.filesWrite, env), p, env))))
            && (r.Ok() ==> r.state == disk + Overlay(disk, diff.filesWrite, env) - Doomed(diff.filesDelete, env))
  {
    hide Deliverable, Excluded, WriteFiles, DeleteFiles, Nameable;
    WritesClosedForm(disk, diff.filesWrite, env);
    var r := WriteFiles(disk, diff.filesWrite, env);
    if r.Ok() {
      DeletesClosedForm(r.state, diff.filesDelete, env);
    }
  }

  // ---- Crashes -------------------------------------------------------------------------------

  /** The delete loop gets to a path that it can neither skip nor name. */
  predicate DeletesGetStuck(disk: Disk, paths: seq<Path>, env: Env) {
    exists i :: 0 <= i < |paths| && !Excluded(paths[i], env) && !Nameable(paths[i])
                && forall p <- paths[..i] :: Excluded(p, env) || Removable(disk, p, env)
  }

  lemma {:induction false} DeletesCrashIff(disk: Disk, paths: seq<Path>, env: Env)
    ensures DeleteFiles(disk, paths, env).end.Crashed? <==> DeletesGetStuck(disk, paths, env)
    decreases |paths|
  {
    assert paths == [] ==> !DeletesGetStuck(disk, paths, env);
    hide Excluded, Nameable, DeletesGetStuck;
    if paths != [] {
      var r := DeleteFile(disk, paths[0], env);
      if r.Ok() {
        DeletesCrashIff(r.state, paths[1..], env);
        StuckLater(disk, r.state, paths, env);
      } else {
        StuckAtFirst(disk, paths, env);
      }
    }
  }

  lemma StuckAtFirst(disk: Disk, paths: seq<Path>, env: Env)
    requires paths != [] && !Excluded(paths[0], env) && !Removable(disk, paths[0], env)
    ensures DeletesGetStuck(disk, paths, env) <==> !Nameable(paths[0])
  {
    hide Excluded, Nameable, Removable;
    assert paths[..0] == [];
    forall i | 0 < i <= |paths| ensures paths[0] in paths[..i] {
      assert paths[..i][0] == paths[0];
    }
  }

  lemma StuckLater(disk: Disk, next: Disk, paths: seq<Path>, env: Env)
    requires paths != [] && (Excluded(paths[0], env) || Removable(disk, paths[0], env))
    requires next == if Excluded(paths[0], env) then disk else disk - {paths[0]}
    ensures DeletesGetStuck(disk, paths, env) <==> DeletesGetStuck(next, paths[1..], env)
  {
    hide Excluded, Nameable;
    var rest := paths[1..];
    forall i | 0 <= i < |rest| ensures paths[..i + 1] == [paths[0]] + rest[..i] && paths[i + 1] == rest[i] {
    }
    if DeletesGetStuck(disk, paths, env) {
      var i :| 0 <= i < |paths| && !Excluded(paths[i], env) && !Nameable(paths[i])
               && forall p <- paths[..i] :: Excluded(p, env) || Removable(disk, p, env);
      assert i > 0 && rest[i - 1] == paths[i];
      forall p <- rest[..i - 1] ensures Excluded(p, env) || Removable(next, p, env) {
        assert p in paths[..i];
      }
    }
    if DeletesGetStuck(next, rest, env) {
      var i :| 0 <= i < |rest| && !Excluded(rest[i], env) && !Nameable(rest[i])
               && forall p <- rest[..i] :: Excluded(p, env) || Removable(next, p, env);
      forall p <- paths[..i + 1] ensures Excluded(p, env) || Removable(disk, p, env) {
        if p != paths[0] {
          assert p in rest[..i];
        }
      }
    }
  }

  /** The write loop gets to a file that it cannot name. */
  predicate WritesGetStuck(disk: Disk, files: seq<FileRecord>, env: Env) {
    exists i :: 0 <= i < |files| && Nameless(files[i]) && forall e <- files[..i] :: Deliverable(disk, e, env)
  }

  /** From the inputs of the step: a loop gets stuck, the delete loop behind a
      write loop that delivers everything. */
  predicate GetsStuck(disk: Disk, diff: Diff, env: Env) {
    || WritesGetStuck(disk, diff.filesWrite, env)
    || ((forall e <- diff.filesWrite :: Deliverable(disk, e, env))
        && DeletesGetStuck(disk + Overlay(disk, diff.filesWrite, env), diff.filesDelete, env))
  }

  /** The files step crashes exactly then. */
  lemma FilesCrashIff(disk: Disk, diff: Diff, env: Env)
    ensures ConvergedFiles(disk, diff, env).end.Crashed? <==> GetsStuck(disk, diff, env)
  {
    hide Deliverable, Excluded, Nameable, WriteFiles, DeleteFiles, DeletesGetStuck, Nameless;
    WritesClosedForm(disk, diff.filesWrite, env);
    WritesCrashIff(disk, diff.filesWrite, env);
    var r := WriteFiles(disk, diff.filesWrite, env);
    if r.Ok() {
      DeletesCrashIff(r.state, diff.filesDelete, env);
    }
  }

  /** For instance, a files entry that gives nothing but its type has an empty
      name, and converging it brings the program down. */
  lemma NamelessEntryCrashes(disk: Disk, diff: Diff, env: Env)
    requires diff.filesWrite == [FileRecord("", "file", "", "", "", "", "", "", "")]
    ensures ConvergedFiles(disk, diff, env) == Outcome(disk, Crashed)
  {
    assert !Nameable("");
  }

  // ---- What is never written to -----------------------------------------------------------------

  /** The paths that the deletions spare are spared by the whole step exactly when
      nothing lands on them but what is there already. */
  lemma ExcludedSparedIff(disk: Disk, diff: Diff, env: Env)
    requires ConvergedFiles(disk, diff, env).Ok()
    ensures (forall p | Excluded(p, env) :: At(ConvergedFiles(disk, diff, env).state, p) == At(disk, p))
       <==> (forall p <- Overlay(disk, diff.filesWrite, env) | Excluded(p, env) ::
               At(disk, p) == Some(Overlay(disk, diff.filesWrite, env)[p]))
  {
    hide ConvergedFiles, Overlay, Deliverable, Removable, Excluded;
    FilesClosedForm(disk, diff, env);
    var o, r := Overlay(disk, diff.filesWrite, env), ConvergedFiles(disk, diff, env).state;
    forall p | Excluded(p, env) ensures At(r, p) == if p in o then Some(o[p]) else At(disk, p) {
    }
    if forall p | Excluded(p, env) :: At(r, p) == At(disk, p) {
      forall p <- o | Excluded(p, env) ensures At(disk, p) == Some(o[p]) {
        assert At(r, p) == At(disk, p);
      }
    }
  }

  /** For instance, a manifest that declares the syncpoint has it written. */
  lemma SyncpointWritten(env: Env)
    requires env.blocked == {}
    ensures var e := FileRecord(SYNCPOINT, "file", "", "", "", "", "", "", "");
            ConvergedFiles(map[], Diff([], [], [], [e], [], []), env)
            == Outcome(map[SYNCPOINT := File("", env.created(SYNCPOINT))], Finished)
  {
    var e := FileRecord(SYNCPOINT, "file", "", "", "", "", "", "", "");
    assert SYNCPOINT[1] != '/';
    var nothing: Disk := map[];
    assert Destination(nothing, SYNCPOINT, env, MAX_LINKS) == Inside(SYNCPOINT);
    assert WriteFiles(nothing, [e], env) == WriteFile(nothing, e, env);
  }

  // ---- Writes that leave the tree ---------------------------------------------------------------

  /** When the step succeeds, a declared file is where it landed in the tree that is
      to become the new generation exactly when no link took its path out of the
      tree, and where it landed is not deleted as a dropped path. */
  lemma StaysInsideIff(disk: Disk, diff: Diff, env: Env, e: FileRecord)
    requires ConvergedFiles(disk, diff, env).Ok() && e in diff.filesWrite && e.kind == "file"
    ensures var d := Landing(disk, e, env);
            (d.Some? && d.value in ConvergedFiles(disk, diff, env).state
             <==> !Destination(disk, e.name, env, MAX_LINKS).Beyond?
                  && (d.Some? ==> d.value !in Doomed(diff.filesDelete, env)))
  {
    hide ConvergedFiles, Destination, Excluded, Nameable, Removable, Overlay;
    FilesClosedForm(disk, diff, env);
    assert Deliverable(disk, e, env);
    if Landing(disk, e, env).Some? {
      OverlayHas(disk, diff.filesWrite, env, e, Landing(disk, e, env).value);
    }
  }

  /** For instance, a file declared at a link whose target is dropped: it is
      written through the link and then deleted. */
  lemma LandingDropped(was: Node, env: Env)
    requires env.blocked == {} && env.keepList == {} && env.owner == map[] && was.File?
    requires env.resolve("/etc/a", "b") == Some("/etc/b")
    ensures var e := FileRecord("/etc/a", "file", "", "", "", "", "", "", "");
            ConvergedFiles(map["/etc/a" := Link("b"), "/etc/b" := was], Diff([], [], [], [e], ["/etc/b"], []), env)
            == Outcome(map["/etc/a" := Link("b")], Finished)
  {
    var a, b := "/etc/a", "/etc/b";
    var e := FileRecord(a, "file", "", "", "", "", "", "", "");
    var disk := map[a := Link("b"), b := was];
    assert a[5] == 'a' && b[5] == 'b' && |b| != |SYNCPOINT|;
    assert Destination(disk, a, env, MAX_LINKS) == Destination(disk, b, env, MAX_LINKS - 1) == Inside(b);
    var r := WriteFile(disk, e, env);
    assert WriteFiles(disk, [e], env) == r;
    assert DeleteFiles(r.state, [b], env) == DeleteFile(r.state, b, env);
    assert r.state - {b} == map[a := Link("b")];
  }

  /** For instance, a file declared at a link that leads out of the tree: the step
      succeeds and the tree is as before. */
  lemma WriteEscapes(target: string, env: Env)
    requires env.blocked == {} && env.resolve("/etc/motd", target) == None
    ensures var e := FileRecord("/etc/motd", "file", "", "", "", "", "", "", "");
            ConvergedFiles(map["/etc/motd" := Link(target)], Diff([], [], [], [e], [], []), env)
            == Outcome(map["/etc/motd" := Link(target)], Finished)
  {
    var e := FileRecord("/etc/motd", "file", "", "", "", "", "", "", "");
    var disk := map["/etc/motd" := Link(target)];
    assert e.name[1] != '/';
    assert Destination(disk, e.name, env, MAX_LINKS) == Beyond;
    assert WriteFiles(disk, [e], env) == WriteFile(disk, e, env);
  }

  // ---- Attributes ------------------------------------------------------------------------

  /** What the declaration asks for beside content. */
  function Wanted(e: FileRecord): Attributes {
    Attributes(e.mode, e.user, e.group)
  }

  /** A converged file has the declared attributes exactly when a file in its
      place had them before, or a new file gets them by default. */
  lemma AttributesIff(disk: Disk, diff: Diff, env: Env, e: FileRecord)
    requires ConvergedFiles(disk, diff, env).Ok() && e in diff.filesWrite && e.kind == "file"
    ensures Landing(disk, e, env).Some? ==>
            var r, d := ConvergedFiles(disk, diff, env).state, Landing(disk, e, env).value;
            d !in Doomed(diff.filesDelete, env) ==>
              && d in r && r[d].File?
              && (r[d].attributes == Wanted(e) <==> AttributesAt(disk, d, env) == Wanted(e))
  {
    hide ConvergedFiles, Destination, AttributesAt, Excluded, Nameable;
    FilesClosedForm(disk, diff, env);
    assert Deliverable(disk, e, env);
    if Landing(disk, e, env).Some? {
      var d := Landing(disk, e, env).value;
      OverlayHas(disk, diff.filesWrite, env, e, d);
      var f := OverlayOf(disk, diff.filesWrite, env, d);
    }
  }

  /** For instance, a file that is there with mode 0644 and is declared with
      0600 keeps 0644, and the step reports success. */
  lemma ModeStays(content: string, env: Env)
    requires env.blocked == {}
    ensures var was := map["/etc/shadow.bak" := File(content, Attributes("0644", "root", "root"))];
            var e := FileRecord("/etc/shadow.bak", "file", "0600", "root", "root", "", "", "", "");
            var r := ConvergedFiles(was, Diff([], [], [], [e], [], []), env);
            r.Ok() && r.state == map["/etc/shadow.bak" := File("", Attributes("0644", "root", "root"))]
  {
    var p := "/etc/shadow.bak";
    assert p[1] != '/';
    var e := FileRecord(p, "file", "0600", "root", "root", "", "", "", "");
    var was := map[p := File(content, Attributes("0644", "root", "root"))];
    assert WriteFiles(was, [e], env) == WriteFile(was, e, env);
    assert Destination(was, p, env, MAX_LINKS) == Inside(p);
  }

  // ---- Units in closed form ----------------------------------------------------------------

  /** The unit states after a list of changes. */
  function StatesAfter(changes: seq<ServiceRecord>, units: Units, env: Env): Units {
    if changes == [] then units
    else StatesAfter(changes[1..], if KnownState(changes[0].state) then env.settle(changes[0], units) else units, env)
  }

  /** The tree after a list of changes. */
  function DiskAfter(changes: seq<ServiceRecord>, disk: Disk, env: Env): Disk {
    if changes == [] then disk
    else DiskAfter(changes[1..], if KnownState(changes[0].state) then env.place(changes[0], disk) else disk, env)
  }

  predicate Settable(u: ServiceRecord, env: Env) {
    KnownState(u.state) ==> u.name !in env.refused
  }

  /** Units are set exactly when systemctl accepts every known state asked for;
      then unit states and tree have gone through all changes, independently. */
  lemma {:induction false} UnitsClosedForm(h: Host, changes: seq<ServiceRecord>, env: Env)
    ensures var r := ConvergedUnits(h, changes, env);
            && (r.Ok() <==> forall u <- changes :: Settable(u, env))
            && (r.Ok() ==> r.state.disk == DiskAfter(changes, h.disk, env))
            && (r.Ok() ==> r.state.units == StatesAfter(changes, h.units, env))
            && !r.end.Crashed?
    decreases |changes|
  {
    hide KnownState;
    if changes != [] {
      var u, rest := changes[0], changes[1..];
      assert changes == [u] + rest && u in changes;
      var r := SetUnit(h, u, env);
      if r.Ok() {
        UnitsClosedForm(r.state, rest, env);
      }
    }
  }

  // ---- The overlay, path by path -----------------------------------------------------------

  lemma {:induction false} OverlayHas(disk: Disk, files: seq<FileRecord>, env: Env, e: FileRecord, p: Path)
    requires e in files && Landing(disk, e, env) == Some(p)
    ensures p in Overlay(disk, files, env)
  {
    hide Landing, Delivered;
    if e != files[0] {
      assert files == [files[0]] + files[1..];
      OverlayHas(disk, files[1..], env, e, p);
    }
  }

  lemma {:induction false} OverlayOf(disk: Disk, files: seq<FileRecord>, env: Env, p: Path) returns (e: FileRecord)
    requires p in Overlay(disk, files, env)
    ensures e in files && Landing(disk, e, env) == Some(p)
    ensures Overlay(disk, files, env)[p] == Delivered(disk, e, p, env)
  {
    hide Landing, Delivered;
    if p in Overlay(disk, files[1..], env) {
      e := OverlayOf(disk, files[1..], env, p);
    } else {
      e := files[0];
    }
  }

  /** No declared regular file is a link on disk. */
  predicate PlainTargets(disk: Disk, files: seq<FileRecord>) {
    forall e <- files :: e.kind == "file" && e.name in disk ==> disk[e.name].File?
  }

  lemma PlainLanding(disk: Disk, files: seq<FileRecord>, e: FileRecord, env: Env)
    requires PlainTargets(disk, files) && e in files && e.kind == "file"
    ensures Landing(disk, e, env) == Some(e.name)
  {
  }
}
