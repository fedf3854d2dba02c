/** The files step as the Rust verb takes it: where it parts from C++. */
module RustConverge {
  import opened Strings
  import opened Manifests
  import opened DiffDrift
  import opened Converge

  /** What this form asks of the system besides.
      `octal` reads a mode, `fixed` are the paths whose mode cannot be set,
      `directories` the directories of the tree, and `beyond` the paths whose
      links lead out of the tree to something that exists. */
  datatype Platform = Platform(
    octal: string -> Option<string>,
    fixed: set<Path>,
    directories: set<Path>,
    beyond: set<Path>)

  // ---- Writing -----------------------------------------------------------------------------

  function TrimSlashes(s: string): string {
    if s != "" && s[0] == '/' then TrimSlashes(s[1..]) else s
  }

  /** The bytes of a declared file; a reference asks for a store, and for a file
      in it, whatever it starts with. */
  function ResolveContent(e: FileRecord, env: Env): Option<string> {
    if e.contentRef == "" then Some("")
    else if env.blobs.None? || TrimSlashes(e.contentRef) == "" then None
    else At(env.blobs.value, TrimSlashes(e.contentRef))
  }

  /** The mode a file has after `apply_mode`, if that succeeds. */
  function ModeAfter(e: FileRecord, p: Path, was: string, pf: Platform): Option<string> {
    if e.mode == "" then Some(was)
    else if p in pf.fixed then None
    else pf.octal(e.mode)
  }

  function Chmod(a: Attributes, mode: string): Attributes {
    a.(mode := mode)
  }

  function PutFile(disk: Disk, e: FileRecord, env: Env, pf: Platform): Outcome<Disk> {
    if e.kind != "file" then Outcome(disk, Finished)
    else match ResolveContent(e, env)
      case None => Outcome(disk, Failed)
      case Some(content) =>
        var verdict := if e.sha256 == "" || env.sha(content) == e.sha256 then Finished else Failed;
        match Destination(disk, e.name, env, MAX_LINKS)
        case Nowhere => Outcome(disk, Failed)
        case Beyond =>
          Outcome(disk, if e.name in env.blocked || ModeAfter(e, e.name, "", pf).None? then Failed else verdict)
        case Inside(p) =>
          if p in env.blocked || !Nameable(p) then Outcome(disk, Failed)
          else
            var a := AttributesAt(disk, p, env);
            match ModeAfter(e, p, a.mode, pf)
            case None => Outcome(disk[p := File(content, a)], Failed)
            case Some(mode) => Outcome(disk[p := File(content, Chmod(a, mode))], verdict)
  }

  function PutFiles(disk: Disk, files: seq<FileRecord>, env: Env, pf: Platform): Outcome<Disk>
    decreases |files|
  {
    if files == [] then Outcome(disk, Finished)
    else
      var r := PutFile(disk, files[0], env, pf);
      if r.Ok() then PutFiles(r.state, files[1..], env, pf) else r
  }

  // ---- Deleting ----------------------------------------------------------------------------

  /** Something is there, links followed. */
  predicate Exists(disk: Disk, p: Path, env: Env, pf: Platform) {
    match Destination(disk, p, env, MAX_LINKS)
    case Inside(q) => q in disk || q in pf.directories
    case Beyond => p in pf.beyond
    case Nowhere => false
  }

  /** The syncpoint, keep-listed paths, and what the given test claims. */
  predicate Spared(p: Path, env: Env, owned: Path -> bool) {
    p == SYNCPOINT || p in env.keepList || owned(p)
  }

  /** A path that exists and is no leaf is a directory, which is not removed. */
  function DropFile(disk: Disk, p: Path, env: Env, pf: Platform, owned: Path -> bool): Outcome<Disk> {
    if Spared(p, env, owned) || !Exists(disk, p, env, pf) then Outcome(disk, Finished)
    else if p in env.blocked || p !in disk then Outcome(disk, Failed)
    else Outcome(disk - {p}, Finished)
  }

  function DropFiles(disk: Disk, paths: seq<Path>, env: Env, pf: Platform, owned: Path -> bool): Outcome<Disk>
    decreases |paths|
  {
    if paths == [] then Outcome(disk, Finished)
    else
      var r := DropFile(disk, paths[0], env, pf, owned);
      if r.Ok() then DropFiles(r.state, paths[1..], env, pf, owned) else r
  }

  function FilesPut(disk: Disk, diff: Diff, env: Env, pf: Platform, owned: Path -> bool): Outcome<Disk> {
    var r := PutFiles(disk, diff.filesWrite, env, pf);
    if r.Ok() then DropFiles(r.state, diff.filesDelete, env, pf, owned) else r
  }

  // ---- The loops ---------------------------------------------------------------------------

  class Root {
    var disk: Disk

    constructor (disk: Disk)
      ensures this.disk == disk
    {
      this.disk := disk;
    }

    method ConvergeFiles(diff: Diff, env: Env, pf: Platform, owned: Path -> bool) returns (end: End)
      modifies this
      ensures Outcome(disk, end) == FilesPut(old(disk), diff, env, pf, owned)
    {
      end := PutDeclared(diff.filesWrite, env, pf);
      if end != Finished {
        return;
      }
      end := DropUnlessOwned(diff.filesDelete, env, pf, owned);
    }

    method PutDeclared(files: seq<FileRecord>, env: Env, pf: Platform) returns (end: End)
      modifies this
      ensures Outcome(disk, end) == PutFiles(old(disk), files, env, pf)
    {
      hide Nameable, Destination;
      for i := 0 to |files|
        invariant PutFiles(disk, files[i..], env, pf) == PutFiles(old(disk), files, env, pf)
      {
        var rec := files[i];
        assert files[i..][0] == rec && files[i..][1..] == files[i + 1..];
        if rec.kind != "file" {
          continue;
        }
        var content := ResolveContent(rec, env);
        if content.None? {
          return Failed;
        }
        end := PutOne(rec, content.value, env, pf);
        if end != Finished {
          return;
        }
      }
      return Finished;
    }

    /** Write, mode, digest. */
    method PutOne(rec: FileRecord, content: string, env: Env, pf: Platform) returns (end: End)
      requires rec.kind == "file" && ResolveContent(rec, env) == Some(content)
      modifies this
      ensures Outcome(disk, end) == PutFile(old(disk), rec, env, pf)
    {
      match Destination(disk, rec.name, env, MAX_LINKS) {
        case Nowhere => return Failed;
        case Beyond =>
          if rec.name in env.blocked || ModeAfter(rec, rec.name, "", pf).None? {
            return Failed;
          }
        case Inside(dest) =>
          if dest in env.blocked || !Nameable(dest) {
            return Failed;
          }
          var a := AttributesAt(disk, dest, env);
          disk := disk[dest := File(content, a)];
          if rec.mode != "" {
            var parsed := pf.octal(rec.mode);
            if dest in pf.fixed || parsed.None? {
              return Failed;
            }
            assert old(disk)[dest := File(content, a)][dest := File(content, Chmod(a, parsed.value))]
                == old(disk)[dest := File(content, Chmod(a, parsed.value))];
            disk := disk[dest := File(content, Chmod(a, parsed.value))];
          }
      }
      if rec.sha256 != "" {
        if env.sha(content) != rec.sha256 {
          return Failed;
        }
      }
      return Finished;
    }

    method DropUnlessOwned(paths: seq<Path>, env: Env, pf: Platform, owned: Path -> bool) returns (end: End)
      modifies this
      ensures Outcome(disk, end) == DropFiles(old(disk), paths, env, pf, owned)
    {
      hide Destination;
      for i := 0 to |paths|
        invariant DropFiles(disk, paths[i..], env, pf, owned) == DropFiles(old(disk), paths, env, pf, owned)
      {
        var p := paths[i];
        assert paths[i..][0] == p && paths[i..][1..] == paths[i + 1..];
        if p == SYNCPOINT || p in env.keepList || owned(p) {
          continue;
        }
        if Exists(disk, p, env, pf) {
          if p in env.blocked || p !in disk {
            return Failed;
          }
          disk := disk - {p};
        }
      }
      return Finished;
    }
  }

  // ---- Package-owned paths -----------------------------------------------------------------

  /** The test for package ownership that the verb passes in. */
  function NeverOwned(): Path -> bool {
    (p: Path) => false
  }

  /** The loop never finds the path there: it is not listed, or dangles whenever
      its turn comes. */
  predicate NeverFound(disk: Disk, paths: seq<Path>, env: Env, pf: Platform, owned: Path -> bool, p: Path) {
    forall i :: 0 <= i < |paths| && paths[i] == p ==>
      !Exists(DropFiles(disk, paths[..i], env, pf, owned).state, p, env, pf)
  }

  /** A leaf survives the loop exactly when it is the syncpoint, keep-listed, owned
      as far as the loop is told, or never found. */
  lemma {:induction false} DroppedIff(disk: Disk, paths: seq<Path>, env: Env, pf: Platform,
                                      owned: Path -> bool, p: Path)
    requires p in disk && DropFiles(disk, paths, env, pf, owned).Ok()
    ensures p in DropFiles(disk, paths, env, pf, owned).state
       <==> p == SYNCPOINT || p in env.keepList || owned(p) || NeverFound(disk, paths, env, pf, owned, p)
    decreases |paths|
  {
    assert NeverFound(disk, [], env, pf, owned, p);
    hide Exists, NeverFound;
    if paths != [] {
      var r := DropFile(disk, paths[0], env, pf, owned);
      NotFoundFirst(disk, paths, env, pf, owned, p);
      if p in r.state {
        DroppedIff(r.state, paths[1..], env, pf, owned, p);
      } else {
        StaysGone(r.state, paths[1..], env, pf, owned, p);
      }
    }
  }

  lemma NotFoundFirst(disk: Disk, paths: seq<Path>, env: Env, pf: Platform, owned: Path -> bool, p: Path)
    requires paths != [] && DropFile(disk, paths[0], env, pf, owned).Ok()
    ensures NeverFound(disk, paths, env, pf, owned, p)
       <==> (paths[0] == p ==> !Exists(disk, p, env, pf))
            && NeverFound(DropFile(disk, paths[0], env, pf, owned).state, paths[1..], env, pf, owned, p)
  {
    hide Exists, DropFile;
    var rest, next := paths[1..], DropFile(disk, paths[0], env, pf, owned).state;
    assert paths[..0] == [];
    forall i | 0 <= i < |rest|
      ensures DropFiles(disk, paths[..i + 1], env, pf, owned).state == DropFiles(next, rest[..i], env, pf, owned).state
      ensures paths[i + 1] == rest[i]
    {
      assert paths[..i + 1][0] == paths[0] && paths[..i + 1][1..] == rest[..i];
    }
    if NeverFound(disk, paths, env, pf, owned, p) {
      forall i | 0 <= i < |rest| && rest[i] == p
        ensures !Exists(DropFiles(next, rest[..i], env, pf, owned).state, p, env, pf)
      {
        assert paths[i + 1] == p;
      }
    } else {
      var i :| 0 <= i < |paths| && paths[i] == p
               && Exists(DropFiles(disk, paths[..i], env, pf, owned).state, p, env, pf);
      if i > 0 {
        assert rest[i - 1] == p && paths[..(i - 1) + 1] == paths[..i];
      }
    }
  }

  lemma {:induction false} StaysGone(disk: Disk, paths: seq<Path>, env: Env, pf: Platform, owned: Path -> bool, p: Path)
    requires p !in disk
    ensures p !in DropFiles(disk, paths, env, pf, owned).state
    decreases |paths|
  {
    hide Exists;
    if paths != [] {
      var r := DropFile(disk, paths[0], env, pf, owned);
      if r.Ok() {
        StaysGone(r.state, paths[1..], env, pf, owned, p);
      }
    }
  }

  /** The verb spares all leaves that packages own exactly when each is the
      syncpoint, keep-listed, or never found. */
  lemma OwnedSparedIff(disk: Disk, paths: seq<Path>, env: Env, pf: Platform)
    requires DropFiles(disk, paths, env, pf, NeverOwned()).Ok()
    ensures (forall p <- env.owner | p in disk :: p in DropFiles(disk, paths, env, pf, NeverOwned()).state)
       <==> (forall p <- env.owner | p in disk ::
               p == SYNCPOINT || p in env.keepList || NeverFound(disk, paths, env, pf, NeverOwned(), p))
  {
    hide DropFiles, NeverFound;
    forall p <- env.owner | p in disk
      ensures p in DropFiles(disk, paths, env, pf, NeverOwned()).state
         <==> p == SYNCPOINT || p in env.keepList || NeverFound(disk, paths, env, pf, NeverOwned(), p)
    {
      DroppedIff(disk, paths, env, pf, NeverOwned(), p);
    }
  }

  /** A regular file is there until it is removed, so for those it comes down to
      being listed. */
  lemma {:induction false} FileIsFound(disk: Disk, paths: seq<Path>, env: Env, pf: Platform, p: Path)
    requires p in disk && disk[p].File? && !Spared(p, env, NeverOwned())
    ensures NeverFound(disk, paths, env, pf, NeverOwned(), p) <==> p !in paths
    decreases |paths|
  {
    if p in paths {
      assert paths == [paths[0]] + paths[1..];
      var r := DropFile(disk, paths[0], env, pf, NeverOwned());
      if paths[0] == p {
        assert paths[..0] == [];
      } else if r.Ok() {
        FileIsFound(r.state, paths[1..], env, pf, p);
        NotFoundFirst(disk, paths, env, pf, NeverOwned(), p);
      } else {
        StuckBefore(disk, paths, env, pf, p);
      }
    }
  }

  lemma StuckBefore(disk: Disk, paths: seq<Path>, env: Env, pf: Platform, p: Path)
    requires p in paths && p in disk && disk[p].File?
    requires paths[0] != p && !DropFile(disk, paths[0], env, pf, NeverOwned()).Ok()
    ensures !NeverFound(disk, paths, env, pf, NeverOwned(), p)
  {
    var i :| 0 <= i < |paths| && paths[i] == p;
    assert paths[..i][0] == paths[0];
    assert DropFiles(disk, paths[..i], env, pf, NeverOwned()).state == disk;
  }

  /** For instance, /etc/hosts, which a package owns, is deleted once it has been
      declared and is declared no longer; C++ keeps it. */
  lemma OwnedFileDropped(node: Node, env: Env, pf: Platform)
    requires node.File? && "/etc/hosts" in env.owner && env.keepList == {} && env.blocked == {}
    ensures var disk := map["/etc/hosts" := node];
            && DropFiles(disk, ["/etc/hosts"], env, pf, NeverOwned()) == Outcome(map[], Finished)
            && DeleteFiles(disk, ["/etc/hosts"], env) == Outcome(disk, Finished)
  {
    var p, disk := "/etc/hosts", map["/etc/hosts" := node];
    assert |p| != |SYNCPOINT|;
    assert Exists(disk, p, env, pf);
    OwnedLeafDropped(disk, p, env, pf);
  }

  /** And so is an owned link, as long as it leads somewhere. */
  lemma OwnedLinkDropped(env: Env, pf: Platform)
    requires "/etc/localtime" in env.owner && env.keepList == {} && env.blocked == {}
    requires env.resolve("/etc/localtime", "/usr/share/zoneinfo/UTC") == Some("/usr/share/zoneinfo/UTC")
    ensures var zone := map["/usr/share/zoneinfo/UTC" := File("", Attributes("0644", "root", "root"))];
            var disk := zone["/etc/localtime" := Link("/usr/share/zoneinfo/UTC")];
            && DropFiles(disk, ["/etc/localtime"], env, pf, NeverOwned()) == Outcome(zone, Finished)
            && DeleteFiles(disk, ["/etc/localtime"], env) == Outcome(disk, Finished)
  {
    var p, target := "/etc/localtime", "/usr/share/zoneinfo/UTC";
    var zone := map[target := File("", Attributes("0644", "root", "root"))];
    var disk := zone[p := Link(target)];
    assert |p| != |SYNCPOINT| && |p| != |target|;
    assert Destination(disk, p, env, MAX_LINKS) == Destination(disk, target, env, MAX_LINKS - 1) == Inside(target);
    OwnedLeafDropped(disk, p, env, pf);
    assert disk - {p} == zone;
  }

  lemma OwnedLeafDropped(disk: Disk, p: Path, env: Env, pf: Platform)
    requires p in disk && p in env.owner && p != SYNCPOINT && env.keepList == {} && env.blocked == {}
    requires Exists(disk, p, env, pf)
    ensures DropFiles(disk, [p], env, pf, NeverOwned()) == Outcome(disk - {p}, Finished)
    ensures DeleteFiles(disk, [p], env) == Outcome(disk, Finished)
  {
    hide Exists;
    var r := DropFile(disk, p, env, pf, NeverOwned());
    assert DropFiles(disk, [p], env, pf, NeverOwned()) == DropFiles(r.state, [], env, pf, NeverOwned());
    assert DeleteFiles(disk, [p], env) == DeleteFiles(disk, [], env);
  }

  // ---- Against the C++ form ------------------------------------------------------------------

  /** The content of a declared file is the same in both languages exactly when
      there is no reference, or one with a store in which it finds the same with
      and without its leading slashes. */
  lemma ContentAgreesIff(e: FileRecord, env: Env)
    ensures ResolveContent(e, env) == Content(e, env)
       <==> e.contentRef == ""
            || (env.blobs.Some?
                && At(env.blobs.value, e.contentRef)
                   == if TrimSlashes(e.contentRef) == "" then None else At(env.blobs.value, TrimSlashes(e.contentRef)))
  {
  }

  /** For instance, a reference with a leading slash: Rust looks for it in the
      store, C++ in the system. */
  lemma AbsoluteReference(e: FileRecord, env: Env, content: string)
    requires e.contentRef == "/etc/motd" && env.blobs == Some(map["/etc/motd" := content])
    ensures Content(e, env) == Some(content) && ResolveContent(e, env) == None
  {
    assert e.contentRef[1..][0] == 'e' && TrimSlashes(e.contentRef) == e.contentRef[1..];
    assert |e.contentRef[1..]| != |"/etc/motd"|;
  }

  /** The file can be written wherever its path leads, and its mode can be set. */
  predicate Puttable(disk: Disk, e: FileRecord, env: Env, pf: Platform) {
    match Destination(disk, e.name, env, MAX_LINKS)
    case Inside(p) => p !in env.blocked && Nameable(p) && ModeAfter(e, p, AttributesAt(disk, p, env).mode, pf).Some?
    case Beyond => e.name !in env.blocked && ModeAfter(e, e.name, "", pf).Some?
    case Nowhere => false
  }

  /** A file is written exactly when its content is to be had and has the declared
      digest, and it can be put where its path leads. */
  lemma PutIff(disk: Disk, e: FileRecord, env: Env, pf: Platform)
    requires e.kind == "file"
    ensures PutFile(disk, e, env, pf).Ok()
       <==> ResolveContent(e, env).Some? && Puttable(disk, e, env, pf)
            && (e.sha256 == "" || env.sha(ResolveContent(e, env).value) == e.sha256)
    ensures PutFile(disk, e, env, pf).Ok() && Landing(disk, e, env).Some? ==>
      var r, p := PutFile(disk, e, env, pf).state, Landing(disk, e, env).value;
      p in r && r[p].File? && r[p].content == ResolveContent(e, env).value
  {
    hide Destination, Nameable, ResolveContent;
  }

  /** For instance, with a reference and no store: Rust refuses, C++ writes an
      empty file. */
  lemma StorelessReference(disk: Disk, e: FileRecord, env: Env, pf: Platform)
    requires e.kind == "file" && e.contentRef != "" && env.blobs.None?
    ensures PutFile(disk, e, env, pf) == Outcome(disk, Failed) && Content(e, env) == Some("")
  {
  }

  /** A written file has the declared mode afterwards, whatever it had; user and
      group stay. */
  lemma ModeIsSet(disk: Disk, e: FileRecord, env: Env, pf: Platform)
    requires e.kind == "file" && e.mode != "" && PutFile(disk, e, env, pf).Ok() && Landing(disk, e, env).Some?
    ensures var r, p := PutFile(disk, e, env, pf).state, Landing(disk, e, env).value;
            && p in r && r[p].File? && pf.octal(e.mode) == Some(r[p].attributes.mode)
            && r[p].attributes == Chmod(AttributesAt(disk, p, env), r[p].attributes.mode)
  {
    hide Destination, Nameable;
  }
}
