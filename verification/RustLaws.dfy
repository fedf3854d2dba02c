/** The files step of the Rust verb said in terms of its inputs. */
module RustLaws {
  import opened Strings
  import opened Manifests
  import opened DiffDrift
  import opened Converge
  import opened ConvergeLaws
  import opened RustConverge

  // ---- Writing ----------------------------------------------------------------------------

  /** Leading slashes go, and nothing else. */
  lemma {:induction false} TrimmedSlashes(s: string) returns (k: nat)
    ensures k <= |s| && TrimSlashes(s) == s[k..] && (k < |s| ==> s[k] != '/')
    ensures forall i :: 0 <= i < k ==> s[i] == '/'
  {
    if s != "" && s[0] == '/' {
      var n := TrimmedSlashes(s[1..]);
      k := n + 1;
      assert s[1..][n..] == s[k..];
      assert forall i :: 0 < i < k ==> s[i] == s[1..][i - 1];
    } else {
      k := 0;
    }
  }

  /** The bytes that a file is declared to have, in this form. */
  function BytesOf(e: FileRecord, env: Env): string {
    var ref := TrimSlashes(e.contentRef);
    if e.contentRef != "" && env.blobs.Some? && ref in env.blobs.value then env.blobs.value[ref] else ""
  }

  /** The file has content and digest, and a way that ends where bytes and mode
      can be set. */
  predicate CanPut(disk: Disk, e: FileRecord, env: Env, pf: Platform) {
    && (e.contentRef == "" || (env.blobs.Some? && TrimSlashes(e.contentRef) != ""
                               && TrimSlashes(e.contentRef) in env.blobs.value))
    && (e.sha256 == "" || env.sha(BytesOf(e, env)) == e.sha256)
    && match Destination(disk, e.name, env, 40)
       case Inside(q) =>
         && q !in env.blocked && (exists i :: 0 <= i < |q| && q[i] != '/')
         && (e.mode == "" || (q !in pf.fixed && pf.octal(e.mode).Some?))
       case Beyond => e.name !in env.blocked && (e.mode == "" || (e.name !in pf.fixed && pf.octal(e.mode).Some?))
       case Nowhere => false
  }

  lemma PutOneIff(disk: Disk, e: FileRecord, env: Env, pf: Platform)
    ensures var r := PutFile(disk, e, env, pf);
            && (r.Ok() <==> (e.kind == "file" ==> CanPut(disk, e, env, pf)))
            && (r.Ok() ==> forall q :: LinkAt(r.state, q) == LinkAt(disk, q))
            && (r.Ok() ==> forall q :: !WritesAt(disk, e, q, env) ==> At(r.state, q) == At(disk, q))
            && (r.Ok() ==> forall q :: WritesAt(disk, e, q, env) ==> Put(disk, r.state, e, q, env, pf))
  {
    hide Destination;
    DestinationIsNoLink(disk, e.name, env, 40);
  }

  /** The file at `q` has the declared bytes and mode, and user and group as
      before. */
  predicate Put(was: Disk, now: Disk, e: FileRecord, q: Path, env: Env, pf: Platform) {
    && q in now && now[q].File? && now[q].content == BytesOf(e, env)
    && (e.mode != "" ==> pf.octal(e.mode) == Some(now[q].attributes.mode))
    && (e.mode == "" ==> now[q].attributes == AttributesAt(was, q, env))
    && now[q].attributes.user == AttributesAt(was, q, env).user
    && now[q].attributes.group == AttributesAt(was, q, env).group
  }

  lemma {:induction false} DestinationByLinks(a: Disk, b: Disk, p: Path, env: Env, hops: nat)
    requires forall q :: LinkAt(a, q) == LinkAt(b, q)
    ensures Destination(a, p, env, hops) == Destination(b, p, env, hops)
    decreases hops
  {
    if LinkAt(a, p).Some? && hops > 0 && env.resolve(p, LinkAt(a, p).value).Some? {
      DestinationByLinks(a, b, env.resolve(p, LinkAt(a, p).value).value, env, hops - 1);
    }
  }

  lemma SameWays(a: Disk, b: Disk, e: FileRecord, env: Env, pf: Platform)
    requires forall q :: LinkAt(a, q) == LinkAt(b, q)
    ensures CanPut(a, e, env, pf) == CanPut(b, e, env, pf)
    ensures forall q :: WritesAt(a, e, q, env) == WritesAt(b, e, q, env)
  {
    hide Destination;
    DestinationByLinks(a, b, e.name, env, 40);
  }

  /** The write loop succeeds exactly when every declared file can be put, as the
      tree was in the beginning. */
  lemma {:induction false} PutsSucceedIff(disk: Disk, files: seq<FileRecord>, env: Env, pf: Platform)
    ensures PutFiles(disk, files, env, pf).Ok() <==> forall e <- files | e.kind == "file" :: CanPut(disk, e, env, pf)
    decreases |files|
  {
    hide CanPut, PutFile;
    if files != [] {
      assert files == [files[0]] + files[1..] && files[0] in files;
      PutOneIff(disk, files[0], env, pf);
      var r := PutFile(disk, files[0], env, pf);
      if r.Ok() {
        PutsSucceedIff(r.state, files[1..], env, pf);
        forall e <- files[1..] ensures CanPut(r.state, e, env, pf) == CanPut(disk, e, env, pf) {
          SameWays(r.state, disk, e, env, pf);
        }
      }
    }
  }

  /** The file at `p` has the bytes and the mode that are declared, and user and
      group as before. */
  predicate LastPut(r: Disk, disk: Disk, e: FileRecord, p: Path, env: Env, pf: Platform) {
    && p in r && r[p].File? && r[p].content == BytesOf(e, env)
    && (e.mode != "" ==> pf.octal(e.mode) == Some(r[p].attributes.mode))
    && r[p].attributes.user == AttributesAt(disk, p, env).user
    && r[p].attributes.group == AttributesAt(disk, p, env).group
  }

  /** Then a path holds what it held unless a declared file is written there; and
      if one is, the bytes and the mode of the last one. */
  lemma {:induction false} PutsLeave(disk: Disk, files: seq<FileRecord>, env: Env, pf: Platform, p: Path)
    requires PutFiles(disk, files, env, pf).Ok()
    ensures var r := PutFiles(disk, files, env, pf).state;
            && ((forall e <- files :: !WritesAt(disk, e, p, env)) ==> At(r, p) == At(disk, p))
            && forall j :: 0 <= j < |files| && WritesAt(disk, files[j], p, env)
                           && (forall k :: j < k < |files| ==> !WritesAt(disk, files[k], p, env)) ==>
                 LastPut(r, disk, files[j], p, env, pf)
    decreases |files|
  {
    hide PutFile, WritesAt, LastPut, Put;
    if files != [] {
      var first, rest := files[0], files[1..];
      assert files == [first] + rest;
      PutOneIff(disk, first, env, pf);
      var next := PutFile(disk, first, env, pf).state;
      PutsLeave(next, rest, env, pf, p);
      forall e <- rest ensures WritesAt(next, e, p, env) == WritesAt(disk, e, p, env) {
        SameWays(next, disk, e, env, pf);
      }
      PutThenRest(disk, next, PutFiles(disk, files, env, pf).state, first, p, env, pf);
      assert forall k :: 0 <= k < |rest| ==> rest[k] == files[k + 1];
      forall j | 0 <= j < |files| && WritesAt(disk, files[j], p, env)
                 && (forall k :: j < k < |files| ==> !WritesAt(disk, files[k], p, env))
        ensures LastPut(PutFiles(disk, files, env, pf).state, disk, files[j], p, env, pf)
      {
        if j == 0 {
          assert forall e <- rest :: !WritesAt(next, e, p, env);
        } else {
          assert WritesAt(next, rest[j - 1], p, env);
        }
      }
    }
  }

  lemma PutThenRest(disk: Disk, next: Disk, r: Disk, first: FileRecord, p: Path, env: Env, pf: Platform)
    requires !WritesAt(disk, first, p, env) ==> At(next, p) == At(disk, p)
    requires WritesAt(disk, first, p, env) ==> Put(disk, next, first, p, env, pf)
    ensures forall e :: LastPut(r, next, e, p, env, pf) ==> LastPut(r, disk, e, p, env, pf)
    ensures WritesAt(disk, first, p, env) && At(r, p) == At(next, p) ==> LastPut(r, disk, first, p, env, pf)
  {
    hide WritesAt, BytesOf;
  }

  // ---- Deleting ----------------------------------------------------------------------------

  /** Something is there when a chain of links ends in the tree at a leaf or a
      directory, or leads out of it to something. */
  lemma ExistsIff(disk: Disk, p: Path, env: Env, pf: Platform)
    ensures Exists(disk, p, env, pf)
       <==> || (exists chain, q :: Leads(disk, chain, p, q, env) && |chain| <= 41 && !(q in disk && disk[q].Link?)
                                   && (q in disk || q in pf.directories))
            || (p in pf.beyond
                && exists chain, q :: Leads(disk, chain, p, q, env) && |chain| <= 40
                                      && q in disk && disk[q].Link? && env.resolve(q, disk[q].target) == None)
  {
    hide Destination, Leads;
    BeyondIff(disk, p, env, 40);
    forall q ensures Destination(disk, p, env, 40) == Inside(q)
                <==> !(q in disk && disk[q].Link?) && exists chain :: Leads(disk, chain, p, q, env) && |chain| <= 41
    {
      DestinationIff(disk, p, q, env, 40);
    }
  }

  /** The delete loop succeeds exactly when each path, at its turn, is the
      syncpoint, keep-listed, owned as far as the loop is told, not there, or a
      leaf that can be removed. */
  lemma {:induction false} DropsSucceedIff(disk: Disk, paths: seq<Path>, env: Env, pf: Platform, owned: Path -> bool)
    ensures DropFiles(disk, paths, env, pf, owned).Ok()
       <==> forall i :: 0 <= i < |paths| ==>
              CanDrop(DropFiles(disk, paths[..i], env, pf, owned).state, paths[i], env, pf, owned)
    decreases |paths|
  {
    hide CanDrop;
    if paths != [] {
      var rest, r := paths[1..], DropFile(disk, paths[0], env, pf, owned);
      assert paths[..0] == [];
      DropOneIff(disk, paths[0], env, pf, owned);
      if r.Ok() {
        DropsSucceedIff(r.state, rest, env, pf, owned);
        forall i | 0 <= i < |rest|
          ensures DropFiles(disk, paths[..i + 1], env, pf, owned) == DropFiles(r.state, rest[..i], env, pf, owned)
        {
          assert paths[..i + 1][0] == paths[0] && paths[..i + 1][1..] == rest[..i];
        }
        assert forall i :: 0 < i < |paths| ==> paths[i] == rest[i - 1] && paths[..i] == paths[..(i - 1) + 1];
        if !DropFiles(disk, paths, env, pf, owned).Ok() {
          var i :| 0 <= i < |rest|
                   && !CanDrop(DropFiles(r.state, rest[..i], env, pf, owned).state, rest[i], env, pf, owned);
          assert paths[i + 1] == rest[i];
        }
      }
    }
  }

  predicate CanDrop(now: Disk, p: Path, env: Env, pf: Platform, owned: Path -> bool) {
    || p == SYNCPOINT || p in env.keepList || owned(p)
    || !Exists(now, p, env, pf)
    || (p in now && p !in env.blocked)
  }

  lemma DropOneIff(disk: Disk, p: Path, env: Env, pf: Platform, owned: Path -> bool)
    ensures DropFile(disk, p, env, pf, owned).Ok() <==> CanDrop(disk, p, env, pf, owned)
    ensures !DropFile(disk, p, env, pf, owned).Ok() ==> DropFile(disk, p, env, pf, owned) == Outcome(disk, Failed)
  {
    hide Exists;
  }

  /** Whatever is there after the loop was there before, as it was. */
  lemma {:induction false} DropsKeep(disk: Disk, paths: seq<Path>, env: Env, pf: Platform, owned: Path -> bool, p: Path)
    ensures var r := DropFiles(disk, paths, env, pf, owned).state; p in r ==> p in disk && r[p] == disk[p]
    ensures p == SYNCPOINT || p in env.keepList || owned(p) || p !in paths ==>
      At(DropFiles(disk, paths, env, pf, owned).state, p) == At(disk, p)
    decreases |paths|
  {
    hide Exists;
    if paths != [] {
      var r := DropFile(disk, paths[0], env, pf, owned);
      assert paths == [paths[0]] + paths[1..];
      if r.Ok() {
        DropsKeep(r.state, paths[1..], env, pf, owned, p);
      }
    }
  }

  /** The step is the one loop and then the other. */
  lemma StepIs(disk: Disk, diff: Diff, env: Env, pf: Platform, owned: Path -> bool)
    ensures var puts := PutFiles(disk, diff.filesWrite, env, pf);
            var r := FilesPut(disk, diff, env, pf, owned);
            && (!puts.Ok() ==> r == puts)
            && (puts.Ok() ==> r == DropFiles(puts.state, diff.filesDelete, env, pf, owned))
  {
  }
}
