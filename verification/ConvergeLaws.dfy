/** The files and units steps said in terms of their inputs: what is written,
    deleted, refused and left alone. */
module ConvergeLaws {
  import opened Strings
  import opened Manifests
  import opened DiffDrift
  import opened Converge

  // ---- Links ---------------------------------------------------------------------------

  /** Each path is a link to the next one. */
  ghost predicate Chain(disk: Disk, chain: seq<Path>, env: Env) {
    forall i :: 0 <= i < |chain| - 1 ==>
      && chain[i] in disk && disk[chain[i]].Link?
      && env.resolve(chain[i], disk[chain[i]].target) == Some(chain[i + 1])
  }

  lemma ChainGrows(disk: Disk, p: Path, chain: seq<Path>, env: Env)
    requires chain != []
    ensures Chain(disk, [p] + chain, env)
       <==> Chain(disk, chain, env) && p in disk && disk[p].Link? && env.resolve(p, disk[p].target) == Some(chain[0])
  {
    var longer := [p] + chain;
    assert forall i :: 0 <= i < |chain| ==> longer[i + 1] == chain[i];
    if Chain(disk, longer, env) {
      assert longer[0] == p && longer[1] == chain[0];
      forall i | 0 <= i < |chain| - 1
        ensures chain[i] in disk && disk[chain[i]].Link?
                && env.resolve(chain[i], disk[chain[i]].target) == Some(chain[i + 1])
      {
        assert longer[i + 1] == chain[i] && longer[i + 2] == chain[i + 1];
      }
    }
  }

  /** A chain of links that leads from `p` to `q`. */
  ghost predicate Leads(disk: Disk, chain: seq<Path>, p: Path, q: Path, env: Env) {
    chain != [] && chain[0] == p && chain[|chain| - 1] == q && Chain(disk, chain, env)
  }

  lemma LeadsGrows(disk: Disk, chain: seq<Path>, p: Path, r: Path, q: Path, env: Env)
    requires Leads(disk, chain, r, q, env)
    requires p in disk && disk[p].Link? && env.resolve(p, disk[p].target) == Some(r)
    ensures Leads(disk, [p] + chain, p, q, env)
  {
    hide Chain;
    ChainGrows(disk, p, chain, env);
  }

  lemma LeadsShrinks(disk: Disk, chain: seq<Path>, p: Path, q: Path, env: Env)
    requires Leads(disk, chain, p, q, env) && |chain| > 1
    ensures p in disk && disk[p].Link? && env.resolve(p, disk[p].target) == Some(chain[1])
    ensures Leads(disk, chain[1..], chain[1], q, env)
  {
    hide Chain;
    assert chain == [p] + chain[1..];
    ChainGrows(disk, p, chain[1..], env);
  }

  /** A path leads to a place in the tree exactly when a chain of links within
      the limit ends there, at something that is no link. */
  lemma {:induction false} DestinationIff(disk: Disk, p: Path, q: Path, env: Env, hops: nat)
    ensures Destination(disk, p, env, hops) == Inside(q)
       <==> !(q in disk && disk[q].Link?)
            && exists chain :: Leads(disk, chain, p, q, env) && |chain| <= hops + 1
    decreases hops
  {
    assert Leads(disk, [p], p, p, env);
    hide Chain;
    if p in disk && disk[p].Link? && hops > 0 && env.resolve(p, disk[p].target).Some? {
      var r := env.resolve(p, disk[p].target).value;
      DestinationIff(disk, r, q, env, hops - 1);
      if Destination(disk, p, env, hops) == Inside(q) {
        var chain :| Leads(disk, chain, r, q, env) && |chain| <= hops;
        LeadsGrows(disk, chain, p, r, q, env);
      }
    }
    forall chain | Leads(disk, chain, p, q, env) && |chain| <= hops + 1 && !(q in disk && disk[q].Link?)
      ensures Destination(disk, p, env, hops) == Inside(q)
    {
      if |chain| > 1 {
        LeadsShrinks(disk, chain, p, q, env);
      }
    }
  }

  /** It leads out of the tree exactly when such a chain ends at a link that
      does, with a step to spare. */
  lemma {:induction false} BeyondIff(disk: Disk, p: Path, env: Env, hops: nat)
    ensures Destination(disk, p, env, hops).Beyond?
       <==> exists chain, q :: Leads(disk, chain, p, q, env) && |chain| <= hops
                               && q in disk && disk[q].Link? && env.resolve(q, disk[q].target) == None
    decreases hops
  {
    assert Leads(disk, [p], p, p, env);
    hide Chain;
    if p in disk && disk[p].Link? && hops > 0 && env.resolve(p, disk[p].target).Some? {
      var r := env.resolve(p, disk[p].target).value;
      BeyondIff(disk, r, env, hops - 1);
      if Destination(disk, p, env, hops).Beyond? {
        var chain, q :| Leads(disk, chain, r, q, env) && |chain| <= hops - 1
                        && q in disk && disk[q].Link? && env.resolve(q, disk[q].target) == None;
        LeadsGrows(disk, chain, p, r, q, env);
      }
    }
    forall chain, q | Leads(disk, chain, p, q, env) && |chain| <= hops
                      && q in disk && disk[q].Link? && env.resolve(q, disk[q].target) == None
      ensures Destination(disk, p, env, hops).Beyond?
    {
      if |chain| > 1 {
        LeadsShrinks(disk, chain, p, q, env);
      }
    }
  }

  // ---- Deletions -----------------------------------------------------------------------

  /** However the delete loop ends, the syncpoint, keep-listed and package-owned
      paths are as before. */
  lemma {:induction false} DeletionSpares(disk: Disk, paths: seq<Path>, env: Env, p: Path)
    requires p == SYNCPOINT || p in env.keepList || p in env.owner
    ensures At(DeleteFiles(disk, paths, env).state, p) == At(disk, p)
    decreases |paths|
  {
    hide Nameable;
    if paths != [] {
      var r := DeleteFile(disk, paths[0], env);
      assert At(r.state, p) == At(disk, p);
      if r.Ok() {
        DeletionSpares(r.state, paths[1..], env, p);
      }
    }
  }

  /** When it succeeds, a leaf is still there exactly when it is not listed, or is
      the syncpoint, keep-listed or owned by a package; and whatever is there is
      as it was. */
  lemma DeletionIff(disk: Disk, paths: seq<Path>, env: Env, p: Path)
    requires DeleteFiles(disk, paths, env).Ok()
    ensures p in disk ==>
      (p in DeleteFiles(disk, paths, env).state
       <==> p !in paths || p == SYNCPOINT || p in env.keepList || p in env.owner)
    ensures p in DeleteFiles(disk, paths, env).state ==> At(DeleteFiles(disk, paths, env).state, p) == At(disk, p)
  {
    DeletesClosedForm(disk, paths, env);
  }

  // ---- The files step ------------------------------------------------------------------

  /** The bytes that a file is declared to have. */
  function DeclaredBytes(e: FileRecord, env: Env): string {
    if e.contentRef != "" && env.blobs.Some? && e.contentRef in env.blobs.value
    then env.blobs.value[e.contentRef] else ""
  }

  /** The file has a name, a reference that is found if there is a store, the
      declared digest if one is given, and a way that ends at a place that can be
      written. */
  predicate CanWrite(disk: Disk, e: FileRecord, env: Env) {
    && (exists i :: 0 <= i < |e.name| && e.name[i] != '/')
    && (e.contentRef == "" || env.blobs.None? || e.contentRef in env.blobs.value)
    && (e.sha256 == "" || env.sha(DeclaredBytes(e, env)) == e.sha256)
    && match Destination(disk, e.name, env, 40)
       case Inside(q) => q !in env.blocked
       case Beyond => e.name !in env.blocked
       case Nowhere => false
  }

  lemma DeliverableIff(disk: Disk, e: FileRecord, env: Env)
    ensures Deliverable(disk, e, env) <==> (e.kind == "file" ==> CanWrite(disk, e, env))
  {
    hide Destination;
  }

  lemma DeliveredUnblocked(disk: Disk, files: seq<FileRecord>, env: Env)
    requires forall e <- files :: Deliverable(disk, e, env)
    ensures forall p <- Overlay(disk, files, env) :: p !in env.blocked
  {
    hide Overlay, Destination, Nameable, Content;
    forall p <- Overlay(disk, files, env) ensures p !in env.blocked {
      var e := OverlayOf(disk, files, env, p);
      assert Deliverable(disk, e, env);
    }
  }

  /** The files step succeeds exactly when every declared file can be written; and
      every path to delete that is not excluded has a name and can be removed. */
  lemma StepSucceedsIff(disk: Disk, diff: Diff, env: Env)
    ensures ConvergedFiles(disk, diff, env).Ok()
       <==>
         && (forall e <- diff.filesWrite | e.kind == "file" :: CanWrite(disk, e, env))
         && (forall p <- diff.filesDelete | p != SYNCPOINT && p !in env.keepList && p !in env.owner ::
               (exists i :: 0 <= i < |p| && p[i] != '/') && !(p in env.blocked && p in disk))
  {
    hide ConvergedFiles, Deliverable, CanWrite, Overlay;
    FilesClosedForm(disk, diff, env);
    forall e <- diff.filesWrite ensures Deliverable(disk, e, env) <==> (e.kind == "file" ==> CanWrite(disk, e, env)) {
      DeliverableIff(disk, e, env);
    }
    if forall e <- diff.filesWrite :: Deliverable(disk, e, env) {
      DeliveredUnblocked(disk, diff.filesWrite, env);
    }
  }

  /** The entry is a file that is written at `p`. */
  predicate WritesAt(disk: Disk, e: FileRecord, p: Path, env: Env) {
    e.kind == "file" && Destination(disk, e.name, env, 40) == Inside(p)
  }

  /** After a step that succeeds, a path holds nothing if it was to be deleted
      and is not excluded; otherwise, what the last declared file that is written
      there asks for, with the attributes of the file that was there; and if none
      is, what it held before. */
  lemma StepLeaves(disk: Disk, diff: Diff, env: Env, p: Path)
    requires ConvergedFiles(disk, diff, env).Ok()
    ensures var r, files := ConvergedFiles(disk, diff, env).state, diff.filesWrite;
            if p in diff.filesDelete && p != SYNCPOINT && p !in env.keepList && p !in env.owner then p !in r
            else
              && ((forall e <- files :: !WritesAt(disk, e, p, env)) ==> At(r, p) == At(disk, p))
              && forall j :: 0 <= j < |files| && WritesAt(disk, files[j], p, env)
                             && (forall k :: j < k < |files| ==> !WritesAt(disk, files[k], p, env)) ==>
                   p in r && r[p] == File(DeclaredBytes(files[j], env),
                                          if p in disk && disk[p].File? then disk[p].attributes else env.created(p))
  {
    hide ConvergedFiles, Overlay, Destination;
    FilesClosedForm(disk, diff, env);
    var files := diff.filesWrite;
    if forall e <- files :: !WritesAt(disk, e, p, env) {
      if p in Overlay(disk, files, env) {
        var e := OverlayOf(disk, files, env, p);
      }
    }
    forall j | 0 <= j < |files| && WritesAt(disk, files[j], p, env)
               && (forall k :: j < k < |files| ==> !WritesAt(disk, files[k], p, env))
      ensures p in Overlay(disk, files, env) && Overlay(disk, files, env)[p] == Delivered(disk, files[j], p, env)
      ensures Content(files[j], env) == Some(DeclaredBytes(files[j], env))
    {
      LastWins(disk, files, env, p, j);
      assert Deliverable(disk, files[j], env);
    }
  }

  lemma {:induction false} LastWins(disk: Disk, files: seq<FileRecord>, env: Env, p: Path, j: nat)
    requires j < |files| && WritesAt(disk, files[j], p, env)
    requires forall k :: j < k < |files| ==> !WritesAt(disk, files[k], p, env)
    ensures p in Overlay(disk, files, env) && Overlay(disk, files, env)[p] == Delivered(disk, files[j], p, env)
  {
    hide Destination, Delivered;
    var rest := files[1..];
    if j == 0 {
      if p in Overlay(disk, rest, env) {
        assert forall k :: 0 <= k < |rest| ==> rest[k] == files[k + 1];
        assert forall e <- rest :: !WritesAt(disk, e, p, env);
        var e := OverlayOf(disk, rest, env, p);
      }
    } else {
      assert rest[j - 1] == files[j];
      forall k | j - 1 < k < |rest| ensures !WritesAt(disk, rest[k], p, env) {
        assert rest[k] == files[k + 1];
      }
      LastWins(disk, rest, env, p, j - 1);
    }
  }

  /** The first file that cannot be delivered ends the write loop. What was
      written before it stays; and if only its digest is wrong, so does the file
      itself, which is written before it is checked. */
  lemma {:induction false} WritesStopAt(disk: Disk, files: seq<FileRecord>, env: Env, i: nat)
    requires i < |files| && !Deliverable(disk, files[i], env)
    requires forall e <- files[..i] :: Deliverable(disk, e, env)
    ensures var r, e, before := WriteFiles(disk, files, env), files[i], disk + Overlay(disk, files[..i], env);
            && r.end == (if exists k :: 0 <= k < |e.name| && e.name[k] != '/' then Failed else Crashed)
            && var written := (e.contentRef == "" || env.blobs.None? || e.contentRef in env.blobs.value)
                              && r.end == Failed && exists q :: WritesAt(disk, e, q, env) && q !in env.blocked;
            && (!written ==> r.state == before)
            && forall q :: written && WritesAt(disk, e, q, env) ==>
                 && e.sha256 != "" && env.sha(DeclaredBytes(e, env)) != e.sha256
                 && r.state == before[q := File(DeclaredBytes(e, env), AttributesAt(disk, q, env))]
    decreases |files|
  {
    hide WriteFile, Deliverable, OverlayOne, SameShape, Destination;
    if i == 0 {
      assert files[..0] == [] && disk + map[] == disk;
      assert !WriteFile(disk, files[0], env).Ok() by { WriteOneClosedForm(disk, files[0], env); }
      WriteFailure(disk, files[0], env);
    } else {
      var first, rest := files[0], files[1..];
      assert files[..i][0] == first && files[..i][1..] == rest[..i - 1];
      assert first in files[..i];
      WriteOneClosedForm(disk, first, env);
      var next := WriteFile(disk, first, env).state;
      OverlayStands(disk, next, rest, env);
      EntryStands(disk, next, files[i], env);
      forall e <- rest[..i - 1] ensures Deliverable(next, e, env) {
        assert e in files[..i] && e in rest;
      }
      WritesStopAt(next, rest, env, i - 1);
      OverlayStands(disk, next, rest[..i - 1], env);
      OverlayTwice(disk, OverlayOne(disk, first, env), Overlay(disk, rest[..i - 1], env));
      SameAim(disk, next, files[i], env);
    }
  }

  lemma SameAim(a: Disk, b: Disk, e: FileRecord, env: Env)
    requires SameShape(a, b, env)
    ensures forall q :: WritesAt(a, e, q, env) == WritesAt(b, e, q, env)
    ensures forall q :: AttributesAt(a, q, env) == AttributesAt(b, q, env)
  {
    DestinationStands(a, b, e.name, env, 40);
  }

  lemma WriteFailure(disk: Disk, e: FileRecord, env: Env)
    requires !WriteFile(disk, e, env).Ok()
    ensures var r := WriteFile(disk, e, env);
            && r.end == (if exists k :: 0 <= k < |e.name| && e.name[k] != '/' then Failed else Crashed)
            && var written := (e.contentRef == "" || env.blobs.None? || e.contentRef in env.blobs.value)
                              && r.end == Failed && exists q :: WritesAt(disk, e, q, env) && q !in env.blocked;
            && (!written ==> r.state == disk)
            && forall q :: written && WritesAt(disk, e, q, env) ==>
                 && e.sha256 != "" && env.sha(DeclaredBytes(e, env)) != e.sha256
                 && r.state == disk[q := File(DeclaredBytes(e, env), AttributesAt(disk, q, env))]
  {
    hide Destination, AttributesAt;
  }

  /** So where nothing is written, a listed leaf is still there exactly when it is
      the syncpoint, keep-listed or owned by a package. */
  lemma ListedLeafIff(disk: Disk, diff: Diff, env: Env, p: Path)
    requires ConvergedFiles(disk, diff, env).Ok() && p in diff.filesDelete && p in disk
    requires forall e <- diff.filesWrite :: !WritesAt(disk, e, p, env)
    ensures p in ConvergedFiles(disk, diff, env).state <==> p == SYNCPOINT || p in env.keepList || p in env.owner
    ensures p in ConvergedFiles(disk, diff, env).state ==> ConvergedFiles(disk, diff, env).state[p] == disk[p]
  {
    hide ConvergedFiles, Destination;
    StepLeaves(disk, diff, env, p);
  }

  // ---- The units step ------------------------------------------------------------------

  /** The changes that systemctl is called for. */
  function Calls(changes: seq<ServiceRecord>): seq<ServiceRecord> {
    if changes == [] then []
    else (if changes[0].state in {"enabled", "disabled", "masked"} then [changes[0]] else []) + Calls(changes[1..])
  }

  /** What a list of accepted calls leaves, one after the other. */
  function CallAll(h: Host, calls: seq<ServiceRecord>, env: Env): Host
    decreases |calls|
  {
    if calls == [] then h
    else CallAll(Host(env.place(calls[0], h.disk), env.settle(calls[0], h.units)), calls[1..], env)
  }

  /** Only units that ask to be enabled, disabled or masked matter: the step calls
      systemctl for those, in order, and succeeds exactly when it accepts them
      all. */
  lemma {:induction false} UnitsStepIff(h: Host, changes: seq<ServiceRecord>, env: Env)
    ensures var r := ConvergedUnits(h, changes, env);
            && (r.Ok() <==> forall u <- changes :: u.state in {"enabled", "disabled", "masked"} ==>
                              u.name !in env.refused)
            && (r.Ok() ==> r.state == CallAll(h, Calls(changes), env))
    decreases |changes|
  {
    if changes != [] {
      var u, rest := changes[0], changes[1..];
      assert changes == [u] + rest && u in changes;
      var r := SetUnit(h, u, env);
      if r.Ok() {
        UnitsStepIff(r.state, rest, env);
        assert ([u] + Calls(rest))[1..] == Calls(rest);
        assert [] + Calls(rest) == Calls(rest);
      }
    }
  }

  /** A refusal stops the step: what the calls before it left is what stays. */
  lemma {:induction false} UnitsStopAt(h: Host, changes: seq<ServiceRecord>, env: Env, i: nat)
    requires i < |changes| && changes[i].state in {"enabled", "disabled", "masked"} && changes[i].name in env.refused
    requires forall u <- changes[..i] | u.state in {"enabled", "disabled", "masked"} :: u.name !in env.refused
    ensures ConvergedUnits(h, changes, env) == Outcome(CallAll(h, Calls(changes[..i]), env), Failed)
    decreases |changes|
  {
    if i > 0 {
      var u, rest := changes[0], changes[1..];
      var r := SetUnit(h, u, env);
      assert changes[..i][0] == u && changes[..i][1..] == rest[..i - 1];
      assert u in changes[..i];
      forall v <- rest[..i - 1] ensures v in changes[..i] {
      }
      UnitsStopAt(r.state, rest, env, i - 1);
      assert ([u] + Calls(rest[..i - 1]))[1..] == Calls(rest[..i - 1]);
      assert [] + Calls(rest[..i - 1]) == Calls(rest[..i - 1]);
    }
  }
}
