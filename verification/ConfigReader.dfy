/** The three-pass reader of /etc and its content store: which records it emits,
    in what order, and that what it captures can be restored. */
module ConfigReader {
  import opened Strings
  import opened Manifests
  import Json
  import Canonical
  import Converge
  import RustConverge
  import DiffDrift
  import Stability

  datatype Kind = File | Link | Special

  /** One walked entry, with the digest of its content if that could be read. */
  datatype DiskEntry = DiskEntry(
    logical: Path, kind: Kind, mode: string, user: string, group: string,
    target: string, sha256: string, content: Option<string>)

  /** rpm's verdict on a configuration file: the package, and what changed. */
  datatype Verdict = Verdict(package: string, changes: seq<string>)

  datatype ConfigRecord = ConfigRecord(file: FileRecord, status: string, changes: seq<string>)

  datatype GhostRecord = GhostRecord(logical: Path, package: string, changes: seq<string>)

  /** What the reader is told: the walked entries and the answers of rpm and of
      the alternatives system. */
  datatype Source = Source(
    entries: map<Path, DiskEntry>,
    owned: set<Path>,
    changed: map<Path, Verdict>,
    ghosts: seq<Path>,
    owningPackage: Path -> string,
    bestAlternative: string -> Option<string>)

  ghost predicate ValidSource(s: Source, sha: string -> string) {
    && (forall p <- s.entries :: s.entries[p].logical == p)
    && (forall p <- s.entries :: s.entries[p].content.Some? ==> s.entries[p].sha256 == sha(s.entries[p].content.value))
    && (forall c :: sha(c) != "")
  }

  predicate Excluded(p: Path, keepList: set<Path>) {
    p == SYNCPOINT || p in keepList
  }

  function RecordFromEntry(e: DiskEntry, packageName: string): FileRecord {
    match e.kind
    case Link => FileRecord(e.logical, "link", e.mode, e.user, e.group, "", e.target, "", packageName)
    case _ => FileRecord(e.logical, "file", e.mode, e.user, e.group, e.sha256, "", "", packageName)
  }

  /** The changes of a ghost path worth a record: a file with content, or an
      alternatives link that is not on its best target. */
  function GhostChanges(p: Path, e: DiskEntry, s: Source): Option<seq<string>> {
    match e.kind
    case File => if e.content.Some? && e.content.value != "" then Some(["md5"]) else None
    case Link =>
      if ALTERNATIVES <= p then
        (match s.bestAlternative(p[|ALTERNATIVES|..])
         case None => None
         case Some(best) => if e.target != best then Some(["link_path"]) else None)
      else None
    case Special => None
  }

  // ---- What a path deserves ------------------------------------------------------------

  /** The record a path gets, before its content is stored: rpm's verdict first,
      then that no package owns it, then what it is as a ghost. */
  function Expected(p: Path, s: Source, keepList: set<Path>): Option<ConfigRecord> {
    if p !in s.entries || Excluded(p, keepList) then None
    else
      var e := s.entries[p];
      if p in s.changed then
        Some(ConfigRecord(RecordFromEntry(e, s.changed[p].package), "changed", s.changed[p].changes))
      else if p !in s.owned && !e.kind.Special? then
        Some(ConfigRecord(RecordFromEntry(e, ""), "", []))
      else if p in s.ghosts && GhostChanges(p, e, s).Some? then
        Some(ConfigRecord(RecordFromEntry(e, s.owningPackage(p)), "changed", GhostChanges(p, e, s).value))
      else None
  }

  const STORE_DIR: string := "sha256/"

  /** With a store, an emitted file whose content was read refers to its blob. */
  function Stored(r: ConfigRecord, e: DiskEntry, storing: bool, sha: string -> string): ConfigRecord {
    if r.file.kind == "file" && storing && e.content.Some? then
      r.(file := r.file.(contentRef := STORE_DIR + if r.file.sha256 == "" then sha(e.content.value) else r.file.sha256))
    else r
  }

  /** A file whose content is missing although it must be stored. */
  predicate Lacking(r: ConfigRecord, e: DiskEntry, storing: bool) {
    r.file.kind == "file" && storing && e.content.None?
  }

  function NameKey(r: ConfigRecord): Canonical.Key { (r.file.name, "") }

  /** Every blob is filed under its own digest. */
  ghost predicate BlobsSound(blobs: map<string, string>, sha: string -> string) {
    forall d <- blobs :: sha(blobs[d]) == d
  }

  ghost predicate Grows(a: map<string, string>, b: map<string, string>) {
    forall d <- a :: d in b && b[d] == a[d]
  }

  /** The record is the one its path is due, stored, and its blob is there. */
  ghost predicate Faithful(r: ConfigRecord, due: Option<ConfigRecord>, s: Source, storing: bool,
                           warn: bool, sha: string -> string, blobs: map<string, string>)
  {
    var p := r.file.name;
    && due.Some? && p in s.entries
    && r == Stored(due.value, s.entries[p], storing, sha)
    && (warn || !Lacking(due.value, s.entries[p], storing))
    && (r.file.contentRef != "" ==> r.file.contentRef == STORE_DIR + r.file.sha256 && r.file.sha256 in blobs)
  }

  /** Warned of: the emitted paths whose content is missing, each once. */
  ghost predicate Warned(diagnostics: seq<Path>, emitted: set<Path>, due: Path -> Option<ConfigRecord>,
                         s: Source, storing: bool)
  {
    && (forall p :: p in diagnostics <==>
          p in emitted && due(p).Some? && p in s.entries && Lacking(due(p).value, s.entries[p], storing))
    && (forall i, j :: 0 <= i < j < |diagnostics| ==> diagnostics[i] != diagnostics[j])
  }

  lemma NoWarnings(due: Path -> Option<ConfigRecord>, s: Source, storing: bool)
    ensures Warned([], {}, due, s, storing)
  {
  }

  lemma WarnedGrows(diagnostics: seq<Path>, emitted: set<Path>, due: Path -> Option<ConfigRecord>,
                    s: Source, storing: bool, p: Path)
    requires Warned(diagnostics, emitted, due, s, storing) && p !in emitted && due(p).Some? && p in s.entries
    ensures Warned(diagnostics + if Lacking(due(p).value, s.entries[p], storing) then [p] else [],
                   emitted + {p}, due, s, storing)
  {
    hide Lacking;
  }

  /** One record per emitted path. */
  ghost predicate Tally(records: seq<ConfigRecord>, emitted: set<Path>) {
    && (forall i, j :: 0 <= i < j < |records| ==> records[i].file.name != records[j].file.name)
    && (forall r <- records :: r.file.name in emitted)
    && (forall p <- emitted :: exists r <- records :: r.file.name == p)
  }

  lemma TallyGrows(records: seq<ConfigRecord>, emitted: set<Path>, r: ConfigRecord)
    requires Tally(records, emitted) && r.file.name !in emitted
    ensures Tally(records + [r], emitted + {r.file.name})
  {
    var more := records + [r];
    forall p <- emitted + {r.file.name} ensures exists q <- more :: q.file.name == p {
      if p == r.file.name {
        assert more[|records|] == r && r in more;
      } else {
        var q :| q in records && q.file.name == p;
        assert q in more;
      }
    }
    forall i | 0 <= i < |records| ensures records[i].file.name != r.file.name {
      assert records[i] in records;
    }
  }

  lemma FaithfulGrows(reader: Reader, records: seq<ConfigRecord>, a: map<string, string>, b: map<string, string>,
                      one: ConfigRecord)
    requires Grows(a, b)
    requires forall r <- records ::
      Faithful(r, reader.Due(r.file.name), reader.source, reader.storing, reader.warn, reader.sha, a)
    requires Faithful(one, reader.Due(one.file.name), reader.source, reader.storing, reader.warn, reader.sha, b)
    ensures forall r <- records + [one] ::
      Faithful(r, reader.Due(r.file.name), reader.source, reader.storing, reader.warn, reader.sha, b)
  {
    hide Stored, Expected, Lacking;
    assert forall r <- records + [one] :: r in records || r == one;
  }

  lemma DueRecord(p: Path, s: Source, keepList: set<Path>)
    requires Expected(p, s, keepList).Some?
    ensures var e, r := s.entries[p], Expected(p, s, keepList).value;
            && p in s.entries && !Excluded(p, keepList)
            && r.file.contentRef == "" && r.file.name == e.logical
            && (r.file.kind == "file" <==> !e.kind.Link?) && (r.file.kind == "file" ==> r.file.sha256 == e.sha256)
  {
  }

  ghost function ChangedPaths(s: Source, keepList: set<Path>): set<Path> {
    set p <- s.changed | p in s.entries && !Excluded(p, keepList)
  }

  ghost function UnpackagedPaths(s: Source, keepList: set<Path>): set<Path> {
    set p <- s.entries | !Excluded(p, keepList) && p !in s.owned && !s.entries[p].kind.Special?
  }

  ghost function GhostPaths(s: Source, keepList: set<Path>): set<Path> {
    set p <- s.ghosts | p in s.entries && !Excluded(p, keepList) && GhostChanges(p, s.entries[p], s).Some?
  }

  ghost function DuePaths(s: Source, keepList: set<Path>): set<Path> {
    ChangedPaths(s, keepList) + UnpackagedPaths(s, keepList) + GhostPaths(s, keepList)
  }

  /** The path of a record is due one, and nothing it must store is missing. */
  predicate Held(reader: Reader, p: Path) {
    && reader.Due(p).Some? && p in reader.source.entries
    && (reader.warn || !Lacking(reader.Due(p).value, reader.source.entries[p], reader.storing))
  }

  lemma FaithfulHeld(reader: Reader, r: ConfigRecord, blobs: map<string, string>)
    requires Faithful(r, reader.Due(r.file.name), reader.source, reader.storing, reader.warn, reader.sha, blobs)
    ensures Held(reader, r.file.name)
  {
    hide Expected, Stored, Lacking;
  }

  lemma NothingLacking(reader: Reader, records: seq<ConfigRecord>)
    requires forall r <- records :: Held(reader, r.file.name)
    requires forall p <- DuePaths(reader.source, reader.keepList) :: exists r <- records :: r.file.name == p
    ensures !reader.Fails()
  {
    hide DuePaths, Expected, Lacking;
    forall p <- DuePaths(reader.source, reader.keepList) ensures Held(reader, p) {
      var r :| r in records && r.file.name == p;
    }
  }

  /** Sorting by name keeps the records and makes their names ascend. */
  lemma SortedRecords(records: seq<ConfigRecord>)
    requires forall i, j :: 0 <= i < j < |records| ==> records[i].file.name != records[j].file.name
    ensures var sorted := Canonical.SortBy(records, NameKey);
            && (forall i, j :: 0 <= i < j < |sorted| ==> Less(sorted[i].file.name, sorted[j].file.name))
            && (forall r :: r in sorted <==> r in records)
  {
    hide Less;
    var sorted := Canonical.SortBy(records, NameKey);
    Canonical.SortBySorts(records, NameKey);
    Canonical.DistinctKeysPermute(records, sorted, NameKey);
    forall r ensures r in sorted <==> r in records {
      assert r in multiset(sorted) <==> r in multiset(records);
    }
    forall i, j | 0 <= i < j < |sorted| ensures Less(sorted[i].file.name, sorted[j].file.name) {
      Canonical.KeyLessTotal(NameKey(sorted[i]), NameKey(sorted[j]));
    }
  }

  ghost function Among(ps: seq<Path>, s: set<Path>): set<Path> {
    set p <- ps | p in s
  }

  lemma AmongGrows(ps: seq<Path>, i: nat, s: set<Path>)
    requires i < |ps|
    ensures Among(ps[..i + 1], s) == Among(ps[..i], s) + {ps[i]} * s
  {
    assert ps[..i + 1] == ps[..i] + [ps[i]];
  }

  lemma AmongAll(ps: seq<Path>, s: set<Path>)
    requires forall p <- s :: p in ps
    ensures Among(ps[..|ps|], s) == s
  {
    assert ps[..|ps|] == ps;
  }

  lemma PassPaths(s: Source, keepList: set<Path>)
    ensures ChangedPaths(s, keepList) <= s.changed.Keys && UnpackagedPaths(s, keepList) <= s.entries.Keys
  {
  }

  /** The three passes together reach exactly the paths that are due a record. */
  lemma DueIff(s: Source, keepList: set<Path>, p: Path)
    ensures p in DuePaths(s, keepList) <==> Expected(p, s, keepList).Some?
  {
    hide GhostChanges, RecordFromEntry;
  }

  // ---- What a record says ------------------------------------------------------------------

  /** The ghost differs from what its package would have: a file with content, or
      a link of the alternatives system whose target is not the best one. */
  predicate GhostDiffers(p: Path, e: DiskEntry, s: Source) {
    || (e.kind.File? && e.content.Some? && e.content.value != "")
    || (e.kind.Link? && "/etc/alternatives/" <= p
        && s.bestAlternative(p[|"/etc/alternatives/"|..]).Some?
        && s.bestAlternative(p[|"/etc/alternatives/"|..]).value != e.target)
  }

  /** The paths that get a record. */
  predicate Recorded(p: Path, s: Source, keepList: set<Path>) {
    && p in s.entries && p != SYNCPOINT && p !in keepList
    && (p in s.changed || (p !in s.owned && !s.entries[p].kind.Special?)
        || (p in s.ghosts && GhostDiffers(p, s.entries[p], s)))
  }

  /** What the record says of the entry itself. */
  predicate SaysEntry(r: ConfigRecord, e: DiskEntry, storing: bool) {
    && r.file.name == e.logical
    && r.file.mode == e.mode && r.file.user == e.user && r.file.group == e.group
    && r.file.kind == (if e.kind.Link? then "link" else "file")
    && r.file.target == (if e.kind.Link? then e.target else "")
    && r.file.sha256 == (if e.kind.Link? then "" else e.sha256)
    && r.file.contentRef == if !e.kind.Link? && storing && e.content.Some? then "sha256/" + e.sha256 else ""
  }

  /** And of its origin: what rpm found changed, else that no package owns it,
      else what it is as a ghost. */
  predicate SaysOrigin(r: ConfigRecord, p: Path, e: DiskEntry, s: Source) {
    if p in s.changed then
      r.file.packageName == s.changed[p].package && r.status == "changed" && r.changes == s.changed[p].changes
    else if p !in s.owned && !e.kind.Special? then
      r.file.packageName == "" && r.status == "" && r.changes == []
    else
      && r.file.packageName == s.owningPackage(p) && r.status == "changed"
      && r.changes == if e.kind.Link? then ["link_path"] else ["md5"]
  }

  lemma GhostIff(p: Path, e: DiskEntry, s: Source)
    ensures GhostChanges(p, e, s).Some? <==> GhostDiffers(p, e, s)
    ensures GhostChanges(p, e, s).Some? ==>
      GhostChanges(p, e, s).value == if e.kind.Link? then ["link_path"] else ["md5"]
  {
  }

  lemma RecordedIff(p: Path, s: Source, keepList: set<Path>)
    ensures Expected(p, s, keepList).Some? <==> Recorded(p, s, keepList)
  {
    hide RecordFromEntry;
  }

  /** A record is due whose content must be stored and could not be read. */
  predicate Misses(p: Path, s: Source, keepList: set<Path>, storing: bool) {
    Recorded(p, s, keepList) && storing && !s.entries[p].kind.Link? && s.entries[p].content.None?
  }

  lemma MissesIff(p: Path, s: Source, keepList: set<Path>, storing: bool)
    ensures Misses(p, s, keepList, storing)
       <==> p in DuePaths(s, keepList) && Expected(p, s, keepList).Some? && p in s.entries
            && Lacking(Expected(p, s, keepList).value, s.entries[p], storing)
    ensures p in DuePaths(s, keepList) ==> Expected(p, s, keepList).Some? && p in s.entries
  {
    hide Recorded, DuePaths, GhostChanges;
    DueIff(s, keepList, p);
    RecordedIff(p, s, keepList);
  }

  lemma RecordSays(r: ConfigRecord, s: Source, keepList: set<Path>, storing: bool, warn: bool,
                   sha: string -> string, blobs: map<string, string>)
    requires ValidSource(s, sha) && Faithful(r, Expected(r.file.name, s, keepList), s, storing, warn, sha, blobs)
    ensures r.file.name in s.entries
    ensures SaysEntry(r, s.entries[r.file.name], storing)
    ensures SaysOrigin(r, r.file.name, s.entries[r.file.name], s)
  {
    assert STORE_DIR == "sha256/";
  }

  lemma MissesAmong(reader: Reader)
    ensures reader.Fails()
       <==> !reader.warn
            && exists p <- reader.source.entries :: Misses(p, reader.source, reader.keepList, reader.storing)
  {
    hide Expected, Lacking, Misses, DuePaths;
    forall p ensures Misses(p, reader.source, reader.keepList, reader.storing)
                <==> p in DuePaths(reader.source, reader.keepList) && reader.Due(p).Some?
                     && p in reader.source.entries
                     && Lacking(reader.Due(p).value, reader.source.entries[p], reader.storing)
            ensures p in DuePaths(reader.source, reader.keepList) ==>
              reader.Due(p).Some? && p in reader.source.entries
    {
      MissesIff(p, reader.source, reader.keepList, reader.storing);
    }
  }

  lemma WarnedMisses(reader: Reader, diagnostics: seq<Path>)
    requires Warned(diagnostics, DuePaths(reader.source, reader.keepList), reader.DueOf(),
                    reader.source, reader.storing)
    ensures forall p :: p in diagnostics <==> Misses(p, reader.source, reader.keepList, reader.storing)
  {
    hide Expected, Lacking, Misses, DuePaths;
    forall p ensures p in diagnostics <==> Misses(p, reader.source, reader.keepList, reader.storing) {
      MissesIff(p, reader.source, reader.keepList, reader.storing);
    }
  }

  lemma ReferencesHeld(reader: Reader, records: seq<ConfigRecord>, blobs: map<string, string>)
    requires forall r <- records ::
      Faithful(r, reader.Due(r.file.name), reader.source, reader.storing, reader.warn, reader.sha, blobs)
    ensures forall r <- records :: r.file.contentRef != "" ==> r.file.sha256 in blobs
  {
    hide Stored, Expected, Lacking;
  }

  class Reader {
    const sha: string -> string
    const keepList: set<Path>
    const storing: bool
    const warn: bool
    const source: Source
    var blobs: map<string, string>
    var records: seq<ConfigRecord>
    var emitted: set<Path>
    var diagnostics: seq<Path>

    constructor (source: Source, sha: string -> string, keepList: set<Path>, storing: bool, warn: bool,
                 blobs: map<string, string>)
      ensures this.source == source && this.sha == sha && this.keepList == keepList
      ensures this.storing == storing && this.warn == warn && this.blobs == blobs
      ensures records == [] && emitted == {} && diagnostics == []
    {
      this.source, this.sha, this.keepList, this.storing, this.warn := source, sha, keepList, storing, warn;
      this.blobs, records, emitted, diagnostics := blobs, [], {}, [];
    }

    function Due(p: Path): Option<ConfigRecord> {
      Expected(p, source, keepList)
    }

    function DueOf(): Path -> Option<ConfigRecord> {
      (p: Path) => Expected(p, source, keepList)
    }

    ghost predicate Consistent()
      reads `records, `emitted, `blobs, `diagnostics
      ensures Consistent() ==> BlobsSound(blobs, sha)
    {
      && ValidSource(source, sha)
      && BlobsSound(blobs, sha)
      && Tally(records, emitted)
      && Warned(diagnostics, emitted, DueOf(), source, storing)
      && forall r <- records :: Faithful(r, this.Due(r.file.name), source, storing, warn, sha, blobs)
    }

    /** Emits one record unless its path has one already. */
    method Emit(rec: ConfigRecord, entry: DiskEntry) returns (ok: bool)
      requires Consistent() && rec.file.name in source.entries && entry == source.entries[rec.file.name]
      requires Due(rec.file.name) == Some(rec) || rec.file.name in emitted
      modifies `records, `emitted, `blobs, `diagnostics
      ensures ok ==> Consistent() && emitted == old(emitted) + {rec.file.name}
      ensures !ok ==> !warn && Lacking(rec, entry, storing) && rec.file.name !in emitted && emitted == old(emitted)
      ensures BlobsSound(blobs, sha) && Grows(old(blobs), blobs)
    {
      assert Stored(rec, entry, storing, sha).file.name == rec.file.name;
      hide Tally, Expected, Stored, Lacking, Faithful, BlobsSound, ValidSource, Warned;
      if rec.file.name in emitted {
        assert emitted + {rec.file.name} == emitted;
        return true;
      }
      ok := Store(rec, entry);
      if !ok {
        return;
      }
      var r := Stored(rec, entry, storing, sha);
      TallyGrows(records, emitted, r);
      WarnedGrows(old(diagnostics), emitted, DueOf(), source, storing, rec.file.name);
      FaithfulGrows(this, records, old(blobs), blobs, r);
      emitted := emitted + {r.file.name};
      records := records + [r];
    }

    /** Stores the content of an emitted file. */
    method Store(rec: ConfigRecord, entry: DiskEntry) returns (ok: bool)
      requires ValidSource(source, sha) && BlobsSound(blobs, sha)
      requires rec.file.name in source.entries && entry == source.entries[rec.file.name]
      requires Due(rec.file.name) == Some(rec)
      modifies `blobs, `diagnostics
      ensures BlobsSound(blobs, sha) && Grows(old(blobs), blobs)
      ensures ok ==> Faithful(Stored(rec, entry, storing, sha), Due(rec.file.name), source, storing, warn, sha, blobs)
      ensures !ok <==> !warn && Lacking(rec, entry, storing)
      ensures diagnostics == old(diagnostics) + if ok && Lacking(rec, entry, storing) then [rec.file.name] else []
    {
      DueRecord(rec.file.name, source, keepList);
      if rec.file.kind == "file" && storing {
        match entry.content
        case Some(bytes) =>
          var digest := if rec.file.sha256 == "" then sha(bytes) else rec.file.sha256;
          WriteBlob(digest, bytes);
        case None =>
          if !warn {
            return false;
          }
          diagnostics := diagnostics + [rec.file.name];
      }
      return true;
    }

    /** Pass one: what rpm finds changed and the walk found on disk. */
    method EmitChanged() returns (ok: bool)
      requires Consistent() && emitted == {}
      modifies `records, `emitted, `blobs, `diagnostics
      ensures ok ==> Consistent() && emitted == ChangedPaths(source, keepList)
      ensures !ok ==> Fails()
      ensures BlobsSound(blobs, sha) && Grows(old(blobs), blobs)
    {
      hide Consistent, ChangedPaths, Fails;
      var paths := Json.SortKeys(source.changed.Keys);
      for i := 0 to |paths|
        invariant Consistent() && Grows(old(blobs), blobs)
        invariant emitted == Among(paths[..i], ChangedPaths(source, keepList))
      {
        AmongGrows(paths, i, ChangedPaths(source, keepList));
        ok := VisitChanged(paths[i]);
        if !ok {
          return;
        }
      }
      PassPaths(source, keepList);
      AmongAll(paths, ChangedPaths(source, keepList));
      return true;
    }

    method VisitChanged(path: Path) returns (ok: bool)
      requires Consistent() && path in source.changed
      modifies `records, `emitted, `blobs, `diagnostics
      ensures ok ==> Consistent() && emitted == old(emitted) + {path} * ChangedPaths(source, keepList)
      ensures !ok ==> Fails()
      ensures BlobsSound(blobs, sha) && Grows(old(blobs), blobs)
    {
      assert forall e, package :: RecordFromEntry(e, package).name == e.logical;
      hide Tally, RecordFromEntry, Faithful, GhostChanges, Stored, Lacking;
      if Excluded(path, keepList) { return true; }
      if path !in source.entries { return true; }
      var verdict, entry := source.changed[path], source.entries[path];
      var rec := ConfigRecord(RecordFromEntry(entry, verdict.package), "changed", verdict.changes);
      ok := Emit(rec, entry);
    }

    /** Pass two: files and links that no package owns. */
    method EmitUnpackaged() returns (ok: bool)
      requires Consistent() && emitted == ChangedPaths(source, keepList)
      modifies `records, `emitted, `blobs, `diagnostics
      ensures ok ==> Consistent() && emitted == ChangedPaths(source, keepList) + UnpackagedPaths(source, keepList)
      ensures !ok ==> Fails()
      ensures BlobsSound(blobs, sha) && Grows(old(blobs), blobs)
    {
      hide Consistent, ChangedPaths, UnpackagedPaths, Fails;
      var paths := Json.SortKeys(source.entries.Keys);
      ghost var start := emitted;
      for i := 0 to |paths|
        invariant Consistent() && Grows(old(blobs), blobs)
        invariant emitted == start + Among(paths[..i], UnpackagedPaths(source, keepList))
      {
        AmongGrows(paths, i, UnpackagedPaths(source, keepList));
        ok := VisitUnpackaged(paths[i]);
        if !ok {
          return;
        }
      }
      PassPaths(source, keepList);
      AmongAll(paths, UnpackagedPaths(source, keepList));
      return true;
    }

    method VisitUnpackaged(path: Path) returns (ok: bool)
      requires Consistent() && path in source.entries && ChangedPaths(source, keepList) <= emitted
      modifies `records, `emitted, `blobs, `diagnostics
      ensures ok ==> Consistent() && emitted == old(emitted) + {path} * UnpackagedPaths(source, keepList)
      ensures !ok ==> Fails()
      ensures BlobsSound(blobs, sha) && Grows(old(blobs), blobs)
    {
      assert forall e, package :: RecordFromEntry(e, package).name == e.logical;
      hide Tally, RecordFromEntry, Faithful, GhostChanges, Stored, Lacking;
      if Excluded(path, keepList) { return true; }
      if path in source.owned { return true; }
      if path in emitted { return true; }
      var entry := source.entries[path];
      if entry.kind.Special? { return true; }
      var rec := ConfigRecord(RecordFromEntry(entry, ""), "", []);
      ok := Emit(rec, entry);
    }

    /** The whole reading: three passes, then the records in order of name. It
        succeeds unless some path is due a record whose content must be stored
        and could not be read. */
    method ReadConfigFiles() returns (ok: bool)
      requires records == [] && emitted == {} && diagnostics == []
      requires ValidSource(source, sha) && BlobsSound(blobs, sha)
      modifies `records, `emitted, `blobs, `diagnostics
      ensures ok <==> !Fails()
      ensures ok ==> forall i, j :: 0 <= i < j < |records| ==> Less(records[i].file.name, records[j].file.name)
      ensures ok ==> forall p :: (exists r <- records :: r.file.name == p) <==> Due(p).Some?
      ensures ok ==> Warned(diagnostics, DuePaths(source, keepList), DueOf(), source, storing)
      ensures ok ==> forall r <- records :: Faithful(r, this.Due(r.file.name), source, storing, warn, sha, blobs)
      // Who gets a record, and what it says; and what becomes of missing content.
      ensures ok ==> forall p :: (exists r <- records :: r.file.name == p) <==> Recorded(p, source, keepList)
      ensures ok ==> forall r <- records ::
        && r.file.name in source.entries && SaysEntry(r, source.entries[r.file.name], storing)
        && SaysOrigin(r, r.file.name, source.entries[r.file.name], source)
        && (r.file.contentRef != "" ==> r.file.sha256 in blobs)
      ensures !ok <==> !warn && exists p <- source.entries :: Misses(p, source, keepList, storing)
      ensures ok ==> forall p :: p in diagnostics <==> Misses(p, source, keepList, storing)
      ensures BlobsSound(blobs, sha) && Grows(old(blobs), blobs)
    {
      hide ChangedPaths, UnpackagedPaths, GhostPaths, Faithful, Fails, Expected, BlobsSound, ValidSource, Held,
           Recorded, SaysEntry, SaysOrigin, Misses;
      NoWarnings(DueOf(), source, storing);
      MissesAmong(this);
      ok := EmitChanged();
      if !ok {
        return;
      }
      ok := EmitUnpackaged();
      if !ok {
        return;
      }
      ok := EmitGhosts();
      if !ok {
        return;
      }
      forall r <- records ensures Held(this, r.file.name) {
        FaithfulHeld(this, r, blobs);
      }
      NothingLacking(this, records);
      SortedRecords(records);
      records := Canonical.SortBy(records, NameKey);
      forall p ensures (exists r <- records :: r.file.name == p) <==> Due(p).Some?
               ensures Due(p).Some? <==> Recorded(p, source, keepList)
      {
        DueIff(source, keepList, p);
        RecordedIff(p, source, keepList);
      }
      forall r <- records
        ensures r.file.name in source.entries && SaysEntry(r, source.entries[r.file.name], storing)
        ensures SaysOrigin(r, r.file.name, source.entries[r.file.name], source)
      {
        RecordSays(r, source, keepList, storing, warn, sha, blobs);
      }
      ReferencesHeld(this, records, blobs);
      WarnedMisses(this, diagnostics);
    }

    /** The ghosts to emit, judged against what is emitted already. */
    method GhostRecords() returns (out: seq<GhostRecord>)
      ensures forall g <- out ::
        && g.logical in source.ghosts && g.logical in GhostPaths(source, keepList) && g.logical !in emitted
        && g.package == source.owningPackage(g.logical)
        && GhostChanges(g.logical, source.entries[g.logical], source) == Some(g.changes)
      ensures forall g <- out ::
        && g.logical in source.entries && GhostDiffers(g.logical, source.entries[g.logical], source)
        && g.changes == if source.entries[g.logical].kind.Link? then ["link_path"] else ["md5"]
      ensures forall p <- GhostPaths(source, keepList) :: p in emitted || exists g <- out :: g.logical == p
    {
      hide GhostChanges, GhostDiffers;
      forall p <- source.entries ensures GhostChanges(p, source.entries[p], source).Some? ==>
        && GhostDiffers(p, source.entries[p], source)
        && GhostChanges(p, source.entries[p], source).value
           == if source.entries[p].kind.Link? then ["link_path"] else ["md5"]
      {
        GhostIff(p, source.entries[p], source);
      }
      out := [];
      for i := 0 to |source.ghosts|
        invariant forall g <- out ::
          && g.logical in source.ghosts && g.logical in GhostPaths(source, keepList) && g.logical !in emitted
          && g.package == source.owningPackage(g.logical)
          && GhostChanges(g.logical, source.entries[g.logical], source) == Some(g.changes)
        invariant forall p <- source.ghosts[..i] | p in GhostPaths(source, keepList) ::
          p in emitted || exists g <- out :: g.logical == p
      {
        var path := source.ghosts[i];
        assert source.ghosts[..i + 1] == source.ghosts[..i] + [path];
        if Excluded(path, keepList) || path in emitted { continue; }
        if path !in source.entries { continue; }
        var changes := GhostChanges(path, source.entries[path], source);
        if changes.Some? {
          var g := GhostRecord(path, source.owningPackage(path), changes.value);
          ghost var before := out;
          out := out + [g];
          assert g in out && forall h <- before :: h in out;
        }
      }
      assert source.ghosts[..|source.ghosts|] == source.ghosts;
    }

    /** Pass three. */
    method EmitGhosts() returns (ok: bool)
      requires Consistent() && emitted == ChangedPaths(source, keepList) + UnpackagedPaths(source, keepList)
      modifies `records, `emitted, `blobs, `diagnostics
      ensures ok ==> Consistent() && emitted == DuePaths(source, keepList)
      ensures !ok ==> Fails()
      ensures BlobsSound(blobs, sha) && Grows(old(blobs), blobs)
    {
      hide Consistent, ChangedPaths, UnpackagedPaths, GhostPaths, Fails, GhostChanges;
      var ghosts := GhostRecords();
      ghost var start := emitted;
      for i := 0 to |ghosts|
        invariant Consistent() && Grows(old(blobs), blobs)
        invariant start <= emitted <= start + GhostPaths(source, keepList)
        invariant forall g <- ghosts[..i] :: g.logical in emitted
      {
        assert ghosts[..i + 1] == ghosts[..i] + [ghosts[i]] && ghosts[i] in ghosts;
        ok := VisitGhost(ghosts[i]);
        if !ok {
          return;
        }
      }
      assert ghosts[..|ghosts|] == ghosts;
      return true;
    }

    method VisitGhost(g: GhostRecord) returns (ok: bool)
      requires Consistent() && ChangedPaths(source, keepList) + UnpackagedPaths(source, keepList) <= emitted
      requires g.logical in source.ghosts && g.logical in GhostPaths(source, keepList)
      requires g.package == source.owningPackage(g.logical)
      requires GhostChanges(g.logical, source.entries[g.logical], source) == Some(g.changes)
      modifies `records, `emitted, `blobs, `diagnostics
      ensures ok ==> Consistent() && emitted == old(emitted) + {g.logical}
      ensures !ok ==> Fails()
      ensures BlobsSound(blobs, sha) && Grows(old(blobs), blobs)
    {
      assert forall e, package :: RecordFromEntry(e, package).name == e.logical;
      hide Tally, RecordFromEntry, Faithful, GhostChanges, Stored, Lacking;
      var entry := source.entries[g.logical];
      var rec := ConfigRecord(RecordFromEntry(entry, g.package), "changed", g.changes);
      ok := Emit(rec, entry);
    }

    /** Some path is due a record whose content it lacks. */
    ghost predicate Fails() {
      !warn && exists p <- DuePaths(source, keepList) :: Lacking(Due(p).value, source.entries[p], storing)
    }

    /** A blob that is there already is not written again. */
    method WriteBlob(digest: string, bytes: string)
      requires BlobsSound(blobs, sha) && sha(bytes) == digest
      modifies `blobs
      ensures BlobsSound(blobs, sha) && digest in blobs && Grows(old(blobs), blobs)
    {
      if digest in blobs {
        return;
      }
      blobs := blobs[digest := bytes];
    }
  }

  // ---- Restoring what was captured -----------------------------------------------------------

  /** The store as convergence reads it: blobs by reference. */
  function ByReference(blobs: map<string, string>): map<string, string> {
    map ref <- References(blobs) :: blobs[ref[|STORE_DIR|..]]
  }

  function References(blobs: map<string, string>): (refs: set<string>)
    ensures forall d <- blobs :: STORE_DIR + d in refs
    ensures forall ref <- refs :: STORE_DIR <= ref && ref[|STORE_DIR|..] in blobs
  {
    assert forall d <- blobs :: (STORE_DIR + d)[|STORE_DIR|..] == d;
    set d <- blobs :: STORE_DIR + d
  }

  lemma ReferenceFinds(blobs: map<string, string>, d: string)
    requires d in blobs
    ensures STORE_DIR + d in ByReference(blobs) && ByReference(blobs)[STORE_DIR + d] == blobs[d]
  {
    assert (STORE_DIR + d)[|STORE_DIR|..] == d;
  }

  /** The blob that an emitted record refers to holds what was captured. */
  lemma CapturedBlob(r: ConfigRecord, due: Option<ConfigRecord>, s: Source, keepList: set<Path>,
                     storing: bool, warn: bool, sha: string -> string,
                     blobs: map<string, string>, later: map<string, string>)
    requires ValidSource(s, sha) && due == Expected(r.file.name, s, keepList)
    requires Faithful(r, due, s, storing, warn, sha, blobs) && r.file.contentRef != ""
    requires Grows(blobs, later) && BlobsSound(later, sha)
    ensures r.file.kind == "file" && r.file.contentRef in ByReference(later)
    ensures var content := ByReference(later)[r.file.contentRef];
            && sha(content) == r.file.sha256
            && ((forall a, b :: sha(a) == sha(b) ==> a == b) ==> Some(content) == s.entries[r.file.name].content)
  {
    DueRecord(r.file.name, s, keepList);
    ReferenceFinds(later, r.file.sha256);
  }

  /** Any record that the reader emitted with a reference can be converged from
      the store it was captured into, or from any later state of that store,
      exactly when it has a name and can be written where that leads: the digest
      check always passes, and the file has the recorded digest. If the digest
      has no collisions, it is the captured content itself. */
  lemma CaptureThenRestore(r: ConfigRecord, due: Option<ConfigRecord>, s: Source, keepList: set<Path>,
                           storing: bool, warn: bool, sha: string -> string,
                           blobs: map<string, string>, later: map<string, string>,
                           disk: Converge.Disk, env: Converge.Env)
    requires ValidSource(s, sha) && due == Expected(r.file.name, s, keepList)
    requires Faithful(r, due, s, storing, warn, sha, blobs) && r.file.contentRef != ""
    requires Grows(blobs, later) && BlobsSound(later, sha)
    requires env.sha == sha && env.blobs == Some(ByReference(later))
    ensures var w, d := Converge.WriteFile(disk, r.file, env), Converge.Landing(disk, r.file, env);
            && (w.Ok() <==> Converge.Nameable(r.file.name) && Converge.Writable(disk, r.file, env))
            && (w.Ok() && d.Some? ==>
                  && d.value in w.state && w.state[d.value].File?
                  && sha(w.state[d.value].content) == r.file.sha256
                  && ((forall a, b :: sha(a) == sha(b) ==> a == b) ==>
                       Some(w.state[d.value].content) == s.entries[r.file.name].content))
  {
    hide Converge.Nameable, Converge.Destination, Faithful, Expected, ValidSource;
    CapturedBlob(r, due, s, keepList, storing, warn, sha, blobs, later);
  }

  /** The same for the Rust writer, whose mode has to be readable and settable. */
  lemma CaptureThenPut(r: ConfigRecord, due: Option<ConfigRecord>, s: Source, keepList: set<Path>,
                       storing: bool, warn: bool, sha: string -> string,
                       blobs: map<string, string>, later: map<string, string>,
                       disk: Converge.Disk, env: Converge.Env, pf: RustConverge.Platform)
    requires ValidSource(s, sha) && due == Expected(r.file.name, s, keepList)
    requires Faithful(r, due, s, storing, warn, sha, blobs) && r.file.contentRef != ""
    requires Grows(blobs, later) && BlobsSound(later, sha)
    requires env.sha == sha && env.blobs == Some(ByReference(later))
    ensures var w, d := RustConverge.PutFile(disk, r.file, env, pf), Converge.Landing(disk, r.file, env);
            && (w.Ok() <==> RustConverge.Puttable(disk, r.file, env, pf))
            && (w.Ok() && d.Some? ==>
                  && d.value in w.state && w.state[d.value].File?
                  && sha(w.state[d.value].content) == r.file.sha256
                  && ((forall a, b :: sha(a) == sha(b) ==> a == b) ==>
                       Some(w.state[d.value].content) == s.entries[r.file.name].content))
  {
    assert STORE_DIR <= r.file.contentRef;
    hide RustConverge.PutFile, RustConverge.Puttable, Faithful, Expected, ValidSource;
    CapturedBlob(r, due, s, keepList, storing, warn, sha, blobs, later);
    assert r.file.contentRef[0] == STORE_DIR[0];
    RustConverge.PutIff(disk, r.file, env, pf);
  }

  // ---- The records describe the tree ----------------------------------------------------------

  /** The source was read from this tree: the entries are its leaves with what
      they hold, owners are the packages', and rpm speaks of owned leaves only. */
  ghost predicate ReadFrom(s: Source, disk: Converge.Disk, env: Converge.Env) {
    && (forall p <- disk :: p in s.entries)
    && (forall p <- s.entries :: !s.entries[p].kind.Special? ==>
          p in disk && ShowsEntry(s.entries[p], disk[p], env))
    && (forall p <- s.entries :: p in s.owned <==> p in env.owner)
    && (forall p <- s.entries :: s.entries[p].kind.Special? ==> p !in s.changed && p !in disk)
    && (forall p <- s.changed :: p in env.owner && env.owner[p] == s.changed[p].package)
    && (forall p <- s.ghosts :: p in env.owner && env.owner[p] == s.owningPackage(p))
  }

  predicate ShowsEntry(e: DiskEntry, node: Converge.Node, env: Converge.Env) {
    match node
    case File(c, a) =>
      e.kind.File? && e.content == Some(c) && e.sha256 == env.sha(c)
      && a == Converge.Attributes(e.mode, e.user, e.group)
    case Link(t) => e.kind.Link? && e.target == t
  }

  /** This reader does not see the syncpoint and keep-listed paths, and takes a
      leaf for unchanged when neither rpm nor a ghost says otherwise. */
  ghost function ReaderView(s: Source, keepList: set<Path>): Stability.View {
    Stability.View((p: Path) => p == SYNCPOINT || p in keepList,
                   (p: Path, node: Converge.Node) =>
                     p !in s.changed && !(p in s.ghosts && p in s.entries && GhostDiffers(p, s.entries[p], s)))
  }

  function FileOf(r: ConfigRecord): FileRecord { r.file }

  lemma TrueRecord(r: ConfigRecord, s: Source, keepList: set<Path>, storing: bool,
                   disk: Converge.Disk, env: Converge.Env)
    requires ReadFrom(s, disk, env) && Recorded(r.file.name, s, keepList)
    requires SaysEntry(r, s.entries[r.file.name], storing)
    requires SaysOrigin(r, r.file.name, s.entries[r.file.name], s)
    ensures r.file.name in disk
    ensures Stability.Visible(r.file.name, disk[r.file.name], env, ReaderView(s, keepList))
    ensures Stability.Records(r.file, disk[r.file.name], env)
  {
  }

  lemma VisibleRecorded(p: Path, s: Source, keepList: set<Path>, disk: Converge.Disk, env: Converge.Env)
    requires ReadFrom(s, disk, env) && p in disk && Stability.Visible(p, disk[p], env, ReaderView(s, keepList))
    ensures Recorded(p, s, keepList)
  {
    hide GhostDiffers;
  }

  /** Whatever the reader reads describes the tree: it has a record for every leaf
      that is visible to it, true to the leaf, and none besides. So what is proved
      of described trees holds for its records too. */
  lemma ReaderDescribes(records: seq<ConfigRecord>, s: Source, keepList: set<Path>, storing: bool,
                        disk: Converge.Disk, env: Converge.Env)
    requires ReadFrom(s, disk, env)
    requires forall p :: (exists r <- records :: r.file.name == p) <==> Recorded(p, s, keepList)
    requires forall r <- records ::
      && r.file.name in s.entries && SaysEntry(r, s.entries[r.file.name], storing)
      && SaysOrigin(r, r.file.name, s.entries[r.file.name], s)
    ensures Stability.DescribesFiles(DiffDrift.Map(records, FileOf), disk, env, ReaderView(s, keepList))
  {
    hide ReadFrom, Recorded, SaysEntry, SaysOrigin, Stability.Records, Stability.Visible;
    var files, view := DiffDrift.Map(records, FileOf), ReaderView(s, keepList);
    forall f | f in files
      ensures f.name in disk && Stability.Visible(f.name, disk[f.name], env, view)
      ensures Stability.Records(f, disk[f.name], env)
    {
      DiffDrift.MapElements(records, FileOf, f);
      var r :| r in records && r.file == f;
      TrueRecord(r, s, keepList, storing, disk, env);
    }
    forall p <- disk | Stability.Visible(p, disk[p], env, view)
      ensures p in DiffDrift.Names(files, DiffDrift.FileName)
    {
      VisibleRecorded(p, s, keepList, disk, env);
      var r :| r in records && r.file.name == p;
      DiffDrift.MapElements(records, FileOf, FileOf(r));
      assert DiffDrift.FileName(r.file) == p;
    }
  }
}
