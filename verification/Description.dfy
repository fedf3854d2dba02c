/** From the tree to the description: which entries the walk judges worth a
    record, and that its records describe the tree as drift expects. */
module Description {
  import opened Strings
  import opened Manifests
  import opened DiffDrift
  import opened Converge
  import opened Stability
  import opened EtcWalk

  /** The package database's answer for a path. */
  datatype Baseline = Baseline(
    found: bool, packageName: string, digest: string, target: string,
    mode: string, user: string, group: string, ghostFile: bool, isLink: bool, isDir: bool)

  /** The alternatives system's links, and the target each would have if it were
      left on automatic. */
  datatype AlternativesIndex = AlternativesIndex(linkToTarget: map<Path, string>, knownLinks: set<Path>)

  predicate IsAlternative(p: Path, idx: AlternativesIndex) {
    ALTERNATIVES <= p || p in idx.knownLinks
  }

  /** Emits what is in no package or changed from its package. */
  function Judge(p: Path, leaf: Leaf, base: Baseline, idx: AlternativesIndex, sha: string -> string): Verdict {
    var packageName := if base.found then base.packageName else "";
    match leaf
    case Symlink(mode, user, group, None) => Suppress
    case Symlink(mode, user, group, Some(target)) =>
      var rec := FileRecord(p, "link", mode, user, group, "", target, "", packageName);
      if !base.found then Emit(rec)
      else if IsAlternative(p, idx) then
        if p !in idx.linkToTarget then Emit(rec)
        else if idx.linkToTarget[p] == target then Suppress
        else Emit(rec)
      else if base.isLink && base.target == target then Suppress
      else Emit(rec)
    case Regular(mode, user, group, None) => Unreadable
    case Regular(mode, user, group, Some(content)) =>
      var rec := FileRecord(p, "file", mode, user, group, sha(content), "", "", packageName);
      if !base.found then Emit(rec)
      else if base.ghostFile then if content == "" then Suppress else Emit(rec)
      else if base.isLink || base.isDir then Emit(rec)
      else if base.digest != "" && base.digest == rec.sha256
           && base.mode == mode && base.user == user && base.group == group
        then Suppress
      else Emit(rec)
  }

  /** The package database and the alternatives of a system. */
  datatype System = System(baseline: Path -> Baseline, alternatives: AlternativesIndex)

  /** What a node at an owned path must be for the package to account for it. */
  predicate AccountedFor(p: Path, node: Node, s: System, sha: string -> string) {
    var base := s.baseline(p);
    match node
    case Link(t) =>
      if "/etc/alternatives/" <= p || p in s.alternatives.knownLinks
      then p in s.alternatives.linkToTarget && s.alternatives.linkToTarget[p] == t
      else base.isLink && base.target == t
    case File(c, attributes) =>
      if base.ghostFile then c == ""
      else !base.isLink && !base.isDir && base.digest != "" && base.digest == sha(c)
           && Attributes(base.mode, base.user, base.group) == attributes
  }

  function JudgeWith(s: System, sha: string -> string): (Path, Leaf) -> Verdict {
    (p: Path, leaf: Leaf) => Judge(p, leaf, s.baseline(p), s.alternatives, sha)
  }

  /** The node a readable leaf is. */
  function NodeOf(leaf: Leaf): Option<Node> {
    match leaf
    case Regular(mode, user, group, Some(c)) => Some(File(c, Attributes(mode, user, group)))
    case Symlink(_, _, _, Some(t)) => Some(Link(t))
    case _ => None
  }

  /** A readable leaf gets a record unless its package accounts for it, and the
      record tells the truth about it. */
  lemma JudgeIff(p: Path, leaf: Leaf, s: System, env: Env)
    requires NodeOf(leaf).Some?
    requires p in env.owner <==> s.baseline(p).found
    requires p in env.owner ==> env.owner[p] == s.baseline(p).packageName
    ensures var verdict := JudgeWith(s, env.sha)(p, leaf);
            && !verdict.Unreadable?
            && (verdict.Emit? <==> !(p in env.owner && AccountedFor(p, NodeOf(leaf).value, s, env.sha)))
            && (verdict.Emit? ==> verdict.record.name == p && Records(verdict.record, NodeOf(leaf).value, env))
  {
  }

  /** Field by field. */
  lemma JudgedRecord(p: Path, leaf: Leaf, s: System, env: Env)
    requires NodeOf(leaf).Some?
    requires p in env.owner <==> s.baseline(p).found
    requires p in env.owner ==> env.owner[p] == s.baseline(p).packageName
    ensures var verdict := JudgeWith(s, env.sha)(p, leaf);
            verdict.Emit? ==>
              var r := verdict.record;
              && r.name == p && r.mode == leaf.mode && r.user == leaf.user && r.group == leaf.group
              && r.packageName == (if p in env.owner then env.owner[p] else "") && r.contentRef == ""
              && (leaf.Regular? ==> r.kind == "file" && r.sha256 == env.sha(leaf.content.value) && r.target == "")
              && (leaf.Symlink? ==> r.kind == "link" && r.sha256 == "" && r.target == leaf.target.value)
  {
  }

  /** A leaf is a problem exactly when it is a file whose content cannot be read;
      a link whose target cannot be read gets no record and is none. */
  lemma ProblemIff(p: Path, leaf: Leaf, s: System, sha: string -> string)
    ensures JudgeWith(s, sha)(p, leaf).Unreadable? <==> leaf.Regular? && leaf.content.None?
    ensures JudgeWith(s, sha)(p, leaf).Emit? ==> NodeOf(leaf).Some?
  {
    var base := s.baseline(p);
    assert JudgeWith(s, sha)(p, leaf) == Judge(p, leaf, base, s.alternatives, sha);
  }

  // ---- The walk's records describe the tree -----------------------------------------------

  /** The listing is what the flat disk holds below `etc`. */
  ghost predicate Flattens(etc: Path, listing: Listing, disk: Disk) {
    && (forall v <- Walk(etc, listing, NoSkip()) :: v.Seen? ==>
          && NodeOf(v.leaf).Some? && v.path in disk && disk[v.path] == NodeOf(v.leaf).value)
    && (forall p <- disk :: etc + "/" <= p ==> exists v <- Walk(etc, listing, NoSkip()) :: v.Seen? && v.path == p)
  }

  /** Owners come from the baseline. */
  ghost predicate Agrees(s: System, env: Env) {
    && (forall p :: p in env.owner <==> s.baseline(p).found)
    && (forall p <- env.owner :: env.owner[p] == s.baseline(p).packageName)
  }

  ghost function HiddenFrom(etc: Path, keepList: set<Path>): Path -> bool {
    (p: Path) => !(etc + "/" <= p && Open(etc, p, SkipOf(keepList)))
  }

  ghost function ViewOf(etc: Path, s: System, env: Env): View {
    View(HiddenFrom(etc, env.keepList), (p: Path, node: Node) => AccountedFor(p, node, s, env.sha))
  }

  lemma {:induction false} EmittedRecord(vs: seq<Visit>, judge: (Path, Leaf) -> Verdict, r: FileRecord)
    ensures r in Emitted(vs, judge)
       <==> exists v <- vs :: v.Seen? && judge(v.path, v.leaf) == Emit(r)
  {
    if vs != [] {
      var n := |vs| - 1;
      EmittedRecord(vs[..n], judge, r);
      assert vs == vs[..n] + [vs[n]];
    }
  }

  lemma SeenBelow(etc: Path, listing: Listing, skip: Path -> bool, v: Visit)
    requires v in Walk(etc, listing, skip) && v.Seen?
    ensures etc + "/" <= v.path
  {
    hide WalkEntry, Within;
    if listing.Entries? {
      var k := EntryOf(etc, listing, 0, skip, v);
      EntryWithin(etc, listing, k, skip, v);
      WithinChild(etc, listing.entries[k].name, v.path);
    }
  }

  /** Every keep-listed path, and the syncpoint, is out of the walk's sight. */
  lemma KeptIsHidden(etc: Path, s: System, env: Env)
    requires (forall p <- env.owner :: env.owner[p] != "") && (forall c :: env.sha(c) != "")
    ensures ValidView(ViewOf(etc, s, env), env)
  {
    var view := ViewOf(etc, s, env);
    forall p | p == SYNCPOINT || p in env.keepList ensures view.hidden(p) {
      if etc + "/" <= p && Open(etc, p, SkipOf(env.keepList)) {
        assert Within(p, p);
      }
    }
  }

  /** The records of an untroubled walk describe the tree: one for every visible
      leaf, true to it, and none besides. */
  lemma WalkDescribes(etc: Path, listing: Listing, disk: Disk, records: seq<FileRecord>, s: System, env: Env)
    requires PlainNames(listing) && Flattens(etc, listing, disk) && Agrees(s, env)
    requires Walked(records, etc, listing, JudgeWith(s, env.sha), env.keepList)
    ensures DescribesFiles(records, disk, env, ViewOf(etc, s, env))
  {
    hide Walk, Emitted, Judge, AccountedFor, Open, PlainNames, Records, NodeOf;
    var judge, skip, view := JudgeWith(s, env.sha), SkipOf(env.keepList), ViewOf(etc, s, env);
    var walk, tree := Walk(etc, listing, skip), Walk(etc, listing, NoSkip());
    var visited: seq<Visit> :| multiset(visited) == multiset(walk) && records == Emitted(visited, judge);
    forall v ensures v in visited <==> v in tree && Open(etc, v.path, skip) {
      assert v in multiset(visited) <==> v in multiset(walk);
      WalkIff(etc, listing, skip, v);
    }
    forall r <- records
      ensures r.name in disk && Visible(r.name, disk[r.name], env, view) && Records(r, disk[r.name], env)
    {
      EmittedRecord(visited, judge, r);
      var v :| v in visited && v.Seen? && judge(v.path, v.leaf) == Emit(r);
      JudgeIff(v.path, v.leaf, s, env);
      SeenBelow(etc, listing, NoSkip(), v);
    }
    forall p <- disk | Visible(p, disk[p], env, view) ensures p in Names(records, FileName) {
      var v :| v in tree && v.Seen? && v.path == p;
      JudgeIff(v.path, v.leaf, s, env);
      var r := judge(v.path, v.leaf).record;
      assert judge(v.path, v.leaf) == Emit(r);
      EmittedRecord(visited, judge, r);
      assert FileName(r) == p;
    }
  }
}
