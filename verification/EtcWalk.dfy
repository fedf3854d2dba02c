/** The walk over /etc: an explicit stack of directories, against the recursive
    walk of the same tree. */
module EtcWalk {
  import opened Strings
  import opened Manifests

  /** What lstat and a read tell about a regular file or a symlink; unreadable
      content or an unreadable target is None. */
  datatype Leaf =
    | Regular(mode: string, user: string, group: string, content: Option<string>)
    | Symlink(mode: string, user: string, group: string, target: Option<string>)

  datatype Entry = Entry(name: string, node: Item)

  /** `Special` is a device, pipe or socket. Two fail their lstat: `Vanished` is no
      longer there, and `Forbidden` is in a directory that may not be searched. */
  datatype Item = LeafNode(leaf: Leaf) | Dir(listing: Listing) | Special | Vanished | Forbidden

  /** A directory that may not be read lists as empty; any other failure counts
      as unreadable. */
  datatype Listing = Entries(entries: seq<Entry>) | Denied | Failed

  function Child(dir: Path, name: string): Path {
    dir + "/" + name
  }

  // ---- The recursive walk ---------------------------------------------------------------

  datatype Visit = Seen(path: Path, leaf: Leaf) | Unlistable(path: Path)

  predicate Skipped(p: Path, keepList: set<Path>) {
    p == SYNCPOINT || p in keepList
  }

  /** The walk passes over the syncpoint and keep-listed paths, and with them
      over everything below. */
  function SkipOf(keepList: set<Path>): Path -> bool {
    (p: Path) => Skipped(p, keepList)
  }

  function Walk(dir: Path, l: Listing, skip: Path -> bool): seq<Visit>
    decreases l, 1
  {
    match l
    case Failed => [Unlistable(dir)]
    case Denied => []
    case Entries(es) => WalkEntries(dir, l, 0, skip)
  }

  function WalkEntries(dir: Path, l: Listing, i: nat, skip: Path -> bool): seq<Visit>
    requires l.Entries? && i <= |l.entries|
    decreases l, 0, |l.entries| - i
  {
    if i == |l.entries| then []
    else WalkEntry(dir, l, i, skip) + WalkEntries(dir, l, i + 1, skip)
  }

  function WalkEntry(dir: Path, l: Listing, i: nat, skip: Path -> bool): seq<Visit>
    requires l.Entries? && i < |l.entries|
    decreases l, 0, 0
  {
    var e := l.entries[i];
    var p := Child(dir, e.name);
    if skip(p) then []
    else match e.node
      case LeafNode(leaf) => [Seen(p, leaf)]
      case Dir(inner) => Walk(p, inner, skip)
      case _ => []
  }

  // ---- What becomes of a visit -------------------------------------------------------------

  datatype Verdict = Emit(record: FileRecord) | Suppress | Unreadable

  /** The records of the emitted leaves, in order of visit. */
  function Emitted(vs: seq<Visit>, judge: (Path, Leaf) -> Verdict): seq<FileRecord> {
    if vs == [] then []
    else Emitted(vs[..|vs| - 1], judge)
         + match vs[|vs| - 1]
           case Unlistable(_) => []
           case Seen(p, leaf) => if judge(p, leaf).Emit? then [judge(p, leaf).record] else []
  }

  predicate Problem(v: Visit, judge: (Path, Leaf) -> Verdict) {
    v.Unlistable? || judge(v.path, v.leaf).Unreadable?
  }

  /** The paths that could not be read, in order of visit. */
  function Problems(vs: seq<Visit>, judge: (Path, Leaf) -> Verdict): seq<Path> {
    if vs == [] then []
    else Problems(vs[..|vs| - 1], judge)
         + if Problem(vs[|vs| - 1], judge) then [vs[|vs| - 1].path] else []
  }

  /** The records of a walk over the tree below `etc`, in some order of visit. */
  ghost predicate Walked(records: seq<FileRecord>, etc: Path, listing: Listing,
                         judge: (Path, Leaf) -> Verdict, keepList: set<Path>)
  {
    exists visited: seq<Visit> ::
      multiset(visited) == multiset(Walk(etc, listing, SkipOf(keepList))) && records == Emitted(visited, judge)
  }

  // ---- The stack -----------------------------------------------------------------------------

  datatype Pending = Pending(dir: Path, listing: Listing)

  function StackVisits(stack: seq<Pending>, skip: Path -> bool): multiset<Visit> {
    if stack == [] then multiset{}
    else StackVisits(stack[..|stack| - 1], skip)
         + multiset(Walk(stack[|stack| - 1].dir, stack[|stack| - 1].listing, skip))
  }

  /** The directories of a listing, itself included: what bounds the stack. */
  function Weight(l: Listing): nat
    decreases l, 1
  {
    1 + if l.Entries? then WeightFrom(l, 0) else 0
  }

  function WeightFrom(l: Listing, i: nat): nat
    requires l.Entries? && i <= |l.entries|
    decreases l, 0, |l.entries| - i
  {
    if i == |l.entries| then 0
    else EntryWeight(l.entries[i]) + WeightFrom(l, i + 1)
  }

  function EntryWeight(e: Entry): nat
    decreases e
  {
    match e.node case Dir(inner) => Weight(inner) case _ => 0
  }

  function StackWeight(stack: seq<Pending>): nat {
    if stack == [] then 0 else StackWeight(stack[..|stack| - 1]) + Weight(stack[|stack| - 1].listing)
  }

  lemma PushVisits(stack: seq<Pending>, d: Pending, skip: Path -> bool)
    ensures StackVisits(stack + [d], skip) == StackVisits(stack, skip) + multiset(Walk(d.dir, d.listing, skip))
    ensures StackWeight(stack + [d]) == StackWeight(stack) + Weight(d.listing)
  {
    assert (stack + [d])[..|stack|] == stack;
  }

  lemma SplitEntries(dir: Path, l: Listing, i: nat, skip: Path -> bool)
    requires l.Entries? && i < |l.entries|
    ensures multiset(WalkEntries(dir, l, i, skip))
         == multiset(WalkEntry(dir, l, i, skip)) + multiset(WalkEntries(dir, l, i + 1, skip))
    ensures WeightFrom(l, i) == EntryWeight(l.entries[i]) + WeightFrom(l, i + 1)
  {
  }

  lemma VisitOne(vs: seq<Visit>, v: Visit, judge: (Path, Leaf) -> Verdict)
    ensures Emitted(vs + [v], judge) == Emitted(vs, judge)
            + (if v.Seen? && judge(v.path, v.leaf).Emit? then [judge(v.path, v.leaf).record] else [])
    ensures Problems(vs + [v], judge) == Problems(vs, judge) + if Problem(v, judge) then [v.path] else []
  {
    assert (vs + [v])[..|vs|] == vs;
  }

  /** The state the loops share: what was visited, emitted and reported. */
  class Walker {
    const judge: (Path, Leaf) -> Verdict
    const keepList: set<Path>
    const warn: bool
    var records: seq<FileRecord>
    var diagnostics: seq<Path>
    var stack: seq<Pending>
    ghost var visited: seq<Visit>

    constructor (judge: (Path, Leaf) -> Verdict, keepList: set<Path>, warn: bool)
      ensures this.judge == judge && this.keepList == keepList && this.warn == warn
      ensures records == [] && diagnostics == [] && stack == [] && visited == []
    {
      this.judge, this.keepList, this.warn := judge, keepList, warn;
      records, diagnostics, stack, visited := [], [], [], [];
    }

    ghost predicate Consistent()
      reads `records, `diagnostics, `visited
    {
      && records == Emitted(visited, judge)
      && diagnostics == Problems(visited, judge)
      && (!warn ==> diagnostics == [])
    }

    /** Walks the tree below `etc`. Under `warn` problems are reported and passed
        over; otherwise the first one ends the walk. */
    method WalkEtc(etc: Path, listing: Listing) returns (ok: bool)
      requires records == [] && diagnostics == [] && visited == []
      modifies this
      ensures ok ==> Consistent() && multiset(visited) == multiset(Walk(etc, listing, SkipOf(keepList)))
      ensures ok ==> Walked(records, etc, listing, judge, keepList)
      ensures ok <==> warn || forall v <- Walk(etc, listing, SkipOf(keepList)) :: !Problem(v, judge)
    {
      hide Walk, Emitted, Problems, Problem, Weight;
      stack := [Pending(etc, listing)];
      ghost var walk := Walk(etc, listing, SkipOf(keepList));
      StartVisits(etc, listing, SkipOf(keepList), judge);
      ok := Drain(multiset(walk));
      if ok && !warn {
        AllFine(visited, walk, judge);
      }
      assert forall v <- multiset(walk) :: v in walk;
      if ok {
        RecordsWalked(etc, listing);
      }
    }

    lemma RecordsWalked(etc: Path, listing: Listing)
      requires Consistent() && multiset(visited) == multiset(Walk(etc, listing, SkipOf(keepList)))
      ensures Walked(records, etc, listing, judge, keepList)
    {
      hide Walk, Emitted, Problems;
    }

    method Drain(ghost all: multiset<Visit>) returns (ok: bool)
      requires Consistent() && multiset(visited) + StackVisits(stack, SkipOf(keepList)) == all
      modifies this
      ensures ok ==> Consistent() && multiset(visited) == all
      ensures !ok ==> !warn && exists v <- all :: Problem(v, judge)
    {
      hide Walk, Consistent, Problem, Weight;
      while stack != []
        invariant Consistent()
        invariant multiset(visited) + StackVisits(stack, SkipOf(keepList)) == all
        decreases StackWeight(stack)
      {
        ok := Pop(all);
        if !ok {
          return;
        }
      }
      return true;
    }

    /** Takes the last directory off the stack and works through it. */
    method Pop(ghost all: multiset<Visit>) returns (ok: bool)
      requires stack != [] && Consistent() && multiset(visited) + StackVisits(stack, SkipOf(keepList)) == all
      modifies this
      ensures ok ==> Consistent() && multiset(visited) + StackVisits(stack, SkipOf(keepList)) == all
      ensures ok ==> StackWeight(stack) < old(StackWeight(stack))
      ensures !ok ==> !warn && exists v <- all :: Problem(v, judge)
    {
      assert forall dir :: Problem(Unlistable(dir), judge);
      hide Emitted, Problems, WalkEntries, Problem;
      var top := stack[|stack| - 1];
      stack := stack[..|stack| - 1];
      match top.listing
      case Failed =>
        ghost var v := Unlistable(top.dir);
        assert v in multiset(Walk(top.dir, top.listing, SkipOf(keepList)));
        if !warn {
          return false;
        }
        VisitOne(visited, v, judge);
        visited := visited + [v];
        diagnostics := diagnostics + [top.dir];
        assert multiset([v]) == multiset(Walk(top.dir, top.listing, SkipOf(keepList)));
        return true;
      case Denied =>
        return true;
      case Entries(_) =>
        ok := WalkDirectory(top.dir, top.listing, all);
    }

    /** One directory: leaves are judged at once, subdirectories wait on the stack. */
    method WalkDirectory(dir: Path, listing: Listing, ghost all: multiset<Visit>) returns (ok: bool)
      requires listing.Entries? && Consistent()
      requires multiset(visited) + StackVisits(stack, SkipOf(keepList))
               + multiset(WalkEntries(dir, listing, 0, SkipOf(keepList))) == all
      modifies this
      ensures ok ==> Consistent() && multiset(visited) + StackVisits(stack, SkipOf(keepList)) == all
      ensures ok ==> StackWeight(stack) < old(StackWeight(stack)) + Weight(listing)
      ensures !ok ==> !warn && exists v <- all :: Problem(v, judge)
    {
      hide Emitted, Problems, Walk, StackVisits, StackWeight, Problem, Consistent, WalkEntry, EntryWeight;
      for i := 0 to |listing.entries|
        invariant Consistent()
        invariant multiset(visited) + StackVisits(stack, SkipOf(keepList))
                  + multiset(WalkEntries(dir, listing, i, SkipOf(keepList))) == all
        invariant StackWeight(stack) + WeightFrom(listing, i) <= old(StackWeight(stack)) + WeightFrom(listing, 0)
      {
        SplitEntries(dir, listing, i, SkipOf(keepList));
        ok := Enter(dir, listing, i);
        if !ok {
          ghost var vs := WalkEntry(dir, listing, i, SkipOf(keepList));
          assert vs[0] in multiset(vs);
          return;
        }
      }
      return true;
    }

    /** One entry of a directory. */
    method Enter(dir: Path, listing: Listing, i: nat) returns (ok: bool)
      requires listing.Entries? && i < |listing.entries| && Consistent()
      modifies this
      ensures ok ==> Consistent() && multiset(visited) + StackVisits(stack, SkipOf(keepList))
                     == old(multiset(visited) + StackVisits(stack, SkipOf(keepList)))
                        + multiset(WalkEntry(dir, listing, i, SkipOf(keepList)))
      ensures ok ==> StackWeight(stack) <= old(StackWeight(stack)) + EntryWeight(listing.entries[i])
      ensures !ok ==> !warn && WalkEntry(dir, listing, i, SkipOf(keepList)) != []
                      && Problem(WalkEntry(dir, listing, i, SkipOf(keepList))[0], judge)
    {
      hide Emitted, Problems, Walk, StackVisits, StackWeight, Problem, Consistent, Weight;
      var e := listing.entries[i];
      var p := Child(dir, e.name);
      if e.node.Vanished? || e.node.Forbidden? {
        assert WalkEntry(dir, listing, i, SkipOf(keepList)) == [];
        return true;
      }
      if p == SYNCPOINT { return true; }
      if p in keepList { return true; }
      match e.node
      case Dir(inner) =>
        PushVisits(stack, Pending(p, inner), SkipOf(keepList));
        stack := stack + [Pending(p, inner)];
        return true;
      case LeafNode(leaf) =>
        assert WalkEntry(dir, listing, i, SkipOf(keepList)) == [Seen(p, leaf)];
        ok := Look(p, leaf);
        assert ok ==> multiset(visited) == old(multiset(visited)) + multiset([Seen(p, leaf)]);
      case Special =>
        assert WalkEntry(dir, listing, i, SkipOf(keepList)) == [];
        return true;
    }

    /** Judges one leaf. */
    method Look(p: Path, leaf: Leaf) returns (ok: bool)
      requires Consistent()
      modifies this`records, this`diagnostics, this`visited
      ensures ok ==> Consistent() && visited == old(visited) + [Seen(p, leaf)]
      ensures !ok ==> !warn && Problem(Seen(p, leaf), judge)
    {
      var verdict := judge(p, leaf);
      VisitOne(visited, Seen(p, leaf), judge);
      if verdict.Emit? {
        records := records + [verdict.record];
      } else if verdict.Unreadable? {
        if !warn {
          return false;
        }
        diagnostics := diagnostics + [p];
      }
      visited := visited + [Seen(p, leaf)];
      return true;
    }
  }

  lemma StartVisits(etc: Path, listing: Listing, skip: Path -> bool, judge: (Path, Leaf) -> Verdict)
    ensures StackVisits([Pending(etc, listing)], skip) == multiset(Walk(etc, listing, skip))
    ensures Emitted([], judge) == [] && Problems([], judge) == []
  {
    PushVisits([], Pending(etc, listing), skip);
    assert [] + [Pending(etc, listing)] == [Pending(etc, listing)];
  }

  lemma AllFine(vs: seq<Visit>, walk: seq<Visit>, judge: (Path, Leaf) -> Verdict)
    requires Problems(vs, judge) == [] && multiset(vs) == multiset(walk)
    ensures forall v <- walk :: !Problem(v, judge)
  {
    hide Problem;
    NoProblems(vs, judge);
    forall v <- walk ensures !Problem(v, judge) {
      assert v in multiset(walk);
      assert v in multiset(vs);
    }
  }

  lemma {:induction false} NoProblems(vs: seq<Visit>, judge: (Path, Leaf) -> Verdict)
    requires Problems(vs, judge) == []
    ensures forall v <- vs :: !Problem(v, judge)
  {
    if vs != [] {
      NoProblems(vs[..|vs| - 1], judge);
      assert vs == vs[..|vs| - 1] + [vs[|vs| - 1]];
    }
  }

  /** Exactly the paths of problems are reported. */
  lemma {:induction false} ProblemPaths(vs: seq<Visit>, judge: (Path, Leaf) -> Verdict, p: Path)
    ensures p in Problems(vs, judge)
       <==> exists v <- vs :: v.path == p && (v.Unlistable? || judge(v.path, v.leaf) == Unreadable)
  {
    if vs != [] {
      var n := |vs| - 1;
      ProblemPaths(vs[..n], judge, p);
      assert vs == vs[..n] + [vs[n]];
    }
  }

  // ---- What the recursive walk reaches -----------------------------------------------------

  /** `p` is `q` or lies below it. */
  predicate Within(q: Path, p: Path) {
    p == q || q + "/" <= p
  }

  /** Names hold no slash. */
  predicate PlainNames(l: Listing)
    decreases l, 1
  {
    l.Entries? ==> PlainNamesFrom(l, 0)
  }

  predicate PlainNamesFrom(l: Listing, i: nat)
    requires l.Entries? && i <= |l.entries|
    decreases l, 0, |l.entries| - i
  {
    i < |l.entries| ==>
      && '/' !in l.entries[i].name
      && (match l.entries[i].node case Dir(inner) => PlainNames(inner) case _ => true)
      && PlainNamesFrom(l, i + 1)
  }

  lemma WithinChild(dir: Path, name: string, p: Path)
    requires Within(Child(dir, name), p)
    ensures dir + "/" <= p && p[|dir| + 1..] == name + p[|dir| + 1 + |name|..]
    ensures p[|dir| + 1 + |name|..] == "" || p[|dir| + 1 + |name|..][0] == '/'
    ensures name <= p[|dir| + 1..]
  {
    assert Child(dir, name) == dir + "/" + name;
    assert p[..|dir| + 1] == dir + "/";
  }

  /** Two children that a path lies within have one name. */
  lemma OneChild(dir: Path, a: string, b: string, p: Path)
    requires '/' !in a && '/' !in b
    requires Within(Child(dir, a), p) && Within(Child(dir, b), p)
    ensures a == b
  {
    hide Within;
    WithinChild(dir, a, p);
    WithinChild(dir, b, p);
    SplitUnique(a, p[|dir| + 1 + |a|..], b, p[|dir| + 1 + |b|..], '/');
  }

  /** Everything visited lies within the directory. */
  lemma {:induction false} WalkWithin(dir: Path, l: Listing, skip: Path -> bool, v: Visit)
    requires v in Walk(dir, l, skip)
    ensures Within(dir, v.path)
    decreases l, 1
  {
    if l.Entries? {
      var i := EntryOf(dir, l, 0, skip, v);
      EntryWithin(dir, l, i, skip, v);
      WithinChild(dir, l.entries[i].name, v.path);
    }
  }

  lemma {:induction false} EntryWithin(dir: Path, l: Listing, i: nat, skip: Path -> bool, v: Visit)
    requires l.Entries? && i < |l.entries| && v in WalkEntry(dir, l, i, skip)
    ensures Within(Child(dir, l.entries[i].name), v.path)
    decreases l, 0
  {
    var e := l.entries[i];
    match e.node
    case Dir(inner) => WalkWithin(Child(dir, e.name), inner, skip, v);
    case _ =>
  }

  lemma {:induction false} EntryOf(dir: Path, l: Listing, i: nat, skip: Path -> bool, v: Visit) returns (k: nat)
    requires l.Entries? && i <= |l.entries| && v in WalkEntries(dir, l, i, skip)
    ensures i <= k < |l.entries| && v in WalkEntry(dir, l, k, skip)
    decreases |l.entries| - i
  {
    hide WalkEntry;
    if v in WalkEntry(dir, l, i, skip) {
      k := i;
    } else {
      k := EntryOf(dir, l, i + 1, skip, v);
    }
  }

  lemma {:induction false} EntryCounts(dir: Path, l: Listing, i: nat, k: nat, skip: Path -> bool, v: Visit)
    requires l.Entries? && i <= k < |l.entries| && v in WalkEntry(dir, l, k, skip)
    ensures v in WalkEntries(dir, l, i, skip)
    decreases k - i
  {
    hide WalkEntry;
    if i < k {
      EntryCounts(dir, l, i + 1, k, skip, v);
    }
  }

  function NoSkip(): Path -> bool {
    (p: Path) => false
  }

  /** No path from below `dir` down to `p` is skipped. */
  ghost predicate Open(dir: Path, p: Path, skip: Path -> bool) {
    forall q :: dir + "/" <= q && Within(q, p) ==> !skip(q)
  }

  lemma {:induction false} PlainNamesAt(l: Listing, i: nat, k: nat)
    requires l.Entries? && i <= k < |l.entries| && PlainNamesFrom(l, i)
    ensures '/' !in l.entries[k].name
    ensures l.entries[k].node.Dir? ==> PlainNames(l.entries[k].node.listing)
    decreases k - i
  {
    if i < k {
      PlainNamesAt(l, i + 1, k);
    }
  }

  /** Between a directory and a path within its child stands the child itself,
      and then only what is below the child. */
  lemma BelowChild(dir: Path, name: string, p: Path, q: Path)
    requires '/' !in name && Within(Child(dir, name), p) && dir + "/" <= q && Within(q, p)
    ensures q == Child(dir, name) || Child(dir, name) + "/" <= q
  {
    WithinChild(dir, name, p);
    var c := Child(dir, name);
    assert q <= p && c <= p;
    assert forall j :: |dir| + 1 <= j < |c| ==> p[j] == name[j - |dir| - 1];
    assert |q| < |p| ==> p[|q|] == '/';
    assert |q| >= |c|;
    if |q| > |c| {
      assert p[|c|] == '/';
      assert c + "/" == p[..|c| + 1] == q[..|c| + 1];
    } else {
      assert q == p[..|c|] == c;
    }
  }

  lemma OpenChild(dir: Path, name: string, p: Path, skip: Path -> bool)
    requires '/' !in name && Within(Child(dir, name), p)
    ensures Open(dir, p, skip) <==> !skip(Child(dir, name)) && Open(Child(dir, name), p, skip)
  {
    var c := Child(dir, name);
    assert dir + "/" <= c;
    forall q | dir + "/" <= q && Within(q, p) ensures q == c || c + "/" <= q {
      BelowChild(dir, name, p, q);
    }
    forall q | c + "/" <= q && Within(q, p) ensures dir + "/" <= q {
      assert q[..|dir| + 1] == dir + "/";
    }
  }

  /** The walk visits exactly what the whole tree holds, minus every subtree
      whose root is skipped. */
  lemma {:induction false} WalkIff(dir: Path, l: Listing, skip: Path -> bool, v: Visit)
    requires PlainNames(l)
    ensures v in Walk(dir, l, skip) <==> v in Walk(dir, l, NoSkip()) && Open(dir, v.path, skip)
    decreases l, 1
  {
    assert Open(dir, dir, skip);
    hide Open, PlainNames, PlainNamesFrom, WalkEntry, Within;
    match l
    case Denied =>
    case Failed =>
    case Entries(_) =>
      if v in Walk(dir, l, skip) {
        var k := EntryOf(dir, l, 0, skip, v);
        PlainNamesOf(l, k);
        EntryIff(dir, l, k, skip, v);
        EntryCounts(dir, l, 0, k, NoSkip(), v);
      }
      if v in Walk(dir, l, NoSkip()) && Open(dir, v.path, skip) {
        var k := EntryOf(dir, l, 0, NoSkip(), v);
        PlainNamesOf(l, k);
        EntryIff(dir, l, k, skip, v);
        EntryCounts(dir, l, 0, k, skip, v);
      }
  }

  lemma PlainNamesOf(l: Listing, k: nat)
    requires PlainNames(l) && l.Entries? && k < |l.entries|
    ensures '/' !in l.entries[k].name
    ensures l.entries[k].node.Dir? ==> PlainNames(l.entries[k].node.listing)
  {
    PlainNamesAt(l, 0, k);
  }

  lemma {:induction false} EntryIff(dir: Path, l: Listing, i: nat, skip: Path -> bool, v: Visit)
    requires l.Entries? && i < |l.entries| && '/' !in l.entries[i].name
    requires l.entries[i].node.Dir? ==> PlainNames(l.entries[i].node.listing)
    ensures v in WalkEntry(dir, l, i, skip) <==> v in WalkEntry(dir, l, i, NoSkip()) && Open(dir, v.path, skip)
    decreases l, 0
  {
    assert forall c :: Open(c, c, skip);
    hide Open, PlainNames, Walk;
    var e := l.entries[i];
    var c := Child(dir, e.name);
    if v in WalkEntry(dir, l, i, skip) {
      EntryWithin(dir, l, i, skip, v);
      OpenChild(dir, e.name, v.path, skip);
    }
    if v in WalkEntry(dir, l, i, NoSkip()) {
      EntryWithin(dir, l, i, NoSkip(), v);
      OpenChild(dir, e.name, v.path, skip);
    }
    match e.node
    case Dir(inner) => WalkIff(c, inner, skip, v);
    case LeafNode(_) =>
    case _ =>
  }

  // ---- Name by name ---------------------------------------------------------------------

  /** Going down by these names, none of the paths on the way kept or the
      syncpoint, one comes to this leaf, or to this directory that cannot be
      listed. */
  ghost predicate Found(dir: Path, l: Listing, keepList: set<Path>, names: seq<string>, v: Visit)
    decreases |names|
  {
    if names == [] then l == Failed && v == Unlistable(dir)
    else
      var p := dir + "/" + names[0];
      && l.Entries? && p != "/etc/etc.syncpoint" && p !in keepList
      && exists e <- l.entries ::
           && e.name == names[0]
           && match e.node
              case LeafNode(leaf) => |names| == 1 && v == Seen(p, leaf)
              case Dir(inner) => Found(p, inner, keepList, names[1..], v)
              case _ => false
  }

  lemma {:induction false} WalkFinds(dir: Path, l: Listing, keepList: set<Path>, v: Visit) returns (names: seq<string>)
    requires v in Walk(dir, l, SkipOf(keepList))
    ensures Found(dir, l, keepList, names, v)
    decreases l
  {
    if l == Failed {
      names := [];
    } else {
      var k := EntryOf(dir, l, 0, SkipOf(keepList), v);
      var e := l.entries[k];
      assert Child(dir, e.name) == dir + "/" + e.name && e in l.entries;
      match e.node
      case LeafNode(_) => names := [e.name];
      case Dir(inner) =>
        var below := WalkFinds(Child(dir, e.name), inner, keepList, v);
        names := [e.name] + below;
        assert names[1..] == below;
    }
  }

  lemma {:induction false} FoundIsWalked(dir: Path, l: Listing, keepList: set<Path>, names: seq<string>, v: Visit)
    requires Found(dir, l, keepList, names, v)
    ensures v in Walk(dir, l, SkipOf(keepList))
    decreases |names|
  {
    if names != [] {
      var p := dir + "/" + names[0];
      var e :| e in l.entries && e.name == names[0]
               && match e.node
                  case LeafNode(leaf) => |names| == 1 && v == Seen(p, leaf)
                  case Dir(inner) => Found(p, inner, keepList, names[1..], v)
                  case _ => false;
      var k :| 0 <= k < |l.entries| && l.entries[k] == e;
      assert Child(dir, e.name) == p;
      if e.node.Dir? {
        FoundIsWalked(p, e.node.listing, keepList, names[1..], v);
      }
      assert v in WalkEntry(dir, l, k, SkipOf(keepList));
      EntryCounts(dir, l, 0, k, SkipOf(keepList), v);
    }
  }

  /** The walk visits exactly the leaves that one comes to by names, and the
      directories that cannot be listed; devices, entries that are gone or may not
      be looked at, and directories that may not be read yield nothing. */
  lemma WalkFindsIff(dir: Path, l: Listing, keepList: set<Path>, v: Visit)
    ensures v in Walk(dir, l, SkipOf(keepList)) <==> exists names :: Found(dir, l, keepList, names, v)
  {
    hide Walk;
    if v in Walk(dir, l, SkipOf(keepList)) {
      var names := WalkFinds(dir, l, keepList, v);
      assert Found(dir, l, keepList, names, v);
    } else if exists names :: Found(dir, l, keepList, names, v) {
      var names :| Found(dir, l, keepList, names, v);
      FoundIsWalked(dir, l, keepList, names, v);
    }
  }

  // ---- Once each ---------------------------------------------------------------------------

  /** Names within a directory are distinct, all the way down. */
  predicate DistinctNames(l: Listing)
    decreases l, 1
  {
    l.Entries? ==>
      && (forall i, j :: 0 <= i < j < |l.entries| ==> l.entries[i].name != l.entries[j].name)
      && DistinctNamesFrom(l, 0)
  }

  predicate DistinctNamesFrom(l: Listing, i: nat)
    requires l.Entries? && i <= |l.entries|
    decreases l, 0, |l.entries| - i
  {
    i < |l.entries| ==>
      && (match l.entries[i].node case Dir(inner) => DistinctNames(inner) case _ => true)
      && DistinctNamesFrom(l, i + 1)
  }

  ghost predicate DistinctPaths(vs: seq<Visit>) {
    forall j, k :: 0 <= j < k < |vs| ==> vs[j].path != vs[k].path
  }

  lemma DistinctJoin(a: seq<Visit>, b: seq<Visit>)
    requires DistinctPaths(a) && DistinctPaths(b)
    requires forall v <- a, w <- b :: v.path != w.path
    ensures DistinctPaths(a + b)
  {
    var ab := a + b;
    forall j, k | 0 <= j < k < |ab| ensures ab[j].path != ab[k].path {
      if j < |a| && |a| <= k {
        assert ab[j] in a && ab[k] in b;
      }
    }
  }

  /** No path is visited twice. */
  lemma {:induction false} WalkOnce(dir: Path, l: Listing, skip: Path -> bool)
    requires PlainNames(l) && DistinctNames(l)
    ensures DistinctPaths(Walk(dir, l, skip))
    decreases l, 1
  {
    if l.Entries? {
      WalkEntriesOnce(dir, l, 0, skip);
    }
  }

  lemma {:induction false} WalkEntriesOnce(dir: Path, l: Listing, i: nat, skip: Path -> bool)
    requires l.Entries? && i <= |l.entries| && PlainNames(l) && DistinctNames(l) && DistinctNamesFrom(l, i)
    ensures DistinctPaths(WalkEntries(dir, l, i, skip))
    decreases l, 0, |l.entries| - i
  {
    assert DistinctPaths([]) && forall v: Visit :: DistinctPaths([v]);
    hide PlainNames, Within, DistinctPaths;
    if i < |l.entries| {
      var first, rest := WalkEntry(dir, l, i, skip), WalkEntries(dir, l, i + 1, skip);
      PlainNamesOf(l, i);
      match l.entries[i].node {
        case Dir(inner) =>
          WalkOnce(Child(dir, l.entries[i].name), inner, skip);
        case LeafNode(leaf) =>
        case _ =>
      }
      WalkEntriesOnce(dir, l, i + 1, skip);
      forall v <- first, w <- rest ensures v.path != w.path {
        EntryWithin(dir, l, i, skip, v);
        var k := EntryOf(dir, l, i + 1, skip, w);
        EntryWithin(dir, l, k, skip, w);
        PlainNamesOf(l, k);
        if v.path == w.path {
          OneChild(dir, l.entries[i].name, l.entries[k].name, v.path);
        }
      }
      DistinctJoin(first, rest);
    }
  }

  // ---- What may not be read ----------------------------------------------------------------------

  /** The paths that the walk comes by and may not read, in order: directories it
      may not list, and entries it may not look at. */
  function Overlooked(dir: Path, l: Listing, skip: Path -> bool): seq<Path>
    decreases l, 1
  {
    match l
    case Failed => []
    case Denied => [dir]
    case Entries(_) => OverlookedFrom(dir, l, 0, skip)
  }

  function OverlookedFrom(dir: Path, l: Listing, i: nat, skip: Path -> bool): seq<Path>
    requires l.Entries? && i <= |l.entries|
    decreases l, 0, |l.entries| - i
  {
    if i == |l.entries| then []
    else
      var e := l.entries[i];
      var p := Child(dir, e.name);
      (if skip(p) then []
       else match e.node
         case Dir(inner) => Overlooked(p, inner, skip)
         case Forbidden => [p]
         case _ => [])
      + OverlookedFrom(dir, l, i + 1, skip)
  }

  /** The walk that reports whatever it may not read. */
  function StrictWalk(dir: Path, l: Listing, skip: Path -> bool): seq<Visit>
    decreases l, 1
  {
    match l
    case Failed => [Unlistable(dir)]
    case Denied => [Unlistable(dir)]
    case Entries(_) => StrictFrom(dir, l, 0, skip)
  }

  function StrictFrom(dir: Path, l: Listing, i: nat, skip: Path -> bool): seq<Visit>
    requires l.Entries? && i <= |l.entries|
    decreases l, 0, |l.entries| - i
  {
    if i == |l.entries| then []
    else
      var e := l.entries[i];
      var p := Child(dir, e.name);
      (if skip(p) then []
       else match e.node
         case LeafNode(leaf) => [Seen(p, leaf)]
         case Dir(inner) => StrictWalk(p, inner, skip)
         case Forbidden => [Unlistable(p)]
         case _ => [])
      + StrictFrom(dir, l, i + 1, skip)
  }

  /** It differs from the actual walk by what that overlooks. */
  lemma {:induction false} StrictVisits(dir: Path, l: Listing, skip: Path -> bool, v: Visit)
    ensures v in StrictWalk(dir, l, skip)
       <==> v in Walk(dir, l, skip) || (v.Unlistable? && v.path in Overlooked(dir, l, skip))
    decreases l, 1
  {
    if l.Entries? {
      StrictVisitsFrom(dir, l, 0, skip, v);
    }
  }

  lemma {:induction false} StrictVisitsFrom(dir: Path, l: Listing, i: nat, skip: Path -> bool, v: Visit)
    requires l.Entries? && i <= |l.entries|
    ensures v in StrictFrom(dir, l, i, skip)
       <==> v in WalkEntries(dir, l, i, skip) || (v.Unlistable? && v.path in OverlookedFrom(dir, l, i, skip))
    decreases l, 0, |l.entries| - i
  {
    if i < |l.entries| {
      var e := l.entries[i];
      if e.node.Dir? {
        StrictVisits(Child(dir, e.name), e.node.listing, skip, v);
      }
      StrictVisitsFrom(dir, l, i + 1, skip, v);
    }
  }

  /** Under `error` an unreadable source ends the walk, as is promised, exactly
      when the walk comes by nothing that it may not read. */
  lemma UnreadableEndsWalkIff(dir: Path, l: Listing, skip: Path -> bool, judge: (Path, Leaf) -> Verdict)
    ensures (forall v <- StrictWalk(dir, l, skip) :: !Problem(v, judge))
       <==> (forall v <- Walk(dir, l, skip) :: !Problem(v, judge)) && Overlooked(dir, l, skip) == []
  {
    hide Walk, StrictWalk, Overlooked;
    forall v ensures v in StrictWalk(dir, l, skip)
                <==> v in Walk(dir, l, skip) || (v.Unlistable? && v.path in Overlooked(dir, l, skip))
    {
      StrictVisits(dir, l, skip, v);
    }
    if Overlooked(dir, l, skip) != [] {
      assert Unlistable(Overlooked(dir, l, skip)[0]) in StrictWalk(dir, l, skip);
    }
  }

  /** For instance, a tree whose one entry is a directory that may not be listed,
      or a file that may not be looked at: nothing is visited, so the walk
      succeeds and reports nothing. */
  lemma DeniedPassesSilently(dir: Path, name: string, skip: Path -> bool)
    requires !skip(Child(dir, name))
    ensures forall node :: node == Dir(Denied) || node == Forbidden ==>
      var l := Entries([Entry(name, node)]);
      Walk(dir, l, skip) == [] && Overlooked(dir, l, skip) == [Child(dir, name)]
  {
    forall node | node == Dir(Denied) || node == Forbidden
      ensures Walk(dir, Entries([Entry(name, node)]), skip) == []
      ensures Overlooked(dir, Entries([Entry(name, node)]), skip) == [Child(dir, name)]
    {
      var l := Entries([Entry(name, node)]);
      assert l.entries[0] == Entry(name, node) && Overlooked(Child(dir, name), Denied, skip) == [Child(dir, name)];
      assert WalkEntry(dir, l, 0, skip) == [];
      assert WalkEntries(dir, l, 1, skip) == [] && OverlookedFrom(dir, l, 1, skip) == [];
    }
  }
}
