/** Admin files of the alternatives system: reading one, and finding the
    provider that automatic mode would select. */
module Alternatives {
  import opened Strings
  import opened Manifests
  import opened Description
  import Converge

  // ---- Numbers as strtol reads them ------------------------------------------------------

  predicate IsCSpace(c: char) {
    c == ' ' || '\t' <= c <= '\r'
  }

  function SkipCSpace(s: string): string {
    if s != "" && IsCSpace(s[0]) then SkipCSpace(s[1..]) else s
  }

  /** `std::stol`, with the exceptions for no digits and for overflow of a
      64-bit long both caught as 0; anything behind the digits is ignored. */
  function Stol(s: string): int {
    var t := SkipCSpace(s);
    var signed := t != "" && (t[0] == '-' || t[0] == '+');
    var u := if signed then t[1..] else t;
    var m: int := Value(u[..DigitRun(u)]);
    var n := if signed && t[0] == '-' then -m else m;
    if -0x8000_0000_0000_0000 <= n < 0x8000_0000_0000_0000 then n else 0
  }

  lemma StolReads(n: int)
    requires -0x8000_0000_0000_0000 <= n < 0x8000_0000_0000_0000
    ensures Stol(Decimal(n)) == n
  {
    var m := if n < 0 then -n else n;
    DigitRunStops(Digits(m), "");
    assert Digits(m) + "" == Digits(m);
    ValueOfDigits(m);
    assert Digits(m)[..|Digits(m)|] == Digits(m);
    var t := Decimal(n);
    assert !IsCSpace(t[0]) by {
      assert IsDigit(t[0]) || t[0] == '-';
    }
    if n < 0 {
      assert t[1..] == Digits(m);
    } else {
      assert IsDigit(t[0]);
    }
  }

  // ---- Reading an admin file ------------------------------------------------------------

  datatype Provider = Provider(path: string, priority: int, targets: seq<string>)

  /** The links of the slave block, and the lines behind it. */
  datatype Slaves = Slaves(links: seq<string>, rest: seq<string>)

  function ReadSlaves(ls: seq<string>): Slaves
    decreases |ls|
  {
    if |ls| < 1 || ls[0] == "" then Slaves([], if ls == [] then [] else ls[1..])
    else if |ls| < 2 then Slaves([], [])
    else
      var more := ReadSlaves(ls[2..]);
      Slaves([ls[1]] + more.links, more.rest)
  }

  /** Provider blocks: path, priority, one target per slave; blank lines between. */
  function ReadProviders(ls: seq<string>, slaves: nat): seq<Provider>
    decreases |ls|
  {
    if ls == [] then []
    else if ls[0] == "" then ReadProviders(ls[1..], slaves)
    else if |ls| < 2 then []
    else
      var k := if 2 + slaves <= |ls| then 2 + slaves else |ls|;
      [Provider(ls[0], Stol(ls[1]), ls[2..k])] + ReadProviders(ls[k..], slaves)
  }

  /** The running best: only a priority above the best so far, which starts at
      -1, takes over. */
  function Best(ps: seq<Provider>): Option<Provider> {
    if ps == [] then None
    else
      var b, p := Best(ps[..|ps| - 1]), ps[|ps| - 1];
      if p.priority > (if b.None? then -1 else b.value.priority) then Some(p) else b
  }

  datatype Admin = Admin(master: string, slaveLinks: seq<string>, best: Option<Provider>)

  function ReadAdmin(ls: seq<string>): Admin {
    var s := ReadSlaves(ls[if |ls| < 2 then |ls| else 2..]);
    Admin(if |ls| < 2 then "" else ls[1], s.links, Best(ReadProviders(s.rest, |s.links|)))
  }

  method ParseAdmin(ls: seq<string>) returns (a: Admin)
    ensures a == ReadAdmin(ls)
  {
    var master := if |ls| < 2 then "" else ls[1];
    var start := if |ls| < 2 then |ls| else 2;
    var links, pos := ParseSlaves(ls, start);
    var best := ParseProviders(ls, pos, |links|);
    a := Admin(master, links, best);
  }

  method ParseSlaves(ls: seq<string>, start: nat) returns (links: seq<string>, pos: nat)
    requires start <= |ls|
    ensures pos <= |ls| && Slaves(links, ls[pos..]) == ReadSlaves(ls[start..])
  {
    hide ReadSlaves;
    links, pos := [], start;
    NothingLeft(0);
    while pos < |ls|
      invariant start <= pos <= |ls|
      invariant ReadSlaves(ls[start..]) == Slaves(links + ReadSlaves(ls[pos..]).links, ReadSlaves(ls[pos..]).rest)
    {
      NextSlave(ls, pos);
      var line := ls[pos];
      if line == "" {
        pos := pos + 1;
        return;
      }
      if pos + 1 == |ls| {
        pos := pos + 1;
        return;
      }
      links := links + [ls[pos + 1]];
      pos := pos + 2;
    }
    assert ls[pos..] == [];
  }

  lemma NothingLeft(slaves: nat)
    ensures ReadSlaves([]) == Slaves([], []) && ReadProviders([], slaves) == []
  {
  }

  lemma NextSlave(ls: seq<string>, pos: nat)
    requires pos < |ls|
    ensures ls[pos] == "" || pos + 1 == |ls| ==> ReadSlaves(ls[pos..]) == Slaves([], ls[pos + 1..])
    ensures ls[pos] != "" && pos + 1 < |ls| ==>
      var more := ReadSlaves(ls[pos + 2..]);
      ReadSlaves(ls[pos..]) == Slaves([ls[pos + 1]] + more.links, more.rest)
  {
    var t := ls[pos..];
    assert t[0] == ls[pos] && t[1..] == ls[pos + 1..];
    if pos + 1 < |ls| {
      assert t[1] == ls[pos + 1] && t[2..] == ls[pos + 2..];
    }
  }

  method ParseProviders(ls: seq<string>, start: nat, slaves: nat) returns (best: Option<Provider>)
    requires start <= |ls|
    ensures best == Best(ReadProviders(ls[start..], slaves))
  {
    hide Stol, ReadProviders;
    best := None;
    var bestPriority := -1;
    ghost var before: seq<Provider> := [];
    var pos := start;
    assert before + ReadProviders(ls[pos..], slaves) == ReadProviders(ls[start..], slaves);
    while pos < |ls|
      invariant start <= pos <= |ls|
      invariant best == Best(before) && bestPriority == if best.None? then -1 else best.value.priority
      invariant ReadProviders(ls[start..], slaves) == before + ReadProviders(ls[pos..], slaves)
    {
      NoProvider(ls, pos, slaves);
      if ls[pos] == "" {
        pos := pos + 1;
        continue;
      }
      if pos + 1 == |ls| {
        assert before + [] == before;
        return;
      }
      var priority := Stol(ls[pos + 1]);
      var targets, next := ReadTargets(ls, pos + 2, slaves);
      NextProvider(ls, pos, slaves, before);
      ghost var provider := Provider(ls[pos], priority, targets);
      assert (before + [provider])[..|before|] == before;
      before := before + [provider];
      if priority > bestPriority {
        bestPriority := priority;
        best := Some(Provider(ls[pos], priority, targets));
      }
      pos := next;
    }
    NothingLeft(slaves);
    assert ls[pos..] == [];
    assert before + [] == before;
  }

  lemma NoProvider(ls: seq<string>, pos: nat, slaves: nat)
    requires pos < |ls|
    ensures ls[pos] == "" ==> ReadProviders(ls[pos..], slaves) == ReadProviders(ls[pos + 1..], slaves)
    ensures ls[pos] != "" && pos + 1 == |ls| ==> ReadProviders(ls[pos..], slaves) == []
  {
    assert ls[pos..][1..] == ls[pos + 1..];
  }

  method ReadTargets(ls: seq<string>, start: nat, slaves: nat) returns (targets: seq<string>, next: nat)
    requires start <= |ls|
    ensures next == (if start + slaves <= |ls| then start + slaves else |ls|) && targets == ls[start..next]
  {
    targets, next := [], start;
    for i := 0 to slaves
      invariant next == if start + i <= |ls| then start + i else |ls|
      invariant targets == ls[start..next]
    {
      if next == |ls| {
        break;
      }
      targets := targets + [ls[next]];
      next := next + 1;
    }
  }

  lemma NextProvider(ls: seq<string>, pos: nat, slaves: nat, before: seq<Provider>)
    requires pos + 1 < |ls| && ls[pos] != ""
    ensures var next := if pos + 2 + slaves <= |ls| then pos + 2 + slaves else |ls|;
            before + ReadProviders(ls[pos..], slaves)
            == (before + [Provider(ls[pos], Stol(ls[pos + 1]), ls[pos + 2..next])]) + ReadProviders(ls[next..], slaves)
  {
    hide Stol;
    var next := if pos + 2 + slaves <= |ls| then pos + 2 + slaves else |ls|;
    var t := ls[pos..];
    assert t[2..next - pos] == ls[pos + 2..next] && t[next - pos..] == ls[next..];
  }

  // ---- Which provider wins ------------------------------------------------------------------

  /** Provider `k` beats all before it and is not beaten by any after it. */
  predicate Wins(ps: seq<Provider>, k: nat) {
    && k < |ps| && ps[k].priority >= 0
    && (forall j :: 0 <= j < k ==> ps[j].priority < ps[k].priority)
    && (forall j :: k < j < |ps| ==> ps[j].priority <= ps[k].priority)
  }

  lemma WinnerIsUnique(ps: seq<Provider>, j: nat, k: nat)
    requires Wins(ps, j) && Wins(ps, k)
    ensures j == k
  {
  }

  /** The first provider of greatest priority is selected, unless every priority
      is negative; then none is. There is no other winner. */
  lemma {:induction false} BestIsFirstMaximum(ps: seq<Provider>)
    ensures Best(ps).None? <==> forall p <- ps :: p.priority < 0
    ensures forall k: nat :: Wins(ps, k) ==> Best(ps) == Some(ps[k])
    ensures Best(ps).Some? ==> exists k: nat :: Wins(ps, k)
  {
    WinnerSelected(ps);
    forall k: nat | Wins(ps, k) ensures Best(ps) == Some(ps[k]) {
      assert ps[k] in ps;
      var j: nat :| Wins(ps, j) && Best(ps) == Some(ps[j]);
      WinnerIsUnique(ps, j, k);
    }
  }

  lemma {:induction false} WinnerSelected(ps: seq<Provider>)
    ensures Best(ps).None? <==> forall p <- ps :: p.priority < 0
    ensures Best(ps).Some? ==> exists k: nat :: Wins(ps, k) && Best(ps) == Some(ps[k])
  {
    if ps != [] {
      var n := |ps| - 1;
      var front := ps[..n];
      WinnerSelected(front);
      assert ps == front + [ps[n]];
      if Best(front).None? {
        if ps[n].priority >= 0 {
          forall j | 0 <= j < n ensures ps[j].priority < 0 { assert ps[j] in front; }
          assert Wins(ps, n);
        }
      } else {
        var k: nat :| Wins(front, k) && Best(front) == Some(front[k]);
        assert ps[k] == front[k] && front[k] in ps;
        if ps[n].priority > ps[k].priority {
          forall j | 0 <= j < n ensures ps[j].priority < ps[n].priority { assert ps[j] == front[j]; }
          assert Wins(ps, n);
        } else {
          assert Wins(ps, k);
        }
      }
    }
  }

  // ---- The printer -----------------------------------------------------------------------

  datatype Slave = Slave(name: string, link: string)

  datatype AdminFile = AdminFile(status: string, master: string, slaves: seq<Slave>, providers: seq<Provider>)

  function PrintSlaves(ss: seq<Slave>): seq<string> {
    if ss == [] then [] else [ss[0].name, ss[0].link] + PrintSlaves(ss[1..])
  }

  /** One block per provider, each with `gap` blank lines behind it. */
  function PrintProviders(ps: seq<Provider>, gap: nat): seq<string> {
    if ps == [] then []
    else [ps[0].path, Decimal(ps[0].priority)] + ps[0].targets + Blanks(gap) + PrintProviders(ps[1..], gap)
  }

  function Blanks(n: nat): (ls: seq<string>)
    ensures |ls| == n && forall l <- ls :: l == ""
  {
    if n == 0 then [] else [""] + Blanks(n - 1)
  }

  function PrintAdmin(f: AdminFile, gap: nat): seq<string> {
    [f.status, f.master] + PrintSlaves(f.slaves) + [""] + PrintProviders(f.providers, gap)
  }

  predicate WellFormed(f: AdminFile) {
    && (forall s <- f.slaves :: s.name != "")
    && WellFormedProviders(f.providers, |f.slaves|)
  }

  predicate WellFormedProviders(ps: seq<Provider>, slaves: nat) {
    forall p <- ps :: p.path != "" && |p.targets| == slaves
                      && -0x8000_0000_0000_0000 <= p.priority < 0x8000_0000_0000_0000
  }

  function Links(ss: seq<Slave>): seq<string> {
    if ss == [] then [] else [ss[0].link] + Links(ss[1..])
  }

  lemma LinksLength(ss: seq<Slave>)
    ensures |Links(ss)| == |ss|
  {
  }

  lemma {:induction false} SlavesReadBack(ss: seq<Slave>, rest: seq<string>)
    requires forall s <- ss :: s.name != ""
    ensures ReadSlaves(PrintSlaves(ss) + ([""] + rest)) == Slaves(Links(ss), rest)
  {
    var ls := PrintSlaves(ss) + ([""] + rest);
    if ss == [] {
      assert ls == [""] + rest;
      assert ls[1..] == rest;
    } else {
      assert ls[2..] == PrintSlaves(ss[1..]) + ([""] + rest);
      SlavesReadBack(ss[1..], rest);
    }
  }

  lemma {:induction false} BlanksSkipped(gap: nat, ls: seq<string>, slaves: nat)
    ensures ReadProviders(Blanks(gap) + ls, slaves) == ReadProviders(ls, slaves)
  {
    if gap == 0 {
      assert Blanks(gap) + ls == ls;
    } else {
      assert (Blanks(gap) + ls)[1..] == Blanks(gap - 1) + ls;
      BlanksSkipped(gap - 1, ls, slaves);
    }
  }

  lemma ProviderThen(ps: seq<Provider>, gap: nat, slaves: nat, more: seq<string>)
    requires ps != [] && WellFormedProviders(ps, slaves)
    ensures ReadProviders(PrintProviders(ps, gap) + more, slaves)
         == [ps[0]] + ReadProviders(PrintProviders(ps[1..], gap) + more, slaves)
  {
    var p, head := ps[0], [ps[0].path, Decimal(ps[0].priority)] + ps[0].targets;
    assert p in ps && WellFormedProviders([p], slaves);
    assert PrintProviders(ps, gap) == head + Blanks(gap) + PrintProviders(ps[1..], gap);
    hide Decimal, ReadProviders, Blanks, PrintProviders, WellFormedProviders;
    var rest := PrintProviders(ps[1..], gap) + more;
    var tail := Blanks(gap) + rest;
    assert PrintProviders(ps, gap) + more == head + tail;
    OneBlock(p, tail, slaves);
    BlanksSkipped(gap, rest, slaves);
  }

  lemma OneBlock(p: Provider, tail: seq<string>, slaves: nat)
    requires WellFormedProviders([p], slaves)
    ensures ReadProviders([p.path, Decimal(p.priority)] + p.targets + tail, slaves) == [p] + ReadProviders(tail, slaves)
  {
    hide Stol, Decimal;
    assert p in [p];
    var ls := [p.path, Decimal(p.priority)] + p.targets + tail;
    assert ls[2..2 + slaves] == p.targets && ls[2 + slaves..] == tail;
    StolReads(p.priority);
  }

  lemma {:induction false} ProvidersReadBack(ps: seq<Provider>, gap: nat, slaves: nat)
    requires WellFormedProviders(ps, slaves)
    ensures ReadProviders(PrintProviders(ps, gap), slaves) == ps
  {
    if ps != [] {
      hide Stol, Decimal;
      ProviderThen(ps, gap, slaves, []);
      assert PrintProviders(ps, gap) + [] == PrintProviders(ps, gap);
      assert PrintProviders(ps[1..], gap) + [] == PrintProviders(ps[1..], gap);
      ProvidersReadBack(ps[1..], gap, slaves);
      assert ps == [ps[0]] + ps[1..];
    }
  }

  /** A well-formed admin file is read back: master and slave links as written,
      and as best provider the first of greatest priority, with that same
      provider's slave targets. */
  lemma AdminReadsBack(f: AdminFile, gap: nat)
    requires WellFormed(f)
    ensures ReadAdmin(PrintAdmin(f, gap)) == Admin(f.master, Links(f.slaves), Best(f.providers))
    ensures f.providers != [] && (forall p <- f.providers :: p.priority >= 0) ==>
      exists k: nat :: Wins(f.providers, k) && ReadAdmin(PrintAdmin(f, gap)).best == Some(f.providers[k])
  {
    var ls := PrintAdmin(f, gap);
    assert ls[2..] == PrintSlaves(f.slaves) + ([""] + PrintProviders(f.providers, gap));
    SlavesReadBack(f.slaves, PrintProviders(f.providers, gap));
    LinksLength(f.slaves);
    ProvidersReadBack(f.providers, gap, |f.slaves|);
    BestIsFirstMaximum(f.providers);
    if f.providers != [] {
      assert f.providers[0] in f.providers;
    }
  }

  /** The same from the text of the file. */
  lemma AdminTextReadsBack(f: AdminFile, gap: nat)
    requires WellFormed(f) && forall i :: 0 <= i < |PrintAdmin(f, gap)| ==> OneLine(PrintAdmin(f, gap)[i])
    ensures ReadAdmin(Lines(Unlines(PrintAdmin(f, gap)))) == Admin(f.master, Links(f.slaves), Best(f.providers))
  {
    hide PrintAdmin, WellFormed, ReadAdmin;
    LinesOfUnlines(PrintAdmin(f, gap));
    AdminReadsBack(f, gap);
  }

  /** For instance, a lone provider of priority -5 is not selected. */
  lemma NegativePriorityNeverWins(path: string, targets: seq<string>)
    ensures Best([Provider(path, -5, targets)]) == None
  {
    BestIsFirstMaximum([Provider(path, -5, targets)]);
  }

  /** The selection is the one with the greatest priority of all exactly when
      some priority is not negative; providers below zero are never selected. */
  lemma BestIsGreatestIff(ps: seq<Provider>)
    requires ps != []
    ensures Best(ps).Some? && (forall p <- ps :: p.priority <= Best(ps).value.priority)
       <==> exists p <- ps :: p.priority >= 0
  {
    BestIsFirstMaximum(ps);
    if Best(ps).Some? {
      var k: nat :| Wins(ps, k) && Best(ps) == Some(ps[k]);
      assert ps[k] in ps;
      forall p <- ps ensures p.priority <= ps[k].priority {
        var j :| 0 <= j < |ps| && ps[j] == p;
      }
    }
  }

  // ---- The index -----------------------------------------------------------------------------

  /** What stands behind the last slash. */
  function Basename(p: Path): string {
    if p == "" || p[|p| - 1] == '/' then "" else Basename(p[..|p| - 1]) + [p[|p| - 1]]
  }

  function Note(idx: AlternativesIndex, link: Path, target: string): AlternativesIndex {
    AlternativesIndex(if target == "" then idx.linkToTarget else idx.linkToTarget[link := target],
                      idx.knownLinks + {link})
  }

  function SlaveTarget(a: Admin, i: nat): string {
    if a.best.Some? && i < |a.best.value.targets| then a.best.value.targets[i] else ""
  }

  function NoteSlaves(idx: AlternativesIndex, a: Admin, n: nat): AlternativesIndex
    requires n <= |a.slaveLinks|
  {
    if n == 0 then idx
    else
      var before := NoteSlaves(idx, a, n - 1);
      var link := a.slaveLinks[n - 1];
      Note(Note(before, link, SlaveTarget(a, n - 1)), ALTERNATIVES + Basename(link), SlaveTarget(a, n - 1))
  }

  function NoteAdmin(idx: AlternativesIndex, name: string, a: Admin): AlternativesIndex {
    var provider := if a.best.Some? then a.best.value.path else "";
    var one := if a.master == "" then idx else Note(idx, a.master, provider);
    NoteSlaves(Note(one, ALTERNATIVES + name, provider), a, |a.slaveLinks|)
  }

  method IndexAdmin(idx: AlternativesIndex, name: string, a: Admin) returns (r: AlternativesIndex)
    ensures r == NoteAdmin(idx, name, a)
  {
    var links, known := idx.linkToTarget, idx.knownLinks;
    var provider := if a.best.Some? then a.best.value.path else "";
    if a.master != "" {
      known := known + {a.master};
      if provider != "" {
        links := links[a.master := provider];
      }
    }
    var etcLink := ALTERNATIVES + name;
    known := known + {etcLink};
    if provider != "" {
      links := links[etcLink := provider];
    }
    ghost var start := AlternativesIndex(links, known);
    for i := 0 to |a.slaveLinks|
      invariant AlternativesIndex(links, known) == NoteSlaves(start, a, i)
    {
      var link := a.slaveLinks[i];
      known := known + {link};
      if a.best.Some? && i < |a.best.value.targets| && a.best.value.targets[i] != "" {
        links := links[link := a.best.value.targets[i]];
      }
      var etcSlave := ALTERNATIVES + Basename(link);
      known := known + {etcSlave};
      if a.best.Some? && i < |a.best.value.targets| && a.best.value.targets[i] != "" {
        links := links[etcSlave := a.best.value.targets[i]];
      }
    }
    r := AlternativesIndex(links, known);
  }

  // ---- Every path of the index -----------------------------------------------------------

  /** The basename is what follows the last slash. */
  lemma {:induction false} BasenameIs(p: Path)
    ensures '/' !in Basename(p)
    ensures exists dir: string :: p == dir + Basename(p) && (dir == "" || dir[|dir| - 1] == '/')
  {
    if p == "" || p[|p| - 1] == '/' {
      assert p == p + Basename(p);
    } else {
      var n := |p| - 1;
      BasenameIs(p[..n]);
      var dir: string :| p[..n] == dir + Basename(p[..n]) && (dir == "" || dir[|dir| - 1] == '/');
      assert p == dir + Basename(p);
    }
  }

  /** Slave `i` is about this path: its link, or the indirection named after it. */
  predicate Claims(a: Admin, i: nat, p: Path)
    requires i < |a.slaveLinks|
  {
    p == a.slaveLinks[i] || p == "/etc/alternatives/" + Basename(a.slaveLinks[i])
  }

  /** The selected provider gives slave `i` a target. */
  predicate HasTarget(a: Admin, i: nat) {
    a.best.Some? && i < |a.best.value.targets| && a.best.value.targets[i] != ""
  }

  /** The path is the master link or its indirection. */
  predicate IsMaster(a: Admin, name: string, p: Path) {
    (a.master != "" && p == a.master) || p == "/etc/alternatives/" + name
  }

  lemma {:induction false} SlavesKnown(idx: AlternativesIndex, a: Admin, n: nat, p: Path)
    requires n <= |a.slaveLinks|
    ensures p in NoteSlaves(idx, a, n).knownLinks <==> p in idx.knownLinks || exists i: nat :: i < n && Claims(a, i, p)
  {
    if n > 0 {
      SlavesKnown(idx, a, n - 1, p);
      var before := NoteSlaves(idx, a, n - 1);
      assert p in NoteSlaves(idx, a, n).knownLinks <==> p in before.knownLinks || Claims(a, n - 1, p);
    }
  }

  /** Of the first `n` slaves, the last one with a target that is about the path. */
  function LastClaim(a: Admin, n: nat, p: Path): (r: Option<nat>)
    requires n <= |a.slaveLinks|
    ensures r.Some? ==> r.value < n && Claims(a, r.value, p) && HasTarget(a, r.value)
    ensures forall j: nat :: j < n && Claims(a, j, p) && HasTarget(a, j) ==> r.Some? && j <= r.value
  {
    if n == 0 then None
    else if Claims(a, n - 1, p) && HasTarget(a, n - 1) then Some(n - 1)
    else LastClaim(a, n - 1, p)
  }

  lemma {:induction false} SlavesTargets(idx: AlternativesIndex, a: Admin, n: nat, p: Path)
    requires n <= |a.slaveLinks|
    ensures Converge.At(NoteSlaves(idx, a, n).linkToTarget, p)
         == match LastClaim(a, n, p)
            case Some(i) => Some(a.best.value.targets[i])
            case None => Converge.At(idx.linkToTarget, p)
  {
    if n > 0 {
      SlavesTargets(idx, a, n - 1, p);
      SlaveNoted(NoteSlaves(idx, a, n - 1), a, n - 1, p);
      hide Note, SlaveTarget, Claims, HasTarget, Basename;
    }
  }

  lemma SlaveNoted(idx: AlternativesIndex, a: Admin, i: nat, p: Path)
    requires i < |a.slaveLinks|
    ensures var link := a.slaveLinks[i];
            var r := Note(Note(idx, link, SlaveTarget(a, i)), ALTERNATIVES + Basename(link), SlaveTarget(a, i));
            Converge.At(r.linkToTarget, p)
            == if Claims(a, i, p) && HasTarget(a, i) then Some(a.best.value.targets[i])
               else Converge.At(idx.linkToTarget, p)
  {
  }

  /** After indexing, exactly these links are known besides the earlier ones: the
      master link, its indirection, and each slave link with its own. */
  lemma KnownIff(idx: AlternativesIndex, name: string, a: Admin, p: Path)
    ensures p in NoteAdmin(idx, name, a).knownLinks
       <==> p in idx.knownLinks || IsMaster(a, name, p) || exists i: nat :: i < |a.slaveLinks| && Claims(a, i, p)
  {
    hide Claims, NoteSlaves;
    var provider := if a.best.Some? then a.best.value.path else "";
    var one := if a.master == "" then idx else Note(idx, a.master, provider);
    SlavesKnown(Note(one, ALTERNATIVES + name, provider), a, |a.slaveLinks|, p);
  }

  /** And a path resolves to the target of the last slave that is about it and has
      one; without such a slave, to the selected provider if it is the master
      link or its indirection; and otherwise to what it resolved to before. */
  lemma ResolvesTo(idx: AlternativesIndex, name: string, a: Admin, p: Path)
    ensures Converge.At(NoteAdmin(idx, name, a).linkToTarget, p)
         == match LastClaim(a, |a.slaveLinks|, p)
            case Some(i) => Some(a.best.value.targets[i])
            case None =>
              if IsMaster(a, name, p) && a.best.Some? && a.best.value.path != "" then Some(a.best.value.path)
              else Converge.At(idx.linkToTarget, p)
  {
    hide LastClaim, NoteSlaves;
    var provider := if a.best.Some? then a.best.value.path else "";
    var one := if a.master == "" then idx else Note(idx, a.master, provider);
    SlavesTargets(Note(one, ALTERNATIVES + name, provider), a, |a.slaveLinks|, p);
  }

  // ---- Files that are cut short --------------------------------------------------------------

  /** With fewer than two lines there is no master, no slave and no provider. */
  lemma NoMaster(ls: seq<string>)
    requires |ls| < 2
    ensures ReadAdmin(ls) == Admin("", [], None)
  {
  }

  /** A slave name without its link ends the file and is dropped. */
  lemma {:induction false} SlaveWithoutLink(ss: seq<Slave>, name: string)
    requires name != "" && forall s <- ss :: s.name != ""
    ensures ReadSlaves(PrintSlaves(ss)) == Slaves(Links(ss), [])
    ensures ReadSlaves(PrintSlaves(ss) + [name]) == Slaves(Links(ss), [])
  {
    if ss == [] {
      assert PrintSlaves(ss) + [name] == [name];
    } else {
      var ls := PrintSlaves(ss);
      assert ls[2..] == PrintSlaves(ss[1..]) && (ls + [name])[2..] == PrintSlaves(ss[1..]) + [name];
      SlaveWithoutLink(ss[1..], name);
    }
  }

  lemma LastProvider(slaves: nat, path: string, priority: string, targets: seq<string>)
    requires path != "" && |targets| < slaves
    ensures ReadProviders([path], slaves) == []
    ensures ReadProviders([path, priority] + targets, slaves) == [Provider(path, Stol(priority), targets)]
  {
    assert ReadProviders([], slaves) == [];
    hide Stol;
    var ls := [path, priority] + targets;
    assert ls[2..] == targets && ls[|ls|..] == [] && ls[2..|ls|] == targets;
    assert [Provider(path, Stol(priority), targets)] + [] == [Provider(path, Stol(priority), targets)];
  }

  /** A provider without a priority ends the file and is dropped; one with a
      priority counts, with the targets there are. */
  lemma {:induction false} ProviderCutShort(ps: seq<Provider>, gap: nat, slaves: nat,
                                             path: string, priority: string, targets: seq<string>)
    requires WellFormedProviders(ps, slaves) && path != "" && |targets| < slaves
    ensures ReadProviders(PrintProviders(ps, gap) + [path], slaves) == ps
    ensures ReadProviders(PrintProviders(ps, gap) + ([path, priority] + targets), slaves)
         == ps + [Provider(path, Stol(priority), targets)]
  {
    hide Stol, Decimal;
    if ps == [] {
      assert [] + [path] == [path] && [] + ([path, priority] + targets) == [path, priority] + targets;
      LastProvider(slaves, path, priority, targets);
    } else {
      hide ReadProviders, PrintProviders;
      ProviderThen(ps, gap, slaves, [path]);
      ProviderThen(ps, gap, slaves, [path, priority] + targets);
      ProviderCutShort(ps[1..], gap, slaves, path, priority, targets);
      assert [ps[0]] + ps[1..] == ps;
      var last := [Provider(path, Stol(priority), targets)];
      assert [ps[0]] + (ps[1..] + last) == ps + last;
    }
  }

  lemma StolSigned(sign: string, digits: string, rest: string)
    requires sign in {"", "+", "-"} && AllDigits(digits) && (rest == "" || !IsDigit(rest[0]))
    requires sign == "" && digits == "" ==> rest == "" || (!IsCSpace(rest[0]) && rest[0] !in {'+', '-'})
    ensures var m: int := Value(digits);
            var n := if sign == "-" then -m else m;
            Stol(sign + (digits + rest)) == if -0x8000_0000_0000_0000 <= n < 0x8000_0000_0000_0000 then n else 0
  {
    hide Value, DigitRun;
    var t := sign + (digits + rest);
    DigitRunStops(digits, rest);
    assert (digits + rest)[..|digits|] == digits;
    if sign == "" {
      assert t == digits + rest;
      assert digits != "" ==> IsDigit(t[0]) && t[0] == digits[0];
    } else {
      assert t[1..] == digits + rest && t[0] == sign[0];
    }
  }

  /** A priority: white space, a sign, digits and whatever follows; no digits or
      too large a number count as 0. */
  lemma {:induction false} StolAny(blanks: string, sign: string, digits: string, rest: string)
    requires forall c <- blanks :: c in {' ', '\t', '\n', '\U{000B}', '\U{000C}', '\r'}
    requires sign in {"", "+", "-"} && AllDigits(digits) && (rest == "" || !IsDigit(rest[0]))
    requires sign == "" && digits == "" ==>
      rest == "" || rest[0] !in {' ', '\t', '\n', '\U{000B}', '\U{000C}', '\r', '+', '-'}
    ensures var m: int := Value(digits);
            var n := if sign == "-" then -m else m;
            Stol(blanks + (sign + (digits + rest)))
            == if -0x8000_0000_0000_0000 <= n < 0x8000_0000_0000_0000 then n else 0
    decreases blanks
  {
    var t := sign + (digits + rest);
    if blanks == "" {
      assert blanks + t == t;
      StolSigned(sign, digits, rest);
    } else {
      hide Value, DigitRun;
      assert blanks[0] in blanks && forall c <- blanks[1..] :: c in blanks;
      assert (blanks + t)[1..] == blanks[1..] + t;
      StolAny(blanks[1..], sign, digits, rest);
    }
  }
}
