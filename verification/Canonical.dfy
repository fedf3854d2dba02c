/** The canonical text behind `desired_sha256`, and what two manifests must
    share for it to be the same: everything but the order of elements and the
    two volatile fields of `meta`. */
module Canonical {
  import opened Strings
  import opened Manifests
  import opened Json
  import opened ManifestIO
  import JsonWriter

  /** Identity keys, compared component by component. */
  type Key = (string, string)

  predicate KeyLess(a: Key, b: Key) {
    Less(a.0, b.0) || (a.0 == b.0 && Less(a.1, b.1))
  }

  lemma KeyLessTotal(a: Key, b: Key)
    ensures a == b || KeyLess(a, b) || KeyLess(b, a)
    ensures !KeyLess(a, a)
    ensures !(KeyLess(a, b) && KeyLess(b, a))
  {
    LessTotal(a.0, b.0);
    LessTotal(a.1, b.1);
    LessIrreflexive(a.0);
    LessIrreflexive(a.1);
    if Less(a.0, b.0) { LessAsymmetric(a.0, b.0); }
    if Less(b.0, a.0) { LessAsymmetric(b.0, a.0); }
    if Less(a.1, b.1) { LessAsymmetric(a.1, b.1); }
  }

  lemma KeyLessTransitive(a: Key, b: Key, c: Key)
    requires !KeyLess(b, a) && !KeyLess(c, b)
    ensures !KeyLess(c, a)
  {
    KeyLessTotal(a, b);
    KeyLessTotal(b, c);
    if a != b && b != c {
      if Less(a.0, b.0) && Less(b.0, c.0) { LessTransitive(a.0, b.0, c.0); }
      if Less(a.1, b.1) && Less(b.1, c.1) { LessTransitive(a.1, b.1, c.1); }
      assert KeyLess(a, c);
      KeyLessTotal(a, c);
    }
  }

  // ---- Sorting -----------------------------------------------------------------

  predicate SortedBy<T>(xs: seq<T>, key: T -> Key) {
    forall i, j :: 0 <= i < j < |xs| ==> !KeyLess(key(xs[j]), key(xs[i]))
  }

  predicate DistinctKeys<T>(xs: seq<T>, key: T -> Key) {
    forall i, j :: 0 <= i < j < |xs| ==> key(xs[i]) != key(xs[j])
  }

  /** Puts `x` before the first element that is not smaller. */
  function InsertBy<T>(x: T, xs: seq<T>, key: T -> Key): seq<T> {
    if xs == [] || !KeyLess(key(xs[0]), key(x)) then [x] + xs
    else [xs[0]] + InsertBy(x, xs[1..], key)
  }

  /** The library's stable sort. */
  function SortBy<T>(xs: seq<T>, key: T -> Key): seq<T> {
    if xs == [] then [] else InsertBy(xs[0], SortBy(xs[1..], key), key)
  }

  lemma {:induction false} InsertByElements<T>(x: T, xs: seq<T>, key: T -> Key)
    ensures multiset(InsertBy(x, xs, key)) == multiset{x} + multiset(xs)
  {
    if xs != [] {
      assert xs == [xs[0]] + xs[1..];
      if KeyLess(key(xs[0]), key(x)) {
        InsertByElements(x, xs[1..], key);
      }
    }
  }

  lemma {:induction false} InsertBySorts<T>(x: T, xs: seq<T>, key: T -> Key)
    requires SortedBy(xs, key)
    ensures SortedBy(InsertBy(x, xs, key), key)
  {
    if xs == [] {
    } else if !KeyLess(key(xs[0]), key(x)) {
      forall j | 0 <= j < |xs| ensures !KeyLess(key(xs[j]), key(x)) {
        if j > 0 { KeyLessTransitive(key(x), key(xs[0]), key(xs[j])); }
      }
    } else {
      InsertBySorts(x, xs[1..], key);
      var tail := InsertBy(x, xs[1..], key);
      InsertByElements(x, xs[1..], key);
      KeyLessTotal(key(xs[0]), key(x));
      forall j | 0 <= j < |tail| ensures !KeyLess(key(tail[j]), key(xs[0])) {
        assert tail[j] in multiset(tail);
        if tail[j] != x {
          assert tail[j] in xs[1..];
        }
      }
    }
  }

  lemma {:induction false} SortBySorts<T>(xs: seq<T>, key: T -> Key)
    ensures SortedBy(SortBy(xs, key), key)
    ensures multiset(SortBy(xs, key)) == multiset(xs)
  {
    if xs != [] {
      SortBySorts(xs[1..], key);
      InsertBySorts(xs[0], SortBy(xs[1..], key), key);
      InsertByElements(xs[0], SortBy(xs[1..], key), key);
      assert xs == [xs[0]] + xs[1..];
    }
  }

  lemma SameKeySameElement<T>(xs: seq<T>, key: T -> Key, x: T, y: T)
    requires DistinctKeys(xs, key) && x in xs && y in xs && key(x) == key(y)
    ensures x == y
  {
  }

  lemma SortedHead<T>(xs: seq<T>, key: T -> Key, x: T)
    requires SortedBy(xs, key) && x in xs
    ensures xs != [] && !KeyLess(key(x), key(xs[0]))
  {
    KeyLessTotal(key(x), key(x));
  }

  lemma SortedHeadsAgree<T>(a: seq<T>, b: seq<T>, key: T -> Key)
    requires multiset(a) == multiset(b) && DistinctKeys(a, key)
    requires SortedBy(a, key) && SortedBy(b, key) && a != [] && b != []
    ensures a[0] == b[0]
  {
    assert a[0] in multiset(a) && b[0] in multiset(b);
    SortedHead(a, key, b[0]);
    SortedHead(b, key, a[0]);
    KeyLessTotal(key(a[0]), key(b[0]));
    SameKeySameElement(a, key, a[0], b[0]);
  }

  /** With distinct keys there is one sorted arrangement, whichever algorithm
      produces it: stable or not, sorting a copy or in place. */
  lemma {:induction false} SortIsUnique<T>(a: seq<T>, b: seq<T>, key: T -> Key)
    requires multiset(a) == multiset(b) && DistinctKeys(a, key)
    requires SortedBy(a, key) && SortedBy(b, key)
    ensures a == b
  {
    hide SortedBy, DistinctKeys;
    assert |multiset(a)| == |a| && |multiset(b)| == |b|;
    if a != [] {
      SortedHeadsAgree(a, b, key);
      TailsOf(a, key);
      TailsOf(b, key);
      SortIsUnique(a[1..], b[1..], key);
      assert a == [a[0]] + a[1..] && b == [b[0]] + b[1..];
    }
  }

  lemma TailsOf<T>(xs: seq<T>, key: T -> Key)
    requires xs != []
    ensures multiset(xs[1..]) == multiset(xs) - multiset{xs[0]}
    ensures SortedBy(xs, key) ==> SortedBy(xs[1..], key)
    ensures DistinctKeys(xs, key) ==> DistinctKeys(xs[1..], key)
  {
    hide KeyLess;
    assert xs == [xs[0]] + xs[1..];
  }

  lemma {:induction false} DistinctKeysPermute<T>(a: seq<T>, b: seq<T>, key: T -> Key)
    requires multiset(a) == multiset(b) && DistinctKeys(a, key)
    ensures DistinctKeys(b, key)
  {
    forall i, j | 0 <= i < j < |b| ensures key(b[i]) != key(b[j]) {
      if key(b[i]) == key(b[j]) {
        assert b[i] in multiset(b) && b[j] in multiset(b);
        SameKeySameElement(a, key, b[i], b[j]);
        assert b == b[..i] + [b[i]] + b[i + 1..j] + [b[j]] + b[j + 1..];
        assert multiset(b)[b[i]] >= 2;
        OnceOnly(a, key, b[i]);
      }
    }
  }

  lemma {:induction false} OnceOnly<T>(a: seq<T>, key: T -> Key, x: T)
    requires DistinctKeys(a, key)
    ensures multiset(a)[x] <= 1
  {
    if a != [] {
      OnceOnly(a[1..], key, x);
      assert a == [a[0]] + a[1..];
      if x == a[0] {
        assert x !in a[1..];
      }
    }
  }

  /** Sorting forgets the order of elements and nothing else. */
  lemma SortEqualIff<T>(a: seq<T>, b: seq<T>, key: T -> Key)
    requires DistinctKeys(a, key)
    ensures SortBy(a, key) == SortBy(b, key) <==> multiset(a) == multiset(b)
  {
    SortBySorts(a, key);
    SortBySorts(b, key);
    if multiset(a) == multiset(b) {
      DistinctKeysPermute(a, SortBy(a, key), key);
      SortIsUnique(SortBy(a, key), SortBy(b, key), key);
    }
  }

  // ---- Canonical manifests -------------------------------------------------------

  function PackageKey(r: PackageRecord): Key { (r.name, r.arch) }
  function RepositoryKey(r: RepositoryRecord): Key { (r.alias, "") }
  function ServiceKey(r: ServiceRecord): Key { (r.name, "") }
  function FileKey(r: FileRecord): Key { (r.name, "") }

  function SortScope<T>(s: Option<Scope<T>>, key: T -> Key): Option<Scope<T>> {
    match s case None => None case Some(x) => Some(Scope(x.attributes, SortBy(x.elements, key)))
  }

  /** Elements in identity order, the two volatile fields of `meta` cleared. */
  function Normalize(m: Manifest): Manifest {
    Manifest(m.meta.(createdAt := "", desiredSha256 := ""),
             SortScope(m.packages, PackageKey), SortScope(m.repositories, RepositoryKey),
             SortScope(m.services, ServiceKey), SortScope(m.configFiles, FileKey),
             m.changedManagedFiles, m.unmanagedFiles)
  }

  ghost function CanonicalText(m: Manifest): string {
    Put(ManifestJson(Normalize(m)), Compact(true), "")
  }

  method CanonicalJson(m: Manifest) returns (text: string)
    ensures text == CanonicalText(m)
  {
    var c := m;
    if c.packages.Some? {
      c := c.(packages := Some(c.packages.value.(elements := SortBy(c.packages.value.elements, PackageKey))));
    }
    if c.repositories.Some? {
      var rs := c.repositories.value;
      c := c.(repositories := Some(rs.(elements := SortBy(rs.elements, RepositoryKey))));
    }
    if c.services.Some? {
      c := c.(services := Some(c.services.value.(elements := SortBy(c.services.value.elements, ServiceKey))));
    }
    if c.configFiles.Some? {
      c := c.(configFiles := Some(c.configFiles.value.(elements := SortBy(c.configFiles.value.elements, FileKey))));
    }
    c := c.(meta := c.meta.(desiredSha256 := ""));
    c := c.(meta := c.meta.(createdAt := ""));
    var w := new JsonWriter.Writer();
    w.WriteCanonical(ManifestJson(c), true);
    text := w.out;
  }

  /** Each scope names every thing once. */
  predicate DistinctIdentities(m: Manifest) {
    && DistinctKeys(Elements(m.packages), PackageKey)
    && DistinctKeys(Elements(m.repositories), RepositoryKey)
    && DistinctKeys(Elements(m.services), ServiceKey)
    && DistinctKeys(Elements(m.configFiles), FileKey)
  }

  /** The same scope up to the order of its elements. */
  ghost predicate SameScope<T>(a: Option<Scope<T>>, b: Option<Scope<T>>) {
    match (a, b)
    case (None, None) => true
    case (Some(x), Some(y)) => x.attributes == y.attributes && multiset(x.elements) == multiset(y.elements)
    case _ => false
  }

  ghost predicate SameIntent(m: Manifest, n: Manifest) {
    && m.meta.formatVersion == n.meta.formatVersion && m.meta.generator == n.meta.generator
    && SameScope(m.packages, n.packages) && SameScope(m.repositories, n.repositories)
    && SameScope(m.services, n.services) && SameScope(m.configFiles, n.configFiles)
    && m.changedManagedFiles == n.changedManagedFiles && m.unmanagedFiles == n.unmanagedFiles
  }

  lemma SortScopeEqualIff<T>(a: Option<Scope<T>>, b: Option<Scope<T>>, key: T -> Key)
    requires DistinctKeys(Elements(a), key)
    ensures SortScope(a, key) == SortScope(b, key) <==> SameScope(a, b)
  {
    hide SortBy, DistinctKeys;
    if a.Some? && b.Some? {
      SortEqualIff(a.value.elements, b.value.elements, key);
    }
  }

  lemma NormalizeEqualIff(m: Manifest, n: Manifest)
    requires DistinctIdentities(m)
    ensures Normalize(m) == Normalize(n) <==> SameIntent(m, n)
  {
    hide SortScope, SameScope, DistinctKeys;
    SortScopeEqualIff(m.packages, n.packages, PackageKey);
    SortScopeEqualIff(m.repositories, n.repositories, RepositoryKey);
    SortScopeEqualIff(m.services, n.services, ServiceKey);
    SortScopeEqualIff(m.configFiles, n.configFiles, FileKey);
  }

  lemma ManifestJsonInjective(m: Manifest, n: Manifest)
    requires ManifestJson(m) == ManifestJson(n)
    ensures m == n
  {
    hide ManifestJson, ParseManifest;
    ManifestRoundTrip(m);
    ManifestRoundTrip(n);
  }

  /** Two manifests hash the same text exactly when they say the same thing. */
  lemma CanonicalIdentity(m: Manifest, n: Manifest)
    requires DistinctIdentities(m)
    ensures CanonicalText(m) == CanonicalText(n) <==> SameIntent(m, n)
  {
    hide Put, ManifestJson, Normalize, SameIntent, DistinctIdentities;
    NormalizeEqualIff(m, n);
    PutInjective(ManifestJson(Normalize(m)), ManifestJson(Normalize(n)), Compact(true));
    if ManifestJson(Normalize(m)) == ManifestJson(Normalize(n)) {
      ManifestJsonInjective(Normalize(m), Normalize(n));
    }
  }

  // ---- The form that works on the JSON tree ----------------------------------------
  // Here volatile fields are removed, not cleared, and elements are sorted as
  // JSON values by one string key.

  function Field(v: Json, name: string): string {
    if v.Obj? && name in v.members && v.members[name].Str? then v.members[name].s else ""
  }

  function JoinedKey(name: string, arch: string): string { name + [NUL] + arch }

  function TreePackageKey(e: Json): Key { (JoinedKey(Field(e, "name"), Field(e, "arch")), "") }
  function TreeRepositoryKey(e: Json): Key { (Field(e, "alias"), "") }
  function TreeNameKey(e: Json): Key { (Field(e, "name"), "") }

  function StripVolatile(v: Json): Json {
    if v.Obj? && "meta" in v.members && v.members["meta"].Obj? then
      Obj(v.members["meta" := Obj(v.members["meta"].members - {"created_at", "desired_sha256"})])
    else v
  }

  function SortScopeElements(v: Json, scope: string, key: Json -> Key): Json {
    if v.Obj? && scope in v.members && v.members[scope].Obj?
       && "_elements" in v.members[scope].members && v.members[scope].members["_elements"].Arr? then
      var s := v.members[scope].members;
      Obj(v.members[scope := Obj(s["_elements" := Arr(SortBy(s["_elements"].items, key))])])
    else v
  }

  function SortElements(v: Json): Json {
    SortScopeElements(SortScopeElements(SortScopeElements(SortScopeElements(
      v, "packages", TreePackageKey), "repositories", TreeRepositoryKey),
      "services", TreeNameKey), "config_files", TreeNameKey)
  }

  ghost function TextOfTree(v: Json): string {
    Put(SortElements(StripVolatile(v)), Compact(false), "")
  }

  ghost function TreeText(m: Manifest): string {
    TextOfTree(ManifestJson(m))
  }

  // ---- One joined key against a pair of keys ------------------------------------------

  /** Joining two names by NUL orders them like the pairs, whatever the
      architectures, exactly when neither name is the other one followed by a
      NUL and more. */
  lemma JoinedOrderIff(n1: string, n2: string)
    ensures (forall a1, a2 :: Less(JoinedKey(n1, a1), JoinedKey(n2, a2)) <==> KeyLess((n1, a1), (n2, a2)))
       <==> !(n1 + [NUL] <= n2) && !(n2 + [NUL] <= n1)
  {
    if n1 + [NUL] <= n2 {
      JoinedPrefix(n1, n2);
    } else if n2 + [NUL] <= n1 {
      JoinedPrefix(n2, n1);
    } else {
      forall a1, a2 ensures Less(JoinedKey(n1, a1), JoinedKey(n2, a2)) <==> KeyLess((n1, a1), (n2, a2)) {
        JoinedOrder(n1, a1, n2, a2);
      }
    }
  }

  lemma {:induction false} JoinedOrder(n1: string, a1: string, n2: string, a2: string)
    requires !(n1 + [NUL] <= n2) && !(n2 + [NUL] <= n1)
    ensures Less(JoinedKey(n1, a1), JoinedKey(n2, a2)) <==> KeyLess((n1, a1), (n2, a2))
    decreases |n1|
  {
    var j1, j2 := JoinedKey(n1, a1), JoinedKey(n2, a2);
    if n1 == [] && n2 == [] {
      assert j1[1..] == a1 && j2[1..] == a2;
    } else if n1 == [] {
      assert n2[0] == NUL ==> n1 + [NUL] <= n2;
    } else if n2 == [] {
      assert n1[0] == NUL ==> n2 + [NUL] <= n1;
    } else if n1[0] == n2[0] {
      assert j1[1..] == JoinedKey(n1[1..], a1) && j2[1..] == JoinedKey(n2[1..], a2);
      assert n1 == [n1[0]] + n1[1..] && n2 == [n2[0]] + n2[1..];
      assert n1[1..] + [NUL] <= n2[1..] ==> n1 + [NUL] <= n2;
      assert n2[1..] + [NUL] <= n1[1..] ==> n2 + [NUL] <= n1;
      JoinedOrder(n1[1..], a1, n2[1..], a2);
    }
  }

  /** A name that continues another one behind a NUL is misplaced by a long
      enough architecture. */
  lemma JoinedPrefix(n1: string, n2: string)
    requires n1 + [NUL] <= n2
    ensures var a1 := n2[|n1| + 1..] + [NUL, NUL];
            && KeyLess((n1, a1), (n2, "")) && !KeyLess((n2, ""), (n1, a1))
            && Less(JoinedKey(n2, ""), JoinedKey(n1, a1)) && !Less(JoinedKey(n1, a1), JoinedKey(n2, ""))
  {
    var r := n2[|n1| + 1..];
    var a1 := r + [NUL, NUL];
    assert n2 == n1 + ([NUL] + r);
    assert n1 == n1 + [];
    LessBlocks(n1, [], n1, [NUL] + r);
    LessIrreflexive(n1);
    LessAsymmetric(n1, n2);
    var common := n1 + [NUL] + r + [NUL];
    assert JoinedKey(n2, "") == common + [];
    assert JoinedKey(n1, a1) == common + [NUL];
    LessBlocks(common, [], common, [NUL]);
    LessIrreflexive(common);
    LessAsymmetric(JoinedKey(n2, ""), JoinedKey(n1, a1));
  }

  // ---- The tree form agrees with the record form ---------------------------------------

  lemma {:induction false} InsertByAgree<T>(x: T, xs: seq<T>, k1: T -> Key, k2: T -> Key)
    requires forall y <- xs :: KeyLess(k1(y), k1(x)) <==> KeyLess(k2(y), k2(x))
    ensures InsertBy(x, xs, k1) == InsertBy(x, xs, k2)
  {
    if xs != [] {
      InsertByAgree(x, xs[1..], k1, k2);
    }
  }

  lemma {:induction false} SortByAgree<T>(xs: seq<T>, k1: T -> Key, k2: T -> Key)
    requires forall x <- xs, y <- xs :: KeyLess(k1(y), k1(x)) <==> KeyLess(k2(y), k2(x))
    ensures SortBy(xs, k1) == SortBy(xs, k2)
  {
    if xs != [] {
      SortByAgree(xs[1..], k1, k2);
      SortBySorts(xs[1..], k1);
      forall y <- SortBy(xs[1..], k1) ensures y in xs {
        assert y in multiset(SortBy(xs[1..], k1));
      }
      InsertByAgree(xs[0], SortBy(xs[1..], k1), k1, k2);
    }
  }

  lemma {:induction false} MapInsertBy<T(!new)>(x: T, xs: seq<T>,
                                                    record: T -> Json, key: T -> Key, treeKey: Json -> Key)
    requires forall e :: treeKey(record(e)) == key(e)
    ensures MapAll(InsertBy(x, xs, key), record) == InsertBy(record(x), MapAll(xs, record), treeKey)
  {
    if xs != [] {
      MapInsertBy(x, xs[1..], record, key, treeKey);
    }
  }

  lemma {:induction false} MapSortBy<T(!new)>(xs: seq<T>, record: T -> Json, key: T -> Key, treeKey: Json -> Key)
    requires forall e :: treeKey(record(e)) == key(e)
    ensures MapAll(SortBy(xs, key), record) == SortBy(MapAll(xs, record), treeKey)
  {
    if xs != [] {
      MapSortBy(xs[1..], record, key, treeKey);
      MapInsertBy(xs[0], SortBy(xs[1..], key), record, key, treeKey);
    }
  }

  lemma ScopeTreeSorts<T(!new)>(v: Json, scope: string, s: Option<Scope<T>>,
                               record: T -> Json, key: T -> Key, treeKey: Json -> Key)
    requires v.Obj? && Same(v.members, ScopeMember(scope, s, record), scope)
    requires forall e :: treeKey(record(e)) == key(e)
    ensures SortScopeElements(v, scope, treeKey)
         == Obj(v.members + ScopeMember(scope, SortScope(s, key), record))
  {
    hide SortBy, AttributesJson;
    if s.Some? {
      MapSortBy(s.value.elements, record, key, treeKey);
      var t := ScopeJson(s.value, record).members;
      var u := ScopeJson(Scope(s.value.attributes, SortBy(s.value.elements, key)), record);
      assert t["_elements" := Arr(MapAll(SortBy(s.value.elements, key), record))] == u.members;
    } else {
      assert v.members + map[] == v.members;
    }
  }

  function JoinedPackageKey(r: PackageRecord): Key { (JoinedKey(r.name, r.arch), "") }

  /** No package name holds a NUL; names from C strings never do. */
  predicate NulFree(m: Manifest) {
    forall r <- Elements(m.packages) :: NUL !in r.name
  }

  /** Sorting packages by the joined key is sorting them by name, then arch. */
  lemma PackageSortsAgree(m: Manifest)
    requires NulFree(m)
    ensures SortScope(m.packages, JoinedPackageKey) == SortScope(m.packages, PackageKey)
  {
    if m.packages.Some? {
      var xs := m.packages.value.elements;
      forall x <- xs, y <- xs
        ensures KeyLess(JoinedPackageKey(y), JoinedPackageKey(x)) <==> KeyLess(PackageKey(y), PackageKey(x))
      {
        assert (y.name + [NUL])[|y.name|] == NUL && (x.name + [NUL])[|x.name|] == NUL;
        JoinedOrder(y.name, y.arch, x.name, x.arch);
      }
      SortByAgree(xs, JoinedPackageKey, PackageKey);
    }
  }

  /** Replacing one scope of a document, in place or on top of the rest. */
  lemma ReplaceOne(a: map<string, Json>, p: map<string, Json>, p': map<string, Json>, rest: map<string, Json>)
    requires p'.Keys == p.Keys && p.Keys !! rest.Keys
    ensures a + p + rest + p' == a + p' + rest
  {
  }

  lemma UnionAssociates(a: map<string, Json>, b: map<string, Json>, c: map<string, Json>)
    ensures (a + b) + c == a + (b + c)
  {
  }

  lemma UnionReplace(m: map<string, Json>,
                     p: map<string, Json>, r: map<string, Json>, s: map<string, Json>, f: map<string, Json>,
                     p': map<string, Json>, r': map<string, Json>, s': map<string, Json>, f': map<string, Json>,
                     o: map<string, Json>)
    requires p'.Keys == p.Keys && r'.Keys == r.Keys && s'.Keys == s.Keys && f'.Keys == f.Keys
    requires p.Keys !! r.Keys !! s.Keys !! f.Keys !! o.Keys
    ensures m + p + r + s + f + o + p' + r' + s' + f' == m + p' + r' + s' + f' + o
  {
    UnionAssociates(m + p, r, s);
    UnionAssociates(m + p, r + s, f);
    UnionAssociates(m + p, r + s + f, o);
    ReplaceOne(m, p, p', r + s + f + o);
    var n := m + p';
    UnionAssociates(n, r, s);
    UnionAssociates(n, r + s, f);
    UnionAssociates(n, r + s + f, o);
    assert n + (r + s + f + o) == m + p + r + s + f + o + p';
    UnionAssociates(n + r, s, f);
    UnionAssociates(n + r, s + f, o);
    ReplaceOne(n, r, r', s + f + o);
    n := n + r';
    UnionAssociates(n, s, f);
    UnionAssociates(n, s + f, o);
    UnionAssociates(n + s, f, o);
    ReplaceOne(n, s, s', f + o);
    n := n + s';
    UnionAssociates(n, f, o);
    ReplaceOne(n, f, f', o);
  }

  /** The `meta` object that takes part in identity. */
  function StableMeta(m: Meta): Json {
    Obj(MetaJson(m).members - {"created_at", "desired_sha256"})
  }

  lemma StripManifest(m: Manifest)
    ensures StripVolatile(ManifestJson(m)) == Obj(ManifestJson(m).members["meta" := StableMeta(m.meta)])
    ensures StableMeta(m.meta.(createdAt := "", desiredSha256 := "")) == StableMeta(m.meta)
  {
    hide ManifestJson, Same, ScopeMember;
    ManifestMembers(m);
  }

  lemma ScopeKeysOnly<T>(scope: string, s: Option<Scope<T>>, record: T -> Json, key: T -> Key)
    ensures ScopeMember(scope, SortScope(s, key), record).Keys == ScopeMember(scope, s, record).Keys <= {scope}
  {
    hide ScopeJson, SortBy;
  }

  /** Putting the sorted scopes on top of a document is what normalizing does to
      its members. */
  lemma SortedOnTop(m: Manifest)
    ensures ManifestJson(m).members["meta" := StableMeta(m.meta)]
            + ScopeMember("packages", SortScope(m.packages, PackageKey), PackageJson)
            + ScopeMember("repositories", SortScope(m.repositories, RepositoryKey), RepositoryJson)
            + ScopeMember("services", SortScope(m.services, ServiceKey), ServiceJson)
            + ScopeMember("config_files", SortScope(m.configFiles, FileKey), FileJson)
         == ManifestJson(Normalize(m)).members["meta" := StableMeta(m.meta)]
  {
    hide ScopeMember, SortScope, MetaJson, StableMeta, Same;
    ScopeKeysDiffer();
    ScopeKeysOnly("packages", m.packages, PackageJson, PackageKey);
    ScopeKeysOnly("repositories", m.repositories, RepositoryJson, RepositoryKey);
    ScopeKeysOnly("services", m.services, ServiceJson, ServiceKey);
    ScopeKeysOnly("config_files", m.configFiles, FileJson, FileKey);
    ObservedKeysOnly(m);
    TreeUnion(SCOPE_KEYS, MetaJson(m.meta), MetaJson(Normalize(m).meta), StableMeta(m.meta),
              ScopeMember("packages", m.packages, PackageJson),
              ScopeMember("repositories", m.repositories, RepositoryJson),
              ScopeMember("services", m.services, ServiceJson),
              ScopeMember("config_files", m.configFiles, FileJson),
              ScopeMember("packages", SortScope(m.packages, PackageKey), PackageJson),
              ScopeMember("repositories", SortScope(m.repositories, RepositoryKey), RepositoryJson),
              ScopeMember("services", SortScope(m.services, ServiceKey), ServiceJson),
              ScopeMember("config_files", SortScope(m.configFiles, FileKey), FileJson),
              ScopeMember("changed_managed_files", m.changedManagedFiles, BaselineJson),
              ScopeMember("unmanaged_files", m.unmanagedFiles, UnmanagedJson));
  }

  /** Stripping and sorting the JSON tree is normalizing the manifest. */
  lemma TreeIsNormal(m: Manifest)
    requires NulFree(m)
    ensures SortElements(StripVolatile(ManifestJson(m))) == StripVolatile(ManifestJson(Normalize(m)))
  {
    hide StripVolatile, ScopeMember, SortScope, StableMeta, NulFree, SortElements, ManifestJson;
    StripManifest(m);
    StripManifest(Normalize(m));
    PackageSortsAgree(m);
    TreeSortsAll(m);
    SortedOnTop(m);
  }

  lemma ScopesDisjoint(ks: seq<string>, p: map<string, Json>, r: map<string, Json>, s: map<string, Json>,
                       f: map<string, Json>, c: map<string, Json>, u: map<string, Json>)
    requires |ks| == 7 && forall i, j :: 0 <= i < j < 7 ==> ks[i] != ks[j]
    requires p.Keys <= {ks[1]} && r.Keys <= {ks[2]} && s.Keys <= {ks[3]}
    requires f.Keys <= {ks[4]} && c.Keys <= {ks[5]} && u.Keys <= {ks[6]}
    ensures p.Keys !! r.Keys !! s.Keys !! f.Keys !! (c + u).Keys
  {
  }

  lemma UpdateUnder(a: map<string, Json>, b: map<string, Json>, k: string, x: Json)
    requires k !in b
    ensures (a + b)[k := x] == a[k := x] + b
  {
  }

  lemma MetaReplaced(k: string, meta: Json, x: Json, p: map<string, Json>, r: map<string, Json>, s: map<string, Json>,
                     f: map<string, Json>, c: map<string, Json>, u: map<string, Json>)
    requires k !in p && k !in r && k !in s && k !in f && k !in c && k !in u
    ensures (map[k := meta] + p + r + s + f + c + u)[k := x] == map[k := x] + p + r + s + f + c + u
  {
    var m := map[k := meta];
    UpdateUnder(m + p + r + s + f + c, u, k, x);
    UpdateUnder(m + p + r + s + f, c, k, x);
    UpdateUnder(m + p + r + s, f, k, x);
    UpdateUnder(m + p + r, s, k, x);
    UpdateUnder(m + p, r, k, x);
    UpdateUnder(m, p, k, x);
    assert m[k := x] == map[k := x];
  }

  lemma TreeUnion(ks: seq<string>, meta: Json, meta': Json, x: Json,
                  p: map<string, Json>, r: map<string, Json>, s: map<string, Json>, f: map<string, Json>,
                  p': map<string, Json>, r': map<string, Json>, s': map<string, Json>, f': map<string, Json>,
                  c: map<string, Json>, u: map<string, Json>)
    requires |ks| == 7 && forall i, j :: 0 <= i < j < 7 ==> ks[i] != ks[j]
    requires p'.Keys == p.Keys <= {ks[1]} && r'.Keys == r.Keys <= {ks[2]} && s'.Keys == s.Keys <= {ks[3]}
    requires f'.Keys == f.Keys <= {ks[4]} && c.Keys <= {ks[5]} && u.Keys <= {ks[6]}
    ensures (map[ks[0] := meta] + p + r + s + f + c + u)[ks[0] := x] + p' + r' + s' + f'
         == (map[ks[0] := meta'] + p' + r' + s' + f' + c + u)[ks[0] := x]
  {
    MetaReplaced(ks[0], meta, x, p, r, s, f, c, u);
    MetaReplaced(ks[0], meta', x, p', r', s', f', c, u);
    ScopesDisjoint(ks, p, r, s, f, c, u);
    UnionReplace(map[ks[0] := x], p, r, s, f, p', r', s', f', c + u);
    UnionAssociates(map[ks[0] := x] + p + r + s + f, c, u);
    UnionAssociates(map[ks[0] := x] + p' + r' + s' + f', c, u);
  }

  lemma ObservedKeysOnly(m: Manifest)
    ensures ScopeMember("changed_managed_files", m.changedManagedFiles, BaselineJson).Keys <= {"changed_managed_files"}
    ensures ScopeMember("unmanaged_files", m.unmanagedFiles, UnmanagedJson).Keys <= {"unmanaged_files"}
  {
    hide ScopeJson;
  }

  lemma TreeSortsAll(m: Manifest)
    ensures SortElements(StripVolatile(ManifestJson(m)))
         == Obj(ManifestJson(m).members["meta" := StableMeta(m.meta)]
                + ScopeMember("packages", SortScope(m.packages, JoinedPackageKey), PackageJson)
                + ScopeMember("repositories", SortScope(m.repositories, RepositoryKey), RepositoryJson)
                + ScopeMember("services", SortScope(m.services, ServiceKey), ServiceJson)
                + ScopeMember("config_files", SortScope(m.configFiles, FileKey), FileJson))
  {
    hide StripVolatile, ManifestJson, StableMeta, ScopeMember, SortScope, SortScopeElements;
    StripManifest(m);
    ManifestMembers(m);
    ScopeKeysDiffer();
    assert SCOPE_KEYS[0] != SCOPE_KEYS[1] && SCOPE_KEYS[0] != SCOPE_KEYS[2];
    var ms := ManifestJson(m).members["meta" := StableMeta(m.meta)];
    var v := Obj(ms);
    TreeKeys();
    ScopeTreeSorts(v, "packages", m.packages, PackageJson, JoinedPackageKey, TreePackageKey);
    ScopeKeysOnly("packages", m.packages, PackageJson, JoinedPackageKey);
    v := Obj(v.members + ScopeMember("packages", SortScope(m.packages, JoinedPackageKey), PackageJson));
    ScopeTreeSorts(v, "repositories", m.repositories, RepositoryJson, RepositoryKey, TreeRepositoryKey);
    ScopeKeysOnly("repositories", m.repositories, RepositoryJson, RepositoryKey);
    v := Obj(v.members + ScopeMember("repositories", SortScope(m.repositories, RepositoryKey), RepositoryJson));
    TreeSortsLast(v, m);
  }

  /** The last two scopes, in a document that holds them unsorted. */
  lemma TreeSortsLast(v: Json, m: Manifest)
    requires v.Obj? && Same(v.members, ScopeMember("services", m.services, ServiceJson), "services")
    requires Same(v.members, ScopeMember("config_files", m.configFiles, FileJson), "config_files")
    ensures SortScopeElements(SortScopeElements(v, "services", TreeNameKey), "config_files", TreeNameKey)
         == Obj(v.members
                + ScopeMember("services", SortScope(m.services, ServiceKey), ServiceJson)
                + ScopeMember("config_files", SortScope(m.configFiles, FileKey), FileJson))
  {
    hide ScopeMember, SortScope, SortScopeElements;
    ScopeKeysDiffer();
    assert SCOPE_KEYS[3] == "services" && SCOPE_KEYS[4] == "config_files";
    TreeKeys();
    ScopeTreeSorts(v, "services", m.services, ServiceJson, ServiceKey, TreeNameKey);
    ScopeKeysOnly("services", m.services, ServiceJson, ServiceKey);
    var w := Obj(v.members + ScopeMember("services", SortScope(m.services, ServiceKey), ServiceJson));
    ScopeTreeSorts(w, "config_files", m.configFiles, FileJson, FileKey, TreeNameKey);
  }

  lemma TreeKeys()
    ensures forall r :: TreePackageKey(PackageJson(r)) == JoinedPackageKey(r)
    ensures forall r :: TreeRepositoryKey(RepositoryJson(r)) == RepositoryKey(r)
    ensures forall r :: TreeNameKey(ServiceJson(r)) == ServiceKey(r)
    ensures forall r :: TreeNameKey(FileJson(r)) == FileKey(r)
  {
  }

  lemma StripInjective(m: Manifest, n: Manifest)
    requires StripVolatile(ManifestJson(Normalize(m))) == StripVolatile(ManifestJson(Normalize(n)))
    ensures ManifestJson(Normalize(m)) == ManifestJson(Normalize(n))
  {
    var a, b := Normalize(m), Normalize(n);
    StripManifest(a);
    StripManifest(b);
    ManifestMembers(a);
    ManifestMembers(b);
    StableMetaInjective(a.meta, b.meta);
    hide ManifestJson, Same, ScopeMember, StableMeta, Normalize, StripVolatile, MetaJson;
    var x, y := ManifestJson(a).members, ManifestJson(b).members;
    assert x["meta" := StableMeta(a.meta)]["meta"] == StableMeta(a.meta);
    assert y["meta" := StableMeta(b.meta)]["meta"] == StableMeta(b.meta);
    MetaRestored(x, y, "meta", StableMeta(a.meta), StableMeta(b.meta));
  }

  lemma MetaRestored(x: map<string, Json>, y: map<string, Json>, k: string, s: Json, t: Json)
    requires k in x && k in y && x[k] == y[k] && x[k := s] == y[k := t]
    ensures x == y
  {
    assert x == x[k := s][k := x[k]] && y == y[k := t][k := y[k]];
  }

  lemma StableMetaInjective(a: Meta, b: Meta)
    requires a.createdAt == b.createdAt && a.desiredSha256 == b.desiredSha256
    ensures StableMeta(a) == StableMeta(b) ==> MetaJson(a) == MetaJson(b)
  {
    var x, y := StableMeta(a).members, StableMeta(b).members;
    assert "format_version" in x && x["format_version"] == Num(a.formatVersion);
    assert "generator" in x && x["generator"] == Str(a.generator);
    assert "format_version" in y && y["format_version"] == Num(b.formatVersion);
    assert "generator" in y && y["generator"] == Str(b.generator);
  }

  /** The tree form hashes the same text exactly when the record form does. */
  lemma TreeIdentity(m: Manifest, n: Manifest)
    requires DistinctIdentities(m) && NulFree(m) && NulFree(n)
    ensures TreeText(m) == TreeText(n) <==> SameIntent(m, n)
  {
    TreeIsNormal(m);
    TreeIsNormal(n);
    NormalizeEqualIff(m, n);
    hide Put, ManifestJson, Normalize, SameIntent, DistinctIdentities, SortElements, StripVolatile, NulFree;
    PutInjective(StripVolatile(ManifestJson(Normalize(m))), StripVolatile(ManifestJson(Normalize(n))), Compact(false));
    if TreeText(m) == TreeText(n) {
      StripInjective(m, n);
      ManifestJsonInjective(Normalize(m), Normalize(n));
    }
  }

  /** The text that is hashed, from the JSON tree of a manifest. */
  method DesiredText(tree: Json) returns (text: string)
    ensures text == TextOfTree(tree)
  {
    var v := StripVolatile(tree);
    v := SortElements(v);
    var w := new JsonWriter.Writer();
    w.WriteCanonical(v, false);
    text := w.out;
  }
}
