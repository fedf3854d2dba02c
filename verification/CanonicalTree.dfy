/** Identity of manifests as JSON trees, whatever fields their records have. */
module CanonicalTree {
  import opened Strings
  import opened Json
  import opened Canonical

  // ---- One member of the document at a time ---------------------------------------------

  function StripMeta(x: Json): Json {
    if x.Obj? then Obj(x.members - {"created_at", "desired_sha256"}) else x
  }

  predicate HasElements(x: Json) {
    x.Obj? && "_elements" in x.members && x.members["_elements"].Arr?
  }

  function ElementsOf(x: Json): seq<Json> {
    if HasElements(x) then x.members["_elements"].items else []
  }

  function SortTree(x: Json, key: Json -> Key): Json {
    if HasElements(x) then Obj(x.members["_elements" := Arr(SortBy(ElementsOf(x), key))]) else x
  }

  /** The scopes that are sorted, each with its key. */
  function KeyOf(scope: string): Option<Json -> Key> {
    if scope == "packages" then Some(TreePackageKey)
    else if scope == "repositories" then Some(TreeRepositoryKey)
    else if scope == "services" || scope == "config_files" then Some(TreeNameKey)
    else None
  }

  function CanonicalMember(name: string, x: Json): Json {
    if name == "meta" then StripMeta(x)
    else match KeyOf(name) case None => x case Some(key) => SortTree(x, key)
  }

  lemma StripAt(v: Json)
    requires v.Obj?
    ensures StripVolatile(v).Obj? && StripVolatile(v).members.Keys == v.members.Keys
    ensures forall k <- v.members ::
      StripVolatile(v).members[k] == if k == "meta" then StripMeta(v.members[k]) else v.members[k]
  {
  }

  lemma SortAt(v: Json, scope: string, key: Json -> Key)
    requires v.Obj?
    ensures var r := SortScopeElements(v, scope, key);
            && r.Obj? && r.members.Keys == v.members.Keys
            && forall k <- v.members :: r.members[k] == if k == scope then SortTree(v.members[k], key) else v.members[k]
  {
    hide SortBy;
  }

  /** Stripping and sorting acts on each member of the document by itself. */
  lemma TreeAt(v: Json)
    requires v.Obj?
    ensures var r := SortElements(StripVolatile(v));
            && r.Obj? && r.members.Keys == v.members.Keys
            && forall k <- v.members :: r.members[k] == CanonicalMember(k, v.members[k])
  {
    hide StripVolatile, SortScopeElements, StripMeta, SortTree;
    assert |"packages"| == |"services"| == 8 && "packages"[0] != "services"[0];
    assert |"repositories"| == |"config_files"| == 12 && "repositories"[0] != "config_files"[0] && |"meta"| == 4;
    var a := StripVolatile(v);
    StripAt(v);
    var b := SortScopeElements(a, "packages", TreePackageKey);
    SortAt(a, "packages", TreePackageKey);
    var c := SortScopeElements(b, "repositories", TreeRepositoryKey);
    SortAt(b, "repositories", TreeRepositoryKey);
    var d := SortScopeElements(c, "services", TreeNameKey);
    SortAt(c, "services", TreeNameKey);
    SortAt(d, "config_files", TreeNameKey);
  }

  // ---- What two documents must share ------------------------------------------------------

  /** The same scope up to the order of its elements. */
  ghost predicate SameTree(x: Json, y: Json) {
    if HasElements(x) && HasElements(y) then
      && x.members - {"_elements"} == y.members - {"_elements"}
      && multiset(ElementsOf(x)) == multiset(ElementsOf(y))
    else x == y
  }

  ghost predicate SameMember(name: string, x: Json, y: Json) {
    if name == "meta" then StripMeta(x) == StripMeta(y)
    else if KeyOf(name).Some? then SameTree(x, y)
    else x == y
  }

  /** The same document up to the order of elements and the two volatile fields. */
  ghost predicate SameDocument(v: Json, w: Json)
    requires v.Obj? && w.Obj?
  {
    v.members.Keys == w.members.Keys && forall k <- v.members :: SameMember(k, v.members[k], w.members[k])
  }

  /** Each sorted scope names every thing once. */
  predicate DistinctElements(v: Json)
    requires v.Obj?
  {
    forall k <- v.members :: KeyOf(k).Some? ==> DistinctKeys(ElementsOf(v.members[k]), KeyOf(k).value)
  }

  lemma ReplaceOnly(a: map<string, Json>, b: map<string, Json>, k: string, x: Json, y: Json)
    requires k in a && k in b
    ensures a[k := x] == b[k := y] <==> a - {k} == b - {k} && x == y
  {
    if a[k := x] == b[k := y] {
      assert a[k := x][k] == x && b[k := y][k] == y;
      assert a - {k} == a[k := x] - {k} && b - {k} == b[k := y] - {k};
    }
    if a - {k} == b - {k} && x == y {
      assert a[k := x] == (a - {k})[k := x] && b[k := y] == (b - {k})[k := y];
    }
  }

  lemma SortTreeEqualIff(x: Json, y: Json, key: Json -> Key)
    requires DistinctKeys(ElementsOf(x), key)
    ensures SortTree(x, key) == SortTree(y, key) <==> SameTree(x, y)
  {
    hide SortBy, DistinctKeys;
    if HasElements(x) && HasElements(y) {
      SortEqualIff(ElementsOf(x), ElementsOf(y), key);
      ReplaceOnly(x.members, y.members, "_elements", Arr(SortBy(ElementsOf(x), key)), Arr(SortBy(ElementsOf(y), key)));
    }
  }

  /** Two documents hash the same text exactly when they are the same up to the
      order of elements and the two volatile fields, whatever records they hold. */
  lemma DocumentIdentity(v: Json, w: Json)
    requires v.Obj? && w.Obj? && DistinctElements(v)
    ensures TextOfTree(v) == TextOfTree(w) <==> SameDocument(v, w)
  {
    hide Put, SortElements, StripVolatile, StripMeta, SortTree, SameTree, KeyOf, DistinctKeys;
    TreeAt(v);
    TreeAt(w);
    PutInjective(SortElements(StripVolatile(v)), SortElements(StripVolatile(w)), Compact(false));
    var a, b := SortElements(StripVolatile(v)).members, SortElements(StripVolatile(w)).members;
    if v.members.Keys == w.members.Keys {
      forall k <- v.members
        ensures CanonicalMember(k, v.members[k]) == CanonicalMember(k, w.members[k])
           <==> SameMember(k, v.members[k], w.members[k])
      {
        if k != "meta" && KeyOf(k).Some? {
          SortTreeEqualIff(v.members[k], w.members[k], KeyOf(k).value);
        }
      }
      assert a == b <==> forall k <- v.members :: a[k] == b[k];
    } else {
      assert a.Keys != b.Keys;
    }
  }
}
