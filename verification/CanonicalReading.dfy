/** What the canonical text says of a manifest, and how. */
module CanonicalReading {
  import opened Strings
  import opened Manifests
  import opened Json
  import opened JsonText
  import opened ManifestIO
  import opened Canonical

  // ---- Sorting is stable -----------------------------------------------------------------

  /** The elements under one key, in order. */
  ghost function OfKey<T>(xs: seq<T>, key: T -> Key, k: Key): seq<T> {
    if xs == [] then [] else (if key(xs[0]) == k then [xs[0]] else []) + OfKey(xs[1..], key, k)
  }

  lemma {:induction false} InsertStable<T>(x: T, xs: seq<T>, key: T -> Key, k: Key)
    ensures OfKey(InsertBy(x, xs, key), key, k) == (if key(x) == k then [x] else []) + OfKey(xs, key, k)
  {
    var one := if key(x) == k then [x] else [];
    if xs == [] || !KeyLess(key(xs[0]), key(x)) {
      assert ([x] + xs)[1..] == xs;
    } else {
      var rest := InsertBy(x, xs[1..], key);
      assert ([xs[0]] + rest)[1..] == rest;
      InsertStable(x, xs[1..], key, k);
      KeyLessTotal(key(xs[0]), key(x));
      var head, tail := if key(xs[0]) == k then [xs[0]] else [], OfKey(xs[1..], key, k);
      assert one == [] || head == [];
      assert head + (one + tail) == one + (head + tail);
    }
  }

  /** Elements of one key stay in the order they had. */
  lemma {:induction false} SortIsStable<T>(xs: seq<T>, key: T -> Key, k: Key)
    ensures OfKey(SortBy(xs, key), key, k) == OfKey(xs, key, k)
  {
    if xs != [] {
      SortIsStable(xs[1..], key, k);
      InsertStable(xs[0], SortBy(xs[1..], key), key, k);
    }
  }

  // ---- What the text says -------------------------------------------------------------------

  /** The scope with its elements put in order: none before one with a smaller name
      (and, if there is a second one, smaller second name). */
  ghost predicate Ordered<T>(from: Option<Scope<T>>, to: Option<Scope<T>>, first: T -> string, second: T -> string) {
    match (from, to)
    case (None, None) => true
    case (Some(a), Some(b)) =>
      && b.attributes == a.attributes
      && multiset(b.elements) == multiset(a.elements)
      && forall i, j :: 0 <= i < j < |b.elements| ==>
           var x, y := b.elements[i], b.elements[j];
           Less(first(x), first(y)) || (first(x) == first(y) && (Less(second(x), second(y)) || second(x) == second(y)))
    case _ => false
  }

  function NoText<T>(): T -> string {
    (x: T) => ""
  }

  lemma SortOrders<T(!new)>(s: Option<Scope<T>>, key: T -> Key, first: T -> string, second: T -> string)
    requires forall x :: key(x) == (first(x), second(x))
    ensures Ordered(s, SortScope(s, key), first, second)
  {
    hide SortBy;
    if s.Some? {
      var sorted := SortBy(s.value.elements, key);
      SortBySorts(s.value.elements, key);
      forall i, j | 0 <= i < j < |sorted|
        ensures var x, y := sorted[i], sorted[j];
                || Less(first(x), first(y))
                || (first(x) == first(y) && (Less(second(x), second(y)) || second(x) == second(y)))
      {
        LessTotal(first(sorted[i]), first(sorted[j]));
        LessTotal(second(sorted[i]), second(sorted[j]));
      }
    }
  }

  /** The canonical text reads back as the manifest with packages in order of name
      and architecture, repositories in order of alias, units and files in order
      of name, and without the time and the digest; it is on one line without a
      blank outside of strings, and in ASCII. */
  lemma CanonicalTextSays(m: Manifest)
    ensures var n := LoadText(CanonicalText(m));
            && n.Some?
            && n.value.meta == Meta(m.meta.formatVersion, m.meta.generator, "", "")
            && Ordered(m.packages, n.value.packages, (p: PackageRecord) => p.name, (p: PackageRecord) => p.arch)
            && Ordered(m.repositories, n.value.repositories, (r: RepositoryRecord) => r.alias, NoText())
            && Ordered(m.services, n.value.services, (u: ServiceRecord) => u.name, NoText())
            && Ordered(m.configFiles, n.value.configFiles, (f: FileRecord) => f.name, NoText())
            && n.value.changedManagedFiles == m.changedManagedFiles && n.value.unmanagedFiles == m.unmanagedFiles
    ensures Ascii(CanonicalText(m)) && Relaid(CanonicalText(m), None, false) == CanonicalText(m)
  {
    assert Relaid("", None, false) == "";
    hide Put, ManifestJson, ParseManifest, ReadDocument, Relaid, Ordered, SortScope, Ascii;
    var v := ManifestJson(Normalize(m));
    ReadPutDocument(v, Compact(true), "");
    ManifestRoundTrip(Normalize(m));
    assert Ascii("") by { AsciiWords(); }
    PutAscii(v, "");
    RelaidPut(v, true, "", None);
    SortOrders(m.packages, PackageKey, (p: PackageRecord) => p.name, (p: PackageRecord) => p.arch);
    SortOrders(m.repositories, RepositoryKey, (r: RepositoryRecord) => r.alias, NoText());
    SortOrders(m.services, ServiceKey, (u: ServiceRecord) => u.name, NoText());
    SortOrders(m.configFiles, FileKey, (f: FileRecord) => f.name, NoText());
  }

  /** The text of the applied record is the compact text laid out in lines, and a
      newline. */
  lemma RecordTextSays(m: Manifest)
    ensures PrettyText(m) == Relaid(Put(ManifestJson(m), Compact(false), ""), Some(0), false) + "\n"
  {
    assert Relaid("", Some(0), false) == "";
    hide Put, ManifestJson, Relaid;
    RelaidPut(ManifestJson(m), false, "", Some(0));
  }

  // ---- The tree form -----------------------------------------------------------------------

  /** The tree form is on one line as well, but writes what is beyond ASCII as it
      is. */
  lemma TreeTextSays(v: Json)
    ensures ReadDocument(TextOfTree(v)) == Some(SortElements(StripVolatile(v)))
    ensures Relaid(TextOfTree(v), None, false) == TextOfTree(v)
    ensures v.Str? && (forall c <- v.s :: c >= ' ' && c != '"' && c != '\\') ==> TextOfTree(v) == "\"" + v.s + "\""
  {
    assert v.Str? ==> SortElements(StripVolatile(v)) == v;
    assert Relaid("", None, false) == "";
    hide ReadDocument, Relaid, SortElements, StripVolatile;
    var w := SortElements(StripVolatile(v));
    ReadPutDocument(w, Compact(false), "");
    RelaidPut(w, false, "", None);
    if v.Str? && forall c <- v.s :: c >= ' ' && c != '"' && c != '\\' {
      PlainStringUnchanged(v.s, false, "");
      assert "\"" + v.s + "\"" + "" == "\"" + v.s + "\"";
    }
  }

  /** What has no text under a name sorts as if the text were empty. */
  lemma TreeKeysOf(e: Json)
    ensures var name := if e.Obj? && "name" in e.members && e.members["name"].Str? then e.members["name"].s else "";
            var arch := if e.Obj? && "arch" in e.members && e.members["arch"].Str? then e.members["arch"].s else "";
            var alias := if e.Obj? && "alias" in e.members && e.members["alias"].Str? then e.members["alias"].s else "";
            && TreeNameKey(e) == (name, "") && TreeRepositoryKey(e) == (alias, "")
            && TreePackageKey(e) == (name + ['\U{0000}'] + arch, "")
  {
  }
}
