/** The manifest as JSON and back, and the applied record on disk. */
module ManifestIO {
  import opened Strings
  import opened Manifests
  import opened Json
  import JsonWriter

  // ---- To JSON ----------------------------------------------------------------

  function MetaJson(m: Meta): Json {
    Obj(map["format_version" := Num(m.formatVersion), "generator" := Str(m.generator),
            "created_at" := Str(m.createdAt), "desired_sha256" := Str(m.desiredSha256)])
  }

  function PackageJson(r: PackageRecord): Json {
    Obj(map["name" := Str(r.name), "version" := Str(r.version),
            "release" := Str(r.release), "arch" := Str(r.arch)])
  }

  function RepositoryJson(r: RepositoryRecord): Json {
    Obj(map["alias" := Str(r.alias), "name" := Str(r.name), "url" := Str(r.url), "type" := Str(r.kind),
            "enabled" := Bool(r.enabled), "gpgcheck" := Bool(r.gpgcheck),
            "autorefresh" := Bool(r.autorefresh), "priority" := Num(r.priority)])
  }

  function ServiceJson(r: ServiceRecord): Json {
    Obj(map["name" := Str(r.name), "state" := Str(r.state)])
  }

  function FileJson(r: FileRecord): Json {
    Obj(map["name" := Str(r.name), "type" := Str(r.kind), "mode" := Str(r.mode),
            "user" := Str(r.user), "group" := Str(r.group), "sha256" := Str(r.sha256),
            "target" := Str(r.target), "content_ref" := Str(r.contentRef),
            "package_name" := Str(r.packageName)])
  }

  function BaselineJson(r: BaselineRecord): Json {
    Obj(map["name" := Str(r.name), "type" := Str(r.kind), "mode" := Str(r.mode),
            "user" := Str(r.user), "group" := Str(r.group), "sha256" := Str(r.sha256),
            "target" := Str(r.target), "package_name" := Str(r.packageName),
            "changes" := Arr(MapAll(r.changes, (c: string) => Str(c)))])
  }

  function UnmanagedJson(r: UnmanagedRecord): Json {
    Obj(map["name" := Str(r.name), "type" := Str(r.kind), "mode" := Str(r.mode),
            "user" := Str(r.user), "group" := Str(r.group), "sha256" := Str(r.sha256),
            "target" := Str(r.target)])
  }

  function MapAll<T>(es: seq<T>, record: T -> Json): seq<Json> {
    if es == [] then [] else [record(es[0])] + MapAll(es[1..], record)
  }

  function AttributesJson(a: map<string, string>): Json {
    Obj(map k | k in a :: Str(a[k]))
  }

  function ScopeJson<T>(s: Scope<T>, record: T -> Json): Json {
    Obj(map["_attributes" := AttributesJson(s.attributes),
            "_elements" := Arr(MapAll(s.elements, record))])
  }

  function ScopeMember<T>(key: string, s: Option<Scope<T>>, record: T -> Json): map<string, Json> {
    match s case None => map[] case Some(scope) => map[key := ScopeJson(scope, record)]
  }

  function ManifestJson(m: Manifest): (v: Json)
    ensures v.Obj?
  {
    Obj(map["meta" := MetaJson(m.meta)]
        + ScopeMember("packages", m.packages, PackageJson)
        + ScopeMember("repositories", m.repositories, RepositoryJson)
        + ScopeMember("services", m.services, ServiceJson)
        + ScopeMember("config_files", m.configFiles, FileJson)
        + ScopeMember("changed_managed_files", m.changedManagedFiles, BaselineJson)
        + ScopeMember("unmanaged_files", m.unmanagedFiles, UnmanagedJson))
  }

  // ---- From JSON ----------------------------------------------------------------
  // None stands for a parse error or for the exception jsoncpp throws when a
  // value cannot be converted.

  function AsString(v: Json): Option<string> {
    match v
    case Null => Some("")
    case Bool(b) => Some(if b then "true" else "false")
    case Num(n) => Some(Decimal(n))
    case Str(s) => Some(s)
    case _ => None
  }

  function AsBool(v: Json): Option<bool> {
    match v
    case Null => Some(false)
    case Bool(b) => Some(b)
    case Num(n) => Some(n != 0)
    case _ => None
  }

  function AsInt(v: Json): Option<Int32> {
    match v
    case Null => Some(0)
    case Bool(b) => Some(if b then 1 else 0)
    case Num(n) => if -0x8000_0000 <= n < 0x8000_0000 then Some(n) else None
    case _ => None
  }

  /** `v.get(key, default)`: objects and null only. */
  function Get(v: Json, key: string, default: Json): Option<Json> {
    match v
    case Null => Some(default)
    case Obj(ms) => Some(if key in ms then ms[key] else default)
    case _ => None
  }

  function Text(v: Json, key: string): Option<string> {
    match Get(v, key, Str("")) case None => None case Some(x) => AsString(x)
  }

  function Flag(v: Json, key: string, default: bool): Option<bool> {
    match Get(v, key, Bool(default)) case None => None case Some(x) => AsBool(x)
  }

  function ParsePackage(v: Json): Option<PackageRecord> {
    match (Text(v, "name"), Text(v, "version"), Text(v, "release"), Text(v, "arch"))
    case (Some(n), Some(e), Some(r), Some(a)) => Some(PackageRecord(n, e, r, a))
    case _ => None
  }

  function ParseRepository(v: Json): Option<RepositoryRecord> {
    match (Text(v, "alias"), Text(v, "name"), Text(v, "url"), Text(v, "type"))
    case (Some(a), Some(n), Some(u), Some(t)) =>
      (match (Flag(v, "enabled", true), Flag(v, "gpgcheck", true), Flag(v, "autorefresh", false),
              Get(v, "priority", Num(99)))
       case (Some(e), Some(g), Some(r), Some(p)) =>
         (match AsInt(p) case None => None case Some(i) => Some(RepositoryRecord(a, n, u, t, e, g, r, i)))
       case _ => None)
    case _ => None
  }

  function ParseService(v: Json): Option<ServiceRecord> {
    match (Text(v, "name"), Text(v, "state"))
    case (Some(n), Some(s)) => Some(ServiceRecord(n, s))
    case _ => None
  }

  /** The seven fields that every file-like record starts with. */
  function ParseFileFields(v: Json): Option<UnmanagedRecord> {
    match (Text(v, "name"), Text(v, "type"), Text(v, "mode"), Text(v, "user"))
    case (Some(n), Some(t), Some(m), Some(u)) =>
      (match (Text(v, "group"), Text(v, "sha256"), Text(v, "target"))
       case (Some(g), Some(h), Some(l)) => Some(UnmanagedRecord(n, t, m, u, g, h, l))
       case _ => None)
    case _ => None
  }

  function ParseFile(v: Json): Option<FileRecord> {
    match (ParseFileFields(v), Text(v, "content_ref"), Text(v, "package_name"))
    case (Some(f), Some(c), Some(p)) =>
      Some(FileRecord(f.name, f.kind, f.mode, f.user, f.group, f.sha256, f.target, c, p))
    case _ => None
  }

  function ParseBaseline(v: Json): Option<BaselineRecord> {
    match (ParseFileFields(v), Text(v, "package_name"), Get(v, "changes", Null))
    case (Some(f), Some(p), Some(ch)) =>
      (match (if ch.Arr? then ParseAll(ch.items, AsString) else Some([]))
       case None => None
       case Some(cs) => Some(BaselineRecord(f.name, f.kind, f.mode, f.user, f.group, f.sha256, f.target, p, cs)))
    case _ => None
  }

  function ParseAll<T>(items: seq<Json>, parse: Json -> Option<T>): Option<seq<T>> {
    if items == [] then Some([])
    else match (parse(items[0]), ParseAll(items[1..], parse))
      case (Some(x), Some(xs)) => Some([x] + xs)
      case _ => None
  }

  function ParseAttributes(v: Json): Option<map<string, string>> {
    if !v.Obj? then Some(map[])
    else if forall k <- v.members :: AsString(v.members[k]).Some?
      then Some(map k | k in v.members :: AsString(v.members[k]).value)
    else None
  }

  function ParseScope<T>(v: Json, parse: Json -> Option<T>): Option<Scope<T>> {
    if !v.Obj? then Some(Scope(map[], []))
    else
      match (if "_attributes" in v.members then ParseAttributes(v.members["_attributes"]) else Some(map[]),
             if "_elements" in v.members && v.members["_elements"].Arr?
             then ParseAll(v.members["_elements"].items, parse) else Some([]))
      case (Some(a), Some(es)) => Some(Scope(a, es))
      case _ => None
  }

  /** An absent member leaves the scope absent. */
  function ParseMember<T>(v: Json, key: string, parse: Json -> Option<T>): Option<Option<Scope<T>>>
    requires v.Obj?
  {
    if key !in v.members then Some(None)
    else match ParseScope(v.members[key], parse) case None => None case Some(s) => Some(Some(s))
  }

  function ParseMeta(v: Json): Option<Meta> {
    if !v.Obj? then None
    else
      var ms := v.members;
      match (if "format_version" !in ms then Some(1)
             else if ms["format_version"].Num? then AsInt(ms["format_version"]) else None,
             Text(v, "generator"), Text(v, "created_at"), Text(v, "desired_sha256"))
      case (Some(f), Some(g), Some(c), Some(d)) => Some(Meta(f, g, c, d))
      case _ => None
  }

  function ParseManifest(v: Json): Option<Manifest> {
    if !v.Obj? then None
    else
      match (if "meta" in v.members then ParseMeta(v.members["meta"]) else Some(DEFAULT_META),
             ParseMember(v, "packages", ParsePackage), ParseMember(v, "repositories", ParseRepository),
             ParseMember(v, "services", ParseService))
      case (Some(meta), Some(p), Some(r), Some(s)) =>
        (match (ParseMember(v, "config_files", ParseFile),
                ParseMember(v, "changed_managed_files", ParseBaseline),
                ParseMember(v, "unmanaged_files", ParseFileFields))
         case (Some(f), Some(c), Some(u)) => Some(Manifest(meta, p, r, s, f, c, u))
         case _ => None)
      case _ => None
  }

  // ---- Round trip -----------------------------------------------------------------

  lemma RecordsRoundTrip()
    ensures forall r :: ParsePackage(PackageJson(r)) == Some(r)
    ensures forall r :: ParseService(ServiceJson(r)) == Some(r)
    ensures forall r :: ParseFileFields(UnmanagedJson(r)) == Some(r)
  {
  }

  lemma RepositoriesRoundTrip()
    ensures forall r :: ParseRepository(RepositoryJson(r)) == Some(r)
  {
  }

  lemma FilesRoundTrip()
    ensures forall r :: ParseFile(FileJson(r)) == Some(r)
  {
  }

  lemma {:induction false} ElementsRoundTrip<T(!new)>(es: seq<T>, record: T -> Json, parse: Json -> Option<T>)
    requires forall e :: parse(record(e)) == Some(e)
    ensures ParseAll(MapAll(es, record), parse) == Some(es)
  {
    if es != [] {
      ElementsRoundTrip(es[1..], record, parse);
      assert es == [es[0]] + es[1..];
    }
  }

  lemma BaselineFields(r: BaselineRecord)
    ensures var v := BaselineJson(r);
            && ParseFileFields(v)
               == Some(UnmanagedRecord(r.name, r.kind, r.mode, r.user, r.group, r.sha256, r.target))
            && Text(v, "package_name") == Some(r.packageName)
            && Get(v, "changes", Null) == Some(Arr(MapAll(r.changes, (c: string) => Str(c))))
  {
    hide MapAll;
  }

  lemma BaselinesRoundTrip()
    ensures forall r :: ParseBaseline(BaselineJson(r)) == Some(r)
  {
    hide ParseFileFields, Text, Get, BaselineJson;
    forall r ensures ParseBaseline(BaselineJson(r)) == Some(r) {
      BaselineFields(r);
      ElementsRoundTrip(r.changes, (c: string) => Str(c), AsString);
    }
  }

  lemma AttributesRoundTrip(a: map<string, string>)
    ensures ParseAttributes(AttributesJson(a)) == Some(a)
  {
    var ms := AttributesJson(a).members;
    assert forall k <- ms :: AsString(ms[k]) == Some(a[k]);
    assert (map k | k in ms :: AsString(ms[k]).value) == a;
  }

  lemma ScopeRoundTrip<T(!new)>(s: Scope<T>, record: T -> Json, parse: Json -> Option<T>)
    requires forall e :: parse(record(e)) == Some(e)
    ensures ParseScope(ScopeJson(s, record), parse) == Some(s)
  {
    hide ParseAll, ParseAttributes, AttributesJson;
    ElementsRoundTrip(s.elements, record, parse);
    AttributesRoundTrip(s.attributes);
  }

  lemma MemberRoundTrip<T(!new)>(v: Json, key: string, s: Option<Scope<T>>, record: T -> Json, parse: Json -> Option<T>)
    requires v.Obj? && (key in v.members <==> s.Some?)
    requires s.Some? ==> v.members[key] == ScopeJson(s.value, record)
    requires forall e :: parse(record(e)) == Some(e)
    ensures ParseMember(v, key, parse) == Some(s)
  {
    hide ParseScope, ScopeJson;
    if s.Some? {
      ScopeRoundTrip(s.value, record, parse);
    }
  }

  lemma MetaRoundTrip(m: Meta)
    ensures ParseMeta(MetaJson(m)) == Some(m)
  {
  }

  lemma UnionLookupFirst(meta: Json, ks: seq<string>, p: map<string, Json>, r: map<string, Json>, s: map<string, Json>)
    requires |ks| == 7 && forall i, j :: 0 <= i < j < 7 ==> ks[i] != ks[j]
    requires p.Keys <= {ks[1]} && r.Keys <= {ks[2]} && s.Keys <= {ks[3]}
    ensures var ms := map[ks[0] := meta] + p + r + s;
            && ms.Keys <= {ks[0], ks[1], ks[2], ks[3]}
            && ks[0] in ms && ms[ks[0]] == meta && Same(ms, p, ks[1]) && Same(ms, r, ks[2]) && Same(ms, s, ks[3])
  {
  }

  lemma UnionLookupRest(x: map<string, Json>, ks: seq<string>, f: map<string, Json>, c: map<string, Json>,
                        u: map<string, Json>)
    requires |ks| == 7 && forall i, j :: 0 <= i < j < 7 ==> ks[i] != ks[j]
    requires x.Keys <= {ks[0], ks[1], ks[2], ks[3]} && f.Keys <= {ks[4]} && c.Keys <= {ks[5]} && u.Keys <= {ks[6]}
    ensures var ms := x + f + c + u;
            && (forall i :: 0 <= i < 4 ==> Same(ms, x, ks[i]))
            && Same(ms, f, ks[4]) && Same(ms, c, ks[5]) && Same(ms, u, ks[6])
  {
  }

  lemma UnionLookup(meta: Json, ks: seq<string>, p: map<string, Json>, r: map<string, Json>, s: map<string, Json>,
                    f: map<string, Json>, c: map<string, Json>, u: map<string, Json>)
    requires |ks| == 7 && forall i, j :: 0 <= i < j < 7 ==> ks[i] != ks[j]
    requires p.Keys <= {ks[1]} && r.Keys <= {ks[2]} && s.Keys <= {ks[3]}
    requires f.Keys <= {ks[4]} && c.Keys <= {ks[5]} && u.Keys <= {ks[6]}
    ensures var ms := map[ks[0] := meta] + p + r + s + f + c + u;
            && ks[0] in ms && ms[ks[0]] == meta
            && Same(ms, p, ks[1]) && Same(ms, r, ks[2]) && Same(ms, s, ks[3])
            && Same(ms, f, ks[4]) && Same(ms, c, ks[5]) && Same(ms, u, ks[6])
  {
    var x := map[ks[0] := meta] + p + r + s;
    UnionLookupFirst(meta, ks, p, r, s);
    UnionLookupRest(x, ks, f, c, u);
    var ms := x + f + c + u;
    assert Same(ms, x, ks[0]) && Same(ms, x, ks[1]) && Same(ms, x, ks[2]) && Same(ms, x, ks[3]);
  }

  /** The two maps agree at `key`. */
  predicate Same(m: map<string, Json>, n: map<string, Json>, key: string) {
    (key in m <==> key in n) && (key in n ==> m[key] == n[key])
  }

  const SCOPE_KEYS: seq<string> :=
    ["meta", "packages", "repositories", "services", "config_files", "changed_managed_files", "unmanaged_files"]

  lemma ScopeKeysDiffer()
    ensures |SCOPE_KEYS| == 7 && forall i, j :: 0 <= i < j < 7 ==> SCOPE_KEYS[i] != SCOPE_KEYS[j]
  {
    var initials := seq(7, i requires 0 <= i < 7 => (|SCOPE_KEYS[i]|, SCOPE_KEYS[i][0]));
    assert initials == [(4, 'm'), (8, 'p'), (12, 'r'), (8, 's'), (12, 'c'), (21, 'c'), (15, 'u')];
  }

  lemma ManifestMembers(m: Manifest)
    ensures var ms := ManifestJson(m).members;
            && "meta" in ms && ms["meta"] == MetaJson(m.meta)
            && Same(ms, ScopeMember("packages", m.packages, PackageJson), "packages")
            && Same(ms, ScopeMember("repositories", m.repositories, RepositoryJson), "repositories")
            && Same(ms, ScopeMember("services", m.services, ServiceJson), "services")
            && Same(ms, ScopeMember("config_files", m.configFiles, FileJson), "config_files")
            && Same(ms, ScopeMember("changed_managed_files", m.changedManagedFiles, BaselineJson),
                    "changed_managed_files")
            && Same(ms, ScopeMember("unmanaged_files", m.unmanagedFiles, UnmanagedJson), "unmanaged_files")
  {
    hide MetaJson, ScopeJson, Same;
    ScopeKeysDiffer();
    UnionLookup(MetaJson(m.meta), SCOPE_KEYS,
                ScopeMember("packages", m.packages, PackageJson),
                ScopeMember("repositories", m.repositories, RepositoryJson),
                ScopeMember("services", m.services, ServiceJson),
                ScopeMember("config_files", m.configFiles, FileJson),
                ScopeMember("changed_managed_files", m.changedManagedFiles, BaselineJson),
                ScopeMember("unmanaged_files", m.unmanagedFiles, UnmanagedJson));
  }

  /** Every manifest survives the trip through its JSON tree, including the
      difference between an absent scope and a present but empty one. */
  lemma ManifestRoundTrip(m: Manifest)
    ensures ParseManifest(ManifestJson(m)) == Some(m)
  {
    hide ParseMember, ParseMeta, MetaJson, ScopeJson, ManifestJson;
    var v := ManifestJson(m);
    ManifestMembers(m);
    MetaRoundTrip(m.meta);
    assert ParseMember(v, "packages", ParsePackage) == Some(m.packages) by {
      RecordsRoundTrip();
      MemberRoundTrip(v, "packages", m.packages, PackageJson, ParsePackage);
    }
    assert ParseMember(v, "repositories", ParseRepository) == Some(m.repositories) by {
      RepositoriesRoundTrip();
      MemberRoundTrip(v, "repositories", m.repositories, RepositoryJson, ParseRepository);
    }
    assert ParseMember(v, "services", ParseService) == Some(m.services) by {
      RecordsRoundTrip();
      MemberRoundTrip(v, "services", m.services, ServiceJson, ParseService);
    }
    assert ParseMember(v, "config_files", ParseFile) == Some(m.configFiles) by {
      FilesRoundTrip();
      MemberRoundTrip(v, "config_files", m.configFiles, FileJson, ParseFile);
    }
    assert ParseMember(v, "changed_managed_files", ParseBaseline) == Some(m.changedManagedFiles) by {
      BaselinesRoundTrip();
      MemberRoundTrip(v, "changed_managed_files", m.changedManagedFiles, BaselineJson, ParseBaseline);
    }
    assert ParseMember(v, "unmanaged_files", ParseFileFields) == Some(m.unmanagedFiles) by {
      RecordsRoundTrip();
      MemberRoundTrip(v, "unmanaged_files", m.unmanagedFiles, UnmanagedJson, ParseFileFields);
    }
  }

  // ---- The applied record on disk ----------------------------------------------------

  /** What `json_pretty` writes: the indented document and a newline. */
  ghost function PrettyText(m: Manifest): string {
    Put(ManifestJson(m), Pretty(0), "") + "\n"
  }

  method JsonPretty(m: Manifest) returns (text: string)
    ensures text == PrettyText(m)
  {
    var w := new JsonWriter.Writer();
    w.PrintJson(ManifestJson(m), 0);
    text := w.out + "\n";
  }

  function LoadText(text: string): Option<Manifest> {
    match ReadDocument(text) case None => None case Some(v) => ParseManifest(v)
  }

  /** A record written to disk is the record the next run loads. */
  lemma RecordReloads(m: Manifest)
    ensures LoadText(PrettyText(m)) == Some(m)
  {
    hide Put, ReadDocument, ParseManifest, ManifestJson;
    var v := ManifestJson(m);
    PutAppends(v, Pretty(0), "", "\n");
    assert "" + "\n" == "\n";
    ReadPutDocument(v, Pretty(0), "\n");
    ManifestRoundTrip(m);
  }
}
