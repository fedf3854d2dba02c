/** Reading manifests that somebody else wrote: members that are left out, that
    nobody asked for, or that are not of the expected type. */
module ManifestMembers {
  import opened Strings
  import opened Manifests
  import opened Json
  import opened ManifestIO

  type Members = map<string, Json>

  /** The text under a name, and nothing if there is none. */
  function TextOf(ms: Members, key: string): string {
    if key in ms && ms[key].Str? then ms[key].s else ""
  }

  function FlagOf(ms: Members, key: string, default: bool): bool {
    if key in ms && ms[key].Bool? then ms[key].b else default
  }

  predicate Texts(ms: Members, keys: set<string>) {
    forall k <- keys :: k in ms ==> ms[k].Str?
  }

  predicate Flags(ms: Members, keys: set<string>) {
    forall k <- keys :: k in ms ==> ms[k].Bool?
  }

  // ---- Records from whatever members there are ----------------------------------------

  /** Members that are left out are empty; members that are not known are passed
      over. */
  lemma PackageFrom(ms: Members)
    requires Texts(ms, {"name", "version", "release", "arch"})
    ensures ParsePackage(Obj(ms))
         == Some(PackageRecord(TextOf(ms, "name"), TextOf(ms, "version"), TextOf(ms, "release"), TextOf(ms, "arch")))
  {
    TextFrom(ms, {"name", "version", "release", "arch"});
    hide Text, TextOf, Texts;
  }

  lemma TextFrom(ms: Members, keys: set<string>)
    requires Texts(ms, keys)
    ensures forall k <- keys :: Text(Obj(ms), k) == Some(TextOf(ms, k))
  {
  }

  /** A repository is enabled and checked unless it says otherwise, is not
      refreshed unless it says so, and has priority 99. */
  lemma RepositoryFrom(ms: Members)
    requires Texts(ms, {"alias", "name", "url", "type"}) && Flags(ms, {"enabled", "gpgcheck", "autorefresh"})
    requires "priority" in ms ==> ms["priority"].Num? && -0x8000_0000 <= ms["priority"].n < 0x8000_0000
    ensures ParseRepository(Obj(ms))
         == Some(RepositoryRecord(
                   TextOf(ms, "alias"), TextOf(ms, "name"), TextOf(ms, "url"), TextOf(ms, "type"),
                   FlagOf(ms, "enabled", true), FlagOf(ms, "gpgcheck", true), FlagOf(ms, "autorefresh", false),
                   if "priority" in ms then ms["priority"].n else 99))
  {
    assert forall k <- {"enabled", "gpgcheck", "autorefresh"}, d :: Flag(Obj(ms), k, d) == Some(FlagOf(ms, k, d));
    TextFrom(ms, {"alias", "name", "url", "type"});
    hide Text, TextOf, Texts, Flag, FlagOf, Flags;
  }

  lemma ServiceFrom(ms: Members)
    requires Texts(ms, {"name", "state"})
    ensures ParseService(Obj(ms)) == Some(ServiceRecord(TextOf(ms, "name"), TextOf(ms, "state")))
  {
    TextFrom(ms, {"name", "state"});
    hide Text, TextOf, Texts;
  }

  const FILE_KEYS: set<string> := {"name", "type", "mode", "user", "group", "sha256", "target"}

  lemma UnmanagedFrom(ms: Members)
    requires Texts(ms, FILE_KEYS)
    ensures ParseFileFields(Obj(ms))
         == Some(UnmanagedRecord(TextOf(ms, "name"), TextOf(ms, "type"), TextOf(ms, "mode"), TextOf(ms, "user"),
                                 TextOf(ms, "group"), TextOf(ms, "sha256"), TextOf(ms, "target")))
  {
    TextFrom(ms, FILE_KEYS);
    hide Text, TextOf, Texts;
  }

  lemma FileFrom(ms: Members)
    requires Texts(ms, FILE_KEYS) && Texts(ms, {"content_ref", "package_name"})
    ensures ParseFile(Obj(ms))
         == Some(FileRecord(TextOf(ms, "name"), TextOf(ms, "type"), TextOf(ms, "mode"), TextOf(ms, "user"),
                            TextOf(ms, "group"), TextOf(ms, "sha256"), TextOf(ms, "target"),
                            TextOf(ms, "content_ref"), TextOf(ms, "package_name")))
  {
    UnmanagedFrom(ms);
    TextFrom(ms, {"content_ref", "package_name"});
    hide Text, TextOf, Texts, ParseFileFields;
  }

  /** Changes are a list of texts; anything but a list is no change. */
  lemma BaselineFrom(ms: Members, changes: seq<string>)
    requires Texts(ms, FILE_KEYS) && Texts(ms, {"package_name"})
    requires if "changes" in ms && ms["changes"].Arr? then ms["changes"].items == MapAll(changes, (c: string) => Str(c))
             else changes == []
    ensures ParseBaseline(Obj(ms))
         == Some(BaselineRecord(TextOf(ms, "name"), TextOf(ms, "type"), TextOf(ms, "mode"), TextOf(ms, "user"),
                                TextOf(ms, "group"), TextOf(ms, "sha256"), TextOf(ms, "target"),
                                TextOf(ms, "package_name"), changes))
  {
    UnmanagedFrom(ms);
    TextFrom(ms, {"package_name"});
    ElementsRoundTrip(changes, (c: string) => Str(c), AsString);
    hide Text, TextOf, Texts, ParseFileFields, ParseAll, MapAll;
  }

  /** Without a version, it is version 1. */
  lemma MetaFrom(ms: Members)
    requires Texts(ms, {"generator", "created_at", "desired_sha256"})
    requires "format_version" in ms ==>
      ms["format_version"].Num? && -0x8000_0000 <= ms["format_version"].n < 0x8000_0000
    ensures ParseMeta(Obj(ms))
         == Some(Meta(if "format_version" in ms then ms["format_version"].n else 1,
                      TextOf(ms, "generator"), TextOf(ms, "created_at"), TextOf(ms, "desired_sha256")))
  {
    TextFrom(ms, {"generator", "created_at", "desired_sha256"});
    hide Text, TextOf, Texts;
  }

  // ---- What is written -------------------------------------------------------------------

  /** The members that each record is written with. */
  lemma MembersWritten(p: PackageRecord, r: RepositoryRecord, s: ServiceRecord, m: Meta)
    ensures PackageJson(p).members.Keys == {"name", "version", "release", "arch"}
    ensures RepositoryJson(r).members.Keys
         == {"alias", "name", "url", "type", "enabled", "gpgcheck", "autorefresh", "priority"}
    ensures ServiceJson(s).members.Keys == {"name", "state"}
    ensures MetaJson(m).members.Keys == {"format_version", "generator", "created_at", "desired_sha256"}
  {
  }

  lemma FileMembersWritten(f: FileRecord, b: BaselineRecord, u: UnmanagedRecord)
    ensures FileJson(f).members.Keys == FILE_KEYS + {"content_ref", "package_name"}
    ensures BaselineJson(b).members.Keys == FILE_KEYS + {"package_name", "changes"}
    ensures UnmanagedJson(u).members.Keys == FILE_KEYS
  {
    FileKeysWritten(f);
    BaselineKeysWritten(b);
    hide FileJson, BaselineJson;
  }

  lemma FileKeysWritten(f: FileRecord)
    ensures FileJson(f).members.Keys == FILE_KEYS + {"content_ref", "package_name"}
  {
  }

  lemma BaselineKeysWritten(b: BaselineRecord)
    ensures BaselineJson(b).members.Keys == FILE_KEYS + {"package_name", "changes"}
  {
  }

  /** A manifest is written with `meta` and the scopes it has, and each of those
      with its attributes and, in order, its elements. */
  lemma ScopesWritten(m: Manifest, key: string)
    ensures key in ManifestJson(m).members
       <==> || key == "meta" || (key == "packages" && m.packages.Some?)
            || (key == "repositories" && m.repositories.Some?) || (key == "services" && m.services.Some?)
            || (key == "config_files" && m.configFiles.Some?)
            || (key == "changed_managed_files" && m.changedManagedFiles.Some?)
            || (key == "unmanaged_files" && m.unmanagedFiles.Some?)
  {
    hide ScopeMember, MetaJson;
    KeyWritten(key, "packages", m.packages, PackageJson);
    KeyWritten(key, "repositories", m.repositories, RepositoryJson);
    KeyWritten(key, "services", m.services, ServiceJson);
    KeyWritten(key, "config_files", m.configFiles, FileJson);
    KeyWritten(key, "changed_managed_files", m.changedManagedFiles, BaselineJson);
    KeyWritten(key, "unmanaged_files", m.unmanagedFiles, UnmanagedJson);
  }

  lemma KeyWritten<T>(key: string, scope: string, s: Option<Scope<T>>, record: T -> Json)
    ensures key in ScopeMember(scope, s, record) <==> key == scope && s.Some?
  {
    hide ScopeJson;
  }

  lemma ScopeWritten<T>(s: Scope<T>, record: T -> Json)
    ensures ScopeJson(s, record).members.Keys == {"_attributes", "_elements"}
    ensures var es := ScopeJson(s, record).members["_elements"];
            && es.Arr? && |es.items| == |s.elements|
            && forall i :: 0 <= i < |es.items| ==> es.items[i] == record(s.elements[i])
  {
    assert "_attributes"[1] == 'a' && "_elements"[1] == 'e';
    ElementsWritten(s.elements, record);
  }

  lemma {:induction false} ElementsWritten<T>(es: seq<T>, record: T -> Json)
    ensures |MapAll(es, record)| == |es|
    ensures forall i :: 0 <= i < |es| ==> MapAll(es, record)[i] == record(es[i])
  {
    if es != [] {
      ElementsWritten(es[1..], record);
    }
  }

  // ---- Scopes that are left out ------------------------------------------------------------

  /** A scope without attributes or elements has none. */
  lemma ScopeFrom<T(!new)>(s: Scope<T>, record: T -> Json, parse: Json -> Option<T>, without: set<string>)
    requires forall e :: parse(record(e)) == Some(e)
    ensures ParseScope(Obj(ScopeJson(s, record).members - without), parse)
         == Some(Scope(if "_attributes" in without then map[] else s.attributes,
                       if "_elements" in without then [] else s.elements))
  {
    hide ParseAll, ParseAttributes, AttributesJson;
    ElementsRoundTrip(s.elements, record, parse);
    AttributesRoundTrip(s.attributes);
    assert "_attributes"[1] == 'a' && "_elements"[1] == 'e';
  }

  /** What is no object reads as a scope without attributes and elements. */
  lemma ScopeFromOther<T>(v: Json, parse: Json -> Option<T>)
    requires !v.Obj?
    ensures ParseScope(v, parse) == Some(Scope(map[], []))
  {
  }

  function Unless<T>(left: bool, s: Option<Scope<T>>): Option<Scope<T>> {
    if left then None else s
  }

  lemma MemberLeftOut<T(!new)>(ms: Members, without: set<string>, key: string, s: Option<Scope<T>>,
                               record: T -> Json, parse: Json -> Option<T>)
    requires Same(ms, ScopeMember(key, s, record), key)
    requires forall e :: parse(record(e)) == Some(e)
    ensures ParseMember(Obj(ms - without), key, parse) == Some(Unless(key in without, s))
  {
    hide ParseScope, ScopeJson, ParseMember;
    MemberRoundTrip(Obj(ms - without), key, Unless(key in without, s), record, parse);
  }

  /** Leaving out any members of a manifest leaves out exactly those scopes, and
      without `meta` it has version 1 and says nothing else. */
  lemma ManifestFrom(m: Manifest, without: set<string>)
    ensures ParseManifest(Obj(ManifestJson(m).members - without))
         == Some(Manifest(if "meta" in without then Meta(1, "", "", "") else m.meta,
                          Unless("packages" in without, m.packages),
                          Unless("repositories" in without, m.repositories),
                          Unless("services" in without, m.services),
                          Unless("config_files" in without, m.configFiles),
                          Unless("changed_managed_files" in without, m.changedManagedFiles),
                          Unless("unmanaged_files" in without, m.unmanagedFiles)))
  {
    hide ParseMember, ParseMeta, MetaJson, ScopeJson, ManifestJson, Same, ScopeMember, Unless;
    var ms := ManifestJson(m).members;
    ManifestMembers(m);
    MetaRoundTrip(m.meta);
    RecordsRoundTrip();
    RepositoriesRoundTrip();
    FilesRoundTrip();
    BaselinesRoundTrip();
    MemberLeftOut(ms, without, "packages", m.packages, PackageJson, ParsePackage);
    MemberLeftOut(ms, without, "repositories", m.repositories, RepositoryJson, ParseRepository);
    MemberLeftOut(ms, without, "services", m.services, ServiceJson, ParseService);
    MemberLeftOut(ms, without, "config_files", m.configFiles, FileJson, ParseFile);
    MemberLeftOut(ms, without, "changed_managed_files", m.changedManagedFiles, BaselineJson, ParseBaseline);
    MemberLeftOut(ms, without, "unmanaged_files", m.unmanagedFiles, UnmanagedJson, ParseFileFields);
  }

  // ---- Members of another type ---------------------------------------------------------------

  /** Where a text is expected, null is empty, words and numbers are spelled out,
      and lists and objects are refused. */
  lemma TextConverts(v: Json)
    ensures ParseService(Obj(map["name" := v]))
         == match v
            case Null => Some(ServiceRecord("", ""))
            case Bool(true) => Some(ServiceRecord("true", ""))
            case Bool(false) => Some(ServiceRecord("false", ""))
            case Num(n) => Some(ServiceRecord(Decimal(n), ""))
            case Str(s) => Some(ServiceRecord(s, ""))
            case Arr(_) => None
            case Obj(_) => None
  {
    assert "name" != "state" by { assert |"name"| != |"state"|; }
  }

  /** Where a flag is expected, null and 0 are false, other numbers true, and texts
      are refused as well. */
  lemma FlagConverts(v: Json)
    ensures var r := ParseRepository(Obj(map["autorefresh" := v]));
            match v
            case Null => r == Some(RepositoryRecord("", "", "", "", true, true, false, 99))
            case Bool(b) => r == Some(RepositoryRecord("", "", "", "", true, true, b, 99))
            case Num(n) => r == Some(RepositoryRecord("", "", "", "", true, true, n != 0, 99))
            case _ => r == None
  {
    assert "autorefresh"[0] == 'a' && |"autorefresh"| == 11;
  }

  /** Where a number is expected, null is 0, words are 0 and 1, and what is beyond
      32 bits is refused. */
  lemma NumberConverts(v: Json)
    ensures var r := ParseRepository(Obj(map["priority" := v]));
            match v
            case Null => r == Some(RepositoryRecord("", "", "", "", true, true, false, 0))
            case Bool(b) => r == Some(RepositoryRecord("", "", "", "", true, true, false, if b then 1 else 0))
            case Num(n) =>
              r == if -0x8000_0000 <= n < 0x8000_0000
                   then Some(RepositoryRecord("", "", "", "", true, true, false, n)) else None
            case _ => r == None
  {
    assert "priority"[0] == 'p' && "gpgcheck"[0] == 'g' && |"priority"| == 8;
  }

  /** A version must be a number, and `meta` an object. */
  lemma MetaRefuses(v: Json, m: Manifest)
    ensures !v.Obj? ==> ParseManifest(Obj(map["meta" := v])) == None
    ensures !v.Num? ==> ParseManifest(Obj(map["meta" := Obj(map["format_version" := v])])) == None
    ensures !v.Obj? ==> ParseManifest(v) == None
  {
  }
}
