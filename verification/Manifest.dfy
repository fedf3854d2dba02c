/** The manifest: the declarable scopes of a system description, the two
    observational scopes of a full scan, and the records inside them. */
module Manifests {
  import opened Strings

  type Path = string

  /** The width of the integers that the manifest's schema uses. */
  type Int32 = n: int | -0x8000_0000 <= n < 0x8000_0000

  /** `_attributes` and `_elements`. An absent scope is unmanaged; a present
      scope without elements asks for exactly nothing. */
  datatype Scope<T> = Scope(attributes: map<string, string>, elements: seq<T>)

  datatype Meta = Meta(formatVersion: Int32, generator: string, createdAt: string, desiredSha256: string)

  datatype PackageRecord = PackageRecord(name: string, version: string, release: string, arch: string)

  datatype RepositoryRecord = RepositoryRecord(
    alias: string, name: string, url: string, kind: string,
    enabled: bool, gpgcheck: bool, autorefresh: bool, priority: Int32)

  datatype ServiceRecord = ServiceRecord(name: string, state: string)

  datatype FileRecord = FileRecord(
    name: Path, kind: string, mode: string, user: string, group: string,
    sha256: string, target: string, contentRef: string, packageName: string)

  datatype BaselineRecord = BaselineRecord(
    name: Path, kind: string, mode: string, user: string, group: string,
    sha256: string, target: string, packageName: string, changes: seq<string>)

  datatype UnmanagedRecord = UnmanagedRecord(
    name: Path, kind: string, mode: string, user: string, group: string,
    sha256: string, target: string)

  datatype Manifest = Manifest(
    meta: Meta,
    packages: Option<Scope<PackageRecord>>,
    repositories: Option<Scope<RepositoryRecord>>,
    services: Option<Scope<ServiceRecord>>,
    configFiles: Option<Scope<FileRecord>>,
    changedManagedFiles: Option<Scope<BaselineRecord>>,
    unmanagedFiles: Option<Scope<UnmanagedRecord>>)

  const DEFAULT_META := Meta(1, "", "", "")
  const EMPTY_MANIFEST := Manifest(DEFAULT_META, None, None, None, None, None, None)

  const SYNCPOINT: Path := "/etc/etc.syncpoint"

  /** Where the alternatives system keeps its links. */
  const ALTERNATIVES: Path := "/etc/alternatives/"

  /** The elements of a scope; an absent scope has none. */
  function Elements<T>(s: Option<Scope<T>>): seq<T> {
    match s case None => [] case Some(scope) => scope.elements
  }
}
