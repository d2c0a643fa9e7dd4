/** The stub dependency resolver of `src/resolver.rs`. */
module RustResolver {
  import opened Wrappers
  import opened Strings

  datatype ResolverError =
    | PackageNotFound(msg: string)
    | VersionResolutionFailed(msg: string)
    | NetworkError(msg: string)
    | RegistryError(msg: string)

  /** A semantic version (pre-release and build tags are not modelled). */
  datatype Version = Version(major: nat, minor: nat, patch: nat)

  datatype Dependency = Dependency(name: string, versionReq: string, resolvedVersion: Option<Version>)

  datatype PackageDist = PackageDist(tarball: string, shasum: string)

  datatype PackageMetadata = PackageMetadata(
    name: string, version: Version, dependencies: map<string, string>, dist: PackageDist)

  class DependencyResolver {
    var registryUrl: string
    var cache: map<string, seq<PackageMetadata>>

    constructor (registryUrl: string)
      ensures this.registryUrl == registryUrl && cache == map[]
    {
      this.registryUrl := registryUrl;
      cache := map[];
    }

    /** The placeholder: every request fails as not found, naming the package. */
    function Resolve(name: string, versionReq: string): (r: Result<PackageMetadata, ResolverError>)
      ensures r.Err? && r.error.PackageNotFound?
      ensures FindSub(r.error.msg, name, 0).Some?
    {
      var msg := "Package '" + name + "' not implemented yet";
      assert OccursAt(msg, name, 9) by { assert msg[9..9 + |name|] == name; }
      Err(PackageNotFound(msg))
    }

    /** `build_dependency_tree`: every entry resolved by `Resolve`; with the placeholder above,
        every non-empty map fails. */
    method BuildDependencyTree(deps: map<string, string>) returns (r: Result<map<string, PackageMetadata>, ResolverError>)
      ensures deps == map[] ==> r == Ok(map[])
      ensures r.Ok? ==> r.value.Keys == deps.Keys
      ensures r.Ok? ==> forall k :: k in r.value ==> Resolve(k, deps[k]) == Ok(r.value[k])
      ensures r.Err? ==> exists k :: k in deps && Resolve(k, deps[k]) == Err(r.error)
      ensures deps != map[] ==> r.Err? && r.error.PackageNotFound?
    {
      r := BuildTreeWith(deps, (n, v) => Resolve(n, v));
    }
  }

  /** The loop of `build_dependency_tree` for any per-entry resolution `resolve`: the entries are
      taken in the map's (unspecified) order and the first failure is the result of the call. */
  method BuildTreeWith(deps: map<string, string>, resolve: (string, string) -> Result<PackageMetadata, ResolverError>)
    returns (r: Result<map<string, PackageMetadata>, ResolverError>)
    ensures deps == map[] ==> r == Ok(map[])
    ensures r.Ok? ==> r.value.Keys == deps.Keys
    ensures r.Ok? ==> forall k :: k in r.value ==> resolve(k, deps[k]) == Ok(r.value[k])
    ensures r.Err? ==> exists k :: k in deps && resolve(k, deps[k]) == Err(r.error)
  {
    var result: map<string, PackageMetadata> := map[];
    var todo := deps.Keys;
    while todo != {}
      invariant todo <= deps.Keys
      invariant result.Keys == deps.Keys - todo
      invariant forall k :: k in result ==> resolve(k, deps[k]) == Ok(result[k])
      decreases |todo|
    {
      var name :| name in todo;
      match resolve(name, deps[name]) {
        case Ok(metadata) =>
          result := result[name := metadata];
        case Err(e) =>
          return Err(e);
      }
      todo := todo - {name};
    }
    r := Ok(result);
  }
}
