/** `PackageSpec` of `src/package/package_spec.h`: a package name with a version requirement. */
module PackageSpec {

  /** `versionRequirement` is a version, a range, "latest", or "" (which also means latest). */
  datatype PackageSpec = PackageSpec(name: string, versionRequirement: string)

  /** The default constructor. */
  function Default(): (s: PackageSpec)
    ensures s.name == "" && s.versionRequirement == "latest"
  {
    PackageSpec("", "latest")
  }

  /** The constructor called with a name only: the requirement defaults to "latest". */
  function Named(n: string): (s: PackageSpec)
    ensures s.name == n && s.versionRequirement == "latest"
  {
    PackageSpec(n, "latest")
  }

  predicate MeansLatest(req: string) {
    req == "" || req == "latest"
  }

  /** `to_string`: the bare name when the requirement means latest, else `name@requirement`. */
  function ToString(s: PackageSpec): (r: string)
    ensures MeansLatest(s.versionRequirement) ==> r == s.name
    ensures !MeansLatest(s.versionRequirement) ==> |r| == |s.name| + 1 + |s.versionRequirement|
    ensures !MeansLatest(s.versionRequirement) ==> r[..|s.name|] == s.name && r[|s.name|] == '@'
    ensures !MeansLatest(s.versionRequirement) ==> r[|s.name| + 1..] == s.versionRequirement
  {
    if MeansLatest(s.versionRequirement) then s.name
    else s.name + "@" + s.versionRequirement
  }

  /** Two specs that print the same, with `@`-free names, name the same package and the same
      requirement up to the two spellings of latest. */
  lemma ToStringInjective(a: PackageSpec, b: PackageSpec)
    requires '@' !in a.name && '@' !in b.name
    requires ToString(a) == ToString(b)
    ensures a.name == b.name
    ensures MeansLatest(a.versionRequirement) <==> MeansLatest(b.versionRequirement)
    ensures !MeansLatest(a.versionRequirement) ==> a.versionRequirement == b.versionRequirement
  {
    var r := ToString(a);
    if !MeansLatest(a.versionRequirement) && |a.name| < |r| {
      assert r[|a.name|] == '@';
    }
    if !MeansLatest(b.versionRequirement) && |b.name| < |r| {
      assert r[|b.name|] == '@';
    }
  }
}
