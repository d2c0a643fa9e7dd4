/** `InstallCommand::execute` of `src/install/install.cpp`: ensure `./node_modules`, then for each
    argument parse a spec, resolve it with the command's one `DependencyResolver` (whose cache
    lives across arguments), and download every resolved package, reporting per argument. A
    failing argument never stops the ones after it. */
module InstallCommand {
  import opened Wrappers
  import opened Strings
  import opened Fs
  import opened PackageSpec
  import opened CppResolver
  import opened FileUtils

  const DestinationBase := "./node_modules"

  /** The version part after `@`, with an empty one meaning latest. */
  function VersionPart(v: string): (r: string)
    ensures r != ""
    ensures v != "" ==> r == v
  {
    if v == "" then "latest" else v
  }

  /** The argument parsing as written: `find('@')`, split only when that first `@` is past index 0. */
  function ParseArgAsWritten(arg: string): (s: PackageSpec)
    ensures s.versionRequirement != ""
    ensures s.name == arg || (s.name != "" && '@' !in s.name && StartsWith(arg, s.name + "@"))
    ensures s.name == arg <==> arg == "" || arg[0] == '@' || '@' !in arg
  {
    match FindChar(arg, '@', 0)
    case Some(at) =>
      if at > 0 then PackageSpec(arg[..at], VersionPart(arg[at + 1..]))
      else PackageSpec(arg, "latest")
    case None => PackageSpec(arg, "latest")
  }

  /** The evidently intended parsing: the first `@` after index 0 splits, so that a scoped name
      keeps its leading `@` and still has its version split off. */
  function ParseArg(arg: string): (s: PackageSpec)
    ensures s.versionRequirement != ""
    ensures s.name == arg || (s.name != "" && '@' !in s.name[1..] && StartsWith(arg, s.name + "@"))
  {
    match FindChar(arg, '@', 1)
    case Some(at) => PackageSpec(arg[..at], VersionPart(arg[at + 1..]))
    case None => PackageSpec(arg, "latest")
  }

  /** Parsing inverts `to_string` for every non-empty name whose only `@` may be its first
      character, the two spellings of latest becoming "latest". */
  lemma {:induction false} ParseArgInvertsToString(s: PackageSpec)
    requires s.name != "" && '@' !in s.name[1..]
    ensures ParseArg(ToString(s)) ==
      PackageSpec(s.name, if MeansLatest(s.versionRequirement) then "latest" else s.versionRequirement)
  {
    var t := ToString(s);
    if MeansLatest(s.versionRequirement) {
      assert t == s.name;
      var f := FindChar(t, '@', 1);
      assert f.None?;
    } else {
      var n := |s.name|;
      var f := FindChar(t, '@', 1);
      assert t[n] == '@';
      assert forall j :: 1 <= j < n ==> t[j] == s.name[1..][j - 1];
      assert f == Some(n);
      assert t[..n] == s.name;
      assert t[n + 1..] == s.versionRequirement;
    }
  }

  /** Both parsers agree on every argument that does not start with `@`. */
  lemma ParsersAgreeUnscoped(arg: string)
    requires arg == "" || arg[0] != '@'
    ensures ParseArgAsWritten(arg) == ParseArg(arg)
  {
    if arg != "" {
      assert FindChar(arg, '@', 0) == FindChar(arg, '@', 1);
    }
  }

  /** A scoped package with a version: as written the whole argument becomes the name. */
  lemma ScopedVersionIgnored()
    ensures ParseArgAsWritten("@types/node@18.0.0") == PackageSpec("@types/node@18.0.0", "latest")
    ensures ParseArg("@types/node@18.0.0") == PackageSpec("@types/node", "18.0.0")
  {
    var arg := "@types/node@18.0.0";
    assert arg[0] == '@';
    assert FindChar(arg, '@', 0) == Some(0);
    assert arg[11] == '@';
    assert forall j :: 1 <= j < 11 ==> arg[j] != '@';
    assert FindChar(arg, '@', 1) == Some(11);
  }

  /** What one argument came to. */
  datatype Outcome =
    | ResolutionFailed(spec: PackageSpec, message: string)
    | UpToDate(spec: PackageSpec)
    | Installed(spec: PackageSpec, packages: seq<PackageInfo>)
    | InstallFailed(spec: PackageSpec, packages: seq<PackageInfo>)

  datatype Report = NoPackages | Aborted | Ran(outcomes: seq<Outcome>)

  /** `TarballHandler::download_and_extract(url, name, version, "./node_modules")`'s answer. */
  type Downloads = (string, string, string) -> bool

  predicate Downloaded(downloads: Downloads, p: PackageInfo) {
    downloads(p.tarballUrl, p.name, p.resolvedVersion)
  }

  /** The futures loop: every download is awaited and `all_ok` is false when any one failed. */
  method DownloadAll(downloads: Downloads, packages: seq<PackageInfo>) returns (allOk: bool)
    ensures allOk <==> forall i :: 0 <= i < |packages| ==> Downloaded(downloads, packages[i])
  {
    allOk := true;
    for i := 0 to |packages|
      invariant allOk <==> forall j :: 0 <= j < i ==> Downloaded(downloads, packages[j])
    {
      var ok := downloads(packages[i].tarballUrl, packages[i].name, packages[i].resolvedVersion);
      if !ok {
        allOk := false;
      }
    }
  }

  /** The report for one argument given its resolution and the download results. */
  function OutcomeOf(downloads: Downloads, spec: PackageSpec, r: ResolutionResult): (o: Outcome)
    ensures o.spec == spec
    ensures o.ResolutionFailed? <==> !r.success
    ensures o.UpToDate? <==> r.success && r.packagesToInstall == []
    ensures o.Installed? || o.InstallFailed? ==> o.packages == r.packagesToInstall
    ensures o.Installed? <==> (r.success && r.packagesToInstall != [] &&
      forall i :: 0 <= i < |r.packagesToInstall| ==> Downloaded(downloads, r.packagesToInstall[i]))
  {
    if !r.success then ResolutionFailed(spec, r.errorMessage)
    else if r.packagesToInstall == [] then UpToDate(spec)
    else if forall i :: 0 <= i < |r.packagesToInstall| ==> Downloaded(downloads, r.packagesToInstall[i]) then
      Installed(spec, r.packagesToInstall)
    else InstallFailed(spec, r.packagesToInstall)
  }

  /** The per-argument facts that follow from what `resolve` promises. */
  predicate Reported(downloads: Downloads, arg: string, o: Outcome) {
    && o.spec == ParseArgAsWritten(arg)
    && (o.ResolutionFailed? ==> StartsWith(o.message, RetrieveError))
    && !o.UpToDate?
    && (o.Installed? || o.InstallFailed? ==>
          && o.packages != []
          && (forall i :: 0 <= i < |o.packages| ==> Complete(o.packages[i]))
          && (o.Installed? <==> forall i :: 0 <= i < |o.packages| ==> Downloaded(downloads, o.packages[i])))
  }

  class InstallCommand {
    /** `resolver_`. */
    const resolver: DependencyResolver
    /** `tarball_handler_`, as the outcome of each download. */
    const downloads: Downloads

    constructor(responses: Responses, downloads: Downloads)
      requires CanonicalResponses(responses)
      ensures this.downloads == downloads && fresh(resolver)
      ensures resolver.responses == responses && resolver.cache == map[]
      ensures Valid()
    {
      resolver := new DependencyResolver(responses);
      this.downloads := downloads;
    }

    ghost predicate Valid()
      reads this, resolver
    {
      resolver.CacheValid(resolver.cache) && CanonicalResponses(resolver.responses)
    }

    /** `execute`: the report and the disk. Downloads are a parameter here and their
        extraction is outside this model, so in this model the only change to the disk is the
        creation of `./node_modules` when it is missing. */
    method Execute(disk: Disk, args: seq<string>) returns (report: Report)
      requires Valid()
      modifies disk, resolver
      ensures Valid()
      ensures var t := old(disk.State());
        disk.State() == (if args == [] || Occupied(t, DestinationBase) then t
                         else CreateRecursively(t, disk.denied, DestinationBase).1)
      ensures report.NoPackages? <==> args == []
      ensures report.Aborted? <==> args != [] && !Occupied(old(disk.State()), DestinationBase)
                                   && !CreateRecursively(old(disk.State()), disk.denied, DestinationBase).0
      ensures report.Ran? ==> |report.outcomes| == |args|
      ensures report.Ran? ==> forall i :: 0 <= i < |args| ==> Reported(downloads, args[i], report.outcomes[i])
    {
      if args == [] {
        return NoPackages;
      }
      if !disk.Exists(DestinationBase) {
        var created := CreateDirectoryRecursively(disk, DestinationBase);
        if !created {
          return Aborted;
        }
      }
      var outcomes := InstallEach(args);
      return Ran(outcomes);
    }

    /** One `resolve` call, with the facts about its result that the report needs. */
    method ResolveArg(spec: PackageSpec) returns (result: ResolutionResult)
      requires Valid()
      modifies resolver
      ensures Valid()
      ensures result.requested == spec
      ensures result.success ==> result.errorMessage == "" && result.packagesToInstall != []
      ensures result.success ==> forall i :: 0 <= i < |result.packagesToInstall| ==> Complete(result.packagesToInstall[i])
      ensures !result.success ==> StartsWith(result.errorMessage, RetrieveError)
    {
      ghost var installed;
      result, installed := resolver.Resolve(spec);
    }

    /** The loop over the arguments: each is parsed, resolved and, when resolved, downloaded. */
    method InstallEach(args: seq<string>) returns (outcomes: seq<Outcome>)
      requires Valid()
      modifies resolver
      ensures Valid()
      ensures |outcomes| == |args|
      ensures forall i :: 0 <= i < |args| ==> Reported(downloads, args[i], outcomes[i])
    {
      outcomes := [];
      for i := 0 to |args|
        invariant Valid()
        invariant |outcomes| == i
        invariant forall j :: 0 <= j < i ==> Reported(downloads, args[j], outcomes[j])
      {
        var outcome := InstallArg(args[i]);
        outcomes := outcomes + [outcome];
      }
    }

    /** One argument: parsed, resolved and, when resolved, downloaded. */
    method InstallArg(arg: string) returns (outcome: Outcome)
      requires Valid()
      modifies resolver
      ensures Valid()
      ensures Reported(downloads, arg, outcome)
    {
      var spec := ParseArgAsWritten(arg);
      var result := ResolveArg(spec);
      if !result.success {
        outcome := ResolutionFailed(spec, result.errorMessage);
      } else if result.packagesToInstall == [] {
        outcome := UpToDate(spec);
      } else {
        var allOk := DownloadAll(downloads, result.packagesToInstall);
        outcome := if allOk then Installed(spec, result.packagesToInstall)
                   else InstallFailed(spec, result.packagesToInstall);
      }
      assert outcome == OutcomeOf(downloads, spec, result);
    }
  }
}
