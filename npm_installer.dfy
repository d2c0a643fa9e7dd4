/** `install_package` of `src/npm_installer.rs`: fetch a package's registry metadata, resolve the
    version, locate its tarball, prepare `node_modules/<name>` and unpack the tarball there. */
module NpmInstaller {
  import opened Wrappers
  import opened Strings
  import opened Json
  import opened Fs
  import opened Tarball
  import opened Metadata

  /** An HTTP exchange: the request could not be sent, the status was not a success, or a body
      arrived. */
  datatype Response<T> = Unreachable | Unsuccessful | Success(body: T)

  /** A tarball body: its entries when it is a gzipped tar (nothing when its first entry cannot be
      read), and what parsing `<package directory>/package.json` gives once it is unpacked; it is
      consulted only when an entry put something at that path. */
  datatype TarballBody = TarballBody(entries: Option<seq<Entry>>, packageJson: Document)

  /** Registry answers by package name (metadata bodies that are not JSON are `None`), and tarball
      answers by URL; anything absent answers with a non-success status. */
  type Registry = map<string, Response<Option<Json>>>
  type Tarballs = map<string, Response<TarballBody>>

  /** Every JSON document in the answers is as the parser hands it over. */
  predicate CanonicalAnswers(reg: Registry, tarballs: Tarballs) {
    && (forall name :: name in reg && reg[name].Success? && reg[name].body.Some? ==> Canonical(reg[name].body.value))
    && (forall url :: url in tarballs && tarballs[url].Success? ==> CanonicalDoc(tarballs[url].body.packageJson))
  }

  function Answer<T>(m: map<string, Response<T>>, key: string): Response<T> {
    if key in m then m[key] else Unsuccessful
  }

  // ---------------------------------------------------------------- version resolution (44-54)

  /** "latest" and the literal "^1.0.0" both mean the `latest` dist-tag, which must exist; any
      other request loses its leading `^`s then `~`s. */
  function ResolveVersion(doc: Json, version: string): (r: Result<string, string>)
    ensures version == "latest" || version == "^1.0.0" ==>
      r == (if LatestTag(doc).Some? then Ok(LatestTag(doc).value) else Err("Could not find latest version"))
    ensures version != "latest" && version != "^1.0.0" ==> r.Ok? && TrimmedOf(version, r.value)
  {
    if version == "^1.0.0" || version == "latest" then
      match LatestTag(doc)
      case Some(v) => Ok(v)
      case None => Err("Could not find latest version")
    else Ok(StripRange(version))
  }

  /** Only the literal "^1.0.0" is special: "^1.0.1" is taken as the exact version "1.0.1". */
  lemma CaretOneIsLatest(doc: Json)
    ensures ResolveVersion(doc, "^1.0.0") == ResolveVersion(doc, "latest")
    ensures ResolveVersion(doc, "^1.0.1") == Ok("1.0.1")
  {
    assert TrimStart("1.0.1", '^') == "1.0.1";
    assert TrimStart("^1.0.1", '^') == "1.0.1";
    assert TrimStart("1.0.1", '~') == "1.0.1";
  }

  // ---------------------------------------------------------------- the plan (16-80)

  /** What the metadata decides before the filesystem is touched: the package is not in the
      registry (`Ok(false)`), an error, or a fetch of `url` into `pkgDir`. */
  datatype Plan = NotFound | Failure(msg: string) | Fetch(resolved: string, url: string, pkgDir: string)

  function PlanInstall(reg: Registry, name: string, version: string, nodeModules: string): (p: Plan)
    ensures Answer(reg, name).Unsuccessful? <==> p.NotFound?
    ensures p.Fetch? ==>
      && Answer(reg, name).Success? && Answer(reg, name).body.Some?
      && var doc := Answer(reg, name).body.value;
      && ResolveVersion(doc, version) == Ok(p.resolved)
      && TarballUrl(doc, p.resolved) == Some(p.url)
      && p.pkgDir == Join(nodeModules, name)
    ensures Answer(reg, name).Success? && Answer(reg, name).body.Some? ==>
      var doc := Answer(reg, name).body.value;
      (ResolveVersion(doc, version).Err? ==> p == Failure(ResolveVersion(doc, version).error))
      && (ResolveVersion(doc, version).Ok? && TarballUrl(doc, ResolveVersion(doc, version).value).None? ==>
            p == Failure("Could not find tarball URL for version " + ResolveVersion(doc, version).value))
  {
    match Answer(reg, name)
    case Unreachable => Failure("Failed to send request to npm registry")
    case Unsuccessful => NotFound
    case Success(body) =>
      if body.None? then Failure("Failed to parse package metadata")
      else
        var doc := body.value;
        match ResolveVersion(doc, version)
        case Err(msg) => Failure(msg)
        case Ok(resolved) =>
          match TarballUrl(doc, resolved)
          case None => Failure("Could not find tarball URL for version " + resolved)
          case Some(url) => Fetch(resolved, url, Join(nodeModules, name))
  }

  /** The directory is `node_modules` joined with the raw name: a scoped name nests. */
  lemma ScopedPackageDir(reg: Registry, scope: string, pkg: string, version: string)
    requires PlanInstall(reg, scope + "/" + pkg, version, "node_modules").Fetch?
    requires scope != [] && scope[0] == '@'
    ensures PlanInstall(reg, scope + "/" + pkg, version, "node_modules").pkgDir == "node_modules/" + scope + "/" + pkg
  {
    var base := "node_modules";
    assert base[|base| - 1] == 's';
    JoinUnder(base, scope, pkg);
    assert base + "/" == "node_modules/";
  }

  // ---------------------------------------------------------------- install_package (11-107)

  /** The state once whatever is at `pkgDir` is removed with `remove_dir_all` (the state itself
      when nothing is there); nothing when that fails because `pkgDir` is not a directory. */
  function Cleared(t: Tree, pkgDir: string): (r: Option<Tree>)
    ensures r.None? <==> Occupied(t, pkgDir) && pkgDir !in t.dirs
    ensures !Occupied(t, pkgDir) ==> r == Some(t)
    ensures r.Some? ==> !Occupied(r.value, pkgDir)
    ensures r.Some? && Occupied(t, pkgDir) ==>
      && (forall q :: q in r.value.dirs <==> q in t.dirs && !Within(q, pkgDir))
      && (forall q :: q in r.value.files <==> q in t.files && !Within(q, pkgDir))
      && (forall q :: q in r.value.links <==> q in t.links && !Within(q, pkgDir))
      && (forall q :: q in r.value.links ==> r.value.links[q] == t.links[q])
  {
    if !Occupied(t, pkgDir) then Some(t)
    else if pkgDir in t.dirs then
      Some(Tree(set q | q in t.dirs && !Within(q, pkgDir), set q | q in t.files && !Within(q, pkgDir),
                map q | q in t.links && !Within(q, pkgDir) :: t.links[q]))
    else None
  }

  /** The state after preparing the package directory: an existing one is removed, then it is
      created; nothing when either step fails. */
  function Prepare(t: Tree, denied: set<string>, pkgDir: string): (r: Option<Tree>)
    ensures r.Some? ==> pkgDir in r.value.dirs
    ensures r.Some? && !Occupied(t, pkgDir) ==> r.value == t.(dirs := t.dirs + Lineage(pkgDir))
    ensures r.Some? && Occupied(t, pkgDir) ==> forall q :: q in r.value.files ==> q in t.files && !Within(q, pkgDir)
    ensures Occupied(t, pkgDir) && pkgDir !in t.dirs ==> r.None?
    ensures r.Some? ==> forall q :: q in t.files && !Within(q, pkgDir) ==> q in r.value.files
    ensures r.Some? ==> forall q :: q in t.dirs && !Within(q, pkgDir) ==> q in r.value.dirs
    ensures r.Some? ==> forall q :: q in t.links && !Within(q, pkgDir) ==>
      q in r.value.links && r.value.links[q] == t.links[q]
  {
    match Cleared(t, pkgDir)
    case None => None
    case Some(c) =>
      Perform(c, denied, MakeDirs(pkgDir))
  }

  /** The context `extract_tarball` gives a failed step: creating an entry's parent directory,
      or unpacking the entry. */
  function ExtractMessage(f: Failure): (msg: string)
    ensures f == ParentNotCreated ==> msg == "Failed to create directory"
    ensures f == NotUnpacked ==> msg == "Failed to unpack entry"
  {
    match f
    case ParentNotCreated => "Failed to create directory"
    case NotUnpacked => "Failed to unpack entry"
  }

  method InstallPackage(disk: Disk, reg: Registry, tarballs: Tarballs, name: string, version: string, nodeModules: string)
    returns (r: Result<bool, string>)
    requires CanonicalAnswers(reg, tarballs)
    modifies disk
    ensures var p := PlanInstall(reg, name, version, nodeModules);
      && (p.NotFound? ==> r == Ok(false) && disk.State() == old(disk.State()))
      && (p.Failure? ==> r == Err(p.msg) && disk.State() == old(disk.State()))
      && (p.Fetch? ==>
            var cleared := Cleared(old(disk.State()), p.pkgDir);
            var prepared := Prepare(old(disk.State()), disk.denied, p.pkgDir);
            if cleared.None? then
              r == Err("Failed to remove existing directory for package " + name) && disk.State() == old(disk.State())
            else if prepared.None? then
              r == Err("Failed to create directory for package " + name) && disk.State() == cleared.value
            else match Answer(tarballs, p.url)
              case Unreachable => r == Err("Failed to download tarball") && disk.State() == prepared.value
              case Unsuccessful => r == Ok(false) && disk.State() == prepared.value
              case Success(body) =>
                if body.entries.None? then r == Err("Failed to read archive entry") && disk.State() == prepared.value
                else
                var es := body.entries.value;
                var run := Unpacked(prepared.value, disk.denied, p.pkgDir, es, HasPackagePrefix(es));
                var invalid := Occupied(run.1, Join(p.pkgDir, "package.json")) && body.packageJson.Unparsable?;
                && disk.State() == run.1
                && (run.0.Some? ==> r == Err(ExtractMessage(run.0.value)))
                && (run.0.None? && invalid ==> r == Err("Invalid package.json"))
                && (run.0.None? && !invalid ==> r == Ok(true)))
  {
    var p := PlanInstall(reg, name, version, nodeModules);
    match p {
      case NotFound => return Ok(false);
      case Failure(msg) => return Err(msg);
      case Fetch(resolved, url, pkgDir) =>
        var failed := PreparePackageDir(disk, pkgDir, name);
        if failed.Some? {
          return Err(failed.value);
        }
        r := FetchAndUnpack(disk, tarballs, url, pkgDir);
    }
  }

  /** Preparing the package directory: an existing one is removed, then it is created. */
  method PreparePackageDir(disk: Disk, pkgDir: string, name: string) returns (failed: Option<string>)
    modifies disk
    ensures var cleared := Cleared(old(disk.State()), pkgDir);
      if cleared.None? then
        failed == Some("Failed to remove existing directory for package " + name) && disk.State() == old(disk.State())
      else
        var made := Perform(cleared.value, disk.denied, MakeDirs(pkgDir));
        && (made.None? ==> failed == Some("Failed to create directory for package " + name) && disk.State() == cleared.value)
        && (made.Some? ==> failed.None? && disk.State() == made.value)
  {
    if disk.Exists(pkgDir) {
      var removed := disk.RemoveDirAll(pkgDir);
      if !removed {
        return Some("Failed to remove existing directory for package " + name);
      }
    }
    var created := disk.CreateDirAll(pkgDir);
    if !created {
      return Some("Failed to create directory for package " + name);
    }
    return None;
  }

  /** Downloading the tarball, unpacking it into the package directory and checking the
      unpacked `package.json`. */
  method FetchAndUnpack(disk: Disk, tarballs: Tarballs, url: string, pkgDir: string) returns (r: Result<bool, string>)
    modifies disk
    ensures match Answer(tarballs, url)
      case Unreachable => r == Err("Failed to download tarball") && disk.State() == old(disk.State())
      case Unsuccessful => r == Ok(false) && disk.State() == old(disk.State())
      case Success(body) =>
        if body.entries.None? then r == Err("Failed to read archive entry") && disk.State() == old(disk.State())
        else
          var es := body.entries.value;
          var run := Unpacked(old(disk.State()), disk.denied, pkgDir, es, HasPackagePrefix(es));
          var invalid := Occupied(run.1, Join(pkgDir, "package.json")) && body.packageJson.Unparsable?;
          && disk.State() == run.1
          && (run.0.Some? ==> r == Err(ExtractMessage(run.0.value)))
          && (run.0.None? && invalid ==> r == Err("Invalid package.json"))
          && (run.0.None? && !invalid ==> r == Ok(true))
  {
    match Answer(tarballs, url) {
      case Unreachable => return Err("Failed to download tarball");
      case Unsuccessful => return Ok(false);
      case Success(body) =>
        if body.entries.None? {
          return Err("Failed to read archive entry");
        }
        var failed := Extract(disk, body.entries.value, pkgDir);
        if failed.Some? {
          return Err(ExtractMessage(failed.value));
        }
        if disk.Exists(Join(pkgDir, "package.json")) && body.packageJson.Unparsable? {
          return Err("Invalid package.json");
        }
        return Ok(true);
    }
  }
}
