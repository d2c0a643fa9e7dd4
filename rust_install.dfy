/** The install pipeline of `src/main.rs` (`install_packages`, `download_and_install`), run
    sequentially: a spawned task runs to completion as one atomic step, so the "already
    installed?" check and the recording of the installed version cannot interleave with another
    task. The registry maps a package name to its metadata document (a name it lacks answers with
    a non-success status); `tarballs` maps a tarball URL to what downloading and unpacking it
    yields. */
module RustInstall {
  import opened Wrappers
  import opened Strings
  import opened Ordering
  import opened Json
  import opened Fs
  import opened Tarball
  import opened Metadata

  type Registry = map<string, Json>

  /** What fetching a tarball URL gives: nothing usable (a transport error, or a body that is not
      a gzipped tar archive), or an archive: the paths of its entries as component lists, and the
      `package.json` found in the install directory once it is unpacked. */
  datatype Download = Unusable | Archive(entries: seq<Entry>, packageJson: Document)

  type Tarballs = map<string, Download>

  /** Every JSON document in the answers is as the parser hands it over. */
  predicate CanonicalAnswers(reg: Registry, tarballs: Tarballs) {
    && (forall name :: name in reg ==> Canonical(reg[name]))
    && (forall url :: url in tarballs && tarballs[url].Archive? ==> CanonicalDoc(tarballs[url].packageJson))
  }

  /** A pending (name, version request) pair. */
  datatype Request = Request(name: string, version: string)

  // ---------------------------------------------------------------- request strings (137-145)

  /** `name[@version]`: split at the first `@`; without one the version is "latest". */
  function SplitSpec(spec: string): (r: Request)
    ensures '@' !in spec ==> r == Request(spec, "latest")
    ensures '@' in spec ==> r.name + "@" + r.version == spec && '@' !in r.name
  {
    match FindChar(spec, '@', 0)
    case None => Request(spec, "latest")
    case Some(i) =>
      assert spec == spec[..i] + "@" + spec[i + 1..];
      Request(spec[..i], spec[i + 1..])
  }

  /** A scoped request such as `@types/node` is split at its leading `@`: empty name. */
  lemma ScopedSpecLosesName(spec: string)
    requires StartsWith(spec, "@")
    ensures SplitSpec(spec) == Request("", spec[1..])
  {
    assert spec[0] == '@';
  }

  // ---------------------------------------------------------------- exact version (175-183)

  /** The version to install: "latest" becomes the `latest` dist-tag when there is one;
      any other request is taken literally. */
  function ExactVersion(doc: Json, version: string): (r: string)
    ensures version != "latest" ==> r == version
    ensures version == "latest" ==> r == LatestTag(doc).GetOr("latest")
  {
    if version == "latest" then LatestTag(doc).GetOr(version) else version
  }

  // ---------------------------------------------------------------- install directory (186-195)

  /** `node_modules/scope/pkg` for a two-part scoped name, `node_modules/name` otherwise: both
      branches name the same path as joining the whole name onto `node_modules`. */
  function InstallDir(name: string): (r: string)
    ensures r == Join("node_modules", name)
  {
    if StartsWith(name, "@") then
      var parts := Split(name, '/');
      if |parts| == 2 then
        ScopedDirIsJoin(name, parts);
        Join(Join("node_modules", parts[0]), parts[1])
      else Join("node_modules", name)
    else Join("node_modules", name)
  }

  lemma ScopedDirIsJoin(name: string, parts: seq<string>)
    requires StartsWith(name, "@") && parts == Split(name, '/') && |parts| == 2
    ensures Join(Join("node_modules", parts[0]), parts[1]) == Join("node_modules", name)
  {
    SplitGlue(name, '/');
    assert name == parts[0] + "/" + parts[1];
    assert parts[0] != [] by {
      if parts[0] == [] { assert false; }
    }
    assert name[0] == parts[0][0];
    assert !EndsWith(parts[0], "/") by { assert parts[0][|parts[0]| - 1] in parts[0]; }
    assert parts[1] == [] || parts[1][0] != '/' by { if parts[1] != [] { assert parts[1][0] in parts[1]; } }
    JoinTwice("node_modules", parts[0], parts[1]);
  }

  /** A two-part scoped name installs two levels deep, under its scope directory. */
  lemma ScopedInstallDir(scope: string, pkg: string)
    requires StartsWith(scope, "@") && '/' !in scope && '/' !in pkg
    ensures InstallDir(scope + "/" + pkg) == "node_modules/" + scope + "/" + pkg
  {
    var base := "node_modules";
    assert base[|base| - 1] == 's';
    JoinUnder(base, scope, pkg);
    assert base + "/" == "node_modules/";
  }

  // ---------------------------------------------------------------- derived requests (210-231)

  /** The version request for a dependency entry: a string loses its leading `^`s and then its
      leading `~`s; any other JSON value asks for "latest". */
  function DerivedVersion(v: Json): (r: string)
    ensures TrimmedOf(if v.JString? then v.s else "latest", r)
    ensures !v.JString? ==> r == "latest"
  {
    StripRange(if v.JString? then v.s else "latest")
  }

  /** The requests read from an installed package's `package.json`: one per entry of its
      `dependencies` object, in order; none when the file is missing, unparsable or lacks one. */
  function DerivedRequests(pkgJson: Document): (r: seq<Request>)
    ensures !pkgJson.Parsed? ==> r == []
    ensures pkgJson.Parsed? ==> match Get(pkgJson.doc, "dependencies")
      case Some(JObject(es)) =>
        |r| == |es| && forall i :: 0 <= i < |es| ==> r[i] == Request(es[i].0, DerivedVersion(es[i].1))
      case _ => r == []
  {
    if pkgJson.Parsed? then
      match Get(pkgJson.doc, "dependencies")
      case Some(JObject(es)) => seq(|es|, i requires 0 <= i < |es| => Request(es[i].0, DerivedVersion(es[i].1)))
      case _ => []
    else []
  }

  // ---------------------------------------------------------------- extraction (328-350)

  /** Where each entry is unpacked: the install directory joined with its relative path. */
  function Destinations(installDir: string, entries: seq<Entry>): (ds: seq<string>)
    ensures |ds| == |entries|
    ensures forall i :: 0 <= i < |entries| ==>
      ds[i] == EntryTarget(installDir, RelativePath(entries[i].path, HasPackagePrefix(entries)))
  {
    var prefixed := HasPackagePrefix(entries);
    seq(|entries|, i requires 0 <= i < |entries| => EntryTarget(installDir, RelativePath(entries[i].path, prefixed)))
  }

  /** With proper components, every destination is the install directory or lies inside it. */
  lemma DestinationsInside(installDir: string, entries: seq<Entry>)
    requires installDir != [] && !EndsWith(installDir, "/")
    requires forall i :: 0 <= i < |entries| ==> ProperComponents(entries[i].path)
    ensures forall d :: d in Destinations(installDir, entries) ==> Within(d, installDir)
  {
    var ds := Destinations(installDir, entries);
    forall i | 0 <= i < |entries| ensures Within(ds[i], installDir) {
      var rel := RelativePath(entries[i].path, HasPackagePrefix(entries));
      if rel != [] {
        assert ProperComponents(rel) by {
          if rel != entries[i].path {
            assert forall j :: 0 <= j < |rel| ==> rel[j] == entries[i].path[j + 1];
          }
        }
        TargetInside(installDir, rel);
      }
    }
  }

  /** An entry whose relative path is `package.json` puts the manifest where it is read. */
  lemma ManifestLands(installDir: string, entries: seq<Entry>, i: nat)
    requires i < |entries| && RelativePath(entries[i].path, HasPackagePrefix(entries)) == ["package.json"]
    ensures Join(installDir, "package.json") in Destinations(installDir, entries)
  {
    assert Glue(["package.json"], '/') == "package.json";
    assert Destinations(installDir, entries)[i] == Join(installDir, "package.json");
  }

  // ---------------------------------------------------------------- download_and_install (285-357)

  /** `Ok(false)`, an error, or `Ok(true)` with the files written and the unpacked `package.json`:
      `Missing` unless an entry landed at it, the install directory having been emptied first. */
  datatype InstallOutcome = NotFound | Failed(msg: string) | Installed(files: seq<string>, packageJson: Document)

  function DownloadAndInstall(reg: Registry, tarballs: Tarballs, name: string, version: string, installDir: string): (o: InstallOutcome)
    ensures name !in reg ==> o == NotFound
    ensures name in reg && TarballUrl(reg[name], version).None? ==> o.Failed?
    ensures o.Installed? <==> name in reg && TarballUrl(reg[name], version).Some?
                              && TarballUrl(reg[name], version).value in tarballs
                              && tarballs[TarballUrl(reg[name], version).value].Archive?
    ensures o.Installed? ==> var a := tarballs[TarballUrl(reg[name], version).value];
      && o.files == Destinations(installDir, a.entries)
      && o.packageJson == (if Join(installDir, "package.json") in o.files then a.packageJson else Missing)
  {
    if name !in reg then NotFound
    else match TarballUrl(reg[name], version)
      case None => Failed("Could not find tarball URL")
      case Some(url) =>
        if url in tarballs && tarballs[url].Archive? then
          var ds := Destinations(installDir, tarballs[url].entries);
          Installed(ds, if Join(installDir, "package.json") in ds then tarballs[url].packageJson else Missing)
        else Failed("Failed to download or unpack tarball")
  }

  // ---------------------------------------------------------------- one spawned task (157-235)

  /** What a task sees of the outside world: `resolve` gives the exact version to install for a
      request whose name the registry knows; `install` gives, for a name and an exact version
      whose download and unpacking succeed, the requests read from the unpacked `package.json`.
      Only names in `known` resolve. */
  datatype Env = Env(
    known: set<string>,
    resolve: Request -> Option<string>,
    install: (string, string) -> Option<seq<Request>>)

  ghost predicate EnvValid(e: Env) {
    forall q :: e.resolve(q).Some? ==> q.name in e.known
  }

  /** The environment of `main.rs`: a metadata lookup and `ExactVersion`, then
      `DownloadAndInstall` into `InstallDir` and `DerivedRequests` of the unpacked manifest. */
  function RegistryEnv(reg: Registry, tarballs: Tarballs): (e: Env)
    ensures EnvValid(e) && e.known == reg.Keys
    ensures forall q :: e.resolve(q) == if q.name in reg then Some(ExactVersion(reg[q.name], q.version)) else None
  {
    Env(reg.Keys,
        (q: Request) => if q.name in reg then Some(ExactVersion(reg[q.name], q.version)) else None,
        (name: string, version: string) =>
          match DownloadAndInstall(reg, tarballs, name, version, InstallDir(name))
          case Installed(_, pkgJson) => Some(DerivedRequests(pkgJson))
          case _ => None)
  }

  /** Installing `req` by itself would succeed. */
  predicate Installs(e: Env, req: Request) {
    e.resolve(req).Some? && e.install(req.name, e.resolve(req).value).Some?
  }

  /** The requests a package installed at `version` adds to the worklist. */
  function DepsOf(e: Env, name: string, version: string): seq<Request> {
    e.install(name, version).GetOr([])
  }

  /** A task, run to completion: skipped when the name is already installed; otherwise, when the
      install succeeds, the name is recorded with its exact version and the new requests are
      returned. Every failure (lookup, tarball, unpacking) returns no requests. */
  function Task(e: Env, versions: map<string, string>, req: Request): (r: (map<string, string>, seq<Request>))
    ensures req.name in versions ==> r == (versions, [])
    ensures forall k :: k in versions ==> k in r.0 && r.0[k] == versions[k]
    ensures r.0.Keys == versions.Keys || (req.name !in versions && r.0.Keys == versions.Keys + {req.name})
    ensures r.0.Keys != versions.Keys <==> req.name !in versions && Installs(e, req)
    ensures r.0.Keys != versions.Keys ==>
      r.0[req.name] == e.resolve(req).value && r.1 == DepsOf(e, req.name, r.0[req.name])
    ensures r.0.Keys == versions.Keys ==> r.1 == []
  {
    if req.name in versions then (versions, [])
    else match e.resolve(req)
      case None => (versions, [])
      case Some(exact) =>
        match e.install(req.name, exact)
        case Some(deps) => (versions[req.name := exact], deps)
        case None => (versions, [])
  }

  // ---------------------------------------------------------------- the worklist (127-253)

  /** The loop state: the pending stack (popped from the end), the installed names with the
      version recorded for them, what each spawned task returned in spawn order, how many of those
      results were handed back by `select_all`, and every request popped so far. */
  datatype Worklist = Worklist(
    pending: seq<Request>,
    versions: map<string, string>,
    outputs: seq<seq<Request>>,
    harvested: nat,
    processed: seq<Request>)

  predicate Valid(w: Worklist) {
    w.harvested <= |w.outputs| == |w.processed|
  }

  /** The requests given on the command line, in order. */
  function Roots(packages: seq<string>): (rs: seq<Request>)
    ensures |rs| == |packages| && forall i :: 0 <= i < |rs| ==> rs[i] == SplitSpec(packages[i])
  {
    seq(|packages|, i requires 0 <= i < |packages| => SplitSpec(packages[i]))
  }

  function Start(packages: seq<string>): (w: Worklist)
    ensures Valid(w) && w.pending == Roots(packages) && w.versions == map[] && w.processed == []
  {
    Worklist(Roots(packages), map[], [], 0, [])
  }

  /** The number of requests in a sequence of task results. */
  function Total(outs: seq<seq<Request>>): nat {
    if outs == [] then 0 else |outs[0]| + Total(outs[1..])
  }

  lemma {:induction false} TotalAppend(outs: seq<seq<Request>>, x: seq<Request>)
    ensures Total(outs + [x]) == Total(outs) + |x|
  {
    if outs != [] {
      assert (outs + [x])[1..] == outs[1..] + [x];
      TotalAppend(outs[1..], x);
    }
  }

  /** Task results concatenated in spawn order. */
  function Flatten(outs: seq<seq<Request>>): seq<Request> {
    if outs == [] then [] else Flatten(outs[..|outs| - 1]) + outs[|outs| - 1]
  }

  /** Requests still to come: pending ones and those inside results not handed back. */
  function Work(w: Worklist): nat
    requires Valid(w)
  {
    |w.pending| + Total(w.outputs[w.harvested..])
  }

  /** Known names not installed yet. */
  function Unknown(e: Env, w: Worklist): nat {
    |e.known - w.versions.Keys|
  }

  /** One round of the loop as written: pop a request, run its task, and once 8 or more tasks
      have been spawned, take back the oldest result not taken back yet. */
  function Step(e: Env, w: Worklist): (w': Worklist)
    requires Valid(w) && w.pending != []
    ensures Valid(w')
  {
    Advance(w, Task(e, w.versions, w.pending[|w.pending| - 1]))
  }

  /** The bookkeeping of a round whose task returned `r`: the request is popped, the result
      joins the spawned ones, and from the 8th spawn on the oldest result not taken back is
      pushed onto the pending stack. */
  function Advance(w: Worklist, r: (map<string, string>, seq<Request>)): (w': Worklist)
    requires Valid(w) && w.pending != []
    ensures Valid(w') && w'.versions == r.0 && w'.outputs == w.outputs + [r.1]
    ensures w'.processed == w.processed + [w.pending[|w.pending| - 1]]
    ensures w.pending[..|w.pending| - 1] <= w'.pending
  {
    var rest := w.pending[..|w.pending| - 1];
    var outputs := w.outputs + [r.1];
    if |outputs| >= 8 then Worklist(rest + outputs[w.harvested], r.0, outputs, w.harvested + 1, w.processed + [w.pending[|w.pending| - 1]])
    else Worklist(rest, r.0, outputs, w.harvested, w.processed + [w.pending[|w.pending| - 1]])
  }

  /** Recording a new name shrinks the known names not yet installed; otherwise they stay. */
  lemma Shrinks(e: Env, w: Worklist, req: Request)
    requires EnvValid(e)
    ensures var r := Task(e, w.versions, req);
      && (r.0.Keys != w.versions.Keys ==> |e.known - r.0.Keys| < |e.known - w.versions.Keys|)
      && (r.0.Keys == w.versions.Keys ==> |e.known - r.0.Keys| == |e.known - w.versions.Keys|)
  {
    var r := Task(e, w.versions, req);
    if r.0.Keys != w.versions.Keys {
      assert req.name in e.known - w.versions.Keys;
      assert e.known - r.0.Keys == (e.known - w.versions.Keys) - {req.name};
    }
  }

  lemma TotalFront(outs: seq<seq<Request>>, h: nat)
    requires h < |outs|
    ensures Total(outs[h..]) == |outs[h]| + Total(outs[h + 1..])
  {
    assert outs[h..][1..] == outs[h + 1..];
  }

  /** A round whose task returned nothing leaves one request less to come. */
  lemma AdvanceWork(w: Worklist, r: (map<string, string>, seq<Request>))
    requires Valid(w) && w.pending != [] && r.1 == []
    ensures Work(Advance(w, r)) == Work(w) - 1
  {
    var outputs := w.outputs + [r.1];
    var w' := Advance(w, r);
    assert outputs[w.harvested..] == w.outputs[w.harvested..] + [r.1];
    TotalAppend(w.outputs[w.harvested..], r.1);
    if |outputs| >= 8 {
      TotalFront(outputs, w.harvested);
      assert |w'.pending| == |w.pending| - 1 + |outputs[w.harvested]|;
    } else {
      assert |w'.pending| == |w.pending| - 1;
    }
  }

  lemma StepProgress(e: Env, w: Worklist)
    requires EnvValid(e) && Valid(w) && w.pending != []
    ensures var w' := Step(e, w);
      Unknown(e, w') < Unknown(e, w) || (Unknown(e, w') == Unknown(e, w) && Work(w') < Work(w))
  {
    var req := w.pending[|w.pending| - 1];
    var r := Task(e, w.versions, req);
    Shrinks(e, w, req);
    if r.0.Keys == w.versions.Keys {
      AdvanceWork(w, r);
    }
  }

  /** The loop as written, run until the pending stack is empty. */
  function Drain(e: Env, w: Worklist): (f: Worklist)
    requires EnvValid(e) && Valid(w)
    ensures Valid(f) && f.pending == []
    decreases Unknown(e, w), Work(w)
  {
    if w.pending == [] then w
    else
      StepProgress(e, w);
      Drain(e, Step(e, w))
  }

  /** What the final `for task in tasks` loop appends to the pending list once the loop has
      ended: these requests are never processed. */
  function Dropped(w: Worklist): seq<Request>
    requires Valid(w)
  {
    Flatten(w.outputs[w.harvested..])
  }

  /** Every installed name was recorded from some popped request that installs, at the version
      that request resolves to. */
  predicate Justified(e: Env, w: Worklist) {
    forall k :: k in w.versions ==>
      exists i :: 0 <= i < |w.processed| && w.processed[i].name == k && Installs(e, w.processed[i])
                  && w.versions[k] == e.resolve(w.processed[i]).value
  }

  /** Every popped request was installed under its name, or would not install at all. */
  predicate Handled(e: Env, w: Worklist) {
    forall i :: 0 <= i < |w.processed| ==> w.processed[i].name in w.versions || !Installs(e, w.processed[i])
  }

  /** A round pops the last pending request, keeps the others pending and keeps every
      recorded version. */
  lemma StepShape(e: Env, w: Worklist)
    requires Valid(w) && w.pending != []
    ensures var w' := Step(e, w);
      && w'.processed == w.processed + [w.pending[|w.pending| - 1]]
      && w.pending[..|w.pending| - 1] <= w'.pending
      && (forall k :: k in w.versions ==> k in w'.versions && w'.versions[k] == w.versions[k])
  {
  }

  lemma StepKeeps(e: Env, w: Worklist)
    requires Valid(w) && w.pending != []
    ensures var w' := Step(e, w);
      && w'.processed == w.processed + [w.pending[|w.pending| - 1]]
      && w.pending[..|w.pending| - 1] <= w'.pending
      && (forall k :: k in w.versions ==> k in w'.versions && w'.versions[k] == w.versions[k])
      && (Justified(e, w) ==> Justified(e, w'))
      && (Handled(e, w) ==> Handled(e, w'))
  {
    StepShape(e, w);
    var w' := Step(e, w);
    var req := w.pending[|w.pending| - 1];
    if Justified(e, w) {
      forall k | k in w'.versions
        ensures exists i :: 0 <= i < |w'.processed| && w'.processed[i].name == k && Installs(e, w'.processed[i])
                            && w'.versions[k] == e.resolve(w'.processed[i]).value
      {
        if k in w.versions {
          var i :| 0 <= i < |w.processed| && w.processed[i].name == k && Installs(e, w.processed[i])
                   && w.versions[k] == e.resolve(w.processed[i]).value;
          assert w'.processed[i] == w.processed[i];
        } else {
          assert w'.processed[|w.processed|] == req;
        }
      }
    }
  }

  /** The popped requests grow by the pending ones, and recorded versions are never overwritten. */
  lemma DrainKeeps(e: Env, w: Worklist)
    requires EnvValid(e) && Valid(w)
    ensures var f := Drain(e, w);
      && w.processed <= f.processed
      && (forall q :: q in w.pending ==> q in f.processed)
      && (forall k :: k in w.versions ==> k in f.versions && f.versions[k] == w.versions[k])
  {
    DrainPops(e, w);
    DrainVersionsKept(e, w);
  }

  lemma {:induction false} DrainPops(e: Env, w: Worklist)
    requires EnvValid(e) && Valid(w)
    ensures var f := Drain(e, w);
      && w.processed <= f.processed
      && (forall q :: q in w.pending ==> q in f.processed)
    decreases Unknown(e, w), Work(w)
  {
    if w.pending != [] {
      StepProgress(e, w);
      StepShape(e, w);
      var w' := Step(e, w);
      DrainPops(e, w');
      PoppedLater(w.pending, w.processed, w'.pending, w'.processed, Drain(e, w').processed);
    }
  }

  lemma {:induction false} DrainVersionsKept(e: Env, w: Worklist)
    requires EnvValid(e) && Valid(w)
    ensures forall k :: k in w.versions ==> k in Drain(e, w).versions && Drain(e, w).versions[k] == w.versions[k]
    decreases Unknown(e, w), Work(w)
  {
    if w.pending != [] {
      StepProgress(e, w);
      StepShape(e, w);
      DrainVersionsKept(e, Step(e, w));
    }
  }

  /** A round pops the last pending request and keeps the others pending, so when every request
      pending after it is popped later, so is every request pending before it. */
  lemma PoppedLater(pending: seq<Request>, processed: seq<Request>, pending': seq<Request>,
                    processed': seq<Request>, final: seq<Request>)
    requires pending != [] && processed' == processed + [pending[|pending| - 1]]
    requires pending[..|pending| - 1] <= pending' && processed' <= final
    requires forall q :: q in pending' ==> q in final
    ensures forall q :: q in pending ==> q in final
  {
    forall q | q in pending ensures q in final {
      var j :| 0 <= j < |pending| && pending[j] == q;
      if j == |pending| - 1 {
        assert final[|processed|] == processed'[|processed|] == q;
      } else {
        assert pending'[j] == pending[..|pending| - 1][j] == q;
      }
    }
  }

  /** The loop as written keeps `Justified` and `Handled`. */
  lemma {:induction false} DrainInvariants(e: Env, w: Worklist)
    requires EnvValid(e) && Valid(w)
    ensures Justified(e, w) ==> Justified(e, Drain(e, w))
    ensures Handled(e, w) ==> Handled(e, Drain(e, w))
    decreases Unknown(e, w), Work(w)
  {
    if w.pending != [] {
      StepProgress(e, w);
      StepKeeps(e, w);
      DrainInvariants(e, Step(e, w));
    }
  }

  /** What the loop as written achieves from the command line: every request given is popped;
      every installed name was asked for, installs, and is recorded at the version its request
      resolved to; every popped request was installed under its name or does not install. */
  lemma DrainFromStart(e: Env, packages: seq<string>)
    requires EnvValid(e)
    ensures var f := Drain(e, Start(packages));
      && (forall i :: 0 <= i < |packages| ==> SplitSpec(packages[i]) in f.processed)
      && Justified(e, f)
      && Handled(e, f)
  {
    var w := Start(packages);
    DrainKeeps(e, w);
    DrainInvariants(e, w);
    forall i | 0 <= i < |packages| ensures SplitSpec(packages[i]) in Drain(e, w).processed {
      assert w.pending[i] == SplitSpec(packages[i]);
    }
  }

  /** `select_all` has run once for every spawn from the 8th on. */
  predicate Harvests(w: Worklist) {
    w.harvested == if |w.outputs| >= 8 then |w.outputs| - 7 else 0
  }

  /** The loop keeps `Harvests` and pops at least every pending request. */
  lemma {:induction false} DrainHarvests(e: Env, w: Worklist)
    requires EnvValid(e) && Valid(w)
    ensures Harvests(w) ==> Harvests(Drain(e, w))
    ensures |Drain(e, w).processed| >= |w.processed| + |w.pending|
    decreases Unknown(e, w), Work(w)
  {
    if w.pending != [] {
      StepProgress(e, w);
      var w' := Step(e, w);
      DrainHarvests(e, w');
      assert |w'.pending| >= |w.pending| - 1;
    }
  }

  /** A run hands a result back through `select_all` exactly when it pops 8 or more requests;
      so it does whenever 8 or more packages are named on the command line. */
  lemma HarvestsFromEight(e: Env, packages: seq<string>)
    requires EnvValid(e)
    ensures var f := Drain(e, Start(packages)); f.harvested > 0 <==> |f.processed| >= 8
    ensures |packages| >= 8 ==> Drain(e, Start(packages)).harvested > 0
  {
    DrainHarvests(e, Start(packages));
  }

  // ---------------------------------------------------------------- the loop as intended

  /** Every installed package's own requests are pending or popped already. */
  predicate Closed(e: Env, w: Worklist) {
    forall k, q :: k in w.versions && q in DepsOf(e, k, w.versions[k]) ==> q in w.pending || q in w.processed
  }

  /** One round of the loop with each spawned result put back on the pending stack at once. */
  function StepAll(e: Env, w: Worklist): (w': Worklist)
    requires Valid(w) && w.pending != []
    ensures Valid(w') && w'.harvested == |w'.outputs|
  {
    var req := w.pending[|w.pending| - 1];
    var (versions, out) := Task(e, w.versions, req);
    Worklist(w.pending[..|w.pending| - 1] + out, versions, w.outputs + [out], |w.outputs| + 1, w.processed + [req])
  }

  lemma DrainAllProgress(e: Env, w: Worklist)
    requires EnvValid(e) && Valid(w) && w.pending != []
    ensures var w' := StepAll(e, w);
      Unknown(e, w') < Unknown(e, w) || (Unknown(e, w') == Unknown(e, w) && |w'.pending| < |w.pending|)
  {
    var req := w.pending[|w.pending| - 1];
    var r := Task(e, w.versions, req);
    Shrinks(e, w, req);
    var w' := StepAll(e, w);
    assert w'.versions == r.0 && w'.pending == w.pending[..|w.pending| - 1] + r.1;
    if r.0.Keys == w.versions.Keys {
      assert r.1 == [];
      assert |w'.pending| == |w.pending| - 1;
    }
  }

  /** The loop with no task result lost, run until nothing is pending. */
  function DrainAll(e: Env, w: Worklist): (f: Worklist)
    requires EnvValid(e) && Valid(w)
    ensures Valid(f) && f.pending == []
    decreases Unknown(e, w), |w.pending|
  {
    if w.pending == [] then w
    else
      DrainAllProgress(e, w);
      DrainAll(e, StepAll(e, w))
  }

  /** A corrected round pops the last pending request and keeps the others pending. */
  lemma StepAllShape(e: Env, w: Worklist)
    requires Valid(w) && w.pending != []
    ensures var w' := StepAll(e, w);
      && w'.processed == w.processed + [w.pending[|w.pending| - 1]]
      && w.pending[..|w.pending| - 1] <= w'.pending
  {
  }

  lemma StepAllKeeps(e: Env, w: Worklist)
    requires Valid(w) && w.pending != []
    ensures var w' := StepAll(e, w);
      && w'.processed == w.processed + [w.pending[|w.pending| - 1]]
      && w.pending[..|w.pending| - 1] <= w'.pending
      && (Closed(e, w) ==> Closed(e, w'))
      && (Handled(e, w) ==> Handled(e, w'))
  {
    StepAllShape(e, w);
    var w' := StepAll(e, w);
    var req := w.pending[|w.pending| - 1];
    var rest := w.pending[..|w.pending| - 1];
    var (versions, out) := Task(e, w.versions, req);
    if Closed(e, w) {
      forall k, q | k in w'.versions && q in DepsOf(e, k, w'.versions[k])
        ensures q in w'.pending || q in w'.processed
      {
        if k in w.versions {
          if q in w.pending {
            var j :| 0 <= j < |w.pending| && w.pending[j] == q;
            if j == |w.pending| - 1 {
              assert w'.processed[|w.processed|] == q;
            } else {
              assert w'.pending[j] == rest[j] == q;
            }
          }
        } else {
          var j :| 0 <= j < |out| && out[j] == q;
          assert w'.pending[|rest| + j] == q;
        }
      }
    }
  }

  lemma {:induction false} DrainAllKeeps(e: Env, w: Worklist)
    requires EnvValid(e) && Valid(w)
    ensures var f := DrainAll(e, w);
      && w.processed <= f.processed
      && (forall q :: q in w.pending ==> q in f.processed)
    decreases Unknown(e, w), |w.pending|
  {
    if w.pending != [] {
      DrainAllProgress(e, w);
      StepAllShape(e, w);
      var w' := StepAll(e, w);
      DrainAllKeeps(e, w');
      PoppedLater(w.pending, w.processed, w'.pending, w'.processed, DrainAll(e, w').processed);
    }
  }

  /** The corrected loop keeps `Closed` and `Handled`. */
  lemma {:induction false} DrainAllInvariants(e: Env, w: Worklist)
    requires EnvValid(e) && Valid(w)
    ensures Closed(e, w) ==> Closed(e, DrainAll(e, w))
    ensures Handled(e, w) ==> Handled(e, DrainAll(e, w))
    decreases Unknown(e, w), |w.pending|
  {
    if w.pending != [] {
      DrainAllProgress(e, w);
      StepAllKeeps(e, w);
      DrainAllInvariants(e, StepAll(e, w));
    }
  }

  /** With every result put back, each requested package and each dependency of an installed
      package ends up installed, unless installing it on its own fails. */
  lemma DrainAllInstallsDependencies(e: Env, packages: seq<string>)
    requires EnvValid(e)
    ensures var f := DrainAll(e, Start(packages));
      && (forall i :: 0 <= i < |packages| ==>
            SplitSpec(packages[i]).name in f.versions || !Installs(e, SplitSpec(packages[i])))
      && (forall k, q :: k in f.versions && q in DepsOf(e, k, f.versions[k]) ==>
            q.name in f.versions || !Installs(e, q))
  {
    var w := Start(packages);
    DrainAllKeeps(e, w);
    DrainAllInvariants(e, w);
    var f := DrainAll(e, w);
    forall i | 0 <= i < |packages|
      ensures SplitSpec(packages[i]).name in f.versions || !Installs(e, SplitSpec(packages[i]))
    {
      assert w.pending[i] == SplitSpec(packages[i]);
      assert SplitSpec(packages[i]) in f.processed;
    }
    forall k, q | k in f.versions && q in DepsOf(e, k, f.versions[k])
      ensures q.name in f.versions || !Installs(e, q)
    {
      assert q in f.processed;
      var j :| 0 <= j < |f.processed| && f.processed[j] == q;
    }
  }

  // ---------------------------------------------------------------- a dependency that is lost

  /** A metadata document whose `latest` tag is 1.0.0, with that version's tarball at `url`. */
  function ExampleDoc(url: string): Json {
    JObject([("dist-tags", JObject([("latest", JString("1.0.0"))])),
             ("versions", JObject([("1.0.0", JObject([("dist", JObject([("tarball", JString(url))]))]))]))])
  }

  /** `a` depends on `b` (`^1.0.0`); `b` depends on nothing. */
  function ExampleRegistry(): Registry {
    map["a" := ExampleDoc("a.tgz"), "b" := ExampleDoc("b.tgz")]
  }

  function ExampleTarballs(): Tarballs {
    map["a.tgz" := Archive([Entry(["package", "package.json"], false)],
                           Parsed(JObject([("dependencies", JObject([("b", JString("^1.0.0"))]))]))),
        "b.tgz" := Archive([Entry(["package", "package.json"], false)], Parsed(JObject([])))]
  }

  lemma ExampleDocFacts(url: string)
    ensures LatestTag(ExampleDoc(url)) == Some("1.0.0")
    ensures TarballUrl(ExampleDoc(url), "1.0.0") == Some(url)
  {
    var doc := ExampleDoc(url);
    assert "versions" != "dist-tags" by { assert "versions"[0] != "dist-tags"[0]; }
    assert Get(doc, "dist-tags") == Some(JObject([("latest", JString("1.0.0"))]));
    var vs := JObject([("1.0.0", JObject([("dist", JObject([("tarball", JString(url))]))]))]);
    assert doc.entries[1..] == [("versions", vs)];
    assert Lookup(doc.entries[1..], "versions") == Some(vs);
    assert Get(doc, "versions") == Some(vs);
    assert GetIn(Some(vs), "1.0.0") == Some(JObject([("dist", JObject([("tarball", JString(url))]))]));
  }

  lemma ExampleDerived()
    ensures DerivedRequests(Parsed(JObject([("dependencies", JObject([("b", JString("^1.0.0"))]))])))
            == [Request("b", "1.0.0")]
  {
    var doc := JObject([("dependencies", JObject([("b", JString("^1.0.0"))]))]);
    var es := [("b", JString("^1.0.0"))];
    assert Get(doc, "dependencies") == Some(JObject(es));
    DerivedEach(Parsed(doc), es);
    StripCaretExample();
    var r := DerivedRequests(Parsed(doc));
    assert r[0] == Request("b", "1.0.0");
    OneElement(r);
  }

  lemma OneElement<T>(r: seq<T>)
    requires |r| == 1
    ensures r == [r[0]]
  {
  }

  /** The requests of a `dependencies` object, entry by entry. */
  lemma DerivedEach(pkgJson: Document, es: seq<(string, Json)>)
    requires pkgJson.Parsed? && Get(pkgJson.doc, "dependencies") == Some(JObject(es))
    ensures var r := DerivedRequests(pkgJson);
      |r| == |es| && forall i :: 0 <= i < |es| ==> r[i] == Request(es[i].0, DerivedVersion(es[i].1))
  {
  }

  lemma ExampleDownload(name: string, url: string)
    requires name in ExampleRegistry() && ExampleRegistry()[name] == ExampleDoc(url) && url in ExampleTarballs()
    ensures var o := DownloadAndInstall(ExampleRegistry(), ExampleTarballs(), name, "1.0.0", InstallDir(name));
      o.Installed? && o.packageJson == ExampleTarballs()[url].packageJson
  {
    ExampleDocFacts(url);
    var es := ExampleTarballs()[url].entries;
    assert HasPackagePrefix(es) by { assert es[0].path[0] == "package"; }
    assert es[0].path[1..] == ["package.json"];
    ManifestLands(InstallDir(name), es, 0);
  }

  lemma ExampleInstalls()
    ensures var e := RegistryEnv(ExampleRegistry(), ExampleTarballs());
      && e.resolve(Request("a", "latest")) == Some("1.0.0")
      && e.install("a", "1.0.0") == Some([Request("b", "1.0.0")])
      && e.resolve(Request("b", "1.0.0")) == Some("1.0.0")
      && e.install("b", "1.0.0") == Some([])
  {
    ExampleInstallsA();
    ExampleInstallsB();
  }

  /** `a` resolves from `latest` and installs with one request for `b`. */
  lemma ExampleInstallsA()
    ensures var e := RegistryEnv(ExampleRegistry(), ExampleTarballs());
      && e.resolve(Request("a", "latest")) == Some("1.0.0")
      && e.install("a", "1.0.0") == Some([Request("b", "1.0.0")])
  {
    var reg := ExampleRegistry();
    ExampleDocFacts("a.tgz");
    assert ExactVersion(reg["a"], "latest") == "1.0.0";
    ExampleDownload("a", "a.tgz");
    ExampleDerived();
  }

  /** `b` resolves from its exact version and installs with no requests. */
  lemma ExampleInstallsB()
    ensures var e := RegistryEnv(ExampleRegistry(), ExampleTarballs());
      && e.resolve(Request("b", "1.0.0")) == Some("1.0.0")
      && e.install("b", "1.0.0") == Some([])
  {
    ExampleDownload("b", "b.tgz");
    assert DerivedRequests(Parsed(JObject([]))) == [];
  }

  /** Any environment in which `a` resolves to 1.0.0 and installs with one request for `b`. */
  ghost predicate ExampleLike(e: Env) {
    && EnvValid(e)
    && e.resolve(Request("a", "latest")) == Some("1.0.0")
    && e.install("a", "1.0.0") == Some([Request("b", "1.0.0")])
  }

  lemma ExampleDrain(e: Env)
    requires ExampleLike(e)
    ensures Drain(e, Start(["a"])) == Worklist([], map["a" := "1.0.0"], [[Request("b", "1.0.0")]], 0, [Request("a", "latest")])
  {
    var w := Start(["a"]);
    assert SplitSpec("a") == Request("a", "latest");
    assert w.pending == [Request("a", "latest")];
    assert Task(e, map[], Request("a", "latest")) == (map["a" := "1.0.0"], [Request("b", "1.0.0")]);
    var w1 := Step(e, w);
    assert w1 == Worklist([], map["a" := "1.0.0"], [[Request("b", "1.0.0")]], 0, [Request("a", "latest")]);
  }

  lemma ExampleDrainAll(e: Env)
    requires ExampleLike(e)
    ensures "a" in DrainAll(e, Start(["a"])).versions && DrainAll(e, Start(["a"])).versions["a"] == "1.0.0"
  {
    var w := Start(["a"]);
    assert SplitSpec("a") == Request("a", "latest");
    assert w.pending == [Request("a", "latest")];
    assert Task(e, map[], Request("a", "latest")) == (map["a" := "1.0.0"], [Request("b", "1.0.0")]);
    var w2 := StepAll(e, w);
    assert w2.versions == map["a" := "1.0.0"];
    DrainAllVersionsKept(e, w2);
  }

  /** Installing `a` alone spawns one task, fewer than 8, so `select_all` never runs: `b`, which
      `a` depends on and which installs, comes back only from the final loop and is never
      installed. With every result put back, `b` is installed. */
  lemma TransitiveDependencyDropped()
    ensures var e := RegistryEnv(ExampleRegistry(), ExampleTarballs());
      var f := Drain(e, Start(["a"]));
      && f.versions == map["a" := "1.0.0"]
      && Request("b", "1.0.0") in DepsOf(e, "a", f.versions["a"])
      && Installs(e, Request("b", "1.0.0"))
      && Dropped(f) == [Request("b", "1.0.0")]
      && "b" in DrainAll(e, Start(["a"])).versions
  {
    var e := RegistryEnv(ExampleRegistry(), ExampleTarballs());
    ExampleInstalls();
    ExampleDropped(e);
    ExampleKept(e);
  }

  /** As written, `b` is left among the results of the final loop. */
  lemma ExampleDropped(e: Env)
    requires ExampleLike(e)
    ensures var f := Drain(e, Start(["a"]));
      f.versions == map["a" := "1.0.0"] && Dropped(f) == [Request("b", "1.0.0")]
  {
    ExampleDrain(e);
    var f := Drain(e, Start(["a"]));
    assert f.outputs[f.harvested..] == [[Request("b", "1.0.0")]];
    assert Flatten([[Request("b", "1.0.0")]]) == [] + [Request("b", "1.0.0")];
  }

  /** With every result put back, `b` is installed whenever it installs on its own. */
  lemma ExampleKept(e: Env)
    requires ExampleLike(e) && Installs(e, Request("b", "1.0.0"))
    ensures "b" in DrainAll(e, Start(["a"])).versions
  {
    ExampleDrainAll(e);
    DrainAllInstallsDependencies(e, ["a"]);
    var g := DrainAll(e, Start(["a"]));
    assert Request("b", "1.0.0") in DepsOf(e, "a", g.versions["a"]);
  }

  /** Versions recorded before the corrected loop starts are never overwritten. */
  lemma {:induction false} DrainAllVersionsKept(e: Env, w: Worklist)
    requires EnvValid(e) && Valid(w)
    ensures forall k :: k in w.versions ==> k in DrainAll(e, w).versions && DrainAll(e, w).versions[k] == w.versions[k]
    decreases Unknown(e, w), |w.pending|
  {
    if w.pending != [] {
      DrainAllProgress(e, w);
      DrainAllVersionsKept(e, StepAll(e, w));
    }
  }

  // ---------------------------------------------------------------- install_packages (104-283)

  /** The manifest written back: `name` and `version` indexed (`null` when absent), `description`
      and `license` with their defaults, and the dependencies in key order. */
  datatype WrittenManifest = WrittenManifest(
    name: Json, version: Json, description: Json, license: Json, dependencies: seq<(string, Json)>)

  /** The manifest used when there is no `package.json`. */
  function DefaultManifest(): (j: Json)
    ensures Get(j, "dependencies") == Some(JObject([]))
  {
    assert "dependencies"[0] != "name"[0] && "dependencies"[0] != "version"[0] && "dependencies"[0] != "license"[0];
    assert "dependencies"[2] != "description"[2];
    JObject([("name", JString("my-project")), ("version", JString("1.0.0")), ("description", JString("")),
             ("license", JString("MIT")), ("dependencies", JObject([]))])
  }

  /** The manifest the run starts from: the file's contents, or the default one when the file is
      missing; nothing when it does not parse. */
  function BaseManifest(manifest: Document): (b: Option<Json>)
    ensures b.None? <==> manifest.Unparsable?
    ensures manifest.Missing? ==> b == Some(DefaultManifest())
    ensures manifest.Parsed? ==> b == Some(manifest.doc)
  {
    match manifest
    case Missing => Some(DefaultManifest())
    case Unparsable => None
    case Parsed(j) => Some(j)
  }

  /** The `dependencies` object the run starts from, when there is one. */
  function InitialDeps(manifest: Document): (d: Option<map<string, Json>>)
    ensures manifest.Missing? ==> d == Some(map[])
    ensures d.Some? ==> BaseManifest(manifest).Some? && Get(BaseManifest(manifest).value, "dependencies").Some?
  {
    match BaseManifest(manifest)
    case None => None
    case Some(b) =>
      match Get(b, "dependencies")
      case Some(JObject(es)) => Some(EntryMap(es))
      case _ => None
  }

  function EntryKeys(es: seq<(string, Json)>): (ks: seq<string>)
    ensures |ks| == |es| && forall i :: 0 <= i < |es| ==> ks[i] == es[i].0
  {
    seq(|es|, i requires 0 <= i < |es| => es[i].0)
  }

  /** Pushing the command-line requests onto the pending stack, in order. */
  method PushRoots(packages: seq<string>) returns (pending: seq<Request>)
    ensures pending == Roots(packages)
  {
    pending := [];
    for i := 0 to |packages|
      invariant pending == Roots(packages)[..i]
    {
      pending := pending + [SplitSpec(packages[i])];
    }
    assert pending == Roots(packages)[..|packages|];
  }

  /** The `while let Some(..) = pending_packages.pop()` loop, run from the command-line requests. */
  method RunWorklist(e: Env, packages: seq<string>) returns (f: Worklist)
    requires EnvValid(e)
    ensures f == Drain(e, Start(packages))
  {
    var pending := PushRoots(packages);
    var versions: map<string, string> := map[];
    var outputs: seq<seq<Request>> := [];
    var harvested: nat := 0;
    var processed: seq<Request> := [];
    while pending != []
      invariant Valid(Worklist(pending, versions, outputs, harvested, processed))
      invariant Drain(e, Worklist(pending, versions, outputs, harvested, processed)) == Drain(e, Start(packages))
      decreases Unknown(e, Worklist(pending, versions, outputs, harvested, processed)),
                Work(Worklist(pending, versions, outputs, harvested, processed))
    {
      ghost var w := Worklist(pending, versions, outputs, harvested, processed);
      StepProgress(e, w);
      var req := pending[|pending| - 1];
      pending := pending[..|pending| - 1];
      processed := processed + [req];
      var t := Task(e, versions, req);
      versions := t.0;
      outputs := outputs + [t.1];
      if |outputs| >= 8 {
        pending := pending + outputs[harvested];
        harvested := harvested + 1;
      }
      assert Step(e, w) == Advance(w, t);
      assert Worklist(pending, versions, outputs, harvested, processed) == Advance(w, t);
      assert Drain(e, w) == Drain(e, Step(e, w));
    }
    f := Worklist(pending, versions, outputs, harvested, processed);
  }

  /** What the `for task in tasks` loop comes to: the requests returned by the spawned tasks, appended in
      spawn order, or a panic on a handle that `select_all` has already completed. */
  datatype Awaited = Collected(requests: seq<Request>) | PolledAgain

  /** Tokio's panic on a `JoinHandle` that has already produced its output. */
  const PollPanic := "JoinHandle polled after completion"

  /** The `for task in tasks` loop as written: `select_all(&mut tasks)` leaves every handle it
      completed in `tasks` (the oldest ones here), so the loop awaits such a handle a second time
      and panics; when none was completed, every result is collected in spawn order. */
  method AwaitRemaining(f: Worklist) returns (a: Awaited)
    requires Valid(f)
    ensures f.harvested > 0 ==> a == PolledAgain
    ensures f.harvested == 0 ==> a == Collected(Dropped(f))
  {
    var dropped := [];
    var i := 0;
    while i < |f.outputs|
      invariant 0 <= i <= |f.outputs|
      invariant f.harvested > 0 ==> i == 0
      invariant dropped == Flatten(f.outputs[..i])
    {
      if i < f.harvested {
        return PolledAgain;
      }
      assert f.outputs[..i + 1][..i] == f.outputs[..i];
      dropped := dropped + f.outputs[i];
      i := i + 1;
    }
    assert f.outputs[..i] == f.outputs[f.harvested..];
    return Collected(dropped);
  }

  lemma {:induction false} FlattenAppend(a: seq<seq<Request>>, b: seq<seq<Request>>)
    ensures Flatten(a + b) == Flatten(a) + Flatten(b)
    decreases |b|
  {
    if b == [] {
      assert a + b == a;
    } else {
      var front, last := b[..|b| - 1], b[|b| - 1];
      var ab := a + b;
      assert ab[..|ab| - 1] == a + front && ab[|ab| - 1] == last;
      FlattenAppend(a, front);
      assert Flatten(ab) == (Flatten(a) + Flatten(front)) + last;
      assert Flatten(b) == Flatten(front) + last;
      assert (Flatten(a) + Flatten(front)) + last == Flatten(a) + (Flatten(front) + last);
    }
  }

  /** The final loop as intended, with each handle `select_all` completes taken out of `tasks`:
      only the results not handed back yet are awaited, so every task's result is handed back
      exactly once, by `select_all` or by this loop. */
  method AwaitUnharvested(f: Worklist) returns (dropped: seq<Request>)
    requires Valid(f)
    ensures dropped == Dropped(f)
    ensures Flatten(f.outputs[..f.harvested]) + dropped == Flatten(f.outputs)
  {
    dropped := [];
    var i := f.harvested;
    while i < |f.outputs|
      invariant f.harvested <= i <= |f.outputs|
      invariant dropped == Flatten(f.outputs[f.harvested..i])
    {
      assert f.outputs[f.harvested..i + 1][..i - f.harvested] == f.outputs[f.harvested..i];
      dropped := dropped + f.outputs[i];
      i := i + 1;
    }
    assert f.outputs[f.harvested..] == f.outputs[f.harvested..|f.outputs|];
    FlattenAppend(f.outputs[..f.harvested], f.outputs[f.harvested..]);
    assert f.outputs[..f.harvested] + f.outputs[f.harvested..] == f.outputs;
  }

  /** `final_deps`: the original dependencies with every installed name set to its version. */
  function Overridden(deps: map<string, Json>, versions: map<string, string>): (m: map<string, Json>)
    ensures forall k :: k in m <==> k in deps || k in versions
    ensures forall k :: k in m ==> m[k] == if k in versions then JString(versions[k]) else deps[k]
  {
    deps + map k | k in versions :: JString(versions[k])
  }

  /** The final dependencies: the original ones with every installed name set to its recorded
      version, as entries in key order. */
  method SortedDependencies(deps: map<string, Json>, versions: map<string, string>) returns (sorted: seq<(string, Json)>)
    ensures StrictlySorted(EntryKeys(sorted))
    ensures forall k :: k in EntryKeys(sorted) <==> k in deps || k in versions
    ensures forall i :: 0 <= i < |sorted| ==>
      sorted[i].1 == if sorted[i].0 in versions then JString(versions[sorted[i].0]) else deps[sorted[i].0]
  {
    var finalDeps := Overridden(deps, versions);
    var ks := SortedKeys(finalDeps);
    sorted := Entries(finalDeps, ks);
  }

  /** The entries of `m` for the keys `ks`, in that order. */
  function Entries(m: map<string, Json>, ks: seq<string>): (es: seq<(string, Json)>)
    requires forall k :: k in ks ==> k in m
    ensures EntryKeys(es) == ks
    ensures forall i :: 0 <= i < |es| ==> es[i].0 in m && es[i].1 == m[es[i].0]
  {
    seq(|ks|, j requires 0 <= j < |ks| => (ks[j], m[ks[j]]))
  }

  /** How a run of `install` ends: with the manifest written, with an error, or with a panic. */
  datatype RunOutcome = Written(manifest: WrittenManifest) | Aborted(error: string) | Panicked(message: string)

  /** The run of `install`: load or default the manifest, push the command-line requests, run the
      worklist and await the remaining tasks. A run in which `select_all` completed a handle
      panics there, before anything is written; otherwise what the remaining tasks return
      (`dropped`, never processed) is appended and the manifest is produced with the original
      dependencies overridden by the installed versions, in key order. `f` is the state the loop
      ends in. */
  method InstallPackages(packages: seq<string>, manifest: Document, reg: Registry, tarballs: Tarballs)
    returns (r: RunOutcome, f: Worklist, dropped: seq<Request>)
    requires CanonicalDoc(manifest) && CanonicalAnswers(reg, tarballs)
    ensures r.Aborted? <==> InitialDeps(manifest).None?
    ensures r.Aborted? && !manifest.Unparsable? ==> r.error == "Invalid package.json structure"
    ensures !r.Aborted? ==> f == Drain(RegistryEnv(reg, tarballs), Start(packages))
    ensures r.Panicked? <==> !r.Aborted? && f.harvested > 0
    ensures r.Panicked? ==> r.message == PollPanic
    ensures r.Written? ==>
      var deps := InitialDeps(manifest).value;
      var base := BaseManifest(manifest).value;
      var out := r.manifest;
      && dropped == Dropped(f)
      && out.name == Index(base, "name") && out.version == Index(base, "version")
      && out.description == Get(base, "description").GetOr(JString(""))
      && out.license == Get(base, "license").GetOr(JString("MIT"))
      && StrictlySorted(EntryKeys(out.dependencies))
      && (forall k :: k in EntryKeys(out.dependencies) <==> k in deps || k in f.versions)
      && (forall i :: 0 <= i < |out.dependencies| ==>
            var (k, v) := out.dependencies[i];
            v == if k in f.versions then JString(f.versions[k]) else deps[k])
  {
    f := Start(packages);
    dropped := [];
    if manifest.Unparsable? {
      return Aborted("package.json is not valid JSON"), f, dropped;
    }
    var initial := InitialDeps(manifest);
    if initial.None? {
      return Aborted("Invalid package.json structure"), f, dropped;
    }
    var base, deps := BaseManifest(manifest).value, initial.value;
    r, f, dropped := RunAndWrite(RegistryEnv(reg, tarballs), packages, base, deps);
  }

  /** The run once the manifest is loaded: the worklist, the final loop, and the manifest
      written from `base`, its dependencies `deps` and the installed versions. */
  method RunAndWrite(e: Env, packages: seq<string>, base: Json, deps: map<string, Json>)
    returns (r: RunOutcome, f: Worklist, dropped: seq<Request>)
    requires EnvValid(e)
    ensures f == Drain(e, Start(packages)) && !r.Aborted?
    ensures r.Panicked? <==> f.harvested > 0
    ensures r.Panicked? ==> r.message == PollPanic
    ensures r.Written? ==>
      var out := r.manifest;
      && dropped == Dropped(f)
      && out.name == Index(base, "name") && out.version == Index(base, "version")
      && out.description == Get(base, "description").GetOr(JString(""))
      && out.license == Get(base, "license").GetOr(JString("MIT"))
      && StrictlySorted(EntryKeys(out.dependencies))
      && (forall k :: k in EntryKeys(out.dependencies) <==> k in deps || k in f.versions)
      && (forall i :: 0 <= i < |out.dependencies| ==>
            var (k, v) := out.dependencies[i];
            v == if k in f.versions then JString(f.versions[k]) else deps[k])
  {
    dropped := [];
    f := RunWorklist(e, packages);
    var awaited := AwaitRemaining(f);
    match awaited {
      case PolledAgain => return Panicked(PollPanic), f, dropped;
      case Collected(rest) => dropped := rest;
    }
    var out := WriteManifest(base, deps, f.versions);
    r := Written(out);
  }

  /** The manifest written from `base`, its dependencies `deps` and the installed `versions`. */
  method WriteManifest(base: Json, deps: map<string, Json>, versions: map<string, string>) returns (out: WrittenManifest)
    ensures out.name == Index(base, "name") && out.version == Index(base, "version")
    ensures out.description == Get(base, "description").GetOr(JString(""))
    ensures out.license == Get(base, "license").GetOr(JString("MIT"))
    ensures StrictlySorted(EntryKeys(out.dependencies))
    ensures forall k :: k in EntryKeys(out.dependencies) <==> k in deps || k in versions
    ensures forall i :: 0 <= i < |out.dependencies| ==>
      var (k, v) := out.dependencies[i];
      v == if k in versions then JString(versions[k]) else deps[k]
  {
    var sorted := SortedDependencies(deps, versions);
    out := WrittenManifest(Index(base, "name"), Index(base, "version"),
                           Get(base, "description").GetOr(JString("")), Get(base, "license").GetOr(JString("MIT")),
                           sorted);
  }
}
