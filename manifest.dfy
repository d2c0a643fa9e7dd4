/** Manifest and lock-file handling of `src/package.rs`. The project directory is a value: its
    root path, what is stored as `package.json` and as `jpm-lock.json`, and whether files can be
    written there. */
module Manifest {
  import opened Wrappers
  import opened Strings
  import Json

  datatype PackageError = IoError | JsonError | ManifestNotFound | InvalidManifest(msg: string)

  datatype PackageManifest = PackageManifest(
    name: string,
    version: string,
    description: Option<string>,
    author: Option<string>,
    main: Option<string>,
    dependencies: map<string, string>,
    devDependencies: map<string, string>,
    extra: map<string, Json.Json>)

  datatype LockPackage = LockPackage(
    version: string, resolved: string, integrity: string, dependencies: map<string, string>)

  datatype LockFile = LockFile(version: string, packages: map<string, LockPackage>)

  /** A stored file: not there, not readable, not parsable into the type, or a parsed value. */
  datatype Stored<T> = Absent | Unreadable | Malformed | Present(value: T)

  datatype Project = Project(
    rootDir: string,
    manifestFile: Stored<PackageManifest>,
    lockFile: Stored<LockFile>,
    writable: bool)

  /** `PackageManifest::default()`. */
  function DefaultManifest(): (m: PackageManifest)
    ensures m.name == "" && m.version == "0.1.0"
    ensures m.description == None && m.author == None && m.main == None
    ensures m.dependencies == map[] && m.devDependencies == map[] && m.extra == map[]
  {
    PackageManifest("", "0.1.0", None, None, None, map[], map[], map[])
  }

  function Load<T>(f: Stored<T>): (r: Result<T, PackageError>)
    ensures f.Absent? ==> r == Err(ManifestNotFound)
    ensures f.Unreadable? ==> r == Err(IoError)
    ensures f.Malformed? ==> r == Err(JsonError)
    ensures f.Present? ==> r == Ok(f.value)
  {
    match f
    case Absent => Err(ManifestNotFound)
    case Unreadable => Err(IoError)
    case Malformed => Err(JsonError)
    case Present(v) => Ok(v)
  }

  /** `load_manifest`: a missing `package.json` is `ManifestNotFound`. */
  function LoadManifest(p: Project): (r: Result<PackageManifest, PackageError>)
    ensures p.manifestFile.Absent? ==> r == Err(ManifestNotFound)
    ensures r.Ok? <==> p.manifestFile.Present?
    ensures r.Ok? ==> r.value == p.manifestFile.value
  {
    Load(p.manifestFile)
  }

  /** `load_lock_file`: a missing `jpm-lock.json` is also reported as `ManifestNotFound`. */
  function LoadLockFile(p: Project): (r: Result<LockFile, PackageError>)
    ensures p.lockFile.Absent? ==> r == Err(ManifestNotFound)
    ensures r.Ok? <==> p.lockFile.Present?
    ensures r.Ok? ==> r.value == p.lockFile.value
  {
    Load(p.lockFile)
  }

  /** `save_manifest`: creating the file fails in a directory that cannot be written. */
  function SaveManifest(p: Project, m: PackageManifest): (r: (Result<(), PackageError>, Project))
    ensures p.writable ==> r.0.Ok? && r.1 == p.(manifestFile := Present(m))
    ensures !p.writable ==> r.0 == Err(IoError) && r.1 == p
  {
    if p.writable then (Ok(()), p.(manifestFile := Present(m))) else (Err(IoError), p)
  }

  function SaveLockFile(p: Project, l: LockFile): (r: (Result<(), PackageError>, Project))
    ensures p.writable ==> r.0.Ok? && r.1 == p.(lockFile := Present(l))
    ensures !p.writable ==> r.0 == Err(IoError) && r.1 == p
  {
    if p.writable then (Ok(()), p.(lockFile := Present(l))) else (Err(IoError), p)
  }

  /** Rust `Path::file_name`: the last normal component, none for a root, empty or `..` ending. */
  function FileName(path: string): (r: Option<string>)
    ensures r.Some? ==> IsNormal(r.value)
  {
    var comps := NormalComponents(Split(path, '/'));
    if comps == [] || comps[|comps| - 1] == ".." then None else Some(comps[|comps| - 1])
  }

  /** A component that names a file or directory: not empty, not `.` or `..`, no `/`. */
  predicate IsNormal(c: string) {
    c != "" && '/' !in c && c != "." && c != ".."
  }

  /** The components of a split path that a Rust `Path` keeps: empty pieces and `.` go. */
  function NormalComponents(pieces: seq<string>): (r: seq<string>)
    ensures forall i :: 0 <= i < |r| ==> r[i] != "" && r[i] != "." && r[i] in pieces
  {
    if pieces == [] then []
    else
      var rest := NormalComponents(pieces[1..]);
      if pieces[0] == "" || pieces[0] == "." then rest else [pieces[0]] + rest
  }

  lemma {:induction false} NormalComponentsAppend(x: seq<string>, y: seq<string>)
    ensures NormalComponents(x + y) == NormalComponents(x) + NormalComponents(y)
    decreases |x|
  {
    if x == [] {
      assert x + y == y;
    } else {
      assert (x + y)[1..] == x[1..] + y;
      NormalComponentsAppend(x[1..], y);
    }
  }

  /** The components of `base/name`, for a normal `name`, end with `name`; a trailing `/` or
      `/.` changes nothing. */
  lemma ChildComponents(base: string, name: string, tail: string)
    requires IsNormal(name) && (tail == "" || tail == "/" || tail == "/.")
    ensures NormalComponents(Split(base + "/" + name + tail, '/')) ==
            NormalComponents(Split(base, '/')) + [name]
  {
    assert base + "/" + name + tail == base + ['/'] + (name + tail);
    SplitAround(base, name + tail, '/');
    TailComponents(name, tail);
    NormalComponentsAppend(Split(base, '/'), Split(name + tail, '/'));
  }

  /** A normal component followed by nothing, `/` or `/.` is that one component. */
  lemma TailComponents(name: string, tail: string)
    requires IsNormal(name) && (tail == "" || tail == "/" || tail == "/.")
    ensures NormalComponents(Split(name + tail, '/')) == [name]
  {
    SplitWithout(name, '/');
    assert NormalComponents([name]) == [name];
    if tail == "" {
      assert name + tail == name;
    } else {
      var rest := tail[1..];
      assert rest == "" || rest == ".";
      assert '/' !in rest;
      assert name + tail == name + ['/'] + rest;
      SplitAround(name, rest, '/');
      SplitWithout(rest, '/');
      NormalComponentsAppend([name], [rest]);
      assert NormalComponents([rest]) == [];
    }
  }

  /** A path ending in a normal component is named after it, whatever comes before it and with
      or without a trailing `/` or `/.`; a single component names itself. */
  lemma FileNameIsLastComponent(base: string, name: string, tail: string)
    requires IsNormal(name) && (tail == "" || tail == "/" || tail == "/.")
    ensures FileName(base + "/" + name + tail) == Some(name)
    ensures FileName(name) == Some(name)
  {
    ChildComponents(base, name, tail);
    SplitWithout(name, '/');
    assert NormalComponents([name]) == [name];
  }

  /** A path ending in `..`, the root and the empty path have no name. */
  lemma FileNameNone(base: string)
    ensures FileName(base + "/..") == None
    ensures FileName("/") == None && FileName("") == None
  {
    var up := "..";
    assert '/' !in up by { assert up[0] != '/' && up[1] != '/'; }
    SplitWithout(up, '/');
    assert base + "/.." == base + ['/'] + up;
    SplitAround(base, up, '/');
    NormalComponentsAppend(Split(base, '/'), [up]);
    assert NormalComponents([up]) == [up];
    var root: string := "/";
    assert root == [] + ['/'] + [];
    SplitAround([], [], '/');
    SplitWithout([], '/');
    SplitWithout("", '/');
  }

  /** `init_package`: a default manifest named after the project directory, saved. */
  function InitPackage(p: Project): (r: (Result<PackageManifest, PackageError>, Project))
    ensures p.writable ==> r.0.Ok? && r.1 == p.(manifestFile := Present(r.0.value))
    ensures !p.writable ==> r.0 == Err(IoError) && r.1 == p
    ensures r.0.Ok? ==> r.0.value == DefaultManifest().(name := FileName(p.rootDir).GetOr("my-package"))
    ensures r.0.Ok? ==> IsNormal(r.0.value.name) || r.0.value.name == "my-package"
  {
    var name := FileName(p.rootDir).GetOr("my-package");
    var manifest := DefaultManifest().(name := name);
    var (saved, p') := SaveManifest(p, manifest);
    if saved.Err? then (Err(saved.error), p') else (Ok(manifest), p')
  }

  /** A project in `<base>/<name>` is initialised with the name `<name>`; one at the root is
      called "my-package". */
  lemma InitPackageNamesAfterDir(p: Project, base: string, name: string)
    requires p.writable && IsNormal(name)
    ensures p.rootDir == base + "/" + name ==> InitPackage(p).0 == Ok(DefaultManifest().(name := name))
    ensures p.rootDir == "/" ==> InitPackage(p).0 == Ok(DefaultManifest().(name := "my-package"))
  {
    FileNameIsLastComponent(base, name, "");
    assert base + "/" + name + "" == base + "/" + name;
    FileNameNone(base);
  }

  /** `add_dependency`: an insert into `devDependencies` or `dependencies`, then a save. */
  function AddDependency(p: Project, name: string, version: string, isDev: bool): (r: (Result<(), PackageError>, Project))
    ensures LoadManifest(p).Err? ==> r == (Err(LoadManifest(p).error), p)
    ensures p.manifestFile.Absent? ==> r.0 == Err(ManifestNotFound) && r.1 == p
    ensures p.manifestFile.Present? && p.writable ==> r.0.Ok? && r.1.manifestFile.Present?
    ensures p.manifestFile.Present? && !p.writable ==> r == (Err(IoError), p)
    ensures r.0.Ok? ==> p.manifestFile.Present? && r.1.manifestFile.Present?
    ensures r.0.Ok? ==> var old_ := p.manifestFile.value; var new_ := r.1.manifestFile.value;
      && (if isDev then new_.devDependencies == old_.devDependencies[name := version]
          else new_.dependencies == old_.dependencies[name := version])
      && (if isDev then new_.dependencies == old_.dependencies
          else new_.devDependencies == old_.devDependencies)
      && new_ == old_.(dependencies := new_.dependencies, devDependencies := new_.devDependencies)
    ensures r.1.lockFile == p.lockFile && r.1.rootDir == p.rootDir
  {
    match LoadManifest(p)
    case Err(e) => (Err(e), p)
    case Ok(manifest) =>
      var updated :=
        if isDev then manifest.(devDependencies := manifest.devDependencies[name := version])
        else manifest.(dependencies := manifest.dependencies[name := version]);
      SaveManifest(p, updated)
  }

  /** `remove_dependency`: the name leaves both maps; the manifest is saved only when it was in
      one of them, and the answer says whether it was. */
  function RemoveDependency(p: Project, name: string): (r: (Result<bool, PackageError>, Project))
    ensures LoadManifest(p).Err? ==> r == (Err(LoadManifest(p).error), p)
    ensures p.manifestFile.Present? ==>
      var m := p.manifestFile.value;
      var listed := name in m.dependencies || name in m.devDependencies;
      && (!listed ==> r == (Ok(false), p))
      && (listed && p.writable ==> r.0 == Ok(true) && r.1 == p.(manifestFile := Present(
            m.(dependencies := m.dependencies - {name}, devDependencies := m.devDependencies - {name}))))
      && (listed && !p.writable ==> r == (Err(IoError), p))
  {
    match LoadManifest(p)
    case Err(e) => (Err(e), p)
    case Ok(manifest) =>
      var removedFromDeps := name in manifest.dependencies;
      var removedFromDevDeps := name in manifest.devDependencies;
      var updated := manifest.(dependencies := manifest.dependencies - {name},
                               devDependencies := manifest.devDependencies - {name});
      if removedFromDeps || removedFromDevDeps then
        var (saved, p') := SaveManifest(p, updated);
        if saved.Err? then (Err(saved.error), p') else (Ok(true), p')
      else (Ok(false), p)
  }

  /** Adding and then removing a dependency reports it as removed and leaves it in neither map;
      removing it again finds nothing and saves nothing. */
  lemma AddThenRemove(p: Project, name: string, version: string, isDev: bool)
    requires p.manifestFile.Present? && p.writable
    ensures var (_, p1) := AddDependency(p, name, version, isDev);
      var (removed, p2) := RemoveDependency(p1, name);
      && removed == Ok(true)
      && p2.manifestFile.Present?
      && name !in p2.manifestFile.value.dependencies
      && name !in p2.manifestFile.value.devDependencies
      && RemoveDependency(p2, name) == (Ok(false), p2)
  {
  }
}
