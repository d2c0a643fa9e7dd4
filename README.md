# jpm install pipelines, in Dafny

This project models the core of jpm (the Jam Package Manager). jpm installs npm packages into `node_modules`,
and it has two code paths: a Rust one and a C++ one.

- **Rust path.** `install_packages` turns `name[@version]` arguments into install requests. It then runs a
  worklist: each request is looked up in the npm registry, its exact version is chosen, its tarball is
  unpacked into `node_modules/<name>` (with the leading `package/` stripped), and the dependencies that
  package declares become new requests. Finally it writes a key-sorted `dependencies` object back to
  `package.json`. The helpers around it are modelled too:
  - `npm_installer.rs`: single-package install and tarball extraction;
  - `installer.rs`: `node_modules` layout and `.bin` links;
  - `package.rs`: manifest and lock file;
  - `util.rs`: scoped-name normalisation;
  - `resolver.rs`: the stub resolver.
- **C++ path.** `main` strips the verbose flags and dispatches the command. `InstallCommand::execute` then
  parses each argument into a `PackageSpec` and resolves it with `DependencyResolver`. The resolver fetches
  registry metadata, caches complete entries, detects cycles with a per-branch path, de-duplicates installs
  by `name@version` and accumulates error messages. Every resolved tarball is then downloaded, and
  `./node_modules` is created through `FileUtils::create_directory_recursively`.
- **Embedded JavaScript runtime.** Two small data structures are modelled:
  - `ModuleSystem`, which handles `require` resolution through `./`, `../` and `node_modules` up to the
    root, plus the module cache, builtin modules, the code wrapper and the minimal `events` emitter;
  - `ProcessEventEmitter`, which is the process-wide listener table behind `process.on`, together with the
    integer arithmetic of `process.hrtime`.

Network answers, archives and JSON documents are abstract values:
- A registry is a map from name (or URL) to its answer. A missing key is a failed request.
- A tarball is its `(path components, is-directory)` entries, files and directories only, plus what parsing the unpacked `package.json` gives; that document is read only when an entry put something at `<package directory>/package.json`.
- A JSON document is a `Json` value as the parser hands it over (`Json.Canonical`): object entries in the library's iteration order, which is increasing key order, keys unique.

The filesystem is the class `Fs.Disk`. It holds the directories, files and symbolic links that exist, and
the set of paths the operating system refuses to create.

Code that updates state step by step is imperative Dafny:
- the C++ resolver, the install loop, `create_directory_recursively` and `main`;
- the module system and the process emitter;
- tarball extraction and bin linking;
- the Rust worklist driver.

Each of these methods is proved against a specification function. The properties that matter are lemmas
about those functions. The decisions made from values alone are plain functions: spec splitting, version
choice, install directories, manifest edits, `to_string` and `normalize_package_name`.

Files: `wrappers.dfy`, `strings.dfy`, `ordering.dfy`, `json.dfy`, `fs.dfy` and `js_values.dfy` are shared
helpers. Every other file models one source file.

## Model

| member | source | states |
|---|---|---|
| RustInstall.SplitSpec | src/main.rs:137-145 | A spec without `@` gives `(spec, "latest")`; otherwise name ++ "@" ++ version is the spec and the name has no `@` (it splits at the first `@`). |
| RustInstall.ScopedSpecLosesName | src/main.rs:137-145 | A spec starting with `@` gets the empty name and the rest as its version. |
| RustInstall.ExactVersion | src/main.rs:175-183 | "latest" becomes the `dist-tags.latest` string when there is one, else stays "latest"; any other request is used verbatim. |
| RustInstall.InstallDir | src/main.rs:186-195 | The install directory is `node_modules` joined with the name. |
| RustInstall.ScopedDirIsJoin | src/main.rs:186-195 | For a scoped name that splits on `/` into exactly two parts, joining the parts one by one gives the same directory as joining the whole name. |
| RustInstall.ScopedInstallDir | src/main.rs:186-195 | `@scope/pkg` installs to `node_modules/@scope/pkg`. |
| RustInstall.DerivedVersion | src/main.rs:220-225 | A string is stripped of all leading `^` then all leading `~`; a non-string becomes "latest". |
| RustInstall.DerivedRequests | src/main.rs:210-231 | An unpacked `package.json` that is missing or does not parse yields no requests; otherwise one request per entry of an object `dependencies`, in order, with the derived version. |
| Metadata.StripRange | src/main.rs:223-224 | The result is the input less a leading run of `^` followed by a leading run of `~`, each run as long as possible: what is left starts with no `~`, and with no `^` when the `~` run is empty. |
| Metadata.TrimmedByIsStrip | src/main.rs:223-224 | Any split of the input into a `^` run, a `~` run and a rest that starts with neither (no `^` only after an empty `~` run) is the one `StripRange` makes. |
| Metadata.TrimmedOfUnique | src/main.rs:223-224 | Two results that both remove such maximal runs from the same input are equal. |
| Metadata.StripRangeOrder | src/npm_installer.rs:53 | Carets are stripped before tildes: `^~1.2` becomes `1.2` but `~^1.2` becomes `^1.2`. |
| Metadata.StripRangeOnce | src/main.rs:223-224 | Each run is removed once: `^^~~^1` becomes `^1`, the `^` after the `~` run staying. |
| RustInstall.Destinations | src/main.rs:328-350 | One destination per archive entry: the install directory joined with the entry path, with `package` stripped when any entry starts with it. |
| RustInstall.DestinationsInside | src/main.rs:340-345 | Every destination lies inside the install directory when the entry paths have proper components. |
| RustInstall.DownloadAndInstall | src/main.rs:285-357 | An unknown name gives `Ok(false)`. A missing tarball URL is an error. Success happens exactly when the URL is known and its archive reads, and it lists the destinations written. The unpacked `package.json` is the archive's document when a destination is `<install dir>/package.json`, and `Missing` otherwise, so no requests are derived then. |
| RustInstall.ManifestLands | src/main.rs:211-213 | An entry whose relative path, after the prefix is stripped, is `package.json` lands where the task reads the manifest. |
| RustInstall.RegistryEnv | src/main.rs:169-183 | Only names the registry knows resolve, each to its exact version. |
| RustInstall.Task | src/main.rs:157-235 | An installed name yields nothing and changes nothing. Otherwise the name is recorded at its exact version exactly when the install succeeds, and then it yields the derived requests. Earlier versions are never changed. |
| RustInstall.Roots | src/main.rs:137-145 | The initial requests are the split arguments, in order. |
| RustInstall.Start | src/main.rs:131-145 | The worklist starts with the roots pending, nothing installed and no task spawned. |
| RustInstall.Step | src/main.rs:151-245 | One loop round pops the last request and runs its task, then does `Advance`'s bookkeeping. |
| RustInstall.Advance | src/main.rs:151-245 | The popped request joins the processed ones and the spawned task's result joins the earlier results. From the 8th spawn on, the oldest result not handed back is pushed onto the pending stack; the rest of the stack stays below it. |
| RustInstall.AdvanceWork | src/main.rs:151-245 | A round whose task returned no requests leaves exactly one request less to come. |
| RustInstall.HarvestsFromEight | src/main.rs:151-245 | A run hands a result back through `select_all` exactly when it pops 8 or more requests, so always when 8 or more packages are named. |
| RustInstall.StepKeeps | src/main.rs:151-245 | A round pops exactly the last request, keeps the rest pending, never overwrites a version, and preserves `Justified` (every version came from its own request) and `Handled` (every popped request is installed or does not install). |
| RustInstall.StepProgress | src/main.rs:151-245 | A round decreases the termination measure: the count of names not yet installed, then the remaining work. |
| RustInstall.Drain | src/main.rs:151-245 | The loop as written ends with nothing pending. |
| RustInstall.DrainKeeps | src/main.rs:151-245 | Every pending request is eventually popped, and recorded versions are never overwritten. |
| RustInstall.DrainInvariants | src/main.rs:151-245 | The loop preserves `Justified` and `Handled`. |
| RustInstall.DrainFromStart | src/main.rs:137-245 | Every command-line request is popped, every installed name was requested and installs at the version it resolved to, and every popped request was installed or does not install. |
| RustInstall.TransitiveDependencyDropped | src/main.rs:247-252 | With `a` depending on `b`, installing `a` records only `a`: `b` comes back from the final loop only and is never installed, while the corrected loop installs it. |
| RustInstall.StepAll | src/main.rs:151-252 | The corrected round puts each spawned result back on the pending stack at once. |
| RustInstall.StepAllKeeps | src/main.rs:151-252 | The corrected round keeps the same facts as a round as written, plus closure: each installed package's requests are pending or popped. |
| RustInstall.DrainAllProgress | src/main.rs:151-252 | A corrected round decreases the termination measure. |
| RustInstall.DrainAll | src/main.rs:151-252 | The corrected loop ends with nothing pending. |
| RustInstall.DrainAllKeeps | src/main.rs:151-252 | Every pending request is popped and no version is overwritten by the corrected loop. |
| RustInstall.DrainAllInvariants | src/main.rs:151-252 | The corrected loop preserves closure and `Handled`. |
| RustInstall.DrainAllVersionsKept | src/main.rs:200-203 | Versions recorded before the corrected loop starts are kept. |
| RustInstall.DrainAllInstallsDependencies | src/main.rs:151-252 | With every result processed, every requested package and every dependency of an installed package ends up installed, unless installing it alone fails. |
| RustInstall.DefaultManifest | src/main.rs:116-122 | The manifest used when there is no `package.json` has an empty `dependencies` object. |
| RustInstall.BaseManifest | src/main.rs:112-123 | A missing `package.json` gives the default manifest, a parsed one is used as is, and one that is not JSON is an error. |
| RustInstall.InitialDeps | src/main.rs:125-128 | The dependencies are the base manifest's `dependencies` object; a missing manifest gives none. |
| RustInstall.PushRoots | src/main.rs:137-145 | The loop over the command-line specs pushes exactly `Roots(packages)`. |
| RustInstall.RunWorklist | src/main.rs:151-245 | The worklist loop computes `Drain` from the start state. |
| RustInstall.AwaitRemaining | src/main.rs:237-252 | `select_all` leaves the handles it completed in `tasks`, so once any result was handed back the final loop polls a completed handle again and panics; when none was, it collects every task's requests in spawn order. |
| RustInstall.AwaitUnharvested | src/main.rs:247-252 | The corrected final loop awaits only the results not handed back: those and the handed-back ones together are every task's requests, in spawn order. |
| RustInstall.SortedDependencies | src/main.rs:254-264 | The output keys are strictly sorted and are exactly the original and the installed names; an installed name maps to its version string, any other name keeps its old value. |
| RustInstall.Overridden | src/main.rs:254-260 | The final keys are the original and the installed names; an installed name maps to its version string, any other keeps its old value. |
| RustInstall.InstallPackages | src/main.rs:104-283 | An error happens exactly when the manifest has no usable `dependencies`. Otherwise the loop is `Drain` from the start state, and the run panics with "JoinHandle polled after completion" exactly when that loop handed back a result. A written manifest copies `name` and `version`, defaults `description` to "" and `license` to "MIT", and its dependencies are the sorted merge of the original and installed ones. |
| NpmInstaller.ResolveVersion | src/npm_installer.rs:44-54 | "latest" and the literal "^1.0.0" both give `dist-tags.latest`, or the error "Could not find latest version". Any other request is stripped of leading `^` then `~`. |
| NpmInstaller.CaretOneIsLatest | src/npm_installer.rs:45 | "^1.0.0" resolves like "latest", while "^1.0.1" resolves to "1.0.1". |
| NpmInstaller.PlanInstall | src/npm_installer.rs:17-68 | A non-success registry status means `NotFound`. A missing latest tag or tarball URL gives the source's error message. A fetch uses the resolved version's `dist.tarball` and `node_modules` joined with the raw name. |
| NpmInstaller.ScopedPackageDir | src/npm_installer.rs:68 | A scoped name's package directory nests as `node_modules/@scope/pkg`. |
| NpmInstaller.Cleared | src/npm_installer.rs:67-77 | Removing what is at the package directory fails exactly when a non-directory is there. Otherwise nothing is at the path afterwards; when something was, exactly the directories, files and links outside it remain, links keeping their targets. |
| NpmInstaller.Prepare | src/npm_installer.rs:67-80 | On success the package directory exists. When it was absent, only it and its ancestors are added. When it was present, every old file under it is gone. Every file, directory and link outside it is kept. An existing file fails, and so does a symbolic link there (the links are listed under Left out). |
| NpmInstaller.InstallPackage | src/npm_installer.rs:11-149 | `Ok(false)` with the disk untouched when the package is not found; each planning error with its message and the disk untouched. Otherwise the directory is prepared: a non-directory there gives "Failed to remove existing directory for package <name>" with the disk untouched, and a failed creation gives "Failed to create directory for package <name>" with the old directory already removed. Then the tarball is fetched: "Failed to download tarball" when unreachable, `Ok(false)` on a non-success status, "Failed to read archive entry" when its first entry cannot be read; otherwise the entries are unpacked by `Tarball.Unpacked`. A failed parent creation is "Failed to create directory" and a failed unpack "Failed to unpack entry". When something is at `<pkgDir>/package.json` after unpacking and the document is unparsable, the result is "Invalid package.json"; anything else is `Ok(true)`. |
| NpmInstaller.PreparePackageDir | src/npm_installer.rs:67-80 | A non-directory at the path gives "Failed to remove existing directory for package <name>" and leaves the disk unchanged. Otherwise the disk is first `Cleared`'s state; a failed `create_dir_all` then gives "Failed to create directory for package <name>" with the disk in that state, and success leaves it with the directory and its ancestors added. |
| NpmInstaller.FetchAndUnpack | src/npm_installer.rs:82-149 | An unreachable URL gives "Failed to download tarball" and a non-success status `Ok(false)`, both with the disk untouched. An archive whose first entry cannot be read gives "Failed to read archive entry" with nothing written. Otherwise the disk is the state `Unpacked` reaches, and a failed step carries its own message. "Invalid package.json" comes only when something is at `<pkgDir>/package.json` after unpacking and the document is unparsable; an empty archive, or one with no such entry, gives `Ok(true)`. |
| Tarball.RelativePath | src/npm_installer.rs:136-140 | With the prefix chosen, a leading `package` component is removed; every other path is kept verbatim. |
| Tarball.TargetInside | src/npm_installer.rs:141-143 | An entry lands at `dir/` ++ its path, and its parent is created first. |
| Tarball.DetectPrefix | src/npm_installer.rs:113-127 | The first pass collects the paths and reports whether any starts with `package`. |
| Tarball.EntryOutcome | src/npm_installer.rs:133-147 | One entry succeeds exactly when its operations run, reaching the same state; an entry with an empty relative path never fails at its parent. |
| Tarball.ExtractEntry | src/npm_installer.rs:133-147 | One entry means creating its parent, then unpacking it as a directory or a file; the step that failed and the new disk are `EntryOutcome`'s. |
| Tarball.Extract | src/npm_installer.rs:110-149 | The second pass unpacks the entries in order and stops at the first failure, which it names; outcome and disk are those of `Unpacked`. |
| Tarball.UnpackedIsRun | src/npm_installer.rs:129-149 | The second pass succeeds exactly when the whole extraction plan runs, and it reaches the same state. |
| Tarball.UnpackedFrom | src/npm_installer.rs:132-149 | The pass over the entries from `i` on is the outcome of entry `i` followed, unless that failed, by the pass from `i + 1`. |
| Tarball.LandingPlanned | src/npm_installer.rs:132-147 | Every entry's landing operation is part of the extraction plan. |
| Tarball.ExtractionLands | src/npm_installer.rs:110-149 | After a successful extraction, every entry is a file or directory at its target (prefix stripped), and nothing that existed disappears. |
| Tarball.NoLinks | src/npm_installer.rs:141-147 | In this model, whose archives hold only file and directory entries, extraction adds no symbolic links and keeps every existing one. |
| Installer.Layout | src/installer.rs:25-26 | The package directory is `project/node_modules/<name>` and the bin directory is `project/node_modules/.bin`. |
| Installer.InstallFromTarball | src/installer.rs:24-41 | `node_modules` is created only when absent, and its failure is reported. The target is the package directory. An extraction failure is "Failed to extract package <name>". |
| Installer.ObjectLinks | src/installer.rs:95-113 | One link per string-valued entry of an object `bin`, named by its key; non-string values are skipped. |
| Installer.BinLinks | src/installer.rs:78-116 | A string `bin` gives exactly one link named after the package, an object gives `ObjectLinks`, and any other type gives none. |
| Installer.LinkOps | src/installer.rs:86-106 | Each planned link becomes one symlink operation, in order. |
| Installer.LinksMade | src/installer.rs:86-106 | When every symlink succeeds, each planned link exists and points at its source. |
| Installer.LinksOnly | src/installer.rs:86-106 | Linking never changes directories or files. |
| Installer.LinkBinaries | src/installer.rs:44-119 | No `package.json` or no `bin` means nothing is done. An unparsable file is an error. When `bin` has any type, `.bin` is ensured; then the planned links are made in order, stopping at the first failure, and earlier links remain. A failed link is "Failed to create symlink for <name>": the package's name for a string `bin`, and for an object the key `FailingKey` gives. |
| Installer.LinkEach | src/installer.rs:97-113 | The loop over an object `bin` performs the planned link operations and succeeds exactly when all do; a failure names the key `FailingKey` gives. |
| Installer.FailingKey | src/installer.rs:97-113 | A key is named exactly when some planned link of the object cannot be made. |
| Installer.FailingKeyIsFirst | src/installer.rs:97-113 | The named key is a string entry whose link fails after the links of all entries before it were made. |
| Json.LookupCanonical | src/installer.rs:65-68 | In a document as the parser hands it over, `get` finds the one entry with its key, and reading the object as a map gives that same value. |
| Manifest.DefaultManifest | src/package.rs:44-57 | Name is "" and version is "0.1.0"; all optional fields are `None`; both dependency maps and the extra fields are empty. |
| Manifest.Load | src/package.rs:90-101 | An absent file is `ManifestNotFound`, an unreadable one `IoError`, a malformed one `JsonError`; otherwise the stored value. |
| Manifest.LoadManifest | src/package.rs:90-101 | A missing `package.json` is `ManifestNotFound`; a present one loads as its value. |
| Manifest.LoadLockFile | src/package.rs:115-126 | A missing `jpm-lock.json` is `ManifestNotFound`; a present one loads as its value. |
| Manifest.SaveManifest | src/package.rs:104-112 | A save stores the manifest when the project is writable, otherwise it is `IoError` and nothing changes. |
| Manifest.SaveLockFile | src/package.rs:129-137 | The same for the lock file. |
| Manifest.FileName | src/package.rs:142-146 | A root directory's file name, when there is one, is a single non-empty component other than `.` and `..`. |
| Manifest.FileNameIsLastComponent | src/package.rs:142-146 | A path `base/name`, with or without a trailing `/` or `/.`, is named `name`, and a single component names itself. |
| Manifest.FileNameNone | src/package.rs:142-146 | A path ending in `..`, the root and the empty path have no file name. |
| Manifest.InitPackage | src/package.rs:140-157 | The default manifest named after the root directory's file name, or "my-package", saved when the project is writable; `IoError` otherwise. |
| Manifest.InitPackageNamesAfterDir | src/package.rs:140-157 | A project in `base/name` is initialised with the name `name`; one at `/` is called "my-package". |
| Manifest.AddDependency | src/package.rs:160-176 | Without a manifest the error is `ManifestNotFound` and nothing is saved. Otherwise the name is inserted into or overwritten in exactly the map `isDev` chooses: the other map and every other field are unchanged, and the lock file is never touched. |
| Manifest.RemoveDependency | src/package.rs:179-191 | The name leaves both maps. The answer is `true` exactly when it was in one of them, and the manifest is saved only in that case. |
| Manifest.AddThenRemove | src/package.rs:160-191 | Adding then removing a dependency reports `true` and leaves the name in neither map; removing it again reports `false` and saves nothing. |
| Util.NormalizePackageName | src/util.rs:104-112 | A name not starting with `@` is returned unchanged, and a scoped one keeps its `@`. |
| Util.NormalizeScoped | src/util.rs:107-109 | A scoped name's output has no `/`, and its length grows by 2 for each `/`. |
| Util.NormalizeScopedRoundTrip | src/util.rs:107-109 | Without `%` in the name, decoding each `%2f` back to `/` restores the name, so every other character is kept in order. |
| Util.NormalizeIdempotent | src/util.rs:104-112 | Normalising twice equals normalising once. |
| RustResolver.DependencyResolver.constructor | src/resolver.rs:53-58 | The resolver stores the registry URL and starts with an empty cache. |
| RustResolver.DependencyResolver.Resolve | src/resolver.rs:61-65 | Every call fails with `PackageNotFound`, whose message contains the name, whatever the version request. |
| RustResolver.BuildTreeWith | src/resolver.rs:68-83 | An empty map gives `Ok(empty)`. On `Ok` the keys are the input's keys and each value is what resolving that key gave. An error is some key's resolve error. |
| RustResolver.DependencyResolver.BuildDependencyTree | src/resolver.rs:68-83 | The same with the stub `resolve`: every non-empty map fails with `PackageNotFound`. |
| PackageSpec.Default | src/package/package_spec.h:14 | The name is "" and the requirement is "latest". |
| PackageSpec.Named | src/package/package_spec.h:16-17 | A spec built without a version gets "latest". |
| PackageSpec.ToString | src/package/package_spec.h:22-27 | The bare name when the requirement is "" or "latest"; otherwise name ++ "@" ++ requirement. |
| PackageSpec.ToStringInjective | src/package/package_spec.h:22-27 | For `@`-free names, equal strings mean equal names and equal requirements, up to the two spellings of latest. |
| CppResolver.VersionToFetch | src/package/dependency_resolver.cpp:147-162 | The result is "latest" or the request itself. |
| CppResolver.VersionToFetchMeaning | src/package/dependency_resolver.cpp:147-162 | The request is kept exactly when it is non-empty and either "latest" or free of `^ ~ x * > <`, and what is fetched is never a range. |
| CppResolver.RangesFetchLatest | src/package/dependency_resolver.cpp:147-162 | "^1.2.3", "1.x" and "" fetch "latest", while "1.2.3" fetches itself. |
| CppResolver.StringDeps | src/package/dependency_resolver.cpp:213-219 | The kept dependencies are exactly the string-valued members, each with its own string. |
| CppResolver.ParseInfo | src/package/dependency_resolver.cpp:180-219 | A failed request, a body that is not JSON, a null body, or a string `error` member all give the empty info. Any other info carries the requested name. A complete info has the document's `version`, its `dist.tarball` and its string dependencies. |
| CppResolver.AppendError | src/package/dependency_resolver.cpp:75-76 | The accumulator is extended and ends with the new message, with `"; "` between messages and no separator into an empty one. |
| CppResolver.ExtendsTransitive | src/package/dependency_resolver.cpp:83-97 | First-wins growth of the install map is transitive. |
| CppResolver.SpecIdInjective | src/package/dependency_resolver.cpp:50 | For requirements without `@`, equal `name@requirement` ids mean equal specs. |
| CppResolver.SpecIdSplits | src/package/dependency_resolver.cpp:50 | With an `@` in a requirement two specs share an id: `a` at `b@c` and `a@b` at `c`. |
| CppResolver.DepStep | src/package/dependency_resolver.cpp:99-137 | Resolving one more dependency keeps the closure bookkeeping of the dependency loop. |
| CppResolver.DependencyResolver.Response | src/package/dependency_resolver.cpp:180-185 | A request succeeds exactly for the URLs the HTTP client answers. |
| CppResolver.DependencyResolver.FetchAndParse | src/package/dependency_resolver.cpp:146-237 | A cache hit returns the cached info without fetching. A miss parses the registry's answer for `name/versionToFetch` and caches it, under the spec's key, only when complete. Entries are only ever added. |
| CppResolver.DependencyResolver.FetchKnown | src/package/dependency_resolver.cpp:146-237 | What is fetched and cached names only dependencies that some registry document names. |
| CppResolver.DependencyResolver.FetchPlain | src/package/dependency_resolver.cpp:146-237 | When no registry requirement has an `@`, neither has any fetched or cached one. |
| CppResolver.DependencyResolver.FetchIdempotent | src/package/dependency_resolver.cpp:146-237 | Fetching the same spec again gives the same info and leaves the cache as it is. |
| CppResolver.DependencyResolver.ResolveRecursive | src/package/dependency_resolver.cpp:45-144 | A spec id already on the path succeeds with nothing changed. Missing info fails with nothing changed but the accumulator, which gets "Could not retrieve valid package info for <id>". A complete info is cached under the spec's key and its `name@version` is in the install map afterwards: a key already present succeeds with map and errors unchanged, a new key is recorded with that info. The map only grows, an existing key is never overwritten, and success happens exactly when no error was added. On success the spec is settled, and with `@`-free requirements every entry outside the open branch has all its dependencies settled. |
| CppResolver.DependencyResolver.Record | src/package/dependency_resolver.cpp:83-137 | A new info is recorded under its key before its dependencies are resolved, and stays. |
| CppResolver.DependencyResolver.ResolveDependencies | src/package/dependency_resolver.cpp:99-137 | Every dependency is resolved on a copy of the path, even after a failure, and the branch succeeds exactly when no error was added. On success every dependency not on the path is settled (cached, complete and recorded in the install map); with `@`-free requirements every one is. |
| CppResolver.DependencyResolver.Resolve | src/package/dependency_resolver.cpp:17-43 | On success the packages are exactly the values of an install map, in strictly increasing `name@version` order, each stored under its own key and complete. That map holds the root's info, and with `@`-free requirements it is closed under dependencies. An incomplete root fails with "Could not retrieve valid package info for <id>". Any failure has no packages and a message starting with that text, so the "Unknown error" fallback cannot trigger. |
| CppResolver.InKeyOrder | src/package/dependency_resolver.cpp:31-34 | The values of the install map, each once, in strictly increasing key order. |
| InstallCommand.VersionPart | src/install/install.cpp:61-62 | An empty version part means "latest". |
| InstallCommand.ParseArgAsWritten | src/install/install.cpp:56-64 | The whole argument is the name exactly when it is empty, starts with `@` or has no `@`. Otherwise the name is the `@`-free prefix before the first `@`, and the version is never empty. |
| InstallCommand.ScopedVersionIgnored | src/install/install.cpp:59-64 | As written, `@types/node@18.0.0` parses to the name `@types/node@18.0.0` with "latest"; the corrected parser gives `@types/node` with `18.0.0`. |
| InstallCommand.ParseArg | src/install/install.cpp:56-64 | The corrected parser splits at the first `@` after index 0. |
| InstallCommand.ParseArgInvertsToString | src/install/install.cpp:56-64 | The corrected parser inverts `PackageSpec::to_string` for names whose only `@` is their first character. |
| InstallCommand.ParsersAgreeUnscoped | src/install/install.cpp:59-64 | Both parsers agree on every argument not starting with `@`. |
| InstallCommand.DownloadAll | src/install/install.cpp:122-138 | `all_ok` holds exactly when every download succeeds. |
| InstallCommand.OutcomeOf | src/install/install.cpp:95-148 | A resolution failure, an empty resolution (up to date) or an installation; it is `Installed` exactly when every download succeeds. |
| InstallCommand.InstallCommand.Execute | src/install/install.cpp:23-164 | No arguments means no packages and no disk change. When `./node_modules` is missing and cannot be created, the run aborts before any package. Otherwise there is one report per argument, in order, for the spec `find('@')` parses, and a failure never stops later arguments. |
| InstallCommand.InstallCommand.InstallEach | src/install/install.cpp:53-157 | One outcome per argument. Each is for the spec the program parses (`ParseArgAsWritten`), a resolution failure carries the resolver's message, and an installation lists complete packages and is OK exactly when all downloads succeed. |
| InstallCommand.InstallCommand.ResolveArg | src/install/install.cpp:71-93 | One `resolve` call: the result is for the spec, and it is a non-empty list of complete packages or a retrieval error. |
| FileUtils.SeparatorPrefixesExact | src/utils/file_utils.cpp:36-38 | The visited prefixes are exactly those that end before a `/` or `\` at the start index or later. |
| FileUtils.Prefixes | src/utils/file_utils.cpp:36-38 | The search starts at index 1, so each visited prefix is a non-empty proper prefix of the path. |
| FileUtils.MakeEachEffect | src/utils/file_utils.cpp:36-49 | The prefix loop only adds directories, only at visited prefixes. On success every prefix exists. On failure it stopped at a missing, refused prefix, having created only earlier ones. |
| FileUtils.CreateShortCircuits | src/utils/file_utils.cpp:18-34 | An empty path gives false with no change. An existing directory gives true unchanged, and an existing non-directory gives false unchanged. |
| FileUtils.CreateEffect | src/utils/file_utils.cpp:17-64 | Only directories are added, at the visited prefixes and the path itself. On true, the path and every prefix exist. On a refused `mkdir`, nothing after the refused prefix or path was created. |
| FileUtils.CreateDirectoryRecursively | src/utils/file_utils.cpp:17-64 | The method's result and new disk state are those of `CreateRecursively`. |
| FileUtils.MakePrefixes | src/utils/file_utils.cpp:36-49 | The `while` loop over `last_slash` performs `MakeEach` over the visited prefixes. |
| Cli.FirstVerbose | src/main.cpp:19-21 | The index of the first `-v`/`--verbose`, with none before it, or none at all. |
| Cli.RemoveAt | src/main.cpp:25 | `erase` removes exactly the element at the index. |
| Cli.RemoveFlag | src/main.cpp:25 | Erasing a verbose flag keeps every other argument in order and removes exactly one flag. |
| Cli.StripVerboseEffect | src/main.cpp:19-34 | Verbose is set exactly when a flag occurs. The other arguments stay in order, and what remains is `DropFlags(args, 2)`: the first two flags go while any later ones stay. |
| Cli.StripVerboseDrops | src/main.cpp:19-34 | The two `find`/`erase` rounds leave exactly the arguments `DropFlags(args, 2)` keeps. |
| Cli.DropFirst | src/main.cpp:19-25 | Erasing the first flag and then dropping `n` flags is dropping `n + 1` flags. |
| Cli.Dispatch | src/main.cpp:37-86 | `--version` wins and exits 0. No arguments prints usage and exits 1. `install`/`run` without arguments or an unknown command exits 1. Otherwise the command gets `args[1..]` and exits 0. |
| Cli.Launch | src/main.cpp:12-87 | The arguments are `argv[1..]`, built by `push_back`. Verbose is set exactly when a flag occurs after the program name. |
| Cli.VersionWins | src/main.cpp:37-44 | `--version` anywhere after the program name exits 0 before dispatch. |
| Cli.ExitCodes | src/main.cpp:46-86 | The exit code is 0 exactly when `--version` is given, or when `install`/`run` has at least one argument. |
| ModuleSystem.ParentPath | src/js/module.cpp:137-141 | The parent equals the path only at "" and `/`; otherwise it is a shorter prefix. |
| ModuleSystem.Ancestors | src/js/module.cpp:104-142 | The search visits the working directory, then each parent in turn, ending at the first directory that is its own parent. |
| ModuleSystem.MainFieldReadsValue | src/js/module.cpp:117-121 | For content `before ++ "main" ++ file ++ "` ++ after`, the crude extraction reads exactly `file`, provided `before` and `file` have no quote. |
| ModuleSystem.MainFieldWraps | src/js/module.cpp:118-121 | When no quote follows the key, `npos + 1` wraps to 0: `{"main"}` yields `{`. |
| ModuleSystem.WrapModuleCode | src/js/module.cpp:189-193 | The wrapped code is the fixed prefix ++ code ++ the fixed suffix. |
| ModuleSystem.WrapInjective | src/js/module.cpp:189-193 | The wrapped code determines the code. |
| ModuleSystem.ModuleSystem.EntryPoint | src/js/module.cpp:113-133 | A package offers its existing `"main"` file, else its existing `index.js`, else nothing. |
| ModuleSystem.ModuleSystem.Candidate | src/js/module.cpp:107-134 | A directory offers something only when `node_modules/<name>` exists there, and what it offers exists. |
| ModuleSystem.ModuleSystem.FirstCandidate | src/js/module.cpp:104-144 | Whatever the search finds exists. |
| ModuleSystem.ModuleSystem.FirstCandidateNone | src/js/module.cpp:104-144 | The search finds nothing exactly when no visited directory offers the package. |
| ModuleSystem.ModuleSystem.FirstCandidateWins | src/js/module.cpp:104-144 | The first directory, in order, that offers the package wins. |
| ModuleSystem.ModuleSystem.FindPackageInNodeModules | src/js/module.cpp:103-145 | The loop from the working directory up to the root computes `FirstCandidate` over `Ancestors`. |
| ModuleSystem.ModuleSystem.ResolveModulePath | src/js/module.cpp:84-101 | A `./` or `../` request resolves to `workingDir/req` if that exists, else to that path plus `.js` if that exists, else to "". A bare request is searched for in `node_modules`. |
| ModuleSystem.ModuleSystem.RegisterBuiltinModule | src/js/module.cpp:76-78 | A registration overwrites any entry of the same name and changes nothing else. |
| ModuleSystem.ModuleSystem.LoadNodeModule | src/js/module.cpp:147-173 | A fresh exports object is cached under the file path before the wrapped code runs, and it stays cached when that code throws "Module execution failed: …". |
| ModuleSystem.ModuleSystem.Require | src/js/module.cpp:49-70 | Lookup order is the cache by requested name, then builtins, then the filesystem. Not found is "Module not found: <name>" with nothing changed. A load caches under the resolved path. |
| ModuleSystem.RequireTwiceReloads | src/js/module.cpp:51-53 | As written, requiring a relative module twice hands the wrapped script to the engine twice, whatever the engine does. When the engine raises, both calls fail with the same "Module execution failed" message; when it does not, two different exports objects come back. |
| ModuleSystem.ModuleSystem.RequireCached | src/js/module.cpp:49-70 | The corrected `require` also looks in the cache under the resolved path, and after a load the resolved path is cached. |
| ModuleSystem.RequireTwiceCached | src/js/module.cpp:147-152 | With the correction, a second `require` returns the first one's object, and the module runs at most once. |
| ModuleSystem.Emitter.On | src/js/module.cpp:195-216 | With fewer than 2 arguments nothing changes. Otherwise `__events` is created when missing, and the listener replaces any earlier one for that event name. |
| ModuleSystem.Emitter.EmitCall | src/js/module.cpp:218-238 | The call happens exactly when there is an argument, `__events` exists and the event has a listener that is not undefined. The listener then gets the remaining arguments. |
| ModuleSystem.OnThenEmit | src/js/module.cpp:195-238 | After `on(name, f)`, emitting `name` calls `f` with the remaining arguments. |
| JsValues.CString | src/js/process/events.cpp:124-128 | Copying through a C buffer keeps exactly the prefix before the first NUL. |
| ProcessEvents.Added | src/js/process/events.cpp:38-39 | The listener goes at the end of that event's list, and other events are unchanged. |
| ProcessEvents.ProcessEventEmitter.On | src/js/process/events.cpp:38-43 | The table becomes `Added`. |
| ProcessEvents.Without | src/js/process/events.cpp:47-52 | `remove_if` keeps the entries with another callback, in order. |
| ProcessEvents.WithoutKeepsOthers | src/js/process/events.cpp:47-52 | A listener is kept exactly when its callback differs. The kept count plus the removed count is the old length. |
| ProcessEvents.WithoutIdempotent | src/js/process/events.cpp:45-53 | Removing twice equals removing once. |
| ProcessEvents.WithoutAbsent | src/js/process/events.cpp:45-53 | Removing an absent callback changes nothing. |
| ProcessEvents.WithoutAppend | src/js/process/events.cpp:47-52 | Removing distributes over appending one listener. |
| ProcessEvents.Removed | src/js/process/events.cpp:45-53 | Only that event's list changes: its entry is created when missing and no entry with the callback remains. |
| ProcessEvents.ProcessEventEmitter.RemoveListener | src/js/process/events.cpp:45-53 | The table becomes `Removed`. |
| ProcessEvents.RemoveUndoesOn | src/js/process/events.cpp:38-53 | Adding and then removing a callback that was not listed leaves that event's list as it was. |
| ProcessEvents.ProcessEventEmitter.HasListeners | src/js/process/events.cpp:82-85 | True exactly when the event has at least one listener. |
| ProcessEvents.HasListenersMeansSome | src/js/process/events.cpp:82-85 | True exactly when the event maps to a non-empty list. |
| ProcessEvents.HasListenersAfter | src/js/process/events.cpp:38-85 | True after `on`. After `removeListener` it is true exactly when a listener with another callback remains, so an unknown event stays false. |
| ProcessEvents.ProcessEventEmitter.Emit | src/js/process/events.cpp:55-80 | The event's listeners are called in registration order with the same arguments, and an unknown event calls none. Each exception gives one error line, and later listeners still run. |
| ProcessEvents.ErrorLines | src/js/process/events.cpp:68-76 | There is at most one line per listener, with none exactly when no listener throws. |
| ProcessEvents.ErrorLinesSnoc | src/js/process/events.cpp:63-77 | One more listener adds its own line when it throws and nothing otherwise. |
| ProcessEvents.EmitAfterOn | src/js/process/events.cpp:38-78 | After `on`, emitting calls the old listeners, then the new one. |
| ProcessEvents.ProcessOn | src/js/process/events.cpp:116-133 | With fewer than 2 arguments, a non-string name or a non-object callback nothing is added. Otherwise the name, cut at its first NUL, gets the callback. |
| ProcessEvents.TruncDivRemainder | src/js/process/events.cpp:189-190 | Truncating division leaves a remainder with the sign of the dividend, smaller than the divisor. |
| ProcessEvents.HrtimeSplits | src/js/process/events.cpp:174-194 | `s·10⁹ + ns` equals the elapsed time less any given `[sec, ns]`, `abs(ns) < 10⁹`, and both carry the sign of that duration. |
| ProcessEvents.HrtimeSince | src/js/process/events.cpp:177-190 | Passing an earlier reading back gives the time since that reading. |

## Left out

- Network I/O: the registry and tarball downloads are maps from name or URL to their answer. `reqwest` calls, the C++ HTTP client, `src/downloader.rs` and the simulated `src/npm.rs` are not part of this model.
- Concurrency: the tokio tasks, the semaphore and `select_all` become a sequential worklist in `main.rs`. In that worklist a task runs to completion when spawned, and `select_all` harvests results oldest first. The `std::async` fan-outs in the C++ resolver and install loop run one after another. Spinner threads, mutexes, and the detached `nextTick` queue with its processing flag (`src/js/process/events.cpp:87-114, 137-158`) are left out.
- RustInstall.Step: `select_all` returns whichever task finishes first; the model takes the oldest unharvested one.
- RustInstall.AwaitRemaining: tokio's panic on a completed `JoinHandle` is modelled as the `PolledAgain` result, which `InstallPackages` reports as `Panicked("JoinHandle polled after completion")`. The unwinding itself is not modelled. Once a first `select_all` has completed a handle, a later `select_all` inside the loop may already poll it again and panic before the later tasks run; the model runs the loop to its end and reports the panic at the final loop, so the outcome is `Panicked` either way but the point at which it happens is not modelled.
- NpmInstaller.InstallPackage: "Failed to read tarball bytes" and "Failed to get entry path" are not modelled; a successful answer's bytes are always read. A `package.json` that exists but cannot be read ("Failed to read package.json") is not distinguished: the unpacked file's contents are the archive's `packageJson` document.
- NpmInstaller.FetchAndUnpack: a corrupt stream is modelled only as one whose first entry cannot be read. It fails in the first pass with "Failed to read archive entry" before anything is written. "Failed to read archive entries" cannot arise, because each pass builds a fresh `Archive`. A stream that breaks after some readable entries is not modelled.
- NpmInstaller.Prepare: a symbolic link at the package directory counts as a non-directory, so the model fails with "Failed to remove existing directory for package <name>". In the source, `exists()` follows the link. A link to a directory is therefore removed by `remove_dir_all`, and the install goes on. A dangling link is not seen as existing, so `create_dir_all` fails with "Failed to create directory for package <name>". A link among the ancestors, such as `node_modules` linked to a directory, also counts as a non-directory, and creation fails where the operating system would follow it. `Cleared`, `PreparePackageDir` and `InstallPackage` inherit this.
- FileUtils.CreateShortCircuits: `stat` follows symbolic links, so a link to a directory gives true in the source. The model treats every link as a non-directory and gives false.
- FileUtils.CreateRecursively: a symbolic link to a directory at a prefix of the path, such as `./node_modules`, counts as a non-directory, so the model fails where the source continues.
- Installer.LinkBinaries: a `package.json` that exists but cannot be read ("Failed to read package.json") is not distinguished, since the document is missing, unparsable or parsed. A symbolic link is made whenever nothing is at its path and the path is not refused; the parent of the link is not checked. When a regular file sits at `node_modules/.bin`, `.bin` is not re-created because something exists there. The source's `symlink` then fails with "Failed to create symlink for <name>", but the model makes the link. A link to a directory at `.bin` is likewise not followed.
- Tarball.Extract, Tarball.NoLinks: symbolic-link, hard-link and other special tar entries are not modelled, since an archive holds only file and directory entries. `entry.unpack` of a link entry, which creates a link, has no counterpart. `NoLinks` is a statement about this model, not about `tar`.
- Json.Canonical: serde_json is taken with its default ordered map, without the `preserve_order` feature; the crate manifest is not part of this model. nlohmann's default `std::map` also keeps keys sorted and unique. Documents are required to be canonical where they enter: `Installer.LinkBinaries`, `NpmInstaller.InstallPackage`, `RustInstall.InstallPackages`, and the `CppResolver.DependencyResolver` and `InstallCommand.InstallCommand` constructors.
- CppResolver.DependencyResolver.Resolve: closure under dependencies is proved only for requirements without `@`. `SpecIdSplits` shows that `name@version` identifiers collide once a requirement holds an `@`.
- CppResolver.DependencyResolver: during one resolution the cache is passed between the methods as a value, and `Resolve` stores the final contents in the `cache` field. Nothing else uses the cache in between, because the fan-outs run one after another. `resolver_mutex_` is left out, like the rest of the concurrency.
- JsValues.ToJsString: every object converts to "[object Object]". JavaScriptCore's conversion of an `Error` object, which gives "Error: <message>", is not modelled, so an error line for a thrown `Error` shows the generic text.
- ModuleSystem.ModuleSystem.ResolveModulePath, ModuleSystem.ModuleSystem.EntryPoint, FileUtils.CreateRecursively: the filesystem view is keyed by literal path spellings. `fs::exists` and `stat` resolve `.` and `..` components and collapse repeated or trailing separators; the model does not, and it relates no two spellings of one path. So `require("../lib")` checks the key `<cwd>/../lib`, a `"main"` of `./lib/index.js` checks `<pkg>/./lib/index.js`, and `create_directory_recursively("a//b")` visits `a/`, which is a different key from `a`.
- ModuleSystem.Emitter.EmitCall: `__events` is a plain JavaScript object (`JSObjectMake` with no class, `src/js/module.cpp:204`), so the property lookup in `emit` also finds the members inherited from `Object.prototype`. After any `on`, `emit("toString")` or `emit("hasOwnProperty", "x")` calls that inherited function in the source. The model's table holds only the names given to `on`, and it calls nothing for other names.
- Fs.Disk.Mkdir: a `mkdir` below a regular file does not fail with ENOTDIR. Refusals of that kind are represented by the `denied` set of paths the disk will not create.
- Archives and JSON: gzip/tar decoding, `entry.unpack` and the `tar` shell commands are not modelled; an archive is its entry list. `serde_json`/nlohmann parsing is not modelled either; a document is a `Json` value or "unparsable". Rust `Path` normalisation is left out: entry paths are component lists.
- RustInstall.DownloadAndInstall: a directory entry at `<install dir>/package.json` makes `read_to_string` fail, so the task ends with an error and no requests. The model does not tell a file from a directory there, and derives the archive's document.
- RustInstall.DownloadAndInstall: the directory removal and re-creation before download (`src/main.rs:311-315`) and the file writes are given as the destination list, not as filesystem effects. Those effects are modelled in `NpmInstaller.InstallPackage` and `Tarball.Extract`.
- RustInstall.InstallPackages: creating `node_modules`, reading `package.json` and the pretty-printed write are left out. The result is the manifest value that would be written.
- Manifest.AddDependency, Manifest.RemoveDependency: the in-place `HashMap` update followed by a save is modelled as a function from the project value to the new project value.
- The interactive `init_package` prompts in `src/main.rs:49-102` and the cache-directory discovery in `src/util.rs:9-62`, which depend on the environment and stdin.
- The npm install/build script execution in `src/npm_installer.rs:151-182` (child processes): `NpmInstaller.InstallPackage` checks only that the unpacked `package.json` parses.
- `util::extract_tarball`, used by `install_from_tarball`: the result of the extraction is a parameter of `Installer.InstallFromTarball`.
- `TarballHandler::download_and_extract`: its answer per package is a parameter of the install command.
- The JavaScript engine: evaluating a script is a given function from the wrapped code to the exception it raises. The wrapper's call passes `exports`, `module`, `__filename` and `__dirname`, which no code in `src/js` defines as globals (only `require` is installed, `src/js/module.cpp:44`). Under JavaScriptCore as set up there, the engine raises a ReferenceError for them, so loading any file module fails with "Module execution failed: …". The given function covers that engine as the case where it always raises. Code run by a module cannot itself `require` in this model. `readFile` of a directory or an unreadable file reads as empty.
- The `require` global's argument handling in `src/js/module.cpp:27-37`: the missing-argument exception and the NUL truncation of the name are left out. `ModuleSystem.ModuleSystem.Require` takes the name as a string.
- ProcessEvents.ProcessEventEmitter.Emit: the error lines are returned rather than written to stderr. A listener that changes the table during `emit` (iterator invalidation) is left out.
- Floating point: `hrtime` is modelled on integer nanoseconds. The conversion of JavaScript numbers to `int64_t` and its overflow are not modelled.
- Verbose output, progress spinners and timing (`std::chrono`) are printing only.
- JavaScriptCore bindings and operating-system queries (`js.cpp`, `platform.cpp`, stdin/stdout/stderr, exit, argv and env in `src/js/process`) are not part of this model.

## Findings

| source | as written | input that shows it | evidently intended | confidence | as-written member | corrected member |
|---|---|---|---|---|---|---|
| src/main.rs:247-252 | Requests returned by tasks awaited in the final loop are appended to `pending_packages` after the worklist loop has ended, so they are never installed | `install a`, where `a` depends on `b`: one task is spawned (fewer than 8), so `b` is returned only in the final loop | Every dependency of an installed package is processed | not executed | RustInstall.TransitiveDependencyDropped | RustInstall.DrainAllInstallsDependencies |
| src/install/install.cpp:59-64 | `find('@')` finds the scope's `@` at index 0, so a scoped argument with a version keeps the whole text as its name and asks for "latest" | `@types/node@18.0.0` parses to `PackageSpec("@types/node@18.0.0", "latest")`, and `InstallCommand.InstallCommand.InstallEach` parses as written | Splitting at the first `@` after index 0: `PackageSpec("@types/node", "18.0.0")` | not executed | InstallCommand.ScopedVersionIgnored | InstallCommand.ParseArgInvertsToString |
| src/js/module.cpp:51-53 | The cache is looked up by the requested name, but `loadNodeModule` stores under the resolved path (`src/js/module.cpp:151-152`), so a relative module is never found in the cache | `require("./lib")` twice, with `<cwd>/lib` present: the wrapped script is handed to the engine twice, and with an engine that does not raise, two different exports objects come back | A module is loaded once and later requires return the same exports | not executed | ModuleSystem.RequireTwiceReloads | ModuleSystem.RequireTwiceCached |
| src/main.rs:237-252 | `select_all(&mut tasks)` leaves the handle it completed in `tasks`, so the next `select_all` or the final `for task in tasks` loop polls a completed `JoinHandle` again, which panics with "JoinHandle polled after completion" before `package.json` is written | `install` with 8 packages: the 8th spawn runs `select_all` once (`RustInstall.HarvestsFromEight`), and the final loop then awaits the handle it completed | Each handle that `select_all` completes is taken out of `tasks`, and only the others are awaited | not executed | RustInstall.AwaitRemaining | RustInstall.AwaitUnharvested |
