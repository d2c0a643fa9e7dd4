/** `DependencyResolver` of `src/package/dependency_resolver.cpp`: the C++ resolver that walks a
    package's dependency graph through the registry, recording one `PackageInfo` per resolved
    `name@version` and accumulating error messages. The registry is a map from request URL to
    what the HTTP client hands back; dependency resolution runs one branch after another (the
    source runs them as `std::async` tasks sharing the map and the accumulator under a mutex). */
module CppResolver {
  import opened Wrappers
  import opened Strings
  import opened Ordering
  import opened Json
  import opened PackageSpec

  /** `PackageInfo` of `src/package/package_info.h`; `dependencies` is a `std::map` (keys sorted). */
  datatype PackageInfo = PackageInfo(
    name: string,
    resolvedVersion: string,
    tarballUrl: string,
    dependencies: map<string, string>)

  /** A default-constructed `PackageInfo`. */
  function EmptyInfo(): PackageInfo {
    PackageInfo("", "", "", map[])
  }

  /** Usable for installation: both a version and a tarball URL were found. */
  predicate Complete(info: PackageInfo) {
    info.resolvedVersion != "" && info.tarballUrl != ""
  }

  datatype ResolutionResult = ResolutionResult(
    requested: PackageSpec,
    packagesToInstall: seq<PackageInfo>,
    success: bool,
    errorMessage: string)

  /** What the HTTP client gives per URL: an absent URL is a failed request, `None` a body that
      does not parse as JSON. */
  type Responses = map<string, Option<Json>>

  /** Every registry document is as the parser hands it over. */
  predicate CanonicalResponses(responses: Responses) {
    forall url :: url in responses && responses[url].Some? ==> Canonical(responses[url].value)
  }

  const RegistryBase := "https://registry.npmjs.org/"
  const RetrieveError := "Could not retrieve valid package info for "

  /** A requirement containing one of the range characters `^ ~ x * > <`. */
  predicate IsRange(v: string) {
    '^' in v || '~' in v || 'x' in v || '*' in v || '>' in v || '<' in v
  }

  /** The version asked of the registry: ranges and the empty requirement become "latest". */
  function VersionToFetch(req: string): (v: string)
    ensures v == "latest" || v == req
  {
    var v := if req == "" then "latest" else req;
    if v != "latest" && IsRange(v) then "latest" else v
  }

  /** The request is kept exactly when it is non-empty and either "latest" or no range, and what
      is fetched is never a range. */
  lemma VersionToFetchMeaning(req: string)
    ensures VersionToFetch(req) == req <==> req != "" && (req == "latest" || !IsRange(req))
    ensures !IsRange(VersionToFetch(req))
  {
  }

  lemma RangesFetchLatest()
    ensures VersionToFetch("^1.2.3") == "latest"
    ensures VersionToFetch("1.x") == "latest"
    ensures VersionToFetch("") == "latest"
    ensures VersionToFetch("1.2.3") == "1.2.3"
  {
    assert IsRange("^1.2.3") by { assert "^1.2.3"[0] == '^'; }
    assert IsRange("1.x") by { assert "1.x"[2] == 'x'; }
  }

  function RegistryUrl(spec: PackageSpec): string {
    RegistryBase + spec.name + "/" + VersionToFetch(spec.versionRequirement)
  }

  function CacheKey(spec: PackageSpec): string {
    spec.name + "@" + VersionToFetch(spec.versionRequirement)
  }

  /** The identity of a request on the current path: name and requirement as written. */
  function SpecId(spec: PackageSpec): string {
    spec.name + "@" + spec.versionRequirement
  }

  /** The key of a resolved package in the install map. */
  function InfoKey(info: PackageInfo): string {
    info.name + "@" + info.resolvedVersion
  }

  /** The string-valued members of a `dependencies` object; other values are skipped. */
  function StringDeps(entries: seq<(string, Json)>): (m: map<string, string>)
    ensures forall k :: k in m <==> exists i :: 0 <= i < |entries| && entries[i].0 == k && entries[i].1.JString?
    ensures forall k :: k in m ==> exists i :: 0 <= i < |entries| && entries[i] == (k, JString(m[k]))
  {
    if entries == [] then map[]
    else
      var rest := StringDeps(entries[1..]);
      assert forall i :: 1 <= i < |entries| ==> entries[i] == entries[1..][i - 1];
      if entries[0].1.JString? && entries[0].0 !in rest then rest[entries[0].0 := entries[0].1.s]
      else rest
  }

  /** The dependencies a registry document names, when its `dependencies` member is an object. */
  function DocDeps(data: Json): map<string, string> {
    var d := Get(data, "dependencies");
    if d.Some? && d.value.JObject? then StringDeps(d.value.entries) else map[]
  }

  /** `fetch_and_parse_package_info` after the cache lookup: `response` is `None` when the request
      failed, `Some(None)` when the body is not JSON. */
  function ParseInfo(name: string, response: Option<Option<Json>>): (info: PackageInfo)
    ensures response.None? || response.value.None? || response.value.value == JNull ==> info == EmptyInfo()
    ensures response.Some? && response.value.Some? && AsStr(Get(response.value.value, "error")).Some? ==>
      info == EmptyInfo()
    ensures info == EmptyInfo() || info.name == name
    ensures Complete(info) ==>
      && response.Some? && response.value.Some?
      && AsStr(Get(response.value.value, "version")) == Some(info.resolvedVersion)
      && AsStr(GetIn(Get(response.value.value, "dist"), "tarball")) == Some(info.tarballUrl)
      && info.dependencies == DocDeps(response.value.value)
      && info.name == name
  {
    if response.None? || response.value.None? then EmptyInfo()
    else
      var data := response.value.value;
      if data == JNull then EmptyInfo()
      else if AsStr(Get(data, "error")).Some? then EmptyInfo()
      else
        var version := AsStr(Get(data, "version"));
        var dist := Get(data, "dist");
        var tarball := if dist.Some? && dist.value.JObject? then AsStr(Get(dist.value, "tarball")) else None;
        PackageInfo(name, version.GetOr(""), tarball.GetOr(""), DocDeps(data))
  }

  /** Appending to the shared accumulator, `"; "`-separated. */
  function AppendError(acc: string, msg: string): (r: string)
    ensures acc <= r
    ensures |r| >= |acc| + |msg|
    ensures r[|r| - |msg|..] == msg
    ensures acc == "" ==> r == msg
  {
    if acc == "" then msg else acc + "; " + msg
  }

  /** `b` extends the install map `a`: earlier entries stay (the first resolution of a key wins)
      and every new entry is a complete info stored under its own key. */
  predicate Extends(a: map<string, PackageInfo>, b: map<string, PackageInfo>) {
    && (forall k :: k in a ==> k in b && b[k] == a[k])
    && (forall k :: k in b && k !in a ==> k == InfoKey(b[k]) && Complete(b[k]))
  }

  lemma ExtendsTransitive(a: map<string, PackageInfo>, b: map<string, PackageInfo>, c: map<string, PackageInfo>)
    requires Extends(a, b) && Extends(b, c)
    ensures Extends(a, c)
  {
  }

  /** One set element fewer outside the path once `id` joins it. */
  lemma PathMeasure(u: set<string>, path: set<string>, id: string)
    requires id !in path
    ensures |u - (path + {id})| + (if id in u then 1 else 0) == |u - path|
  {
    if id in u {
      assert u - path == (u - (path + {id})) + {id};
    } else {
      assert u - path == u - (path + {id});
    }
  }

  /** `s` has no `@`, stated character by character. */
  predicate NoAt(s: string) {
    s == [] || (s[0] != '@' && NoAt(s[1..]))
  }

  lemma {:induction false} NoAtMeans(s: string)
    ensures NoAt(s) <==> '@' !in s
  {
    if s != [] {
      NoAtMeans(s[1..]);
      assert s == [s[0]] + s[1..];
    }
  }

  /** A requirement without `@`: then `name@requirement` names one spec only. */
  predicate Plain(spec: PackageSpec) {
    NoAt(spec.versionRequirement)
  }

  predicate DepsPlain(deps: map<string, string>) {
    forall d :: d in deps ==> NoAt(deps[d])
  }

  /** The index of the last `c` in `s`. */
  function LastIndex(s: string, c: char): (r: Option<nat>)
    ensures r.Some? ==> r.value < |s| && s[r.value] == c
    ensures r.Some? ==> forall i :: r.value < i < |s| ==> s[i] != c
    ensures r.None? ==> c !in s
  {
    if s == [] then None
    else if s[|s| - 1] == c then Some(|s| - 1)
    else
      assert forall i :: 0 <= i < |s| - 1 ==> s[i] == s[..|s| - 1][i];
      LastIndex(s[..|s| - 1], c)
  }

  lemma {:induction false} LastIndexAfter(n: string, c: char, r: string)
    requires c !in r
    ensures LastIndex(n + [c] + r, c) == Some(|n|)
    decreases |r|
  {
    var s := n + [c] + r;
    if r == [] {
      assert s[|s| - 1] == c;
    } else {
      assert s[|s| - 1] == r[|r| - 1] && r[|r| - 1] in r;
      assert s[..|s| - 1] == n + [c] + r[..|r| - 1];
      LastIndexAfter(n, c, r[..|r| - 1]);
    }
  }

  /** Distinct plain specs have distinct ids. */
  lemma SpecIdInjective(a: PackageSpec, b: PackageSpec)
    requires Plain(a) && Plain(b) && SpecId(a) == SpecId(b)
    ensures a == b
  {
    NoAtMeans(a.versionRequirement);
    NoAtMeans(b.versionRequirement);
    LastIndexAfter(a.name, '@', a.versionRequirement);
    LastIndexAfter(b.name, '@', b.versionRequirement);
    var id := SpecId(a);
    assert |a.name| == |b.name|;
    assert a.name == id[..|a.name|] == b.name;
    assert a.versionRequirement == id[|a.name| + 1..] == b.versionRequirement;
  }

  lemma SpecIdSplits()
    ensures SpecId(PackageSpec("a", "b@c")) == SpecId(PackageSpec("a@b", "c"))
  {
  }

  /** The cache `c` extends `b`: entries are only ever added. */
  predicate Grows(b: map<string, PackageInfo>, c: map<string, PackageInfo>) {
    forall k :: k in b ==> k in c && c[k] == b[k]
  }

  /** `s` has been resolved: what it fetches is cached, complete, and recorded in `m`. */
  predicate Settled(c: map<string, PackageInfo>, m: map<string, PackageInfo>, s: PackageSpec) {
    CacheKey(s) in c && Complete(c[CacheKey(s)]) && InfoKey(c[CacheKey(s)]) in m
  }

  predicate DepsSettled(c: map<string, PackageInfo>, m: map<string, PackageInfo>, deps: map<string, string>) {
    forall d :: d in deps ==> Settled(c, m, PackageSpec(d, deps[d]))
  }

  /** Every entry of `m` outside `open` (those still having their dependencies resolved) has
      all its dependencies settled. */
  predicate ClosedExcept(c: map<string, PackageInfo>, m: map<string, PackageInfo>, open: set<string>) {
    forall k {:trigger m[k]} :: k in m && k !in open ==> DepsSettled(c, m, m[k].dependencies)
  }

  lemma SettledGrows(c0: map<string, PackageInfo>, c1: map<string, PackageInfo>, m0: map<string, PackageInfo>, m1: map<string, PackageInfo>)
    requires Grows(c0, c1) && m0.Keys <= m1.Keys
    ensures forall s :: Settled(c0, m0, s) ==> Settled(c1, m1, s)
  {
  }

  lemma ClosedGrows(c0: map<string, PackageInfo>, c1: map<string, PackageInfo>, m: map<string, PackageInfo>, open: set<string>)
    requires Grows(c0, c1) && ClosedExcept(c0, m, open)
    ensures ClosedExcept(c1, m, open)
  {
    SettledGrows(c0, c1, m, m);
  }

  /** A new entry starts open. */
  lemma ClosedAdd(c: map<string, PackageInfo>, m: map<string, PackageInfo>, open: set<string>, key: string, info: PackageInfo)
    requires ClosedExcept(c, m, open) && key !in m
    ensures ClosedExcept(c, m[key := info], open + {key})
  {
    SettledGrows(c, c, m, m[key := info]);
  }

  lemma GrowsTransitive(c0: map<string, PackageInfo>, c1: map<string, PackageInfo>, c2: map<string, PackageInfo>)
    requires Grows(c0, c1) && Grows(c1, c2)
    ensures Grows(c0, c2)
  {
  }

  /** What the closure argument needs of a call: `anc` maps the ids on `path` to the specs being
      resolved above it, each of them plain and settled, and every entry outside `open` is
      closed. */
  ghost predicate Ready(c: map<string, PackageInfo>, path: set<string>, anc: map<string, PackageSpec>,
                        installs: map<string, PackageInfo>, open: set<string>) {
    && path == anc.Keys
    && (forall id :: id in anc ==> SpecId(anc[id]) == id && Plain(anc[id]) && Settled(c, installs, anc[id]))
    && ClosedExcept(c, installs, open)
  }

  /** A resolution starts ready: no ancestors and an empty install map. */
  lemma ReadyEmpty(c: map<string, PackageInfo>)
    ensures Ready(c, {}, map[], map[], {})
  {
  }

  /** Descending into a newly recorded `spec`: it joins the ancestors and its key is open. */
  lemma ReadyDescend(c0: map<string, PackageInfo>, c1: map<string, PackageInfo>, path: set<string>,
                     anc: map<string, PackageSpec>, installs: map<string, PackageInfo>, open: set<string>,
                     spec: PackageSpec, info: PackageInfo)
    requires Ready(c0, path, anc, installs, open) && Plain(spec) && SpecId(spec) !in path
    requires Grows(c0, c1) && CacheKey(spec) in c1 && c1[CacheKey(spec)] == info && Complete(info)
    requires InfoKey(info) !in installs
    ensures Ready(c1, path + {SpecId(spec)}, anc[SpecId(spec) := spec], installs[InfoKey(info) := info],
                  open + {InfoKey(info)})
  {
    SettledGrows(c0, c1, installs, installs[InfoKey(info) := info]);
    ClosedGrows(c0, c1, installs, open);
    ClosedAdd(c1, installs, open, InfoKey(info), info);
  }

  /** After a sibling's resolution the ancestors stay settled. */
  lemma ReadyAfter(c1: map<string, PackageInfo>, c2: map<string, PackageInfo>, path: set<string>,
                   anc: map<string, PackageSpec>, m1: map<string, PackageInfo>, m2: map<string, PackageInfo>,
                   open: set<string>)
    requires Ready(c1, path, anc, m1, open) && Grows(c1, c2) && Extends(m1, m2) && ClosedExcept(c2, m2, open)
    ensures Ready(c2, path, anc, m2, open)
  {
    SettledGrows(c1, c2, m1, m2);
  }

  /** After a plain dependency's resolution the ancestors stay settled, and so is the dependency:
      one on the path is, by injectivity, the ancestor with its id. */
  lemma DepStep(c1: map<string, PackageInfo>, c2: map<string, PackageInfo>, path: set<string>,
                anc: map<string, PackageSpec>, m1: map<string, PackageInfo>, m2: map<string, PackageInfo>,
                open: set<string>, dep: PackageSpec)
    requires Ready(c1, path, anc, m1, open) && Grows(c1, c2) && Extends(m1, m2) && ClosedExcept(c2, m2, open)
    requires Plain(dep) && (SpecId(dep) !in path ==> Settled(c2, m2, dep))
    ensures Ready(c2, path, anc, m2, open) && Settled(c2, m2, dep)
  {
    ReadyAfter(c1, c2, path, anc, m1, m2, open);
    if SpecId(dep) in path {
      SpecIdInjective(anc[SpecId(dep)], dep);
    }
  }

  /** An open entry whose dependencies are settled closes. */
  lemma ClosedClose(c: map<string, PackageInfo>, m: map<string, PackageInfo>, open: set<string>, key: string)
    requires ClosedExcept(c, m, open + {key}) && key in m && DepsSettled(c, m, m[key].dependencies)
    ensures ClosedExcept(c, m, open)
  {
  }

  /** Every cached info has plain requirements. */
  predicate CachePlain(c: map<string, PackageInfo>) {
    forall k :: k in c ==> DepsPlain(c[k].dependencies)
  }

  /** The closing loop of `resolve`: the values of the install map `m`, whose entries are stored
      under their own keys, in key order. Each entry appears once. */
  method InKeyOrder(m: map<string, PackageInfo>) returns (p: seq<PackageInfo>)
    requires forall k :: k in m ==> k == InfoKey(m[k])
    ensures |p| == |m|
    ensures forall i :: 0 <= i < |p| ==> InfoKey(p[i]) in m && m[InfoKey(p[i])] == p[i]
    ensures forall i, j :: 0 <= i < j < |p| ==> Less(InfoKey(p[i]), InfoKey(p[j]))
    ensures forall k :: k in m ==> exists i :: 0 <= i < |p| && p[i] == m[k]
  {
    var keys := SortedKeys(m);
    p := ValuesAt(m, keys);
    forall k | k in m
      ensures exists i :: 0 <= i < |p| && p[i] == m[k]
    {
      var i :| 0 <= i < |keys| && keys[i] == k;
      assert p[i] == m[k];
    }
  }

  /** The values of `m` under `keys`, in the order of `keys`. */
  method ValuesAt(m: map<string, PackageInfo>, keys: seq<string>) returns (p: seq<PackageInfo>)
    requires forall k :: k in m ==> k == InfoKey(m[k])
    requires forall j :: 0 <= j < |keys| ==> keys[j] in m
    ensures |p| == |keys|
    ensures forall j :: 0 <= j < |keys| ==> InfoKey(p[j]) == keys[j] && m[keys[j]] == p[j]
  {
    p := [];
    for i := 0 to |keys|
      invariant |p| == i
      invariant forall j :: 0 <= j < i ==> InfoKey(p[j]) == keys[j] && m[keys[j]] == p[j]
    {
      p := p + [m[keys[i]]];
    }
  }

  /** `package_cache_`: `name@version` requested to the complete info fetched for it. */
  type Cache = map<string, PackageInfo>

  class DependencyResolver {
    /** `http_client_`, as the answers it gives. */
    const responses: Responses
    /** `package_cache_`. The resolution methods take it as a value and hand back its new
        contents; `Resolve` stores them. */
    var cache: Cache
    /** Every `name@requirement` a registry document names as a dependency: what a resolution
        can ever visit below its root, and so the measure that bounds it. */
    ghost const ids: set<string>

    constructor(responses: Responses)
      requires CanonicalResponses(responses)
      ensures this.responses == responses && cache == map[]
      ensures CacheValid(cache)
    {
      this.responses := responses;
      cache := map[];
      ids := set u, k | u in responses && responses[u].Some? && k in DocDeps(responses[u].value) ::
        k + "@" + DocDeps(responses[u].value)[k];
    }

    function Response(url: string): (r: Option<Option<Json>>)
      ensures r.Some? <==> url in responses
    {
      if url in responses then Some(responses[url]) else None
    }

    /** `ids` holds every dependency a registry document names. */
    ghost predicate IdsCover() {
      forall u, k :: u in responses && responses[u].Some? && k in DocDeps(responses[u].value) ==>
        k + "@" + DocDeps(responses[u].value)[k] in ids
    }

    ghost predicate DepsKnown(deps: map<string, string>) {
      forall d :: d in deps ==> d + "@" + deps[d] in ids
    }

    /** No registry document has a requirement containing `@`. */
    ghost predicate RegistryPlain() {
      forall u, k :: u in responses && responses[u].Some? && k in DocDeps(responses[u].value) ==>
        NoAt(DocDeps(responses[u].value)[k])
    }

    /** The cache holds only complete infos whose dependencies the registry names. */
    ghost predicate Known(c: Cache) {
      forall k :: k in c ==> Complete(c[k]) && DepsKnown(c[k].dependencies)
    }

    /** The cache holds only infos read from the registry: complete, naming known dependencies,
        and plain when the registry is. */
    ghost predicate CacheValid(c: Cache) {
      IdsCover() && Known(c) && (RegistryPlain() ==> CachePlain(c))
    }

    /** What the registry answers at `url`, parsed, names only known and (for a plain registry)
        plain requirements. */
    lemma ParsedDeps(name: string, url: string)
      requires Complete(ParseInfo(name, Response(url)))
      ensures IdsCover() ==> DepsKnown(ParseInfo(name, Response(url)).dependencies)
      ensures RegistryPlain() ==> DepsPlain(ParseInfo(name, Response(url)).dependencies)
    {
      var info := ParseInfo(name, Response(url));
      forall d | d in info.dependencies
        ensures IdsCover() ==> d + "@" + info.dependencies[d] in ids
        ensures RegistryPlain() ==> NoAt(info.dependencies[d])
      {
        assert url in responses && responses[url].Some? && d in DocDeps(responses[url].value);
      }
    }

    /** `fetch_and_parse_package_info` on the cache `c`: the info and the new cache. A hit
        returns the stored info without a request; otherwise the registry's answer is parsed,
        and cached only when it is complete. */
    function FetchAndParse(c: Cache, spec: PackageSpec): (r: (PackageInfo, Cache))
      ensures CacheKey(spec) in c ==> r == (c[CacheKey(spec)], c)
      ensures CacheKey(spec) !in c ==> r.0 == ParseInfo(spec.name, Response(RegistryUrl(spec)))
      ensures Grows(c, r.1)
      ensures Complete(r.0) ==> CacheKey(spec) in r.1 && r.1[CacheKey(spec)] == r.0
      ensures !Complete(r.0) ==> r.1 == c
      ensures r.1.Keys <= c.Keys + {CacheKey(spec)}
    {
      var key := CacheKey(spec);
      if key in c then (c[key], c)
      else
        var info := ParseInfo(spec.name, Response(RegistryUrl(spec)));
        if Complete(info) then (info, c[key := info]) else (info, c)
    }

    /** What is fetched names only known dependencies, and so does the cache after it. */
    lemma FetchKnown(c: Cache, spec: PackageSpec)
      requires IdsCover() && Known(c)
      ensures Known(FetchAndParse(c, spec).1)
      ensures Complete(FetchAndParse(c, spec).0) ==> DepsKnown(FetchAndParse(c, spec).0.dependencies)
    {
      if CacheKey(spec) !in c && Complete(FetchAndParse(c, spec).0) {
        ParsedDeps(spec.name, RegistryUrl(spec));
      }
    }

    /** With a plain registry, what is fetched is plain too. */
    lemma FetchPlain(c: Cache, spec: PackageSpec)
      requires IdsCover() && RegistryPlain() && CachePlain(c)
      ensures CachePlain(FetchAndParse(c, spec).1)
      ensures Complete(FetchAndParse(c, spec).0) ==> DepsPlain(FetchAndParse(c, spec).0.dependencies)
    {
      if CacheKey(spec) !in c && Complete(FetchAndParse(c, spec).0) {
        ParsedDeps(spec.name, RegistryUrl(spec));
      }
    }

    /** A second fetch of the same spec gives the same info and leaves the cache as it is. */
    lemma FetchIdempotent(c: Cache, spec: PackageSpec)
      ensures FetchAndParse(FetchAndParse(c, spec).1, spec) == FetchAndParse(c, spec)
    {
    }

    /** `resolve_recursive` on the cache `c`: the map, the accumulator and the cache are passed in
        and handed back (they are references and a member in the source); `path` is the copy of
        the current path. `anc` and `open` are the ghost bookkeeping of the closure argument. */
    method ResolveRecursive(c: Cache, spec: PackageSpec, installs: map<string, PackageInfo>, path: set<string>,
                            errors: string, ghost report: bool, ghost plain: bool, ghost anc: map<string, PackageSpec>,
                            ghost open: set<string>)
      returns (ok: bool, installs': map<string, PackageInfo>, errors': string, c': Cache)
      requires IdsCover() && Known(c) && (plain ==> RegistryPlain() && CachePlain(c))
      decreases |ids - path| + (if SpecId(spec) in ids then 0 else 1), 2
      ensures Known(c') && (plain ==> CachePlain(c')) && Grows(c, c')
      ensures Extends(installs, installs')
      ensures SpecId(spec) in path ==> ok && installs' == installs && errors' == errors && c' == c
      ensures ok <==> errors' == errors
      ensures errors <= errors'
      ensures !ok && errors == "" ==> StartsWith(errors', RetrieveError)
      ensures report && SpecId(spec) !in path ==>
        var info := FetchAndParse(c, spec).0;
        && (!Complete(info) ==>
              !ok && installs' == installs && c' == c && errors' == AppendError(errors, RetrieveError + SpecId(spec)))
        && (Complete(info) ==> CacheKey(spec) in c' && c'[CacheKey(spec)] == info && InfoKey(info) in installs')
        && (Complete(info) && InfoKey(info) in installs ==> ok && installs' == installs && errors' == errors)
        && (Complete(info) && InfoKey(info) !in installs ==> installs'[InfoKey(info)] == info)
      ensures ok && SpecId(spec) !in path ==> Settled(c', installs', spec)
      ensures ok && plain && Plain(spec) && Ready(c, path, anc, installs, open) ==>
        ClosedExcept(c', installs', open)
    {
      var id := SpecId(spec);
      if id in path {
        return true, installs, errors, c;
      }
      var fetched := FetchAndParse(c, spec);
      var info := fetched.0;
      c' := fetched.1;
      FetchKnown(c, spec);
      if plain {
        FetchPlain(c, spec);
      }
      if !Complete(info) {
        errors' := AppendError(errors, RetrieveError + id);
        return false, installs, errors', c';
      }
      var key := InfoKey(info);
      if key in installs {
        if plain && Plain(spec) && Ready(c, path, anc, installs, open) {
          ClosedGrows(c, c', installs, open);
        }
        return true, installs, errors, c';
      }
      var c2;
      ok, installs', errors', c2 := Record(c', spec, info, installs, path, errors, plain, anc, open);
      if plain && Plain(spec) && Ready(c, path, anc, installs, open) {
        ClosedGrows(c, c', installs, open);
        ReadyAfter(c, c', path, anc, installs, installs, open);
      }
      GrowsTransitive(c, c', c2);
      c' := c2;
    }

    /** The rest of `resolve_recursive` once `spec` fetched a complete `info` under a new key:
        record it, then resolve its dependencies with `spec` on the path. */
    method Record(c: Cache, spec: PackageSpec, info: PackageInfo, installs: map<string, PackageInfo>, path: set<string>,
                  errors: string, ghost plain: bool, ghost anc: map<string, PackageSpec>, ghost open: set<string>)
      returns (ok: bool, installs': map<string, PackageInfo>, errors': string, c': Cache)
      requires IdsCover() && Known(c) && Complete(info) && DepsKnown(info.dependencies)
      requires plain ==> RegistryPlain() && CachePlain(c) && DepsPlain(info.dependencies)
      requires SpecId(spec) !in path && InfoKey(info) !in installs
      requires CacheKey(spec) in c && c[CacheKey(spec)] == info
      decreases |ids - path| + (if SpecId(spec) in ids then 0 else 1), 1
      ensures Known(c') && (plain ==> CachePlain(c')) && Grows(c, c')
      ensures Extends(installs, installs')
      ensures InfoKey(info) in installs' && installs'[InfoKey(info)] == info
      ensures ok <==> errors' == errors
      ensures errors <= errors'
      ensures !ok && errors == "" ==> StartsWith(errors', RetrieveError)
      ensures ok && plain && Plain(spec) && Ready(c, path, anc, installs, open) ==>
        ClosedExcept(c', installs', open)
    {
      var id := SpecId(spec);
      var key := InfoKey(info);
      installs' := installs[key := info];
      errors', c' := errors, c;
      if info.dependencies != map[] {
        PathMeasure(ids, path, id);
        ghost var ready := plain && Plain(spec) && Ready(c, path, anc, installs, open);
        if ready {
          ReadyDescend(c, c, path, anc, installs, open, spec, info);
        }
        var allOk, next, nextErrors, c2 :=
          ResolveDependencies(c, info.dependencies, installs', path + {id}, errors', plain, anc[id := spec], open + {key});
        ExtendsTransitive(installs, installs', next);
        installs', errors', c' := next, nextErrors, c2;
        if !allOk {
          return false, installs', errors', c';
        }
        if ready {
          ClosedClose(c', installs', open, key);
        }
      } else if plain && Plain(spec) && Ready(c, path, anc, installs, open) {
        ClosedAdd(c, installs, open, key, info);
        ClosedClose(c, installs', open, key);
      }
      return true, installs', errors', c';
    }

    /** The dependency loop of `resolve_recursive`: every dependency is resolved, in key order,
        on a copy of `path`, whether or not an earlier one failed. A dependency whose id is not on
        the path is settled on success; with plain requirements, every one is. */
    method ResolveDependencies(c: Cache, deps: map<string, string>, installs: map<string, PackageInfo>, path: set<string>,
                               errors: string, ghost plain: bool, ghost anc: map<string, PackageSpec>, ghost open: set<string>)
      returns (allOk: bool, installs': map<string, PackageInfo>, errors': string, c': Cache)
      requires IdsCover() && Known(c) && DepsKnown(deps) && (plain ==> RegistryPlain() && CachePlain(c))
      decreases |ids - path|, 5
      ensures Known(c') && (plain ==> CachePlain(c')) && Grows(c, c')
      ensures Extends(installs, installs')
      ensures allOk <==> errors' == errors
      ensures errors <= errors'
      ensures !allOk && errors == "" ==> StartsWith(errors', RetrieveError)
      ensures allOk ==> forall d :: d in deps && SpecId(PackageSpec(d, deps[d])) !in path ==>
        Settled(c', installs', PackageSpec(d, deps[d]))
      ensures allOk && plain && DepsPlain(deps) && Ready(c, path, anc, installs, open) ==>
        DepsSettled(c', installs', deps) && ClosedExcept(c', installs', open)
    {
      var names := SortedKeys(deps);
      allOk, installs', errors', c' := ResolveEach(c, deps, names, installs, path, errors, plain, anc, open);
    }

    /** The loop itself, over the names of `deps` in the order given. */
    method ResolveEach(c: Cache, deps: map<string, string>, names: seq<string>, installs: map<string, PackageInfo>,
                       path: set<string>, errors: string, ghost plain: bool, ghost anc: map<string, PackageSpec>,
                       ghost open: set<string>)
      returns (allOk: bool, installs': map<string, PackageInfo>, errors': string, c': Cache)
      requires IdsCover() && Known(c) && DepsKnown(deps) && (plain ==> RegistryPlain() && CachePlain(c))
      requires forall k :: k in names <==> k in deps
      decreases |ids - path|, 4
      ensures Known(c') && (plain ==> CachePlain(c')) && Grows(c, c')
      ensures Extends(installs, installs')
      ensures allOk <==> errors' == errors
      ensures errors <= errors'
      ensures !allOk && errors == "" ==> StartsWith(errors', RetrieveError)
      ensures allOk ==> forall d :: d in deps && SpecId(PackageSpec(d, deps[d])) !in path ==>
        Settled(c', installs', PackageSpec(d, deps[d]))
      ensures allOk && plain && DepsPlain(deps) && Ready(c, path, anc, installs, open) ==>
        DepsSettled(c', installs', deps) && ClosedExcept(c', installs', open)
    {
      ghost var ready := plain && DepsPlain(deps) && Ready(c, path, anc, installs, open);
      allOk := true;
      installs', errors', c' := installs, errors, c;
      for i := 0 to |names|
        invariant Known(c') && (plain ==> CachePlain(c')) && Grows(c, c')
        invariant Extends(installs, installs')
        invariant allOk <==> errors' == errors
        invariant errors <= errors'
        invariant !allOk && errors == "" ==> StartsWith(errors', RetrieveError)
        invariant allOk ==> forall j :: 0 <= j < i && (ready || SpecId(PackageSpec(names[j], deps[names[j]])) !in path) ==>
          Settled(c', installs', PackageSpec(names[j], deps[names[j]]))
        invariant allOk && ready ==> Ready(c', path, anc, installs', open)
      {
        var dep := PackageSpec(names[i], deps[names[i]]);
        var depOk, next, nextErrors, c2 := ResolveDependency(c', dep, installs', path, errors', plain, anc, open, allOk && ready);
        GrowsTransitive(c, c', c2);
        ExtendsTransitive(installs, installs', next);
        installs', errors', c' := next, nextErrors, c2;
        if !depOk {
          allOk := false;
        }
      }
    }

    /** One round of the dependency loop: `resolve_recursive` on the dependency `dep`, with what
        the loop needs to know of it. */
    method ResolveDependency(c: Cache, dep: PackageSpec, installs: map<string, PackageInfo>, path: set<string>,
                             errors: string, ghost plain: bool, ghost anc: map<string, PackageSpec>,
                             ghost open: set<string>, ghost ready: bool)
      returns (ok: bool, installs': map<string, PackageInfo>, errors': string, c': Cache)
      requires IdsCover() && Known(c) && SpecId(dep) in ids && (plain ==> RegistryPlain() && CachePlain(c))
      requires ready ==> plain && Plain(dep) && Ready(c, path, anc, installs, open)
      decreases |ids - path|, 3
      ensures Known(c') && (plain ==> CachePlain(c')) && Grows(c, c')
      ensures Extends(installs, installs')
      ensures ok <==> errors' == errors
      ensures errors <= errors'
      ensures !ok && errors == "" ==> StartsWith(errors', RetrieveError)
      ensures forall s :: Settled(c, installs, s) ==> Settled(c', installs', s)
      ensures ok && (ready || SpecId(dep) !in path) ==> Settled(c', installs', dep)
      ensures ok && ready ==> Ready(c', path, anc, installs', open)
    {
      ok, installs', errors', c' := ResolveRecursive(c, dep, installs, path, errors, false, plain, anc, open);
      SettledGrows(c, c', installs, installs');
      if ok && ready {
        DepStep(c, c', path, anc, installs, installs', open, dep);
      }
    }

    /** `resolve`: on success the values of the install map `installs` in key order; on failure
        the accumulated errors. The "Unknown error" fallback is kept, and the ensures show it
        never fires. The cache keeps what this resolution fetched. */
    method Resolve(initial: PackageSpec) returns (r: ResolutionResult, ghost installs: map<string, PackageInfo>)
      requires CacheValid(cache) && CanonicalResponses(responses)
      modifies this
      ensures CacheValid(cache) && Grows(old(cache), cache)
      ensures r.requested == initial
      ensures !Complete(FetchAndParse(old(cache), initial).0) ==>
        !r.success && r.errorMessage == RetrieveError + SpecId(initial)
      ensures r.success ==>
        var root := FetchAndParse(old(cache), initial).0;
        Complete(root) && InfoKey(root) in installs && installs[InfoKey(root)] == root
      ensures r.success ==> forall k :: k in installs ==> k == InfoKey(installs[k]) && Complete(installs[k])
      ensures r.success ==> r.errorMessage == "" && |r.packagesToInstall| == |installs| >= 1
      ensures r.success ==> forall i :: 0 <= i < |r.packagesToInstall| ==>
        InfoKey(r.packagesToInstall[i]) in installs && installs[InfoKey(r.packagesToInstall[i])] == r.packagesToInstall[i]
      ensures r.success ==> forall i :: 0 <= i < |r.packagesToInstall| ==> Complete(r.packagesToInstall[i])
      ensures r.success ==> forall i, j :: 0 <= i < j < |r.packagesToInstall| ==>
        Less(InfoKey(r.packagesToInstall[i]), InfoKey(r.packagesToInstall[j]))
      ensures r.success && RegistryPlain() && Plain(initial) ==> ClosedExcept(cache, installs, {})
      ensures !r.success ==> r.packagesToInstall == [] && StartsWith(r.errorMessage, RetrieveError)
    {
      ghost var plain := RegistryPlain();
      ReadyEmpty(cache);
      var ok, resolved, errors, c := ResolveRecursive(cache, initial, map[], {}, "", true, plain, map[], {});
      installs := resolved;
      cache := c;
      if ok {
        var packages := InKeyOrder(resolved);
        r := ResolutionResult(initial, packages, true, errors);
      } else {
        if errors == "" {
          errors := "Unknown error during resolution for " + ToString(initial);
        }
        r := ResolutionResult(initial, [], false, errors);
      }
    }
  }
}
