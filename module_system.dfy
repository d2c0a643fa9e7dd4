/** `ModuleSystem` of `src/js/module.cpp`: CommonJS-style `require` over a fixed view of the
    filesystem, with a module cache, registered builtin modules and a `node_modules` search from
    the working directory up to the root; and the minimal `events` emitter. JavaScript objects
    are numbered, the engine's evaluation of a script is a given function from the script to the
    exception it raises, if any. */
module ModuleSystem {
  import opened Wrappers
  import opened Strings
  import opened JsValues

  /** The last index holding `c`. */
  function LastIndexOf(s: string, c: char): (r: Option<nat>)
    ensures r.Some? ==> r.value < |s| && s[r.value] == c && forall j :: r.value < j < |s| ==> s[j] != c
    ensures r.None? ==> forall j :: 0 <= j < |s| ==> s[j] != c
  {
    if s == [] then None
    else if s[|s| - 1] == c then Some(|s| - 1)
    else LastIndexOf(s[..|s| - 1], c)
  }

  /** `std::filesystem::path::parent_path` on a `/`-separated path. */
  function ParentPath(p: string): (r: string)
    ensures r == p <==> p == "" || p == "/"
    ensures r != p ==> |r| < |p| && StartsWith(p, r)
  {
    match LastIndexOf(p, '/')
    case None => ""
    case Some(k) => if k == 0 then "/" else p[..k]
  }

  /** The directories the search visits: `dir`, its parent, and so on up to the root. */
  function Ancestors(dir: string): (ds: seq<string>)
    ensures |ds| >= 1 && ds[0] == dir
    ensures forall i :: 0 <= i < |ds| - 1 ==> ds[i + 1] == ParentPath(ds[i]) && ds[i + 1] != ds[i]
    ensures ParentPath(ds[|ds| - 1]) == ds[|ds| - 1]
    decreases |dir|
  {
    var parent := ParentPath(dir);
    if parent == dir then [dir]
    else
      var up := Ancestors(parent);
      assert forall i :: 1 <= i < |up| + 1 ==> ([dir] + up)[i] == up[i - 1];
      [dir] + up
  }

  const MainKey := "\"main\""

  /** The crude `"main"` extraction: from 7 past the key, the text between the next two quotes. */
  function MainField(content: string): (r: string)
    requires FindSub(content, MainKey, 0).Some?
  {
    QuotedAfter(content, FindSub(content, MainKey, 0).value + 7)
  }

  /** The text between the first two quotes at or after `from`. When no quote follows, `npos + 1`
      wraps to 0 and the text runs from the start of the file. */
  function QuotedAfter(content: string, from: nat): (r: string)
  {
    var q := FindChar(content, '"', from);
    var start := if q.Some? then q.value + 1 else 0;
    var end := FindChar(content, '"', start);
    if end.Some? then content[start..end.value] else content[start..]
  }

  /** The value of a well-formed `"main": "<file>"` member is found as written. */
  lemma MainFieldReadsValue(before: string, file: string, after: string)
    requires '"' !in file && '"' !in before
    ensures var content := before + MainKey + ": \"" + file + "\"" + after;
      FindSub(content, MainKey, 0).Some? && MainField(content) == file
  {
    var k := |before|;
    var withKey := before + MainKey;
    var quoted := withKey + ": \"";
    var withFile := quoted + file;
    var closed := withFile + "\"";
    var content := closed + after;
    assert withKey[k..] == MainKey;
    assert content[..k + 6] == withKey;
    KeyAfterQuotelessPrefix(content, k);
    assert content[k + 7] == quoted[k + 7] == ' ';
    assert content[k + 8] == quoted[k + 8] == '"';
    assert content[k + 9 + |file|] == closed[|withFile|] == '"';
    assert content[k + 9..k + 9 + |file|] == withFile[|quoted|..] == file;
    QuotedAfterReads(content, k + 7, file);
  }

  /** The key is found where it starts, when no quote comes before it. */
  lemma KeyAfterQuotelessPrefix(content: string, k: nat)
    requires k + 6 <= |content| && content[k..k + 6] == MainKey
    requires forall j :: 0 <= j < k ==> content[j] != '"'
    ensures FindSub(content, MainKey, 0) == Some(k)
  {
    forall j | 0 <= j < k ensures !OccursAt(content, MainKey, j) {
      assert content[j] != MainKey[0];
    }
    FindSubFirst(content, MainKey, 0, k);
  }

  /** A space and a quoted quote-free `file` at `from`. */
  lemma QuotedAfterReads(content: string, from: nat, file: string)
    requires from + 3 + |file| <= |content| && '"' !in file
    requires content[from] == ' ' && content[from + 1] == '"' && content[from + 2 + |file|] == '"'
    requires content[from + 2..from + 2 + |file|] == file
    ensures QuotedAfter(content, from) == file
  {
    FindCharAt(content, '"', from, from + 1);
    var start := from + 2;
    var stop := start + |file|;
    forall j | start <= j < stop ensures content[j] != '"' {
      assert content[j] == file[j - start];
    }
    FindCharAt(content, '"', start, stop);
  }

  /** `FindChar` finds the first occurrence. */
  lemma FindCharAt(s: string, c: char, from: nat, k: nat)
    requires from <= k < |s| && s[k] == c
    requires forall j :: from <= j < k ==> s[j] != c
    ensures FindChar(s, c, from) == Some(k)
  {
  }

  /** `FindSub` finds the first occurrence. */
  lemma {:induction false} FindSubFirst(s: string, sub: string, from: nat, k: nat)
    requires from <= k && OccursAt(s, sub, k)
    requires forall j :: from <= j < k ==> !OccursAt(s, sub, j)
    ensures FindSub(s, sub, from) == Some(k)
    decreases k - from
  {
    if from < k {
      assert !OccursAt(s, sub, from);
      FindSubFirst(s, sub, from + 1, k);
    }
  }

  /** Without a closing quote after the key the wrapped start index makes the text run from the
      start of the file to its first quote. */
  lemma MainFieldWraps()
    ensures FindSub("{\"main\"}", MainKey, 0).Some? && MainField("{\"main\"}") == "{"
  {
    var content := "{\"main\"}";
    assert OccursAt(content, MainKey, 1) by { assert content[1..7] == MainKey; }
    assert !OccursAt(content, MainKey, 0) by { assert content[0] == '{'; }
    FindSubFirst(content, MainKey, 0, 1);
    assert FindChar(content, '"', 8) == None;
    assert content[1] == '"';
    assert FindChar(content, '"', 0) == Some(1);
  }

  /** The first non-empty string of a sequence, "" when there is none. */
  function FirstNonEmpty(cs: seq<string>): string {
    if cs == [] then "" else if cs[0] != "" then cs[0] else FirstNonEmpty(cs[1..])
  }

  /** The first non-empty string is the one all before which are empty. */
  lemma {:induction false} FirstNonEmptyAt(cs: seq<string>, i: nat)
    requires i < |cs| && cs[i] != "" && forall j :: 0 <= j < i ==> cs[j] == ""
    ensures FirstNonEmpty(cs) == cs[i]
  {
    if i > 0 {
      assert cs[0] == "";
      forall j | 0 <= j < i - 1 ensures cs[1..][j] == "" {
        assert cs[1..][j] == cs[j + 1];
      }
      FirstNonEmptyAt(cs[1..], i - 1);
    }
  }

  /** There is no non-empty string exactly when all are empty. */
  lemma {:induction false} FirstNonEmptyNone(cs: seq<string>)
    ensures FirstNonEmpty(cs) == "" <==> forall i :: 0 <= i < |cs| ==> cs[i] == ""
  {
    if cs != [] {
      FirstNonEmptyNone(cs[1..]);
      assert forall i :: 1 <= i < |cs| ==> cs[i] == cs[1..][i - 1];
    }
  }

  const WrapPrefix := "(function(exports, require, module, __filename, __dirname) {\n"
  const WrapSuffix := "\n})(exports, require, module, __filename, __dirname);"

  /** `wrapModuleCode`. */
  function WrapModuleCode(code: string): (r: string)
    ensures |r| == |WrapPrefix| + |code| + |WrapSuffix|
    ensures StartsWith(r, WrapPrefix) && EndsWith(r, WrapSuffix)
    ensures r[|WrapPrefix|..|r| - |WrapSuffix|] == code
  {
    WrapPrefix + code + WrapSuffix
  }

  /** The wrapped code determines the code. */
  lemma WrapInjective(a: string, b: string)
    requires WrapModuleCode(a) == WrapModuleCode(b)
    ensures a == b
  {
    var wa := WrapModuleCode(a);
    assert a == wa[|WrapPrefix|..|wa| - |WrapSuffix|];
  }

  /** What a `require` call gives back: the exports object, or the message of the exception. */
  type Outcome = Result<ObjectRef, string>

  class ModuleSystem {
    /** `workingDir`. */
    const workingDir: string
    /** The regular files and their contents, and the directories, that `fs::exists` finds. */
    const files: map<string, string>
    const dirs: set<string>
    /** `JSEvaluateScript`: the exception a script raises, if any. */
    const evaluate: string -> Option<string>
    /** `moduleCache`. */
    var moduleCache: map<string, ObjectRef>
    /** `builtinModules`. */
    var builtinModules: map<string, ObjectRef>
    /** The next object `JSObjectMake` creates. */
    var nextObject: ObjectRef
    /** The scripts handed to the engine, in order. */
    var evaluated: seq<string>

    constructor(workingDir: string, files: map<string, string>, dirs: set<string>, evaluate: string -> Option<string>)
      ensures this.workingDir == workingDir && this.files == files && this.dirs == dirs && this.evaluate == evaluate
      ensures moduleCache == map[] && builtinModules == map[] && nextObject == 0 && evaluated == []
    {
      this.workingDir := workingDir;
      this.files := files;
      this.dirs := dirs;
      this.evaluate := evaluate;
      moduleCache := map[];
      builtinModules := map[];
      nextObject := 0;
      evaluated := [];
    }

    /** `fs::exists`. */
    predicate Exists(p: string) {
      p in files || p in dirs
    }

    /** `readFile` of an existing path: a directory reads as empty. */
    function Read(p: string): string {
      if p in files then files[p] else ""
    }

    /** The entry point a package directory offers: its existing `"main"` file, else its
        existing `index.js`, else nothing (""). */
    function EntryPoint(packageDir: string): (r: string)
      ensures r != "" ==> Exists(r)
      ensures r != "" ==> (r == Join(packageDir, "index.js") ||
        (Exists(Join(packageDir, "package.json")) && FindSub(Read(Join(packageDir, "package.json")), MainKey, 0).Some?
         && r == Join(packageDir, MainField(Read(Join(packageDir, "package.json"))))))
      ensures r == "" ==> !Exists(Join(packageDir, "index.js"))
    {
      var packageJson := Join(packageDir, "package.json");
      var content := Read(packageJson);
      var viaMain :=
        if Exists(packageJson) && FindSub(content, MainKey, 0).Some? then
          var mainPath := Join(packageDir, MainField(content));
          if Exists(mainPath) then mainPath else ""
        else "";
      if viaMain != "" then viaMain
      else if Exists(Join(packageDir, "index.js")) then Join(packageDir, "index.js")
      else ""
    }

    /** What one visited directory contributes: the entry point of `dir/node_modules/<name>`. */
    function Candidate(dir: string, name: string): (r: string)
      ensures r != "" ==> Exists(Join(Join(dir, "node_modules"), name)) && Exists(r)
    {
      var packageDir := Join(Join(dir, "node_modules"), name);
      if Exists(packageDir) then EntryPoint(packageDir) else ""
    }

    /** The first directory, in order, that offers the package. */
    function FirstCandidate(ds: seq<string>, name: string): (r: string)
      ensures r != "" ==> Exists(r)
    {
      if ds == [] then ""
      else
        var c := Candidate(ds[0], name);
        if c != "" then c else FirstCandidate(ds[1..], name)
    }

    /** The search gives "" exactly when no directory offers the package. */
    lemma FirstCandidateNone(ds: seq<string>, name: string)
      ensures FirstCandidate(ds, name) == "" <==> forall i :: 0 <= i < |ds| ==> Candidate(ds[i], name) == ""
    {
      var cs := CandidatesOf(ds, name);
      FirstCandidateIsFirstOffer(ds, name);
      FirstNonEmptyNone(cs);
    }

    /** What each directory offers, in order. */
    function CandidatesOf(ds: seq<string>, name: string): (cs: seq<string>)
      ensures |cs| == |ds| && forall i :: 0 <= i < |ds| ==> cs[i] == Candidate(ds[i], name)
    {
      seq(|ds|, i requires 0 <= i < |ds| => Candidate(ds[i], name))
    }

    /** The search is the first non-empty offer. */
    lemma {:induction false} FirstCandidateIsFirstOffer(ds: seq<string>, name: string)
      ensures FirstCandidate(ds, name) == FirstNonEmpty(CandidatesOf(ds, name))
    {
      if ds != [] {
        FirstCandidateIsFirstOffer(ds[1..], name);
        CandidatesOfTail(ds, name);
        assert CandidatesOf(ds, name)[0] == Candidate(ds[0], name);
      }
    }

    lemma CandidatesOfTail(ds: seq<string>, name: string)
      requires ds != []
      ensures CandidatesOf(ds, name)[1..] == CandidatesOf(ds[1..], name)
    {
      var cs, rest := CandidatesOf(ds, name), CandidatesOf(ds[1..], name);
      assert forall j :: 0 <= j < |rest| ==> cs[1..][j] == rest[j];
    }

    /** The first directory, in order, that offers the package wins. */
    lemma FirstCandidateWins(ds: seq<string>, name: string, i: nat)
      requires i < |ds| && Candidate(ds[i], name) != ""
      requires forall j :: 0 <= j < i ==> Candidate(ds[j], name) == ""
      ensures FirstCandidate(ds, name) == Candidate(ds[i], name)
    {
      var cs := CandidatesOf(ds, name);
      FirstCandidateIsFirstOffer(ds, name);
      FirstNonEmptyAt(cs, i);
    }

    /** `findPackageInNodeModules`: the loop from the working directory up to the root. */
    method FindPackageInNodeModules(name: string) returns (r: string)
      ensures r == FirstCandidate(Ancestors(workingDir), name)
    {
      var currentDir := workingDir;
      while true
        invariant FirstCandidate(Ancestors(workingDir), name) == FirstCandidate(Ancestors(currentDir), name)
        decreases |currentDir|
      {
        var packageDir := Join(Join(currentDir, "node_modules"), name);
        if Exists(packageDir) {
          var entry := EntryPoint(packageDir);
          if entry != "" {
            return entry;
          }
        }
        var parent := ParentPath(currentDir);
        if parent == currentDir {
          break;
        }
        assert Ancestors(currentDir) == [currentDir] + Ancestors(parent);
        currentDir := parent;
      }
      return "";
    }

    predicate IsRelative(request: string) {
      StartsWith(request, "./") || StartsWith(request, "../")
    }

    /** `resolveModulePath`: a relative request is tried as is and with `.js` under the working
        directory; any other request is searched for in `node_modules`. "" when not found. */
    function ResolveModulePath(request: string): (r: string)
      ensures r != "" ==> Exists(r)
      ensures IsRelative(request) ==> r in {Join(workingDir, request), Join(workingDir, request) + ".js", ""}
      ensures IsRelative(request) ==> (r == Join(workingDir, request) <==> Exists(Join(workingDir, request)))
      ensures IsRelative(request) && r == "" ==>
        !Exists(Join(workingDir, request)) && !Exists(Join(workingDir, request) + ".js")
      ensures !IsRelative(request) ==> r == FirstCandidate(Ancestors(workingDir), request)
    {
      if IsRelative(request) then
        var full := Join(workingDir, request);
        if Exists(full) then full
        else if Exists(full + ".js") then full + ".js"
        else ""
      else
        FirstCandidate(Ancestors(workingDir), request)
    }

    /** The resolved path of a module `require` would load from the filesystem. */
    predicate Loads(request: string)
      reads this
    {
      request !in moduleCache && request !in builtinModules && ResolveModulePath(request) != ""
    }

    /** `registerBuiltinModule`: a later registration under the same name replaces the earlier. */
    method RegisterBuiltinModule(name: string, exports: ObjectRef)
      modifies this
      ensures builtinModules == old(builtinModules)[name := exports]
      ensures moduleCache == old(moduleCache) && nextObject == old(nextObject) && evaluated == old(evaluated)
    {
      builtinModules := builtinModules[name := exports];
    }

    /** What running a module's wrapped code gives: its exports object, or the exception. */
    function Executed(path: string, exports: ObjectRef): Outcome {
      var ex := evaluate(WrapModuleCode(Read(path)));
      if ex.Some? then Err("Module execution failed: " + ex.value) else Ok(exports)
    }

    /** `loadNodeModule`: a fresh exports object is cached under the path before the wrapped code
        runs, and stays cached when that code throws. */
    method LoadNodeModule(path: string) returns (r: Outcome)
      requires Exists(path)
      modifies this
      ensures moduleCache == old(moduleCache)[path := old(nextObject)] && nextObject == old(nextObject) + 1
      ensures builtinModules == old(builtinModules)
      ensures evaluated == old(evaluated) + [WrapModuleCode(Read(path))]
      ensures r == Executed(path, old(nextObject))
    {
      var exports := nextObject;
      nextObject := nextObject + 1;
      moduleCache := moduleCache[path := exports];
      var code := WrapModuleCode(Read(path));
      evaluated := evaluated + [code];
      var exception := evaluate(code);
      if exception.Some? {
        return Err("Module execution failed: " + exception.value);
      }
      return Ok(exports);
    }

    /** `require` as written: the cache is looked up by the requested name, then the builtins,
        then the filesystem; not finding the module throws "Module not found: <name>". */
    method Require(request: string) returns (r: Outcome)
      modifies this
      ensures request in old(moduleCache) ==> r == Ok(old(moduleCache)[request])
      ensures request !in old(moduleCache) && request in old(builtinModules) ==> r == Ok(old(builtinModules)[request])
      ensures !old(Loads(request)) ==> unchanged(this)
      ensures !old(Loads(request)) && request !in old(moduleCache) && request !in old(builtinModules) ==>
        r == Err("Module not found: " + request)
      ensures old(Loads(request)) ==>
        && moduleCache == old(moduleCache)[ResolveModulePath(request) := old(nextObject)]
        && builtinModules == old(builtinModules)
        && nextObject == old(nextObject) + 1
        && evaluated == old(evaluated) + [WrapModuleCode(Read(ResolveModulePath(request)))]
        && r == Executed(ResolveModulePath(request), old(nextObject))
    {
      if request in moduleCache {
        return Ok(moduleCache[request]);
      }
      if request in builtinModules {
        return Ok(builtinModules[request]);
      }
      var resolved := ResolveModulePath(request);
      if resolved == "" {
        return Err("Module not found: " + request);
      }
      r := LoadNodeModule(resolved);
    }

    /** `require` with the cache also consulted under the resolved path, so that a module is
        loaded once however often it is required. */
    method RequireCached(request: string) returns (r: Outcome)
      modifies this
      ensures request in old(moduleCache) ==> r == Ok(old(moduleCache)[request])
      ensures request !in old(moduleCache) && request in old(builtinModules) ==> r == Ok(old(builtinModules)[request])
      ensures !old(Loads(request)) ==> unchanged(this)
      ensures !old(Loads(request)) && request !in old(moduleCache) && request !in old(builtinModules) ==>
        r == Err("Module not found: " + request)
      ensures old(Loads(request)) && ResolveModulePath(request) in old(moduleCache) ==>
        unchanged(this) && r == Ok(old(moduleCache)[ResolveModulePath(request)])
      ensures old(Loads(request)) && ResolveModulePath(request) !in old(moduleCache) ==>
        && moduleCache == old(moduleCache)[ResolveModulePath(request) := old(nextObject)]
        && builtinModules == old(builtinModules)
        && nextObject == old(nextObject) + 1
        && evaluated == old(evaluated) + [WrapModuleCode(Read(ResolveModulePath(request)))]
        && r == Executed(ResolveModulePath(request), old(nextObject))
      ensures old(Loads(request)) ==> ResolveModulePath(request) in moduleCache
    {
      if request in moduleCache {
        return Ok(moduleCache[request]);
      }
      if request in builtinModules {
        return Ok(builtinModules[request]);
      }
      var resolved := ResolveModulePath(request);
      if resolved == "" {
        return Err("Module not found: " + request);
      }
      if resolved in moduleCache {
        return Ok(moduleCache[resolved]);
      }
      r := LoadNodeModule(resolved);
    }
  }

  /** As written, requiring the same relative module twice hands its wrapped code to the engine
      twice: the cache holds it under its resolved path, never under the name it was requested
      by. Both calls then fail with the same exception, or both succeed with two different
      exports objects. */
  method RequireTwiceReloads(sys: ModuleSystem, request: string) returns (first: Outcome, second: Outcome)
    requires sys.workingDir != "" && sys.IsRelative(request) && Join(sys.workingDir, request) in sys.files
    requires request !in sys.moduleCache && request !in sys.builtinModules
    modifies sys
    ensures var code := WrapModuleCode(sys.files[Join(sys.workingDir, request)]);
      sys.evaluated == old(sys.evaluated) + [code, code]
    ensures var ex := sys.evaluate(WrapModuleCode(sys.files[Join(sys.workingDir, request)]));
      && (ex.Some? ==> first == second == Err("Module execution failed: " + ex.value))
      && (ex.None? ==> first.Ok? && second.Ok? && first.value != second.value)
  {
    var path := Join(sys.workingDir, request);
    assert sys.ResolveModulePath(request) == path;
    assert path != request by {
      assert !IsAbsolute(request) by { assert request[0] == '.'; }
      assert |path| > |request|;
    }
    ghost var n := sys.nextObject;
    assert sys.Loads(request);
    first := sys.Require(request);
    assert first == sys.Executed(path, n);
    assert request !in sys.moduleCache;
    assert sys.Loads(request);
    second := sys.Require(request);
    assert second == sys.Executed(path, n + 1);
  }

  /** With the resolved path consulted, the second `require` hands out the first one's object
      and runs nothing. */
  method RequireTwiceCached(sys: ModuleSystem, request: string) returns (first: Outcome, second: Outcome)
    requires request !in sys.builtinModules && sys.ResolveModulePath(request) != ""
    modifies sys
    ensures first.Ok? ==> second == first
    ensures old(sys.Loads(request)) && sys.ResolveModulePath(request) !in old(sys.moduleCache) ==>
      |sys.evaluated| == |old(sys.evaluated)| + 1
  {
    ghost var resolved := sys.ResolveModulePath(request);
    ghost var loads := sys.Loads(request);
    ghost var cache := sys.moduleCache;
    first := sys.RequireCached(request);
    if loads && resolved !in cache {
      assert resolved in sys.moduleCache;
      if first.Ok? {
        assert first == Ok(sys.moduleCache[resolved]);
        if request in sys.moduleCache {
          assert request == resolved;
        } else {
          assert sys.Loads(request);
        }
      }
    }
    second := sys.RequireCached(request);
  }

  /** An object built by the `events` module's `EventEmitter` constructor. */
  class Emitter {
    /** The `__events` property: one listener per event name. */
    var events: Option<map<string, Value>>

    constructor()
      ensures events == None
    {
      events := None;
    }

    /** `emitter_on`: with two or more arguments, the listener replaces any earlier one for the
        event; fewer arguments change nothing. */
    method On(args: seq<Value>)
      modifies this
      ensures |args| < 2 ==> events == old(events)
      ensures |args| >= 2 ==> events == Some(old(events).GetOr(map[])[ToJsString(args[0]) := args[1]])
    {
      if |args| < 2 {
        return;
      }
      var table := if events.Some? then events.value else map[];
      events := Some(table[ToJsString(args[0]) := args[1]]);
    }

    /** `emitter_emit`: the listener called and the arguments it gets, or nothing when there are
        no arguments, no `__events`, or no listener for the event. */
    function EmitCall(args: seq<Value>): (c: Option<(Value, seq<Value>)>)
      reads this
      ensures c.Some? <==> (|args| >= 1 && events.Some? && ToJsString(args[0]) in events.value &&
        events.value[ToJsString(args[0])] != Undefined)
      ensures c.Some? ==> c.value == (events.value[ToJsString(args[0])], args[1..])
    {
      if |args| < 1 || events.None? then None
      else
        var name := ToJsString(args[0]);
        if name in events.value && events.value[name] != Undefined then Some((events.value[name], args[1..]))
        else None
    }
  }

  /** After `on(name, f)`, emitting `name` calls `f` with the remaining arguments. */
  method OnThenEmit(e: Emitter, name: string, f: ObjectRef, rest: seq<Value>)
    modifies e
    ensures e.EmitCall([Str(name)] + rest) == Some((Obj(f), rest))
  {
    e.On([Str(name), Obj(f)]);
    assert ([Str(name)] + rest)[1..] == rest;
  }
}
