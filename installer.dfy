/** `PackageInstaller` of `src/installer.rs`: where a tarball is unpacked, and the symbolic links
    made in `node_modules/.bin` for a package's `bin` field. */
module Installer {
  import opened Wrappers
  import opened Strings
  import opened Json
  import opened Fs

  /** The installer only remembers the project root. */
  datatype PackageInstaller = PackageInstaller(projectDir: string)

  function NodeModules(inst: PackageInstaller): string {
    Join(inst.projectDir, "node_modules")
  }

  function PackageDir(inst: PackageInstaller, name: string): string {
    Join(NodeModules(inst), name)
  }

  function BinDir(inst: PackageInstaller): string {
    Join(NodeModules(inst), ".bin")
  }

  /** Under a plain project root, a package lives at `<root>/node_modules/<name>` and its links in
      `<root>/node_modules/.bin`. */
  lemma Layout(inst: PackageInstaller, name: string)
    requires inst.projectDir != [] && !EndsWith(inst.projectDir, "/") && !IsAbsolute(name)
    ensures PackageDir(inst, name) == inst.projectDir + "/node_modules/" + name
    ensures BinDir(inst) == inst.projectDir + "/node_modules/.bin"
  {
    var nm := NodeModules(inst);
    assert nm == inst.projectDir + "/" + "node_modules";
    assert !EndsWith(nm, "/") by { assert nm[|nm| - 1] == 's'; }
  }

  // ---------------------------------------------------------------- install_from_tarball (24-41)

  /** `install_from_tarball`: create `node_modules` when it is absent, then have the tarball
      unpacked into the package directory. The unpacking itself is outside this model:
      `extracted` is whether it succeeds, and `target` is the directory it is asked to fill. */
  method InstallFromTarball(disk: Disk, inst: PackageInstaller, name: string, extracted: bool)
    returns (r: Result<(), string>, target: string)
    modifies disk
    ensures target == PackageDir(inst, name)
    ensures Occupied(old(disk.State()), NodeModules(inst)) ==> disk.State() == old(disk.State())
    ensures !Occupied(old(disk.State()), NodeModules(inst)) ==>
      var made := Perform(old(disk.State()), disk.denied, MakeDirs(NodeModules(inst)));
      disk.State() == (if made.Some? then made.value else old(disk.State()))
      && (made.None? ==> r == Err("Failed to create node_modules directory"))
    ensures r.Ok? <==> extracted && (Occupied(old(disk.State()), NodeModules(inst))
                                     || Perform(old(disk.State()), disk.denied, MakeDirs(NodeModules(inst))).Some?)
    ensures r.Err? && r.error != "Failed to create node_modules directory" ==> r.error == "Failed to extract package " + name
  {
    target := PackageDir(inst, name);
    if !disk.Exists(NodeModules(inst)) {
      var made := disk.CreateDirAll(NodeModules(inst));
      if !made {
        return Err("Failed to create node_modules directory"), target;
      }
    }
    if !extracted {
      return Err("Failed to extract package " + name), target;
    }
    r := Ok(());
  }

  // ---------------------------------------------------------------- link planning (77-116)

  /** The links an object-valued `bin` asks for: one per string-valued entry, named by its key,
      in entry order. */
  function ObjectLinks(packageDir: string, binDir: string, es: seq<(string, Json)>): (links: seq<(string, string)>)
    ensures |links| <= |es|
    ensures forall i :: 0 <= i < |es| && es[i].1.JString? ==> (Join(packageDir, es[i].1.s), Join(binDir, es[i].0)) in links
    ensures forall l :: l in links ==> exists i :: 0 <= i < |es| && es[i].1.JString? && l == (Join(packageDir, es[i].1.s), Join(binDir, es[i].0))
    decreases |es|
  {
    if es == [] then []
    else
      var rest := ObjectLinks(packageDir, binDir, es[1..]);
      assert forall i :: 1 <= i < |es| ==> es[i] == es[1..][i - 1];
      match es[0].1
      case JString(p) => [(Join(packageDir, p), Join(binDir, es[0].0))] + rest
      case _ => rest
  }

  /** The links `link_binaries` makes, as (source, link) pairs: a string `bin` gives one link
      named after the package, an object one per string entry, anything else none. */
  function BinLinks(packageDir: string, binDir: string, packageName: string, bin: Json): (links: seq<(string, string)>)
    ensures bin.JString? ==> links == [(Join(packageDir, bin.s), Join(binDir, packageName))]
    ensures bin.JObject? ==> links == ObjectLinks(packageDir, binDir, bin.entries)
    ensures !bin.JString? && !bin.JObject? ==> links == []
  {
    match bin
    case JString(p) => [(Join(packageDir, p), Join(binDir, packageName))]
    case JObject(es) => ObjectLinks(packageDir, binDir, es)
    case _ => []
  }

  function LinkOps(links: seq<(string, string)>): (ops: seq<Op>)
    ensures |ops| == |links| && forall i :: 0 <= i < |links| ==> ops[i] == LinkTo(links[i].0, links[i].1)
  {
    seq(|links|, i requires 0 <= i < |links| => LinkTo(links[i].0, links[i].1))
  }

  /** When every link succeeds, each planned link exists and points at its source. */
  lemma LinksMade(t: Tree, denied: set<string>, links: seq<(string, string)>)
    ensures var r := Run(t, denied, LinkOps(links));
      r.0 ==> forall l :: l in links ==> l.1 in r.1.links && r.1.links[l.1] == l.0
  {
    var ops := LinkOps(links);
    RunLinks(t, denied, ops);
    forall l | l in links ensures Run(t, denied, ops).0 ==> l.1 in Run(t, denied, ops).1.links && Run(t, denied, ops).1.links[l.1] == l.0 {
      var i :| 0 <= i < |links| && links[i] == l;
      assert ops[i] == LinkTo(l.0, l.1);
    }
  }

  /** Links are only ever added: files and directories stay as they are. */
  lemma {:induction false} LinksOnly(t: Tree, denied: set<string>, links: seq<(string, string)>)
    ensures var r := Run(t, denied, LinkOps(links)); r.1.dirs == t.dirs && r.1.files == t.files
    decreases |links|
  {
    if links != [] {
      assert LinkOps(links) == [LinkTo(links[0].0, links[0].1)] + LinkOps(links[1..]);
      RunConcat(t, denied, [LinkTo(links[0].0, links[0].1)], LinkOps(links[1..]));
      match Perform(t, denied, LinkTo(links[0].0, links[0].1))
      case None =>
      case Some(t1) =>
        assert Run(t, denied, [LinkTo(links[0].0, links[0].1)]) == (true, t1);
        LinksOnly(t1, denied, links[1..]);
    }
  }

  /** The key of the first string entry of an object `bin` whose link cannot be made, linking
      in entry order from `t`; nothing when every link is made. */
  function FailingKey(t: Tree, denied: set<string>, packageDir: string, binDir: string, es: seq<(string, Json)>)
    : (k: Option<string>)
    ensures k.None? <==> Run(t, denied, LinkOps(ObjectLinks(packageDir, binDir, es))).0
    decreases |es|
  {
    if es == [] then None
    else if !es[0].1.JString? then
      assert LinkOps(ObjectLinks(packageDir, binDir, es)) == LinkOps(ObjectLinks(packageDir, binDir, es[1..]));
      FailingKey(t, denied, packageDir, binDir, es[1..])
    else
      var link := LinkTo(Join(packageDir, es[0].1.s), Join(binDir, es[0].0));
      LinkOpsCons(packageDir, binDir, es);
      match Perform(t, denied, link)
      case None => Some(es[0].0)
      case Some(t1) => FailingKey(t1, denied, packageDir, binDir, es[1..])
  }

  /** The operations for an object whose first entry is a string: its link, then the rest. */
  lemma LinkOpsCons(packageDir: string, binDir: string, es: seq<(string, Json)>)
    requires es != [] && es[0].1.JString?
    ensures var ops := LinkOps(ObjectLinks(packageDir, binDir, es));
      && ops != [] && ops[0] == LinkTo(Join(packageDir, es[0].1.s), Join(binDir, es[0].0))
      && ops[1..] == LinkOps(ObjectLinks(packageDir, binDir, es[1..]))
  {
    assert ObjectLinks(packageDir, binDir, es)[1..] == ObjectLinks(packageDir, binDir, es[1..]);
  }

  /** Linking the entries before `j + 1` is linking the first entry, then those of `es[1..]`
      before `j`. */
  lemma LinkFront(t: Tree, denied: set<string>, packageDir: string, binDir: string, es: seq<(string, Json)>, j: nat)
    requires j < |es| - 1
    ensures var t1 := if es[0].1.JString? then Perform(t, denied, LinkTo(Join(packageDir, es[0].1.s), Join(binDir, es[0].0)))
                      else Some(t);
      t1.Some? ==> Run(t, denied, LinkOps(ObjectLinks(packageDir, binDir, es[..j + 1])))
                   == Run(t1.value, denied, LinkOps(ObjectLinks(packageDir, binDir, es[1..][..j])))
  {
    var front := es[..j + 1];
    assert front[1..] == es[1..][..j];
    if es[0].1.JString? {
      LinkOpsCons(packageDir, binDir, front);
    } else {
      assert LinkOps(ObjectLinks(packageDir, binDir, front)) == LinkOps(ObjectLinks(packageDir, binDir, front[1..]));
    }
  }

  /** Entry `i` is a string whose link fails once the links of all entries before it are made. */
  predicate FailsAfterFront(t: Tree, denied: set<string>, packageDir: string, binDir: string, es: seq<(string, Json)>, i: nat)
    requires i < |es|
  {
    && es[i].1.JString?
    && var before := Run(t, denied, LinkOps(ObjectLinks(packageDir, binDir, es[..i])));
    && before.0
    && Perform(before.1, denied, LinkTo(Join(packageDir, es[i].1.s), Join(binDir, es[i].0))).None?
  }

  /** The failing key names an entry whose link fails after the links of all entries before it
      were made. */
  lemma {:induction false} FailingKeyIsFirst(t: Tree, denied: set<string>, packageDir: string, binDir: string,
                                             es: seq<(string, Json)>)
    requires FailingKey(t, denied, packageDir, binDir, es).Some?
    ensures exists i :: 0 <= i < |es| && es[i].0 == FailingKey(t, denied, packageDir, binDir, es).value
                        && FailsAfterFront(t, denied, packageDir, binDir, es, i)
    decreases |es|
  {
    var k := FailingKey(t, denied, packageDir, binDir, es).value;
    var first := if es[0].1.JString? then Perform(t, denied, LinkTo(Join(packageDir, es[0].1.s), Join(binDir, es[0].0)))
                 else Some(t);
    if first.None? {
      assert es[..0] == [];
      assert LinkOps(ObjectLinks(packageDir, binDir, es[..0])) == [];
      return;
    }
    var t1 := first.value;
    assert FailingKey(t1, denied, packageDir, binDir, es[1..]) == Some(k);
    FailingKeyIsFirst(t1, denied, packageDir, binDir, es[1..]);
    var j :| 0 <= j < |es[1..]| && es[1..][j].0 == k && FailsAfterFront(t1, denied, packageDir, binDir, es[1..], j);
    LinkFront(t, denied, packageDir, binDir, es, j);
    assert es[j + 1] == es[1..][j];
  }

  // ---------------------------------------------------------------- link_binaries (44-119)

  /** The state once `.bin` is ensured: unchanged when something is there, else created. */
  function WithBinDir(t: Tree, denied: set<string>, binDir: string): Option<Tree> {
    if Occupied(t, binDir) then Some(t) else Perform(t, denied, MakeDirs(binDir))
  }

  /** `link_binaries`: `pkgJson` is what reading `<package>/package.json` gives. */
  method LinkBinaries(disk: Disk, inst: PackageInstaller, packageName: string, pkgJson: Document)
    returns (r: Result<(), string>)
    requires CanonicalDoc(pkgJson)
    modifies disk
    ensures pkgJson.Missing? ==> r == Ok(()) && disk.State() == old(disk.State())
    ensures pkgJson.Unparsable? ==> r == Err("Failed to parse package.json") && disk.State() == old(disk.State())
    ensures pkgJson.Parsed? && Get(pkgJson.doc, "bin").None? ==> r == Ok(()) && disk.State() == old(disk.State())
    ensures pkgJson.Parsed? && Get(pkgJson.doc, "bin").Some? ==>
      var bin := Get(pkgJson.doc, "bin").value;
      var ready := WithBinDir(old(disk.State()), disk.denied, BinDir(inst));
      if ready.None? then r == Err("Failed to create bin directory") && disk.State() == old(disk.State())
      else
        var run := Run(ready.value, disk.denied, LinkOps(BinLinks(PackageDir(inst, packageName), BinDir(inst), packageName, bin)));
        && disk.State() == run.1 && (r.Ok? <==> run.0)
        && (!run.0 && bin.JString? ==> r == Err("Failed to create symlink for " + packageName))
        && (!run.0 && bin.JObject? ==>
              r == Err("Failed to create symlink for " + FailingKey(ready.value, disk.denied, PackageDir(inst, packageName), BinDir(inst), bin.entries).value))
  {
    if pkgJson.Missing? {
      return Ok(());
    }
    if pkgJson.Unparsable? {
      return Err("Failed to parse package.json");
    }
    var bin;
    match Get(pkgJson.doc, "bin") {
      case None => return Ok(());
      case Some(b) => bin := b;
    }
    var ready := EnsureBinDir(disk, BinDir(inst));
    if !ready {
      return Err("Failed to create bin directory");
    }
    r := MakeLinks(disk, PackageDir(inst, packageName), BinDir(inst), packageName, bin);
  }

  /** `create_dir_all` of `.bin` when nothing is there. */
  method EnsureBinDir(disk: Disk, binDir: string) returns (ok: bool)
    modifies disk
    ensures var ready := WithBinDir(old(disk.State()), disk.denied, binDir);
      (ok <==> ready.Some?) && disk.State() == (if ok then ready.value else old(disk.State()))
  {
    ok := true;
    if !disk.Exists(binDir) {
      ok := disk.CreateDirAll(binDir);
    }
  }

  /** The links of a `bin` field of any type, made in order. */
  method MakeLinks(disk: Disk, packageDir: string, binDir: string, packageName: string, bin: Json)
    returns (r: Result<(), string>)
    modifies disk
    ensures var run := Run(old(disk.State()), disk.denied, LinkOps(BinLinks(packageDir, binDir, packageName, bin)));
      && disk.State() == run.1 && (r.Ok? <==> run.0)
      && (!run.0 && bin.JString? ==> r == Err("Failed to create symlink for " + packageName))
      && (!run.0 && bin.JObject? ==>
            r == Err("Failed to create symlink for " + FailingKey(old(disk.State()), disk.denied, packageDir, binDir, bin.entries).value))
  {
    ghost var start := disk.State();
    match bin {
      case JString(p) =>
        RunConcat(start, disk.denied, [LinkTo(Join(packageDir, p), Join(binDir, packageName))], []);
        var ok := disk.Symlink(Join(packageDir, p), Join(binDir, packageName));
        if !ok {
          return Err("Failed to create symlink for " + packageName);
        }
        r := Ok(());
      case JObject(es) =>
        r := LinkEach(disk, packageDir, binDir, es);
      case _ =>
        r := Ok(());
    }
  }

  /** One round of the loop: what is left of the plan after entry `i` is what was left before,
      unless its link failed, which ends the plan there. */
  method LinkNext(disk: Disk, packageDir: string, binDir: string, es: seq<(string, Json)>, i: nat,
                  ghost goal: (bool, Tree), ghost failing: Option<string>) returns (ok: bool)
    requires i < |es| && Run(disk.State(), disk.denied, LinkOps(ObjectLinks(packageDir, binDir, es[i..]))) == goal
    requires FailingKey(disk.State(), disk.denied, packageDir, binDir, es[i..]) == failing
    modifies disk
    ensures !ok ==> (false, disk.State()) == goal && failing == Some(es[i].0)
    ensures ok ==> Run(disk.State(), disk.denied, LinkOps(ObjectLinks(packageDir, binDir, es[i + 1..]))) == goal
    ensures ok ==> FailingKey(disk.State(), disk.denied, packageDir, binDir, es[i + 1..]) == failing
  {
    var tail := es[i..];
    assert tail[0] == es[i] && tail[1..] == es[i + 1..];
    ghost var before := disk.State();
    var name := es[i].0;
    var value := es[i].1;
    ok := true;
    if value.JString? {
      ghost var link := LinkTo(Join(packageDir, value.s), Join(binDir, name));
      LinkOpsCons(packageDir, binDir, tail);
      ghost var next := Perform(before, disk.denied, link);
      assert FailingKey(before, disk.denied, packageDir, binDir, tail)
        == if next.None? then Some(name) else FailingKey(next.value, disk.denied, packageDir, binDir, es[i + 1..]);
      ok := disk.Symlink(Join(packageDir, value.s), Join(binDir, name));
      assert ok == next.Some? && (ok ==> disk.State() == next.value);
    } else {
      assert LinkOps(ObjectLinks(packageDir, binDir, tail)) == LinkOps(ObjectLinks(packageDir, binDir, es[i + 1..]));
    }
  }

  /** The loop over an object `bin`: non-string entries are skipped; the first failing link
      aborts, and the links made before it remain. */
  method LinkEach(disk: Disk, packageDir: string, binDir: string, es: seq<(string, Json)>) returns (r: Result<(), string>)
    modifies disk
    ensures var run := Run(old(disk.State()), disk.denied, LinkOps(ObjectLinks(packageDir, binDir, es)));
      && disk.State() == run.1 && (r.Ok? <==> run.0)
      && (!run.0 ==> r == Err("Failed to create symlink for " + FailingKey(old(disk.State()), disk.denied, packageDir, binDir, es).value))
  {
    ghost var goal := Run(disk.State(), disk.denied, LinkOps(ObjectLinks(packageDir, binDir, es)));
    ghost var failing := FailingKey(disk.State(), disk.denied, packageDir, binDir, es);
    var i := 0;
    assert es[0..] == es;
    while i < |es|
      invariant 0 <= i <= |es|
      invariant Run(disk.State(), disk.denied, LinkOps(ObjectLinks(packageDir, binDir, es[i..]))) == goal
      invariant FailingKey(disk.State(), disk.denied, packageDir, binDir, es[i..]) == failing
    {
      var ok := LinkNext(disk, packageDir, binDir, es, i, goal, failing);
      if !ok {
        return Err("Failed to create symlink for " + es[i].0);
      }
      i := i + 1;
    }
    assert es[i..] == [];
    r := Ok(());
  }
}
