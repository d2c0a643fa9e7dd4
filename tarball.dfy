/** Unpacking a package tarball into a directory, as both Rust installers do it
    (`src/npm_installer.rs` `extract_tarball`, the extraction inside `download_and_install` of
    `src/main.rs`): when some entry's first path component is `package`, that component is
    stripped from every entry that has it; each entry lands at the target directory joined with
    what remains, after its parent directory has been created. */
module Tarball {
  import opened Wrappers
  import opened Strings
  import opened Fs

  /** An archive entry: its path as components, and whether it is a directory. */
  datatype Entry = Entry(path: seq<string>, isDir: bool)

  /** Some entry's first component is `package` (`Path::starts_with("package")`). */
  predicate HasPackagePrefix(entries: seq<Entry>) {
    exists i :: 0 <= i < |entries| && entries[i].path != [] && entries[i].path[0] == "package"
  }

  /** `path.strip_prefix("package").unwrap_or(path)` when the archive has the prefix. */
  function RelativePath(path: seq<string>, prefixed: bool): (rel: seq<string>)
    ensures prefixed && path != [] && path[0] == "package" ==> [path[0]] + rel == path
    ensures !(prefixed && path != [] && path[0] == "package") ==> rel == path
  {
    if prefixed && path != [] && path[0] == "package" then path[1..] else path
  }

  /** A relative path given by its components. */
  function ComponentsPath(cs: seq<string>): string {
    if cs == [] then "" else Glue(cs, '/')
  }

  /** Where an entry lands: the directory itself for an empty relative path. */
  function EntryTarget(dir: string, rel: seq<string>): string {
    if rel == [] then dir else Join(dir, ComponentsPath(rel))
  }

  /** The directory created before unpacking an entry with a non-empty relative path. */
  function EntryParent(dir: string, rel: seq<string>): string
    requires rel != []
  {
    if |rel| == 1 then dir else EntryTarget(dir, rel[..|rel| - 1])
  }

  /** Components as a Rust `Path` yields them: non-empty and without a separator. */
  predicate ProperComponents(cs: seq<string>) {
    forall i :: 0 <= i < |cs| ==> cs[i] != "" && '/' !in cs[i]
  }

  lemma {:induction false} GlueSnoc(cs: seq<string>)
    requires |cs| >= 2
    ensures Glue(cs, '/') == Glue(cs[..|cs| - 1], '/') + "/" + cs[|cs| - 1]
    decreases |cs|
  {
    if |cs| > 2 {
      GlueSnoc(cs[1..]);
      assert cs[1..][..|cs| - 2] == cs[..|cs| - 1][1..];
    }
  }

  lemma GlueStartsWithFirst(cs: seq<string>)
    requires |cs| >= 1
    ensures StartsWith(Glue(cs, '/'), cs[0])
  {
  }

  /** A target with proper components lies strictly inside the directory, and its parent is the
      target with the last component removed. */
  lemma TargetInside(dir: string, rel: seq<string>)
    requires dir != [] && !EndsWith(dir, "/") && ProperComponents(rel) && rel != []
    ensures EntryTarget(dir, rel) == dir + "/" + ComponentsPath(rel)
    ensures StartsWith(EntryTarget(dir, rel), dir + "/")
    ensures EntryTarget(dir, rel) == EntryParent(dir, rel) + "/" + rel[|rel| - 1]
  {
    TargetJoined(dir, rel);
    JoinedPrefix(dir + "/", ComponentsPath(rel));
    if |rel| >= 2 {
      ParentJoined(dir, rel);
    }
  }

  lemma JoinedPrefix(a: string, b: string)
    ensures StartsWith(a + b, a)
  {
    assert (a + b)[..|a|] == a;
  }

  /** The target of a path of two or more components is its parent's target, one more `/` and
      the last component. */
  lemma ParentJoined(dir: string, rel: seq<string>)
    requires dir != [] && !EndsWith(dir, "/") && ProperComponents(rel) && |rel| >= 2
    ensures EntryTarget(dir, rel) == EntryTarget(dir, rel[..|rel| - 1]) + "/" + rel[|rel| - 1]
  {
    var init := rel[..|rel| - 1];
    var last := rel[|rel| - 1];
    GlueSnoc(rel);
    TargetJoined(dir, rel);
    TargetJoined(dir, init);
    assert dir + "/" + ComponentsPath(rel) == (dir + "/" + ComponentsPath(init)) + "/" + last;
  }

  /** Joining a relative path whose first component starts without `/` adds one separator. */
  lemma TargetJoined(dir: string, rel: seq<string>)
    requires dir != [] && !EndsWith(dir, "/") && rel != [] && rel[0] != "" && '/' !in rel[0]
    ensures EntryTarget(dir, rel) == dir + "/" + ComponentsPath(rel)
  {
    var p := ComponentsPath(rel);
    GlueStartsWithFirst(rel);
    assert p[0] == rel[0][0] && rel[0][0] in rel[0];
    assert !IsAbsolute(p);
  }

  /** The operations unpacking one entry performs. */
  function EntryOps(dir: string, e: Entry, prefixed: bool): seq<Op> {
    var rel := RelativePath(e.path, prefixed);
    var target := EntryTarget(dir, rel);
    (if rel == [] then [] else [MakeDirs(EntryParent(dir, rel))])
      + [if e.isDir then MakeDirs(target) else WriteTo(target)]
  }

  function ExtractionOps(dir: string, entries: seq<Entry>, prefixed: bool): seq<Op>
    decreases |entries|
  {
    if entries == [] then [] else EntryOps(dir, entries[0], prefixed) + ExtractionOps(dir, entries[1..], prefixed)
  }

  /** The operations `extract_tarball` performs, in order. */
  function Unpack(dir: string, entries: seq<Entry>): seq<Op> {
    ExtractionOps(dir, entries, HasPackagePrefix(entries))
  }

  /** What unpacking `e` leaves at its target. */
  function Landing(dir: string, e: Entry, prefixed: bool): Op {
    var target := EntryTarget(dir, RelativePath(e.path, prefixed));
    if e.isDir then MakeDirs(target) else WriteTo(target)
  }

  /** The step of unpacking an entry that failed: creating its parent directory, or unpacking
      the entry itself. */
  datatype Failure = ParentNotCreated | NotUnpacked

  /** Unpacking one entry on a tree: the step that failed, if one did, and the state reached. */
  function EntryOutcome(t: Tree, denied: set<string>, dir: string, e: Entry, prefixed: bool): (r: (Option<Failure>, Tree))
    ensures (r.0.None?, r.1) == Run(t, denied, EntryOps(dir, e, prefixed))
    ensures RelativePath(e.path, prefixed) == [] ==> r.0 != Some(ParentNotCreated)
  {
    var rel := RelativePath(e.path, prefixed);
    var landing := Landing(dir, e, prefixed);
    var made := if rel == [] then Some(t) else Perform(t, denied, MakeDirs(EntryParent(dir, rel)));
    assert rel == [] ==> EntryOps(dir, e, prefixed) == [landing];
    assert rel != [] ==> EntryOps(dir, e, prefixed) == [MakeDirs(EntryParent(dir, rel)), landing]
                         && EntryOps(dir, e, prefixed)[1..] == [landing];
    if made.None? then (Some(ParentNotCreated), t)
    else match Perform(made.value, denied, landing)
      case None => (Some(NotUnpacked), made.value)
      case Some(t2) => (None, t2)
  }

  /** The second pass on a tree: the step that stopped it, if one did, and the state reached. */
  function Unpacked(t: Tree, denied: set<string>, dir: string, entries: seq<Entry>, prefixed: bool): (r: (Option<Failure>, Tree))
    decreases |entries|
  {
    if entries == [] then (None, t)
    else
      var h := EntryOutcome(t, denied, dir, entries[0], prefixed);
      if h.0.Some? then h else Unpacked(h.1, denied, dir, entries[1..], prefixed)
  }

  /** The second pass succeeds exactly when the extraction plan runs to the end, and it reaches
      the same state. */
  lemma {:induction false} UnpackedIsRun(t: Tree, denied: set<string>, dir: string, entries: seq<Entry>, prefixed: bool)
    ensures var r := Unpacked(t, denied, dir, entries, prefixed);
      (r.0.None?, r.1) == Run(t, denied, ExtractionOps(dir, entries, prefixed))
    decreases |entries|
  {
    if entries != [] {
      var h := EntryOutcome(t, denied, dir, entries[0], prefixed);
      RunConcat(t, denied, EntryOps(dir, entries[0], prefixed), ExtractionOps(dir, entries[1..], prefixed));
      if h.0.None? {
        UnpackedIsRun(h.1, denied, dir, entries[1..], prefixed);
      }
    }
  }

  lemma UnpackedCons(t: Tree, denied: set<string>, dir: string, entries: seq<Entry>, prefixed: bool)
    requires entries != []
    ensures Unpacked(t, denied, dir, entries, prefixed) ==
      var h := EntryOutcome(t, denied, dir, entries[0], prefixed);
      if h.0.Some? then h else Unpacked(h.1, denied, dir, entries[1..], prefixed)
  {
  }

  /** `UnpackedCons` on the suffix of `entries` that starts at `i`. */
  lemma UnpackedFrom(t: Tree, denied: set<string>, dir: string, entries: seq<Entry>, i: nat, prefixed: bool)
    requires i < |entries|
    ensures Unpacked(t, denied, dir, entries[i..], prefixed) ==
      var h := EntryOutcome(t, denied, dir, entries[i], prefixed);
      if h.0.Some? then h else Unpacked(h.1, denied, dir, entries[i + 1..], prefixed)
  {
    assert entries[i..][0] == entries[i] && entries[i..][1..] == entries[i + 1..];
    UnpackedCons(t, denied, dir, entries[i..], prefixed);
  }

  lemma {:induction false} LandingPlanned(dir: string, entries: seq<Entry>, prefixed: bool, j: nat)
    requires j < |entries|
    ensures Landing(dir, entries[j], prefixed) in ExtractionOps(dir, entries, prefixed)
    decreases j
  {
    var ops := ExtractionOps(dir, entries, prefixed);
    var head := EntryOps(dir, entries[0], prefixed);
    assert ops == head + ExtractionOps(dir, entries[1..], prefixed);
    if j == 0 {
      assert head[|head| - 1] == Landing(dir, entries[0], prefixed);
      assert ops[|head| - 1] == head[|head| - 1];
    } else {
      LandingPlanned(dir, entries[1..], prefixed, j - 1);
      var x := Landing(dir, entries[j], prefixed);
      assert x in ExtractionOps(dir, entries[1..], prefixed);
    }
  }

  /** After a successful extraction every file entry is a file and every directory entry a
      directory, at the target its relative path gives; nothing that was there disappears. */
  lemma ExtractionLands(t: Tree, denied: set<string>, dir: string, entries: seq<Entry>)
    ensures var r := Run(t, denied, Unpack(dir, entries));
      && t.dirs <= r.1.dirs && t.files <= r.1.files && t.links == r.1.links
      && (r.0 ==> forall j :: 0 <= j < |entries| ==>
            var target := EntryTarget(dir, RelativePath(entries[j].path, HasPackagePrefix(entries)));
            if entries[j].isDir then target in r.1.dirs else target in r.1.files)
  {
    var ops := Unpack(dir, entries);
    RunGrows(t, denied, ops);
    NoLinks(t, denied, dir, entries, HasPackagePrefix(entries));
    var r := Run(t, denied, ops);
    if r.0 {
      forall j | 0 <= j < |entries|
        ensures var target := EntryTarget(dir, RelativePath(entries[j].path, HasPackagePrefix(entries)));
          if entries[j].isDir then target in r.1.dirs else target in r.1.files
      {
        LandingPlanned(dir, entries, HasPackagePrefix(entries), j);
        var k :| 0 <= k < |ops| && ops[k] == Landing(dir, entries[j], HasPackagePrefix(entries));
      }
    }
  }

  /** Extraction creates no links. */
  lemma {:induction false} NoLinks(t: Tree, denied: set<string>, dir: string, entries: seq<Entry>, prefixed: bool)
    ensures Run(t, denied, ExtractionOps(dir, entries, prefixed)).1.links == t.links
    decreases |entries|
  {
    if entries != [] {
      var head := EntryOps(dir, entries[0], prefixed);
      RunConcat(t, denied, head, ExtractionOps(dir, entries[1..], prefixed));
      var rh := Run(t, denied, head);
      assert rh.1.links == t.links by {
        var rel := RelativePath(entries[0].path, prefixed);
        if rel != [] {
          assert head == [MakeDirs(EntryParent(dir, rel))] + [Landing(dir, entries[0], prefixed)];
          match Perform(t, denied, head[0])
          case None =>
          case Some(t1) => assert head[1..] == [Landing(dir, entries[0], prefixed)];
        } else {
          assert head == [Landing(dir, entries[0], prefixed)];
        }
      }
      if rh.0 {
        NoLinks(rh.1, denied, dir, entries[1..], prefixed);
      }
    }
  }

  /** The first pass: collect the entry paths, then ask whether any starts with `package`. */
  method DetectPrefix(entries: seq<Entry>) returns (prefixed: bool)
    ensures prefixed == HasPackagePrefix(entries)
  {
    var paths: seq<seq<string>> := [];
    for i := 0 to |entries|
      invariant |paths| == i && forall j :: 0 <= j < i ==> paths[j] == entries[j].path
    {
      paths := paths + [entries[i].path];
    }
    prefixed := false;
    for i := 0 to |paths|
      invariant prefixed <==> exists j :: 0 <= j < i && paths[j] != [] && paths[j][0] == "package"
    {
      if paths[i] != [] && paths[i][0] == "package" {
        prefixed := true;
      }
    }
  }

  /** One entry of the second pass: create its parent, then unpack it. */
  method ExtractEntry(disk: Disk, dir: string, e: Entry, prefixed: bool) returns (failed: Option<Failure>)
    modifies disk
    ensures (failed, disk.State()) == EntryOutcome(old(disk.State()), disk.denied, dir, e, prefixed)
  {
    var rel := RelativePath(e.path, prefixed);
    if rel != [] {
      var made := disk.Do(MakeDirs(EntryParent(dir, rel)));
      if !made {
        return Some(ParentNotCreated);
      }
    }
    var ok := disk.Do(Landing(dir, e, prefixed));
    failed := if ok then None else Some(NotUnpacked);
  }

  /** One round of the second pass: what is left of it after entry `i` is what was left before. */
  method ExtractNext(disk: Disk, entries: seq<Entry>, i: nat, dir: string, prefixed: bool,
                     ghost goal: (Option<Failure>, Tree)) returns (failed: Option<Failure>)
    requires i < |entries| && Unpacked(disk.State(), disk.denied, dir, entries[i..], prefixed) == goal
    modifies disk
    ensures failed.Some? ==> (failed, disk.State()) == goal
    ensures failed.None? ==> Unpacked(disk.State(), disk.denied, dir, entries[i + 1..], prefixed) == goal
  {
    UnpackedFrom(disk.State(), disk.denied, dir, entries, i, prefixed);
    failed := ExtractEntry(disk, dir, entries[i], prefixed);
  }

  /** `extract_tarball`: a first pass detects the prefix; a second pass creates each entry's
      parent and unpacks it, stopping at the first failure, which it names. */
  method Extract(disk: Disk, entries: seq<Entry>, dir: string) returns (failed: Option<Failure>)
    modifies disk
    ensures (failed, disk.State()) == Unpacked(old(disk.State()), disk.denied, dir, entries, HasPackagePrefix(entries))
  {
    var prefixed := DetectPrefix(entries);
    ghost var goal := Unpacked(disk.State(), disk.denied, dir, entries, prefixed);
    var i := 0;
    assert entries[0..] == entries;
    while i < |entries|
      invariant 0 <= i <= |entries|
      invariant Unpacked(disk.State(), disk.denied, dir, entries[i..], prefixed) == goal
    {
      failed := ExtractNext(disk, entries, i, dir, prefixed, goal);
      if failed.Some? {
        return;
      }
      i := i + 1;
    }
    assert entries[i..] == [];
    failed := None;
  }
}
