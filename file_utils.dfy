/** `FileUtils` of `src/utils/file_utils.cpp`: `path_exists` (which is `Fs.Disk.Exists`: `stat`
    succeeds) and `create_directory_recursively`, which walks the path separator by separator and
    `mkdir`s every missing prefix before the path itself. */
module FileUtils {
  import opened Wrappers
  import opened Strings
  import opened Fs

  const Separators: set<char> := {'/', '\\'}

  /** The prefixes of `path` that end just before a separator at index `from` or later, left to right. */
  function SeparatorPrefixes(path: string, from: nat): (ps: seq<string>)
    decreases |path| - from
  {
    match FindAny(path, Separators, from)
    case None => []
    case Some(j) => [path[..j]] + SeparatorPrefixes(path, j + 1)
  }

  /** Exactly the prefixes before the separators at `from` or later are visited. */
  lemma {:induction false} SeparatorPrefixesExact(path: string, from: nat)
    ensures var ps := SeparatorPrefixes(path, from);
      && (forall i :: 0 <= i < |ps| ==>
            exists j :: from <= j < |path| && path[j] in Separators && ps[i] == path[..j])
      && (forall j :: from <= j < |path| && path[j] in Separators ==> path[..j] in ps)
    decreases |path| - from
  {
    match FindAny(path, Separators, from)
    case None =>
    case Some(j) =>
      SeparatorPrefixesExact(path, j + 1);
      var ps := SeparatorPrefixes(path, from);
      var rest := SeparatorPrefixes(path, j + 1);
      assert ps == [path[..j]] + rest;
      forall i | 0 <= i < |ps|
        ensures exists j' :: from <= j' < |path| && path[j'] in Separators && ps[i] == path[..j']
      {
        if i > 0 {
          assert ps[i] == rest[i - 1];
        }
      }
  }

  /** One step of the search: the next separator contributes the next prefix. */
  lemma NextPrefix(path: string, from: nat)
    requires FindAny(path, Separators, from).Some?
    ensures var j := FindAny(path, Separators, from).value;
      SeparatorPrefixes(path, from) == [path[..j]] + SeparatorPrefixes(path, j + 1)
  {
  }

  /** The prefixes the loop visits: the search starts at index 1, so a leading separator never
      yields the empty prefix. Every one is shorter than the path. */
  function Prefixes(path: string): (ps: seq<string>)
    ensures forall i :: 0 <= i < |ps| ==> ps[i] != "" && |ps[i]| < |path| && StartsWith(path, ps[i])
  {
    var ps := SeparatorPrefixes(path, 1);
    SeparatorPrefixesExact(path, 1);
    assert forall i :: 0 <= i < |ps| ==> ps[i] != "" && |ps[i]| < |path| && StartsWith(path, ps[i]) by {
      forall i | 0 <= i < |ps|
        ensures ps[i] != "" && |ps[i]| < |path| && StartsWith(path, ps[i])
      {
        var j :| 1 <= j < |path| && path[j] in Separators && ps[i] == path[..j];
      }
    }
    ps
  }

  /** The loop over the prefixes on a tree: a missing prefix is `mkdir`ed; a refused `mkdir`
      stops with false and leaves the tree as it is then. */
  function MakeEach(t: Tree, denied: set<string>, ps: seq<string>): (r: (bool, Tree))
    decreases |ps|
  {
    if ps == [] then (true, t)
    else
      var missing := ps[0] != "" && !Occupied(t, ps[0]);
      if missing && ps[0] in denied then (false, t)
      else MakeEach(if missing then t.(dirs := t.dirs + {ps[0]}) else t, denied, ps[1..])
  }

  lemma MakeEachCons(t: Tree, denied: set<string>, p: string, rest: seq<string>)
    ensures var missing := p != "" && !Occupied(t, p);
      MakeEach(t, denied, [p] + rest) ==
        if missing && p in denied then (false, t)
        else MakeEach(if missing then t.(dirs := t.dirs + {p}) else t, denied, rest)
  {
    assert ([p] + rest)[1..] == rest;
  }

  /** `create_directory_recursively` on a tree. */
  function CreateRecursively(t: Tree, denied: set<string>, path: string): (r: (bool, Tree))
  {
    if path == "" then (false, t)
    else if Occupied(t, path) then (path in t.dirs, t)
    else
      var m := MakeEach(t, denied, Prefixes(path));
      if !m.0 then m
      else if Occupied(m.1, path) then (true, m.1)
      else if path in denied then (false, m.1)
      else (true, m.1.(dirs := m.1.dirs + {path}))
  }

  /** The loop only adds directories, only at the visited prefixes; on success every prefix
      exists; on failure it stopped at a prefix that is missing and refused, having added
      directories only before it. */
  lemma {:induction false} MakeEachEffect(t: Tree, denied: set<string>, ps: seq<string>)
    ensures var r := MakeEach(t, denied, ps);
      && r.1.files == t.files && r.1.links == t.links
      && t.dirs <= r.1.dirs
      && (forall q :: q in r.1.dirs && q !in t.dirs ==> q in ps)
      && (r.0 ==> forall q :: q in ps && q != "" ==> Occupied(r.1, q))
      && (!r.0 ==> exists n :: 0 <= n < |ps| && ps[n] in denied && !Occupied(r.1, ps[n])
                    && forall q :: q in r.1.dirs && q !in t.dirs ==> q in ps[..n])
    decreases |ps|
  {
    if ps != [] {
      var missing := ps[0] != "" && !Occupied(t, ps[0]);
      if !(missing && ps[0] in denied) {
        var t' := if missing then t.(dirs := t.dirs + {ps[0]}) else t;
        MakeEachEffect(t', denied, ps[1..]);
        var r := MakeEach(t', denied, ps[1..]);
        assert MakeEach(t, denied, ps) == r;
        assert forall q :: q in ps[1..] ==> q in ps;
        if !r.0 {
          var n :| 0 <= n < |ps[1..]| && ps[1..][n] in denied && !Occupied(r.1, ps[1..][n])
                   && forall q :: q in r.1.dirs && q !in t'.dirs ==> q in ps[1..][..n];
          assert ps[1..][..n] == ps[1..n + 1];
          assert ps[..n + 1] == [ps[0]] + ps[1..n + 1];
          assert ps[0] in ps[..n + 1];
          assert ps[n + 1] == ps[1..][n];
        }
      }
    }
  }

  /** An empty path is refused, and an existing path is reported as it is, with nothing changed. */
  lemma CreateShortCircuits(t: Tree, denied: set<string>, path: string)
    ensures path == "" ==> CreateRecursively(t, denied, path) == (false, t)
    ensures path != "" && path in t.dirs ==> CreateRecursively(t, denied, path) == (true, t)
    ensures path != "" && Occupied(t, path) && path !in t.dirs ==> CreateRecursively(t, denied, path) == (false, t)
  {
  }

  /** What a call changes: only directories are added, at the visited prefixes and the path
      itself; on true the path is a directory and every prefix exists; on false after an attempt,
      the refused prefix or path is named and nothing after it was created. */
  lemma CreateEffect(t: Tree, denied: set<string>, path: string)
    ensures var r := CreateRecursively(t, denied, path);
      && r.1.files == t.files && r.1.links == t.links
      && t.dirs <= r.1.dirs
      && (forall q :: q in r.1.dirs && q !in t.dirs ==> q in Prefixes(path) || q == path)
      && (r.0 ==> path in r.1.dirs)
      && (r.0 && !Occupied(t, path) ==> forall q :: q in Prefixes(path) ==> Occupied(r.1, q))
      && (!r.0 && path != "" && !Occupied(t, path) ==>
            || (exists n :: 0 <= n < |Prefixes(path)| && Prefixes(path)[n] in denied
                  && forall q :: q in r.1.dirs && q !in t.dirs ==> q in Prefixes(path)[..n])
            || (path in denied && path !in r.1.dirs))
  {
    if path != "" && !Occupied(t, path) {
      var ps := Prefixes(path);
      MakeEachEffect(t, denied, ps);
      var m := MakeEach(t, denied, ps);
      assert path !in ps;
      assert !Occupied(m.1, path);
    }
  }

  /** `create_directory_recursively`, on the disk. */
  method CreateDirectoryRecursively(disk: Disk, path: string) returns (ok: bool)
    modifies disk
    ensures (ok, disk.State()) == CreateRecursively(old(disk.State()), disk.denied, path)
  {
    if path == "" {
      return false;
    }
    if disk.Exists(path) {
      return path in disk.dirs;
    }
    ok := MakePrefixes(disk, path);
    if !ok {
      return false;
    }
    var st := disk.Mkdir(path);
    if st == Refused {
      return false;
    }
    return true;
  }

  /** The `while` loop of `create_directory_recursively`: `last_slash` moves from separator to
      separator, and each missing prefix is `mkdir`ed. */
  method MakePrefixes(disk: Disk, path: string) returns (ok: bool)
    modifies disk
    ensures (ok, disk.State()) == MakeEach(old(disk.State()), disk.denied, Prefixes(path))
  {
    assert Prefixes(path) == SeparatorPrefixes(path, 1);
    ghost var goal := MakeEach(disk.State(), disk.denied, SeparatorPrefixes(path, 1));
    var last: nat := 0;
    var found := FindAny(path, Separators, last + 1);
    while found.Some?
      invariant found == FindAny(path, Separators, last + 1)
      invariant MakeEach(disk.State(), disk.denied, SeparatorPrefixes(path, last + 1)) == goal
      decreases |path| - last
    {
      ghost var before := disk.State();
      ghost var from := last + 1;
      last := found.value;
      var segment := path[..last];
      NextPrefix(path, from);
      ghost var rest := SeparatorPrefixes(path, last + 1);
      MakeEachCons(before, disk.denied, segment, rest);
      ghost var missing := segment != "" && !Occupied(before, segment);
      if segment != "" && !disk.Exists(segment) {
        var st := disk.Mkdir(segment);
        if st == Refused {
          assert missing && segment in disk.denied && disk.State() == before;
          return false;
        }
        assert disk.State() == before.(dirs := before.dirs + {segment});
      }
      assert disk.State() == if missing then before.(dirs := before.dirs + {segment}) else before;
      found := FindAny(path, Separators, last + 1);
    }
    return true;
  }
}
