/** An abstract filesystem: the directories, regular files and symbolic links that exist, and the
    paths the operating system refuses to create (permissions, a missing or read-only parent). */
module Fs {
  import opened Wrappers
  import opened Strings

  /** `p` and every proper prefix of `p` that ends just before a `/`. */
  function Lineage(p: string): (l: set<string>)
    ensures p in l
    ensures forall q :: q in l ==> StartsWith(p, q)
  {
    var ups := set i | 0 < i < |p| && p[i] == '/' :: p[..i];
    assert forall q :: q in ups ==> StartsWith(p, q);
    ups + {p}
  }

  /** `q` is `p` itself or lies inside the directory `p`. */
  predicate Within(q: string, p: string) {
    q == p || StartsWith(q, p + "/")
  }

  datatype MkdirStatus = Created | AlreadyExists | Refused

  /** The state of a filesystem as a value. */
  datatype Tree = Tree(dirs: set<string>, files: set<string>, links: map<string, string>)

  /** One filesystem operation: `create_dir_all`, writing a regular file, or `symlink(src, dest)`. */
  datatype Op = MakeDirs(path: string) | WriteTo(path: string) | LinkTo(src: string, dest: string)

  predicate Occupied(t: Tree, p: string) {
    p in t.dirs || p in t.files || p in t.links
  }

  /** The outcome of one operation, as `Disk` performs it; nothing on failure. */
  function Perform(t: Tree, denied: set<string>, op: Op): (r: Option<Tree>)
    ensures r.Some? && op.MakeDirs? ==> r.value == t.(dirs := t.dirs + Lineage(op.path))
    ensures r.Some? && op.WriteTo? ==> r.value == t.(files := t.files + {op.path})
    ensures r.Some? && op.LinkTo? ==> r.value == t.(links := t.links[op.dest := op.src])
    ensures op.LinkTo? ==> (r.Some? <==> !Occupied(t, op.dest) && op.dest !in denied)
  {
    match op
    case MakeDirs(p) =>
      if forall q :: q in Lineage(p) ==> q !in t.files && q !in t.links && (q in t.dirs || q !in denied)
      then Some(t.(dirs := t.dirs + Lineage(p))) else None
    case WriteTo(p) =>
      if p !in t.dirs && p !in t.links && p !in denied then Some(t.(files := t.files + {p})) else None
    case LinkTo(src, dest) =>
      if !Occupied(t, dest) && dest !in denied then Some(t.(links := t.links[dest := src])) else None
  }

  /** Performing operations in order, stopping at the first that fails: whether all succeeded, and
      the state reached (the effects of the operations before a failure remain). */
  function Run(t: Tree, denied: set<string>, ops: seq<Op>): (r: (bool, Tree))
    ensures ops == [] ==> r == (true, t)
    ensures !r.0 ==> ops != []
    decreases |ops|
  {
    if ops == [] then (true, t)
    else match Perform(t, denied, ops[0])
      case None => (false, t)
      case Some(t1) => Run(t1, denied, ops[1..])
  }

  /** Running `a ++ b` is running `a`, then, when it succeeded, `b` from where it ended. */
  lemma {:induction false} RunConcat(t: Tree, denied: set<string>, a: seq<Op>, b: seq<Op>)
    ensures Run(t, denied, a + b) == (var ra := Run(t, denied, a); if ra.0 then Run(ra.1, denied, b) else ra)
    decreases |a|
  {
    if a != [] {
      assert (a + b)[1..] == a[1..] + b;
      match Perform(t, denied, a[0])
      case None =>
      case Some(t1) => RunConcat(t1, denied, a[1..], b);
    } else {
      assert a + b == b;
    }
  }

  /** Success never removes anything, and every file written is then present. */
  lemma {:induction false} RunGrows(t: Tree, denied: set<string>, ops: seq<Op>)
    ensures var r := Run(t, denied, ops);
      && t.dirs <= r.1.dirs && t.files <= r.1.files && t.links.Keys <= r.1.links.Keys
      && (r.0 ==> forall i :: 0 <= i < |ops| && ops[i].WriteTo? ==> ops[i].path in r.1.files)
      && (r.0 ==> forall i :: 0 <= i < |ops| && ops[i].MakeDirs? ==> ops[i].path in r.1.dirs)
    decreases |ops|
  {
    if ops != [] {
      match Perform(t, denied, ops[0])
      case None =>
      case Some(t1) =>
        RunGrows(t1, denied, ops[1..]);
        assert forall i :: 1 <= i < |ops| ==> ops[i] == ops[1..][i - 1];
    }
  }

  /** Once created, a link keeps its target: a later `symlink` to the same name fails. */
  lemma {:induction false} RunLinks(t: Tree, denied: set<string>, ops: seq<Op>)
    ensures var r := Run(t, denied, ops);
      && (forall d :: d in t.links ==> d in r.1.links && r.1.links[d] == t.links[d])
      && (r.0 ==> forall i :: 0 <= i < |ops| && ops[i].LinkTo? ==> ops[i].dest in r.1.links && r.1.links[ops[i].dest] == ops[i].src)
    decreases |ops|
  {
    if ops != [] {
      match Perform(t, denied, ops[0])
      case None =>
      case Some(t1) =>
        RunLinks(t1, denied, ops[1..]);
        assert forall i :: 1 <= i < |ops| ==> ops[i] == ops[1..][i - 1];
    }
  }

  class Disk {
    var dirs: set<string>
    var files: set<string>
    var links: map<string, string>
    const denied: set<string>

    constructor (dirs0: set<string>, files0: set<string>, denied0: set<string>)
      ensures dirs == dirs0 && files == files0 && links == map[] && denied == denied0
    {
      dirs, files, links, denied := dirs0, files0, map[], denied0;
    }

    /** `stat` succeeds: something is at `p`. */
    predicate Exists(p: string)
      reads this
    {
      p in dirs || p in files || p in links
    }

    /** POSIX `mkdir`: EEXIST when anything is at `p`, a failure when refused, else a new directory. */
    method Mkdir(p: string) returns (st: MkdirStatus)
      modifies this
      ensures old(Exists(p)) ==> st == AlreadyExists
      ensures !old(Exists(p)) && p in denied ==> st == Refused
      ensures !old(Exists(p)) && p !in denied ==> st == Created
      ensures dirs == (if st == Created then old(dirs) + {p} else old(dirs))
      ensures files == old(files) && links == old(links)
    {
      if Exists(p) {
        st := AlreadyExists;
      } else if p in denied {
        st := Refused;
      } else {
        dirs := dirs + {p};
        st := Created;
      }
    }

    /** Rust `create_dir_all`: `p` and all its ancestors become directories, unless one of them is
        taken by a non-directory or is refused. */
    method CreateDirAll(p: string) returns (ok: bool)
      modifies this
      ensures ok <==> forall q :: q in Lineage(p) ==> q !in old(files) && q !in old(links) && (q in old(dirs) || q !in denied)
      ensures dirs == (if ok then old(dirs) + Lineage(p) else old(dirs))
      ensures files == old(files) && links == old(links)
    {
      ok := forall q :: q in Lineage(p) ==> q !in files && q !in links && (q in dirs || q !in denied);
      if ok {
        dirs := dirs + Lineage(p);
      }
    }

    /** Rust `remove_dir_all`: the directory `p` and everything inside it disappear. */
    method RemoveDirAll(p: string) returns (ok: bool)
      modifies this
      ensures ok == (p in old(dirs))
      ensures ok ==> dirs == set q | q in old(dirs) && !Within(q, p)
      ensures ok ==> files == set q | q in old(files) && !Within(q, p)
      ensures ok ==> links == map q | q in old(links) && !Within(q, p) :: old(links)[q]
      ensures !ok ==> dirs == old(dirs) && files == old(files) && links == old(links)
    {
      ok := p in dirs;
      if ok {
        dirs := set q | q in dirs && !Within(q, p);
        files := set q | q in files && !Within(q, p);
        links := map q | q in links && !Within(q, p) :: links[q];
      }
    }

    /** Writing a regular file at `p` (tar `Entry::unpack` of a file entry). */
    method WriteFile(p: string) returns (ok: bool)
      modifies this
      ensures ok == (p !in old(dirs) && p !in old(links) && p !in denied)
      ensures files == (if ok then old(files) + {p} else old(files))
      ensures dirs == old(dirs) && links == old(links)
    {
      ok := p !in dirs && p !in links && p !in denied;
      if ok {
        files := files + {p};
      }
    }

    /** `symlink(src, dest)`: fails when something is already at `dest` or it is refused. */
    method Symlink(src: string, dest: string) returns (ok: bool)
      modifies this
      ensures ok == (!old(Exists(dest)) && dest !in denied)
      ensures links == (if ok then old(links)[dest := src] else old(links))
      ensures dirs == old(dirs) && files == old(files)
    {
      ok := !Exists(dest) && dest !in denied;
      if ok {
        links := links[dest := src];
      }
    }

    /** The state of this disk as a value. */
    function State(): Tree
      reads this
    {
      Tree(dirs, files, links)
    }

    /** Performing one operation with the method that does it. */
    method Do(op: Op) returns (ok: bool)
      modifies this
      ensures var r := Perform(old(State()), denied, op);
        ok == r.Some? && State() == (if ok then r.value else old(State()))
    {
      match op
      case MakeDirs(p) => ok := CreateDirAll(p);
      case WriteTo(p) => ok := WriteFile(p);
      case LinkTo(src, dest) => ok := Symlink(src, dest);
    }
  }
}
