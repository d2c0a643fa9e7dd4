/** `main` of `src/main.cpp`: the arguments after the program name, with the first one or two
    verbose flags removed, then `--version`, the command and its arguments, and the exit code. */
module Cli {
  import opened Wrappers

  predicate IsVerbose(s: string) {
    s == "-v" || s == "--verbose"
  }

  /** `std::find_if` for a verbose flag. */
  function FirstVerbose(args: seq<string>): (r: Option<nat>)
    ensures r.Some? ==> r.value < |args| && IsVerbose(args[r.value])
    ensures r.Some? ==> forall j :: 0 <= j < r.value ==> !IsVerbose(args[j])
    ensures r.None? ==> forall j :: 0 <= j < |args| ==> !IsVerbose(args[j])
  {
    if args == [] then None
    else if IsVerbose(args[0]) then Some(0)
    else
      var r := FirstVerbose(args[1..]);
      assert forall j :: 1 <= j < |args| ==> args[j] == args[1..][j - 1];
      if r.Some? then Some(r.value + 1) else None
  }

  /** `vector::erase` at an index. */
  function RemoveAt(s: seq<string>, i: nat): (r: seq<string>)
    requires i < |s|
    ensures |r| == |s| - 1
    ensures r[..i] == s[..i] && r[i..] == s[i + 1..]
  {
    s[..i] + s[i + 1..]
  }

  /** The arguments without the verbose flags, in order. */
  function NonFlags(s: seq<string>): seq<string> {
    if s == [] then [] else (if IsVerbose(s[0]) then [] else [s[0]]) + NonFlags(s[1..])
  }

  function FlagCount(s: seq<string>): nat {
    if s == [] then 0 else (if IsVerbose(s[0]) then 1 else 0) + FlagCount(s[1..])
  }

  lemma {:induction false} NoFlagsCounted(s: seq<string>)
    ensures (forall j :: 0 <= j < |s| ==> !IsVerbose(s[j])) <==> FlagCount(s) == 0
  {
    if s != [] {
      NoFlagsCounted(s[1..]);
      assert forall j :: 1 <= j < |s| ==> s[j] == s[1..][j - 1];
    }
  }

  /** Erasing a verbose flag keeps every other argument, in order, and one flag fewer. */
  lemma {:induction false} RemoveFlag(s: seq<string>, i: nat)
    requires i < |s| && IsVerbose(s[i])
    ensures NonFlags(RemoveAt(s, i)) == NonFlags(s)
    ensures FlagCount(RemoveAt(s, i)) == FlagCount(s) - 1
  {
    if i == 0 {
      assert RemoveAt(s, i) == s[1..];
    } else {
      RemoveFlag(s[1..], i - 1);
      assert RemoveAt(s, i) == [s[0]] + RemoveAt(s[1..], i - 1);
      assert RemoveAt(s, i)[1..] == RemoveAt(s[1..], i - 1);
    }
  }

  /** The arguments with their first `n` verbose flags removed, everything else in order. */
  function DropFlags(s: seq<string>, n: nat): seq<string> {
    if s == [] then []
    else if IsVerbose(s[0]) && n > 0 then DropFlags(s[1..], n - 1)
    else [s[0]] + DropFlags(s[1..], n)
  }

  /** Without flags there is nothing to drop. */
  lemma {:induction false} DropNone(s: seq<string>, n: nat)
    requires forall j :: 0 <= j < |s| ==> !IsVerbose(s[j])
    ensures DropFlags(s, n) == s
  {
    if s != [] {
      assert forall j :: 0 <= j < |s[1..]| ==> s[1..][j] == s[j + 1];
      DropNone(s[1..], n);
    }
  }

  /** Dropping nothing keeps every argument. */
  lemma {:induction false} DropZero(s: seq<string>)
    ensures DropFlags(s, 0) == s
  {
    if s != [] {
      DropZero(s[1..]);
    }
  }

  /** An argument that is not a flag stays where it is. */
  lemma DropKeeps(s: seq<string>, n: nat)
    requires s != [] && !IsVerbose(s[0])
    ensures DropFlags(s, n) == [s[0]] + DropFlags(s[1..], n)
  {
  }

  /** Erasing the first flag is dropping one flag. */
  lemma {:induction false} DropFirst(s: seq<string>, i: nat, n: nat)
    requires FirstVerbose(s) == Some(i)
    ensures DropFlags(s, n + 1) == DropFlags(RemoveAt(s, i), n)
  {
    if i > 0 {
      FirstVerboseTail(s, i);
      DropFirst(s[1..], i - 1, n);
      RemoveAtCons(s, i);
      DropKeeps(s, n + 1);
      DropKeeps(RemoveAt(s, i), n);
    } else {
      assert RemoveAt(s, i) == s[1..];
    }
  }

  lemma FirstVerboseTail(s: seq<string>, i: nat)
    requires FirstVerbose(s) == Some(i) && i > 0
    ensures !IsVerbose(s[0]) && FirstVerbose(s[1..]) == Some(i - 1)
  {
  }

  /** Erasing past the head keeps the head. */
  lemma RemoveAtCons(s: seq<string>, i: nat)
    requires 0 < i < |s|
    ensures RemoveAt(s, i)[0] == s[0] && RemoveAt(s, i)[1..] == RemoveAt(s[1..], i - 1)
  {
    assert RemoveAt(s, i) == [s[0]] + RemoveAt(s[1..], i - 1);
  }

  /** Lines 19-34: the verbose setting and the arguments left. */
  function StripVerbose(args: seq<string>): (r: (bool, seq<string>))
  {
    match FirstVerbose(args)
    case None => (false, args)
    case Some(i) =>
      var once := RemoveAt(args, i);
      match FirstVerbose(once)
      case None => (true, once)
      case Some(k) => (true, RemoveAt(once, k))
  }

  /** Verbose is set iff a flag occurs; the other arguments all stay, in order; the first one
      or two flags go, so a third stays. */
  lemma StripVerboseEffect(args: seq<string>)
    ensures var r := StripVerbose(args);
      && (r.0 <==> FlagCount(args) > 0)
      && NonFlags(r.1) == NonFlags(args)
      && FlagCount(r.1) == (if FlagCount(args) <= 2 then 0 else FlagCount(args) - 2)
      && r.1 == DropFlags(args, 2)
  {
    NoFlagsCounted(args);
    StripVerboseDrops(args);
    match FirstVerbose(args)
    case None =>
    case Some(i) =>
      var once := RemoveAt(args, i);
      RemoveFlag(args, i);
      NoFlagsCounted(once);
      match FirstVerbose(once)
      case None =>
      case Some(k) => RemoveFlag(once, k);
  }

  /** The arguments left are the arguments without their first two flags. */
  lemma StripVerboseDrops(args: seq<string>)
    ensures StripVerbose(args).1 == DropFlags(args, 2)
  {
    match FirstVerbose(args)
    case None =>
      assert StripVerbose(args).1 == args;
      DropNone(args, 2);
    case Some(i) =>
      var once := RemoveAt(args, i);
      DropFirst(args, i, 1);
      assert DropFlags(args, 2) == DropFlags(once, 1);
      match FirstVerbose(once)
      case None =>
        assert StripVerbose(args).1 == once;
        DropNone(once, 1);
        assert DropFlags(once, 1) == once;
      case Some(k) =>
        var twice := RemoveAt(once, k);
        assert StripVerbose(args).1 == twice;
        DropOne(once, k);
  }

  /** Erasing the first flag is dropping exactly one. */
  lemma DropOne(s: seq<string>, i: nat)
    requires FirstVerbose(s) == Some(i)
    ensures DropFlags(s, 1) == RemoveAt(s, i)
  {
    DropFirst(s, i, 0);
    DropZero(RemoveAt(s, i));
  }

  datatype Action =
    | ShowVersion
    | Usage
    | Install(packages: seq<string>)
    | Run(files: seq<string>)
    | MissingArguments(command: string)
    | UnknownCommand(command: string)

  datatype Outcome = Outcome(verbose: bool, action: Action, exitCode: int)

  /** Lines 37-86 on the arguments left after the verbose flags. */
  function Dispatch(verbose: bool, args: seq<string>): (o: Outcome)
    ensures o.verbose == verbose
    ensures o.exitCode == 0 <==> o.action.ShowVersion? || o.action.Install? || o.action.Run?
    ensures o.action.ShowVersion? <==> "--version" in args
    ensures o.action.Install? ==> args != [] && o.action.packages == args[1..] && o.action.packages != []
    ensures o.action.Run? ==> args != [] && o.action.files == args[1..] && o.action.files != []
    ensures o.action.Usage? <==> "--version" !in args && args == []
  {
    if "--version" in args then Outcome(verbose, ShowVersion, 0)
    else if args == [] then Outcome(verbose, Usage, 1)
    else
      var command := args[0];
      var commandArgs := args[1..];
      if command == "install" then
        if commandArgs == [] then Outcome(verbose, MissingArguments(command), 1)
        else Outcome(verbose, Install(commandArgs), 0)
      else if command == "run" then
        if commandArgs == [] then Outcome(verbose, MissingArguments(command), 1)
        else Outcome(verbose, Run(commandArgs), 0)
      else Outcome(verbose, UnknownCommand(command), 1)
  }

  /** The whole of `main` on `argv` (program name first). */
  function MainOf(argv: seq<string>): Outcome {
    var r := StripVerbose(if argv == [] then [] else argv[1..]);
    Dispatch(r.0, r.1)
  }

  /** `main`: `args` is filled from `argv[1..]` with `push_back`, then the first one or two
      verbose flags are erased. */
  method Launch(argv: seq<string>) returns (o: Outcome)
    ensures o == MainOf(argv)
    ensures o.verbose <==> exists i :: 1 <= i < |argv| && IsVerbose(argv[i])
  {
    var args: seq<string> := [];
    if argv != [] {
      for i := 1 to |argv|
        invariant args == argv[1..i]
      {
        args := args + [argv[i]];
      }
    }
    assert argv != [] ==> args == argv[1..];
    var verbose := false;
    var first := FirstVerbose(args);
    if first.Some? {
      verbose := true;
      args := RemoveAt(args, first.value);
      var second := FirstVerbose(args);
      if second.Some? {
        args := RemoveAt(args, second.value);
      }
    }
    o := Dispatch(verbose, args);
    ghost var rest := if argv == [] then [] else argv[1..];
    assert o.verbose <==> FirstVerbose(rest).Some?;
    assert forall i :: 1 <= i < |argv| ==> argv[i] == rest[i - 1];
  }

  /** `--version` anywhere after the program name, other than as a verbose flag, which it is not,
      wins over every command: exit code 0. */
  lemma VersionWins(argv: seq<string>)
    requires exists i :: 1 <= i < |argv| && argv[i] == "--version"
    ensures MainOf(argv).action == ShowVersion && MainOf(argv).exitCode == 0
  {
    var i :| 1 <= i < |argv| && argv[i] == "--version";
    var rest := argv[1..];
    assert rest[i - 1] == argv[i];
    assert !IsVerbose("--version") by {
      assert "--version"[5] != "--verbose"[5];
    }
    NonFlagStays(rest, i - 1);
  }

  /** An argument that is not a verbose flag survives their removal. */
  lemma NonFlagStays(args: seq<string>, i: nat)
    requires i < |args| && !IsVerbose(args[i])
    ensures args[i] in StripVerbose(args).1
  {
    StripVerboseEffect(args);
    NonFlagsKeep(args, i);
    NonFlagsIn(StripVerbose(args).1, args[i]);
  }

  lemma {:induction false} NonFlagsKeep(s: seq<string>, i: nat)
    requires i < |s| && !IsVerbose(s[i])
    ensures s[i] in NonFlags(s)
  {
    if i > 0 {
      NonFlagsKeep(s[1..], i - 1);
    }
  }

  lemma {:induction false} NonFlagsIn(s: seq<string>, x: string)
    requires x in NonFlags(s)
    ensures x in s
  {
    if s != [] && (IsVerbose(s[0]) || x != s[0]) {
      NonFlagsIn(s[1..], x);
    }
  }

  /** The exit code is 0 exactly when `--version` is given or a command runs with arguments. */
  lemma ExitCodes(argv: seq<string>)
    ensures var args := StripVerbose(if argv == [] then [] else argv[1..]).1;
      MainOf(argv).exitCode == 0 <==>
        "--version" in args || (|args| >= 2 && (args[0] == "install" || args[0] == "run"))
  {
  }
}
