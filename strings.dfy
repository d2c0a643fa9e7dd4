/** String helpers shared by the modules: searching, splitting, trimming and path joining. */
module Strings {
  import opened Wrappers

  predicate StartsWith(s: string, prefix: string) {
    |prefix| <= |s| && s[..|prefix|] == prefix
  }

  predicate EndsWith(s: string, suffix: string) {
    |suffix| <= |s| && s[|s| - |suffix|..] == suffix
  }

  /** The first index at or after `from` holding a character of `cs` (C++ `find_first_of`). */
  function FindAny(s: string, cs: set<char>, from: nat): (r: Option<nat>)
    ensures r.Some? ==> from <= r.value < |s| && s[r.value] in cs
    ensures r.Some? ==> forall j :: from <= j < r.value ==> s[j] !in cs
    ensures r.None? ==> forall j :: from <= j < |s| ==> s[j] !in cs
    decreases |s| - from
  {
    if from >= |s| then None
    else if s[from] in cs then Some(from)
    else FindAny(s, cs, from + 1)
  }

  /** The first index at or after `from` holding `c` (C++ `find(c, from)`, Rust `find`). */
  function FindChar(s: string, c: char, from: nat): (r: Option<nat>)
    ensures r.Some? ==> from <= r.value < |s| && s[r.value] == c
    ensures r.Some? ==> forall j :: from <= j < r.value ==> s[j] != c
    ensures r.None? ==> forall j :: from <= j < |s| ==> s[j] != c
  {
    FindAny(s, {c}, from)
  }

  predicate OccursAt(s: string, sub: string, i: nat) {
    i + |sub| <= |s| && s[i..i + |sub|] == sub
  }

  /** The first index at or after `from` where `sub` occurs (C++ `find(sub, from)`). */
  function FindSub(s: string, sub: string, from: nat): (r: Option<nat>)
    ensures r.Some? ==> from <= r.value && OccursAt(s, sub, r.value)
    ensures r.Some? ==> forall j :: from <= j < r.value ==> !OccursAt(s, sub, j)
    ensures r.None? ==> forall j :: from <= j ==> !OccursAt(s, sub, j)
    decreases |s| - from
  {
    if from + |sub| > |s| then None
    else if s[from..from + |sub|] == sub then Some(from)
    else FindSub(s, sub, from + 1)
  }

  /** `s` with every leading `c` removed (Rust `trim_start_matches(c)`). */
  function TrimStart(s: string, c: char): (r: string)
    ensures |r| <= |s| && r == s[|s| - |r|..]
    ensures forall i :: 0 <= i < |s| - |r| ==> s[i] == c
    ensures r != [] ==> r[0] != c
  {
    if s != [] && s[0] == c then TrimStart(s[1..], c) else s
  }

  /** Rust `str::split(c)`: the pieces between the occurrences of `c`, empty pieces included. */
  function Split(s: string, c: char): (parts: seq<string>)
    ensures |parts| >= 1
    ensures forall i :: 0 <= i < |parts| ==> c !in parts[i]
    decreases |s|
  {
    match FindChar(s, c, 0)
    case None => [s]
    case Some(i) => [s[..i]] + Split(s[i + 1..], c)
  }

  /** The pieces glued back together with `c` between them. */
  function Glue(parts: seq<string>, c: char): string
    requires |parts| >= 1
  {
    if |parts| == 1 then parts[0] else parts[0] + [c] + Glue(parts[1..], c)
  }

  lemma {:induction false} SplitGlue(s: string, c: char)
    ensures Glue(Split(s, c), c) == s
    decreases |s|
  {
    match FindChar(s, c, 0)
    case None =>
    case Some(i) =>
      SplitGlue(s[i + 1..], c);
      assert Split(s, c) == [s[..i]] + Split(s[i + 1..], c);
      assert s == s[..i] + [c] + s[i + 1..];
  }

  /** Splitting at a separator placed between two strings splits each of them. */
  lemma {:induction false} SplitAround(a: string, b: string, c: char)
    ensures Split(a + [c] + b, c) == Split(a, c) + Split(b, c)
    decreases |a|
  {
    var s := a + [c] + b;
    var f := FindChar(a, c, 0);
    if f.None? {
      FindFirst(s, c, |a|);
      assert s[..|a|] == a && s[|a| + 1..] == b;
      assert Split(s, c) == [a] + Split(b, c);
    } else {
      var i := f.value;
      FindFirst(s, c, i);
      assert s[..i] == a[..i];
      assert s[i + 1..] == a[i + 1..] + [c] + b;
      SplitAround(a[i + 1..], b, c);
      assert Split(s, c) == [a[..i]] + Split(a[i + 1..] + [c] + b, c);
    }
  }

  /** A string without the separator is one piece. */
  lemma SplitWithout(s: string, c: char)
    requires c !in s
    ensures Split(s, c) == [s]
  {
    assert FindChar(s, c, 0).None?;
  }

  /** The first `c` of `s` is at `i` when `s[i]` is one and none comes before it. */
  lemma FindFirst(s: string, c: char, i: nat)
    requires i < |s| && s[i] == c && forall j :: 0 <= j < i ==> s[j] != c
    ensures FindChar(s, c, 0) == Some(i)
  {
  }

  /** A path is absolute when it starts at the root. */
  predicate IsAbsolute(p: string) {
    p != [] && p[0] == '/'
  }

  /** Joining two paths (Rust `Path::join`, C++ `operator/`): an absolute second path replaces
      the first; otherwise one separator is put between them. */
  function Join(a: string, b: string): (r: string)
    ensures IsAbsolute(b) ==> r == b
    ensures !IsAbsolute(b) && a != [] && !EndsWith(a, "/") ==> r == a + "/" + b
  {
    if IsAbsolute(b) then b
    else if a == [] then b
    else if a[|a| - 1] == '/' then a + b
    else a + "/" + b
  }

  /** Joining `scope/name` under a directory puts one separator before the scope. */
  lemma JoinUnder(a: string, s: string, p: string)
    requires a != [] && a[|a| - 1] != '/' && s != [] && s[0] != '/'
    ensures Join(a, s + "/" + p) == a + "/" + s + "/" + p
  {
    var name := s + "/" + p;
    assert name[0] == s[0];
    assert a + "/" + name == a + "/" + s + "/" + p;
  }

  /** Joining a scope directory and then a name gives the same path as joining "scope/name". */
  lemma JoinTwice(a: string, s: string, p: string)
    requires a != [] && !EndsWith(a, "/")
    requires s != [] && s[0] != '/' && !EndsWith(s, "/")
    requires p == [] || p[0] != '/'
    ensures Join(Join(a, s), p) == Join(a, s + "/" + p)
  {
    var ja := Join(a, s);
    assert ja == a + "/" + s;
    assert ja[|ja| - 1] == s[|s| - 1];
    assert ja[|ja| - 1..] == s[|s| - 1..];
    if p == [] {
    } else {
      assert !IsAbsolute(p);
      assert Join(ja, p) == ja + "/" + p;
    }
    assert !IsAbsolute(s + "/" + p) by { assert (s + "/" + p)[0] == s[0]; }
  }

  /** Decimal digits of a natural number. */
  function NatToString(n: nat): (r: string)
    ensures r != []
    ensures forall i :: 0 <= i < |r| ==> '0' <= r[i] <= '9'
  {
    if n < 10 then [DigitChar(n)] else NatToString(n / 10) + [DigitChar(n % 10)]
  }

  function DigitChar(d: nat): (c: char)
    requires d < 10
    ensures '0' <= c <= '9'
  {
    ['0', '1', '2', '3', '4', '5', '6', '7', '8', '9'][d]
  }
}
