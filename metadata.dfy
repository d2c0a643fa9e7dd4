/** Reading an npm registry metadata document, as both Rust installers do. */
module Metadata {
  import opened Wrappers
  import opened Strings
  import opened Json

  /** `dist-tags.latest`, when it is a string. */
  function LatestTag(doc: Json): Option<string> {
    AsStr(GetIn(Get(doc, "dist-tags"), "latest"))
  }

  /** `versions.<version>.dist.tarball`, when it is a string. */
  function TarballUrl(doc: Json, version: string): Option<string> {
    AsStr(GetIn(GetIn(GetIn(Get(doc, "versions"), version), "dist"), "tarball"))
  }

  /** `r` is `s` without its first `a` characters, all `^`, and the `b` after them, all `~`;
      both runs are maximal: `~` does not follow them, and `^` does not follow an empty `~` run. */
  predicate TrimmedBy(s: string, r: string, a: nat, b: nat) {
    && a + b <= |s| && r == s[a + b..]
    && (forall i :: 0 <= i < a ==> s[i] == '^')
    && (forall i :: a <= i < a + b ==> s[i] == '~')
    && (a + b < |s| ==> s[a + b] != '~')
    && (b == 0 && a < |s| ==> s[a] != '^')
  }

  /** `r` is `s` with its leading run of `^` and then its leading run of `~` removed. */
  ghost predicate TrimmedOf(s: string, r: string) {
    exists a: nat, b: nat :: TrimmedBy(s, r, a, b)
  }

  /** `trim_start_matches('^').trim_start_matches('~')`. */
  function StripRange(s: string): (r: string)
    ensures TrimmedOf(s, r)
    ensures s == [] || (s[0] != '^' && s[0] != '~') ==> r == s
  {
    var t := TrimStart(s, '^');
    var r := TrimStart(t, '~');
    TrimStartTwice(s, t, r);
    r
  }

  /** `r` is what is left of `s` after a leading run of `c`, all of it, is removed. */
  predicate RunRemoved(s: string, c: char, r: string) {
    && |r| <= |s| && r == s[|s| - |r|..]
    && (forall i :: 0 <= i < |s| - |r| ==> s[i] == c)
    && (r != [] ==> r[0] != c)
  }

  /** The two runs `TrimStart` removes are the ones `TrimmedBy` describes. */
  lemma TrimStartTwice(s: string, t: string, r: string)
    requires RunRemoved(s, '^', t) && RunRemoved(t, '~', r)
    ensures TrimmedBy(s, r, |s| - |t|, |t| - |r|)
  {
    var a := |s| - |t|;
    var b := |t| - |r|;
    assert t[b..] == s[a + b..];
    forall i | a <= i < a + b ensures s[i] == '~' {
      assert s[i] == t[i - a];
    }
    if a + b < |s| {
      assert s[a + b] == r[0];
    }
    if b == 0 && a < |s| {
      assert s[a] == t[0];
    }
  }

  /** A maximal leading run of `c` is exactly what `TrimStart` removes. */
  lemma {:induction false} LeadingRun(s: string, c: char, a: nat)
    requires a <= |s| && (forall i :: 0 <= i < a ==> s[i] == c) && (a < |s| ==> s[a] != c)
    ensures TrimStart(s, c) == s[a..]
    decreases a
  {
    if a > 0 {
      assert s[0] == c;
      forall i | 0 <= i < a - 1 ensures s[1..][i] == c {
        assert s[i + 1] == c;
      }
      LeadingRun(s[1..], c, a - 1);
      assert s[1..][a - 1..] == s[a..];
    }
  }

  /** Every result the characterisation admits is the one `StripRange` computes. */
  lemma TrimmedByIsStrip(s: string, r: string, a: nat, b: nat)
    requires TrimmedBy(s, r, a, b)
    ensures r == StripRange(s)
  {
    if b > 0 {
      assert s[a] == '~';
    }
    LeadingRun(s, '^', a);
    var t := s[a..];
    forall i | 0 <= i < b ensures t[i] == '~' {
      assert t[i] == s[a + i];
    }
    if b < |t| {
      assert t[b] == s[a + b];
    }
    LeadingRun(t, '~', b);
    assert t[b..] == s[a + b..];
  }

  /** Only one string is `s` trimmed this way. */
  lemma TrimmedOfUnique(s: string, r1: string, r2: string)
    requires TrimmedOf(s, r1) && TrimmedOf(s, r2)
    ensures r1 == r2
  {
    var a1: nat, b1: nat :| TrimmedBy(s, r1, a1, b1);
    var a2: nat, b2: nat :| TrimmedBy(s, r2, a2, b2);
    TrimmedByIsStrip(s, r1, a1, b1);
    TrimmedByIsStrip(s, r2, a2, b2);
  }

  /** Carets are stripped before tildes: a `~` after the `^`s goes, but a `^` after the `~`s
      stays. */
  lemma StripRangeOrder()
    ensures StripRange("^~1.2") == "1.2"
    ensures StripRange("~^1.2") == "^1.2"
  {
    StripCaretThenTilde();
    StripTildeKeepsCaret();
  }

  lemma StripCaretThenTilde()
    ensures StripRange("^~1.2") == "1.2"
  {
    var s := "^~1.2";
    assert TrimmedBy(s, "1.2", 1, 1) by {
      assert s[0] == '^' && s[1] == '~' && s[2] == '1';
      assert s[2..] == "1.2";
    }
    TrimmedByIsStrip(s, "1.2", 1, 1);
  }

  lemma StripTildeKeepsCaret()
    ensures StripRange("~^1.2") == "^1.2"
  {
    var s := "~^1.2";
    assert TrimmedBy(s, "^1.2", 0, 1) by {
      assert s[0] == '~' && s[1] == '^';
      assert s[1..] == "^1.2";
    }
    TrimmedByIsStrip(s, "^1.2", 0, 1);
  }

  lemma StripCaretExample()
    ensures StripRange("^1.0.0") == "1.0.0"
  {
    var s := "^1.0.0";
    assert TrimmedBy(s, "1.0.0", 1, 0) by {
      assert s[0] == '^' && s[1] == '1';
      assert s[1..] == "1.0.0";
    }
    TrimmedByIsStrip(s, "1.0.0", 1, 0);
  }

  /** Each run is stripped once: a `^` run after the `~` run is kept. */
  lemma StripRangeOnce()
    ensures StripRange("^^~~^1") == "^1"
  {
    var s := "^^~~^1";
    assert TrimmedBy(s, "^1", 2, 2) by {
      assert s[0] == '^' && s[1] == '^' && s[2] == '~' && s[3] == '~' && s[4] == '^';
      assert s[4..] == "^1";
    }
    TrimmedByIsStrip(s, "^1", 2, 2);
  }
}
