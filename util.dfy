/** Scoped-name normalisation of `src/util.rs`. */
module Util {
  import opened Strings

  /** Every `/` of `s` replaced by `%2f` (Rust `str::replace('/', "%2f")`). */
  function EncodeSlashes(s: string): (r: string)
    decreases |s|
  {
    if s == [] then []
    else (if s[0] == '/' then "%2f" else [s[0]]) + EncodeSlashes(s[1..])
  }

  /** Scoped names (`@scope/pkg`) get their slashes percent-encoded; other names are kept. */
  function NormalizePackageName(name: string): (r: string)
    ensures !StartsWith(name, "@") ==> r == name
    ensures StartsWith(name, "@") ==> StartsWith(r, "@")
  {
    if StartsWith(name, "@") then
      EncodeOfFirst(name);
      EncodeSlashes(name)
    else name
  }

  lemma EncodeOfFirst(s: string)
    requires s != [] && s[0] != '/'
    ensures EncodeSlashes(s) != [] && EncodeSlashes(s)[0] == s[0]
  {
  }

  function CountChar(s: string, c: char): nat {
    if s == [] then 0 else (if s[0] == c then 1 else 0) + CountChar(s[1..], c)
  }

  /** Collapsing each `%2f` back to `/`: the inverse of `EncodeSlashes` on names without `%`. */
  function DecodeSlashes(s: string): string
    decreases |s|
  {
    if s == [] then []
    else if |s| >= 3 && s[..3] == "%2f" then "/" + DecodeSlashes(s[3..])
    else [s[0]] + DecodeSlashes(s[1..])
  }

  lemma {:induction false} EncodeHasNoSlash(s: string)
    ensures '/' !in EncodeSlashes(s)
    decreases |s|
  {
    if s != [] { EncodeHasNoSlash(s[1..]); }
  }

  lemma {:induction false} EncodeLength(s: string)
    ensures |EncodeSlashes(s)| == |s| + 2 * CountChar(s, '/')
    decreases |s|
  {
    if s != [] { EncodeLength(s[1..]); }
  }

  lemma {:induction false} EncodeWithoutSlash(s: string)
    requires '/' !in s
    ensures EncodeSlashes(s) == s
    decreases |s|
  {
    if s != [] {
      assert '/' !in s[1..] by { assert forall i :: 0 <= i < |s| - 1 ==> s[1..][i] == s[i + 1]; }
      EncodeWithoutSlash(s[1..]);
      assert s == [s[0]] + s[1..];
    }
  }

  lemma {:induction false} DecodeEncode(s: string)
    requires '%' !in s
    ensures DecodeSlashes(EncodeSlashes(s)) == s
    decreases |s|
  {
    if s != [] {
      assert '%' !in s[1..] by { assert forall i :: 0 <= i < |s| - 1 ==> s[1..][i] == s[i + 1]; }
      DecodeEncode(s[1..]);
      var e := EncodeSlashes(s);
      var tail := EncodeSlashes(s[1..]);
      if s[0] == '/' {
        assert e == "%2f" + tail;
        assert e[..3] == "%2f" && e[3..] == tail;
      } else {
        assert e == [s[0]] + tail;
        assert e[0] != '%';
        assert e[1..] == tail;
      }
      assert s == [s[0]] + s[1..];
    }
  }

  /** A scoped name is freed of every `/`, growing by two characters for each. */
  lemma NormalizeScoped(name: string)
    requires StartsWith(name, "@")
    ensures '/' !in NormalizePackageName(name)
    ensures |NormalizePackageName(name)| == |name| + 2 * CountChar(name, '/')
  {
    EncodeHasNoSlash(name);
    EncodeLength(name);
  }

  /** Without a `%` in the name, the original name can be read back from the normalised one. */
  lemma NormalizeScopedRoundTrip(name: string)
    requires StartsWith(name, "@") && '%' !in name
    ensures DecodeSlashes(NormalizePackageName(name)) == name
  {
    DecodeEncode(name);
  }

  /** Normalising twice is normalising once. */
  lemma NormalizeIdempotent(name: string)
    ensures NormalizePackageName(NormalizePackageName(name)) == NormalizePackageName(name)
  {
    if StartsWith(name, "@") {
      var once := NormalizePackageName(name);
      EncodeHasNoSlash(name);
      EncodeWithoutSlash(once);
    }
  }
}
