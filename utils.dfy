/** The helpers of src/utils.ts, and the JavaScript values they inspect. */
module Utils {

  /** A JavaScript value, as far as the core looks at one. Numbers are split into the
      integer-valued ones and the rest (NaN, the infinities, non-integers); a BigInt is
      neither, since `Number.isInteger` is false for it. */
  datatype JsValue =
    | Undefined
    | Null
    | Bool(b: bool)
    | Num(n: int)
    | OtherNumber(isNaN: bool)
    | BigInt(i: int)
    | Str(s: string)
    | Error(message: string)
    | OtherObject

  /** JavaScript truthiness: what `!v` negates. */
  predicate Truthy(v: JsValue) {
    match v
    case Undefined => false
    case Null => false
    case Bool(b) => b
    case Num(n) => n != 0
    case OtherNumber(nan) => !nan
    case BigInt(i) => i != 0
    case Str(s) => s != []
    case Error(_) => true
    case OtherObject => true
  }

  /** `isNil`: the value is `null` or `undefined`. */
  function IsNil(v: JsValue): (r: bool)
    ensures r <==> v.Null? || v.Undefined?
    ensures r ==> !Truthy(v)
  {
    v == Null || v == Undefined
  }

  /** The values that are defined and yet falsy, the ones `!isNil(v) && !v` accepts. */
  lemma DefinedFalsyValues(v: JsValue)
    ensures (!IsNil(v) && !Truthy(v)) <==> v in {Bool(false), Num(0), OtherNumber(true), BigInt(0), Str([])}
  {
  }

  predicate AllSlashes(s: string) {
    forall k :: 0 <= k < |s| ==> s[k] == '/'
  }

  /** `r` is `s` without the run of '/' that ends it. */
  predicate IsTrailingTrim(s: string, r: string) {
    r <= s && AllSlashes(s[|r|..]) && (r == [] || r[|r| - 1] != '/')
  }

  /** `r` is `s` without the run of '/' that starts it. */
  predicate IsLeadingTrim(s: string, r: string) {
    |r| <= |s| && r == s[|s| - |r|..] && AllSlashes(s[..|s| - |r|]) && (r == [] || r[0] != '/')
  }

  /** `s.replace(/\/+$/, '')`. */
  function TrimTrailingSlashes(s: string): string
    decreases |s|
  {
    if s != [] && s[|s| - 1] == '/' then TrimTrailingSlashes(s[..|s| - 1]) else s
  }

  lemma {:induction false} TrimTrailingSlashesIsTrim(s: string)
    ensures IsTrailingTrim(s, TrimTrailingSlashes(s))
    decreases |s|
  {
    if s != [] && s[|s| - 1] == '/' {
      var s' := s[..|s| - 1];
      TrimTrailingSlashesIsTrim(s');
      var r := TrimTrailingSlashes(s');
      assert s[|r|..] == s'[|r|..] + ['/'];
    }
  }

  /** `s.replace(/^\/+/, '')`. */
  function TrimLeadingSlashes(s: string): string
    decreases |s|
  {
    if s != [] && s[0] == '/' then TrimLeadingSlashes(s[1..]) else s
  }

  lemma {:induction false} TrimLeadingSlashesIsTrim(s: string)
    ensures IsLeadingTrim(s, TrimLeadingSlashes(s))
    decreases |s|
  {
    if s != [] && s[0] == '/' {
      TrimLeadingSlashesIsTrim(s[1..]);
      var r := TrimLeadingSlashes(s[1..]);
      assert s[1..][|s| - 1 - |r|..] == s[|s| - |r|..];
      assert s[..|s| - |r|] == [s[0]] + s[1..][..|s| - 1 - |r|];
    }
  }

  lemma TrailingTrimUnique(s: string, r1: string, r2: string)
    requires IsTrailingTrim(s, r1) && IsTrailingTrim(s, r2)
    ensures r1 == r2
  {
  }

  lemma LeadingTrimUnique(s: string, r1: string, r2: string)
    requires IsLeadingTrim(s, r1) && IsLeadingTrim(s, r2)
    ensures r1 == r2
  {
  }

  /** `r` is the trimmed base, then the '/' at position `k`, then the trimmed relative part. */
  predicate IsSlashJoinAt(base: string, rel: string, r: string, k: nat) {
    k < |r| && r[k] == '/' && IsTrailingTrim(base, r[..k]) && IsLeadingTrim(rel, r[k + 1..])
  }

  /** `r` is the trimmed base, exactly one '/', then the trimmed relative part. */
  ghost predicate IsSlashJoin(base: string, rel: string, r: string) {
    exists k: nat :: IsSlashJoinAt(base, rel, r, k)
  }

  /** `combineURLs`: an empty relative part leaves the base as it is; otherwise the base loses
      its trailing slashes, the relative part its leading ones, and one '/' joins them. */
  function CombineURLs(baseURL: string, relativeURL: string): string
  {
    if relativeURL != [] then TrimTrailingSlashes(baseURL) + "/" + TrimLeadingSlashes(relativeURL) else baseURL
  }

  /** What `CombineURLs` computes, stated without its body: the base unchanged for an empty
      relative part, and a slash join otherwise. */
  lemma CombineURLsIsSlashJoin(baseURL: string, relativeURL: string)
    ensures relativeURL == [] ==> CombineURLs(baseURL, relativeURL) == baseURL
    ensures relativeURL != [] ==> IsSlashJoin(baseURL, relativeURL, CombineURLs(baseURL, relativeURL))
  {
    if relativeURL != [] {
      var b, rel := TrimTrailingSlashes(baseURL), TrimLeadingSlashes(relativeURL);
      TrimTrailingSlashesIsTrim(baseURL);
      TrimLeadingSlashesIsTrim(relativeURL);
      var r := b + "/" + rel;
      assert r[..|b|] == b && r[|b|] == '/' && r[|b| + 1..] == rel;
      assert IsSlashJoinAt(baseURL, relativeURL, r, |b|);
    }
  }

  /** The join is determined: at most one string is a slash join of a base and a relative
      part, so `CombineURLs` is the only function meeting its contract. */
  lemma SlashJoinUnique(base: string, rel: string, r1: string, r2: string)
    requires IsSlashJoin(base, rel, r1) && IsSlashJoin(base, rel, r2)
    ensures r1 == r2
  {
    var k1: nat :| IsSlashJoinAt(base, rel, r1, k1);
    var k2: nat :| IsSlashJoinAt(base, rel, r2, k2);
    SlashJoinAtUnique(base, rel, r1, k1, r2, k2);
  }

  lemma SlashJoinAtUnique(base: string, rel: string, r1: string, k1: nat, r2: string, k2: nat)
    requires IsSlashJoinAt(base, rel, r1, k1) && IsSlashJoinAt(base, rel, r2, k2)
    ensures r1 == r2
  {
    TrailingTrimUnique(base, r1[..k1], r2[..k2]);
    LeadingTrimUnique(rel, r1[k1 + 1..], r2[k2 + 1..]);
    assert r1 == r1[..k1] + [r1[k1]] + r1[k1 + 1..];
    assert r2 == r2[..k2] + [r2[k2]] + r2[k2 + 1..];
  }

  /** A non-empty relative part made only of slashes leaves the trimmed base and one '/'. */
  lemma CombineWithOnlySlashes(baseURL: string, relativeURL: string)
    requires relativeURL != [] && AllSlashes(relativeURL)
    ensures CombineURLs(baseURL, relativeURL) == TrimTrailingSlashes(baseURL) + "/"
  {
    TrimLeadingSlashesIsTrim(relativeURL);
  }

  /** Without a relative part, the base comes back unchanged, whatever slashes it has. */
  lemma CombineWithEmptyRelative(baseURL: string)
    ensures CombineURLs(baseURL, "") == baseURL
  {
  }

  /** Trimming a literal: the trim is pinned down by its characterisation. */
  lemma TrimmedForms(base: string, b: string, rel: string, q: string)
    requires rel != []
    requires IsTrailingTrim(base, b) && IsLeadingTrim(rel, q)
    ensures CombineURLs(base, rel) == b + "/" + q
  {
    TrimTrailingSlashesIsTrim(base);
    TrimLeadingSlashesIsTrim(rel);
    TrailingTrimUnique(base, b, TrimTrailingSlashes(base));
    LeadingTrimUnique(rel, q, TrimLeadingSlashes(rel));
  }

  lemma CombineURLsExamples()
    ensures CombineURLs("a/", "/b") == "a/b"
    ensures CombineURLs("a", "b") == "a/b"
    ensures CombineURLs("a/", "b") == "a/b"
    ensures CombineURLs("a///", "///b") == "a/b"
  {
    assert TrimTrailingSlashes("a///") == "a" by {
      assert "a///"[..3] == "a//" && "a//"[..2] == "a/" && "a/"[..1] == "a";
    }
    assert TrimLeadingSlashes("///b") == "b" by {
      assert "///b"[1..] == "//b" && "//b"[1..] == "/b" && "/b"[1..] == "b";
    }
  }
}
