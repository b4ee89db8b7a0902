/**
  The three Python string operations the scripts use on file names:
  `str.startswith`, `str.endswith` and slicing `s[lo:hi]` with
  non-negative bounds. Python compares code points, so a `string` here is
  a plain `seq<char>` and nothing is case-folded.
 */
module Strings {

  function Min(a: nat, b: nat): nat {
    if a <= b then a else b
  }

  /** `s.startswith(prefix)`. */
  predicate StartsWith(s: string, prefix: string) {
    |prefix| <= |s| && s[..|prefix|] == prefix
  }

  /** `s.endswith(suffix)`. */
  predicate EndsWith(s: string, suffix: string) {
    |suffix| <= |s| && s[|s| - |suffix|..] == suffix
  }

  /**
    `s[lo:hi]` for non-negative `lo` and `hi`: both bounds are clamped to
    the length of `s`, and an empty string results when the clamped `lo`
    is not below the clamped `hi`. Slicing never fails.
   */
  function Slice(s: string, lo: nat, hi: nat): (r: string)
    ensures |r| == if lo < hi && lo < |s| then Min(hi, |s|) - lo else 0
    ensures forall k :: 0 <= k < |r| ==> r[k] == s[lo + k]
  {
    var a, b := Min(lo, |s|), Min(hi, |s|);
    if a < b then s[a..b] else []
  }

  /** `startswith` holds exactly when `s` is `prefix` followed by something. */
  lemma StartsWithIffPrefix(s: string, prefix: string)
    ensures StartsWith(s, prefix) <==> exists rest :: s == prefix + rest
  {
    if StartsWith(s, prefix) {
      assert s == prefix + s[|prefix|..];
    }
    if rest :| s == prefix + rest {
      assert s[..|prefix|] == prefix;
    }
  }

  /** `endswith` holds exactly when `s` is something followed by `suffix`. */
  lemma EndsWithIffSuffix(s: string, suffix: string)
    ensures EndsWith(s, suffix) <==> exists front :: s == front + suffix
  {
    if EndsWith(s, suffix) {
      assert s == s[..|s| - |suffix|] + suffix;
    }
    if front :| s == front + suffix {
      assert s[|s| - |suffix|..] == suffix;
    }
  }

  /** When `s` is long enough, the slice is the ordinary subsequence. */
  lemma SliceInRange(s: string, lo: nat, hi: nat)
    requires lo <= hi <= |s|
    ensures Slice(s, lo, hi) == s[lo..hi]
  {
    var r := Slice(s, lo, hi);
    assert |r| == hi - lo;
    forall k | 0 <= k < |r|
      ensures r[k] == s[lo..hi][k]
    {
    }
  }
}
