/**
 * Two string operations the blog relies on: Rust's `str::trim`, applied
 * to a post's body, and the lexicographic `cmp` on `String` that the date
 * sort uses.
 */
module Text {

  // ---------------------------------------------------------------------
  // Whitespace and trimming
  // ---------------------------------------------------------------------

  /**
   * Rust's `char::is_whitespace`: the 25 code points with the Unicode
   * White_Space property, U+0009 to U+000D, U+0020, U+0085, U+00A0,
   * U+1680, U+2000 to U+200A, U+2028, U+2029, U+202F, U+205F and U+3000.
   */
  predicate IsWhitespace(c: char) {
    || ('\U{0009}' <= c <= '\U{000D}')
    || c == ' ' || c == '\U{0085}' || c == '\U{00A0}' || c == '\U{1680}'
    || ('\U{2000}' <= c <= '\U{200A}')
    || c == '\U{2028}' || c == '\U{2029}' || c == '\U{202F}' || c == '\U{205F}' || c == '\U{3000}'
  }

  /** Every character of `s` from index `lo` up to `hi` is whitespace. */
  predicate WhitespaceBetween(s: string, lo: nat, hi: nat) {
    forall i :: lo <= i < hi && i < |s| ==> IsWhitespace(s[i])
  }

  predicate AllWhitespace(s: string) {
    WhitespaceBetween(s, 0, |s|)
  }

  /** Neither end of `s` is whitespace. */
  predicate IsTrimmed(s: string) {
    s == [] || (!IsWhitespace(s[0]) && !IsWhitespace(s[|s| - 1]))
  }

  /** `str::trim_start`: drop the longest whitespace prefix. */
  function TrimStart(s: string): string
    decreases |s|
  {
    if s != [] && IsWhitespace(s[0]) then TrimStart(s[1..]) else s
  }

  /** `str::trim_end`: drop the longest whitespace suffix. */
  function TrimEnd(s: string): string
    decreases |s|
  {
    if s != [] && IsWhitespace(s[|s| - 1]) then TrimEnd(s[..|s| - 1]) else s
  }

  /** `str::trim`. */
  function Trim(s: string): string {
    TrimEnd(TrimStart(s))
  }

  /**
   * `TrimStart(s)` is a suffix of `s`, what it cut is whitespace, and it
   * does not start with whitespace.
   */
  lemma {:induction false} TrimStartSpec(s: string)
    ensures var r := TrimStart(s);
      && |r| <= |s| && r == s[|s| - |r|..]
      && WhitespaceBetween(s, 0, |s| - |r|)
      && (r == [] || !IsWhitespace(r[0]))
    decreases |s|
  {
    if s != [] && IsWhitespace(s[0]) {
      TrimStartSpec(s[1..]);
      assert forall i :: 1 <= i < |s| ==> s[i] == s[1..][i - 1];
    }
  }

  /**
   * `TrimEnd(s)` is a prefix of `s`, what it cut is whitespace, and it
   * does not end with whitespace.
   */
  lemma {:induction false} TrimEndSpec(s: string)
    ensures var r := TrimEnd(s);
      && |r| <= |s| && r == s[..|r|]
      && WhitespaceBetween(s, |r|, |s|)
      && (r == [] || !IsWhitespace(r[|r| - 1]))
    decreases |s|
  {
    if s != [] && IsWhitespace(s[|s| - 1]) {
      TrimEndSpec(s[..|s| - 1]);
      assert forall i :: 0 <= i < |s| - 1 ==> s[i] == s[..|s| - 1][i];
    }
  }

  /** The trimmed text starts and ends with no whitespace. */
  lemma TrimTrimmed(s: string)
    ensures IsTrimmed(Trim(s))
  {
    var t := TrimStart(s);
    TrimStartSpec(s);
    TrimEndSpec(t);
    var r := TrimEnd(t);
    assert r != [] ==> r[0] == t[0];
  }

  /**
   * `c` is what is left of `s` once a whitespace run is cut off each end,
   * and `c` itself starts and ends with no whitespace.
   */
  predicate TrimmedSliceOf(c: string, s: string) {
    && IsTrimmed(c)
    && exists a: nat :: a + |c| <= |s| && c == s[a..a + |c|]
         && WhitespaceBetween(s, 0, a) && WhitespaceBetween(s, a + |c|, |s|)
  }

  /** `Trim(s)` is a contiguous slice of `s` with only whitespace around it. */
  lemma TrimSlice(s: string)
    ensures TrimmedSliceOf(Trim(s), s)
  {
    var t := TrimStart(s);
    TrimStartSpec(s);
    var a := |s| - |t|;
    var r := TrimEnd(t);
    TrimEndSpec(t);
    TrimTrimmed(s);
    SliceOfSuffix(s, t, r, a);
  }

  /** `r`, a prefix of the suffix `t` of `s`, is a slice of `s`. */
  lemma SliceOfSuffix(s: string, t: string, r: string, a: nat)
    requires a <= |s| && t == s[a..] && |r| <= |t| && r == t[..|r|]
    requires WhitespaceBetween(t, |r|, |t|)
    ensures a + |r| <= |s| && r == s[a..a + |r|]
    ensures WhitespaceBetween(s, a + |r|, |s|)
  {
    assert forall i :: a <= i < |s| ==> s[i] == t[i - a];
  }

  /** Trimming the start cuts exactly the whitespace run before index `k`. */
  lemma {:induction false} TrimStartAt(s: string, k: nat)
    requires k <= |s| && WhitespaceBetween(s, 0, k)
    requires k == |s| || !IsWhitespace(s[k])
    ensures TrimStart(s) == s[k..]
    decreases k
  {
    if k > 0 {
      var t := s[1..];
      assert forall i :: 0 <= i < |t| ==> t[i] == s[i + 1];
      TrimStartAt(t, k - 1);
      assert t[k - 1..] == s[k..];
    }
  }

  /** Trimming the end cuts exactly the whitespace run from index `k` on. */
  lemma {:induction false} TrimEndAt(s: string, k: nat)
    requires k <= |s| && WhitespaceBetween(s, k, |s|)
    requires k == 0 || !IsWhitespace(s[k - 1])
    ensures TrimEnd(s) == s[..k]
    decreases |s| - k
  {
    if k < |s| {
      var t := s[..|s| - 1];
      assert forall i :: 0 <= i < |t| ==> t[i] == s[i];
      TrimEndAt(t, k);
      assert t[..k] == s[..k];
    }
  }

  lemma TrimStartOfPrefix(pre: string, rest: string)
    requires AllWhitespace(pre)
    requires rest == [] || !IsWhitespace(rest[0])
    ensures TrimStart(pre + rest) == rest
  {
    var s := pre + rest;
    assert forall i :: 0 <= i < |pre| ==> s[i] == pre[i];
    TrimStartAt(s, |pre|);
    assert s[|pre|..] == rest;
  }

  lemma TrimEndOfSuffix(rest: string, post: string)
    requires AllWhitespace(post)
    requires rest == [] || !IsWhitespace(rest[|rest| - 1])
    ensures TrimEnd(rest + post) == rest
  {
    var s := rest + post;
    assert forall i :: |rest| <= i < |s| ==> s[i] == post[i - |rest|];
    TrimEndAt(s, |rest|);
    assert s[..|rest|] == rest;
  }

  /**
   * `Trim` is the only way to cut whitespace off both ends: whenever `s`
   * is a whitespace run, a trimmed middle and a whitespace run, `Trim(s)`
   * is that middle.
   */
  lemma TrimUnique(pre: string, mid: string, post: string)
    requires AllWhitespace(pre) && AllWhitespace(post) && IsTrimmed(mid)
    ensures Trim(pre + mid + post) == mid
  {
    if mid == [] {
      assert pre + mid + post == pre + post;
      assert AllWhitespace(pre + post);
      TrimStartOfPrefix(pre + post, []);
      assert pre + post + [] == pre + post;
    } else {
      assert pre + mid + post == pre + (mid + post);
      TrimStartOfPrefix(pre, mid + post);
      TrimEndOfSuffix(mid, post);
    }
  }

  lemma TrimIdempotent(s: string)
    ensures Trim(Trim(s)) == Trim(s)
  {
    var m := Trim(s);
    TrimTrimmed(s);
    TrimUnique([], m, []);
    assert [] + m + [] == m;
  }

  // ---------------------------------------------------------------------
  // Lexicographic order on strings
  // ---------------------------------------------------------------------

  /**
   * `a < b` under Rust's `Ord for str`: lexicographic on bytes, which for
   * UTF-8 is the same as lexicographic on code points.
   */
  predicate LexLess(a: string, b: string)
    decreases |a|
  {
    if a == [] then b != []
    else b != [] && (a[0] < b[0] || (a[0] == b[0] && LexLess(a[1..], b[1..])))
  }

  lemma {:induction false} LexLessAsymmetric(a: string, b: string)
    ensures !(LexLess(a, b) && LexLess(b, a))
    decreases |a|
  {
    if a != [] && b != [] && a[0] == b[0] {
      LexLessAsymmetric(a[1..], b[1..]);
    }
  }

  lemma {:induction false} LexLessTransitive(a: string, b: string, c: string)
    requires LexLess(a, b) && LexLess(b, c)
    ensures LexLess(a, c)
    decreases |a|
  {
    if a != [] && a[0] == b[0] && b[0] == c[0] {
      LexLessTransitive(a[1..], b[1..], c[1..]);
    }
  }

  lemma {:induction false} LexLessTotal(a: string, b: string)
    requires a != b
    ensures LexLess(a, b) || LexLess(b, a)
    decreases |a|
  {
    if a != [] && b != [] && a[0] == b[0] && a[1..] != b[1..] {
      LexLessTotal(a[1..], b[1..]);
    }
  }
}
