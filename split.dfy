/**
 * Rust's `str::find` and `str::splitn` for a non-empty string pattern, as
 * `parse_post` uses them to cut a file at its `---` delimiters.
 */
module Split {
  import opened Wrappers

  /** `pat` occurs in `s` starting at index `k`. */
  predicate MatchAt(s: string, pat: string, k: nat) {
    k + |pat| <= |s| && s[k..k + |pat|] == pat
  }

  /** The first index at or after `from` where `pat` occurs in `s`. */
  function FindFrom(s: string, pat: string, from: nat): (r: Option<nat>)
    requires from <= |s|
    ensures r.Some? ==> from <= r.value && r.value + |pat| <= |s|
    decreases |s| - from
  {
    if from + |pat| > |s| then None
    else if s[from..from + |pat|] == pat then Some(from)
    else FindFrom(s, pat, from + 1)
  }

  /**
   * `FindFrom` finds the leftmost occurrence: `pat` occurs at the index it
   * returns and nowhere between `from` and that index (nowhere from `from`
   * on when it returns `None`).
   */
  lemma {:induction false} FindFromSpec(s: string, pat: string, from: nat)
    requires from <= |s|
    ensures FindFrom(s, pat, from).Some? ==> MatchAt(s, pat, FindFrom(s, pat, from).value)
    ensures forall k :: from <= k && (FindFrom(s, pat, from).None? || k < FindFrom(s, pat, from).value) ==>
      !MatchAt(s, pat, k)
    decreases |s| - from
  {
    if from + |pat| <= |s| && s[from..from + |pat|] != pat {
      FindFromSpec(s, pat, from + 1);
    }
  }

  /** `str::find` with a string pattern. */
  function Find(s: string, pat: string): Option<nat> {
    FindFrom(s, pat, 0)
  }

  /** A slice of `s` in which `s` has no occurrence of `pat` is free of `pat`. */
  lemma NoMatchInSlice(s: string, pat: string, a: nat, b: nat)
    requires a <= b <= |s|
    requires forall k :: a <= k && k + |pat| <= b ==> !MatchAt(s, pat, k)
    ensures Find(s[a..b], pat).None?
  {
    var q := Find(s[a..b], pat);
    FindFromSpec(s[a..b], pat, 0);
    if q.Some? {
      var k := q.value;
      assert s[a..b][k..k + |pat|] == s[a + k..a + k + |pat|];
      assert MatchAt(s, pat, a + k);
    }
  }

  /** The inverse of splitting: the parts with `sep` between them. */
  function Join(parts: seq<string>, sep: string): string
    decreases |parts|
  {
    if |parts| == 0 then ""
    else if |parts| == 1 then parts[0]
    else parts[0] + sep + Join(parts[1..], sep)
  }

  lemma JoinCons(head: string, rest: seq<string>, sep: string)
    requires rest != []
    ensures Join([head] + rest, sep) == head + sep + Join(rest, sep)
  {
    assert ([head] + rest)[1..] == rest;
  }

  /**
   * The pieces Rust's `SplitN` iterator still yields when it stands at
   * position `start` of `s` with `n` pieces left to give: each piece but
   * the last ends at the leftmost occurrence of `pat` from the current
   * position, and the search resumes after that occurrence.
   */
  function SplitFrom(s: string, n: nat, pat: string, start: nat): seq<string>
    requires pat != [] && start <= |s|
    decreases n
  {
    if n == 0 then []
    else if n == 1 then [s[start..]]
    else
      match FindFrom(s, pat, start)
      case None => [s[start..]]
      case Some(i) => [s[start..i]] + SplitFrom(s, n - 1, pat, i + |pat|)
  }

  /** `str::splitn(n, pat)`. */
  function SplitN(s: string, n: nat, pat: string): seq<string>
    requires pat != []
  {
    SplitFrom(s, n, pat, 0)
  }

  /** Cutting out an occurrence of `pat` and putting it back changes nothing. */
  lemma Reassemble(s: string, pat: string, start: nat, i: nat)
    requires start <= i && MatchAt(s, pat, i)
    ensures s[start..i] + pat + s[i + |pat|..] == s[start..]
  {
    assert s[start..] == s[start..i] + s[i..i + |pat|] + s[i + |pat|..];
  }

  /** The pieces of a split that stops at once. */
  lemma SplitFromLast(s: string, n: nat, pat: string, start: nat)
    requires pat != [] && start <= |s| && (n == 1 || (n > 1 && FindFrom(s, pat, start).None?))
    ensures SplitFrom(s, n, pat, start) == [s[start..]]
  {
  }

  /** One step of the iterator: the piece up to the next occurrence, then the rest. */
  lemma SplitFromStep(s: string, n: nat, pat: string, start: nat, i: nat)
    requires pat != [] && n > 1 && start <= |s| && FindFrom(s, pat, start) == Some(i)
    ensures SplitFrom(s, n, pat, start) == [s[start..i]] + SplitFrom(s, n - 1, pat, i + |pat|)
  {
  }

  lemma SplitFromJoinStep(s: string, n: nat, pat: string, start: nat, i: nat)
    requires pat != [] && n > 1 && start <= |s| && FindFrom(s, pat, start) == Some(i)
    requires 1 <= |SplitFrom(s, n - 1, pat, i + |pat|)| <= n - 1
    requires Join(SplitFrom(s, n - 1, pat, i + |pat|), pat) == s[i + |pat|..]
    ensures 1 <= |SplitFrom(s, n, pat, start)| <= n
    ensures Join(SplitFrom(s, n, pat, start), pat) == s[start..]
  {
    var rest := SplitFrom(s, n - 1, pat, i + |pat|);
    SplitFromStep(s, n, pat, start, i);
    FindFromSpec(s, pat, start);
    JoinCons(s[start..i], rest, pat);
    Reassemble(s, pat, start, i);
  }

  lemma {:induction false} SplitFromJoin(s: string, n: nat, pat: string, start: nat)
    requires pat != [] && n > 0 && start <= |s|
    ensures 1 <= |SplitFrom(s, n, pat, start)| <= n
    ensures Join(SplitFrom(s, n, pat, start), pat) == s[start..]
    decreases n
  {
    if n > 1 && FindFrom(s, pat, start).Some? {
      var i := FindFrom(s, pat, start).value;
      SplitFromJoin(s, n - 1, pat, i + |pat|);
      SplitFromJoinStep(s, n, pat, start, i);
    } else {
      SplitFromLast(s, n, pat, start);
    }
  }

  /**
   * Splitting loses nothing: for `n > 0` there are between 1 and `n`
   * pieces, and joining them with `pat` gives `s` back.
   */
  lemma SplitNJoin(s: string, n: nat, pat: string)
    requires pat != [] && n > 0
    ensures 1 <= |SplitN(s, n, pat)| <= n
    ensures Join(SplitN(s, n, pat), pat) == s
  {
    SplitFromJoin(s, n, pat, 0);
    assert s[0..] == s;
  }

  /**
   * Every piece but the last is free of `pat`, and so is the last when
   * fewer than `n` pieces came out.
   */
  predicate PiecesFree(parts: seq<string>, n: nat, pat: string) {
    && (forall k :: 0 <= k < |parts| - 1 ==> Find(parts[k], pat).None?)
    && (0 < |parts| < n ==> Find(parts[|parts| - 1], pat).None?)
  }

  lemma SplitFromPiecesStep(s: string, n: nat, pat: string, start: nat, i: nat)
    requires pat != [] && n > 1 && start <= |s| && FindFrom(s, pat, start) == Some(i)
    requires PiecesFree(SplitFrom(s, n - 1, pat, i + |pat|), n - 1, pat)
    ensures PiecesFree(SplitFrom(s, n, pat, start), n, pat)
  {
    var rest := SplitFrom(s, n - 1, pat, i + |pat|);
    var parts := SplitFrom(s, n, pat, start);
    SplitFromStep(s, n, pat, start, i);
    FindFromSpec(s, pat, start);
    NoMatchInSlice(s, pat, start, i);
    assert forall k :: 1 <= k < |parts| ==> parts[k] == rest[k - 1];
  }

  lemma {:induction false} SplitFromPieces(s: string, n: nat, pat: string, start: nat)
    requires pat != [] && start <= |s|
    ensures PiecesFree(SplitFrom(s, n, pat, start), n, pat)
    decreases n
  {
    if n > 1 {
      match FindFrom(s, pat, start)
      case Some(i) =>
        SplitFromPieces(s, n - 1, pat, i + |pat|);
        SplitFromPiecesStep(s, n, pat, start, i);
      case None =>
        FindFromSpec(s, pat, start);
        NoMatchInSlice(s, pat, start, |s|);
        assert s[start..|s|] == s[start..];
    }
  }

  /**
   * Every piece but the last is free of `pat`, and so is the last one when
   * fewer than `n` pieces came out: the cap on the count is the only thing
   * that leaves an occurrence of `pat` inside a piece.
   */
  lemma SplitNPieces(s: string, n: nat, pat: string)
    requires pat != []
    ensures forall k :: 0 <= k < |SplitN(s, n, pat)| - 1 ==> Find(SplitN(s, n, pat)[k], pat).None?
    ensures 0 < |SplitN(s, n, pat)| < n ==> Find(SplitN(s, n, pat)[|SplitN(s, n, pat)| - 1], pat).None?
  {
    SplitFromPieces(s, n, pat, 0);
  }

  lemma SplitThreeFirst(s: string, pat: string, i: nat)
    requires pat != [] && Find(s, pat) == Some(i)
    ensures SplitN(s, 3, pat) == [s[..i]] + SplitFrom(s, 2, pat, i + |pat|)
  {
    SplitFromStep(s, 3, pat, 0, i);
    assert s[0..i] == s[..i];
  }

  lemma SplitTwoFrom(s: string, pat: string, m: nat)
    requires pat != [] && m <= |s|
    ensures match FindFrom(s, pat, m)
      case None => SplitFrom(s, 2, pat, m) == [s[m..]]
      case Some(j) => SplitFrom(s, 2, pat, m) == [s[m..j], s[j + |pat|..]]
  {
    match FindFrom(s, pat, m)
    case None =>
    case Some(j) =>
      SplitFromStep(s, 2, pat, m, j);
  }

  lemma SplitThreeNone(s: string, pat: string)
    requires pat != [] && Find(s, pat).None?
    ensures SplitN(s, 3, pat) == [s]
  {
    SplitFromLast(s, 3, pat, 0);
    assert s[0..] == s;
  }

  lemma SplitThreeOne(s: string, pat: string, i: nat)
    requires pat != [] && Find(s, pat) == Some(i) && FindFrom(s, pat, i + |pat|).None?
    ensures SplitN(s, 3, pat) == [s[..i], s[i + |pat|..]]
  {
    SplitThreeFirst(s, pat, i);
    SplitTwoFrom(s, pat, i + |pat|);
  }

  lemma SplitThreeTwo(s: string, pat: string, i: nat, j: nat)
    requires pat != [] && Find(s, pat) == Some(i) && FindFrom(s, pat, i + |pat|) == Some(j)
    ensures SplitN(s, 3, pat) == [s[..i], s[i + |pat|..j], s[j + |pat|..]]
  {
    SplitThreeFirst(s, pat, i);
    SplitTwoFrom(s, pat, i + |pat|);
  }

  /**
   * `splitn(3, pat)` exactly: with `i` the leftmost occurrence and `j` the
   * leftmost one starting after `i`'s end, the pieces are the text before
   * `i`, the text between the two, and everything after `j` (later
   * occurrences of `pat` included).
   */
  lemma SplitThree(s: string, pat: string)
    requires pat != []
    ensures Find(s, pat).None? ==> SplitN(s, 3, pat) == [s]
    ensures Find(s, pat).Some? && FindFrom(s, pat, Find(s, pat).value + |pat|).None? ==>
      var i := Find(s, pat).value;
      SplitN(s, 3, pat) == [s[..i], s[i + |pat|..]]
    ensures Find(s, pat).Some? && FindFrom(s, pat, Find(s, pat).value + |pat|).Some? ==>
      var i, j := Find(s, pat).value, FindFrom(s, pat, Find(s, pat).value + |pat|).value;
      SplitN(s, 3, pat) == [s[..i], s[i + |pat|..j], s[j + |pat|..]]
  {
    var fi := Find(s, pat);
    if fi.None? {
      SplitThreeNone(s, pat);
    } else {
      var i := fi.value;
      var fj := FindFrom(s, pat, i + |pat|);
      if fj.None? {
        SplitThreeOne(s, pat, i);
      } else {
        SplitThreeTwo(s, pat, i, fj.value);
      }
    }
  }

  /** The occurrences of `pat` in `s` at `i` and `j` do not overlap. */
  predicate TwoMatches(s: string, pat: string, i: nat, j: nat) {
    MatchAt(s, pat, i) && MatchAt(s, pat, j) && i + |pat| <= j
  }

  lemma FirstTwoFound(s: string, pat: string, i: nat, j: nat)
    requires TwoMatches(s, pat, i, j)
    ensures Find(s, pat).Some? && FindFrom(s, pat, Find(s, pat).value + |pat|).Some?
  {
    FindFromSpec(s, pat, 0);
    assert Find(s, pat).Some?;
    var i0 := Find(s, pat).value;
    assert i0 + |pat| <= j;
    FindFromSpec(s, pat, i0 + |pat|);
  }

  lemma FoundTwo(s: string, pat: string)
    requires Find(s, pat).Some?
    requires FindFrom(s, pat, Find(s, pat).value + |pat|).Some?
    ensures TwoMatches(s, pat, Find(s, pat).value, FindFrom(s, pat, Find(s, pat).value + |pat|).value)
  {
    FindFromSpec(s, pat, 0);
    FindFromSpec(s, pat, Find(s, pat).value + |pat|);
  }

  /** `s` has two delimiting occurrences exactly when the first two searches succeed. */
  lemma TwoMatchesFound(s: string, pat: string)
    ensures (exists i: nat, j: nat :: TwoMatches(s, pat, i, j)) <==>
      Find(s, pat).Some? && FindFrom(s, pat, Find(s, pat).value + |pat|).Some?
  {
    if exists i: nat, j: nat :: TwoMatches(s, pat, i, j) {
      var i: nat, j: nat :| TwoMatches(s, pat, i, j);
      FirstTwoFound(s, pat, i, j);
    }
    if Find(s, pat).Some? && FindFrom(s, pat, Find(s, pat).value + |pat|).Some? {
      FoundTwo(s, pat);
    }
  }

  lemma ThreePiecesFound(s: string, pat: string)
    requires pat != []
    ensures |SplitN(s, 3, pat)| == 3 <==>
      Find(s, pat).Some? && FindFrom(s, pat, Find(s, pat).value + |pat|).Some?
  {
    SplitThree(s, pat);
  }

  /**
   * `splitn(3, pat)` yields three pieces exactly when `s` holds two
   * non-overlapping occurrences of `pat`.
   */
  lemma SplitThreeCount(s: string, pat: string)
    requires pat != []
    ensures |SplitN(s, 3, pat)| == 3 <==> exists i: nat, j: nat :: TwoMatches(s, pat, i, j)
  {
    TwoMatchesFound(s, pat);
    ThreePiecesFound(s, pat);
  }
}
