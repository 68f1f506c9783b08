/**
 * `posts.sort_by(|a, b| b.frontmatter.date.cmp(&a.frontmatter.date))`:
 * newest first by lexicographic comparison of the date strings. Rust's
 * `sort_by` is a stable sort, so posts with equal dates keep the order
 * they had before; `SortByDate` is the stable sort for this comparator,
 * written as an insertion sort.
 */
module DateOrder {
  import opened Text
  import opened Post
  import opened Seqs

  /** The comparator puts `a` before `b`: `a`'s date is strictly greater. */
  predicate Newer(a: Post, b: Post) {
    LexLess(b.frontmatter.date, a.frontmatter.date)
  }

  /** Consecutive posts have non-increasing dates. */
  predicate NewestFirst(s: seq<Post>) {
    forall i :: 0 < i < |s| ==> !Newer(s[i], s[i - 1])
  }

  /** The posts of `s` dated `d`, in their order in `s`. */
  function WithDate(s: seq<Post>, d: string): seq<Post>
    decreases |s|
  {
    if s == [] then []
    else (if s[0].frontmatter.date == d then [s[0]] else []) + WithDate(s[1..], d)
  }

  /** Put `p` in front of the first post of `s` that is not strictly newer. */
  function Insert(p: Post, s: seq<Post>): (r: seq<Post>)
    ensures multiset(r) == multiset(s) + multiset{p}
    ensures r[0] == p || (s != [] && r[0] == s[0])
    decreases |s|
  {
    if s == [] || !Newer(s[0], p) then [p] + s
    else
      HeadTail(s);
      [s[0]] + Insert(p, s[1..])
  }

  /** Inserting into a newest-first sequence keeps it newest first. */
  lemma {:induction false} InsertOrdered(p: Post, s: seq<Post>)
    requires NewestFirst(s)
    ensures NewestFirst(Insert(p, s))
    decreases |s|
  {
    if s != [] && Newer(s[0], p) {
      var tail := Insert(p, s[1..]);
      InsertOrdered(p, s[1..]);
      LexLessAsymmetric(s[0].frontmatter.date, p.frontmatter.date);
      assert !Newer(tail[0], s[0]);
      assert Insert(p, s) == [s[0]] + tail;
    }
  }

  /** The date sort: newest first, ties in their original order. */
  function SortByDate(s: seq<Post>): (r: seq<Post>)
    ensures NewestFirst(r)
    ensures multiset(r) == multiset(s)
    decreases |s|
  {
    if s == [] then []
    else
      HeadTail(s);
      InsertOrdered(s[0], SortByDate(s[1..]));
      Insert(s[0], SortByDate(s[1..]))
  }

  lemma WithDateCons(p: Post, s: seq<Post>, d: string)
    ensures WithDate([p] + s, d) == (if p.frontmatter.date == d then [p] else []) + WithDate(s, d)
  {
    assert ([p] + s)[1..] == s;
  }

  lemma {:induction false} InsertWithDate(p: Post, s: seq<Post>, d: string)
    ensures WithDate(Insert(p, s), d) == (if p.frontmatter.date == d then [p] else []) + WithDate(s, d)
    decreases |s|
  {
    if s == [] || !Newer(s[0], p) {
      WithDateCons(p, s, d);
    } else {
      LexLessAsymmetric(s[0].frontmatter.date, p.frontmatter.date);
      assert s[0].frontmatter.date != p.frontmatter.date;
      InsertWithDate(p, s[1..], d);
      WithDateCons(s[0], Insert(p, s[1..]), d);
      WithDateCons(s[0], s[1..], d);
      assert [s[0]] + s[1..] == s;
    }
  }

  /**
   * Stability: for every date, the posts with that date come out in the
   * order they went in.
   */
  lemma {:induction false} SortByDateStable(s: seq<Post>, d: string)
    ensures WithDate(SortByDate(s), d) == WithDate(s, d)
    decreases |s|
  {
    if s != [] {
      SortByDateStable(s[1..], d);
      InsertWithDate(s[0], SortByDate(s[1..]), d);
      WithDateCons(s[0], s[1..], d);
      assert [s[0]] + s[1..] == s;
    }
  }

  /** "Not older than" is transitive, so newest-first order holds pairwise. */
  lemma NotNewerTransitive(a: Post, b: Post, c: Post)
    requires !Newer(a, b) && !Newer(b, c)
    ensures !Newer(a, c)
  {
    var x, y, z := a.frontmatter.date, b.frontmatter.date, c.frontmatter.date;
    if LexLess(z, x) {
      if x != y {
        LexLessTotal(x, y);
        if LexLess(x, y) {
          LexLessTransitive(z, x, y);
        }
      }
    }
  }

  lemma {:induction false} NewestFirstPairwise(s: seq<Post>, i: nat, j: nat)
    requires NewestFirst(s) && i <= j < |s|
    ensures !Newer(s[j], s[i])
    decreases j - i
  {
    if i == j {
      LexLessAsymmetric(s[i].frontmatter.date, s[i].frontmatter.date);
    } else {
      NewestFirstPairwise(s, i, j - 1);
      NotNewerTransitive(s[j], s[j - 1], s[i]);
    }
  }

  lemma {:induction false} WithDateMember(s: seq<Post>, d: string, p: Post)
    requires p in WithDate(s, d)
    ensures p in s && p.frontmatter.date == d
    decreases |s|
  {
    if s[0] != p || s[0].frontmatter.date != d {
      WithDateMember(s[1..], d, p);
    }
  }

  /** Equal date filters and newest-first order force equal first posts. */
  lemma SameHead(u: seq<Post>, v: seq<Post>)
    requires NewestFirst(u) && NewestFirst(v) && u != [] && v != []
    requires forall d :: WithDate(u, d) == WithDate(v, d)
    ensures u[0] == v[0]
  {
    var a, b := u[0], v[0];
    var da, db := a.frontmatter.date, b.frontmatter.date;
    assert WithDate(u, da)[0] == a;
    assert a in WithDate(v, da);
    WithDateMember(v, da, a);
    var k :| 0 <= k < |v| && v[k] == a;
    NewestFirstPairwise(v, 0, k);
    assert WithDate(v, db)[0] == b;
    assert b in WithDate(u, db);
    WithDateMember(u, db, b);
    var m :| 0 <= m < |u| && u[m] == b;
    NewestFirstPairwise(u, 0, m);
    if da != db {
      LexLessTotal(da, db);
    }
    assert WithDate(v, da)[0] == b;
  }

  lemma SameTailFilters(u: seq<Post>, v: seq<Post>, d: string)
    requires u != [] && v != [] && u[0] == v[0]
    requires WithDate(u, d) == WithDate(v, d)
    ensures WithDate(u[1..], d) == WithDate(v[1..], d)
  {
    var h := if u[0].frontmatter.date == d then [u[0]] else [];
    var x, y := WithDate(u[1..], d), WithDate(v[1..], d);
    assert WithDate(u, d) == h + x;
    assert WithDate(v, d) == h + y;
    assert (h + x)[|h|..] == x && (h + y)[|h|..] == y;
  }

  /** A nonempty sequence has at least one post dated like its first. */
  lemma FirstDateKept(s: seq<Post>)
    ensures s != [] ==> WithDate(s, s[0].frontmatter.date) != []
  {
  }

  lemma {:induction false} SameDateFilters(u: seq<Post>, v: seq<Post>)
    requires NewestFirst(u) && NewestFirst(v)
    requires forall d :: WithDate(u, d) == WithDate(v, d)
    ensures u == v
    decreases |u|
  {
    FirstDateKept(u);
    FirstDateKept(v);
    if u != [] && v != [] {
      SameHead(u, v);
      forall d ensures WithDate(u[1..], d) == WithDate(v[1..], d) {
        SameTailFilters(u, v, d);
      }
      SameDateFilters(u[1..], v[1..]);
      assert u == [u[0]] + u[1..] && v == [v[0]] + v[1..];
    }
  }

  /**
   * `t` is `s` arranged newest first with equal dates in their order in
   * `s`: what a stable sort with this comparator may return.
   */
  ghost predicate StableArrangement(s: seq<Post>, t: seq<Post>) {
    NewestFirst(t) && forall d :: WithDate(t, d) == WithDate(s, d)
  }

  /**
   * `SortByDate(s)` is the one and only stable newest-first arrangement of
   * `s`.
   */
  lemma StableSortUnique(s: seq<Post>, t: seq<Post>)
    ensures StableArrangement(s, t) <==> t == SortByDate(s)
  {
    if t == SortByDate(s) {
      forall d ensures WithDate(t, d) == WithDate(s, d) {
        SortByDateStable(s, d);
      }
    } else if StableArrangement(s, t) {
      StableArrangementIsSort(s, t);
    }
  }

  lemma StableArrangementIsSort(s: seq<Post>, t: seq<Post>)
    requires StableArrangement(s, t)
    ensures t == SortByDate(s)
  {
    var r := SortByDate(s);
    forall d ensures WithDate(t, d) == WithDate(r, d) {
      SortByDateStable(s, d);
    }
    SameDateFilters(t, r);
  }

  lemma {:induction false} InsertDistinct(p: Post, s: seq<Post>)
    requires DistinctSlugs(s)
    requires forall q :: q in s ==> q.slug != p.slug
    ensures DistinctSlugs(Insert(p, s))
    decreases |s|
  {
    if s != [] && Newer(s[0], p) {
      InsertDistinct(p, s[1..]);
      var t := Insert(p, s[1..]);
      forall q | q in t ensures q.slug != s[0].slug {
        assert q in multiset(t);
        assert q == p || q in multiset(s[1..]);
      }
      assert Insert(p, s) == [s[0]] + t;
    }
  }

  /** Sorting keeps slugs distinct. */
  lemma {:induction false} SortDistinct(s: seq<Post>)
    requires DistinctSlugs(s)
    ensures DistinctSlugs(SortByDate(s))
    decreases |s|
  {
    if s != [] {
      SortDistinct(s[1..]);
      var t := SortByDate(s[1..]);
      forall q | q in t ensures q.slug != s[0].slug {
        assert q in multiset(t);
        assert q in s[1..];
      }
      InsertDistinct(s[0], t);
    }
  }

  // ---------------------------------------------------------------------
  // Sorting the vector in place
  // ---------------------------------------------------------------------

  /**
   * Put `p` behind the last post of `s` that is not strictly older than it:
   * what one pass of an insertion sort does when it walks `p` leftwards.
   */
  function InsertFromRight(p: Post, s: seq<Post>): (r: seq<Post>)
    ensures |r| == |s| + 1
    ensures r[|r| - 1] == p || (s != [] && r[|r| - 1] == s[|s| - 1])
    decreases |s|
  {
    if s == [] || !Newer(p, s[|s| - 1]) then s + [p]
    else InsertFromRight(p, s[..|s| - 1]) + [s[|s| - 1]]
  }

  lemma {:induction false} WithDateAppend(a: seq<Post>, b: seq<Post>, d: string)
    ensures WithDate(a + b, d) == WithDate(a, d) + WithDate(b, d)
    decreases |a|
  {
    if a != [] {
      assert a + b == [a[0]] + (a[1..] + b);
      assert a == [a[0]] + a[1..];
      var h := if a[0].frontmatter.date == d then [a[0]] else [];
      WithDateCons(a[0], a[1..] + b, d);
      WithDateCons(a[0], a[1..], d);
      WithDateAppend(a[1..], b, d);
      assert WithDate(a + b, d) == h + (WithDate(a[1..], d) + WithDate(b, d));
      assert WithDate(a, d) == h + WithDate(a[1..], d);
    } else {
      assert a + b == b;
    }
  }

  lemma WithDateSingle(p: Post, d: string)
    ensures WithDate([p], d) == if p.frontmatter.date == d then [p] else []
  {
    assert [p][1..] == [];
  }

  /** Inserting from the right keeps newest-first order. */
  lemma {:induction false} InsertFromRightOrdered(p: Post, s: seq<Post>)
    requires NewestFirst(s)
    ensures NewestFirst(InsertFromRight(p, s))
    decreases |s|
  {
    if s != [] && Newer(p, s[|s| - 1]) {
      var init, last := s[..|s| - 1], s[|s| - 1];
      var r' := InsertFromRight(p, init);
      assert NewestFirst(init);
      InsertFromRightOrdered(p, init);
      if r'[|r'| - 1] == p {
        LexLessAsymmetric(p.frontmatter.date, last.frontmatter.date);
      }
      assert InsertFromRight(p, s) == r' + [last];
    }
  }

  /** Inserting from the right puts `p` behind every post of its own date. */
  lemma {:induction false} InsertFromRightWithDate(p: Post, s: seq<Post>, d: string)
    ensures WithDate(InsertFromRight(p, s), d) == WithDate(s, d) + WithDate([p], d)
    decreases |s|
  {
    if s == [] || !Newer(p, s[|s| - 1]) {
      WithDateAppend(s, [p], d);
    } else {
      var init, last := s[..|s| - 1], s[|s| - 1];
      assert s == init + [last];
      var r' := InsertFromRight(p, init);
      InsertFromRightWithDate(p, init, d);
      WithDateAppend(r', [last], d);
      WithDateAppend(init, [last], d);
      WithDateSingle(p, d);
      WithDateSingle(last, d);
      LexLessAsymmetric(last.frontmatter.date, p.frontmatter.date);
      assert p.frontmatter.date != last.frontmatter.date;
    }
  }

  /** Sorting one more post at the back is inserting it from the right. */
  lemma SortByDateSnoc(s: seq<Post>, p: Post)
    ensures SortByDate(s + [p]) == InsertFromRight(p, SortByDate(s))
  {
    var t := SortByDate(s);
    var r := InsertFromRight(p, t);
    forall d ensures WithDate(r, d) == WithDate(s + [p], d) {
      InsertFromRightWithDate(p, t, d);
      SortByDateStable(s, d);
      WithDateAppend(s, [p], d);
    }
    InsertFromRightOrdered(p, t);
    StableArrangementIsSort(s + [p], r);
  }

  /**
   * `p` lands at index `j` of `s` when everything from `j` on is strictly
   * older than `p` and the post before `j` is not.
   */
  lemma {:induction false} InsertFromRightAt(p: Post, s: seq<Post>, j: nat)
    requires j <= |s|
    requires forall k :: j <= k < |s| ==> Newer(p, s[k])
    requires j == 0 || !Newer(p, s[j - 1])
    ensures InsertFromRight(p, s) == s[..j] + [p] + s[j..]
    decreases |s| - j
  {
    if j < |s| {
      var init := s[..|s| - 1];
      assert init[..j] == s[..j] && (j == 0 || init[j - 1] == s[j - 1]);
      InsertFromRightAt(p, init, j);
      assert init[j..] + [s[|s| - 1]] == s[j..];
    }
  }

  /**
   * One pass of the insertion sort: walk `a[i]` leftwards past the posts
   * of `a[..i]` that are strictly older, leaving `a[i + 1..]` alone.
   */
  method InsertPass(a: array<Post>, i: nat)
    requires i < a.Length
    modifies a
    ensures a[..] == InsertFromRight(old(a[i]), old(a[..i])) + old(a[i + 1..])
  {
    ghost var t, rest := a[..i], a[i + 1..];
    var x := a[i];
    SplitAt(a[..], i);
    Ends(t);
    var j := i;
    while j > 0 && Newer(x, a[j - 1])
      invariant 0 <= j <= i
      invariant a[..] == t[..j] + [x] + t[j..] + rest
      invariant forall k :: j <= k < i ==> Newer(x, t[k])
    {
      ghost var before := a[..];
      assert a[j - 1] == t[j - 1];
      a[j - 1], a[j] := a[j], a[j - 1];
      assert a[..] == before[j - 1 := x][j := t[j - 1]];
      SwapAdjacent(t, x, rest, j);
      j := j - 1;
    }
    assert j == 0 || a[j - 1] == t[j - 1];
    InsertFromRightAt(x, t, j);
  }

  /**
   * `sort_by` on the vector: a stable insertion sort that walks each post
   * leftwards past the strictly older ones. The result is `SortByDate`,
   * the one stable newest-first arrangement.
   */
  method SortInPlace(a: array<Post>)
    modifies a
    ensures a[..] == SortByDate(old(a[..]))
  {
    ghost var s := a[..];
    Ends(s);
    var i := 0;
    while i < a.Length
      invariant 0 <= i <= a.Length == |s|
      invariant a[..] == SortByDate(s[..i]) + s[i..]
    {
      ghost var sorted := SortByDate(s[..i]);
      Step(s, i);
      Pieces(a[..], sorted, s[i..]);
      InsertPass(a, i);
      SortByDateSnoc(s[..i], s[i]);
      i := i + 1;
    }
  }
}
