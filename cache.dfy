/**
 * `start_server`'s slug-keyed cache, the `post_detail` lookup and the
 * listing `home` builds from the cache.
 */
module Cache {
  import opened Post
  import opened DateOrder

  /** The `HashMap` after `insert(post.slug.clone(), post)` for each post in turn. */
  function CacheOf(posts: seq<Post>): map<string, Post>
    decreases |posts|
  {
    if posts == [] then map[]
    else
      var last := posts[|posts| - 1];
      CacheOf(posts[..|posts| - 1])[last.slug := last]
  }

  /** No post after index `i` has the slug of `posts[i]`. */
  predicate LastWithSlug(posts: seq<Post>, i: nat)
    requires i < |posts|
  {
    forall j :: i < j < |posts| ==> posts[j].slug != posts[i].slug
  }

  /**
   * The cache holds one key per slug of `posts`, each key maps to a post
   * with that slug, and that post is the last one in `posts` to carry it.
   */
  lemma {:induction false} CacheOfContents(posts: seq<Post>)
    ensures CacheOf(posts).Keys == set p | p in posts :: p.slug
    ensures forall k :: k in CacheOf(posts) ==> CacheOf(posts)[k].slug == k
    ensures forall i :: 0 <= i < |posts| && LastWithSlug(posts, i) ==> CacheOf(posts)[posts[i].slug] == posts[i]
    decreases |posts|
  {
    if posts != [] {
      var n := |posts| - 1;
      var init, last := posts[..n], posts[n];
      CacheOfContents(init);
      assert posts == init + [last];
      forall i | 0 <= i < n && LastWithSlug(posts, i)
        ensures CacheOf(posts)[posts[i].slug] == posts[i]
      {
        assert init[i] == posts[i];
        assert LastWithSlug(init, i);
      }
    }
  }

  /** The cache-building loop of `start_server`. */
  method BuildCache(posts: seq<Post>) returns (cache: map<string, Post>)
    ensures cache == CacheOf(posts)
    ensures cache.Keys == set p | p in posts :: p.slug
    ensures forall k :: k in cache ==> cache[k].slug == k
    ensures forall i :: 0 <= i < |posts| && LastWithSlug(posts, i) ==> cache[posts[i].slug] == posts[i]
  {
    cache := map[];
    for i := 0 to |posts|
      invariant cache == CacheOf(posts[..i])
    {
      assert posts[..i + 1][..i] == posts[..i];
      cache := cache[posts[i].slug := posts[i]];
    }
    assert posts[..|posts|] == posts;
    CacheOfContents(posts);
  }

  // ---------------------------------------------------------------------
  // post_detail
  // ---------------------------------------------------------------------

  /** What `post_detail` answers: the post to render, or the 404 page. */
  datatype Response = Found(post: Post) | NotFound

  function PostDetail(cache: map<string, Post>, slug: string): Response {
    if slug in cache then Found(cache[slug]) else NotFound
  }

  /**
   * Looking a slug up in the cache built from `posts`: not found exactly
   * when no post has that slug, and otherwise the last post with it.
   */
  lemma LookupInCache(posts: seq<Post>, slug: string)
    ensures PostDetail(CacheOf(posts), slug) == NotFound <==> forall p :: p in posts ==> p.slug != slug
    ensures PostDetail(CacheOf(posts), slug).Found? ==>
      exists i :: 0 <= i < |posts| && LastWithSlug(posts, i) && posts[i].slug == slug
        && PostDetail(CacheOf(posts), slug) == Found(posts[i])
  {
    CacheOfContents(posts);
    if slug in CacheOf(posts) {
      var i := LastIndexOf(posts, slug);
    }
  }

  /** The last index of `posts` with slug `slug`, when there is one. */
  lemma {:induction false} LastIndexOf(posts: seq<Post>, slug: string) returns (i: nat)
    requires exists p :: p in posts && p.slug == slug
    ensures i < |posts| && posts[i].slug == slug && LastWithSlug(posts, i)
    decreases |posts|
  {
    var n := |posts| - 1;
    if posts[n].slug == slug {
      i := n;
    } else {
      var p :| p in posts && p.slug == slug;
      assert p in posts[..n] by {
        var k :| 0 <= k < |posts| && posts[k] == p;
        assert posts[..n][k] == p;
      }
      i := LastIndexOf(posts[..n], slug);
      assert posts[..n][i] == posts[i];
    }
  }

  /** When slugs are distinct, every post is served at its own slug. */
  lemma LookupDistinct(posts: seq<Post>, p: Post)
    requires DistinctSlugs(posts) && p in posts
    ensures PostDetail(CacheOf(posts), p.slug) == Found(p)
  {
    CacheOfContents(posts);
    var i :| 0 <= i < |posts| && posts[i] == p;
    assert LastWithSlug(posts, i);
  }

  // ---------------------------------------------------------------------
  // home
  // ---------------------------------------------------------------------

  /** `keys` lists every key of `cache` once: an iteration order of the map. */
  predicate IterationOrder(cache: map<string, Post>, keys: seq<string>) {
    && (forall i :: 0 <= i < |keys| ==> keys[i] in cache)
    && (forall k :: k in cache ==> k in keys)
    && (forall i, j :: 0 <= i < j < |keys| ==> keys[i] != keys[j])
  }

  /** `posts.values().collect()` when the map yields its keys as `keys`. */
  function Values(cache: map<string, Post>, keys: seq<string>): (r: seq<Post>)
    requires forall i :: 0 <= i < |keys| ==> keys[i] in cache
    ensures |r| == |keys|
    ensures forall i :: 0 <= i < |keys| ==> r[i] == cache[keys[i]]
    decreases |keys|
  {
    if keys == [] then [] else [cache[keys[0]]] + Values(cache, keys[1..])
  }

  /** The listing `home` renders: the cache's posts, newest first. */
  function HomeListing(cache: map<string, Post>, keys: seq<string>): seq<Post>
    requires forall i :: 0 <= i < |keys| ==> keys[i] in cache
  {
    SortByDate(Values(cache, keys))
  }

  /**
   * The home page lists every cached post once, newest first, posts with
   * equal dates in the order the map yielded them.
   */
  lemma HomeListingContents(cache: map<string, Post>, keys: seq<string>)
    requires IterationOrder(cache, keys)
    ensures |HomeListing(cache, keys)| == |keys|
    ensures forall p :: p in HomeListing(cache, keys) <==> p in cache.Values
    ensures StableArrangement(Values(cache, keys), HomeListing(cache, keys))
  {
    var v := Values(cache, keys);
    var r := HomeListing(cache, keys);
    StableSortUnique(v, r);
    assert |r| == |multiset(r)| == |multiset(v)| == |v|;
    forall p ensures p in r <==> p in cache.Values {
      assert p in r <==> p in multiset(v);
      if p in cache.Values {
        var k :| k in cache && cache[k] == p;
        var i :| 0 <= i < |keys| && keys[i] == k;
        assert v[i] == p;
      }
    }
  }

  /** No two keys of `cache` hold posts with the same date. */
  predicate DistinctDates(cache: map<string, Post>) {
    forall a, b :: a in cache && b in cache && a != b ==> cache[a].frontmatter.date != cache[b].frontmatter.date
  }

  lemma {:induction false} WithDateOfDistinct(s: seq<Post>, d: string)
    requires forall i, j :: 0 <= i < j < |s| ==> s[i].frontmatter.date != s[j].frontmatter.date
    ensures forall i :: 0 <= i < |s| && s[i].frontmatter.date == d ==> WithDate(s, d) == [s[i]]
    ensures (forall i :: 0 <= i < |s| ==> s[i].frontmatter.date != d) ==> WithDate(s, d) == []
    decreases |s|
  {
    if s != [] {
      WithDateOfDistinct(s[1..], d);
      forall i | 0 < i < |s| ensures s[i] == s[1..][i - 1] { }
    }
  }

  lemma SameFilterOfDistinct(cache: map<string, Post>, keys1: seq<string>, keys2: seq<string>, d: string)
    requires IterationOrder(cache, keys1) && IterationOrder(cache, keys2)
    requires DistinctDates(cache)
    ensures WithDate(Values(cache, keys1), d) == WithDate(Values(cache, keys2), d)
  {
    var v1, v2 := Values(cache, keys1), Values(cache, keys2);
    WithDateOfDistinct(v1, d);
    WithDateOfDistinct(v2, d);
    if k :| k in cache && cache[k].frontmatter.date == d {
      var i :| 0 <= i < |keys1| && keys1[i] == k;
      var j :| 0 <= j < |keys2| && keys2[j] == k;
      assert v1[i] == v2[j];
    }
  }

  /**
   * When no two cached posts share a date the listing does not depend on
   * the order the map yields its entries in.
   */
  lemma HomeOrderIndependent(cache: map<string, Post>, keys1: seq<string>, keys2: seq<string>)
    requires IterationOrder(cache, keys1) && IterationOrder(cache, keys2)
    requires DistinctDates(cache)
    ensures HomeListing(cache, keys1) == HomeListing(cache, keys2)
  {
    var v1, v2 := Values(cache, keys1), Values(cache, keys2);
    var r2 := HomeListing(cache, keys2);
    forall d ensures WithDate(r2, d) == WithDate(v1, d) {
      SortByDateStable(v2, d);
      SameFilterOfDistinct(cache, keys1, keys2, d);
    }
    StableSortUnique(v1, r2);
  }
}
