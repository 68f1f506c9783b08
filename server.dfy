/**
 * `main` followed by `start_server`, end to end: the cache the server
 * answers `/posts/{slug}` from, given the content directory's listing.
 */
module Server {
  import opened Wrappers
  import opened Post
  import opened DateOrder
  import opened Load
  import opened Cache

  /** Load, sort and cache, as the program runs them one after the other. */
  method Start(listing: Option<seq<Option<DirEntry>>>,
               decodeYaml: string -> Option<FrontMatter>,
               renderHtml: string -> string)
    returns (cache: map<string, Post>)
    ensures cache == CacheOf(Startup(listing, decodeYaml, renderHtml))
  {
    var posts := LoadPosts(listing, decodeYaml, renderHtml);
    cache := BuildCache(posts);
  }

  /**
   * Every post loaded from a readable directory is served at its slug,
   * and a slug no loaded post carries gets the not-found page; an
   * unreadable directory serves nothing.
   */
  lemma ServedPosts(listing: Option<seq<Option<DirEntry>>>,
                    decodeYaml: string -> Option<FrontMatter>,
                    renderHtml: string -> string,
                    slug: string)
    requires listing.Some? ==> DistinctNames(listing.value)
    ensures var cache := CacheOf(Startup(listing, decodeYaml, renderHtml));
      && (listing.None? ==> PostDetail(cache, slug) == NotFound)
      && (listing.Some? ==>
            && (forall p :: p in Loaded(listing.value, decodeYaml, renderHtml) && p.slug == slug ==>
                 PostDetail(cache, slug) == Found(p))
            && (PostDetail(cache, slug) == NotFound <==>
                 forall p :: p in Loaded(listing.value, decodeYaml, renderHtml) ==> p.slug != slug))
  {
    var loaded := if listing.None? then [] else Loaded(listing.value, decodeYaml, renderHtml);
    var posts := SortByDate(loaded);
    if listing.Some? {
      LoadedSlugsDistinct(listing.value, decodeYaml, renderHtml);
    }
    SortDistinct(loaded);
    LookupInCache(posts, slug);
    forall p | p in loaded ensures p in posts {
      assert p in multiset(loaded);
    }
    forall p | p in posts ensures p in loaded {
      assert p in multiset(posts);
    }
    forall p | p in loaded && p.slug == slug ensures PostDetail(CacheOf(posts), slug) == Found(p) {
      LookupDistinct(posts, p);
    }
  }
}
